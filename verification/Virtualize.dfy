/** Which rows of a long list to draw: prefix sums built once, two binary searches per scroll. */
module Virtualize {

  /** `start..end`, and the offset at which `start` begins. */
  datatype VisibleRange = VisibleRange(start: nat, end: nat, startOffset: real)

  /** `prefix[i]` is the height of the first `i` items together. */
  datatype CumulativeHeights = CumulativeHeights(prefix: seq<real>)

  function Max(a: real, b: real): real { if a < b then b else a }

  function Clamp(x: real, lo: real, hi: real): real { if x < lo then lo else if hi < x then hi else x }

  /** A negative height counts as nothing. */
  function Height(h: real): real { Max(h, 0.0) }

  /** Where item `i` begins, added up item by item. */
  function Offset(heights: seq<real>, i: nat): real
    requires i <= |heights|
  {
    if i == 0 then 0.0 else Offset(heights, i - 1) + Height(heights[i - 1])
  }

  ghost predicate TableOf(table: CumulativeHeights, heights: seq<real>) {
    && |table.prefix| == |heights| + 1
    && forall i | 0 <= i <= |heights| :: table.prefix[i] == Offset(heights, i)
  }

  method New(heights: seq<real>) returns (table: CumulativeHeights)
    ensures TableOf(table, heights)
  {
    var prefix, running := [0.0], 0.0;
    for k := 0 to |heights|
      invariant |prefix| == k + 1 && running == Offset(heights, k)
      invariant forall i | 0 <= i <= k :: prefix[i] == Offset(heights, i)
    {
      running := running + Height(heights[k]);
      prefix := prefix + [running];
    }
    table := CumulativeHeights(prefix);
  }

  ghost predicate Ascending(s: seq<real>) { forall i, j | 0 <= i <= j < |s| :: s[i] <= s[j] }

  /** How many leading elements are below `bound`: the linear scan. */
  function LeadingBelow(s: seq<real>, bound: real): (n: nat)
    ensures n <= |s| && (forall i | 0 <= i < n :: s[i] < bound) && (n < |s| ==> s[n] >= bound)
  {
    if s == [] || s[0] >= bound then 0 else 1 + LeadingBelow(s[1..], bound)
  }

  /** There is only one such count when the elements ascend past `bound` once. */
  lemma {:induction false} LeadingBelowIs(s: seq<real>, bound: real, n: nat)
    requires n <= |s| && (forall i | 0 <= i < n :: s[i] < bound) && (n < |s| ==> s[n] >= bound)
    ensures LeadingBelow(s, bound) == n
  {
  }

  /** The same by binary search. */
  method PartitionPoint(s: seq<real>, bound: real) returns (n: nat)
    requires Ascending(s)
    ensures n == LeadingBelow(s, bound)
  {
    var lo, hi := 0, |s|;
    while lo < hi
      invariant 0 <= lo <= hi <= |s|
      invariant forall i | 0 <= i < lo :: s[i] < bound
      invariant forall i | hi <= i < |s| :: s[i] >= bound
    {
      var mid := lo + (hi - lo) / 2;
      if s[mid] < bound { lo := mid + 1; } else { hi := mid; }
    }
    n := lo;
    LeadingBelowIs(s, bound, n);
  }

  /** The scroll position a real container would have. */
  function Scrolled(heights: seq<real>, viewport: real, scroll: real): real {
    Clamp(scroll, 0.0, Max(Offset(heights, |heights|) - viewport, 0.0))
  }

  function Starts(heights: seq<real>): seq<real> {
    seq(|heights|, i requires 0 <= i < |heights| => Offset(heights, i))
  }

  function Ends(heights: seq<real>): seq<real> {
    seq(|heights|, i requires 0 <= i < |heights| => Offset(heights, i + 1))
  }

  /** The first item not yet scrolled past, and one past the last that begins above the bottom edge. */
  function StartVisible(heights: seq<real>, viewport: real, scroll: real): nat {
    LeadingBelow(Ends(heights), Scrolled(heights, viewport, scroll))
  }

  function EndVisible(heights: seq<real>, viewport: real, scroll: real): nat {
    LeadingBelow(Starts(heights), Scrolled(heights, viewport, scroll) + viewport)
  }

  /** The range found by linear scans over the item edges. */
  function Range(heights: seq<real>, viewport: real, scroll: real, overscan: nat): VisibleRange {
    if heights == [] then VisibleRange(0, 0, 0.0)
    else
      var s, e := StartVisible(heights, viewport, scroll), EndVisible(heights, viewport, scroll);
      var start := if s < overscan then 0 else s - overscan;
      var end := if e + overscan < |heights| then e + overscan else |heights|;
      VisibleRange(start, end, Offset(heights, start))
  }

  lemma {:induction false} OffsetsAscend(heights: seq<real>, i: nat, j: nat)
    requires i <= j <= |heights|
    ensures Offset(heights, i) <= Offset(heights, j)
  {
    if i < j { OffsetsAscend(heights, i, j - 1); }
  }

  lemma TableEdges(table: CumulativeHeights, heights: seq<real>)
    requires TableOf(table, heights)
    ensures |table.prefix| == |heights| + 1
    ensures table.prefix[1..] == Ends(heights) && Ascending(Ends(heights))
    ensures table.prefix[..|heights|] == Starts(heights) && Ascending(Starts(heights))
  {
    forall i, j | 0 <= i <= j <= |heights| ensures Offset(heights, i) <= Offset(heights, j) { OffsetsAscend(heights, i, j); }
  }

  lemma {:induction false} TableAt(table: CumulativeHeights, heights: seq<real>, i: nat)
    requires TableOf(table, heights) && i <= |heights|
    ensures table.prefix[i] == Offset(heights, i)
  {
  }

  /** The two binary searches, over the item ends and the item starts. */
  method VisibleEdges(table: CumulativeHeights, ghost heights: seq<real>, viewport: real, scroll: real)
    returns (startVisible: nat, endVisible: nat)
    requires TableOf(table, heights) && heights != []
    ensures startVisible == StartVisible(heights, viewport, scroll) && endVisible == EndVisible(heights, viewport, scroll)
  {
    TableEdges(table, heights);
    TableAt(table, heights, |heights|);
    hide LeadingBelow, Ascending, Starts, Ends, Offset, TableOf, Max, Clamp;
    var n := |table.prefix| - 1;
    var ends, starts := table.prefix[1..], table.prefix[..n];
    var maxScroll := Max(table.prefix[n] - viewport, 0.0);
    var offset := Clamp(scroll, 0.0, maxScroll);
    assert offset == Scrolled(heights, viewport, scroll);
    hide Scrolled;
    var bottom := offset + viewport;
    startVisible := PartitionPoint(ends, offset);
    endVisible := PartitionPoint(starts, bottom);
  }

  method VisibleRangeOf(table: CumulativeHeights, ghost heights: seq<real>, viewport: real, scroll: real, overscan: nat)
    returns (range: VisibleRange)
    requires TableOf(table, heights)
    ensures range == Range(heights, viewport, scroll, overscan)
  {
    hide StartVisible, EndVisible, Offset;
    var n := |table.prefix| - 1;
    if n == 0 { return VisibleRange(0, 0, 0.0); }
    var startVisible, endVisible := VisibleEdges(table, heights, viewport, scroll);
    EdgesAreItems(heights, viewport, scroll);
    var start := if startVisible < overscan then 0 else startVisible - overscan;
    var end := if endVisible + overscan < n then endVisible + overscan else n;
    range := VisibleRange(start, end, table.prefix[start]);
  }

  lemma EdgesAreItems(heights: seq<real>, viewport: real, scroll: real)
    ensures StartVisible(heights, viewport, scroll) <= |heights| && EndVisible(heights, viewport, scroll) <= |heights|
  {
  }

  // ----- what is drawn -----

  /** Where the viewport begins: at the scroll position, kept from running above the list or past the point where its end is
      in view. */
  ghost function Top(heights: seq<real>, viewport: real, scroll: real): real {
    var last := Offset(heights, |heights|) - viewport;
    if scroll <= 0.0 || last <= 0.0 then 0.0 else if scroll <= last then scroll else last
  }

  /** The top edge the program computes is that one. */
  lemma ScrolledIsTop(heights: seq<real>, viewport: real, scroll: real)
    ensures Scrolled(heights, viewport, scroll) == Top(heights, viewport, scroll)
  {
  }

  /** Items lie one below the other, each as high as it says, a negative height as none. */
  lemma ItemsStack(heights: seq<real>, i: nat)
    requires i < |heights|
    ensures Offset(heights, 0) == 0.0
    ensures Offset(heights, i + 1) == if heights[i] > 0.0 then Offset(heights, i) + heights[i] else Offset(heights, i)
  {
  }

  /** Item `i` reaches down to the top edge, and begins above the bottom edge. */
  ghost predicate Overlaps(heights: seq<real>, i: nat, top: real, bottom: real)
    requires i < |heights|
  {
    Offset(heights, i + 1) >= top && Offset(heights, i) < bottom
  }

  /** The items between the two searches are exactly those that overlap the viewport. */
  lemma VisibleIffOverlaps(heights: seq<real>, viewport: real, scroll: real, i: nat)
    requires i < |heights|
    ensures var top := Top(heights, viewport, scroll);
            StartVisible(heights, viewport, scroll) <= i < EndVisible(heights, viewport, scroll)
            <==> Overlaps(heights, i, top, top + viewport)
  {
    ScrolledIsTop(heights, viewport, scroll);
    var s, e := StartVisible(heights, viewport, scroll), EndVisible(heights, viewport, scroll);
    var starts, ends := Starts(heights), Ends(heights);
    if s <= i {
      assert ends[s] == Offset(heights, s + 1);
      OffsetsAscend(heights, s + 1, i + 1);
    } else {
      assert ends[i] == Offset(heights, i + 1);
    }
    if e <= i {
      assert starts[e] == Offset(heights, e);
      OffsetsAscend(heights, e, i);
    } else {
      assert starts[i] == Offset(heights, i);
    }
  }

  ghost predicate VisibleNear(heights: seq<real>, j: nat, top: real, viewport: real, i: nat, overscan: nat)
    requires j < |heights|
  {
    Overlaps(heights, j, top, top + viewport) && j - overscan <= i <= j + overscan
  }

  /** Item `i` is within `overscan` items of one that overlaps the viewport. */
  ghost predicate NearVisible(heights: seq<real>, viewport: real, scroll: real, i: nat, overscan: nat) {
    exists j | 0 <= j < |heights| :: VisibleNear(heights, j, Top(heights, viewport, scroll), viewport, i, overscan)
  }

  /** Where anything overlaps, the range is the overlapping items, widened by `overscan` on each side and clipped to the list. */
  lemma RangeIsWidenedOverlap(heights: seq<real>, viewport: real, scroll: real, overscan: nat, i: nat)
    requires i < |heights| && StartVisible(heights, viewport, scroll) < EndVisible(heights, viewport, scroll)
    ensures var r := Range(heights, viewport, scroll, overscan);
            r.start <= i < r.end <==> NearVisible(heights, viewport, scroll, i, overscan)
  {
    var top, r := Top(heights, viewport, scroll), Range(heights, viewport, scroll, overscan);
    var s, e := StartVisible(heights, viewport, scroll), EndVisible(heights, viewport, scroll);
    EdgesAreItems(heights, viewport, scroll);
    if r.start <= i < r.end {
      var j := if i < s then s else if i < e then i else e - 1;
      VisibleIffOverlaps(heights, viewport, scroll, j);
      assert VisibleNear(heights, j, top, viewport, i, overscan);
    }
    if j :| 0 <= j < |heights| && VisibleNear(heights, j, top, viewport, i, overscan) {
      VisibleIffOverlaps(heights, viewport, scroll, j);
    }
  }

  ghost predicate WidensTheOverlap(heights: seq<real>, viewport: real, scroll: real, overscan: nat) {
    var r := Range(heights, viewport, scroll, overscan);
    forall i | 0 <= i < |heights| :: r.start <= i < r.end <==> NearVisible(heights, viewport, scroll, i, overscan)
  }

  /** The range is that at every item exactly when the bottom edge lies below the list's top or there is no overscan. */
  lemma RangeIsWidenedOverlapIff(heights: seq<real>, viewport: real, scroll: real, overscan: nat)
    requires heights != [] && viewport >= 0.0
    ensures WidensTheOverlap(heights, viewport, scroll, overscan)
            <==> Top(heights, viewport, scroll) + viewport > 0.0 || overscan == 0
  {
    var n, r := |heights|, Range(heights, viewport, scroll, overscan);
    var s, e := StartVisible(heights, viewport, scroll), EndVisible(heights, viewport, scroll);
    SomethingIsVisible(heights, viewport, scroll);
    NeverBackwards(heights, viewport, scroll);
    if s < e {
      forall i | 0 <= i < n ensures r.start <= i < r.end <==> NearVisible(heights, viewport, scroll, i, overscan) {
        RangeIsWidenedOverlap(heights, viewport, scroll, overscan, i);
      }
    } else {
      forall i | 0 <= i < n ensures !NearVisible(heights, viewport, scroll, i, overscan) {
        NothingIsNear(heights, viewport, scroll, i, overscan);
      }
      if overscan > 0 {
        EdgesAreItems(heights, viewport, scroll);
        var i := if s < n then s else n - 1;
        assert r.start <= i < r.end && !NearVisible(heights, viewport, scroll, i, overscan);
      }
    }
  }

  lemma NothingIsNear(heights: seq<real>, viewport: real, scroll: real, i: nat, overscan: nat)
    requires StartVisible(heights, viewport, scroll) >= EndVisible(heights, viewport, scroll)
    ensures !NearVisible(heights, viewport, scroll, i, overscan)
  {
    var top := Top(heights, viewport, scroll);
    if j :| 0 <= j < |heights| && VisibleNear(heights, j, top, viewport, i, overscan) {
      VisibleIffOverlaps(heights, viewport, scroll, j);
    }
  }

  /** A viewport of no height at the top of a list: nothing overlaps it, yet overscan draws an item. */
  lemma FlatViewportStillDraws()
    ensures Range([1.0], 0.0, 0.0, 1) == VisibleRange(0, 1, 0.0)
    ensures !NearVisible([1.0], 0.0, 0.0, 0, 1) && !WidensTheOverlap([1.0], 0.0, 0.0, 1)
  {
    var heights := [1.0];
    assert Offset(heights, 0) == 0.0 && Offset(heights, 1) == 1.0;
    assert Scrolled(heights, 0.0, 0.0) == 0.0;
    assert Starts(heights) == [0.0] && Ends(heights) == [1.0];
    SomethingIsVisible(heights, 0.0, 0.0);
    NothingIsNear(heights, 0.0, 0.0, 0, 1);
  }

  /** A viewport that is not upside down shows something exactly when its bottom edge is below the list's top. */
  lemma SomethingIsVisible(heights: seq<real>, viewport: real, scroll: real)
    requires heights != [] && viewport >= 0.0
    ensures StartVisible(heights, viewport, scroll) < EndVisible(heights, viewport, scroll)
            <==> Top(heights, viewport, scroll) + viewport > 0.0
    ensures EndVisible(heights, viewport, scroll) <= |heights|
  {
    ScrolledIsTop(heights, viewport, scroll);
    var n := |heights|;
    var top := Top(heights, viewport, scroll);
    var s, e := StartVisible(heights, viewport, scroll), EndVisible(heights, viewport, scroll);
    OffsetsAscend(heights, 0, n);
    assert Ends(heights)[n - 1] == Offset(heights, n);
    if s > 0 { assert Ends(heights)[s - 1] == Offset(heights, s) < top; }
    if e < n { assert Starts(heights)[e] == Offset(heights, e); }
    if e > 0 {
      assert Starts(heights)[e - 1] == Offset(heights, e - 1);
      OffsetsAscend(heights, 0, e - 1);
    }
    if e <= s { OffsetsAscend(heights, e, s); }
  }

  /** The drawn block leaves no part of the viewport blank. */
  lemma {:induction false} RangeCoversTheViewport(heights: seq<real>, viewport: real, scroll: real, overscan: nat)
    requires heights != [] && viewport > 0.0
    ensures var top, r, total := Top(heights, viewport, scroll), Range(heights, viewport, scroll, overscan), Offset(heights, |heights|);
            && r.start < r.end <= |heights|
            && r.startOffset == Offset(heights, r.start) <= top
            && Offset(heights, r.end) >= (if top + viewport < total then top + viewport else total)
  {
    ScrolledIsTop(heights, viewport, scroll);
    var n := |heights|;
    var top, r := Top(heights, viewport, scroll), Range(heights, viewport, scroll, overscan);
    var s, e := StartVisible(heights, viewport, scroll), EndVisible(heights, viewport, scroll);
    SomethingIsVisible(heights, viewport, scroll);
    if s > 0 { assert Ends(heights)[s - 1] == Offset(heights, s); }
    if e < n { assert Starts(heights)[e] == Offset(heights, e); }
    OffsetsAscend(heights, r.start, s);
    OffsetsAscend(heights, e, r.end);
  }

  /** The range can slice the list at every scroll position exactly when no item is shorter than the viewport is negative. */
  lemma RangeIsUsableIff(heights: seq<real>, viewport: real)
    ensures (forall scroll, overscan :: Usable(heights, viewport, scroll, overscan))
            <==> forall k | 0 <= k < |heights| :: Height(heights[k]) >= -viewport
  {
    if k :| 0 <= k < |heights| && Height(heights[k]) < -viewport {
      BackwardsScroll(heights, viewport, k);
    } else {
      forall scroll, overscan ensures Usable(heights, viewport, scroll, overscan) {
        NeverBackwards(heights, viewport, scroll);
      }
    }
  }

  ghost predicate Usable(heights: seq<real>, viewport: real, scroll: real, overscan: nat) {
    var r := Range(heights, viewport, scroll, overscan);
    r.start <= r.end <= |heights|
  }

  lemma NeverBackwards(heights: seq<real>, viewport: real, scroll: real)
    requires forall k | 0 <= k < |heights| :: Height(heights[k]) >= -viewport
    ensures StartVisible(heights, viewport, scroll) <= EndVisible(heights, viewport, scroll)
  {
    var s, e := StartVisible(heights, viewport, scroll), EndVisible(heights, viewport, scroll);
    if e < s {
      assert Ends(heights)[s - 1] == Offset(heights, s) == Offset(heights, s - 1) + Height(heights[s - 1]);
      assert Starts(heights)[e] == Offset(heights, e);
      OffsetsAscend(heights, e, s - 1);
    }
  }

  lemma BackwardsScroll(heights: seq<real>, viewport: real, k: nat)
    requires k < |heights| && Height(heights[k]) < -viewport
    ensures exists scroll :: !Usable(heights, viewport, scroll, 0)
  {
    var n := |heights|;
    var scroll := Offset(heights, k) - viewport;
    OffsetsAscend(heights, 0, k);
    OffsetsAscend(heights, k, n);
    assert Scrolled(heights, viewport, scroll) == scroll;
    var s, e := StartVisible(heights, viewport, scroll), EndVisible(heights, viewport, scroll);
    assert Offset(heights, k + 1) < scroll;
    if s <= k {
      assert Ends(heights)[s] == Offset(heights, s + 1);
      OffsetsAscend(heights, s + 1, k + 1);
    }
    assert Starts(heights)[k] == Offset(heights, k);
    assert !Usable(heights, viewport, scroll, 0);
  }
}
