/** Burst folding computes connected components of the "within five seconds" relation. */
module FoldTheorems {
  import opened Basics
  import opened Sorting
  import opened Activity
  import opened Feed

  lemma NewestFirstIsPreorder()
    ensures TotalPreorder(NewestFirst)
  {
  }

  lemma {:induction false} SortSorted<T(!new)>(le: (T, T) -> bool, s: seq<T>)
    requires SortedBy(le, s)
    ensures Sort(le, s) == s
  {
    if s != [] {
      SortSorted(le, s[1..]);
      if |s| > 1 { assert le(s[0], s[1]); }
    }
  }

  // ----- the bursts of a newest-first list -----

  /** Inside the first burst neighbours are at most the gap apart; past its end they are more. */
  lemma {:induction false} BurstReaches(s: seq<FeedEvent>)
    requires s != []
    ensures var n := BurstLength(s);
            && (forall i | 0 <= i < n - 1 :: s[i].event.time - s[i + 1].event.time <= FETCH_BURST_GAP)
            && (n < |s| ==> s[n - 1].event.time - s[n].event.time > FETCH_BURST_GAP)
  {
    if |s| > 1 && s[0].event.time - s[1].event.time <= FETCH_BURST_GAP {
      BurstReaches(s[1..]);
      var n := BurstLength(s);
      forall i | 0 <= i < n - 1 ensures s[i].event.time - s[i + 1].event.time <= FETCH_BURST_GAP {
        if i > 0 { assert s[1..][i - 1] == s[i] && s[1..][i] == s[i + 1]; }
      }
    }
  }

  lemma {:induction false} RowsAreBursts(s: seq<FeedEvent>, noun: string)
    ensures |BurstRows(s, noun)| == |Bursts(s)|
    ensures forall k | 0 <= k < |Bursts(s)| :: BurstRows(s, noun)[k] == BurstRow(Bursts(s)[k], noun)
    decreases |s|
  {
    if s != [] { RowsAreBursts(s[BurstLength(s)..], noun); }
  }

  /** Each event of a newest-first run is at most the gap later than the next. */
  ghost predicate Close(burst: seq<FeedEvent>) {
    forall i | 0 <= i < |burst| - 1 :: burst[i].event.time - burst[i + 1].event.time <= FETCH_BURST_GAP
  }

  /** A burst in place: what comes before it is later by more than the gap, what comes after it earlier. */
  ghost predicate Stands(s: seq<FeedEvent>, before: seq<FeedEvent>, burst: seq<FeedEvent>, after: seq<FeedEvent>) {
    && s == before + burst + after && burst != [] && Close(burst)
    && (forall e | e in before :: e.event.time > burst[0].event.time + FETCH_BURST_GAP)
    && (forall e | e in after :: e.event.time < burst[|burst| - 1].event.time - FETCH_BURST_GAP)
  }

  lemma {:induction false} BurstStands(s: seq<FeedEvent>, k: nat) returns (before: seq<FeedEvent>, after: seq<FeedEvent>)
    requires SortedBy(NewestFirst, s) && k < |Bursts(s)|
    ensures Stands(s, before, Bursts(s)[k], after)
    decreases |s|
  {
    var n := BurstLength(s);
    BurstReaches(s);
    if k == 0 {
      before, after := [], s[n..];
      FirstBurstStands(s);
    } else {
      before, after := BurstStands(s[n..], k - 1);
      LaterBurstStands(s, n, before, Bursts(s[n..])[k - 1], after);
      before := s[..n] + before;
    }
  }

  lemma TailIsOlder(s: seq<FeedEvent>, n: nat)
    requires SortedBy(NewestFirst, s) && n < |s|
    ensures forall e | e in s[n..] :: e.event.time <= s[n].event.time
  {
    forall e | e in s[n..] ensures e.event.time <= s[n].event.time {
      var i :| 0 <= i < |s| - n && s[n..][i] == e;
      if i > 0 { assert NewestFirst(s[n], s[n + i]); }
    }
  }

  lemma HeadIsNewer(s: seq<FeedEvent>, n: nat)
    requires SortedBy(NewestFirst, s) && 0 < n <= |s|
    ensures forall e | e in s[..n] :: e.event.time >= s[n - 1].event.time
  {
    forall e | e in s[..n] ensures e.event.time >= s[n - 1].event.time {
      var i :| 0 <= i < n && s[i] == e;
      if i < n - 1 { assert NewestFirst(s[i], s[n - 1]); }
    }
  }

  lemma StandsInFront(burst: seq<FeedEvent>, after: seq<FeedEvent>)
    requires burst != [] && Close(burst)
    requires forall e | e in after :: e.event.time < burst[|burst| - 1].event.time - FETCH_BURST_GAP
    ensures Stands(burst + after, [], burst, after)
  {
    assert burst + after == [] + burst + after;
  }

  lemma {:induction false} FirstBurstStands(s: seq<FeedEvent>)
    requires SortedBy(NewestFirst, s) && s != []
    ensures Stands(s, [], s[..BurstLength(s)], s[BurstLength(s)..])
  {
    hide BurstLength, SortedBy, Stands;
    var n := BurstLength(s);
    BurstReaches(s);
    if n < |s| { TailIsOlder(s, n); }
    var burst, after := s[..n], s[n..];
    assert burst[|burst| - 1] == s[n - 1];
    assert s == burst + after;
    StandsInFront(burst, after);
  }

  lemma LaterBurstStands(s: seq<FeedEvent>, n: nat, before: seq<FeedEvent>, burst: seq<FeedEvent>, after: seq<FeedEvent>)
    requires SortedBy(NewestFirst, s) && 0 < n < |s| && Stands(s[n..], before, burst, after)
    requires s[n - 1].event.time - s[n].event.time > FETCH_BURST_GAP
    ensures Stands(s, s[..n] + before, burst, after)
  {
    assert burst[0] in s[n..] by { assert s[n..][|before|] == burst[0]; }
    TailIsOlder(s, n);
    HeadIsNewer(s, n);
    hide SortedBy, Close;
    assert s == s[..n] + s[n..];
    Regroup(s[..n], before + burst, after);
    Regroup(s[..n], before, burst);
  }

  // ----- connected by gaps -----

  ghost predicate HasTime(group: seq<FeedEvent>, t: int) { exists e | e in group :: e.event.time == t }

  /** A chain of event times with no gap over five seconds. */
  ghost predicate IsChain(group: seq<FeedEvent>, c: seq<int>) {
    && c != []
    && (forall i | 0 <= i < |c| :: HasTime(group, c[i]))
    && (forall i | 0 <= i < |c| - 1 :: -5 <= c[i] - c[i + 1] <= 5)
  }

  ghost predicate Linked(group: seq<FeedEvent>, a: int, b: int) {
    exists c :: IsChain(group, c) && c[0] == a && c[|c| - 1] == b
  }

  /** A chain that starts inside a burst never leaves it. */
  lemma {:induction false} ChainStays(s: seq<FeedEvent>, before: seq<FeedEvent>, burst: seq<FeedEvent>, after: seq<FeedEvent>, c: seq<int>)
    requires SortedBy(NewestFirst, s) && Stands(s, before, burst, after) && IsChain(s, c)
    requires burst[|burst| - 1].event.time <= c[0] <= burst[0].event.time
    ensures burst[|burst| - 1].event.time <= c[|c| - 1] <= burst[0].event.time
  {
    if |c| > 1 {
      assert HasTime(s, c[1]);
      var e :| e in s && e.event.time == c[1];
      if e in burst { WithinBurst(s, before, burst, after, e); }
      ChainStays(s, before, burst, after, c[1..]);
    }
  }

  lemma WithinBurst(s: seq<FeedEvent>, before: seq<FeedEvent>, burst: seq<FeedEvent>, after: seq<FeedEvent>, e: FeedEvent)
    requires SortedBy(NewestFirst, s) && Stands(s, before, burst, after) && e in burst
    ensures burst[|burst| - 1].event.time <= e.event.time <= burst[0].event.time
  {
    var i :| 0 <= i < |burst| && burst[i] == e;
    var b := |before|;
    assert s[b] == burst[0] && s[b + i] == e && s[b + |burst| - 1] == burst[|burst| - 1];
    if i > 0 { assert NewestFirst(s[b], s[b + i]); }
    if i < |burst| - 1 { assert NewestFirst(s[b + i], s[b + |burst| - 1]); }
  }

  lemma NeighboursAreLinked(s: seq<FeedEvent>, a: FeedEvent, b: FeedEvent)
    requires a in s && b in s && Abs(a.event.time - b.event.time) <= FETCH_BURST_GAP
    ensures Linked(s, a.event.time, b.event.time)
  {
    var c := [a.event.time, b.event.time];
    assert HasTime(s, c[0]) && HasTime(s, c[1]);
    assert IsChain(s, c);
  }

  /** Within a burst everything is linked to its newest member. */
  lemma {:induction false} BurstLinks(s: seq<FeedEvent>, before: seq<FeedEvent>, burst: seq<FeedEvent>, after: seq<FeedEvent>, i: nat)
    requires SortedBy(NewestFirst, s) && Stands(s, before, burst, after) && i < |burst|
    ensures Linked(s, burst[i].event.time, burst[0].event.time)
  {
    assert s[|before| + i] == burst[i];
    if i == 0 {
      NeighboursAreLinked(s, burst[0], burst[0]);
    } else {
      BurstLinks(s, before, burst, after, i - 1);
      assert s[|before| + (i - 1)] == burst[i - 1];
      assert NewestFirst(s[|before| + (i - 1)], s[|before| + i]);
      assert Close(burst) && burst[i - 1].event.time - burst[(i - 1) + 1].event.time <= FETCH_BURST_GAP;
      NeighboursAreLinked(s, burst[i], burst[i - 1]);
      LinkedIsTransitive(s, burst[i].event.time, burst[i - 1].event.time, burst[0].event.time);
    }
  }

  lemma LinkedPermutes(s: seq<FeedEvent>, t: seq<FeedEvent>, a: int, b: int)
    requires multiset(s) == multiset(t)
    ensures Linked(s, a, b) <==> Linked(t, a, b)
  {
    forall e ensures e in s <==> e in t { assert e in multiset(s) <==> e in multiset(t); }
    forall x ensures HasTime(s, x) <==> HasTime(t, x) {}
    forall c ensures IsChain(s, c) <==> IsChain(t, c) {}
  }

  /** Each burst is exactly one component: the events of the group that a chain of small gaps links to its newest one. */
  lemma {:induction false} BurstIsComponent(group: seq<FeedEvent>, k: nat, e: FeedEvent)
    requires k < |Bursts(Sort(NewestFirst, group))|
    ensures var burst := Bursts(Sort(NewestFirst, group))[k];
            multiset(burst)[e]
              == if Linked(group, e.event.time, burst[0].event.time) then multiset(group)[e] else 0
  {
    NewestFirstIsPreorder();
    SortIsSortedPermutation(NewestFirst, group);
    var s := Sort(NewestFirst, group);
    var burst := Bursts(s)[k];
    var before, after := BurstStands(s, k);
    LinkedPermutes(s, group, e.event.time, burst[0].event.time);
    assert multiset(s)[e] == multiset(before)[e] + multiset(burst)[e] + multiset(after)[e];
    if Linked(s, e.event.time, burst[0].event.time) {
      var c :| IsChain(s, c) && c[0] == e.event.time && c[|c| - 1] == burst[0].event.time;
      ChainEndsWhereItStarts(s, before, burst, after, c);
      assert e !in before && e !in after;
    } else if e in burst {
      var i :| 0 <= i < |burst| && burst[i] == e;
      BurstLinks(s, before, burst, after, i);
    }
  }

  lemma ChainEndsWhereItStarts(s: seq<FeedEvent>, before: seq<FeedEvent>, burst: seq<FeedEvent>, after: seq<FeedEvent>, c: seq<int>)
    requires SortedBy(NewestFirst, s) && Stands(s, before, burst, after) && IsChain(s, c)
    requires c[|c| - 1] == burst[0].event.time
    ensures burst[|burst| - 1].event.time <= c[0] <= burst[0].event.time
  {
    var d := seq(|c|, i requires 0 <= i < |c| => c[|c| - 1 - i]);
    ReversedChain(s, c, d);
    hide IsChain, SortedBy;
    WithinBurst(s, before, burst, after, burst[0]);
    ChainStays(s, before, burst, after, d);
  }

  /** The bursts cut the whole list, losing and repeating nothing. */
  lemma {:induction false} BurstsConcatenate(s: seq<FeedEvent>)
    ensures Flatten(Bursts(s)) == s
    decreases |s|
  {
    if s != [] {
      BurstsConcatenate(s[BurstLength(s)..]);
      assert s == s[..BurstLength(s)] + s[BurstLength(s)..];
    }
  }

  lemma {:induction false} FlattenSize<T>(ss: seq<seq<T>>)
    ensures |Flatten(ss)| == TotalSize(ss)
  {
    if ss != [] { FlattenSize(ss[1..]); }
  }

  // ----- what the rows say -----

  /** The events of `group` linked to time `t`. */
  ghost function Component(group: seq<FeedEvent>, t: int): multiset<FeedEvent> {
    multiset(Filter(LinkedTo(group, t), group))
  }

  ghost function LinkedTo(group: seq<FeedEvent>, t: int): FeedEvent -> bool {
    (e: FeedEvent) => Linked(group, e.event.time, t)
  }

  /** One row tells one component: alone, the event itself; otherwise its newest time, its true size and who did any of it. */
  ghost predicate Tells(row: FeedEvent, members: multiset<FeedEvent>, kind: ActivityKind, noun: string) {
    if |members| == 1 then members == multiset{row}
    else exists newest: FeedEvent ::
      && newest in members
      && (forall e | e in members :: e.event.time <= newest.event.time)
      && row.reflogRefKind.None? && row.event.time == newest.event.time && row.event.kind == kind
      && row.event.summary == noun + " — " + Decimal(|members|) + " refs updated"
      && row.event.refName.None? && row.event.oldOid.None? && row.event.newOid.None?
      && row.event.undo.None? && row.event.refs.None?
      && (row.event.source == App <==> exists e | e in members :: e.event.source == App)
  }

  /** How many events the rows tell of, each by its component. */
  ghost function Told(group: seq<FeedEvent>, rows: seq<FeedEvent>): nat {
    if rows == [] then 0
    else Told(group, rows[..|rows| - 1]) + |Component(group, rows[|rows| - 1].event.time)|
  }

  lemma {:induction false} ToldIsTotal(group: seq<FeedEvent>, rows: seq<FeedEvent>, bursts: seq<seq<FeedEvent>>)
    requires |rows| == |bursts|
    requires forall k | 0 <= k < |rows| :: |Component(group, rows[k].event.time)| == |bursts[k]|
    ensures Told(group, rows) == TotalSize(bursts)
  {
    hide Component;
    if rows != [] {
      var n := |rows| - 1;
      ToldIsTotal(group, rows[..n], bursts[..n]);
      TotalSizeSnoc(bursts[..n], bursts[n]);
      assert bursts == bursts[..n] + [bursts[n]];
    }
  }

  lemma {:induction false} TotalSizeSnoc<T>(ss: seq<seq<T>>, x: seq<T>)
    ensures TotalSize(ss + [x]) == TotalSize(ss) + |x|
  {
    if ss == [] {
      assert ss + [x] == [x];
    } else {
      assert (ss + [x])[1..] == ss[1..] + [x];
      TotalSizeSnoc(ss[1..], x);
    }
  }

  /** Every row of a fold tells the component of its own time. */
  lemma FoldTellsComponents(group: seq<FeedEvent>, kind: ActivityKind, noun: string)
    requires forall e | e in group :: e.event.kind == kind
    ensures forall row | row in FoldOneKind(group, noun) ::
              Tells(row, Component(group, row.event.time), kind, noun)
  {
    hide Tells, BurstRow;
    var s := Sort(NewestFirst, group);
    RowsAreBursts(s, noun);
    forall row | row in FoldOneKind(group, noun)
      ensures Tells(row, Component(group, row.event.time), kind, noun)
    {
      var k :| 0 <= k < |BurstRows(s, noun)| && BurstRows(s, noun)[k] == row;
      RowTellsComponent(group, kind, noun, k);
    }
  }

  /** Together the rows tell of every event exactly once. */
  lemma {:induction false} FoldTellsEveryEvent(group: seq<FeedEvent>, noun: string)
    ensures Told(group, FoldOneKind(group, noun)) == |group|
  {
    var s := Sort(NewestFirst, group);
    NewestFirstIsPreorder();
    SortIsSortedPermutation(NewestFirst, group);
    BurstsConcatenate(s);
    FlattenSize(Bursts(s));
    RowsAreBursts(s, noun);
    forall k | 0 <= k < |Bursts(s)|
      ensures |Component(group, BurstRows(s, noun)[k].event.time)| == |Bursts(s)[k]|
    {
      ComponentIsBurst(group, k);
      assert |multiset(Bursts(s)[k])| == |Bursts(s)[k]|;
    }
    ToldIsTotal(group, BurstRows(s, noun), Bursts(s));
  }

  /** The number in a counted row can be read back from its words. */
  lemma CountIsLegible(noun: string, n: nat, m: nat)
    requires CountedSummary(noun, n) == CountedSummary(noun, m)
    ensures n == m
  {
    var front, back := noun + " — ", " refs updated";
    var a, b := CountedSummary(noun, n), CountedSummary(noun, m);
    assert a == front + Decimal(n) + back && b == front + Decimal(m) + back;
    assert a[|front|..|a| - |back|] == Decimal(n);
    assert b[|front|..|b| - |back|] == Decimal(m);
    DecimalReadsBack(n);
    DecimalReadsBack(m);
  }

  lemma {:induction false} ComponentIsBurst(group: seq<FeedEvent>, k: nat)
    requires k < |Bursts(Sort(NewestFirst, group))|
    ensures var burst := Bursts(Sort(NewestFirst, group))[k];
            multiset(burst) == Component(group, burst[0].event.time)
  {
    var burst := Bursts(Sort(NewestFirst, group))[k];
    var t := burst[0].event.time;
    forall e ensures Component(group, t)[e] == multiset(burst)[e] {
      BurstIsComponent(group, k, e);
      FilterCount(LinkedTo(group, t), group, e);
    }
  }

  lemma {:induction false} RowTellsComponent(group: seq<FeedEvent>, kind: ActivityKind, noun: string, k: nat)
    requires forall e | e in group :: e.event.kind == kind
    requires k < |Bursts(Sort(NewestFirst, group))|
    ensures var row := BurstRow(Bursts(Sort(NewestFirst, group))[k], noun);
            Tells(row, Component(group, row.event.time), kind, noun)
  {
    var s := Sort(NewestFirst, group);
    NewestFirstIsPreorder();
    SortIsSortedPermutation(NewestFirst, group);
    var burst := Bursts(s)[k];
    var before, after := BurstStands(s, k);
    ComponentIsBurst(group, k);
    assert burst[0] in group by {
      assert s[|before|] == burst[0];
      assert burst[0] in multiset(s);
    }
    hide Bursts, Linked, Stands;
    BurstTells(s, before, burst, after, kind, noun);
  }

  lemma BurstTells(s: seq<FeedEvent>, before: seq<FeedEvent>, burst: seq<FeedEvent>, after: seq<FeedEvent>, kind: ActivityKind, noun: string)
    requires SortedBy(NewestFirst, s) && Stands(s, before, burst, after) && burst[0].event.kind == kind
    ensures Tells(BurstRow(burst, noun), multiset(burst), kind, noun)
  {
    var newest, members := burst[0], multiset(burst);
    if |burst| == 1 {
      assert burst == [newest];
    } else {
      forall e | e in members ensures e.event.time <= newest.event.time {
        WithinBurst(s, before, burst, after, e);
      }
      assert ByApp(burst) <==> exists e | e in members :: e.event.source == App;
      assert newest in members;
    }
  }

  /** Two events of a kind share a row exactly when a chain of gaps of at most five seconds links them. */
  lemma {:induction false} SameRowIffLinked(group: seq<FeedEvent>, a: FeedEvent, b: FeedEvent)
    requires a in group && b in group
    ensures (exists k | 0 <= k < |Bursts(Sort(NewestFirst, group))| ::
              a in Bursts(Sort(NewestFirst, group))[k] && b in Bursts(Sort(NewestFirst, group))[k])
            <==> Linked(group, a.event.time, b.event.time)
  {
    var s := Sort(NewestFirst, group);
    NewestFirstIsPreorder();
    SortIsSortedPermutation(NewestFirst, group);
    assert a in multiset(s) && b in multiset(s);
    LinkedPermutes(s, group, a.event.time, b.event.time);
    if Linked(s, a.event.time, b.event.time) {
      var k := LinkedShareABurst(s, a, b);
    }
    if k :| 0 <= k < |Bursts(s)| && a in Bursts(s)[k] && b in Bursts(s)[k] {
      var before, after := BurstStands(s, k);
      MembersAreLinked(s, before, Bursts(s)[k], after, a, b);
    }
  }

  lemma MembersAreLinked(s: seq<FeedEvent>, before: seq<FeedEvent>, burst: seq<FeedEvent>, after: seq<FeedEvent>, a: FeedEvent, b: FeedEvent)
    requires SortedBy(NewestFirst, s) && Stands(s, before, burst, after) && a in burst && b in burst
    ensures Linked(s, a.event.time, b.event.time)
  {
    var i :| 0 <= i < |burst| && burst[i] == a;
    var j :| 0 <= j < |burst| && burst[j] == b;
    BurstLinks(s, before, burst, after, i);
    BurstLinks(s, before, burst, after, j);
    LinkedIsSymmetric(s, b.event.time, burst[0].event.time);
    LinkedIsTransitive(s, a.event.time, burst[0].event.time, b.event.time);
  }

  lemma LinkedShareABurst(s: seq<FeedEvent>, a: FeedEvent, b: FeedEvent) returns (k: nat)
    requires SortedBy(NewestFirst, s) && a in s && b in s && Linked(s, a.event.time, b.event.time)
    ensures k < |Bursts(s)| && a in Bursts(s)[k] && b in Bursts(s)[k]
  {
    BurstsConcatenate(s);
    k := BurstOf(Bursts(s), b);
    var before, after := BurstStands(s, k);
    WithinBurst(s, before, Bursts(s)[k], after, b);
    LinkedIsSymmetric(s, a.event.time, b.event.time);
    var c :| IsChain(s, c) && c[0] == b.event.time && c[|c| - 1] == a.event.time;
    ChainStays(s, before, Bursts(s)[k], after, c);
  }

  lemma {:induction false} BurstOf(bs: seq<seq<FeedEvent>>, e: FeedEvent) returns (k: nat)
    requires e in Flatten(bs)
    ensures k < |bs| && e in bs[k]
  {
    if e in bs[0] { k := 0; } else { k := BurstOf(bs[1..], e); k := k + 1; }
  }

  lemma ReversedChain(s: seq<FeedEvent>, c: seq<int>, d: seq<int>)
    requires IsChain(s, c) && |d| == |c| && forall i | 0 <= i < |c| :: d[i] == c[|c| - 1 - i]
    ensures IsChain(s, d)
  {
    forall i | 0 <= i < |d| - 1 ensures Abs(d[i] - d[i + 1]) <= FETCH_BURST_GAP {
      var j := |c| - 2 - i;
      assert Abs(c[j] - c[j + 1]) <= FETCH_BURST_GAP;
    }
  }

  lemma LinkedIsSymmetric(s: seq<FeedEvent>, a: int, b: int)
    requires Linked(s, a, b)
    ensures Linked(s, b, a)
  {
    var c :| IsChain(s, c) && c[0] == a && c[|c| - 1] == b;
    var d := seq(|c|, i requires 0 <= i < |c| => c[|c| - 1 - i]);
    ReversedChain(s, c, d);
  }

  lemma LinkedIsTransitive(s: seq<FeedEvent>, a: int, b: int, x: int)
    requires Linked(s, a, b) && Linked(s, b, x)
    ensures Linked(s, a, x)
  {
    var c :| IsChain(s, c) && c[0] == a && c[|c| - 1] == b;
    var d :| IsChain(s, d) && d[0] == b && d[|d| - 1] == x;
    var cd := c + d;
    forall i | 0 <= i < |cd| - 1 ensures Abs(cd[i] - cd[i + 1]) <= FETCH_BURST_GAP {
      if i >= |c| { assert cd[i] == d[i - |c|] && cd[i + 1] == d[i - |c| + 1]; }
    }
    assert IsChain(s, cd);
  }
}
