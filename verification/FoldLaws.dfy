/** The fold of a whole event list: indifferent to order, and settled after one pass. */
module FoldLaws {
  import opened Sorting
  import opened Activity
  import opened Feed
  import opened FoldTheorems

  // ----- order independence -----

  /** Newest-first lists of the same events show the same times position by position. */
  lemma {:induction false} SameTimes(a: seq<FeedEvent>, b: seq<FeedEvent>)
    requires SortedBy(NewestFirst, a) && SortedBy(NewestFirst, b) && multiset(a) == multiset(b)
    ensures |a| == |b| && forall i | 0 <= i < |a| :: a[i].event.time == b[i].event.time
  {
    assert |a| == |multiset(a)| == |multiset(b)| == |b|;
    forall i | 0 <= i < |a| ensures a[i].event.time == b[i].event.time {
      CountFrom(a, b, i);
      CountFrom(b, a, i);
    }
  }

  function TimeAtLeast(t: int): FeedEvent -> bool { (e: FeedEvent) => e.event.time >= t }

  /** If position `i` of `b` were older than position `i` of `a`, `b` would hold fewer events that recent. */
  lemma CountFrom(a: seq<FeedEvent>, b: seq<FeedEvent>, i: nat)
    requires SortedBy(NewestFirst, a) && SortedBy(NewestFirst, b) && multiset(a) == multiset(b)
    requires i < |a| == |b|
    ensures a[i].event.time <= b[i].event.time
  {
    var p := TimeAtLeast(a[i].event.time);
    FilterPermutes(p, a, b);
    assert |Filter(p, a)| == |multiset(Filter(p, a))| == |Filter(p, b)|;
    FilterPrefix(p, a, i + 1);
    if a[i].event.time > b[i].event.time {
      forall k | i <= k < |b| ensures !p(b[k]) {
        if k > i { assert NewestFirst(b[i], b[k]); }
      }
      FilterSuffix(p, b, i);
    }
  }

  lemma {:induction false} FilterPrefix(p: FeedEvent -> bool, s: seq<FeedEvent>, n: nat)
    requires n <= |s| && SortedBy(NewestFirst, s) && (n > 0 ==> p == TimeAtLeast(s[n - 1].event.time))
    ensures |Filter(p, s)| >= n
  {
    if n > 0 {
      assert s == s[..n] + s[n..];
      FilterConcat(p, s[..n], s[n..]);
      HeadIsNewer(s, n);
      FilterAll(p, s[..n]);
    }
  }

  lemma {:induction false} FilterSuffix(p: FeedEvent -> bool, s: seq<FeedEvent>, n: nat)
    requires n <= |s| && forall k | n <= k < |s| :: !p(s[k])
    ensures |Filter(p, s)| <= n
  {
    assert s == s[..n] + s[n..];
    FilterConcat(p, s[..n], s[n..]);
    FilterNone(p, s[n..]);
    FilterMembers(p, s[..n]);
  }

  lemma {:induction false} SameBurstLength(a: seq<FeedEvent>, b: seq<FeedEvent>)
    requires a != [] && |a| == |b| && forall i | 0 <= i < |a| :: a[i].event.time == b[i].event.time
    ensures BurstLength(a) == BurstLength(b)
  {
    if |a| > 1 { SameBurstLength(a[1..], b[1..]); }
  }

  /** Cut where the time drops, both lists hold the same events on each side. */
  lemma SameAcrossADrop(a: seq<FeedEvent>, b: seq<FeedEvent>, n: nat)
    requires SortedBy(NewestFirst, a) && SortedBy(NewestFirst, b) && multiset(a) == multiset(b)
    requires 0 < n <= |a| == |b| && a[n - 1].event.time == b[n - 1].event.time
    requires n < |a| ==> a[n - 1].event.time > a[n].event.time == b[n].event.time
    ensures multiset(a[..n]) == multiset(b[..n]) && multiset(a[n..]) == multiset(b[n..])
  {
    hide Filter, TimeAtLeast, SortedBy;
    var p := TimeAtLeast(a[n - 1].event.time);
    CutByTime(a, n);
    CutByTime(b, n);
    FilterPermutes(p, a, b);
    assert a == a[..n] + a[n..] && b == b[..n] + b[n..];
    CancelFront(a[..n], a[n..], b[..n], b[n..]);
  }

  lemma {:induction false} CutByTime(s: seq<FeedEvent>, n: nat)
    requires SortedBy(NewestFirst, s) && 0 < n <= |s| && (n < |s| ==> s[n - 1].event.time > s[n].event.time)
    ensures Filter(TimeAtLeast(s[n - 1].event.time), s) == s[..n]
  {
    var p := TimeAtLeast(s[n - 1].event.time);
    HeadIsNewer(s, n);
    if n < |s| { TailIsOlder(s, n); }
    hide SortedBy, Filter, NewestFirst;
    FilterAll(p, s[..n]);
    FilterNone(p, s[n..]);
    FilterConcat(p, s[..n], s[n..]);
    assert s == s[..n] + s[n..];
  }

  lemma {:induction false} FirstBurstsAgree(a: seq<FeedEvent>, b: seq<FeedEvent>, kind: ActivityKind, noun: string)
    requires SortedBy(NewestFirst, a) && SortedBy(NewestFirst, b) && multiset(a) == multiset(b) && a != []
    requires forall e | e in a :: e.event.kind == kind
    ensures b != [] && BurstLength(a) == BurstLength(b) && |a| == |b|
    ensures var n := BurstLength(a);
            BurstRow(a[..n], noun) == BurstRow(b[..n], noun) && multiset(a[n..]) == multiset(b[n..])
  {
    SameTimes(a, b);
    SameBurstLength(a, b);
    BurstReaches(a);
    var n := BurstLength(a);
    hide BurstLength, BurstRow;
    SameAcrossADrop(a, b, n);
    assert b[0] in multiset(a) && b[0] in a;
    SameBurstRow(a[..n], b[..n], noun);
  }

  lemma {:induction false} SameRows(a: seq<FeedEvent>, b: seq<FeedEvent>, kind: ActivityKind, noun: string)
    requires SortedBy(NewestFirst, a) && SortedBy(NewestFirst, b) && multiset(a) == multiset(b)
    requires forall e | e in a :: e.event.kind == kind
    ensures BurstRows(a, noun) == BurstRows(b, noun)
    decreases |a|
  {
    hide BurstRow, BurstLength;
    if a != [] {
      FirstBurstsAgree(a, b, kind, noun);
      SameRows(a[BurstLength(a)..], b[BurstLength(b)..], kind, noun);
    } else {
      assert |multiset(b)| == 0;
    }
  }

  lemma SameBurstRow(p: seq<FeedEvent>, q: seq<FeedEvent>, noun: string)
    requires p != [] && |p| == |q| && multiset(p) == multiset(q)
    requires p[0].event.time == q[0].event.time && p[0].event.kind == q[0].event.kind
    ensures BurstRow(p, noun) == BurstRow(q, noun)
  {
    if |p| == 1 {
      assert p == [p[0]] && q == [q[0]];
      assert p[0] in multiset(q);
    } else {
      forall e ensures e in p <==> e in q { assert e in multiset(p) <==> e in multiset(q); }
      assert ByApp(p) <==> ByApp(q);
    }
  }

  /** One kind's fold depends on which events there are, not on their order. */
  lemma FoldOneKindIgnoresOrder(g: seq<FeedEvent>, h: seq<FeedEvent>, kind: ActivityKind, noun: string)
    requires multiset(g) == multiset(h) && forall e | e in g :: e.event.kind == kind
    ensures FoldOneKind(g, noun) == FoldOneKind(h, noun)
  {
    NewestFirstIsPreorder();
    SortIsSortedPermutation(NewestFirst, g);
    SortIsSortedPermutation(NewestFirst, h);
    var a := Sort(NewestFirst, g);
    forall e | e in a ensures e.event.kind == kind { assert e in multiset(g); }
    SameRows(a, Sort(NewestFirst, h), kind, noun);
  }

  lemma {:induction false} FoldKindsIgnoresOrder(kinds: seq<(ActivityKind, string)>, g: seq<FeedEvent>, h: seq<FeedEvent>)
    requires multiset(g) == multiset(h)
    ensures multiset(FoldKinds(kinds, g)) == multiset(FoldKinds(kinds, h))
  {
    if kinds != [] {
      var (kind, noun) := kinds[0];
      FilterMembers(IsKind(kind), g);
      FilterPermutes(IsKind(kind), g, h);
      FilterPermutes(IsNotKind(kind), g, h);
      FoldOneKindIgnoresOrder(Filter(IsKind(kind), g), Filter(IsKind(kind), h), kind, noun);
      FoldKindsIgnoresOrder(kinds[1..], Filter(IsNotKind(kind), g), Filter(IsNotKind(kind), h));
    }
  }

  /** The fold gives the same rows for every order of its input. */
  lemma FoldIgnoresOrder(events: seq<FeedEvent>, shuffled: seq<FeedEvent>, branches: map<string, string>)
    requires multiset(events) == multiset(shuffled)
    ensures multiset(FoldBursts(events, branches)) == multiset(FoldBursts(shuffled, branches))
  {
    FilterPermutes(NoCandidateAmong(branches), events, shuffled);
    FilterPermutes(CandidateAmong(branches), events, shuffled);
    FoldKindsIgnoresOrder(FOLDABLE_KINDS, Filter(CandidateAmong(branches), events), Filter(CandidateAmong(branches), shuffled));
  }

  // ----- the shape of a fold -----

  /** The fold of each kind over the whole list, with nothing left over. */
  function FoldOf(kind: ActivityKind, noun: string, events: seq<FeedEvent>, branches: map<string, string>): seq<FeedEvent> {
    FoldOneKind(Filter(IsKind(kind), Filter(CandidateAmong(branches), events)), noun)
  }

  lemma {:induction false} FilterFilterKind(kind: ActivityKind, other: ActivityKind, s: seq<FeedEvent>)
    requires kind != other
    ensures Filter(IsKind(kind), Filter(IsNotKind(other), s)) == Filter(IsKind(kind), s)
  {
    if s != [] { FilterFilterKind(kind, other, s[1..]); }
  }

  lemma {:induction false} FoldShape(events: seq<FeedEvent>, branches: map<string, string>)
    ensures FoldBursts(events, branches)
         == Filter(NoCandidateAmong(branches), events)
          + FoldOf(Fetch, "fetch", events, branches)
          + FoldOf(Pull, "pull", events, branches)
          + FoldOf(Push, "push", events, branches)
  {
    hide FoldOneKind, Filter;
    var c := Filter(CandidateAmong(branches), events);
    var c1 := Filter(IsNotKind(Fetch), c);
    var c2 := Filter(IsNotKind(Pull), c1);
    var c3 := Filter(IsNotKind(Push), c2);
    FilterFilterKind(Pull, Fetch, c);
    FilterFilterKind(Push, Pull, c1);
    FilterFilterKind(Push, Fetch, c);
    NothingLeftOver(branches, events);
    var kinds := FOLDABLE_KINDS;
    var kinds2 := kinds[1..];
    assert kinds2[1..] == kinds[2..] == [(Push, "push")];
    assert [(Push, "push")][1..] == [];
    assert FoldKinds([], c3) == [];
    assert FoldKinds([(Push, "push")], c2) == FoldOf(Push, "push", events, branches) + [];
    assert FoldKinds(kinds2, c1) == FoldOf(Pull, "pull", events, branches) + FoldKinds([(Push, "push")], c2);
    assert FoldKinds(kinds, c) == FoldOf(Fetch, "fetch", events, branches) + FoldKinds(kinds2, c1);
  }

  /** The gate and the grouping read the same table, so no candidate falls between them. */
  lemma {:induction false} NothingLeftOver(branches: map<string, string>, events: seq<FeedEvent>)
    ensures Filter(IsNotKind(Push), Filter(IsNotKind(Pull), Filter(IsNotKind(Fetch), Filter(CandidateAmong(branches), events)))) == []
  {
    var c := Filter(CandidateAmong(branches), events);
    var c1 := Filter(IsNotKind(Fetch), c);
    var c2 := Filter(IsNotKind(Pull), c1);
    FilterMembers(CandidateAmong(branches), events);
    FilterMembers(IsNotKind(Fetch), c);
    FilterMembers(IsNotKind(Pull), c1);
    FilterNone(IsNotKind(Push), c2);
  }

  /** What one kind's rows tell of, among the candidates of the whole list. */
  ghost function ToldOf(kind: ActivityKind, noun: string, events: seq<FeedEvent>, branches: map<string, string>): nat {
    Told(Filter(IsKind(kind), Filter(CandidateAmong(branches), events)), FoldOf(kind, noun, events, branches))
  }

  /** Every event is accounted for once: kept as it was, or told of by exactly one row of its kind. */
  lemma {:induction false} EveryEventIsAccountedFor(events: seq<FeedEvent>, branches: map<string, string>)
    ensures |Filter(NoCandidateAmong(branches), events)|
          + ToldOf(Fetch, "fetch", events, branches)
          + ToldOf(Pull, "pull", events, branches)
          + ToldOf(Push, "push", events, branches) == |events|
  {
    var c := Filter(CandidateAmong(branches), events);
    var c1 := Filter(IsNotKind(Fetch), c);
    var c2 := Filter(IsNotKind(Pull), c1);
    FilterSplits(CandidateAmong(branches), NoCandidateAmong(branches), events);
    FilterSplits(IsKind(Fetch), IsNotKind(Fetch), c);
    FilterSplits(IsKind(Pull), IsNotKind(Pull), c1);
    FilterSplits(IsKind(Push), IsNotKind(Push), c2);
    FilterFilterKind(Pull, Fetch, c);
    FilterFilterKind(Push, Pull, c1);
    FilterFilterKind(Push, Fetch, c);
    NothingLeftOver(branches, events);
    hide Filter, Told, FoldOneKind;
    FoldTellsEveryEvent(Filter(IsKind(Fetch), c), "fetch");
    FoldTellsEveryEvent(Filter(IsKind(Pull), c), "pull");
    FoldTellsEveryEvent(Filter(IsKind(Push), c), "push");
  }

  // ----- idempotence -----

  /** Newest first with every neighbour more than the gap apart. */
  ghost predicate Spread(s: seq<FeedEvent>) {
    forall i, j | 0 <= i < j < |s| :: s[i].event.time > s[j].event.time + FETCH_BURST_GAP
  }

  lemma SpreadGrows(first: FeedEvent, rest: seq<FeedEvent>)
    requires Spread(rest) && forall r | r in rest :: first.event.time > r.event.time + FETCH_BURST_GAP
    ensures Spread([first] + rest)
  {
  }

  lemma {:induction false} RowsAreSpread(s: seq<FeedEvent>, noun: string)
    requires SortedBy(NewestFirst, s)
    ensures Spread(BurstRows(s, noun))
    ensures s != [] ==> forall r | r in BurstRows(s, noun) :: r.event.time <= s[0].event.time
    decreases |s|
  {
    if s != [] {
      var n := BurstLength(s);
      BurstReaches(s);
      hide BurstLength;
      RowsAreSpread(s[n..], noun);
      assert BurstRow(s[..n], noun).event.time == s[0].event.time;
      hide BurstRow;
      if n > 1 { assert NewestFirst(s[0], s[n - 1]); }
      SpreadGrows(BurstRow(s[..n], noun), BurstRows(s[n..], noun));
    }
  }

  lemma {:induction false} SpreadFilters(p: FeedEvent -> bool, s: seq<FeedEvent>)
    requires Spread(s)
    ensures Spread(Filter(p, s))
  {
    if s != [] {
      SpreadFilters(p, s[1..]);
      FilterMembers(p, s[1..]);
      var r := Filter(p, s[1..]);
      forall e | e in r ensures s[0].event.time > e.event.time + FETCH_BURST_GAP {
        var j :| 1 <= j < |s| && s[j] == e;
      }
    }
  }

  lemma {:induction false} SpreadRowsStay(s: seq<FeedEvent>, noun: string)
    requires Spread(s)
    ensures BurstRows(s, noun) == s
  {
    if s != [] {
      SpreadRowsStay(s[1..], noun);
      assert s[..1] == [s[0]];
      assert s == [s[0]] + s[1..];
    }
  }

  lemma SpreadFoldStays(s: seq<FeedEvent>, noun: string)
    requires Spread(s)
    ensures FoldOneKind(s, noun) == s
  {
    SortSorted(NewestFirst, s);
    SpreadRowsStay(s, noun);
  }

  /** Every row of one kind's fold has that kind; a counted one is no candidate any more. */
  lemma {:induction false} RowKinds(s: seq<FeedEvent>, kind: ActivityKind, noun: string)
    requires forall e | e in s :: e.event.kind == kind
    ensures forall r | r in BurstRows(s, noun) :: r.event.kind == kind
    decreases |s|
  {
    if s != [] { RowKinds(s[BurstLength(s)..], kind, noun); }
  }

  lemma FoldOfHasKind(kind: ActivityKind, noun: string, events: seq<FeedEvent>, branches: map<string, string>)
    ensures forall r | r in FoldOf(kind, noun, events, branches) :: r.event.kind == kind
  {
    var group := Filter(IsKind(kind), Filter(CandidateAmong(branches), events));
    FilterMembers(IsKind(kind), Filter(CandidateAmong(branches), events));
    NewestFirstIsPreorder();
    SortIsSortedPermutation(NewestFirst, group);
    var s := Sort(NewestFirst, group);
    forall e | e in s ensures e.event.kind == kind { assert e in multiset(group); assert e in group; }
    RowKinds(s, kind, noun);
  }

  lemma FoldOfIsSettled(kind: ActivityKind, noun: string, events: seq<FeedEvent>, branches: map<string, string>)
    ensures var left := Filter(CandidateAmong(branches), FoldOf(kind, noun, events, branches));
            FoldOneKind(left, noun) == left
  {
    var group := Filter(IsKind(kind), Filter(CandidateAmong(branches), events));
    NewestFirstIsPreorder();
    SortIsSortedPermutation(NewestFirst, group);
    var rows := BurstRows(Sort(NewestFirst, group), noun);
    RowsAreSpread(Sort(NewestFirst, group), noun);
    SpreadFilters(CandidateAmong(branches), rows);
    SpreadFoldStays(Filter(CandidateAmong(branches), rows), noun);
  }

  lemma {:induction false} SplitByCandidacy(branches: map<string, string>, s: seq<FeedEvent>)
    ensures multiset(Filter(NoCandidateAmong(branches), s)) + multiset(Filter(CandidateAmong(branches), s)) == multiset(s)
  {
    forall e ensures
      (multiset(Filter(NoCandidateAmong(branches), s)) + multiset(Filter(CandidateAmong(branches), s)))[e] == multiset(s)[e]
    {
      FilterCount(NoCandidateAmong(branches), s, e);
      FilterCount(CandidateAmong(branches), s, e);
    }
  }

  /** The candidates that survive a fold: the uncounted rows of each kind. */
  lemma SurvivingCandidates(events: seq<FeedEvent>, branches: map<string, string>)
    ensures var p := CandidateAmong(branches);
            Filter(p, FoldBursts(events, branches))
              == Filter(p, FoldOf(Fetch, "fetch", events, branches))
               + Filter(p, FoldOf(Pull, "pull", events, branches))
               + Filter(p, FoldOf(Push, "push", events, branches))
  {
    hide FoldOf, FoldBursts;
    var p := CandidateAmong(branches);
    var out := Filter(NoCandidateAmong(branches), events);
    var f, l, u := FoldOf(Fetch, "fetch", events, branches), FoldOf(Pull, "pull", events, branches), FoldOf(Push, "push", events, branches);
    FoldShape(events, branches);
    FilterConcat(p, out + f + l, u);
    FilterConcat(p, out + f, l);
    FilterConcat(p, out, f);
    FilterMembers(NoCandidateAmong(branches), events);
    FilterNone(p, out);
  }

  lemma {:induction false} FilterOneKind(kind: ActivityKind, k: ActivityKind, s: seq<FeedEvent>)
    requires forall e | e in s :: e.event.kind == k
    ensures Filter(IsKind(kind), s) == if k == kind then s else []
  {
    if k == kind { FilterAll(IsKind(kind), s); } else { FilterNone(IsKind(kind), s); }
  }

  /** Three lists of one kind each come apart again by kind. */
  lemma {:induction false} KindsComeApart(kind: ActivityKind, f: seq<FeedEvent>, l: seq<FeedEvent>, u: seq<FeedEvent>)
    requires forall e | e in f :: e.event.kind == Fetch
    requires forall e | e in l :: e.event.kind == Pull
    requires forall e | e in u :: e.event.kind == Push
    ensures Filter(IsKind(kind), f + l + u)
         == match kind case Fetch => f case Pull => l case Push => u case _ => []
  {
    FilterConcat(IsKind(kind), f + l, u);
    FilterConcat(IsKind(kind), f, l);
    FilterOneKind(kind, Fetch, f);
    FilterOneKind(kind, Pull, l);
    FilterOneKind(kind, Push, u);
  }

  /** Folding a fold again leaves each kind's uncounted rows as they are. */
  lemma RefoldOf(kind: ActivityKind, noun: string, events: seq<FeedEvent>, branches: map<string, string>)
    requires (kind, noun) in FOLDABLE_KINDS
    ensures FoldOf(kind, noun, FoldBursts(events, branches), branches)
         == Filter(CandidateAmong(branches), FoldOf(kind, noun, events, branches))
  {
    var p := CandidateAmong(branches);
    var f, l, u := FoldOf(Fetch, "fetch", events, branches), FoldOf(Pull, "pull", events, branches), FoldOf(Push, "push", events, branches);
    FoldOfIsSettled(kind, noun, events, branches);
    FoldOfHasKind(Fetch, "fetch", events, branches);
    FoldOfHasKind(Pull, "pull", events, branches);
    FoldOfHasKind(Push, "push", events, branches);
    SurvivingCandidates(events, branches);
    FilterMembers(p, f);
    FilterMembers(p, l);
    FilterMembers(p, u);
    hide Filter, FoldOneKind, FoldBursts;
    KindsComeApart(kind, Filter(p, f), Filter(p, l), Filter(p, u));
  }

  /** A second fold changes nothing: it gives the same rows again. */
  lemma FoldIsIdempotent(events: seq<FeedEvent>, branches: map<string, string>)
    ensures var once := FoldBursts(events, branches);
            multiset(FoldBursts(once, branches)) == multiset(once)
  {
    hide FoldOf, FoldBursts, Filter;
    var once := FoldBursts(events, branches);
    var out := Filter(NoCandidateAmong(branches), once);
    FoldShape(once, branches);
    RefoldOf(Fetch, "fetch", events, branches);
    RefoldOf(Pull, "pull", events, branches);
    RefoldOf(Push, "push", events, branches);
    SurvivingCandidates(events, branches);
    SplitByCandidacy(branches, once);
    assert FoldBursts(once, branches) == out + Filter(CandidateAmong(branches), once);
  }
}
