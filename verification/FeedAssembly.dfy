/** The feed as the program assembles it: index loops over the reflog and the bursts, then one pass per stage. */
module FeedAssembly {
  import opened Basics
  import opened Sorting
  import opened Activity
  import opened Feed

  method CoalesceReflog(reflog: seq<ReflogEntry>) returns (events: seq<FeedEvent>)
    ensures events == Coalesce(reflog)
  {
    hide Coalesce, SpanEvents, SpanLength;
    events := [];
    var i := 0;
    ghost var rest := Coalesce(reflog);
    assert reflog[0..] == reflog;
    while i < |reflog|
      invariant 0 <= i <= |reflog|
      invariant rest == Coalesce(reflog[i..]) && events + rest == Coalesce(reflog)
    {
      NextSpan(reflog, i);
      var span, made := CoalesceOne(reflog, i);
      i := span + 1;
      rest := Coalesce(reflog[i..]);
      Regroup(events, made, rest);
      events := events + made;
    }
    NothingToCoalesce(reflog[i..]);
  }

  lemma {:induction false} NothingToCoalesce(reflog: seq<ReflogEntry>)
    requires reflog == []
    ensures Coalesce(reflog) == []
  {
  }

  lemma NextSpan(reflog: seq<ReflogEntry>, i: nat)
    requires i < |reflog|
    ensures var n := SpanLength(reflog[i..]);
            Coalesce(reflog[i..]) == SpanEvents(reflog[i..i + n]) + Coalesce(reflog[i + n..])
  {
    var n := SpanLength(reflog[i..]);
    assert reflog[i..][..n] == reflog[i..i + n] && reflog[i..][n..] == reflog[i + n..];
  }

  /** The event, if any, of the line or rebase that starts at line `i`, and its last line. */
  method CoalesceOne(reflog: seq<ReflogEntry>, i: nat) returns (span: nat, made: seq<FeedEvent>)
    requires i < |reflog|
    ensures span + 1 == i + SpanLength(reflog[i..])
    ensures made == SpanEvents(reflog[i..span + 1])
  {
    var entry := reflog[i];
    var (kind, summary) := ParseReflogMessage(entry.message);
    assert reflog[i..][1..] == reflog[i + 1..];
    span := i;
    if kind == Checkout && IsSelfCheckout(entry.message) { return i, []; }
    if kind == Rebase { span := EndOfRebase(reflog, i); }
    var steps := span - i + 1;
    made := [FeedEvent(ActivityEvent(
      entry.time, kind, Some(QualifiedRefName(entry)),
      if steps > 1 then "rebase (" + Decimal(steps) + " steps)" else summary,
      Some(reflog[span].oldOid), Some(entry.newOid), External, None, None), Some(entry.refKind))];
  }

  /** The last line of the rebase that starts at line `i`. */
  method EndOfRebase(reflog: seq<ReflogEntry>, i: nat) returns (span: nat)
    requires i < |reflog|
    ensures span == i + Followers(reflog[i], reflog[i + 1..]) < |reflog|
  {
    hide KindOf;
    var entry := reflog[i];
    span := i;
    while span + 1 < |reflog|
      invariant i <= span < |reflog|
      invariant Followers(entry, reflog[i + 1..]) == (span - i) + Followers(entry, reflog[span + 1..])
    {
      var next := reflog[span + 1];
      assert reflog[span + 1..][0] == next && reflog[span + 1..][1..] == reflog[span + 2..];
      if next.refKind != entry.refKind || next.refName != entry.refName || KindOf(next) != Rebase { break; }
      span := span + 1;
    }
  }

  /** One burst: how many events, and whether the app made any of them. */
  method MeasureBurst(group: seq<FeedEvent>, at: nat) returns (refs: nat, byApp: bool)
    requires at < |group|
    ensures refs == BurstLength(group[at..]) && byApp == ByApp(group[at..at + refs])
  {
    var previous := group[at].event.time;
    refs, byApp := 1, group[at].event.source == App;
    assert group[at..][0..] == group[at..];
    while at + refs < |group|
      invariant 1 <= refs <= |group| - at && previous == group[at + refs - 1].event.time
      invariant BurstLength(group[at..]) == refs - 1 + BurstLength(group[at + refs - 1..])
      invariant byApp == exists k | at <= k < at + refs :: group[k].event.source == App
    {
      var next := group[at + refs];
      assert group[at + refs - 1..][0] == group[at + refs - 1] && group[at + refs - 1..][1] == next;
      assert group[at + refs - 1..][1..] == group[at + refs..];
      if previous - next.event.time > FETCH_BURST_GAP { break; }
      previous := next.event.time;
      byApp := byApp || next.event.source == App;
      refs := refs + 1;
    }
    AppByIndex(group, at, refs);
  }

  lemma AppByIndex(group: seq<FeedEvent>, at: nat, n: nat)
    requires at + n <= |group|
    ensures ByApp(group[at..at + n]) <==> exists k | at <= k < at + n :: group[k].event.source == App
  {
    if k :| at <= k < at + n && group[k].event.source == App { assert group[at..at + n][k - at] == group[k]; }
    if e :| e in group[at..at + n] && e.event.source == App {
      var i :| 0 <= i < n && group[at..at + n][i] == e;
      assert group[at + i] == e;
    }
  }

  method FoldOneKindInto(out: seq<FeedEvent>, group: seq<FeedEvent>, noun: string) returns (folded: seq<FeedEvent>)
    ensures folded == out + FoldOneKind(group, noun)
  {
    var sorted := Sort(NewestFirst, group);
    hide BurstRows, BurstLength, ByApp;
    folded := out;
    var at := 0;
    ghost var rest := BurstRows(sorted, noun);
    assert sorted[0..] == sorted;
    while at < |sorted|
      invariant 0 <= at <= |sorted|
      invariant rest == BurstRows(sorted[at..], noun) && folded + rest == out + BurstRows(sorted, noun)
    {
      var first := sorted[at];
      NextBurst(sorted, at, noun);
      var refs, byApp := MeasureBurst(sorted, at);
      var row := if refs == 1 then first
                 else FromJournal(CountedRow(first.event.time, first.event.kind, noun, refs, byApp));
      at := at + refs;
      rest := BurstRows(sorted[at..], noun);
      Regroup(folded, [row], rest);
      folded := folded + [row];
    }
    NoBursts(sorted[at..], noun);
  }

  lemma {:induction false} NoBursts(s: seq<FeedEvent>, noun: string)
    requires s == []
    ensures BurstRows(s, noun) == []
  {
  }

  lemma {:induction false} NextBurst(sorted: seq<FeedEvent>, at: nat, noun: string)
    requires at < |sorted|
    ensures var n := BurstLength(sorted[at..]);
            BurstRows(sorted[at..], noun) == [BurstRow(sorted[at..at + n], noun)] + BurstRows(sorted[at + n..], noun)
  {
    var n := BurstLength(sorted[at..]);
    assert sorted[at..][..n] == sorted[at..at + n] && sorted[at..][n..] == sorted[at + n..];
  }

  method FoldRefUpdateBursts(events: seq<FeedEvent>, branches: map<string, string>) returns (out: seq<FeedEvent>)
    ensures out == FoldBursts(events, branches)
  {
    hide FoldOneKind, FoldKinds, Filter;
    var candidates := Filter(CandidateAmong(branches), events);
    out := Filter(NoCandidateAmong(branches), events);
    assert FOLDABLE_KINDS[0..] == FOLDABLE_KINDS;
    ghost var rest := FoldKinds(FOLDABLE_KINDS, candidates);
    for k := 0 to |FOLDABLE_KINDS|
      invariant rest == FoldKinds(FOLDABLE_KINDS[k..], candidates) && out + rest == FoldBursts(events, branches)
    {
      NextKind(k, candidates);
      var (kind, noun) := FOLDABLE_KINDS[k];
      var group := Filter(IsKind(kind), candidates);
      candidates := Filter(IsNotKind(kind), candidates);
      rest := FoldKinds(FOLDABLE_KINDS[k + 1..], candidates);
      Regroup(out, FoldOneKind(group, noun), rest);
      out := FoldOneKindInto(out, group, noun);
    }
    NoKinds(candidates);
    out := out + candidates;
  }

  lemma {:induction false} NoKinds(candidates: seq<FeedEvent>)
    ensures FoldKinds(FOLDABLE_KINDS[|FOLDABLE_KINDS|..], candidates) == candidates
  {
  }

  lemma {:induction false} NextKind(k: nat, candidates: seq<FeedEvent>)
    requires k < |FOLDABLE_KINDS|
    ensures var (kind, noun) := FOLDABLE_KINDS[k];
            FoldKinds(FOLDABLE_KINDS[k..], candidates)
              == FoldOneKind(Filter(IsKind(kind), candidates), noun)
               + FoldKinds(FOLDABLE_KINDS[k + 1..], Filter(IsNotKind(kind), candidates))
  {
    assert FOLDABLE_KINDS[k..][1..] == FOLDABLE_KINDS[k + 1..];
  }

  method AttachHints(events: seq<ActivityEvent>, branches: map<string, string>, remote: set<string>)
    returns (hinted: seq<ActivityEvent>)
    ensures hinted == Map(Hinted(branches, remote), events)
  {
    hide UndoHint;
    hinted := events;
    for i := 0 to |events|
      invariant |hinted| == |events|
      invariant forall k | 0 <= k < |events| :: hinted[k] == if k < i then Hinted(branches, remote)(events[k]) else events[k]
    {
      hinted := hinted[i := hinted[i].(undo := UndoHint(hinted[i], branches, remote))];
    }
  }

  method ResolveBatches(events: seq<ActivityEvent>, journal: seq<ActivityEvent>) returns (resolved: seq<ActivityEvent>)
    ensures resolved == Map(Resolved(journal), events)
  {
    resolved := events;
    for i := 0 to |events|
      invariant |resolved| == |events|
      invariant forall k | 0 <= k < |events| :: resolved[k] == if k < i then Resolve(events[k], journal) else events[k]
    {
      var refs := resolved[i].refs;
      if refs.Some? && (refs.value.InBatch? || refs.value.Unknown?) {
        resolved := resolved[i := resolved[i].(refs := RefsAt(resolved[i], journal))];
      }
    }
  }

  method AssembleFeed(journal: seq<ActivityEvent>, reflog: seq<ReflogEntry>, branches: map<string, string>,
                      remote: set<string>, limit: nat) returns (feed: seq<ActivityEvent>)
    ensures feed == Assembled(journal, reflog, branches, remote, limit)
  {
    hide Coalesce, Filter, Map, FoldBursts, Sort, Hinted, Resolved;
    var events := CoalesceReflog(reflog);
    events := Filter(KeptBesideBranches(events), events);
    events := Filter(KeptBesideJournal(journal), events);
    events := events + Map(FromJournal, journal);
    var folded := FoldRefUpdateBursts(events, branches);
    feed := AttachHints(Map(IntoActivity, folded), branches, remote);
    feed := Truncate(Sort(NewerFirst, feed), limit);
    feed := ResolveBatches(feed, journal);
  }
}
