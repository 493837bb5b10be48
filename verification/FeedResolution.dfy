/** Batched captures are resolved last; the feed is the one an early resolution would have given. */
module FeedResolution {
  import opened Basics
  import opened Sorting
  import opened Activity
  import opened Feed
  import opened FoldLaws
  import opened FeedStages

  // ----- maps, filters and sorts commute -----

  lemma {:induction false} FilterMap<A, B>(f: A -> B, p: B -> bool, q: A -> bool, s: seq<A>)
    requires forall x | x in s :: p(f(x)) == q(x)
    ensures Filter(p, Map(f, s)) == Map(f, Filter(q, s))
  {
    if s != [] { FilterMap(f, p, q, s[1..]); }
  }

  lemma {:induction false} InsertMap<A(!new), B>(f: A -> B, le: (A, A) -> bool, le': (B, B) -> bool, x: A, s: seq<A>)
    requires forall a, b :: le'(f(a), f(b)) == le(a, b)
    ensures Insert(le', f(x), Map(f, s)) == Map(f, Insert(le, x, s))
  {
    if s != [] && !le(x, s[0]) { InsertMap(f, le, le', x, s[1..]); }
  }

  lemma {:induction false} SortMap<A(!new), B>(f: A -> B, le: (A, A) -> bool, le': (B, B) -> bool, s: seq<A>)
    requires forall a, b :: le'(f(a), f(b)) == le(a, b)
    ensures Sort(le', Map(f, s)) == Map(f, Sort(le, s))
  {
    if s != [] {
      SortMap(f, le, le', s[1..]);
      InsertMap(f, le, le', s[0], Sort(le, s[1..]));
    }
  }

  lemma {:induction false} MapConcat<A, B>(f: A -> B, s: seq<A>, t: seq<A>)
    ensures Map(f, s + t) == Map(f, s) + Map(f, t)
  {
    if s == [] {
      assert s + t == t;
    } else {
      assert (s + t)[1..] == s[1..] + t;
      MapConcat(f, s[1..], t);
    }
  }

  lemma {:induction false} MapAgree<A, B, C, D>(f: A -> B, g: B -> D, f': A -> C, g': C -> D, s: seq<A>)
    requires forall x | x in s :: g(f(x)) == g'(f'(x))
    ensures Map(g, Map(f, s)) == Map(g', Map(f', s))
  {
  }

  lemma {:induction false} MapSlices<A, B>(f: A -> B, s: seq<A>, n: nat)
    requires n <= |s|
    ensures Map(f, s)[..n] == Map(f, s[..n]) && Map(f, s)[n..] == Map(f, s[n..])
  {
    hide Map;
    assert s == s[..n] + s[n..];
    MapConcat(f, s[..n], s[n..]);
  }

  // ----- resolving early -----

  /** Resolution of an event wherever it came from. */
  function ResolvedFeed(journal: seq<ActivityEvent>): FeedEvent -> FeedEvent {
    (e: FeedEvent) => e.(event := Resolve(e.event, journal))
  }

  lemma {:induction false} FoldRowsResolve(journal: seq<ActivityEvent>, s: seq<FeedEvent>, noun: string)
    ensures BurstRows(Map(ResolvedFeed(journal), s), noun) == Map(ResolvedFeed(journal), BurstRows(s, noun))
    decreases |s|
  {
    if s != [] {
      var g := ResolvedFeed(journal);
      var n := BurstLength(s);
      SameBurstLength(Map(g, s), s);
      MapSlices(g, s, n);
      FoldRowsResolve(journal, s[n..], noun);
      BurstRowResolves(journal, s[..n], noun);
    }
  }

  lemma {:induction false} BurstRowResolves(journal: seq<ActivityEvent>, burst: seq<FeedEvent>, noun: string)
    requires burst != []
    ensures BurstRow(Map(ResolvedFeed(journal), burst), noun) == ResolvedFeed(journal)(BurstRow(burst, noun))
  {
    var g := ResolvedFeed(journal);
    var burst' := Map(g, burst);
    if ByApp(burst) {
      var i :| 0 <= i < |burst| && burst[i].event.source == App;
      assert burst'[i].event.source == App;
    }
    if ByApp(burst') {
      var i :| 0 <= i < |burst'| && burst'[i].event.source == App;
      assert burst[i].event.source == App;
    }
  }

  lemma {:induction false} FoldOneKindResolves(journal: seq<ActivityEvent>, group: seq<FeedEvent>, noun: string)
    ensures FoldOneKind(Map(ResolvedFeed(journal), group), noun) == Map(ResolvedFeed(journal), FoldOneKind(group, noun))
  {
    SortMap(ResolvedFeed(journal), NewestFirst, NewestFirst, group);
    FoldRowsResolve(journal, Sort(NewestFirst, group), noun);
  }

  lemma {:induction false} FoldKindsResolves(journal: seq<ActivityEvent>, kinds: seq<(ActivityKind, string)>, s: seq<FeedEvent>)
    ensures FoldKinds(kinds, Map(ResolvedFeed(journal), s)) == Map(ResolvedFeed(journal), FoldKinds(kinds, s))
  {
    if kinds != [] {
      var g, kind, noun := ResolvedFeed(journal), kinds[0].0, kinds[0].1;
      FilterMap(g, IsKind(kind), IsKind(kind), s);
      FilterMap(g, IsNotKind(kind), IsNotKind(kind), s);
      FoldOneKindResolves(journal, Filter(IsKind(kind), s), noun);
      FoldKindsResolves(journal, kinds[1..], Filter(IsNotKind(kind), s));
      MapConcat(g, FoldOneKind(Filter(IsKind(kind), s), noun), FoldKinds(kinds[1..], Filter(IsNotKind(kind), s)));
    }
  }

  lemma {:induction false} FoldResolves(journal: seq<ActivityEvent>, s: seq<FeedEvent>, branches: map<string, string>)
    ensures FoldBursts(Map(ResolvedFeed(journal), s), branches) == Map(ResolvedFeed(journal), FoldBursts(s, branches))
  {
    var g := ResolvedFeed(journal);
    FilterMap(g, NoCandidateAmong(branches), NoCandidateAmong(branches), s);
    FilterMap(g, CandidateAmong(branches), CandidateAmong(branches), s);
    FoldKindsResolves(journal, FOLDABLE_KINDS, Filter(CandidateAmong(branches), s));
    MapConcat(g, Filter(NoCandidateAmong(branches), s), FoldKinds(FOLDABLE_KINDS, Filter(CandidateAmong(branches), s)));
  }

  lemma EchoIgnoresRefs(e: FeedEvent, j: ActivityEvent, journal: seq<ActivityEvent>)
    ensures EchoOf(e, Resolve(j, journal)) <==> EchoOf(e, j)
  {
  }

  lemma {:induction false} AbsorbedIgnoresRefs(e: FeedEvent, journal: seq<ActivityEvent>)
    ensures Absorbed(e, Map(Resolved(journal), journal)) <==> Absorbed(e, journal)
  {
    hide EchoOf, Resolve;
    var journal' := Map(Resolved(journal), journal);
    if j :| j in journal && EchoOf(e, j) {
      var i :| 0 <= i < |journal| && journal[i] == j;
      EchoIgnoresRefs(e, j, journal);
      assert journal'[i] in journal';
    }
    if j' :| j' in journal' && EchoOf(e, j') {
      var i :| 0 <= i < |journal'| && journal'[i] == j';
      EchoIgnoresRefs(e, journal[i], journal);
      assert journal[i] in journal;
    }
  }

  /** Whether a journal's captures are resolved or not, it absorbs the same echoes. */
  lemma {:induction false} AbsorbsTheSame(journal: seq<ActivityEvent>, events: seq<FeedEvent>)
    ensures AbsorbEchoes(events, Map(Resolved(journal), journal)) == AbsorbEchoes(events, journal)
  {
    hide Absorbed, Map;
    var journal' := Map(Resolved(journal), journal);
    forall e | e in events ensures KeptBesideJournal(journal')(e) == KeptBesideJournal(journal)(e) {
      AbsorbedIgnoresRefs(e, journal);
    }
    FilterAgree(KeptBesideJournal(journal'), KeptBesideJournal(journal), events);
  }

  lemma {:induction false} MapFixes<A>(f: A -> A, s: seq<A>)
    requires forall x | x in s :: f(x) == x
    ensures Map(f, s) == s
  {
  }

  lemma {:induction false} AttributedResolves(journal: seq<ActivityEvent>, reflog: seq<ReflogEntry>)
    ensures Attributed(Map(Resolved(journal), journal), reflog) == Map(ResolvedFeed(journal), Attributed(journal, reflog))
  {
    var g := ResolvedFeed(journal);
    var kept := AbsorbEchoes(DropHeadTwins(Coalesce(reflog)), journal);
    AbsorbsTheSame(journal, DropHeadTwins(Coalesce(reflog)));
    FilterMembers(KeptBesideBranches(Coalesce(reflog)), Coalesce(reflog));
    FilterMembers(KeptBesideJournal(journal), DropHeadTwins(Coalesce(reflog)));
    forall e | e in kept ensures g(e) == e { CoalescedEventsAreReflogEvents(reflog, e); }
    hide Coalesce, DropHeadTwins, AbsorbEchoes, Filter;
    MapFixes(g, kept);
    MapAgree(Resolved(journal), FromJournal, FromJournal, g, journal);
    MapConcat(g, kept, Map(FromJournal, journal));
  }

  lemma HintIgnoresRefs(e: ActivityEvent, journal: seq<ActivityEvent>, branches: map<string, string>, remote: set<string>)
    ensures UndoHint(Resolve(e, journal), branches, remote) == UndoHint(e, branches, remote)
  {
  }

  lemma {:induction false} DisplayResolves(journal: seq<ActivityEvent>, folded: seq<FeedEvent>, branches: map<string, string>, remote: set<string>)
    ensures Map(Hinted(branches, remote), Map(IntoActivity, Map(ResolvedFeed(journal), folded)))
         == Map(Resolved(journal), Map(Hinted(branches, remote), Map(IntoActivity, folded)))
  {
    var g, gf := Resolved(journal), ResolvedFeed(journal);
    forall e: FeedEvent ensures IntoActivity(gf(e)) == g(IntoActivity(e)) {}
    forall e: ActivityEvent ensures Hinted(branches, remote)(g(e)) == g(Hinted(branches, remote)(e)) {
      HintIgnoresRefs(e, journal, branches, remote);
    }
    hide UndoHint, IntoActivity, Resolve, Map, Hinted, Resolved, ResolvedFeed;
    MapAgree(gf, IntoActivity, IntoActivity, g, folded);
    MapAgree(g, Hinted(branches, remote), Hinted(branches, remote), g, Map(IntoActivity, folded));
  }

  lemma {:induction false} RowsResolve(journal: seq<ActivityEvent>, reflog: seq<ReflogEntry>, branches: map<string, string>, remote: set<string>)
    ensures Rows(Map(Resolved(journal), journal), reflog, branches, remote)
         == Map(Resolved(journal), Rows(journal, reflog, branches, remote))
  {
    hide Attributed, FoldBursts, Hinted, IntoActivity, Map, Resolved, ResolvedFeed;
    AttributedResolves(journal, reflog);
    FoldResolves(journal, Attributed(journal, reflog), branches);
    DisplayResolves(journal, FoldBursts(Attributed(journal, reflog), branches), branches, remote);
  }

  /** Resolving only the rows that are sent gives the feed that resolving the whole journal first would give. */
  lemma {:induction false} LateResolutionIsEarlyResolution(journal: seq<ActivityEvent>, reflog: seq<ReflogEntry>,
                                        branches: map<string, string>, remote: set<string>, limit: nat)
    ensures Assembled(journal, reflog, branches, remote, limit)
         == Unresolved(Map(Resolved(journal), journal), reflog, branches, remote, limit)
  {
    hide Rows;
    var g, rows := Resolved(journal), Rows(journal, reflog, branches, remote);
    RowsResolve(journal, reflog, branches, remote);
    SortMap(g, NewerFirst, NewerFirst, rows);
    var sorted := Sort(NewerFirst, rows);
    if |sorted| > limit { MapSlices(g, sorted, limit); }
  }

  // ----- what leaves the feed -----

  lemma {:induction false} AnchorIsJournaled(journal: seq<ActivityEvent>, batch: string)
    ensures var found := FindAnchor(journal, batch);
            if found.Some?
            then found.value.Captured? && found.value.batch == Some(batch) && exists j | j in journal :: j.refs == found
            else forall j | j in journal :: !Anchors(j, batch)
  {
    if journal != [] && !Anchors(journal[0], batch) { AnchorIsJournaled(journal[1..], batch); }
  }

  /** A row leaves with the capture anchored under its own batch id, or with none exactly when no line anchors it. */
  ghost predicate Answers(journal: seq<ActivityEvent>, before: Option<RefsAtEvent>, after: Option<RefsAtEvent>) {
    match before
    case Some(InBatch(batch)) =>
      if exists j | j in journal :: Anchors(j, batch)
      then after.Some? && exists j | j in journal :: Anchors(j, batch) && j.refs == after
      else after.None?
    case Some(Unknown) => after.None?
    case own => after == own
  }

  lemma NothingLeavesAsAReference(journal: seq<ActivityEvent>, reflog: seq<ReflogEntry>,
                                  branches: map<string, string>, remote: set<string>, limit: nat, k: nat)
    requires k < |Assembled(journal, reflog, branches, remote, limit)|
    ensures var row := Assembled(journal, reflog, branches, remote, limit)[k];
            var kept := Unresolved(journal, reflog, branches, remote, limit)[k];
            && row == kept.(refs := row.refs)
            && (row.refs.Some? ==> !row.refs.value.InBatch? && !row.refs.value.Unknown?)
            && Answers(journal, kept.refs, row.refs)
  {
    var kept := Unresolved(journal, reflog, branches, remote, limit)[k];
    if kept.refs.Some? && kept.refs.value.InBatch? {
      AnchorIsJournaled(journal, kept.refs.value.anchor);
    }
  }
}
