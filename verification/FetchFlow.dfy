/** One fetch from end to end, and what holds of every assembled feed. */
module FetchFlow {
  import opened Basics
  import opened Sorting
  import opened Activity
  import opened Feed
  import opened FoldTheorems
  import opened FoldLaws
  import opened FeedStages
  import opened FeedResolution

  predicate IsFetch(e: ActivityEvent) { e.kind == Fetch }

  /** The app's own account of one fetch: at least two refs, one moment, each ref by its full remote name. */
  ghost predicate JournaledFetch(journal: seq<ActivityEvent>, branches: map<string, string>, at: int) {
    var fetched := Filter(IsFetch, journal);
    && |fetched| >= 2
    && forall j | j in fetched ::
         j.time == at && j.source == App && j.refName.Some? && j.refName.value !in branches
  }

  ghost predicate FetchesOnlyRemotes(reflog: seq<ReflogEntry>) {
    forall r | r in reflog && KindOf(r) == Fetch :: r.refKind == RemoteBranch
  }

  /** The journal names this line's ref and tip within the slack. */
  ghost predicate Echoes(r: ReflogEntry, journal: seq<ActivityEvent>) {
    exists j | j in journal ::
      && j.kind == Fetch && j.newOid == Some(r.newOid) && j.refName == Some(QualifiedRefName(r))
      && Abs(r.time - j.time) <= JOURNAL_MATCH_SLACK
  }

  // ----- reflog fetch lines before the fold -----

  function LineEvent(r: ReflogEntry): FeedEvent {
    FeedEvent(ActivityEvent(r.time, KindOf(r), Some(QualifiedRefName(r)), ParseReflogMessage(r.message).1,
                            Some(r.oldOid), Some(r.newOid), External, None, None), Some(r.refKind))
  }

  /** `e` is the event of a fetch line of the reflog. */
  ghost predicate IsFetchLine(reflog: seq<ReflogEntry>, e: FeedEvent) {
    exists r | r in reflog :: KindOf(r) == Fetch && e == LineEvent(r)
  }

  lemma {:induction false} FetchEventsAreLines(reflog: seq<ReflogEntry>, e: FeedEvent)
    requires e.event.kind == Fetch
    ensures e in Coalesce(reflog) <==> IsFetchLine(reflog, e)
    decreases |reflog|
  {
    hide IsFetchLine, SpanEvents, SpanLength, OneAction;
    if reflog == [] {
      NoFetchLine(reflog, e);
    } else {
      var n := SpanLength(reflog);
      FirstSpanIsOneAction(reflog);
      FetchEventsAreLines(reflog[n..], e);
      SpanFetch(reflog[..n], e);
      FetchLineOfEither(reflog[..n], reflog[n..], e);
      assert reflog == reflog[..n] + reflog[n..];
    }
  }

  lemma NoFetchLine(reflog: seq<ReflogEntry>, e: FeedEvent)
    requires reflog == []
    ensures !IsFetchLine(reflog, e)
  {
  }

  lemma FetchLineOfEither(a: seq<ReflogEntry>, b: seq<ReflogEntry>, e: FeedEvent)
    ensures IsFetchLine(a + b, e) <==> IsFetchLine(a, e) || IsFetchLine(b, e)
  {
    hide KindOf, LineEvent;
  }

  lemma SpanFetch(span: seq<ReflogEntry>, e: FeedEvent)
    requires OneAction(span) && e.event.kind == Fetch
    ensures e in SpanEvents(span) <==> IsFetchLine(span, e)
  {
    hide ParseReflogMessage, QualifiedRefName;
    assert span[0] in span;
    if |span| == 1 { assert forall r | r in span :: r == span[0]; }
  }

  lemma RemoteNamesAreNotHead(r: ReflogEntry)
    requires r.refKind == RemoteBranch
    ensures QualifiedRefName(r) != "HEAD"
  {
    assert QualifiedRefName(r)[0] == 'r' && "HEAD"[0] == 'H';
  }

  lemma EchoIsAbsorption(journal: seq<ActivityEvent>, r: ReflogEntry)
    requires KindOf(r) == Fetch && r.refKind == RemoteBranch
    ensures KeptBesideJournal(journal)(LineEvent(r)) <==> !Echoes(r, journal)
  {
    var e := LineEvent(r);
    hide KindOf, ParseReflogMessage, QualifiedRefName;
    forall j: ActivityEvent
      ensures EchoOf(e, j) <==> (j.kind == Fetch && j.newOid == Some(r.newOid) && j.refName == Some(QualifiedRefName(r))
                                 && Abs(r.time - j.time) <= JOURNAL_MATCH_SLACK)
    {
    }
  }

  /** A fetch line survives attribution exactly when the journal does not echo it. */
  lemma {:induction false} FetchLineSurvives(journal: seq<ActivityEvent>, reflog: seq<ReflogEntry>, r: ReflogEntry)
    requires r in reflog && KindOf(r) == Fetch && r.refKind == RemoteBranch
    ensures LineEvent(r) in AbsorbEchoes(DropHeadTwins(Coalesce(reflog)), journal) <==> !Echoes(r, journal)
  {
    FilterMembers(KeptBesideBranches(Coalesce(reflog)), Coalesce(reflog));
    FilterMembers(KeptBesideJournal(journal), DropHeadTwins(Coalesce(reflog)));
    FetchEventsAreLines(reflog, LineEvent(r));
    RemoteNamesAreNotHead(r);
    EchoIsAbsorption(journal, r);
  }

  // ----- the fetch group -----

  /** The fetch lines nobody journaled. */
  function Unechoed(journal: seq<ActivityEvent>, reflog: seq<ReflogEntry>): seq<FeedEvent> {
    Filter(IsKind(Fetch), AbsorbEchoes(DropHeadTwins(Coalesce(reflog)), journal))
  }

  lemma {:induction false} FetchGroup(journal: seq<ActivityEvent>, reflog: seq<ReflogEntry>, branches: map<string, string>, at: int)
    requires JournaledFetch(journal, branches, at) && FetchesOnlyRemotes(reflog)
    ensures var a := Attributed(journal, reflog);
            && (forall e | e in a && e.event.kind == Fetch :: Candidate(e, branches))
            && Filter(IsKind(Fetch), Filter(CandidateAmong(branches), a))
               == Unechoed(journal, reflog) + Map(FromJournal, Filter(IsFetch, journal))
  {
    var a := Attributed(journal, reflog);
    FilterMembers(IsFetch, journal);
    forall e | e in a && e.event.kind == Fetch ensures Candidate(e, branches) {
      NothingIsMadeUp(journal, reflog, e);
      if e in Coalesce(reflog) {
        FetchEventsAreLines(reflog, e);
      } else {
        assert e.event in Filter(IsFetch, journal);
      }
    }
    FilterTwice(IsKind(Fetch), CandidateAmong(branches), a);
    FilterConcat(IsKind(Fetch), AbsorbEchoes(DropHeadTwins(Coalesce(reflog)), journal), Map(FromJournal, journal));
    FilterMap(FromJournal, IsKind(Fetch), IsFetch, journal);
  }

  lemma {:induction false} FilterTwice(p: FeedEvent -> bool, q: FeedEvent -> bool, s: seq<FeedEvent>)
    requires forall e | e in s && p(e) :: q(e)
    ensures Filter(p, Filter(q, s)) == Filter(p, s)
  {
    if s != [] { FilterTwice(p, q, s[1..]); }
  }

  lemma UnechoedIsEmpty(journal: seq<ActivityEvent>, reflog: seq<ReflogEntry>)
    requires FetchesOnlyRemotes(reflog)
    ensures Unechoed(journal, reflog) == [] <==> forall r | r in reflog && KindOf(r) == Fetch :: Echoes(r, journal)
  {
    var kept := AbsorbEchoes(DropHeadTwins(Coalesce(reflog)), journal);
    FilterMembers(IsKind(Fetch), kept);
    hide KindOf, Echoes;
    FilterMembers(KeptBesideBranches(Coalesce(reflog)), Coalesce(reflog));
    FilterMembers(KeptBesideJournal(journal), DropHeadTwins(Coalesce(reflog)));
    if Unechoed(journal, reflog) != [] {
      var e := Unechoed(journal, reflog)[0];
      assert e in Unechoed(journal, reflog);
      FetchEventsAreLines(reflog, e);
      var r :| r in reflog && KindOf(r) == Fetch && e == LineEvent(r);
      FetchLineSurvives(journal, reflog, r);
    }
    forall r | r in reflog && KindOf(r) == Fetch && !Echoes(r, journal) ensures Unechoed(journal, reflog) != [] {
      FetchLineSurvives(journal, reflog, r);
      assert LineEvent(r) in Unechoed(journal, reflog);
    }
  }

  // ----- the fetch row -----

  lemma {:induction false} OneMomentOneBurst(s: seq<FeedEvent>, at: int)
    requires s != [] && forall e | e in s :: e.event.time == at
    ensures BurstLength(s) == |s|
  {
    if |s| > 1 {
      assert s[0] in s && s[1] in s;
      OneMomentOneBurst(s[1..], at);
    }
  }

  lemma MomentFoldsToOneRow(group: seq<FeedEvent>, noun: string, kind: ActivityKind, at: int)
    requires |group| >= 2 && forall e | e in group :: e.event.time == at && e.event.kind == kind && e.event.source == App
    ensures FoldOneKind(group, noun) == [FromJournal(CountedRow(at, kind, noun, |group|, true))]
  {
    var s := Sort(NewestFirst, group);
    NewestFirstIsPreorder();
    SortIsSortedPermutation(NewestFirst, group);
    forall e | e in s ensures e in group { assert e in multiset(group); }
    OneMomentOneBurst(s, at);
    assert s[..|s|] == s && s[|s|..] == [];
    assert s[0] in s;
    assert BurstRows(s[|s|..], noun) == [];
  }

  /** If one kind folds into a single row of two or more, that row counts the whole group. */
  lemma SingleRowCountsAll(group: seq<FeedEvent>, noun: string)
    requires |group| >= 2 && |FoldOneKind(group, noun)| == 1
    ensures FoldOneKind(group, noun)[0].event.summary == CountedSummary(noun, |group|)
  {
    var s := Sort(NewestFirst, group);
    NewestFirstIsPreorder();
    SortIsSortedPermutation(NewestFirst, group);
    var n := BurstLength(s);
    assert BurstRows(s, noun) == [BurstRow(s[..n], noun)] + BurstRows(s[n..], noun);
    EventsGiveRows(s[n..], noun);
    assert s[..|s|] == s;
  }

  lemma {:induction false} EventsGiveRows(s: seq<FeedEvent>, noun: string)
    ensures s != [] ==> BurstRows(s, noun) != []
  {
  }

  /** What a folded event becomes before sorting. */
  function Display(branches: map<string, string>, remote: set<string>): FeedEvent -> ActivityEvent {
    (e: FeedEvent) => Hinted(branches, remote)(IntoActivity(e))
  }

  lemma {:induction false} FetchRowsOfRows(journal: seq<ActivityEvent>, reflog: seq<ReflogEntry>, branches: map<string, string>,
                        remote: set<string>, at: int)
    requires JournaledFetch(journal, branches, at) && FetchesOnlyRemotes(reflog)
    ensures var group := Unechoed(journal, reflog) + Map(FromJournal, Filter(IsFetch, journal));
            Filter(IsFetch, Rows(journal, reflog, branches, remote))
              == Map(Display(branches, remote), FoldOneKind(group, "fetch"))
  {
    var a := Attributed(journal, reflog);
    FetchGroup(journal, reflog, branches, at);
    FetchRowsOfFold(a, branches);
    hide Filter, FoldOneKind, Attributed, FoldBursts, Candidate, JournaledFetch, Unechoed;
    RowsAreDisplayed(FoldBursts(a, branches), branches, remote);
  }

  lemma FetchRowsOfFold(events: seq<FeedEvent>, branches: map<string, string>)
    requires forall e | e in events && e.event.kind == Fetch :: Candidate(e, branches)
    ensures Filter(IsKind(Fetch), FoldBursts(events, branches)) == FoldOf(Fetch, "fetch", events, branches)
  {
    var out := Filter(NoCandidateAmong(branches), events);
    FoldShape(events, branches);
    FilterMembers(NoCandidateAmong(branches), events);
    FilterNone(IsKind(Fetch), out);
    hide Filter, FoldOf, FoldBursts, Candidate;
    FoldOfHasKind(Fetch, "fetch", events, branches);
    FoldOfHasKind(Pull, "pull", events, branches);
    FoldOfHasKind(Push, "push", events, branches);
    OnlyFetchesAreFetches(out, FoldOf(Fetch, "fetch", events, branches), FoldOf(Pull, "pull", events, branches),
                          FoldOf(Push, "push", events, branches));
  }

  lemma {:induction false} OnlyFetchesAreFetches(out: seq<FeedEvent>, f: seq<FeedEvent>, l: seq<FeedEvent>, u: seq<FeedEvent>)
    requires Filter(IsKind(Fetch), out) == []
    requires forall e | e in f :: e.event.kind == Fetch
    requires forall e | e in l :: e.event.kind == Pull
    requires forall e | e in u :: e.event.kind == Push
    ensures Filter(IsKind(Fetch), out + f + l + u) == f
  {
    assert out + f + l + u == out + (f + l + u);
    FilterConcat(IsKind(Fetch), out, f + l + u);
    KindsComeApart(Fetch, f, l, u);
  }

  lemma {:induction false} RowsAreDisplayed(folded: seq<FeedEvent>, branches: map<string, string>, remote: set<string>)
    ensures Filter(IsFetch, Map(Hinted(branches, remote), Map(IntoActivity, folded)))
         == Map(Display(branches, remote), Filter(IsKind(Fetch), folded))
  {
    assert Map(Hinted(branches, remote), Map(IntoActivity, folded)) == Map(Display(branches, remote), folded);
    FilterMap(Display(branches, remote), IsFetch, IsKind(Fetch), folded);
  }

  // ----- from rows to feed -----

  lemma {:induction false} CoalesceShrinks(reflog: seq<ReflogEntry>)
    ensures |Coalesce(reflog)| <= |reflog|
    decreases |reflog|
  {
    if reflog != [] { CoalesceShrinks(reflog[SpanLength(reflog)..]); }
  }

  lemma {:induction false} BurstRowsShrink(s: seq<FeedEvent>, noun: string)
    ensures |BurstRows(s, noun)| <= |s|
    decreases |s|
  {
    if s != [] { BurstRowsShrink(s[BurstLength(s)..], noun); }
  }

  lemma {:induction false} FoldKindsShrinks(kinds: seq<(ActivityKind, string)>, s: seq<FeedEvent>)
    ensures |FoldKinds(kinds, s)| <= |s|
  {
    if kinds != [] {
      var (kind, noun) := kinds[0];
      NewestFirstIsPreorder();
      SortIsSortedPermutation(NewestFirst, Filter(IsKind(kind), s));
      BurstRowsShrink(Sort(NewestFirst, Filter(IsKind(kind), s)), noun);
      FoldKindsShrinks(kinds[1..], Filter(IsNotKind(kind), s));
      FilterSplits(IsKind(kind), IsNotKind(kind), s);
    }
  }

  lemma RowsAreFewer(journal: seq<ActivityEvent>, reflog: seq<ReflogEntry>, branches: map<string, string>, remote: set<string>)
    ensures |Rows(journal, reflog, branches, remote)| <= |journal| + |reflog|
  {
    var a := Attributed(journal, reflog);
    CoalesceShrinks(reflog);
    FilterMembers(KeptBesideBranches(Coalesce(reflog)), Coalesce(reflog));
    FilterMembers(KeptBesideJournal(journal), DropHeadTwins(Coalesce(reflog)));
    assert |a| <= |journal| + |reflog|;
    FilterSplits(CandidateAmong(branches), NoCandidateAmong(branches), a);
    FoldKindsShrinks(FOLDABLE_KINDS, Filter(CandidateAmong(branches), a));
  }

  lemma NewerFirstIsPreorder()
    ensures TotalPreorder(NewerFirst)
  {
  }

  /** With room for everything, the feed shows exactly the rows' fetch events. */
  lemma FetchRowsReachTheFeed(journal: seq<ActivityEvent>, reflog: seq<ReflogEntry>, branches: map<string, string>,
                              remote: set<string>, limit: nat)
    requires limit >= |journal| + |reflog|
    ensures multiset(Filter(IsFetch, Unresolved(journal, reflog, branches, remote, limit)))
         == multiset(Filter(IsFetch, Rows(journal, reflog, branches, remote)))
    ensures Filter(IsFetch, Assembled(journal, reflog, branches, remote, limit))
         == Map(Resolved(journal), Filter(IsFetch, Unresolved(journal, reflog, branches, remote, limit)))
  {
    var rows := Rows(journal, reflog, branches, remote);
    RowsAreFewer(journal, reflog, branches, remote);
    NewerFirstIsPreorder();
    SortIsSortedPermutation(NewerFirst, rows);
    hide Rows;
    FilterPermutes(IsFetch, Sort(NewerFirst, rows), rows);
    FilterMap(Resolved(journal), IsFetch, IsFetch, Unresolved(journal, reflog, branches, remote, limit));
  }

  lemma SingletonMultiset(s: seq<ActivityEvent>, t: seq<ActivityEvent>)
    requires multiset(s) == multiset(t)
    ensures |s| == |t| && (|t| == 1 ==> s == t)
  {
    assert |s| == |multiset(s)| == |multiset(t)| == |t|;
    if |t| == 1 {
      assert s == [s[0]] && t == [t[0]] && s[0] in multiset(t);
    }
  }

  /** A journaled fetch of N refs is one App row counting N, and nothing else, exactly when git's lines all echo it. */
  lemma {:induction false} OneFetchIsOneRow(journal: seq<ActivityEvent>, reflog: seq<ReflogEntry>, branches: map<string, string>,
                         remote: set<string>, limit: nat, at: int)
    requires JournaledFetch(journal, branches, at) && FetchesOnlyRemotes(reflog)
    requires limit >= |journal| + |reflog|
    ensures Filter(IsFetch, Assembled(journal, reflog, branches, remote, limit))
              == [CountedRow(at, Fetch, "fetch", |Filter(IsFetch, journal)|, true)]
            <==> forall r | r in reflog && KindOf(r) == Fetch :: Echoes(r, journal)
  {
    var fetched, loose := Filter(IsFetch, journal), Unechoed(journal, reflog);
    var group := loose + Map(FromJournal, fetched);
    var rows, shown := FoldOneKind(group, "fetch"), Filter(IsFetch, Unresolved(journal, reflog, branches, remote, limit));
    FetchRowsOfRows(journal, reflog, branches, remote, at);
    FetchRowsReachTheFeed(journal, reflog, branches, remote, limit);
    UnechoedIsEmpty(journal, reflog);
    SingletonMultiset(shown, Map(Display(branches, remote), rows));
    if loose == [] {
      FilterMembers(IsFetch, journal);
      AllApp(fetched, at);
      assert group == Map(FromJournal, fetched);
      MomentFoldsToOneRow(group, "fetch", Fetch, at);
      CountedRowIsUntouched(journal, branches, remote, at, |fetched|);
    } else if |rows| == 1 {
      SingleRowCountsAll(group, "fetch");
      SummariesAreKept(journal, branches, remote, rows[0]);
      assert |group| > |fetched|;
      if CountedSummary("fetch", |group|) == CountedSummary("fetch", |fetched|) {
        CountIsLegible("fetch", |group|, |fetched|);
      }
    }
  }

  lemma {:induction false} AllApp(fetched: seq<ActivityEvent>, at: int)
    requires forall j | j in fetched :: j.time == at && j.source == App && j.kind == Fetch
    ensures forall e | e in Map(FromJournal, fetched) :: e.event.time == at && e.event.kind == Fetch && e.event.source == App
  {
    var shown := Map(FromJournal, fetched);
    forall e | e in shown ensures e.event.time == at && e.event.kind == Fetch && e.event.source == App {
      var i :| 0 <= i < |shown| && shown[i] == e;
      assert fetched[i] in fetched;
    }
  }

  /** Resolving and showing leave a counted row alone. */
  lemma CountedRowIsUntouched(journal: seq<ActivityEvent>, branches: map<string, string>, remote: set<string>, at: int, n: nat)
    ensures var row := CountedRow(at, Fetch, "fetch", n, true);
            Display(branches, remote)(FromJournal(row)) == row && Resolved(journal)(row) == row
  {
    var row := CountedRow(at, Fetch, "fetch", n, true);
    assert IntoActivity(FromJournal(row)) == row;
    assert UndoHint(row, branches, remote) == None;
    assert Hinted(branches, remote)(row) == row;
    assert Display(branches, remote)(FromJournal(row)) == Hinted(branches, remote)(IntoActivity(FromJournal(row)));
  }

  /** Resolving and showing never change a summary. */
  lemma SummariesAreKept(journal: seq<ActivityEvent>, branches: map<string, string>, remote: set<string>, e: FeedEvent)
    ensures Resolved(journal)(Display(branches, remote)(e)).summary == e.event.summary
  {
    var shown := IntoActivity(e);
    assert Display(branches, remote)(e) == Hinted(branches, remote)(shown);
    assert Hinted(branches, remote)(shown).summary == shown.summary;
  }
}
