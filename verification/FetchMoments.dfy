/** One fetch among others: when the feed counts the refs of one moment, and nothing but them. */
module FetchMoments {
  import opened Basics
  import opened Sorting
  import opened Activity
  import opened Feed
  import opened FoldTheorems
  import opened FoldLaws
  import opened FeedStages
  import opened FeedResolution
  import opened FetchFlow

  // ----- one moment inside a newest-first group -----

  function AtMoment(at: int): FeedEvent -> bool { (e: FeedEvent) => e.event.time == at }

  function Near(at: int): FeedEvent -> bool { (e: FeedEvent) => Abs(e.event.time - at) <= FETCH_BURST_GAP }

  predicate IsAppFetchAt(e: ActivityEvent, at: int) { e.kind == Fetch && e.source == App && e.time == at }

  function AppFetchAt(at: int): ActivityEvent -> bool { (e: ActivityEvent) => IsAppFetchAt(e, at) }

  function AppRowAt(at: int): FeedEvent -> bool { (e: FeedEvent) => IsAppFetchAt(e.event, at) }

  function Counted(at: int, n: nat): FeedEvent { FromJournal(CountedRow(at, Fetch, "fetch", n, true)) }

  lemma {:induction false} FilterNarrows<T>(p: T -> bool, q: T -> bool, s: seq<T>)
    requires forall x | x in s && p(x) :: q(x)
    ensures |Filter(p, s)| <= |Filter(q, s)| <= |s|
    ensures |Filter(p, s)| == |Filter(q, s)| ==> forall x | x in s && q(x) :: p(x)
  {
    if s != [] {
      assert s == [s[0]] + s[1..];
      FilterNarrows(p, q, s[1..]);
    }
  }

  ghost predicate SmallGaps(burst: seq<FeedEvent>) {
    forall k | 0 <= k < |burst| - 1 :: Abs(burst[k].event.time - burst[k + 1].event.time) <= FETCH_BURST_GAP
  }

  /** If what is near the moment is of the moment, small gaps never lead away from it. */
  lemma {:induction false} GapsStay(burst: seq<FeedEvent>, at: int, i: nat, j: nat)
    requires i < |burst| && j < |burst| && burst[i].event.time == at
    requires SmallGaps(burst)
    requires forall e | e in burst && Near(at)(e) :: e.event.time == at
    ensures burst[j].event.time == at
    decreases Abs(i - j)
  {
    if j > i {
      GapsStay(burst, at, i, j - 1);
      assert Abs(burst[j - 1].event.time - burst[(j - 1) + 1].event.time) <= FETCH_BURST_GAP;
      assert burst[j] in burst;
    } else if j < i {
      GapsStay(burst, at, i, j + 1);
      assert Abs(burst[j].event.time - burst[j + 1].event.time) <= FETCH_BURST_GAP;
      assert burst[j] in burst;
    }
  }

  /** The group's events of the moment are `n` or more, one of them the app's. */
  ghost predicate HasMoment(s: seq<FeedEvent>, at: int, n: nat) {
    && 2 <= n <= |Filter(AtMoment(at), s)|
    && (exists e | e in s :: e.event.time == at && e.event.source == App)
    && forall e | e in s :: e.event.kind == Fetch
  }

  /** What is shown of the moment is one row, and it counts `n` events. */
  ghost predicate CountsOnce(shown: seq<FeedEvent>, n: nat) {
    |shown| == 1 && shown[0].event.summary == CountedSummary("fetch", n)
  }

  lemma {:induction false} RowOfMoment(burst: seq<FeedEvent>, at: int, n: nat)
    requires burst != [] && HasMoment(burst, at, n)
    ensures BurstRow(burst, "fetch") == FromJournal(CountedRow(burst[0].event.time, Fetch, "fetch", |burst|, true))
    ensures n <= |Filter(AtMoment(at), burst)| <= |Filter(Near(at), burst)| <= |burst|
  {
    FilterNarrows(AtMoment(at), Near(at), burst);
    assert burst[0] in burst && ByApp(burst);
    hide Filter, CountedSummary;
  }

  lemma {:induction false} BurstCountsMoment(burst: seq<FeedEvent>, at: int, n: nat)
    requires burst != [] && HasMoment(burst, at, n) && SmallGaps(burst)
    ensures var shown := Filter(AppRowAt(at), [BurstRow(burst, "fetch")]);
            && (CountsOnce(shown, n) <==> |Filter(Near(at), burst)| == n)
            && (CountsOnce(shown, n) ==> shown == [Counted(at, n)])
  {
    var row := BurstRow(burst, "fetch");
    RowOfMoment(burst, at, n);
    FilterOne(AppRowAt(at), row);
    hide Filter, CountedSummary, SmallGaps, HasMoment, BurstRow;
    assert AppRowAt(at)(row) <==> burst[0].event.time == at;
    if |Filter(Near(at), burst)| == n {
      MomentIsBurst(burst, at);
    } else if burst[0].event.time == at && CountedSummary("fetch", |burst|) == CountedSummary("fetch", n) {
      CountIsLegible("fetch", |burst|, n);
    }
  }

  lemma {:induction false} MomentIsBurst(burst: seq<FeedEvent>, at: int)
    requires (exists e | e in burst :: e.event.time == at) && |Filter(AtMoment(at), burst)| == |Filter(Near(at), burst)|
    requires SmallGaps(burst)
    ensures |Filter(AtMoment(at), burst)| == |burst| && burst[0].event.time == at
  {
    FilterNarrows(AtMoment(at), Near(at), burst);
    var i :| 0 <= i < |burst| && burst[i].event.time == at;
    forall j | 0 <= j < |burst| ensures burst[j].event.time == at { GapsStay(burst, at, i, j); }
    FilterAll(AtMoment(at), burst);
  }

  lemma {:induction false} OlderRowsAreElsewhere(s: seq<FeedEvent>, at: int)
    requires forall e | e in s :: e.event.time < at
    ensures Filter(AppRowAt(at), BurstRows(s, "fetch")) == []
    decreases |s|
  {
    if s != [] {
      var n := BurstLength(s);
      var row, later := BurstRow(s[..n], "fetch"), BurstRows(s[n..], "fetch");
      assert s[..n][0] == s[0] && s[0] in s;
      RowIsBurstsTime(s[..n]);
      OlderRowsAreElsewhere(s[n..], at);
      assert BurstRows(s, "fetch") == [row] + later;
      FilterConcat(AppRowAt(at), [row], later);
      FilterOne(AppRowAt(at), row);
    }
  }

  /** The fold shows a moment as one row counting its `n` events exactly when nothing else is near. */
  lemma {:induction false} FoldCountsMoment(s: seq<FeedEvent>, at: int, n: nat)
    requires SortedBy(NewestFirst, s) && HasMoment(s, at, n)
    ensures var shown := Filter(AppRowAt(at), BurstRows(s, "fetch"));
            && (CountsOnce(shown, n) <==> |Filter(Near(at), s)| == n)
            && (CountsOnce(shown, n) ==> shown == [Counted(at, n)])
    decreases |s|
  {
    var k := BurstLength(s);
    var burst, rest := s[..k], s[k..];
    CutFirstBurst(s);
    hide *;
    if burst[k - 1].event.time > at {
      MomentIsLater(burst, rest, burst[k - 1].event.time, at, n);
      FoldCountsMoment(rest, at, n);
    } else {
      MomentIsFirst(burst, rest, at, n);
      BurstCountsMoment(burst, at, n);
    }
  }

  lemma StandsAboveTheRest(s: seq<FeedEvent>, before: seq<FeedEvent>, burst: seq<FeedEvent>, after: seq<FeedEvent>)
    requires Stands(s, before, burst, after)
    ensures burst != [] && forall e | e in after :: e.event.time < burst[|burst| - 1].event.time - FETCH_BURST_GAP
  {
  }

  lemma {:induction false} CutFirstBurst(s: seq<FeedEvent>)
    requires SortedBy(NewestFirst, s) && s != []
    ensures var k := BurstLength(s);
            var burst, rest := s[..k], s[k..];
            && s == burst + rest && SortedBy(NewestFirst, rest) && SmallGaps(burst)
            && BurstRows(s, "fetch") == [BurstRow(burst, "fetch")] + BurstRows(rest, "fetch")
            && (forall e | e in burst :: e.event.time >= burst[k - 1].event.time)
            && (forall e | e in rest :: e.event.time < burst[k - 1].event.time - FETCH_BURST_GAP)
  {
    hide BurstLength, BurstRow, SortedBy, SmallGaps, Close, Stands;
    var k := BurstLength(s);
    FirstBurstStands(s);
    StandsAboveTheRest(s, [], s[..k], s[k..]);
    NewestFirstGaps(s);
    HeadIsNewer(s, k);
    SuffixIsSorted(s, k);
  }

  lemma SuffixIsSorted(s: seq<FeedEvent>, n: nat)
    requires SortedBy(NewestFirst, s) && n <= |s|
    ensures SortedBy(NewestFirst, s[n..])
  {
    var rest := s[n..];
    forall i, j | 0 <= i < j < |rest| ensures NewestFirst(rest[i], rest[j]) { assert NewestFirst(s[n + i], s[n + j]); }
  }

  /** Past a newer burst the moment is in what remains. */
  lemma {:induction false} MomentIsLater(burst: seq<FeedEvent>, rest: seq<FeedEvent>, last: int, at: int, n: nat)
    requires burst != [] && HasMoment(burst + rest, at, n)
    requires last > at && forall e | e in burst :: e.event.time >= last
    requires forall e | e in rest :: e.event.time < last - FETCH_BURST_GAP
    ensures HasMoment(rest, at, n) && |Filter(Near(at), burst + rest)| == |Filter(Near(at), rest)|
    ensures Filter(AppRowAt(at), [BurstRow(burst, "fetch")] + BurstRows(rest, "fetch")) == Filter(AppRowAt(at), BurstRows(rest, "fetch"))
  {
    hide Filter, BurstRow, BurstRows;
    var row := BurstRow(burst, "fetch");
    RowIsBurstsTime(burst);
    FilterConcat(AppRowAt(at), [row], BurstRows(rest, "fetch"));
    FilterOne(AppRowAt(at), row);
    assert [] + Filter(AppRowAt(at), BurstRows(rest, "fetch")) == Filter(AppRowAt(at), BurstRows(rest, "fetch"));
    FilterConcat(AtMoment(at), burst, rest);
    FilterNone(AtMoment(at), burst);
    assert forall e | e in rest :: e in burst + rest;
    assert HasMoment(rest, at, n);
    FilterConcat(Near(at), burst, rest);
    FilterNone(Near(at), burst);
  }

  /** Before an older remainder the moment is in the burst. */
  lemma {:induction false} MomentIsFirst(burst: seq<FeedEvent>, rest: seq<FeedEvent>, at: int, n: nat)
    requires burst != [] && HasMoment(burst + rest, at, n)
    requires forall e | e in rest :: e.event.time < at - FETCH_BURST_GAP
    ensures HasMoment(burst, at, n) && |Filter(Near(at), burst + rest)| == |Filter(Near(at), burst)|
    ensures Filter(AppRowAt(at), [BurstRow(burst, "fetch")] + BurstRows(rest, "fetch"))
         == Filter(AppRowAt(at), [BurstRow(burst, "fetch")])
  {
    FilterConcat(AtMoment(at), burst, rest);
    FilterConcat(Near(at), burst, rest);
    FilterNone(AtMoment(at), rest);
    FilterNone(Near(at), rest);
    OlderRowsAreElsewhere(rest, at);
    FilterConcat(AppRowAt(at), [BurstRow(burst, "fetch")], BurstRows(rest, "fetch"));
    hide Filter, BurstRow, BurstRows;
    assert forall e | e in burst :: e in burst + rest;
  }

  lemma RowIsBurstsTime(burst: seq<FeedEvent>)
    requires burst != []
    ensures BurstRow(burst, "fetch").event.time == burst[0].event.time
  {
  }

  lemma {:induction false} NewestFirstGaps(s: seq<FeedEvent>)
    requires SortedBy(NewestFirst, s) && s != []
    ensures SmallGaps(s[..BurstLength(s)])
  {
    var n := BurstLength(s);
    BurstReaches(s);
    forall k | 0 <= k < n - 1 ensures Abs(s[..n][k].event.time - s[..n][k + 1].event.time) <= FETCH_BURST_GAP {
      assert NewestFirst(s[k], s[k + 1]);
    }
  }

  // ----- the moment's group in the feed -----

  function FetchAt(at: int): ActivityEvent -> bool { (e: ActivityEvent) => e.kind == Fetch && e.time == at }

  /** The app journaled a fetch of two or more refs at `at`, each by a name that is no local branch, and whatever else it
      journaled as fetched is more than five seconds away. */
  ghost predicate JournaledMoment(journal: seq<ActivityEvent>, branches: map<string, string>, at: int) {
    && |Filter(FetchAt(at), journal)| >= 2
    && forall j | j in journal && j.kind == Fetch ::
         if j.time == at then j.source == App && j.refName.Some? && j.refName.value !in branches
         else Abs(j.time - at) > FETCH_BURST_GAP
  }

  /** Some branch's fetch line tells what this line of HEAD tells, within two seconds of it. */
  ghost predicate TwinOfABranch(r: ReflogEntry, reflog: seq<ReflogEntry>) {
    exists b | b in reflog ::
      KindOf(b) == Fetch && QualifiedRefName(b) != "HEAD" && b.newOid == r.newOid && Abs(r.time - b.time) <= HEAD_MATCH_SLACK
  }

  /** The journal holds a fetch of that tip, of whatever ref, within five seconds. */
  ghost predicate TipIsJournaled(r: ReflogEntry, journal: seq<ActivityEvent>) {
    exists j | j in journal :: j.kind == Fetch && j.newOid == Some(r.newOid) && Abs(r.time - j.time) <= JOURNAL_MATCH_SLACK
  }

  /** Nothing in the journal or the reflog speaks for this fetch line. */
  ghost predicate Unaccounted(journal: seq<ActivityEvent>, reflog: seq<ReflogEntry>, r: ReflogEntry) {
    match r.refKind
    case RemoteBranch => !Echoes(r, journal)
    case Head => r.refName == "HEAD" ==> !TwinOfABranch(r, reflog) && !TipIsJournaled(r, journal)
    case LocalBranch => false
  }

  /** A fetch line of HEAD or of a remote branch, near the moment, that nothing else speaks for. */
  ghost predicate Intrudes(journal: seq<ActivityEvent>, reflog: seq<ReflogEntry>, at: int, r: ReflogEntry) {
    KindOf(r) == Fetch && Abs(r.time - at) <= FETCH_BURST_GAP && Unaccounted(journal, reflog, r)
  }

  function FetchGroupOf(events: seq<FeedEvent>, branches: map<string, string>): seq<FeedEvent> {
    Filter(IsKind(Fetch), Filter(CandidateAmong(branches), events))
  }

  lemma {:induction false} FilterBoth(p: FeedEvent -> bool, q: FeedEvent -> bool, r: FeedEvent -> bool, s: seq<FeedEvent>)
    requires forall e | e in s :: r(e) <==> p(e) && q(e)
    ensures Filter(p, Filter(q, s)) == Filter(r, s)
  {
    if s != [] { FilterBoth(p, q, r, s[1..]); }
  }

  /** The candidates of a kind that pass `p`. */
  function FetchWith(branches: map<string, string>, p: FeedEvent -> bool): FeedEvent -> bool {
    (e: FeedEvent) => Candidate(e, branches) && e.event.kind == Fetch && p(e)
  }

  lemma {:induction false} GroupWith(events: seq<FeedEvent>, branches: map<string, string>, p: FeedEvent -> bool)
    ensures Filter(p, FetchGroupOf(events, branches)) == Filter(FetchWith(branches, p), events)
  {
    hide Filter, Candidate;
    var fetch := (e: FeedEvent) => e.event.kind == Fetch && p(e);
    FilterBoth(p, IsKind(Fetch), fetch, Filter(CandidateAmong(branches), events));
    FilterBoth(fetch, CandidateAmong(branches), FetchWith(branches, p), events);
  }

  lemma {:induction false} JournalShare(journal: seq<ActivityEvent>, branches: map<string, string>, at: int, p: FeedEvent -> bool)
    requires JournaledMoment(journal, branches, at)
    requires forall j | j in journal && j.kind == Fetch :: p(FromJournal(j)) <==> j.time == at
    ensures Filter(FetchWith(branches, p), Map(FromJournal, journal)) == Map(FromJournal, Filter(FetchAt(at), journal))
  {
    FilterMap(FromJournal, FetchWith(branches, p), FetchAt(at), journal);
  }

  /** The moment's group: the journal's own events, and what intrudes. */
  lemma {:induction false} GroupOfMoment(journal: seq<ActivityEvent>, reflog: seq<ReflogEntry>, branches: map<string, string>, at: int, p: FeedEvent -> bool)
    requires JournaledMoment(journal, branches, at)
    requires forall j | j in journal && j.kind == Fetch :: p(FromJournal(j)) <==> j.time == at
    ensures var kept := AbsorbEchoes(DropHeadTwins(Coalesce(reflog)), journal);
            Filter(p, FetchGroupOf(Attributed(journal, reflog), branches))
              == Filter(FetchWith(branches, p), kept) + Map(FromJournal, Filter(FetchAt(at), journal))
  {
    hide JournaledMoment;
    var kept := AbsorbEchoes(DropHeadTwins(Coalesce(reflog)), journal);
    GroupWith(Attributed(journal, reflog), branches, p);
    JournalShare(journal, branches, at, p);
    FilterConcat(FetchWith(branches, p), kept, Map(FromJournal, journal));
  }

  lemma {:induction false} KeptAreListed(journal: seq<ActivityEvent>, reflog: seq<ReflogEntry>, e: FeedEvent)
    ensures e in AbsorbEchoes(DropHeadTwins(Coalesce(reflog)), journal)
            <==> e in Attributed(journal, reflog) && e.reflogRefKind.Some?
    ensures e in AbsorbEchoes(DropHeadTwins(Coalesce(reflog)), journal) ==> e in Coalesce(reflog)
  {
    FilterMembers(KeptBesideBranches(Coalesce(reflog)), Coalesce(reflog));
    FilterMembers(KeptBesideJournal(journal), DropHeadTwins(Coalesce(reflog)));
    assert forall x | x in Map(FromJournal, journal) :: x.reflogRefKind.None?;
    if e in Coalesce(reflog) { CoalescedEventsAreReflogEvents(reflog, e); }
  }

  lemma LineIsCandidate(r: ReflogEntry, branches: map<string, string>)
    requires KindOf(r) == Fetch
    ensures Candidate(LineEvent(r), branches) <==> !r.refKind.LocalBranch?
  {
    hide KindOf, ParseReflogMessage, QualifiedRefName;
  }

  lemma {:induction false} TwinsAreFetchLines(reflog: seq<ReflogEntry>, r: ReflogEntry)
    requires KindOf(r) == Fetch && r.refKind.Head? && r.refName == "HEAD"
    ensures KeptBesideBranches(Coalesce(reflog))(LineEvent(r)) <==> !TwinOfABranch(r, reflog)
  {
    var e := LineEvent(r);
    LineMeans(r);
    hide Coalesce, KindOf, LineEvent, QualifiedRefName;
    if b :| b in reflog && KindOf(b) == Fetch && QualifiedRefName(b) != "HEAD" && b.newOid == r.newOid
            && Abs(r.time - b.time) <= HEAD_MATCH_SLACK {
      LineMeans(b);
      FetchEventsAreLines(reflog, LineEvent(b));
      assert SameMovement(e.event, LineEvent(b).event, HEAD_MATCH_SLACK);
    }
    if t :| t in Coalesce(reflog) && !OnHead(t) && SameMovement(e.event, t.event, HEAD_MATCH_SLACK) {
      FetchEventsAreLines(reflog, t);
      var b :| b in reflog && KindOf(b) == Fetch && t == LineEvent(b);
      LineMeans(b);
    }
  }

  lemma LineMeans(r: ReflogEntry)
    ensures var e := LineEvent(r);
            && e.event.time == r.time && e.event.kind == KindOf(r) && e.reflogRefKind == Some(r.refKind)
            && e.event.newOid == Some(r.newOid) && e.event.refName == Some(QualifiedRefName(r))
            && (r.refKind.Head? ==> QualifiedRefName(r) == r.refName)
  {
  }

  lemma TipIsAbsorption(journal: seq<ActivityEvent>, r: ReflogEntry)
    requires KindOf(r) == Fetch && r.refKind.Head?
    ensures Absorbed(LineEvent(r), journal) <==> r.refName == "HEAD" && TipIsJournaled(r, journal)
  {
    LineMeans(r);
    var e := LineEvent(r);
    hide KindOf, LineEvent, QualifiedRefName;
    forall j: ActivityEvent
      ensures EchoOf(e, j) <==> (j.kind == Fetch && j.newOid == Some(r.newOid) && Abs(r.time - j.time) <= JOURNAL_MATCH_SLACK)
                                && r.refName == "HEAD"
    {
    }
  }

  /** Such a line stays listed exactly when nothing in the journal or the reflog speaks for it. */
  lemma {:induction false} FetchLineIsListedIff(journal: seq<ActivityEvent>, reflog: seq<ReflogEntry>, r: ReflogEntry)
    requires r in reflog && KindOf(r) == Fetch && !r.refKind.LocalBranch?
    ensures LineEvent(r) in Attributed(journal, reflog) <==> Unaccounted(journal, reflog, r)
  {
    LineMeans(r);
    hide Coalesce, Attributed, KindOf, LineEvent, Echoes, TwinOfABranch, TipIsJournaled, Absorbed;
    FetchEventsAreLines(reflog, LineEvent(r));
    ReflogEventIsShownIff(journal, reflog, LineEvent(r));
    if r.refKind.RemoteBranch? {
      RemoteNamesAreNotHead(r);
      EchoIsAbsorption(journal, r);
    } else {
      TipIsAbsorption(journal, r);
      if r.refName == "HEAD" { TwinsAreFetchLines(reflog, r); }
    }
  }

  lemma {:induction false} NothingIntrudesIff(journal: seq<ActivityEvent>, reflog: seq<ReflogEntry>, branches: map<string, string>, at: int)
    ensures Filter(FetchWith(branches, Near(at)), AbsorbEchoes(DropHeadTwins(Coalesce(reflog)), journal)) == []
            <==> !exists r | r in reflog :: Intrudes(journal, reflog, at, r)
  {
    var kept := AbsorbEchoes(DropHeadTwins(Coalesce(reflog)), journal);
    var near := Filter(FetchWith(branches, Near(at)), kept);
    FilterMembers(FetchWith(branches, Near(at)), kept);
    hide Filter, Attributed, Coalesce, DropHeadTwins, AbsorbEchoes, KindOf, LineEvent, Candidate, Echoes, TwinOfABranch, TipIsJournaled;
    if near != [] {
      var e := near[0];
      assert e in near;
      KeptAreListed(journal, reflog, e);
      FetchEventsAreLines(reflog, e);
      var r :| r in reflog && KindOf(r) == Fetch && e == LineEvent(r);
      LineIsCandidate(r, branches);
      LineMeans(r);
      FetchLineIsListedIff(journal, reflog, r);
      assert Intrudes(journal, reflog, at, r);
    }
    if r :| r in reflog && Intrudes(journal, reflog, at, r) {
      LineMeans(r);
      LineIsCandidate(r, branches);
      FetchLineIsListedIff(journal, reflog, r);
      KeptAreListed(journal, reflog, LineEvent(r));
      assert LineEvent(r) in near;
    }
  }

  lemma {:induction false} MomentIsThere(journal: seq<ActivityEvent>, reflog: seq<ReflogEntry>, branches: map<string, string>, at: int)
    requires JournaledMoment(journal, branches, at)
    ensures var n, g := |Filter(FetchAt(at), journal)|, FetchGroupOf(Attributed(journal, reflog), branches);
            && HasMoment(g, at, n)
            && (|Filter(Near(at), g)| == n <==> !exists r | r in reflog :: Intrudes(journal, reflog, at, r))
  {
    var own, g := Filter(FetchAt(at), journal), FetchGroupOf(Attributed(journal, reflog), branches);
    assert forall j | j in journal && j.kind == Fetch :: Near(at)(FromJournal(j)) <==> j.time == at;
    hide Filter, Attributed, Coalesce, DropHeadTwins, AbsorbEchoes, Intrudes, JournaledMoment;
    GroupOfMoment(journal, reflog, branches, at, AtMoment(at));
    GroupOfMoment(journal, reflog, branches, at, Near(at));
    NothingIntrudesIff(journal, reflog, branches, at);
    OwnAreInGroup(journal, reflog, branches, at);
  }

  lemma OwnAreInGroup(journal: seq<ActivityEvent>, reflog: seq<ReflogEntry>, branches: map<string, string>, at: int)
    requires JournaledMoment(journal, branches, at)
    ensures var g := FetchGroupOf(Attributed(journal, reflog), branches);
            && (exists e | e in g :: e.event.time == at && e.event.source == App)
            && forall e | e in g :: e.event.kind == Fetch
  {
    var candidates := Filter(CandidateAmong(branches), Attributed(journal, reflog));
    FilterMembers(IsKind(Fetch), candidates);
    FilterMembers(CandidateAmong(branches), Attributed(journal, reflog));
    FilterMembers(FetchAt(at), journal);
    hide Filter, Coalesce, DropHeadTwins, AbsorbEchoes;
    var own := Filter(FetchAt(at), journal)[0];
    assert own in Filter(FetchAt(at), journal);
    JournalIsShown(journal, reflog, own);
    assert FromJournal(own) in candidates;
  }

  // ----- from rows to feed -----

  lemma AppRowsOfRows(journal: seq<ActivityEvent>, reflog: seq<ReflogEntry>, branches: map<string, string>,
                      remote: set<string>, at: int)
    ensures Filter(AppFetchAt(at), Rows(journal, reflog, branches, remote))
         == Map(Display(branches, remote), Filter(AppRowAt(at), FoldBursts(Attributed(journal, reflog), branches)))
  {
    hide UndoHint, IntoActivity, FoldBursts, Attributed;
    var folded := FoldBursts(Attributed(journal, reflog), branches);
    assert Map(Hinted(branches, remote), Map(IntoActivity, folded)) == Map(Display(branches, remote), folded) by {
      MapTwice(IntoActivity, Hinted(branches, remote), Display(branches, remote), folded);
    }
    forall e: FeedEvent ensures AppFetchAt(at)(Display(branches, remote)(e)) == AppRowAt(at)(e) {
      ShownKeeps(e, branches, remote);
    }
    hide Display, Hinted;
    FilterMap(Display(branches, remote), AppFetchAt(at), AppRowAt(at), folded);
  }

  lemma ShownKeeps(e: FeedEvent, branches: map<string, string>, remote: set<string>)
    ensures var shown := Display(branches, remote)(e);
            shown.kind == e.event.kind && shown.source == e.event.source && shown.time == e.event.time
  {
    var shown := IntoActivity(e);
    assert Display(branches, remote)(e) == Hinted(branches, remote)(shown);
    hide UndoHint;
  }

  lemma {:induction false} MapTwice<A, B, C>(f: A -> B, g: B -> C, h: A -> C, s: seq<A>)
    requires forall x | x in s :: h(x) == g(f(x))
    ensures Map(g, Map(f, s)) == Map(h, s)
  {
    if s != [] { MapTwice(f, g, h, s[1..]); }
  }

  lemma AppRowsOfFold(journal: seq<ActivityEvent>, reflog: seq<ReflogEntry>, branches: map<string, string>, at: int)
    requires JournaledMoment(journal, branches, at)
    ensures var a := Attributed(journal, reflog);
            Filter(AppRowAt(at), FoldBursts(a, branches))
              == Filter(AppRowAt(at), FoldOneKind(FetchGroupOf(a, branches), "fetch"))
  {
    var a, p := Attributed(journal, reflog), AppRowAt(at);
    var out, f, l, u := Filter(NoCandidateAmong(branches), a), FoldOf(Fetch, "fetch", a, branches),
                        FoldOf(Pull, "pull", a, branches), FoldOf(Push, "push", a, branches);
    FoldShape(a, branches);
    FilterMembers(NoCandidateAmong(branches), a);
    forall e | e in out ensures !p(e) { OthersAreElsewhere(journal, reflog, branches, at, e); }
    FoldOfHasKind(Pull, "pull", a, branches);
    FoldOfHasKind(Push, "push", a, branches);
    assert FoldOf(Fetch, "fetch", a, branches) == FoldOneKind(FetchGroupOf(a, branches), "fetch");
    hide Filter, Attributed, FoldBursts, FoldOf, FoldOneKind, JournaledMoment;
    FilterConcat(p, out + f + l, u);
    FilterConcat(p, out + f, l);
    FilterConcat(p, out, f);
    FilterNone(p, out);
    FilterNone(p, l);
    FilterNone(p, u);
  }

  /** What is not folded is no app fetch of the moment. */
  lemma OthersAreElsewhere(journal: seq<ActivityEvent>, reflog: seq<ReflogEntry>, branches: map<string, string>, at: int, e: FeedEvent)
    requires JournaledMoment(journal, branches, at) && e in Attributed(journal, reflog) && !Candidate(e, branches)
    ensures !AppRowAt(at)(e)
  {
    hide Attributed, Coalesce;
    NothingIsMadeUp(journal, reflog, e);
    if e in Coalesce(reflog) { CoalescedEventsAreReflogEvents(reflog, e); }
  }

  /** The rows at or after the moment. */
  function NotBefore(at: int): ActivityEvent -> bool { (e: ActivityEvent) => e.time >= at }

  lemma {:induction false} CutBelowMoment(sorted: seq<ActivityEvent>, limit: nat, at: int)
    requires SortedBy(NewerFirst, sorted) && |Filter(NotBefore(at), sorted)| <= limit < |sorted|
    ensures forall x | x in sorted[limit..] :: x.time < at
  {
    hide Filter;
    if exists x | x in sorted[limit..] :: x.time >= at {
      var k :| limit <= k < |sorted| && sorted[k].time >= at;
      NotBeforeUpTo(sorted, k, at);
    }
  }

  lemma {:induction false} NotBeforeUpTo(sorted: seq<ActivityEvent>, k: nat, at: int)
    requires SortedBy(NewerFirst, sorted) && k < |sorted| && sorted[k].time >= at
    ensures |Filter(NotBefore(at), sorted)| > k
  {
    var front, back := sorted[..k + 1], sorted[k + 1..];
    forall y | y in front ensures y.time >= at {
      var m :| 0 <= m < k + 1 && front[m] == y;
      if m < k { assert NewerFirst(sorted[m], sorted[k]); }
    }
    assert sorted == front + back;
    hide Filter, SortedBy;
    FilterAll(NotBefore(at), front);
    FilterConcat(NotBefore(at), front, back);
  }

  lemma SameSize<T>(s: seq<T>, t: seq<T>)
    requires multiset(s) == multiset(t)
    ensures |s| == |t|
  {
    assert |s| == |multiset(s)| == |multiset(t)| == |t|;
  }

  /** With room for the rows at or after it, the cap leaves the moment alone. */
  lemma MomentReachesTheFeed(journal: seq<ActivityEvent>, reflog: seq<ReflogEntry>, branches: map<string, string>,
                             remote: set<string>, limit: nat, at: int)
    requires limit >= |Filter(NotBefore(at), Rows(journal, reflog, branches, remote))|
    ensures Filter(AppFetchAt(at), Unresolved(journal, reflog, branches, remote, limit))
         == Filter(AppFetchAt(at), Rows(journal, reflog, branches, remote))
  {
    var rows := Rows(journal, reflog, branches, remote);
    var sorted := Sort(NewerFirst, rows);
    NewerFirstIsPreorder();
    SortIsSortedPermutation(NewerFirst, rows);
    SortIsStable(NewerFirst, AppFetchAt(at), rows);
    hide Rows, Sort, Filter, SortedBy;
    FilterPermutes(NotBefore(at), sorted, rows);
    SameSize(Filter(NotBefore(at), sorted), Filter(NotBefore(at), rows));
    if limit < |sorted| {
      CutBelowMoment(sorted, limit, at);
      assert sorted == sorted[..limit] + sorted[limit..];
      FilterConcat(AppFetchAt(at), sorted[..limit], sorted[limit..]);
      FilterNone(AppFetchAt(at), sorted[limit..]);
    }
  }

  /** Whatever else happened, a fetch journaled at one moment shows as one app row counting its refs, and as no other,
      exactly when no fetch line of HEAD or a remote branch, within five seconds, is left that nothing else speaks for. */
  lemma {:induction false} FetchIsCountedIff(journal: seq<ActivityEvent>, reflog: seq<ReflogEntry>, branches: map<string, string>,
                          remote: set<string>, limit: nat, at: int)
    requires JournaledMoment(journal, branches, at)
    requires limit >= |Filter(NotBefore(at), Rows(journal, reflog, branches, remote))|
    ensures Filter(AppFetchAt(at), Assembled(journal, reflog, branches, remote, limit))
              == [CountedRow(at, Fetch, "fetch", |Filter(FetchAt(at), journal)|, true)]
            <==> !exists r | r in reflog :: Intrudes(journal, reflog, at, r)
  {
    hide Rows, Attributed, Filter, FoldBursts, JournaledMoment, Intrudes, Unresolved, HasMoment, BurstRows, Display;
    var n, g := |Filter(FetchAt(at), journal)|, FetchGroupOf(Attributed(journal, reflog), branches);
    var s := Sort(NewestFirst, g);
    var shown := Filter(AppRowAt(at), BurstRows(s, "fetch"));
    MomentIsThere(journal, reflog, branches, at);
    MomentSorts(g, at, n);
    FoldCountsMoment(s, at, n);
    AppRowsOfRows(journal, reflog, branches, remote, at);
    AppRowsOfFold(journal, reflog, branches, at);
    MomentReachesTheFeed(journal, reflog, branches, remote, limit, at);
    FilterMap(Resolved(journal), AppFetchAt(at), AppFetchAt(at), Unresolved(journal, reflog, branches, remote, limit));
    ShownAsCounted(journal, branches, remote, shown, at, n);
  }

  lemma {:induction false} MomentSorts(g: seq<FeedEvent>, at: int, n: nat)
    requires HasMoment(g, at, n)
    ensures var s := Sort(NewestFirst, g);
            SortedBy(NewestFirst, s) && HasMoment(s, at, n) && |Filter(Near(at), s)| == |Filter(Near(at), g)|
  {
    var s := Sort(NewestFirst, g);
    NewestFirstIsPreorder();
    SortIsSortedPermutation(NewestFirst, g);
    FilterPermutes(AtMoment(at), s, g);
    FilterPermutes(Near(at), s, g);
    SameSize(Filter(AtMoment(at), s), Filter(AtMoment(at), g));
    SameSize(Filter(Near(at), s), Filter(Near(at), g));
    forall e ensures e in s <==> e in g { assert e in multiset(s) <==> e in multiset(g); }
  }

  /** Showing and resolving turn the rows into the counted row exactly when they are it. */
  lemma {:induction false} ShownAsCounted(journal: seq<ActivityEvent>, branches: map<string, string>, remote: set<string>, shown: seq<FeedEvent>, at: int, n: nat)
    requires CountsOnce(shown, n) ==> shown == [Counted(at, n)]
    ensures Map(Resolved(journal), Map(Display(branches, remote), shown)) == [CountedRow(at, Fetch, "fetch", n, true)]
            <==> CountsOnce(shown, n)
  {
    var row := CountedRow(at, Fetch, "fetch", n, true);
    var sent := Map(Resolved(journal), Map(Display(branches, remote), shown));
    CountedRowIsUntouched(journal, branches, remote, at, n);
    if |shown| == 1 { SummariesAreKept(journal, branches, remote, shown[0]); }
    hide CountedSummary, Display, Resolved;
    assert |sent| == |shown|;
    if |shown| == 1 { assert sent[0] == Resolved(journal)(Display(branches, remote)(shown[0])); }
  }

  /** However far the batch drifts from git's lines, its row never counts a ref twice: the window in which a line could
      join the row is the one in which the batch speaks for it. */
  lemma {:induction false} DriftNeverDoubles(journal: seq<ActivityEvent>, reflog: seq<ReflogEntry>, branches: map<string, string>,
                                             remote: set<string>, limit: nat, at: int)
    requires JournaledMoment(journal, branches, at)
    requires limit >= |Filter(NotBefore(at), Rows(journal, reflog, branches, remote))|
    requires forall r | r in reflog && KindOf(r) == Fetch && !r.refKind.LocalBranch? && Abs(r.time - at) <= FETCH_BURST_GAP ::
               r.refKind.RemoteBranch? && BatchNames(journal, at, r)
    ensures Filter(AppFetchAt(at), Assembled(journal, reflog, branches, remote, limit))
              == [CountedRow(at, Fetch, "fetch", |Filter(FetchAt(at), journal)|, true)]
  {
    hide Rows, Filter, Assembled, JournaledMoment, KindOf;
    forall r | r in reflog && KindOf(r) == Fetch && !r.refKind.LocalBranch? && Abs(r.time - at) <= FETCH_BURST_GAP
      ensures Echoes(r, journal)
    {
      BatchSpeaksFor(journal, at, r);
    }
    FetchIsCountedIff(journal, reflog, branches, remote, limit, at);
  }

  /** The batch journaled at `at` lists this line's ref at this line's tip. */
  ghost predicate BatchNames(journal: seq<ActivityEvent>, at: int, r: ReflogEntry) {
    exists j | j in journal :: j.kind == Fetch && j.time == at && j.newOid == Some(r.newOid) && j.refName == Some(QualifiedRefName(r))
  }

  lemma BatchSpeaksFor(journal: seq<ActivityEvent>, at: int, r: ReflogEntry)
    requires BatchNames(journal, at, r) && Abs(r.time - at) <= FETCH_BURST_GAP
    ensures Echoes(r, journal)
  {
    hide QualifiedRefName;
  }

  // ----- a count that is not the batch's -----

  function FetchOf(name: string, oid: string): ActivityEvent {
    ActivityEvent(100, Fetch, Some("refs/remotes/origin/" + name), "", None, Some(oid), App, None, None)
  }

  /** Two refs fetched and journaled; git logs a third at the same second, and the row is not the batch's. */
  lemma {:induction false} UnjournaledRefSpoilsTheCount(limit: nat)
    requires limit >= 3
    ensures var journal := [FetchOf("a", "1"), FetchOf("b", "2")];
            var reflog := [ReflogEntry("origin/c", RemoteBranch, 100, "0", "3", "fetch")];
            && JournaledMoment(journal, map[], 100)
            && Filter(AppFetchAt(100), Assembled(journal, reflog, map[], {}, limit)) != [CountedRow(100, Fetch, "fetch", 2, true)]
  {
    var journal := [FetchOf("a", "1"), FetchOf("b", "2")];
    var line := ReflogEntry("origin/c", RemoteBranch, 100, "0", "3", "fetch");
    var reflog := [line];
    hide Filter, Assembled, Rows, Intrudes, JournaledMoment, ParseReflogMessage;
    BatchOfTwo(journal);
    ThirdRefIntrudes(journal, reflog, line);
    assert line in reflog;
    RowsAreFewer(journal, reflog, map[], {});
    FilterMembers(NotBefore(100), Rows(journal, reflog, map[], {}));
    FetchIsCountedIff(journal, reflog, map[], {}, limit, 100);
  }

  lemma ThirdRefIntrudes(journal: seq<ActivityEvent>, reflog: seq<ReflogEntry>, line: ReflogEntry)
    requires journal == [FetchOf("a", "1"), FetchOf("b", "2")]
    requires line == ReflogEntry("origin/c", RemoteBranch, 100, "0", "3", "fetch")
    ensures Intrudes(journal, reflog, 100, line)
  {
    FetchMessage();
    hide ParseReflogMessage;
    assert "1"[0] != "3"[0] && "2"[0] != "3"[0];
  }

  lemma FetchMessage()
    ensures ParseReflogMessage("fetch").0 == Fetch
  {
    TrimTrimmed("fetch");
    assert "fetch"[0] == 'f' && "commit:"[0] == 'c' && "commit (amend):"[0] == 'c' && "commit (initial):"[0] == 'c';
    assert "checkout: moving from "[0] == 'c' && "rebase"[0] == 'r' && "reset:"[0] == 'r' && "cherry-pick:"[0] == 'c';
    assert "revert:"[0] == 'r' && "branch: Created"[0] == 'b' && "branch: Reset"[0] == 'b' && "merge "[0] == 'm';
    assert "pull"[0] == 'p' && "clone"[0] == 'c' && "update by push"[0] == 'u' && "push"[0] == 'p';
  }

  lemma {:induction false} BatchOfTwo(journal: seq<ActivityEvent>)
    requires journal == [FetchOf("a", "1"), FetchOf("b", "2")]
    ensures JournaledMoment(journal, map[], 100) && |Filter(FetchAt(100), journal)| == 2
  {
    FilterAll(FetchAt(100), journal);
  }
}
