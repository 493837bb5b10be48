/** The stages that fold a journal and raw reflogs into one feed, as functions on event lists. */
module Feed {
  import opened Basics
  import opened Sorting
  import opened Activity

  // ----- 1. one event per reflog line, one per rebase -----

  /** How many entries right after `head` belong to the same rebase. */
  function Followers(head: ReflogEntry, rest: seq<ReflogEntry>): (n: nat)
    ensures n <= |rest|
  {
    if rest != [] && rest[0].refKind == head.refKind && rest[0].refName == head.refName && KindOf(rest[0]) == Rebase
    then 1 + Followers(head, rest[1..])
    else 0
  }

  /** The first run of entries that make one event: a whole rebase, or a single line. */
  function SpanLength(reflog: seq<ReflogEntry>): (n: nat)
    requires reflog != []
    ensures 1 <= n <= |reflog|
  {
    if KindOf(reflog[0]) == Rebase then 1 + Followers(reflog[0], reflog[1..]) else 1
  }

  /** Newest new tip, oldest old tip; nothing for a checkout that stayed where it was. */
  function SpanEvents(span: seq<ReflogEntry>): seq<FeedEvent>
    requires span != []
  {
    var entry, steps := span[0], |span|;
    if MovedNothing(entry) then []
    else
      var (kind, summary) := ParseReflogMessage(entry.message);
      [FeedEvent(ActivityEvent(
         entry.time, kind, Some(QualifiedRefName(entry)),
         if steps > 1 then "rebase (" + Decimal(steps) + " steps)" else summary,
         Some(span[steps - 1].oldOid), Some(entry.newOid), External, None, None), Some(entry.refKind))]
  }

  function Coalesce(reflog: seq<ReflogEntry>): seq<FeedEvent>
    decreases |reflog|
  {
    if reflog == [] then []
    else
      var n := SpanLength(reflog);
      SpanEvents(reflog[..n]) + Coalesce(reflog[n..])
  }

  // ----- 2. the HEAD copy of a branch movement -----

  predicate OnHead(e: FeedEvent) { e.event.refName == Some("HEAD") }

  predicate SameMovement(e: ActivityEvent, other: ActivityEvent, slack: int) {
    e.kind == other.kind && e.newOid.Some? && e.newOid == other.newOid && Abs(e.time - other.time) <= slack
  }

  /** `e` is not HEAD's copy of a movement some branch shows. */
  function KeptBesideBranches(events: seq<FeedEvent>): FeedEvent -> bool {
    (e: FeedEvent) => !(OnHead(e) && exists b | b in events :: !OnHead(b) && SameMovement(e.event, b.event, HEAD_MATCH_SLACK))
  }

  function DropHeadTwins(events: seq<FeedEvent>): seq<FeedEvent> {
    Filter(KeptBesideBranches(events), events)
  }

  // ----- 3. the reflog echo of a journaled event -----

  /** The journal line is this reflog event's: same kind, tip and ref, about the same moment. */
  predicate EchoOf(e: FeedEvent, j: ActivityEvent) {
    SameMovement(e.event, j, JOURNAL_MATCH_SLACK) && MatchesJournalRef(e, j.refName)
  }

  predicate Absorbed(e: FeedEvent, journal: seq<ActivityEvent>) { exists j | j in journal :: EchoOf(e, j) }

  function KeptBesideJournal(journal: seq<ActivityEvent>): FeedEvent -> bool {
    (e: FeedEvent) => !Absorbed(e, journal)
  }

  function AbsorbEchoes(events: seq<FeedEvent>, journal: seq<ActivityEvent>): seq<FeedEvent> {
    Filter(KeptBesideJournal(journal), events)
  }

  function Map<A, B>(f: A -> B, s: seq<A>): (r: seq<B>)
    ensures |r| == |s|
    ensures forall i | 0 <= i < |s| :: r[i] == f(s[i])
  {
    if s == [] then [] else [f(s[0])] + Map(f, s[1..])
  }

  /** Everything that happened, each movement once: what the fold is given. */
  function Attributed(journal: seq<ActivityEvent>, reflog: seq<ReflogEntry>): seq<FeedEvent> {
    AbsorbEchoes(DropHeadTwins(Coalesce(reflog)), journal) + Map(FromJournal, journal)
  }

  // ----- 4. bursts of remote-tracking updates -----

  const FOLDABLE_KINDS: seq<(ActivityKind, string)> := [(Fetch, "fetch"), (Pull, "pull"), (Push, "push")]

  predicate Foldable(kind: ActivityKind) { kind.Fetch? || kind.Pull? || kind.Push? }

  predicate Candidate(e: FeedEvent, branches: map<string, string>) {
    Foldable(e.event.kind) && !NamesALocalBranch(e, branches) && !AdmitsItCouldNotReadTheRefs(e.event)
  }

  function CandidateAmong(branches: map<string, string>): FeedEvent -> bool { (e: FeedEvent) => Candidate(e, branches) }
  function NoCandidateAmong(branches: map<string, string>): FeedEvent -> bool { (e: FeedEvent) => !Candidate(e, branches) }
  function IsKind(kind: ActivityKind): FeedEvent -> bool { (e: FeedEvent) => e.event.kind == kind }
  function IsNotKind(kind: ActivityKind): FeedEvent -> bool { (e: FeedEvent) => e.event.kind != kind }

  predicate NewestFirst(a: FeedEvent, b: FeedEvent) { a.event.time >= b.event.time }

  /** How far the first burst of a newest-first list reaches. */
  function BurstLength(s: seq<FeedEvent>): (n: nat)
    requires s != []
    ensures 1 <= n <= |s|
  {
    if |s| == 1 || s[0].event.time - s[1].event.time > FETCH_BURST_GAP then 1 else 1 + BurstLength(s[1..])
  }

  predicate ByApp(burst: seq<FeedEvent>) { exists e | e in burst :: e.event.source == App }

  function CountedSummary(noun: string, n: nat): string { noun + " — " + Decimal(n) + " refs updated" }

  function CountedRow(time: int, kind: ActivityKind, noun: string, n: nat, byApp: bool): ActivityEvent {
    ActivityEvent(time, kind, None, CountedSummary(noun, n), None, None, if byApp then App else External, None, None)
  }

  function BurstRow(burst: seq<FeedEvent>, noun: string): FeedEvent
    requires burst != []
  {
    if |burst| == 1 then burst[0]
    else FromJournal(CountedRow(burst[0].event.time, burst[0].event.kind, noun, |burst|, ByApp(burst)))
  }

  /** The bursts of a newest-first list, in order. */
  function Bursts(s: seq<FeedEvent>): (bs: seq<seq<FeedEvent>>)
    ensures forall k | 0 <= k < |bs| :: bs[k] != []
    decreases |s|
  {
    if s == [] then [] else var n := BurstLength(s); [s[..n]] + Bursts(s[n..])
  }

  function BurstRows(s: seq<FeedEvent>, noun: string): seq<FeedEvent>
    decreases |s|
  {
    if s == [] then [] else var n := BurstLength(s); [BurstRow(s[..n], noun)] + BurstRows(s[n..], noun)
  }

  function FoldOneKind(group: seq<FeedEvent>, noun: string): seq<FeedEvent> {
    BurstRows(Sort(NewestFirst, group), noun)
  }

  /** Each kind of the table folds its own candidates; what is left over comes last. */
  function FoldKinds(kinds: seq<(ActivityKind, string)>, candidates: seq<FeedEvent>): seq<FeedEvent> {
    if kinds == [] then candidates
    else
      var (kind, noun) := kinds[0];
      FoldOneKind(Filter(IsKind(kind), candidates), noun)
        + FoldKinds(kinds[1..], Filter(IsNotKind(kind), candidates))
  }

  function FoldBursts(events: seq<FeedEvent>, branches: map<string, string>): seq<FeedEvent> {
    Filter(NoCandidateAmong(branches), events)
      + FoldKinds(FOLDABLE_KINDS, Filter(CandidateAmong(branches), events))
  }

  // ----- 5 to 7 -----

  function Hinted(branches: map<string, string>, remote: set<string>): ActivityEvent -> ActivityEvent {
    (e: ActivityEvent) => e.(undo := UndoHint(e, branches, remote))
  }

  function Resolved(journal: seq<ActivityEvent>): ActivityEvent -> ActivityEvent { (e: ActivityEvent) => Resolve(e, journal) }

  predicate NewerFirst(a: ActivityEvent, b: ActivityEvent) { a.time >= b.time }

  function Truncate<T>(s: seq<T>, limit: nat): seq<T> { if |s| <= limit then s else s[..limit] }

  /** Stages 1 to 5: every row of the feed, before sorting. */
  function Rows(journal: seq<ActivityEvent>, reflog: seq<ReflogEntry>, branches: map<string, string>, remote: set<string>)
    : seq<ActivityEvent>
  {
    Map(Hinted(branches, remote), Map(IntoActivity, FoldBursts(Attributed(journal, reflog), branches)))
  }

  /** The feed with batch references still in it. */
  function Unresolved(journal: seq<ActivityEvent>, reflog: seq<ReflogEntry>, branches: map<string, string>,
                      remote: set<string>, limit: nat): seq<ActivityEvent>
  {
    Truncate(Sort(NewerFirst, Rows(journal, reflog, branches, remote)), limit)
  }

  function Assembled(journal: seq<ActivityEvent>, reflog: seq<ReflogEntry>, branches: map<string, string>,
                     remote: set<string>, limit: nat): seq<ActivityEvent>
  {
    Map(Resolved(journal), Unresolved(journal, reflog, branches, remote, limit))
  }
}
