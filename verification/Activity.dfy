/** Events, reflog lines, and the readings the activity feed makes of one of them at a time. */
module Activity {
  import opened Basics

  datatype ActivityKind =
    | Commit | Amend | Merge | Rebase | Checkout | Reset | CherryPick | Revert
    | BranchCreated | BranchDeleted | Push | Fetch | Pull | Clone | Bisect | Other

  datatype ActivitySource = App | External

  datatype UndoAction =
    | RestoreBranch(name: string, tip: string)
    | ResetBranch(branch: string, to: string, expectedTip: string)
    | RevertCommit(commit: string)

  datatype Undoable = Undoable(action: UndoAction, lbl: string, warnPushed: bool)

  datatype CapturedRefs = CapturedRefs(entries: map<string, string>, truncatedAt: Option<nat>)

  datatype HeadAtEvent =
    | OnBranch(symbolic: string, oid: string)
    | Detached(oid: string)
    | Unborn(symbolic: string)
    | Unresolvable
    | Unreadable(reason: string)

  datatype RefsAtEvent =
    | Captured(branches: map<string, string>, truncatedAt: Option<nat>, head: Option<HeadAtEvent>,
               tags: Option<CapturedRefs>, remotes: Option<CapturedRefs>, shallow: Option<bool>,
               batch: Option<string>)
    | CaptureFailed(reason: string)
    | InBatch(anchor: string)
    | Unknown

  datatype ActivityEvent = ActivityEvent(
    time: int, kind: ActivityKind, refName: Option<string>, summary: string,
    oldOid: Option<string>, newOid: Option<string>, source: ActivitySource,
    undo: Option<Undoable>, refs: Option<RefsAtEvent>)

  datatype ReflogRefKind = Head | LocalBranch | RemoteBranch

  datatype ReflogEntry = ReflogEntry(
    refName: string, refKind: ReflogRefKind, time: int, oldOid: string, newOid: string, message: string)

  /** An event while it is still known which reflog namespace, if any, it came from. */
  datatype FeedEvent = FeedEvent(event: ActivityEvent, reflogRefKind: Option<ReflogRefKind>)

  const JOURNAL_MATCH_SLACK := 5
  const HEAD_MATCH_SLACK := 2
  const FETCH_BURST_GAP := 5

  function Abs(x: int): nat { if x < 0 then -x else x }

  // ----- reading a reflog message -----

  function ParseReflogMessage(message: string): (ActivityKind, string) {
    var msg := Trim(message);
    if "commit (amend):" <= msg then (Amend, Trim(msg[|"commit (amend):"|..]))
    else if "commit (initial):" <= msg then (Commit, Trim(msg[|"commit (initial):"|..]))
    else if "commit:" <= msg then
      var summary := Trim(msg[|"commit:"|..]);
      (if IsRevertSubject(summary) then Revert else Commit, summary)
    else if "checkout: moving from " <= msg then
      var rest := msg[|"checkout: moving from "|..];
      var at := RFind(rest, " to ");
      (Checkout, if at.Some? then rest[..at.value] + " → " + rest[at.value + 4..] else rest)
    else if "rebase" <= msg then (Rebase, msg)
    else if "reset:" <= msg then (Reset, msg)
    else if "cherry-pick:" <= msg then (CherryPick, Trim(msg[|"cherry-pick:"|..]))
    else if "revert:" <= msg then (Revert, Trim(msg[|"revert:"|..]))
    else if "branch: Created" <= msg then (BranchCreated, msg)
    else if "branch: Reset" <= msg then (Reset, msg)
    else if "merge " <= msg then (Merge, msg)
    else if "pull" <= msg then (Pull, msg)
    else if "clone" <= msg then (Clone, msg)
    else if msg == "update by push" || "push" <= msg then (Push, msg)
    else if "fetch" <= msg then (Fetch, msg)
    else (Other, msg)
  }

  predicate IsRevertSubject(summary: string) {
    "Revert \"" <= summary && (var subject := summary[|"Revert \""|..]; subject != "" && subject[|subject| - 1] == '"')
  }

  predicate IsSelfCheckout(message: string) {
    var msg := Trim(message);
    "checkout: moving from " <= msg
    && var rest := msg[|"checkout: moving from "|..];
       var at := RFind(rest, " to ");
       at.Some? && rest[..at.value] == rest[at.value + 4..]
  }

  function KindOf(entry: ReflogEntry): ActivityKind { ParseReflogMessage(entry.message).0 }

  predicate MovedNothing(entry: ReflogEntry) { KindOf(entry) == Checkout && IsSelfCheckout(entry.message) }

  function QualifiedRefName(entry: ReflogEntry): string {
    match entry.refKind
    case Head => entry.refName
    case LocalBranch => "refs/heads/" + entry.refName
    case RemoteBranch => "refs/remotes/" + entry.refName
  }

  // ----- one event -----

  function FromJournal(event: ActivityEvent): FeedEvent { FeedEvent(event, None) }

  /** The ref a journal line names is the one this reflog event is about, as far as its name can tell. */
  predicate MatchesJournalRef(e: FeedEvent, journalRef: Option<string>) {
    e.event.refName.Some? &&
    var name := e.event.refName.value;
    match e.reflogRefKind
    case Some(LocalBranch) =>
      && journalRef.Some? && !("refs/" <= journalRef.value)
      && StripPrefix(name, "refs/heads/") == journalRef
    case Some(RemoteBranch) => journalRef == Some(name)
    case Some(Head) => name == "HEAD"
    case None => false
  }

  /** Shortens a name only when the event provably came from that reflog namespace. */
  function IntoActivity(e: FeedEvent): ActivityEvent {
    if e.reflogRefKind.None? || e.reflogRefKind.value.Head? || e.event.refName.None? then e.event
    else
      var prefix := if e.reflogRefKind.value.LocalBranch? then "refs/heads/" else "refs/remotes/";
      var short := StripPrefix(e.event.refName.value, prefix);
      if short.Some? then e.event.(refName := short) else e.event
  }

  predicate NamesALocalBranch(e: FeedEvent, branches: map<string, string>) {
    match e.reflogRefKind
    case Some(kind) => kind.LocalBranch?
    case None => e.event.refName.Some? && e.event.refName.value in branches
  }

  predicate AdmitsItCouldNotReadTheRefs(e: ActivityEvent) {
    e.refName.None? && e.oldOid.None? && e.newOid.None?
  }

  // ----- batched captures -----

  predicate Anchors(other: ActivityEvent, batch: string) {
    other.refs.Some? && other.refs.value.Captured? && other.refs.value.batch == Some(batch)
  }

  function FindAnchor(journal: seq<ActivityEvent>, batch: string): Option<RefsAtEvent> {
    if journal == [] then None
    else if Anchors(journal[0], batch) then journal[0].refs
    else FindAnchor(journal[1..], batch)
  }

  /** An event's own capture, or the one its batch's anchor holds; none if that is lost or unreadable. */
  function RefsAt(event: ActivityEvent, journal: seq<ActivityEvent>): Option<RefsAtEvent> {
    match event.refs
    case Some(InBatch(batch)) => FindAnchor(journal, batch)
    case Some(Unknown) => None
    case own => own
  }

  /** What leaves the feed: no reference, no unreadable capture. */
  function Resolve(event: ActivityEvent, journal: seq<ActivityEvent>): ActivityEvent {
    if event.refs.Some? && (event.refs.value.InBatch? || event.refs.value.Unknown?)
    then event.(refs := RefsAt(event, journal)) else event
  }

  // ----- undo hints -----

  function Short(oid: string): string { if |oid| <= 7 then oid else oid[..7] }

  predicate AllZeros(oid: string) { forall i | 0 <= i < |oid| :: oid[i] == '0' }

  function UndoHint(e: ActivityEvent, branches: map<string, string>, remote: set<string>): Option<Undoable> {
    if e.refName.None? then None
    else
      var name := e.refName.value;
      if e.kind.BranchDeleted? then
        if e.oldOid.None? || name in branches then None
        else Some(Undoable(RestoreBranch(name, e.oldOid.value),
                           "Restore branch ‘" + name + "’ at " + Short(e.oldOid.value), false))
      else if e.kind.Merge? || e.kind.Rebase? || e.kind.Commit? || e.kind.Amend? || e.kind.Reset? then
        if name == "HEAD" || e.oldOid.None? || e.newOid.None? then None
        else if name !in branches || branches[name] != e.newOid.value || AllZeros(e.oldOid.value) then None
        else
          var verb := match e.kind
                      case Merge => "merge"
                      case Rebase => "rebase"
                      case Amend => "amend"
                      case Reset => "reset"
                      case _ => "commit";
          Some(Undoable(ResetBranch(name, e.oldOid.value, e.newOid.value),
                        "Undo " + verb + " — reset ‘" + name + "’ to " + Short(e.oldOid.value),
                        e.newOid.value in remote))
      else None
  }
}
