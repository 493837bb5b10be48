/** What the feed makes of an event, read off the event's own fields and the inputs. */
module FeedFields {
  import opened Basics
  import opened Sorting
  import opened Activity
  import opened Feed
  import opened FoldTheorems
  import opened FoldLaws
  import opened FeedStages
  import opened FeedResolution
  import opened FetchFlow
  import opened FetchMoments
  import opened FeedLaws

  // ----- messages -----

  /** Which trimmed messages are of a kind, by how they begin. */
  ghost predicate Begins(msg: string, kind: ActivityKind) {
    match kind
    case Amend => "commit (amend):" <= msg
    case Commit => "commit (initial):" <= msg || ("commit:" <= msg && !RevertsByCommit(msg))
    case Revert => "revert:" <= msg || ("commit:" <= msg && RevertsByCommit(msg))
    case Checkout => "checkout: moving from " <= msg
    case Rebase => "rebase" <= msg
    case Reset => "reset:" <= msg || "branch: Reset" <= msg
    case CherryPick => "cherry-pick:" <= msg
    case BranchCreated => "branch: Created" <= msg
    case Merge => "merge " <= msg
    case Pull => "pull" <= msg
    case Clone => "clone" <= msg
    case Push => "push" <= msg || msg == "update by push"
    case Fetch => "fetch" <= msg
    case _ => false
  }

  /** The subject git gives a revert: Revert "..." */
  ghost predicate RevertsByCommit(msg: string)
    requires "commit:" <= msg
  {
    exists subject :: Trim(msg[7..]) == "Revert \"" + subject + "\""
  }

  /** No two kinds claim a message, and what none claims is Other. */
  lemma MessageKinds(message: string, kind: ActivityKind)
    ensures kind != Other ==> (ParseReflogMessage(message).0 == kind <==> Begins(Trim(message), kind))
  {
    var msg := Trim(message);
    hide Trim, RFind;
    PrefixesDiffer(msg);
    MorePrefixesDiffer(msg);
    OtherPrefixesDiffer(msg);
    if "commit:" <= msg { RevertSubject(Trim(msg[7..])); }
  }

  /** A commit, cherry-pick or revert shows its subject; a checkout, where it went from and to; the rest, the message. */
  lemma MessageWords(message: string, rest: string)
    requires Trim(message) in {"commit (amend):" + rest, "commit (initial):" + rest, "commit:" + rest, "cherry-pick:" + rest,
                               "revert:" + rest}
    ensures ParseReflogMessage(message).1 == Trim(rest)
  {
    var msg := Trim(message);
    hide Trim, RFind, IsRevertSubject;
    PrefixesDiffer(msg);
    MorePrefixesDiffer(msg);
    OtherPrefixesDiffer(msg);
    assert msg == "commit (amend):" + rest ==> msg[|"commit (amend):"|..] == rest;
    assert msg == "commit (initial):" + rest ==> msg[|"commit (initial):"|..] == rest;
    assert msg == "commit:" + rest ==> msg[|"commit:"|..] == rest;
    assert msg == "cherry-pick:" + rest ==> msg[|"cherry-pick:"|..] == rest;
    assert msg == "revert:" + rest ==> msg[|"revert:"|..] == rest;
  }

  lemma OtherWords(message: string)
    requires ParseReflogMessage(message).0 in {Rebase, Reset, BranchCreated, Merge, Pull, Clone, Push, Fetch, Other}
    ensures ParseReflogMessage(message).1 == Trim(message)
  {
    hide Trim, RFind;
  }

  lemma CheckoutWords(from: string, target: string)
    requires target != "" && forall c | c in target :: !IsSpace(c)
    ensures ParseReflogMessage("checkout: moving from " + from + " to " + target) == (Checkout, from + " → " + target)
  {
    var rest, message := from + " to " + target, "checkout: moving from " + from + " to " + target;
    CheckoutText(from, target);
    LastTo(from, target);
    assert message[0] == 'c' && !IsSpace('c');
    TrimTrimmed(message);
    CheckoutLine(message, rest);
    hide RFind, Trim, ParseReflogMessage;
  }

  lemma RevertSubject(summary: string)
    ensures IsRevertSubject(summary) <==> exists subject :: summary == "Revert \"" + subject + "\""
  {
    if IsRevertSubject(summary) {
      var rest := summary[8..];
      assert summary == "Revert \"" + rest[..|rest| - 1] + "\"";
    }
    if subject :| summary == "Revert \"" + subject + "\"" {
      assert summary[8..] == subject + "\"" && summary[..8] == "Revert \"";
    }
  }

  lemma PrefixesDiffer(msg: string)
    ensures "commit (amend):" <= msg ==> msg[0] == 'c' && msg[1] == 'o' && msg[6] == ' ' && msg[8] == 'a'
    ensures "commit (initial):" <= msg ==> msg[0] == 'c' && msg[1] == 'o' && msg[6] == ' ' && msg[8] == 'i'
    ensures "commit:" <= msg ==> msg[0] == 'c' && msg[1] == 'o' && msg[6] == ':'
    ensures "checkout: moving from " <= msg ==> msg[0] == 'c' && msg[1] == 'h' && msg[3] == 'c'
    ensures "cherry-pick:" <= msg ==> msg[0] == 'c' && msg[1] == 'h' && msg[3] == 'r'
    ensures "clone" <= msg ==> msg[0] == 'c' && msg[1] == 'l'
  {
  }

  lemma MorePrefixesDiffer(msg: string)
    ensures "rebase" <= msg ==> msg[0] == 'r' && msg[2] == 'b'
    ensures "reset:" <= msg ==> msg[0] == 'r' && msg[2] == 's'
    ensures "revert:" <= msg ==> msg[0] == 'r' && msg[2] == 'v'
  {
  }

  lemma OtherPrefixesDiffer(msg: string)
    ensures "branch: Created" <= msg ==> msg[0] == 'b' && msg[8] == 'C'
    ensures "branch: Reset" <= msg ==> msg[0] == 'b' && msg[8] == 'R'
    ensures "merge " <= msg ==> msg[0] == 'm'
    ensures "pull" <= msg ==> msg[0] == 'p' && msg[2] == 'l'
    ensures "push" <= msg ==> msg[0] == 'p' && msg[2] == 's'
    ensures "fetch" <= msg ==> msg[0] == 'f'
    ensures msg == "update by push" ==> msg[0] == 'u'
  {
  }

  // ----- what is folded -----

  /** A local branch moved: the reflog says so, or the journal names a branch there is. */
  ghost predicate MovesALocalBranch(e: FeedEvent, branches: map<string, string>) {
    || e.reflogRefKind == Some(LocalBranch)
    || (e.reflogRefKind.None? && e.event.refName.Some? && e.event.refName.value in branches)
  }

  /** Neither ref nor tips: the record of a transfer whose refs could not be read. */
  ghost predicate NamesNothing(e: ActivityEvent) { e.refName.None? && e.oldOid.None? && e.newOid.None? }

  /** A remote-tracking update of the kind. */
  ghost predicate IsBookkeeping(e: FeedEvent, kind: ActivityKind, branches: map<string, string>) {
    e.event.kind == kind && !MovesALocalBranch(e, branches) && !NamesNothing(e.event)
  }

  ghost predicate StandsAlone(e: FeedEvent, branches: map<string, string>) {
    !IsBookkeeping(e, Fetch, branches) && !IsBookkeeping(e, Pull, branches) && !IsBookkeeping(e, Push, branches)
  }

  ghost function Bookkeeping(kind: ActivityKind, branches: map<string, string>): FeedEvent -> bool {
    (e: FeedEvent) => IsBookkeeping(e, kind, branches)
  }

  ghost function Alone(branches: map<string, string>): FeedEvent -> bool { (e: FeedEvent) => StandsAlone(e, branches) }

  lemma CandidatesAreBookkeeping(e: FeedEvent, branches: map<string, string>)
    ensures Candidate(e, branches) <==> !StandsAlone(e, branches)
    ensures forall kind | kind in {Fetch, Pull, Push} ::
              Candidate(e, branches) && e.event.kind == kind <==> IsBookkeeping(e, kind, branches)
  {
  }

  /** A kind's rows are made of exactly the remote-tracking updates of that kind. */
  lemma {:induction false} FoldOfIsBookkeeping(kind: ActivityKind, noun: string, events: seq<FeedEvent>, branches: map<string, string>)
    requires kind in {Fetch, Pull, Push}
    ensures FoldOf(kind, noun, events, branches) == FoldOneKind(Filter(Bookkeeping(kind, branches), events), noun)
  {
    forall e | e in events ensures Bookkeeping(kind, branches)(e) <==> IsKind(kind)(e) && CandidateAmong(branches)(e) {
      CandidatesAreBookkeeping(e, branches);
    }
    hide Filter, Candidate, IsBookkeeping;
    FilterBoth(IsKind(kind), CandidateAmong(branches), Bookkeeping(kind, branches), events);
  }

  /** The fold keeps every other event as it is, in order, and folds each kind's updates and nothing else. */
  lemma {:induction false} FoldIsExactly(events: seq<FeedEvent>, branches: map<string, string>)
    ensures FoldBursts(events, branches)
         == Filter(Alone(branches), events)
          + FoldOneKind(Filter(Bookkeeping(Fetch, branches), events), "fetch")
          + FoldOneKind(Filter(Bookkeeping(Pull, branches), events), "pull")
          + FoldOneKind(Filter(Bookkeeping(Push, branches), events), "push")
  {
    FoldShape(events, branches);
    FoldOfIsBookkeeping(Fetch, "fetch", events, branches);
    FoldOfIsBookkeeping(Pull, "pull", events, branches);
    FoldOfIsBookkeeping(Push, "push", events, branches);
    forall e | e in events ensures NoCandidateAmong(branches)(e) == Alone(branches)(e) { CandidatesAreBookkeeping(e, branches); }
    hide Filter, FoldOneKind, FoldOf, FoldBursts, Candidate, StandsAlone;
    FilterAgree(NoCandidateAmong(branches), Alone(branches), events);
  }

  /** A movement of a local branch is never folded away: the fold holds it as often as it was given. */
  lemma LocalMovesAreKept(events: seq<FeedEvent>, branches: map<string, string>, e: FeedEvent)
    requires MovesALocalBranch(e, branches) || NamesNothing(e.event) || e.event.kind !in {Fetch, Pull, Push}
    ensures multiset(FoldBursts(events, branches))[e] >= multiset(events)[e]
  {
    FoldIsExactly(events, branches);
    FilterCount(Alone(branches), events, e);
    hide Filter, FoldBursts, FoldOneKind;
    assert Alone(branches)(e);
  }

  // ----- what a row shows -----

  /** The ref a row shows: the reflog's own short name for a branch line, any other name unchanged. */
  ghost predicate ShowsName(shown: Option<string>, e: FeedEvent) {
    match e.reflogRefKind
    case Some(LocalBranch) => forall name :: e.event.refName == Some("refs/heads/" + name) ==> shown == Some(name)
    case Some(RemoteBranch) => forall name :: e.event.refName == Some("refs/remotes/" + name) ==> shown == Some(name)
    case _ => shown == e.event.refName
  }

  lemma NamesAreShort(e: FeedEvent)
    ensures ShowsName(IntoActivity(e).refName, e)
    ensures IntoActivity(e) == e.event.(refName := IntoActivity(e).refName)
  {
    if e.event.refName.Some? {
      var name := e.event.refName.value;
      forall short | name == "refs/heads/" + short ensures name[|"refs/heads/"|..] == short && "refs/heads/" <= name {}
      forall short | name == "refs/remotes/" + short ensures name[|"refs/remotes/"|..] == short && "refs/remotes/" <= name {}
    }
  }

  /** The row is the event but for its hint, its resolved refs and, on a branch line, its short name. */
  ghost predicate RowOf(row: ActivityEvent, e: FeedEvent) {
    && row.time == e.event.time && row.kind == e.event.kind && row.summary == e.event.summary
    && row.oldOid == e.event.oldOid && row.newOid == e.event.newOid && row.source == e.event.source
    && ShowsName(row.refName, e)
  }

  /** What is not folded is a row of the feed, if the cap has room. */
  lemma LoneEventIsARow(journal: seq<ActivityEvent>, reflog: seq<ReflogEntry>, branches: map<string, string>,
                        remote: set<string>, limit: nat, e: FeedEvent)
    requires limit >= |journal| + |reflog| && e in Attributed(journal, reflog)
    requires MovesALocalBranch(e, branches) || NamesNothing(e.event) || e.event.kind !in {Fetch, Pull, Push}
    ensures exists row | row in Assembled(journal, reflog, branches, remote, limit) :: RowOf(row, e)
  {
    var folded := FoldBursts(Attributed(journal, reflog), branches);
    LocalMovesAreKept(Attributed(journal, reflog), branches, e);
    assert e in multiset(folded);
    var k :| 0 <= k < |folded| && folded[k] == e;
    NamesAreShort(e);
    var row := Resolved(journal)(Hinted(branches, remote)(IntoActivity(e)));
    assert RowOf(row, e) by { hide IntoActivity, UndoHint; }
    RowReachesTheFeed(journal, reflog, branches, remote, limit, k);
  }

  lemma RowReachesTheFeed(journal: seq<ActivityEvent>, reflog: seq<ReflogEntry>, branches: map<string, string>,
                          remote: set<string>, limit: nat, k: nat)
    requires limit >= |journal| + |reflog| && k < |FoldBursts(Attributed(journal, reflog), branches)|
    ensures var e := FoldBursts(Attributed(journal, reflog), branches)[k];
            Resolved(journal)(Hinted(branches, remote)(IntoActivity(e))) in Assembled(journal, reflog, branches, remote, limit)
  {
    var folded, rows := FoldBursts(Attributed(journal, reflog), branches), Rows(journal, reflog, branches, remote);
    RowsAreFewer(journal, reflog, branches, remote);
    NewerFirstIsPreorder();
    SortIsSortedPermutation(NewerFirst, rows);
    var sorted := Sort(NewerFirst, rows);
    var shown := Hinted(branches, remote)(IntoActivity(folded[k]));
    assert rows[k] == shown by { hide FoldBursts, Attributed, UndoHint, IntoActivity; }
    assert shown in multiset(sorted);
    hide Rows, Sort, Hinted, Resolved, IntoActivity, FoldBursts, Attributed;
    var i :| 0 <= i < |sorted| && sorted[i] == shown;
    assert Assembled(journal, reflog, branches, remote, limit)[i] == Resolved(journal)(sorted[i]);
  }

  /** A journaled movement of a local branch is a row of its own, whatever git logged beside it. */
  lemma JournaledBranchMoveIsARow(journal: seq<ActivityEvent>, reflog: seq<ReflogEntry>, branches: map<string, string>,
                                  remote: set<string>, limit: nat, j: ActivityEvent)
    requires limit >= |journal| + |reflog| && j in journal && j.refName.Some? && j.refName.value in branches
    ensures exists row | row in Assembled(journal, reflog, branches, remote, limit) ::
              row == j.(undo := row.undo, refs := row.refs)
  {
    var e := FromJournal(j);
    JournalIsShown(journal, reflog, j);
    hide Assembled, Attributed;
    LoneEventIsARow(journal, reflog, branches, remote, limit, e);
    var row :| row in Assembled(journal, reflog, branches, remote, limit) && RowOf(row, e);
    assert row == j.(undo := row.undo, refs := row.refs);
  }

  /** A logged action on a local branch that the journal does not list is a row: the branch by its short name, at the time
      of its newest line, from its oldest tip to its newest. */
  lemma {:induction false} LoggedBranchMoveIsARow(journal: seq<ActivityEvent>, reflog: seq<ReflogEntry>, branches: map<string, string>,
                               remote: set<string>, limit: nat, k: nat)
    requires limit >= |journal| + |reflog| && k < |Spans(reflog)|
    requires var newest := Spans(reflog)[k][0]; newest.refKind == LocalBranch && !MovedNothing(newest)
    requires !Journaled(SpanEvents(Spans(reflog)[k])[0], journal)
    ensures var span := Spans(reflog)[k];
            exists row | row in Assembled(journal, reflog, branches, remote, limit) ::
              && row.refName == Some(span[0].refName) && row.time == span[0].time && row.kind == KindOf(span[0])
              && row.newOid == Some(span[0].newOid) && row.oldOid == Some(span[|span| - 1].oldOid)
  {
    var span := Spans(reflog)[k];
    EventsSayTheirLines(reflog, k);
    SpansAreActions(reflog, k);
    var e := SpanEvents(span)[0];
    assert span[0] in span;
    assert e.event.refName.value[0] == 'r';
    hide Assembled, Attributed, Coalesce, SpanEvents, Journaled, MovedNothing, ParseReflogMessage;
    BranchMovementIsShownIff(journal, reflog, e);
    LoneEventIsARow(journal, reflog, branches, remote, limit, e);
    var row :| row in Assembled(journal, reflog, branches, remote, limit) && RowOf(row, e);
    assert e.event.refName == Some("refs/heads/" + span[0].refName);
  }

  // ----- hints -----

  function FirstSeven(oid: string): string { if |oid| > 7 then oid[..7] else oid }

  ghost function Verb(kind: ActivityKind): string {
    match kind
    case Merge => "merge"
    case Rebase => "rebase"
    case Amend => "amend"
    case Reset => "reset"
    case _ => "commit"
  }

  /** What the row offers to undo: a deleted branch whose name is free, or the last move of a branch that was not its
      creation. */
  ghost predicate Offers(row: ActivityEvent, u: Undoable, branches: map<string, string>, remote: set<string>) {
    && row.refName.Some? && row.oldOid.Some?
    && var name, was := row.refName.value, row.oldOid.value;
       if row.kind == BranchDeleted then
         name !in branches
         && u == Undoable(RestoreBranch(name, was), "Restore branch ‘" + name + "’ at " + FirstSeven(was), false)
       else
         && row.kind in {Merge, Rebase, Commit, Amend, Reset} && name != "HEAD"
         && row.newOid.Some? && name in branches && branches[name] == row.newOid.value
         && (exists c | c in was :: c != '0')
         && u == Undoable(ResetBranch(name, was, row.newOid.value),
                          "Undo " + Verb(row.kind) + " — reset ‘" + name + "’ to " + FirstSeven(was), row.newOid.value in remote)
  }

  lemma HintIsTheOffer(e: ActivityEvent, u: Undoable, branches: map<string, string>, remote: set<string>)
    ensures UndoHint(e, branches, remote) == Some(u) <==> Offers(e, u, branches, remote)
  {
    if e.oldOid.Some? { SomeDigitIsNotZero(e.oldOid.value); }
    hide AllZeros;
  }

  lemma SomeDigitIsNotZero(oid: string)
    ensures AllZeros(oid) <==> !exists c | c in oid :: c != '0'
  {
    if i :| 0 <= i < |oid| && oid[i] != '0' { assert oid[i] in oid; }
  }

  /** A row of the feed carries a hint exactly when there is that to undo, against the branches as they are now. */
  lemma HintIffOffered(journal: seq<ActivityEvent>, reflog: seq<ReflogEntry>, branches: map<string, string>,
                       remote: set<string>, limit: nat, k: nat, u: Undoable)
    requires k < |Assembled(journal, reflog, branches, remote, limit)|
    ensures var row := Assembled(journal, reflog, branches, remote, limit)[k];
            row.undo == Some(u) <==> Offers(row, u, branches, remote)
  {
    var i := KeptRowIsARow(journal, reflog, branches, remote, limit, k);
    var shown := Map(IntoActivity, FoldBursts(Attributed(journal, reflog), branches));
    assert Rows(journal, reflog, branches, remote)[i] == Hinted(branches, remote)(shown[i]);
    hide Rows, Unresolved, FoldBursts, Attributed, Map, UndoHint;
    HintIsTheOffer(shown[i], u, branches, remote);
  }

  // ----- anchors -----

  /** The event holds the capture its batch refers to. */
  ghost predicate Holds(j: ActivityEvent, batch: string) {
    match j.refs
    case Some(Captured(_, _, _, _, _, _, b)) => b == Some(batch)
    case _ => false
  }

  /** A referrer gets the first capture the journal holds under its batch id, or none if there is none. */
  lemma {:induction false} ReferrerGetsTheFirstAnchor(journal: seq<ActivityEvent>, batch: string) returns (i: nat)
    ensures i <= |journal| && forall h | 0 <= h < i :: !Holds(journal[h], batch)
    ensures i < |journal| ==> Holds(journal[i], batch)
    ensures FindAnchor(journal, batch) == if i < |journal| then journal[i].refs else None
  {
    i := 0;
    if journal != [] && !Anchors(journal[0], batch) {
      i := ReferrerGetsTheFirstAnchor(journal[1..], batch);
      assert forall h | 0 < h < i + 1 :: journal[h] == journal[1..][h - 1];
      i := i + 1;
    }
  }
}
