/** What the stages before the fold keep: every rebase whole, every ref's history connected, every movement shown. */
module FeedStages {
  import opened Basics
  import opened Sorting
  import opened Activity
  import opened Feed

  // ----- spans -----

  function Spans(reflog: seq<ReflogEntry>): (spans: seq<seq<ReflogEntry>>)
    ensures forall k | 0 <= k < |spans| :: spans[k] != []
    decreases |reflog|
  {
    if reflog == [] then [] else [reflog[..SpanLength(reflog)]] + Spans(reflog[SpanLength(reflog)..])
  }

  ghost predicate SameRef(a: ReflogEntry, b: ReflogEntry) { a.refKind == b.refKind && a.refName == b.refName }

  /** A single line, or consecutive rebase lines of one ref. */
  ghost predicate OneAction(span: seq<ReflogEntry>) {
    && span != []
    && (|span| > 1 ==> forall e | e in span :: KindOf(e) == Rebase && SameRef(e, span[0]))
  }

  lemma {:induction false} FollowersAre(head: ReflogEntry, rest: seq<ReflogEntry>)
    ensures var n := Followers(head, rest);
            && (forall e | e in rest[..n] :: KindOf(e) == Rebase && SameRef(e, head))
            && (n < |rest| ==> !(KindOf(rest[n]) == Rebase && SameRef(rest[n], head)))
  {
    hide KindOf;
    if Followers(head, rest) > 0 {
      FollowersAre(head, rest[1..]);
      var n := Followers(head, rest);
      assert rest[..n] == [rest[0]] + rest[1..][..n - 1];
    }
  }

  lemma FirstSpanIsOneAction(reflog: seq<ReflogEntry>)
    requires reflog != []
    ensures var n := SpanLength(reflog);
            && OneAction(reflog[..n])
            && (n < |reflog| && KindOf(reflog[0]) == Rebase ==>
                 !(KindOf(reflog[n]) == Rebase && SameRef(reflog[n], reflog[0])))
  {
    hide KindOf;
    FollowersAre(reflog[0], reflog[1..]);
    var n := SpanLength(reflog);
    assert reflog[..n] == [reflog[0]] + reflog[1..][..n - 1];
  }

  /** The reflog is cut into pieces that join to it again. */
  lemma {:induction false} SpansJoinToTheReflog(reflog: seq<ReflogEntry>)
    ensures Flatten(Spans(reflog)) == reflog
    decreases |reflog|
  {
    hide SpanLength;
    if reflog != [] {
      SpansJoinToTheReflog(reflog[SpanLength(reflog)..]);
      assert reflog == reflog[..SpanLength(reflog)] + reflog[SpanLength(reflog)..];
    }
  }

  /** Each piece is one action: no two refs and no two operations run together. */
  lemma {:induction false} SpansAreActions(reflog: seq<ReflogEntry>, k: nat)
    requires k < |Spans(reflog)|
    ensures OneAction(Spans(reflog)[k])
    decreases |reflog|
  {
    hide SpanLength, OneAction;
    FirstSpanIsOneAction(reflog);
    if k > 0 { SpansAreActions(reflog[SpanLength(reflog)..], k - 1); }
  }

  /** `b` goes on with the rebase that `a` is a line of. */
  ghost predicate GoesOn(a: ReflogEntry, b: ReflogEntry) {
    KindOf(a) == Rebase && KindOf(b) == Rebase && SameRef(b, a)
  }

  /** No rebase is split: the next action never goes on with the one before. */
  lemma {:induction false} RebasesAreWhole(reflog: seq<ReflogEntry>, k: nat)
    requires k + 1 < |Spans(reflog)|
    ensures !GoesOn(Spans(reflog)[k][0], Spans(reflog)[k + 1][0])
    decreases |reflog|
  {
    hide SpanLength, OneAction, KindOf, SameRef;
    var n := SpanLength(reflog);
    FirstSpanIsOneAction(reflog);
    assert reflog[..n][0] == reflog[0];
    if k > 0 {
      RebasesAreWhole(reflog[n..], k - 1);
    } else {
      assert Spans(reflog)[1][0] == reflog[n];
    }
  }

  /** The step counts are true: a piece of n > 1 lines is one rebase event of n steps, and the pieces' lengths add up
      to the reflog. */
  lemma {:induction false} StepsAreCounted(reflog: seq<ReflogEntry>)
    ensures Coalesce(reflog) == EventsOf(Spans(reflog)) && TotalSize(Spans(reflog)) == |reflog|
    ensures forall span | span in Spans(reflog) && |span| > 1 ::
              && |SpanEvents(span)| == 1
              && SpanEvents(span)[0].event.kind == Rebase
              && SpanEvents(span)[0].event.summary == "rebase (" + Decimal(|span|) + " steps)"
    decreases |reflog|
  {
    EventsComeFromSpans(reflog);
    if reflog != [] {
      FirstSpanIsOneAction(reflog);
      CountedSpan(reflog[..SpanLength(reflog)]);
      hide SpanLength, SpanEvents, OneAction, Coalesce, EventsOf;
      StepsAreCounted(reflog[SpanLength(reflog)..]);
    }
  }

  lemma {:induction false} CountedSpan(span: seq<ReflogEntry>)
    requires OneAction(span)
    ensures |span| > 1 ==>
              && |SpanEvents(span)| == 1
              && SpanEvents(span)[0].event.kind == Rebase
              && SpanEvents(span)[0].event.summary == "rebase (" + Decimal(|span|) + " steps)"
  {
    hide ParseReflogMessage, Decimal;
    if |span| > 1 { assert KindOf(span[0]) == Rebase by { assert span[0] in span; } }
  }

  /** The ref a line is about, in full. */
  ghost function FullName(r: ReflogEntry): string {
    match r.refKind
    case Head => r.refName
    case LocalBranch => "refs/heads/" + r.refName
    case RemoteBranch => "refs/remotes/" + r.refName
  }

  /** What the event of a piece says: the time, ref and new tip of its newest line, the old tip of its oldest, and of a
      single line the kind and words read from it. */
  ghost predicate Says(e: FeedEvent, span: seq<ReflogEntry>)
    requires span != []
  {
    var newest, oldest := span[0], span[|span| - 1];
    && e.reflogRefKind == Some(newest.refKind) && e.event.refName == Some(FullName(newest)) && e.event.time == newest.time
    && e.event.newOid == Some(newest.newOid) && e.event.oldOid == Some(oldest.oldOid)
    && e.event.source == External && e.event.undo.None? && e.event.refs.None?
    && (e.event.kind, e.event.summary) == (if |span| == 1 then ParseReflogMessage(newest.message)
                                           else (Rebase, "rebase (" + Decimal(|span|) + " steps)"))
  }

  lemma {:induction false} EventsSayTheirLines(reflog: seq<ReflogEntry>, k: nat)
    requires k < |Spans(reflog)|
    ensures var span := Spans(reflog)[k];
            if MovedNothing(span[0]) then SpanEvents(span) == []
            else |SpanEvents(span)| == 1 && Says(SpanEvents(span)[0], span) && SpanEvents(span)[0] in Coalesce(reflog)
  {
    var span := Spans(reflog)[k];
    SpansAreActions(reflog, k);
    SpanSays(span);
    hide SpanEvents, Says, MovedNothing, Coalesce;
    if !MovedNothing(span[0]) {
      EventsComeFromSpans(reflog);
      SpanIsTold(Spans(reflog), k, SpanEvents(span)[0]);
    }
  }

  lemma SpanSays(span: seq<ReflogEntry>)
    requires OneAction(span)
    ensures if MovedNothing(span[0]) then SpanEvents(span) == [] else |SpanEvents(span)| == 1 && Says(SpanEvents(span)[0], span)
  {
    assert span[0] in span;
    hide ParseReflogMessage, Decimal, IsSelfCheckout;
  }

  lemma {:induction false} SpanIsTold(spans: seq<seq<ReflogEntry>>, k: nat, e: FeedEvent)
    requires (forall i | 0 <= i < |spans| :: spans[i] != []) && k < |spans| && e in SpanEvents(spans[k])
    ensures e in EventsOf(spans)
  {
    hide SpanEvents;
    if k > 0 { SpanIsTold(spans[1..], k - 1, e); }
  }

  /** So no action is lost: for each piece but a checkout that stayed put, the fold's input holds an event of its kind
      and new tip, within seven seconds of its newest line. */
  lemma {:induction false} NoActionIsLost(journal: seq<ActivityEvent>, reflog: seq<ReflogEntry>, k: nat)
    requires k < |Spans(reflog)| && !MovedNothing(Spans(reflog)[k][0])
    ensures var newest := Spans(reflog)[k][0];
            exists shown | shown in Attributed(journal, reflog) ::
              && shown.event.kind == KindOf(newest) && shown.event.newOid == Some(newest.newOid)
              && -7 <= newest.time - shown.event.time <= 7
  {
    var span := Spans(reflog)[k];
    EventsSayTheirLines(reflog, k);
    SpansAreActions(reflog, k);
    var e := SpanEvents(span)[0];
    assert span[0] in span;
    hide SpanEvents, Attributed, ParseReflogMessage, MovedNothing, Coalesce;
    NoMovementIsLost(journal, reflog, e);
    var shown :| shown in Attributed(journal, reflog) && Alike(e.event, shown.event, 7);
    assert shown.event.kind == KindOf(span[0]);
  }

  /** Each event comes from one span, and each span but a checkout that stayed put gives one event. */
  lemma {:induction false} EventsComeFromSpans(reflog: seq<ReflogEntry>)
    ensures Coalesce(reflog) == EventsOf(Spans(reflog))
    decreases |reflog|
  {
    if reflog != [] { EventsComeFromSpans(reflog[SpanLength(reflog)..]); }
  }

  function EventsOf(spans: seq<seq<ReflogEntry>>): seq<FeedEvent>
    requires forall k | 0 <= k < |spans| :: spans[k] != []
  {
    if spans == [] then [] else SpanEvents(spans[0]) + EventsOf(spans[1..])
  }

  // ----- telescoping -----

  predicate OnRef(e: ReflogEntry, kind: ReflogRefKind, name: string) { e.refKind == kind && e.refName == name }

  function Qualify(kind: ReflogRefKind, name: string): string {
    QualifiedRefName(ReflogEntry(name, kind, 0, "", "", ""))
  }

  predicate EventOnRef(e: FeedEvent, kind: ReflogRefKind, name: string) {
    e.reflogRefKind == Some(kind) && e.event.refName == Some(Qualify(kind, name))
  }

  /** Newest first, the ref's lines lead from `top` back to `bottom`, each starting where the next newer one began. */
  ghost predicate LinesTelescope(lines: seq<ReflogEntry>, kind: ReflogRefKind, name: string, top: string, bottom: string) {
    if lines == [] then top == bottom
    else if OnRef(lines[0], kind, name) then
      lines[0].newOid == top && LinesTelescope(lines[1..], kind, name, lines[0].oldOid, bottom)
    else LinesTelescope(lines[1..], kind, name, top, bottom)
  }

  ghost predicate EventsTelescope(events: seq<FeedEvent>, kind: ReflogRefKind, name: string, top: string, bottom: string) {
    if events == [] then top == bottom
    else if EventOnRef(events[0], kind, name) then
      && events[0].event.newOid == Some(top) && events[0].event.oldOid.Some?
      && EventsTelescope(events[1..], kind, name, events[0].event.oldOid.value, bottom)
    else EventsTelescope(events[1..], kind, name, top, bottom)
  }

  lemma QualifyIsInjective(a: ReflogEntry, kind: ReflogRefKind, name: string)
    requires a.refKind == kind
    ensures QualifiedRefName(a) == Qualify(kind, name) <==> a.refName == name
  {
    var prefix := match kind case Head => "" case LocalBranch => "refs/heads/" case RemoteBranch => "refs/remotes/";
    assert QualifiedRefName(a) == prefix + a.refName && Qualify(kind, name) == prefix + name;
    assert (prefix + a.refName)[|prefix|..] == a.refName && (prefix + name)[|prefix|..] == name;
  }

  lemma TailIsOneAction(span: seq<ReflogEntry>)
    requires OneAction(span) && |span| > 1
    ensures OneAction(span[1..]) && SameRef(span[1], span[0])
  {
    hide KindOf;
    assert span[1] in span && forall e | e in span[1..] :: e in span;
  }

  lemma {:induction false} SpanTelescopes(span: seq<ReflogEntry>, rest: seq<ReflogEntry>, kind: ReflogRefKind, name: string, top: string, bottom: string)
    requires OneAction(span) && LinesTelescope(span + rest, kind, name, top, bottom)
    ensures if OnRef(span[0], kind, name)
            then span[0].newOid == top && LinesTelescope(rest, kind, name, span[|span| - 1].oldOid, bottom)
            else LinesTelescope(rest, kind, name, top, bottom)
  {
    var tail := span[1..];
    assert (span + rest)[0] == span[0] && (span + rest)[1..] == tail + rest;
    if tail == [] {
      assert tail + rest == rest;
    } else {
      TailIsOneAction(span);
      hide OneAction, KindOf;
      SpanTelescopes(tail, rest, kind, name, if OnRef(span[0], kind, name) then span[0].oldOid else top, bottom);
    }
  }

  lemma {:induction false} SpanEventTelescopes(span: seq<ReflogEntry>, later: seq<FeedEvent>, kind: ReflogRefKind, name: string, top: string, bottom: string)
    requires OneAction(span)
    requires OnRef(span[0], kind, name) ==> span[0].newOid == top && (MovedNothing(span[0]) ==> span[0].oldOid == top && |span| == 1)
    requires EventsTelescope(later, kind, name, if OnRef(span[0], kind, name) then span[|span| - 1].oldOid else top, bottom)
    ensures EventsTelescope(SpanEvents(span) + later, kind, name, top, bottom)
  {
    hide KindOf, MovedNothing, ParseReflogMessage, QualifiedRefName;
    var events := SpanEvents(span);
    if MovedNothing(span[0]) {
      assert events + later == later;
    } else {
      assert events == [events[0]] && (events + later)[1..] == later;
      if span[0].refKind == kind { QualifyIsInjective(span[0], kind, name); }
    }
  }

  /** Checkouts of the ref to itself are logged as moving nothing. */
  ghost predicate StaysPut(reflog: seq<ReflogEntry>, kind: ReflogRefKind, name: string) {
    forall e | e in reflog && OnRef(e, kind, name) && MovedNothing(e) :: e.oldOid == e.newOid
  }

  lemma StaysPutAfter(reflog: seq<ReflogEntry>, kind: ReflogRefKind, name: string)
    requires StaysPut(reflog, kind, name) && reflog != []
    ensures var n := SpanLength(reflog);
            && StaysPut(reflog[n..], kind, name)
            && (MovedNothing(reflog[0]) ==> n == 1)
            && (OnRef(reflog[0], kind, name) && MovedNothing(reflog[0]) ==> reflog[0].oldOid == reflog[0].newOid)
  {
    hide IsSelfCheckout, ParseReflogMessage;
    assert reflog[0] in reflog;
    assert forall e | e in reflog[SpanLength(reflog)..] :: e in reflog;
  }

  /** On every ref stage 1's events still lead from the same newest tip to the same oldest one without a break. */
  lemma {:induction false} CoalescingTelescopes(reflog: seq<ReflogEntry>, kind: ReflogRefKind, name: string, top: string, bottom: string)
    requires LinesTelescope(reflog, kind, name, top, bottom)
    requires StaysPut(reflog, kind, name)
    ensures EventsTelescope(Coalesce(reflog), kind, name, top, bottom)
    decreases |reflog|
  {
    hide MovedNothing, SpanLength, OneAction, SpanEvents, StaysPut, EventsTelescope, LinesTelescope, OnRef;
    if reflog == [] {
      NothingTelescopes(reflog, kind, name, top, bottom);
    } else {
      var n := SpanLength(reflog);
      var span, rest := reflog[..n], reflog[n..];
      FirstSpanIsOneAction(reflog);
      StaysPutAfter(reflog, kind, name);
      assert reflog == span + rest;
      SpanTelescopes(span, rest, kind, name, top, bottom);
      var next := if OnRef(span[0], kind, name) then span[n - 1].oldOid else top;
      CoalescingTelescopes(rest, kind, name, next, bottom);
      SpanEventTelescopes(span, Coalesce(rest), kind, name, top, bottom);
    }
  }

  lemma {:induction false} NothingTelescopes(reflog: seq<ReflogEntry>, kind: ReflogRefKind, name: string, top: string, bottom: string)
    requires reflog == []
    ensures LinesTelescope(reflog, kind, name, top, bottom) <==> EventsTelescope(Coalesce(reflog), kind, name, top, bottom)
  {
  }

  // ----- nothing is lost before the fold -----

  /** Of one kind, with the same new tip, at most `slack` seconds apart. */
  ghost predicate Alike(e: ActivityEvent, other: ActivityEvent, slack: int) {
    e.kind == other.kind && e.newOid.Some? && other.newOid == e.newOid && -slack <= e.time - other.time <= slack
  }

  lemma SameIsAlike()
    ensures forall e, other, slack :: SameMovement(e, other, slack) <==> Alike(e, other, slack)
  {
  }

  lemma {:induction false} CoalescedEventsAreReflogEvents(reflog: seq<ReflogEntry>, e: FeedEvent)
    requires e in Coalesce(reflog)
    ensures e.reflogRefKind.Some? && e.event.refName.Some? && e.event.oldOid.Some? && e.event.newOid.Some?
    ensures e.event.source == External && e.event.refs.None?
    decreases |reflog|
  {
    var n := SpanLength(reflog);
    if e !in SpanEvents(reflog[..n]) { CoalescedEventsAreReflogEvents(reflog[n..], e); }
  }

  lemma JournalIsShown(journal: seq<ActivityEvent>, reflog: seq<ReflogEntry>, j: ActivityEvent)
    requires j in journal
    ensures FromJournal(j) in Attributed(journal, reflog)
  {
    var i :| 0 <= i < |journal| && journal[i] == j;
    assert Map(FromJournal, journal)[i] == FromJournal(j);
  }

  lemma {:induction false} ReflogEventIsShownIff(journal: seq<ActivityEvent>, reflog: seq<ReflogEntry>, e: FeedEvent)
    requires e in Coalesce(reflog)
    ensures e in Attributed(journal, reflog) <==> KeptBesideBranches(Coalesce(reflog))(e) && !Absorbed(e, journal)
  {
    CoalescedEventsAreReflogEvents(reflog, e);
    FilterMembers(KeptBesideBranches(Coalesce(reflog)), Coalesce(reflog));
    FilterMembers(KeptBesideJournal(journal), DropHeadTwins(Coalesce(reflog)));
    assert forall x | x in Map(FromJournal, journal) :: x.reflogRefKind.None?;
  }

  /** The journal event names the ref the way its namespace is journaled: a remote branch in full, a local one short. */
  ghost predicate NamedAlike(e: FeedEvent, j: ActivityEvent) {
    && j.refName.Some?
    && if e.reflogRefKind == Some(RemoteBranch) then e.event.refName == j.refName
       else e.event.refName == Some("refs/heads/" + j.refName.value) && !("refs/" <= j.refName.value)
  }

  ghost predicate Journaled(e: FeedEvent, journal: seq<ActivityEvent>) {
    exists j | j in journal :: Alike(e.event, j, 5) && NamedAlike(e, j)
  }

  /** A branch movement stays listed exactly when the journal does not list it: no event of its kind, tip and ref within
      five seconds. */
  lemma {:induction false} BranchMovementIsShownIff(journal: seq<ActivityEvent>, reflog: seq<ReflogEntry>, e: FeedEvent)
    requires e in Coalesce(reflog) && e.event.refName != Some("HEAD") && e.reflogRefKind != Some(Head)
    ensures e in Attributed(journal, reflog) <==>
            !Journaled(e, journal)
  {
    assert !OnHead(e);
    hide *;
    ReflogEventIsShownIff(journal, reflog, e);
    CoalescedEventsAreReflogEvents(reflog, e);
    AbsorbedIffJournaled(journal, e);
    BranchesAreKept(Coalesce(reflog), e);
  }

  lemma BranchesAreKept(events: seq<FeedEvent>, e: FeedEvent)
    requires !OnHead(e)
    ensures KeptBesideBranches(events)(e)
  {
  }

  lemma AbsorbedIffJournaled(journal: seq<ActivityEvent>, e: FeedEvent)
    requires e.reflogRefKind.Some? && !e.reflogRefKind.value.Head? && e.event.refName.Some?
    ensures Absorbed(e, journal) <==> Journaled(e, journal)
  {
    SameIsAlike();
    hide SameMovement, Alike, NamedAlike, MatchesJournalRef;
    if j :| j in journal && Alike(e.event, j, 5) && NamedAlike(e, j) {
      JournalNameMatches(e, j);
      assert EchoOf(e, j);
    }
    if j :| j in journal && EchoOf(e, j) {
      JournalNameMatches(e, j);
      assert Alike(e.event, j, 5) && NamedAlike(e, j);
    }
  }

  lemma JournalNameMatches(e: FeedEvent, j: ActivityEvent)
    requires e.reflogRefKind.Some? && !e.reflogRefKind.value.Head? && e.event.refName.Some?
    ensures MatchesJournalRef(e, j.refName) <==> NamedAlike(e, j)
  {
    if j.refName.Some? {
      var name, full := e.event.refName.value, "refs/heads/" + j.refName.value;
      assert full[|"refs/heads/"|..] == j.refName.value;
      if "refs/heads/" <= name { assert name == "refs/heads/" + name[|"refs/heads/"|..]; }
    }
  }

  /** A HEAD movement stays listed exactly when no branch moved likewise within two seconds, and the journal holds no
      event of its kind and tip within five, on whatever ref. */
  lemma {:induction false} HeadMovementIsShownIff(journal: seq<ActivityEvent>, reflog: seq<ReflogEntry>, e: FeedEvent)
    requires e in Coalesce(reflog) && e.reflogRefKind == Some(Head) && e.event.refName == Some("HEAD")
    ensures e in Attributed(journal, reflog) <==>
            && (!exists b | b in Coalesce(reflog) && b.event.refName != Some("HEAD") :: Alike(e.event, b.event, 2))
            && (!exists j | j in journal :: Alike(e.event, j, 5))
  {
    SameIsAlike();
    ReflogEventIsShownIff(journal, reflog, e);
    hide Coalesce, Attributed, SameMovement, Alike;
  }

  /** So a journal line about another branch takes the place of a HEAD line: the rebase of HEAD is shown nowhere. */
  lemma AnotherBranchAbsorbsHead()
    ensures var head := ReflogEntry("HEAD", Head, 100, "old", "new", "rebase");
            var topic := ActivityEvent(105, Rebase, Some("topic"), "", None, Some("new"), App, None, None);
            && |Coalesce([head])| == 1 && OnHead(Coalesce([head])[0])
            && Attributed([], [head]) == Coalesce([head])
            && Attributed([topic], [head]) == [FromJournal(topic)]
  {
    var head := ReflogEntry("HEAD", Head, 100, "old", "new", "rebase");
    var topic := ActivityEvent(105, Rebase, Some("topic"), "", None, Some("new"), App, None, None);
    RebaseLine(head);
    var e := Coalesce([head])[0];
    LoneHeadLine([head], [], e);
    LoneHeadLine([head], [topic], e);
    assert EchoOf(e, topic) && topic in [topic];
    assert [topic][1..] == [] && Map(FromJournal, [topic]) == [FromJournal(topic)];
  }

  lemma {:induction false} LoneHeadLine(reflog: seq<ReflogEntry>, journal: seq<ActivityEvent>, e: FeedEvent)
    requires Coalesce(reflog) == [e] && OnHead(e)
    ensures Attributed(journal, reflog) == (if Absorbed(e, journal) then [] else [e]) + Map(FromJournal, journal)
  {
    assert KeptBesideBranches([e])(e) && (KeptBesideJournal(journal)(e) <==> !Absorbed(e, journal));
    hide Filter, Coalesce, KeptBesideBranches, KeptBesideJournal, Absorbed;
    FilterOne(KeptBesideBranches([e]), e);
    FilterOne(KeptBesideJournal(journal), e);
    assert AbsorbEchoes([], journal) == [] by { FilterNone(KeptBesideJournal(journal), []); }
  }

  lemma FilterOne(p: FeedEvent -> bool, e: FeedEvent)
    ensures Filter(p, [e]) == if p(e) then [e] else []
  {
    assert [e][1..] == [] && Filter(p, []) == [];
  }

  lemma RebaseLine(entry: ReflogEntry)
    requires entry.message == "rebase"
    ensures KindOf(entry) == Rebase
    ensures Coalesce([entry]) == [FeedEvent(ActivityEvent(entry.time, Rebase, Some(QualifiedRefName(entry)), "rebase",
              Some(entry.oldOid), Some(entry.newOid), External, None, None), Some(entry.refKind))]
  {
    TrimTrimmed("rebase");
    assert ParseReflogMessage("rebase") == (Rebase, "rebase") by {
      assert "rebase"[0] == 'r' && "commit:"[0] == 'c' && "commit (amend):"[0] == 'c' && "commit (initial):"[0] == 'c';
      assert "checkout: moving from "[0] == 'c';
    }
    hide ParseReflogMessage;
    assert SpanLength([entry]) == 1 && [entry][..1] == [entry] && [entry][1..] == [];
    assert Coalesce([entry][1..]) == [];
  }

  /** No movement is lost before the fold: each is listed with its kind and new tip within seven seconds. */
  lemma {:induction false} NoMovementIsLost(journal: seq<ActivityEvent>, reflog: seq<ReflogEntry>, e: FeedEvent)
    requires e in Coalesce(reflog)
    ensures exists shown | shown in Attributed(journal, reflog) ::
              Alike(e.event, shown.event, 7)
  {
    SameIsAlike();
    CoalescedEventsAreReflogEvents(reflog, e);
    var events := Coalesce(reflog);
    FilterMembers(KeptBesideBranches(events), events);
    FilterMembers(KeptBesideJournal(journal), DropHeadTwins(events));
    if e in DropHeadTwins(events) {
      SurvivorIsShown(journal, reflog, e);
    } else {
      var b :| b in events && !OnHead(b) && SameMovement(e.event, b.event, HEAD_MATCH_SLACK);
      SurvivorIsShown(journal, reflog, b);
    }
  }

  lemma {:induction false} SurvivorIsShown(journal: seq<ActivityEvent>, reflog: seq<ReflogEntry>, e: FeedEvent)
    requires e in DropHeadTwins(Coalesce(reflog)) && e.event.newOid.Some?
    ensures exists shown | shown in Attributed(journal, reflog) :: SameMovement(e.event, shown.event, JOURNAL_MATCH_SLACK)
  {
    FilterMembers(KeptBesideJournal(journal), DropHeadTwins(Coalesce(reflog)));
    if e !in AbsorbEchoes(DropHeadTwins(Coalesce(reflog)), journal) {
      var j :| j in journal && EchoOf(e, j);
      JournalIsShown(journal, reflog, j);
      assert SameMovement(e.event, FromJournal(j).event, JOURNAL_MATCH_SLACK);
    } else {
      assert e in Attributed(journal, reflog);
    }
  }

  /** Nothing is made up either: whatever the fold is given was a reflog event or a journal event. */
  lemma {:induction false} NothingIsMadeUp(journal: seq<ActivityEvent>, reflog: seq<ReflogEntry>, e: FeedEvent)
    requires e in Attributed(journal, reflog)
    ensures e in Coalesce(reflog) || (e.reflogRefKind.None? && e.event in journal)
  {
    FilterMembers(KeptBesideBranches(Coalesce(reflog)), Coalesce(reflog));
    FilterMembers(KeptBesideJournal(journal), DropHeadTwins(Coalesce(reflog)));
    if e !in Coalesce(reflog) {
      var shown := Map(FromJournal, journal);
      assert e in shown;
      var i :| 0 <= i < |shown| && shown[i] == e;
      assert e == FromJournal(journal[i]);
    }
  }

  // ----- one movement, one event -----

  /** Before the fold no HEAD event repeats a branch event, and no reflog event repeats a journal event. */
  lemma OneMovementOneEvent(journal: seq<ActivityEvent>, reflog: seq<ReflogEntry>, e: FeedEvent, other: FeedEvent)
    requires e in Attributed(journal, reflog) && other in Attributed(journal, reflog) && e.reflogRefKind.Some?
    ensures OnHead(e) && !OnHead(other) && other.reflogRefKind.Some? ==> !SameMovement(e.event, other.event, HEAD_MATCH_SLACK)
    ensures other.reflogRefKind.None? ==> !EchoOf(e, other.event)
  {
    FilterMembers(KeptBesideBranches(Coalesce(reflog)), Coalesce(reflog));
    FilterMembers(KeptBesideJournal(journal), DropHeadTwins(Coalesce(reflog)));
    NothingIsMadeUp(journal, reflog, other);
    var shown := Map(FromJournal, journal);
    assert forall x | x in shown :: x.reflogRefKind.None?;
    if other.reflogRefKind.None? && other in Coalesce(reflog) { CoalescedEventsAreReflogEvents(reflog, other); }
  }

  // ----- checkouts that stay put -----

  /** A checkout line between two refs stayed put exactly when they are the same: it is split at its last " to ", and a
      ref name holds no white space. */
  lemma SelfCheckoutIff(entry: ReflogEntry, from: string, target: string)
    requires entry.message == "checkout: moving from " + from + " to " + target
    requires target != "" && forall c | c in target :: !IsSpace(c)
    ensures MovedNothing(entry) <==> from == target
  {
    hide ParseReflogMessage, IsSelfCheckout, RFind, IsSpace;
    var rest := from + " to " + target;
    CheckoutText(from, target);
    CheckoutIsRead(entry.message, rest);
    LastTo(from, target);
  }

  lemma CheckoutText(from: string, target: string)
    requires target != ""
    ensures var rest, message := from + " to " + target, "checkout: moving from " + from + " to " + target;
            && message == "checkout: moving from " + rest
            && message[|message| - 1] == target[|target| - 1] && target[|target| - 1] in target
            && rest[..|from|] == from && rest[|from| + 4..] == target
  {
    Regroup("checkout: moving from ", from, " to ");
    Regroup("checkout: moving from ", from + " to ", target);
  }

  lemma {:induction false} CheckoutIsRead(message: string, rest: string)
    requires message == "checkout: moving from " + rest && rest != "" && !IsSpace(message[|message| - 1])
    ensures ParseReflogMessage(message).0 == Checkout
    ensures IsSelfCheckout(message) <==>
              var at := RFind(rest, " to "); at.Some? && rest[..at.value] == rest[at.value + 4..]
  {
    assert message[0] == 'c' && message[|"checkout: moving from "|..] == rest;
    TrimTrimmed(message);
    CheckoutLine(message, rest);
    hide Trim, RFind, ParseReflogMessage;
  }

  lemma {:induction false} CheckoutLine(message: string, rest: string)
    requires Trim(message) == "checkout: moving from " + rest
    ensures ParseReflogMessage(message)
         == (Checkout, var at := RFind(rest, " to "); if at.Some? then rest[..at.value] + " → " + rest[at.value + 4..] else rest)
  {
    hide Trim, RFind, IsRevertSubject;
    var msg := Trim(message);
    assert msg[0] == 'c' && msg[1] == 'h' && msg[|"checkout: moving from "|..] == rest;
    assert "commit:"[1] == 'o' && "commit (amend):"[1] == 'o' && "commit (initial):"[1] == 'o';
  }

  lemma {:induction false} LastTo(from: string, target: string)
    requires forall c | c in target :: !IsSpace(c)
    ensures RFind(from + " to " + target, " to ") == Some(|from|)
  {
    var rest := from + " to " + target;
    assert rest[|from|..|from| + 4] == " to ";
    forall k | k > |from| ensures !OccursAt(rest, " to ", k) { NoLaterTo(from, target, k); }
    RFindIsLast(rest, " to ", |from|);
  }

  lemma NoLaterTo(from: string, target: string, k: nat)
    requires k > |from| && forall c | c in target :: !IsSpace(c)
    ensures !OccursAt(from + " to " + target, " to ", k)
  {
    var rest := from + " to " + target;
    if k + 4 <= |rest| {
      assert rest[k..k + 4][3] == rest[k + 3] == target[k - 1 - |from|];
      assert target[k - 1 - |from|] in target;
    }
  }
}
