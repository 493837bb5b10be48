/** What holds of every assembled feed: its order, what the cap leaves out, and the undo hints it offers. */
module FeedLaws {
  import opened Basics
  import opened Sorting
  import opened Activity
  import opened Feed

  function AtTime(t: int): ActivityEvent -> bool { (e: ActivityEvent) => e.time == t }

  lemma {:induction false} MapTimes(journal: seq<ActivityEvent>, s: seq<ActivityEvent>)
    requires SortedBy(NewerFirst, s)
    ensures SortedBy(NewerFirst, Map(Resolved(journal), s))
  {
    var r := Map(Resolved(journal), s);
    forall i, j | 0 <= i < j < |r| ensures NewerFirst(r[i], r[j]) { assert NewerFirst(s[i], s[j]); }
  }

  /** The feed is newest first, and full up to its cap. */
  lemma FeedIsNewestFirst(journal: seq<ActivityEvent>, reflog: seq<ReflogEntry>, branches: map<string, string>,
                          remote: set<string>, limit: nat)
    ensures var feed, rows := Assembled(journal, reflog, branches, remote, limit), Rows(journal, reflog, branches, remote);
            && (forall i, j | 0 <= i < j < |feed| :: feed[i].time >= feed[j].time)
            && |feed| == if |rows| <= limit then |rows| else limit
  {
    var rows := Rows(journal, reflog, branches, remote);
    hide Rows, Sort;
    SortIsSortedPermutation(NewerFirst, rows);
    MapTimes(journal, Unresolved(journal, reflog, branches, remote, limit));
  }

  lemma CutSorted(sorted: seq<ActivityEvent>, n: nat)
    requires SortedBy(NewerFirst, sorted) && n <= |sorted|
    ensures forall k, l | k in sorted[..n] && l in sorted[n..] :: k.time >= l.time
  {
    forall k, l | k in sorted[..n] && l in sorted[n..] ensures k.time >= l.time {
      var i :| 0 <= i < n && sorted[i] == k;
      var j :| 0 <= j < |sorted| - n && sorted[n..][j] == l;
      assert NewerFirst(sorted[i], sorted[n + j]);
    }
  }

  /** The cap leaves out only rows no newer than any row it keeps, and every row is kept or left out. */
  lemma CapLeavesOutTheOldest(journal: seq<ActivityEvent>, reflog: seq<ReflogEntry>, branches: map<string, string>,
                              remote: set<string>, limit: nat) returns (left: seq<ActivityEvent>)
    ensures var kept, rows := Unresolved(journal, reflog, branches, remote, limit), Rows(journal, reflog, branches, remote);
            && multiset(kept + left) == multiset(rows)
            && forall k, l | k in kept && l in left :: k.time >= l.time
  {
    var rows := Rows(journal, reflog, branches, remote);
    hide Rows, Sort;
    SortIsSortedPermutation(NewerFirst, rows);
    var sorted := Sort(NewerFirst, rows);
    var n := if |sorted| <= limit then |sorted| else limit;
    CutSorted(sorted, n);
    left := sorted[n..];
    hide NewerFirst, SortedBy;
    assert Unresolved(journal, reflog, branches, remote, limit) == sorted[..n];
    assert sorted[..n] + left == sorted;
  }

  /** Events of one second keep the order they came in. */
  lemma SameSecondKeepsOrder(journal: seq<ActivityEvent>, reflog: seq<ReflogEntry>, branches: map<string, string>,
                             remote: set<string>, limit: nat, t: int)
    ensures Filter(AtTime(t), Unresolved(journal, reflog, branches, remote, limit))
         <= Filter(AtTime(t), Rows(journal, reflog, branches, remote))
  {
    var rows := Rows(journal, reflog, branches, remote);
    var sorted := Sort(NewerFirst, rows);
    SortIsStable(NewerFirst, AtTime(t), rows);
    if |sorted| > limit {
      assert sorted == sorted[..limit] + sorted[limit..];
      FilterConcat(AtTime(t), sorted[..limit], sorted[limit..]);
    }
  }

  /** What a hint may promise: a free name to restore, or a branch whose tip is exactly the one to be undone. */
  ghost predicate Current(e: ActivityEvent, branches: map<string, string>, remote: set<string>) {
    e.undo.Some? ==>
      match e.undo.value.action
      case RestoreBranch(name, tip) => name !in branches && e.refName == Some(name) && e.oldOid == Some(tip)
      case ResetBranch(branch, to, expected) =>
        && branch in branches && branches[branch] == expected && branch != "HEAD"
        && e.newOid == Some(expected) && e.oldOid == Some(to) && !AllZeros(to)
        && e.undo.value.warnPushed == (expected in remote)
      case RevertCommit(_) => false
  }

  lemma KeptRowIsARow(journal: seq<ActivityEvent>, reflog: seq<ReflogEntry>, branches: map<string, string>,
                      remote: set<string>, limit: nat, k: nat) returns (i: nat)
    requires k < |Unresolved(journal, reflog, branches, remote, limit)|
    ensures i < |Rows(journal, reflog, branches, remote)|
    ensures Unresolved(journal, reflog, branches, remote, limit)[k] == Rows(journal, reflog, branches, remote)[i]
  {
    var rows := Rows(journal, reflog, branches, remote);
    hide Rows;
    var sorted := Sort(NewerFirst, rows);
    SortIsSortedPermutation(NewerFirst, rows);
    assert sorted[k] in multiset(rows);
    i :| 0 <= i < |rows| && rows[i] == sorted[k];
  }

  /** Every hint in the feed is good against the branches as they are now, and no counted row carries one. */
  lemma HintsAreCurrent(journal: seq<ActivityEvent>, reflog: seq<ReflogEntry>, branches: map<string, string>,
                        remote: set<string>, limit: nat, k: nat)
    requires k < |Assembled(journal, reflog, branches, remote, limit)|
    ensures var row := Assembled(journal, reflog, branches, remote, limit)[k];
            Current(row, branches, remote) && (Foldable(row.kind) || row.refName.None? ==> row.undo.None?)
  {
    var i := KeptRowIsARow(journal, reflog, branches, remote, limit, k);
    var shown := Map(IntoActivity, FoldBursts(Attributed(journal, reflog), branches));
    assert Rows(journal, reflog, branches, remote)[i] == Hinted(branches, remote)(shown[i]);
    hide Rows, Unresolved, FoldBursts, Attributed, Map;
    HintIsCurrent(shown[i], branches, remote);
  }

  lemma HintIsCurrent(e: ActivityEvent, branches: map<string, string>, remote: set<string>)
    ensures Current(e.(undo := UndoHint(e, branches, remote)), branches, remote)
  {
  }
}
