/** What a whole run of the lane allocator guarantees. */
module LaneTheorems {
  import opened Basics
  import opened Sorting
  import opened Lanes

  // ----- the run -----

  /** Open and free lanes partition the lanes below the mark after every row. */
  lemma {:induction false} RunPartition(commits: seq<Commit>, i: nat)
    requires i <= |commits|
    ensures Partition(LanesOf(Run(commits, i).active), Run(commits, i).pool)
  {
    if i > 0 {
      RunPartition(commits, i - 1);
      StepPartition(Window(commits), commits[i - 1], Run(commits, i - 1));
    }
  }

  lemma {:induction false} LaneIsFinal(commits: seq<Commit>, i: nat, n: nat)
    requires i < n <= |commits|
    ensures Run(commits, n).laneOf[i] == Run(commits, i + 1).laneOf[i]
  {
    if i + 1 < n { LaneIsFinal(commits, i, n - 1); }
  }

  lemma {:induction false} NotForKeeps(active: seq<Waiting>, h: string, w: Waiting)
    ensures w in NotFor(active, h) <==> w in active && w.target != h
  {
    if active != [] { NotForKeeps(active[1..], h, w); }
  }

  lemma {:induction false} OldestIsWaiting(active: seq<Waiting>, h: string)
    ensures LanesFor(active, h) != [] ==> Waiting(LanesFor(active, h)[0], h) in active
    ensures LanesFor(active, h) == [] <==> h !in Targets(active)
  {
    if active != [] {
      OldestIsWaiting(active[1..], h);
      assert Targets(active) == [active[0].target] + Targets(active[1..]);
    }
  }

  /** A waiting lane survives every row but the one it waits for, and no such row is given that lane. */
  lemma Persists(commits: seq<Commit>, i: nat, w: Waiting)
    requires i < |commits| && w in Run(commits, i).active && w.target != commits[i].hash
    ensures w in Run(commits, i + 1).active
    ensures Run(commits, i + 1).laneOf[i] != w.lane
  {
    var st, c := Run(commits, i), commits[i];
    RunPartition(commits, i);
    SettlePartition(st.active, st.pool, c.hash);
    StepShape(Window(commits), c, st);
    NotForKeeps(st.active, c.hash, w);
    var rest := NotFor(st.active, c.hash);
    var k :| 0 <= k < |rest| && rest[k] == w;
    assert LanesOf(rest)[k] == w.lane;
    var mine := Settle(st.active, st.pool, c.hash).0;
    var pool := Settle(st.active, st.pool, c.hash).1;
    assert multiset(LanesOf(rest) + [mine])[mine] + multiset(pool.free)[mine] <= 1;
    assert w.lane in LanesOf(rest);
  }

  lemma {:induction false} PersistsUntil(commits: seq<Commit>, i: nat, m: nat, w: Waiting)
    requires i <= m < |commits| && w in Run(commits, i).active
    requires forall r | i <= r <= m :: commits[r].hash != w.target
    ensures w in Run(commits, m + 1).active
    ensures LaneOf(commits)[m] != w.lane
  {
    if i < m { PersistsUntil(commits, i, m - 1, w); }
    Persists(commits, m, w);
    LaneIsFinal(commits, m, |commits|);
  }

  /** Seniority survives: the oldest lane waiting for `h` stays the oldest until `h` is reached. */
  lemma {:induction false} SeniorityPersists(commits: seq<Commit>, i: nat, m: nat, h: string)
    requires i <= m <= |commits|
    requires OldestLane(Run(commits, i).active, h).Some?
    requires forall r | i <= r < m :: commits[r].hash != h
    ensures OldestLane(Run(commits, m).active, h) == OldestLane(Run(commits, i).active, h)
  {
    hide Run, Opened, LanesFor, Window;
    if i < m {
      SeniorityPersists(commits, i, m - 1, h);
      OldestAfterRow(commits, m - 1, h);
    }
  }

  lemma OldestAfterRow(commits: seq<Commit>, i: nat, h: string)
    requires i < |commits| && commits[i].hash != h
    ensures var st, window := Run(commits, i), Window(commits);
            LanesFor(Run(commits, i + 1).active, h)
              == LanesFor(st.active, h)
               + (if commits[i].parents != [] && commits[i].parents[0] == h
                  then [Run(commits, i + 1).laneOf[i]] else [])
               + LanesFor(Opened(window, commits[i], st), h)
  {
    var st, c := Run(commits, i), commits[i];
    StepShape(Window(commits), c, st);
    LanesForConcat(Onward(Window(commits), c, st), Opened(Window(commits), c, st), h);
    NotForElsewhere(st.active, h, c.hash);
    if c.parents != [] {
      LanesForConcat(NotFor(st.active, c.hash), [Waiting(Settle(st.active, st.pool, c.hash).0, c.parents[0])], h);
    }
  }

  // ----- exclusivity -----

  /** From a row to its first parent the lane is the row's alone; if the parent never comes, for good. */
  lemma FirstParentLaneExclusive(commits: seq<Commit>, i: nat, m: nat)
    requires i < m < |commits| && commits[i].parents != []
    requires forall r | i < r <= m :: commits[r].hash != commits[i].parents[0]
    ensures LaneOf(commits)[m] != LaneOf(commits)[i]
  {
    var st, c := Run(commits, i), commits[i];
    StepShape(Window(commits), c, st);
    var w := Waiting(Settle(st.active, st.pool, c.hash).0, c.parents[0]);
    var onward := Onward(Window(commits), c, st);
    assert onward[|onward| - 1] == w;
    LaneIsFinal(commits, i, |commits|);
    PersistsUntil(commits, i + 1, m, w);
  }

  // ----- who is waited for -----

  ghost predicate Reached(commits: seq<Commit>, h: string, i: nat)
    requires i <= |commits|
  {
    exists r | 0 <= r < i :: commits[r].hash == h
  }

  ghost predicate HasChildAbove(commits: seq<Commit>, h: string, i: nat)
    requires i <= |commits|
  {
    exists k | 0 <= k < i :: h in commits[k].parents
  }

  /** `e` is the earliest row that lists row `j` as a parent. */
  ghost predicate EarliestChild(commits: seq<Commit>, e: nat, j: nat)
    requires e < |commits| && j < |commits|
  {
    commits[j].hash in commits[e].parents && !HasChildAbove(commits, commits[j].hash, e)
  }

  lemma InWindow(commits: seq<Commit>, h: string)
    ensures h in Window(commits) <==> exists j | 0 <= j < |commits| :: commits[j].hash == h
  {
  }

  /** How often the commit lists `h` as an extra parent; never, if `h` is its first parent. */
  function Listings(c: Commit, h: string): nat {
    if c.parents == [] || c.parents[0] == h then 0 else multiset(c.parents[1..])[h]
  }

  /** A row opens no two lanes for one commit: nothing not yet headed for is listed twice as an extra parent. */
  ghost predicate RowOpensOnce(commits: seq<Commit>, i: nat)
    requires i < |commits|
  {
    forall h | h in Window(commits) && !HasChildAbove(commits, h, i) :: Listings(commits[i], h) <= 1
  }

  /** So do the first `n` rows. */
  ghost predicate OpensOnce(commits: seq<Commit>, n: nat) {
    n <= |commits| && forall i | 0 <= i < n :: RowOpensOnce(commits, i)
  }

  lemma ListedIsParent(c: Commit, h: string)
    ensures h in c.parents <==> c.parents != [] && (c.parents[0] == h || Listings(c, h) > 0)
  {
    if c.parents != [] { assert c.parents == [c.parents[0]] + c.parents[1..]; }
  }

  /** Which targets a row opens lanes for: those nothing heads for yet, one lane per listing. */
  lemma {:induction false} OpenedFor(commits: seq<Commit>, i: nat, h: string)
    requires i < |commits| && commits[i].hash != h
    ensures var c, st := commits[i], Run(commits, i);
            |LanesFor(Opened(Window(commits), c, st), h)|
              == if h in Window(commits) && LanesFor(st.active, h) == [] then Listings(c, h) else 0
  {
    var c, st := commits[i], Run(commits, i);
    var added := Opened(Window(commits), c, st);
    LanesForCounts(added, h);
    if c.parents != [] {
      var onward := Onward(Window(commits), c, st);
      var tracked := Elements(Targets(onward));
      var keep := (p: string) => p in Window(commits) && p !in tracked;
      OpenTargets(c.parents[1..], Settle(st.active, st.pool, c.hash).1, Window(commits), tracked);
      FilterCount(keep, c.parents[1..], h);
      OldestIsWaiting(onward, h);
      LanesForConcat(NotFor(st.active, c.hash), [Waiting(Settle(st.active, st.pool, c.hash).0, c.parents[0])], h);
      NotForElsewhere(st.active, h, c.hash);
      assert h in tracked <==> h in Targets(onward);
    }
  }

  /** Only parents of earlier rows are waited for, and never a row already drawn. */
  lemma {:induction false} WaitsForParents(commits: seq<Commit>, i: nat, h: string)
    requires Readable(commits) && i <= |commits|
    requires LanesFor(Run(commits, i).active, h) != []
    ensures HasChildAbove(commits, h, i) && !Reached(commits, h, i)
  {
    if i > 0 {
      var c, st := commits[i - 1], Run(commits, i - 1);
      hide *;
      if h == c.hash {
        NothingWaitsForItself(commits, i - 1);
      } else {
        OldestAfterRow(commits, i - 1, h);
        OpenedFor(commits, i - 1, h);
        ListedIsParent(c, h);
        if LanesFor(st.active, h) != [] { WaitsForParents(commits, i - 1, h); }
        StillAhead(commits, i - 1, h);
      }
    }
  }

  lemma StillAhead(commits: seq<Commit>, i: nat, h: string)
    requires i < |commits| && h != commits[i].hash
    requires (HasChildAbove(commits, h, i) && !Reached(commits, h, i)) || (Readable(commits) && h in commits[i].parents)
    ensures HasChildAbove(commits, h, i + 1) && !Reached(commits, h, i + 1)
  {
  }

  /** After its own row nothing waits for a commit. */
  lemma {:induction false} NothingWaitsForItself(commits: seq<Commit>, i: nat)
    requires Readable(commits) && i < |commits|
    ensures LanesFor(Run(commits, i + 1).active, commits[i].hash) == []
  {
    var c, st := commits[i], Run(commits, i);
    var h := c.hash;
    StepShape(Window(commits), c, st);
    var onward := Onward(Window(commits), c, st);
    var added := Opened(Window(commits), c, st);
    LanesForConcat(onward, added, h);
    NotForElsewhere(st.active, h, h);
    if c.parents != [] {
      LanesForConcat(NotFor(st.active, h), [Waiting(Settle(st.active, st.pool, h).0, c.parents[0])], h);
      var tracked := Elements(Targets(onward));
      OpenTargets(c.parents[1..], Settle(st.active, st.pool, h).1, Window(commits), tracked);
      FilterMembers((p: string) => p in Window(commits) && p !in tracked, c.parents[1..]);
      OldestIsWaiting(added, h);
      assert h !in c.parents;
      assert forall p | p in c.parents[1..] :: p in c.parents;
    }
  }

  /** Right below its earliest child one lane heads for a commit, the child's own, or one just opened per listing. */
  lemma EarliestChildStartsTheLine(commits: seq<Commit>, e: nat, j: nat)
    requires Readable(commits) && e < |commits| && j < |commits| && EarliestChild(commits, e, j)
    ensures |LanesFor(Run(commits, e + 1).active, commits[j].hash)|
              == if commits[j].hash == commits[e].parents[0] then 1 else Listings(commits[e], commits[j].hash)
    ensures LanesFor(Run(commits, e + 1).active, commits[j].hash) != []
    ensures commits[j].hash == commits[e].parents[0] ==>
              OldestLane(Run(commits, e + 1).active, commits[j].hash) == Some(Run(commits, e + 1).laneOf[e])
  {
    var h := commits[j].hash;
    if LanesFor(Run(commits, e).active, h) != [] { WaitsForParents(commits, e, h); }
    OldestAfterRow(commits, e, h);
    OpenedFor(commits, e, h);
    ListedIsParent(commits[e], h);
    InWindow(commits, h);
  }

  /** The lane opened for, or continued to, a commit by its earliest child is the one it gets. */
  lemma {:induction false} ChildLaneIsInherited(commits: seq<Commit>, e: nat, j: nat, m: nat)
    requires Readable(commits) && e < m <= j < |commits| && EarliestChild(commits, e, j)
    ensures OldestLane(Run(commits, m).active, commits[j].hash) == Some(LaneOf(commits)[j])
    ensures commits[j].hash == commits[e].parents[0] ==> LaneOf(commits)[j] == LaneOf(commits)[e]
  {
    EarliestChildStartsTheLine(commits, e, j);
    SeniorityPersists(commits, e + 1, j, commits[j].hash);
    SeniorityPersists(commits, e + 1, m, commits[j].hash);
    LaneIsFinal(commits, j, |commits|);
    LaneIsFinal(commits, e, |commits|);
  }

  /** From the row that opens it to the parent it leads to, an extra parent's lane is given to no row. */
  lemma ExtraParentLaneExclusive(commits: seq<Commit>, e: nat, j: nat, m: nat)
    requires Readable(commits) && e < |commits| && j < |commits| && EarliestChild(commits, e, j)
    requires commits[j].hash != commits[e].parents[0]
    requires e <= m < j
    ensures LaneOf(commits)[m] != LaneOf(commits)[j]
  {
    var h := commits[j].hash;
    ChildLaneIsInherited(commits, e, j, if m == e then e + 1 else m);
    if m == e {
      LaneIsFinal(commits, e, |commits|);
      OwnLaneLeadsToFirstParent(commits, e, h);
    } else {
      OldestIsWaiting(Run(commits, m).active, h);
      PersistsUntil(commits, m, m, Waiting(LaneOf(commits)[j], h));
    }
  }

  /** After a row its own lane waits for the first parent and for nothing else. */
  lemma OwnLaneLeadsToFirstParent(commits: seq<Commit>, e: nat, h: string)
    requires e < |commits| && commits[e].parents != [] && h != commits[e].parents[0]
    ensures OldestLane(Run(commits, e + 1).active, h) != Some(Run(commits, e + 1).laneOf[e])
  {
    var c, st, st' := commits[e], Run(commits, e), Run(commits, e + 1);
    StepShape(Window(commits), c, st);
    var mine := st'.laneOf[e];
    var rest := NotFor(st.active, c.hash);
    var a := st'.active;
    assert a[|rest|] == Waiting(mine, c.parents[0]);
    OldestIsWaiting(a, h);
    RunPartition(commits, e + 1);
    assert multiset(LanesOf(a))[mine] + multiset(st'.pool.free)[mine] <= 1;
    if OldestLane(a, h) == Some(mine) {
      var k :| 0 <= k < |a| && a[k] == Waiting(mine, h);
      TwiceInSeq(LanesOf(a), |rest|, k);
    }
  }

  lemma TwiceInSeq(s: seq<nat>, a: nat, b: nat)
    requires a < |s| && b < |s| && a != b && s[a] == s[b]
    ensures multiset(s)[s[a]] >= 2
  {
    var lo, hi := if a < b then a else b, if a < b then b else a;
    assert s == s[..lo] + [s[lo]] + s[lo + 1..hi] + [s[hi]] + s[hi + 1..];
  }

  // ----- the free list -----

  /** How many rows had been drawn when a free lane was last given back. */
  ghost function FreeSince(commits: seq<Commit>, i: nat, l: nat): (rows: nat)
    requires i <= |commits|
    ensures rows <= i
  {
    if i == 0 then 0
    else if l in Run(commits, i - 1).pool.free && l != Run(commits, i).laneOf[i - 1] then FreeSince(commits, i - 1, l)
    else i
  }

  ghost predicate FirstGivenBackFirst(commits: seq<Commit>, i: nat)
    requires i <= |commits|
  {
    var free := Run(commits, i).pool.free;
    forall a, b | 0 <= a < b < |free| :: FreeSince(commits, i, free[a]) <= FreeSince(commits, i, free[b])
  }

  /** The free list is in the order in which its lanes were given back. */
  lemma {:induction false} FreeListIsInOrder(commits: seq<Commit>, i: nat)
    requires i <= |commits|
    ensures FirstGivenBackFirst(commits, i)
  {
    hide FirstGivenBackFirst, Run;
    if i > 0 {
      FreeListIsInOrder(commits, i - 1);
      var c, st := commits[i - 1], Run(commits, i - 1);
      var taken := FreeListIsAQueue(Window(commits), c, st);
      RowQueues(commits, i - 1);
      OrderIsKept(commits, i - 1, taken);
    } else {
      NothingIsFreeYet(commits);
    }
  }

  lemma NothingIsFreeYet(commits: seq<Commit>)
    ensures FirstGivenBackFirst(commits, 0)
  {
  }

  lemma RowQueues(commits: seq<Commit>, i: nat)
    requires i < |commits|
    ensures Run(commits, i + 1) == Step(Window(commits), commits[i], Run(commits, i))
  {
  }

  lemma OrderIsKept(commits: seq<Commit>, i: nat, taken: nat)
    requires i < |commits| && FirstGivenBackFirst(commits, i)
    requires var st := Run(commits, i);
             && taken <= |st.pool.free + Released(commits[i], st)|
             && Run(commits, i + 1).pool.free == (st.pool.free + Released(commits[i], st))[taken..]
             && (LanesFor(st.active, commits[i].hash) == [] && st.pool.free != [] ==> taken > 0)
    ensures FirstGivenBackFirst(commits, i + 1)
  {
    hide Run, FreeSince, Released, LanesFor;
    var after := Run(commits, i + 1).pool.free;
    forall a, b | 0 <= a < b < |after| ensures FreeSince(commits, i + 1, after[a]) <= FreeSince(commits, i + 1, after[b]) {
      NextInOrder(commits, i, taken, a, b);
    }
  }

  lemma NextInOrder(commits: seq<Commit>, i: nat, taken: nat, a: nat, b: nat)
    requires i < |commits| && FirstGivenBackFirst(commits, i)
    requires var st := Run(commits, i);
             && taken <= |st.pool.free + Released(commits[i], st)|
             && Run(commits, i + 1).pool.free == (st.pool.free + Released(commits[i], st))[taken..]
             && (LanesFor(st.active, commits[i].hash) == [] && st.pool.free != [] ==> taken > 0)
    requires a < b < |Run(commits, i + 1).pool.free|
    ensures var after := Run(commits, i + 1).pool.free;
            FreeSince(commits, i + 1, after[a]) <= FreeSince(commits, i + 1, after[b])
  {
    hide Run, FreeSince, Released, LanesFor;
    var before := Run(commits, i).pool.free;
    if taken + b >= |before| {
      GivenBackJustNow(commits, i, taken + b - |before|);
    } else {
      StillFree(commits, i, taken, taken + a);
      StillFree(commits, i, taken, taken + b);
    }
  }

  lemma {:induction false} GivenBackJustNow(commits: seq<Commit>, i: nat, k: nat)
    requires i < |commits| && k < |Released(commits[i], Run(commits, i))|
    ensures FreeSince(commits, i + 1, Released(commits[i], Run(commits, i))[k]) == i + 1
  {
    var c, st := commits[i], Run(commits, i);
    var ms, l := LanesFor(st.active, c.hash), Released(c, st)[k];
    RunPartition(commits, i);
    if ms != [] && k < |ms| - 1 {
      LanesForCounts(st.active, c.hash);
      assert l in ms;
      assert l in LanesOf(st.active);
      assert multiset(LanesOf(st.active))[l] + multiset(st.pool.free)[l] <= 1;
    } else {
      assert l == Run(commits, i + 1).laneOf[i];
    }
  }

  /** A lane left in the queue was not the row's own. */
  lemma StillFree(commits: seq<Commit>, i: nat, taken: nat, k: nat)
    requires i < |commits|
    requires var free := Run(commits, i).pool.free + Released(commits[i], Run(commits, i));
             taken <= k < |Run(commits, i).pool.free| && taken <= |free| && Run(commits, i + 1).pool.free == free[taken..]
    requires LanesFor(Run(commits, i).active, commits[i].hash) == [] ==> taken > 0
    ensures FreeSince(commits, i + 1, Run(commits, i).pool.free[k]) == FreeSince(commits, i, Run(commits, i).pool.free[k])
  {
    var c, st := commits[i], Run(commits, i);
    var free, l := st.pool.free, st.pool.free[k];
    assert l in free;
    RunPartition(commits, i);
    if l == Run(commits, i + 1).laneOf[i] {
      FreeIsNotWaiting(commits, i, l);
      assert l == free[0];
      TwiceInSeq(free, 0, k);
    }
  }

  lemma {:induction false} FreeIsNotWaiting(commits: seq<Commit>, i: nat, l: nat)
    requires i < |commits| && l in Run(commits, i).pool.free
    ensures l !in LanesFor(Run(commits, i).active, commits[i].hash)
  {
    var st := Run(commits, i);
    RunPartition(commits, i);
    LanesForCounts(st.active, commits[i].hash);
    assert multiset(LanesOf(st.active))[l] + multiset(st.pool.free)[l] <= 1;
  }

  /** A tip opens the longest-free lane, and a new column only when none is free. */
  lemma {:induction false} TipTakesAFreeLane(commits: seq<Commit>, j: nat)
    requires Readable(commits) && j < |commits| && !HasChildAbove(commits, commits[j].hash, j)
    ensures var pool := Run(commits, j).pool;
            if pool.free == [] then LaneOf(commits)[j] == pool.next
            else LaneOf(commits)[j] in pool.free
                 && forall l | l in pool.free :: FreeSince(commits, j, LaneOf(commits)[j]) <= FreeSince(commits, j, l)
    ensures var pool := Run(commits, j).pool; pool.free != [] ==> LaneOf(commits)[j] == pool.free[0]
  {
    FreeListIsInOrder(commits, j);
    if LanesFor(Run(commits, j).active, commits[j].hash) != [] {
      WaitsForParents(commits, j, commits[j].hash);
    }
    LaneIsFinal(commits, j, |commits|);
  }

  // ----- no blank column -----

  /** Every lane below the mark is some drawn row's, or is the one a later row will take. */
  ghost predicate Covered(commits: seq<Commit>, i: nat, l: nat)
    requires i <= |commits|
  {
    || l in Run(commits, i).laneOf
    || exists j | i <= j < |commits| :: OldestLane(Run(commits, i).active, commits[j].hash) == Some(l)
  }

  lemma {:induction false} LanesAreCovered(commits: seq<Commit>, i: nat, l: nat)
    requires Readable(commits) && OpensOnce(commits, i) && l < Run(commits, i).pool.next
    ensures Covered(commits, i, l)
  {
    if i > 0 {
      hide Covered, Step;
      if l < Run(commits, i - 1).pool.next {
        LanesAreCovered(commits, i - 1, l);
        CoverageSurvives(commits, i - 1, l);
      } else {
        NewLanesAreCovered(commits, i - 1, l);
      }
    }
  }

  lemma RowTakesOldest(commits: seq<Commit>, i: nat)
    requires i < |commits|
    ensures var oldest := OldestLane(Run(commits, i).active, commits[i].hash);
            oldest.Some? ==> oldest.value in Run(commits, i + 1).laneOf
    ensures Run(commits, i + 1).laneOf[..i] == Run(commits, i).laneOf
  {
    var laneOf := Run(commits, i + 1).laneOf;
    assert laneOf[i] in laneOf;
  }

  lemma CoverageSurvives(commits: seq<Commit>, i: nat, l: nat)
    requires Readable(commits) && i < |commits| && Covered(commits, i, l)
    ensures Covered(commits, i + 1, l)
  {
    hide Run;
    RowTakesOldest(commits, i);
    if l !in Run(commits, i).laneOf {
      var j :| i <= j < |commits| && OldestLane(Run(commits, i).active, commits[j].hash) == Some(l);
      if j > i {
        SeniorityPersists(commits, i, i + 1, commits[j].hash);
        assert OldestLane(Run(commits, i + 1).active, commits[j].hash) == Some(l);
      }
    }
  }

  lemma NewLanesAreCovered(commits: seq<Commit>, i: nat, l: nat)
    requires Readable(commits) && i < |commits| && RowOpensOnce(commits, i)
    requires Run(commits, i).pool.next <= l < Run(commits, i + 1).pool.next
    ensures Covered(commits, i + 1, l)
  {
    RunPartition(commits, i);
    StepPartition(Window(commits), commits[i], Run(commits, i));
    hide Step, Opened;
    if l == Run(commits, i + 1).laneOf[i] {
    } else {
      NewLaneIsAwaited(commits, i, l);
    }
  }

  lemma {:induction false} NewLaneIsAwaited(commits: seq<Commit>, i: nat, l: nat)
    requires Readable(commits) && i < |commits| && RowOpensOnce(commits, i)
    requires l in LanesOf(Opened(Window(commits), commits[i], Run(commits, i)))
    ensures Covered(commits, i + 1, l)
  {
    hide Run, Opened, LanesFor, Covered;
    var added := Opened(Window(commits), commits[i], Run(commits, i));
    var k :| 0 <= k < |added| && LanesOf(added)[k] == l;
    var h := added[k].target;
    EntryIsListed(added, k);
    NewLinesAreParents(commits, i, h);
    OpenedFor(commits, i, h);
    OpenedHasNoChildAbove(commits, i, h);
    assert LanesFor(added, h) == [l];
    OldestAfterRow(commits, i, h);
    assert LanesFor(Run(commits, i + 1).active, h) == [l];
    OnlyLaneIsCovered(commits, i + 1, h, l);
  }

  lemma {:induction false} OnlyLaneIsCovered(commits: seq<Commit>, i: nat, h: string, l: nat)
    requires i <= |commits| && h in Window(commits) && !Reached(commits, h, i)
    requires LanesFor(Run(commits, i).active, h) == [l]
    ensures Covered(commits, i, l)
  {
    hide Run, LanesFor;
    InWindow(commits, h);
    var j :| 0 <= j < |commits| && commits[j].hash == h;
    assert OldestLane(Run(commits, i).active, commits[j].hash) == Some(l);
  }

  /** A lane is opened only for a commit no earlier row lists. */
  lemma {:induction false} OpenedHasNoChildAbove(commits: seq<Commit>, i: nat, h: string)
    requires Readable(commits) && i < |commits| && h in Window(commits) && h in commits[i].parents
    requires LanesFor(Run(commits, i).active, h) == []
    ensures !HasChildAbove(commits, h, i) && !Reached(commits, h, i + 1)
  {
    hide Run, LanesFor;
    DemandIsMet(commits, i, h);
    if HasChildAbove(commits, h, i) { ChildIsHeadedFor(commits, i, h); }
  }

  lemma {:induction false} NewLinesAreParents(commits: seq<Commit>, i: nat, h: string)
    requires Readable(commits) && i < |commits|
    requires LanesFor(Opened(Window(commits), commits[i], Run(commits, i)), h) != []
    ensures h in commits[i].parents && h != commits[i].hash
  {
    var c, st := commits[i], Run(commits, i);
    OldestIsWaiting(Opened(Window(commits), c, st), h);
    var tracked := Elements(Targets(Onward(Window(commits), c, st)));
    OpenTargets(c.parents[1..], Settle(st.active, st.pool, c.hash).1, Window(commits), tracked);
    FilterMembers((p: string) => p in Window(commits) && p !in tracked, c.parents[1..]);
    assert forall p | p in c.parents[1..] :: p in c.parents;
  }

  lemma {:induction false} EntryIsListed(active: seq<Waiting>, k: nat)
    requires k < |active|
    ensures active[k].lane in LanesFor(active, active[k].target)
  {
    if k > 0 { EntryIsListed(active[1..], k - 1); }
  }

  // ----- the peak -----

  /** First parents of the first `k` rows that are not among the first `i` rows: one line each. */
  ghost function PendingFirst(commits: seq<Commit>, k: nat, i: nat): seq<string>
    requires k <= |commits| && i <= |commits|
  {
    if k == 0 then []
    else
      var c, before := commits[k - 1], PendingFirst(commits, k - 1, i);
      if c.parents != [] && !Reached(commits, c.parents[0], i) then before + [c.parents[0]] else before
  }

  /** Row `j` already has a child above row `i`, and the earliest one lists it only as an extra parent. */
  ghost predicate ExtraLine(commits: seq<Commit>, j: nat, i: nat)
    requires i <= |commits| && j < |commits|
  {
    exists e | 0 <= e < i :: EarliestChild(commits, e, j) && commits[e].parents[0] != commits[j].hash
  }

  /** Rows from `k` on that an extra line is heading for. */
  ghost function PendingExtra(commits: seq<Commit>, k: nat, i: nat): seq<string>
    requires k <= |commits| && i <= |commits|
    decreases |commits| - k
  {
    if k == |commits| then []
    else
      var after := PendingExtra(commits, k + 1, i);
      if ExtraLine(commits, k, i) then [commits[k].hash] + after else after
  }

  /** The lines crossing the graph while row `i` is drawn, counted from the history alone. */
  ghost function LinesAt(commits: seq<Commit>, i: nat): nat
    requires i < |commits|
  {
    |PendingFirst(commits, i + 1, i + 1)| + |PendingExtra(commits, i + 1, i + 1)|
      + if commits[i].parents == [] then 1 else 0
  }

  ghost function Max(a: nat, b: nat): nat { if a < b then b else a }

  ghost function PeakLines(commits: seq<Commit>, n: nat): nat
    requires n <= |commits|
  {
    if n == 0 then 0 else Max(PeakLines(commits, n - 1), LinesAt(commits, n - 1))
  }

  ghost function FirstChildren(commits: seq<Commit>, k: nat, h: string): nat
    requires k <= |commits|
  {
    if k == 0 then 0
    else
      var listed := commits[k - 1].parents != [] && commits[k - 1].parents[0] == h;
      FirstChildren(commits, k - 1, h) + (if listed then 1 else 0)
  }

  lemma {:induction false} PendingFirstCounts(commits: seq<Commit>, k: nat, i: nat, h: string)
    requires k <= |commits| && i <= |commits|
    ensures multiset(PendingFirst(commits, k, i))[h] == if Reached(commits, h, i) then 0 else FirstChildren(commits, k, h)
  {
    if k > 0 { PendingFirstCounts(commits, k - 1, i, h); }
  }

  ghost predicate ExtraTo(commits: seq<Commit>, k: nat, i: nat, h: string)
    requires k <= |commits| && i <= |commits|
  {
    exists j | k <= j < |commits| :: commits[j].hash == h && ExtraLine(commits, j, i)
  }

  lemma {:induction false} PendingExtraCounts(commits: seq<Commit>, k: nat, i: nat, h: string)
    requires Readable(commits) && k <= |commits| && i <= |commits|
    ensures multiset(PendingExtra(commits, k, i))[h] == if ExtraTo(commits, k, i, h) then 1 else 0
    decreases |commits| - k
  {
    if k < |commits| {
      PendingExtraCounts(commits, k + 1, i, h);
      assert ExtraTo(commits, k, i, h) <==>
             ExtraTo(commits, k + 1, i, h) || (commits[k].hash == h && ExtraLine(commits, k, i));
    }
  }

  /** The lanes its earliest child among the first `k` rows has opened for `h`. */
  ghost function ExtraLanes(commits: seq<Commit>, k: nat, h: string): nat
    requires k <= |commits|
  {
    if k == 0 then 0
    else if h in Window(commits) && !HasChildAbove(commits, h, k - 1) then Listings(commits[k - 1], h)
    else ExtraLanes(commits, k - 1, h)
  }

  /** How many lanes wait for `h`, read off the history. */
  ghost function Demand(commits: seq<Commit>, i: nat, h: string): nat
    requires i <= |commits|
  {
    if Reached(commits, h, i) then 0 else FirstChildren(commits, i, h) + ExtraLanes(commits, i, h)
  }

  lemma {:induction false} DemandIsMet(commits: seq<Commit>, i: nat, h: string)
    requires Readable(commits) && i <= |commits|
    ensures |LanesFor(Run(commits, i).active, h)| == Demand(commits, i, h)
  {
    hide *;
    if i == 0 {
      NothingIsWaitedForYet(commits, h);
    } else if commits[i - 1].hash == h {
      NothingWaitsForItself(commits, i - 1);
      DrawnIsReached(commits, i - 1);
    } else if Reached(commits, h, i) {
      if LanesFor(Run(commits, i).active, h) != [] { WaitsForParents(commits, i, h); }
    } else {
      DemandIsMet(commits, i - 1, h);
      DemandMetAfterRow(commits, i - 1, h);
    }
    ReachedNeedsNothing(commits, i, h);
  }

  lemma {:induction false} NothingIsWaitedForYet(commits: seq<Commit>, h: string)
    ensures LanesFor(Run(commits, 0).active, h) == [] && Demand(commits, 0, h) == 0
  {
  }

  lemma DrawnIsReached(commits: seq<Commit>, i: nat)
    requires i < |commits|
    ensures Reached(commits, commits[i].hash, i + 1)
  {
  }

  lemma ReachedNeedsNothing(commits: seq<Commit>, i: nat, h: string)
    requires i <= |commits|
    ensures Reached(commits, h, i) ==> Demand(commits, i, h) == 0
  {
  }

  lemma DemandMetAfterRow(commits: seq<Commit>, i: nat, h: string)
    requires Readable(commits) && i < |commits| && !Reached(commits, h, i + 1)
    requires |LanesFor(Run(commits, i).active, h)| == Demand(commits, i, h)
    ensures |LanesFor(Run(commits, i + 1).active, h)| == Demand(commits, i + 1, h)
  {
    hide Demand, Run, Opened;
    assert commits[i].hash != h;
    OldestAfterRow(commits, i, h);
    OpenedFor(commits, i, h);
    DemandStep(commits, i, h);
  }

  /** How the demand for a commit not yet drawn changes over one row. */
  lemma DemandStep(commits: seq<Commit>, i: nat, h: string)
    requires i < |commits| && !Reached(commits, h, i + 1)
    ensures var ps := commits[i].parents;
            Demand(commits, i + 1, h) == Demand(commits, i, h)
              + (if ps != [] && ps[0] == h then 1 else 0)
              + (if h in Window(commits) && Demand(commits, i, h) == 0 then Listings(commits[i], h) else 0)
  {
    assert !Reached(commits, h, i);
    if HasChildAbove(commits, h, i) {
      if h in Window(commits) { ChildIsHeadedFor(commits, i, h); }
    } else {
      NoChildNoLane(commits, i, h);
    }
  }

  lemma {:induction false} ChildIsHeadedFor(commits: seq<Commit>, k: nat, h: string)
    requires k <= |commits| && h in Window(commits) && HasChildAbove(commits, h, k)
    ensures FirstChildren(commits, k, h) + ExtraLanes(commits, k, h) > 0
  {
    if HasChildAbove(commits, h, k - 1) {
      ChildIsHeadedFor(commits, k - 1, h);
    } else {
      ListedIsParent(commits[k - 1], h);
    }
  }

  lemma {:induction false} NoChildNoLane(commits: seq<Commit>, k: nat, h: string)
    requires k <= |commits| && !HasChildAbove(commits, h, k)
    ensures FirstChildren(commits, k, h) == 0 && ExtraLanes(commits, k, h) == 0
  {
    if k > 0 {
      NoChildNoLane(commits, k - 1, h);
      ListedIsParent(commits[k - 1], h);
    }
  }

  /** A commit not yet drawn has an extra line exactly when its earliest child opened a lane for it. */
  lemma {:induction false} ExtraLineIsLane(commits: seq<Commit>, j: nat, i: nat)
    requires i <= |commits| && j < |commits|
    ensures ExtraLine(commits, j, i) <==> ExtraLanes(commits, i, commits[j].hash) > 0
  {
    if i > 0 {
      var h := commits[j].hash;
      InWindow(commits, h);
      ExtraLineIsLane(commits, j, i - 1);
      ListedIsParent(commits[i - 1], h);
      if !HasChildAbove(commits, h, i - 1) { NoChildNoLane(commits, i - 1, h); }
      assert ExtraLine(commits, j, i) <==>
             ExtraLine(commits, j, i - 1) || (EarliestChild(commits, i - 1, j) && commits[i - 1].parents[0] != h);
    }
  }

  /** How many lines cross to `h`: one per first child, and one more if it has an extra line. */
  ghost function LinesTo(commits: seq<Commit>, i: nat, h: string): nat
    requires i <= |commits|
  {
    if Reached(commits, h, i) then 0
    else FirstChildren(commits, i, h) + if ExtraLanes(commits, i, h) > 0 then 1 else 0
  }

  lemma {:induction false} LinesCount(commits: seq<Commit>, i: nat, h: string)
    requires Readable(commits) && i <= |commits|
    ensures multiset(PendingFirst(commits, i, i) + PendingExtra(commits, i, i))[h] == LinesTo(commits, i, h)
  {
    PendingFirstCounts(commits, i, i, h);
    PendingExtraCounts(commits, i, i, h);
    InWindow(commits, h);
    if h in Window(commits) {
      var j :| 0 <= j < |commits| && commits[j].hash == h;
      ExtraLineIsLane(commits, j, i);
      assert Reached(commits, h, i) <==> j < i;
      assert ExtraTo(commits, i, i, h) <==> j >= i && ExtraLine(commits, j, i);
    } else {
      OutsideNoLane(commits, i, h);
    }
  }

  lemma {:induction false} OutsideNoLane(commits: seq<Commit>, k: nat, h: string)
    requires k <= |commits| && h !in Window(commits)
    ensures ExtraLanes(commits, k, h) == 0
  {
    if k > 0 { OutsideNoLane(commits, k - 1, h); }
  }

  /** No commit still to come was given two lanes by its earliest child. */
  ghost predicate NoDoubledLane(commits: seq<Commit>, i: nat)
    requires i <= |commits|
  {
    forall h: string | !Reached(commits, h, i) :: ExtraLanes(commits, i, h) <= 1
  }

  /** The table never holds fewer lanes than lines cross, and as many exactly when no lane is doubled there. */
  lemma {:induction false} OccupiedIsLinesHere(commits: seq<Commit>, i: nat)
    requires Readable(commits) && i < |commits|
    ensures Occupied(commits[i], Run(commits, i + 1)) >= LinesAt(commits, i)
    ensures Occupied(commits[i], Run(commits, i + 1)) == LinesAt(commits, i) <==> NoDoubledLane(commits, i + 1)
  {
    hide Run, PendingFirst, PendingExtra, NoDoubledLane;
    CompareTable(commits, i + 1);
  }

  lemma {:induction false} CompareTable(commits: seq<Commit>, i: nat)
    requires Readable(commits) && i <= |commits|
    ensures var size := |PendingFirst(commits, i, i)| + |PendingExtra(commits, i, i)|;
            && size <= |Run(commits, i).active|
            && (size == |Run(commits, i).active| <==> NoDoubledLane(commits, i))
  {
    var lines := PendingFirst(commits, i, i) + PendingExtra(commits, i, i);
    var targets := Targets(Run(commits, i).active);
    assert |targets| == |Run(commits, i).active|;
    hide *;
    forall h: string
      ensures multiset(lines)[h] <= multiset(targets)[h]
      ensures multiset(lines)[h] == multiset(targets)[h] <==> LinesTo(commits, i, h) == Demand(commits, i, h)
    {
      TableAndLines(commits, i, h);
    }
    CompareCounts(lines, targets);
    if forall h: string :: multiset(lines)[h] == multiset(targets)[h] {
      forall h: string ensures LinesTo(commits, i, h) == Demand(commits, i, h) { TableAndLines(commits, i, h); }
    }
    DoublingIsTheDifference(commits, i);
  }

  lemma {:induction false} TableAndLines(commits: seq<Commit>, i: nat, h: string)
    requires Readable(commits) && i <= |commits|
    ensures multiset(Targets(Run(commits, i).active))[h] == Demand(commits, i, h)
    ensures multiset(PendingFirst(commits, i, i) + PendingExtra(commits, i, i))[h] == LinesTo(commits, i, h)
    ensures LinesTo(commits, i, h) <= Demand(commits, i, h)
  {
    hide *;
    DemandIsMet(commits, i, h);
    LanesForCounts(Run(commits, i).active, h);
    LinesCount(commits, i, h);
    DemandAndLines(commits, i, h);
  }

  lemma {:induction false} DemandAndLines(commits: seq<Commit>, i: nat, h: string)
    requires i <= |commits|
    ensures LinesTo(commits, i, h) <= Demand(commits, i, h)
    ensures LinesTo(commits, i, h) == Demand(commits, i, h) <==> Reached(commits, h, i) || ExtraLanes(commits, i, h) <= 1
  {
  }

  lemma DoublingIsTheDifference(commits: seq<Commit>, i: nat)
    requires i <= |commits|
    ensures NoDoubledLane(commits, i) <==> forall h: string :: LinesTo(commits, i, h) == Demand(commits, i, h)
  {
    hide LinesTo, Demand, ExtraLanes, Reached;
    forall h: string
      ensures LinesTo(commits, i, h) == Demand(commits, i, h) <==> Reached(commits, h, i) || ExtraLanes(commits, i, h) <= 1
    {
      DemandAndLines(commits, i, h);
    }
  }

  lemma CompareCounts(a: seq<string>, b: seq<string>)
    requires forall h: string :: multiset(a)[h] <= multiset(b)[h]
    ensures |a| <= |b|
    ensures |a| == |b| <==> forall h: string :: multiset(a)[h] == multiset(b)[h]
  {
    assert multiset(a) <= multiset(b);
    assert |multiset(b) - multiset(a)| == |b| - |a|;
    if |a| == |b| {
      assert multiset(b) - multiset(a) == multiset{};
      forall h: string ensures multiset(a)[h] == multiset(b)[h] { assert (multiset(b) - multiset(a))[h] == 0; }
    } else {
      var h :| h in multiset(b) - multiset(a);
      assert multiset(a)[h] < multiset(b)[h];
    }
  }

  lemma {:induction false} OpenedOnceIsSingle(commits: seq<Commit>, k: nat, h: string)
    requires OpensOnce(commits, k)
    ensures ExtraLanes(commits, k, h) <= 1
  {
    if k > 0 {
      assert RowOpensOnce(commits, k - 1);
      OpenedOnceIsSingle(commits, k - 1, h);
    }
  }

  lemma NoneIsDoubled(commits: seq<Commit>, i: nat)
    requires OpensOnce(commits, i)
    ensures NoDoubledLane(commits, i)
  {
    forall h: string | !Reached(commits, h, i) ensures ExtraLanes(commits, i, h) <= 1 { OpenedOnceIsSingle(commits, i, h); }
  }

  /** Occupied lanes are crossing lines at every row exactly when no row opens two lanes for one commit. */
  lemma {:induction false} OccupiedIsLinesIff(commits: seq<Commit>, n: nat)
    requires Readable(commits) && n <= |commits|
    ensures (forall i | 0 <= i < n :: Occupied(commits[i], Run(commits, i + 1)) == LinesAt(commits, i)) <==> OpensOnce(commits, n)
  {
    hide Run, Occupied, LinesAt;
    forall i | 0 <= i < n
      ensures Occupied(commits[i], Run(commits, i + 1)) == LinesAt(commits, i) <==> NoDoubledLane(commits, i + 1)
    {
      OccupiedIsLinesHere(commits, i);
    }
    if OpensOnce(commits, n) {
      forall i | 0 <= i < n
        ensures Occupied(commits[i], Run(commits, i + 1)) == LinesAt(commits, i)
      {
        NoneIsDoubled(commits, i + 1);
      }
    } else {
      var i :| 0 <= i < n && !RowOpensOnce(commits, i);
      RepeatDoublesALane(commits, i);
    }
  }

  lemma RepeatDoublesALane(commits: seq<Commit>, i: nat)
    requires Readable(commits) && i < |commits| && !RowOpensOnce(commits, i)
    ensures !NoDoubledLane(commits, i + 1)
  {
    var h :| h in Window(commits) && !HasChildAbove(commits, h, i) && Listings(commits[i], h) > 1;
    ListedIsParent(commits[i], h);
    assert ExtraLanes(commits, i + 1, h) == Listings(commits[i], h);
    assert !Reached(commits, h, i + 1);
  }

  lemma {:induction false} OccupiedIsLines(commits: seq<Commit>, i: nat)
    requires Readable(commits) && i < |commits| && OpensOnce(commits, i + 1)
    ensures Occupied(commits[i], Run(commits, i + 1)) == LinesAt(commits, i)
  {
    OccupiedIsLinesIff(commits, i + 1);
  }

  ghost function PeakOccupied(commits: seq<Commit>, n: nat): nat
    requires n <= |commits|
  {
    if n == 0 then 0 else Max(PeakOccupied(commits, n - 1), Occupied(commits[n - 1], Run(commits, n)))
  }

  /** Whatever list it is given, the allocator opens as many lanes as are occupied at once somewhere, and no more. */
  lemma {:induction false} MarkIsPeakOccupied(commits: seq<Commit>, i: nat)
    requires i <= |commits|
    ensures Run(commits, i).pool.next == PeakOccupied(commits, i)
  {
    if i > 0 {
      MarkIsPeakOccupied(commits, i - 1);
      RunPartition(commits, i - 1);
      StepPartition(Window(commits), commits[i - 1], Run(commits, i - 1));
    }
  }

  lemma {:induction false} PeakOccupiedIsPeakLines(commits: seq<Commit>, i: nat)
    requires Readable(commits) && OpensOnce(commits, i)
    ensures PeakOccupied(commits, i) == PeakLines(commits, i)
  {
    hide Run, Occupied, LinesAt, Readable, RowOpensOnce;
    if i > 0 {
      PeakOccupiedIsPeakLines(commits, i - 1);
      OccupiedIsLines(commits, i - 1);
    }
  }

  lemma {:induction false} MarkIsPeak(commits: seq<Commit>, i: nat)
    requires Readable(commits) && OpensOnce(commits, i)
    ensures Run(commits, i).pool.next == PeakLines(commits, i)
  {
    MarkIsPeakOccupied(commits, i);
    PeakOccupiedIsPeakLines(commits, i);
  }

  // ----- the columns drawn -----

  function Largest(s: seq<nat>): (m: nat)
    requires s != []
    ensures m in s && forall x | x in s :: x <= m
  {
    if |s| == 1 then s[0]
    else
      var rest := Largest(s[1..]);
      assert s == [s[0]] + s[1..];
      if s[0] < rest then rest else s[0]
  }

  /** The width `render_html` reserves. */
  function ColumnsDrawn(lanes: seq<nat>): nat {
    if lanes == [] then 1 else Largest(lanes) + 1
  }

  lemma {:induction false} LanesAreBelowMark(commits: seq<Commit>, i: nat, k: nat)
    requires k < i <= |commits|
    ensures Run(commits, i).laneOf[k] < Run(commits, i).pool.next
  {
    var c, st := commits[i - 1], Run(commits, i - 1);
    RunPartition(commits, i - 1);
    StepPartition(Window(commits), c, st);
    if k < i - 1 {
      LanesAreBelowMark(commits, i - 1, k);
    } else {
      SettlePartition(st.active, st.pool, c.hash);
      var (mine, pool) := Settle(st.active, st.pool, c.hash);
      assert multiset(LanesOf(NotFor(st.active, c.hash)) + [mine])[mine] > 0;
      assert mine < pool.next;
      MarkGrows(c, st, Window(commits));
    }
  }

  lemma MarkGrows(c: Commit, st: State, window: set<string>)
    requires Partition(LanesOf(st.active), st.pool)
    ensures Settle(st.active, st.pool, c.hash).1.next <= Step(window, c, st).pool.next
  {
    SettlePartition(st.active, st.pool, c.hash);
    var (mine, pool) := Settle(st.active, st.pool, c.hash);
    if c.parents != [] {
      var onward := NotFor(st.active, c.hash) + [Waiting(mine, c.parents[0])];
      assert LanesOf(onward) == LanesOf(NotFor(st.active, c.hash)) + [mine];
      OpenPartition(c.parents[1..], pool, window, Elements(Targets(onward)), LanesOf(onward));
    }
  }

  lemma {:induction false} NoBlankColumn(commits: seq<Commit>, l: nat)
    requires Readable(commits) && OpensOnce(commits, |commits|)
    ensures l in LaneOf(commits) <==> l < Run(commits, |commits|).pool.next
  {
    if l < Run(commits, |commits|).pool.next { LanesAreCovered(commits, |commits|, l); }
    if l in LaneOf(commits) {
      var k :| 0 <= k < |commits| && LaneOf(commits)[k] == l;
      LanesAreBelowMark(commits, |commits|, k);
    }
  }

  /** The columns drawn are the peak number of lines crossing any row, and none of them is blank. */
  lemma {:induction false} ColumnsDrawnArePeak(commits: seq<Commit>)
    requires Readable(commits) && OpensOnce(commits, |commits|) && commits != []
    ensures ColumnsDrawn(LaneOf(commits)) == PeakLines(commits, |commits|)
    ensures forall l: nat | l < ColumnsDrawn(LaneOf(commits)) :: l in LaneOf(commits)
  {
    var mark := Run(commits, |commits|).pool.next;
    MarkIsPeak(commits, |commits|);
    forall l: nat ensures l in LaneOf(commits) <==> l < mark { NoBlankColumn(commits, l); }
    assert LaneOf(commits)[0] in LaneOf(commits);
    assert mark - 1 in LaneOf(commits);
  }

  // ----- a blank column -----

  /** A merge that lists an extra parent twice, above a second tip. */
  function TwiceListed(): seq<Commit> {
    [Commit("A", ["B", "C", "C"]), Commit("D", []), Commit("B", []), Commit("C", [])]
  }

  /** Four columns are drawn where three lines cross at most, and column 2 is blank. */
  lemma RepeatedParentWastesAColumn()
    ensures var commits := TwiceListed();
            && Readable(commits) && !RowOpensOnce(commits, 0)
            && ColumnsDrawn(LaneOf(commits)) == 4 && 2 !in LaneOf(commits)
            && PeakLines(commits, |commits|) == 3
  {
    var commits := TwiceListed();
    TwiceListedReadable();
    TwiceListedLanes();
    TwiceListedPeak();
    hide LaneOf, PeakLines, RowOpensOnce, Readable;
    assert LaneOf(commits)[1] == 3 && 3 in LaneOf(commits);
  }

  lemma TwiceListedReadable()
    ensures Readable(TwiceListed()) && !RowOpensOnce(TwiceListed(), 0)
  {
    var c := TwiceListed()[0];
    assert c.parents[1..] == ["C", "C"];
    assert "A"[0] != "B"[0] && "B"[0] != "C"[0] && "A"[0] != "C"[0] && "D"[0] != "B"[0] && "D"[0] != "C"[0] && "A"[0] != "D"[0];
    assert Listings(c, "C") == 2;
    assert TwiceListed()[3].hash == "C" && "C" in Window(TwiceListed());
    assert !HasChildAbove(TwiceListed(), "C", 0);
  }

  lemma TwiceListedLanes()
    ensures LaneOf(TwiceListed()) == [0, 3, 0, 1]
  {
    var commits := TwiceListed();
    var window := Window(commits);
    assert commits[3].hash in window;
    TwiceListedFirst(window);
    var one := State([Waiting(0, "B"), Waiting(1, "C"), Waiting(2, "C")], Pool([], 3), [0]);
    TwiceListedLast(window, one);
    assert Run(commits, 0) == State([], Pool([], 0), []);
    assert Run(commits, 1) == Step(window, commits[0], Run(commits, 0));
    assert Run(commits, 2) == Step(window, commits[1], one);
    assert Run(commits, 3) == Step(window, commits[2], Run(commits, 2));
    assert Run(commits, 4) == Step(window, commits[3], Run(commits, 3));
  }

  lemma TwiceListedFirst(window: set<string>)
    requires "C" in window
    ensures Step(window, Commit("A", ["B", "C", "C"]), State([], Pool([], 0), []))
         == State([Waiting(0, "B"), Waiting(1, "C"), Waiting(2, "C")], Pool([], 3), [0])
  {
    assert "C"[0] != "B"[0];
    var tracked := Elements(Targets([Waiting(0, "B")]));
    assert Targets([Waiting(0, "B")]) == ["B"];
    assert tracked == {"B"} && "C" !in tracked;
    assert Open([], Pool([], 3), window, tracked) == ([], Pool([], 3));
    assert [Waiting(2, "C")] + [] == [Waiting(2, "C")];
    assert ["B", "C", "C"][1..] == ["C", "C"] && ["C", "C"][1..] == ["C"] && ["C"][1..] == [];
    assert Open(["C"], Pool([], 2), window, tracked) == ([Waiting(2, "C")], Pool([], 3));
    assert [Waiting(1, "C")] + [Waiting(2, "C")] == [Waiting(1, "C"), Waiting(2, "C")];
    assert Alloc(Pool([], 1)) == (1, Pool([], 2));
    assert Open(["C", "C"], Pool([], 1), window, tracked) == ([Waiting(1, "C"), Waiting(2, "C")], Pool([], 3));
    assert NotFor([], "A") + [Waiting(0, "B")] == [Waiting(0, "B")];
    assert [Waiting(0, "B")] + [Waiting(1, "C"), Waiting(2, "C")]
        == [Waiting(0, "B"), Waiting(1, "C"), Waiting(2, "C")];
    assert Settle([], Pool([], 0), "A") == (0, Pool([], 1));
  }

  lemma TwiceListedLast(window: set<string>, one: State)
    requires one == State([Waiting(0, "B"), Waiting(1, "C"), Waiting(2, "C")], Pool([], 3), [0])
    ensures var two := Step(window, Commit("D", []), one);
            Step(window, Commit("C", []), Step(window, Commit("B", []), two)).laneOf == [0, 3, 0, 1]
  {
    assert "B"[0] != "C"[0] && "D"[0] != "B"[0] && "D"[0] != "C"[0];
    assert one.active[1..] == [Waiting(1, "C"), Waiting(2, "C")] && one.active[2..] == [Waiting(2, "C")];
    assert one.active[1..][1..] == one.active[2..] && one.active[2..][1..] == [];
    assert LanesFor(one.active, "D") == [] && NotFor(one.active, "D") == one.active;
    var two := State(one.active, Pool([3], 4), [0, 3]);
    assert Step(window, Commit("D", []), one) == two;
    assert LanesFor(one.active, "B") == [0] && NotFor(one.active, "B") == one.active[1..];
    var three := State(one.active[1..], Pool([3, 0], 4), [0, 3, 0]);
    assert Step(window, Commit("B", []), two) == three;
    assert LanesFor(three.active, "C") == [1, 2];
  }

  lemma TwiceListedPeak()
    ensures PeakLines(TwiceListed(), 4) == 3
  {
    hide LinesAt;
    var commits := TwiceListed();
    TwiceListedLines(0);
    TwiceListedLines(1);
    TwiceListedLines(2);
    TwiceListedLines(3);
    assert PeakLines(commits, 1) == 2 && PeakLines(commits, 2) == 3 && PeakLines(commits, 3) == 3;
  }

  lemma TwiceListedLines(i: nat)
    requires i < 4
    ensures LinesAt(TwiceListed(), i) == [2, 3, 2, 1][i]
  {
    var commits := TwiceListed();
    TwiceListedFirsts(i + 1, i + 1);
    TwiceListedExtras(i + 1, i + 1);
    hide PendingFirst, PendingExtra;
  }

  lemma {:induction false} TwiceListedFirsts(k: nat, i: nat)
    requires 1 <= k <= 4 && i <= 4
    ensures PendingFirst(TwiceListed(), k, i) == if i >= 3 then [] else ["B"]
  {
    var commits := TwiceListed();
    assert "A"[0] != "B"[0] && "D"[0] != "B"[0];
    assert commits[2].hash == "B";
    assert Reached(commits, "B", i) <==> i >= 3;
    if k > 1 {
      TwiceListedFirsts(k - 1, i);
    } else {
      assert PendingFirst(commits, 0, i) == [];
    }
  }

  lemma {:induction false} TwiceListedExtras(k: nat, i: nat)
    requires 1 <= k <= 4 && 1 <= i <= 4
    ensures PendingExtra(TwiceListed(), k, i) == if k <= 3 then ["C"] else []
    decreases 4 - k
  {
    if k < 4 {
      TwiceListedExtra(k, i);
      TwiceListedExtras(k + 1, i);
    }
  }

  lemma TwiceListedExtra(j: nat, i: nat)
    requires 1 <= j < 4 && 1 <= i <= 4
    ensures ExtraLine(TwiceListed(), j, i) <==> j == 3
  {
    var commits := TwiceListed();
    assert "A"[0] != "B"[0] && "B"[0] != "C"[0] && "D"[0] != "B"[0] && "D"[0] != "C"[0];
    assert commits[0].parents[1] == "C";
    assert !HasChildAbove(commits, commits[j].hash, 0);
    assert EarliestChild(commits, 0, j) <==> j != 1;
    assert forall e | 1 <= e < i :: commits[e].parents == [];
  }
}
