/** `assign_lanes` as the program runs it: a table, a free list and a mark, updated in place row by row. */
module CommitGraph {
  import opened Basics
  import opened Sorting
  import opened Lanes

  /** A line to draw; a lane that merely ends at a row has no child end. */
  datatype Edge = Edge(child: Option<(nat, nat)>, parent: nat, parentLane: nat)

  ghost predicate UniqueLanes(active: seq<Waiting>) {
    forall i, j | 0 <= i < j < |active| :: active[i].lane != active[j].lane
  }

  /** `del active[lane]` */
  function Delete(active: seq<Waiting>, lane: nat): seq<Waiting> {
    if active == [] then []
    else if active[0].lane == lane then active[1..]
    else [active[0]] + Delete(active[1..], lane)
  }

  /** `active[lane] = target`: in place when the lane is open, at the end when it is not. */
  function Put(active: seq<Waiting>, lane: nat, target: string): seq<Waiting> {
    if active == [] then [Waiting(lane, target)]
    else if active[0].lane == lane then [Waiting(lane, target)] + active[1..]
    else [active[0]] + Put(active[1..], lane, target)
  }

  lemma {:induction false} DeleteAt(active: seq<Waiting>, k: nat)
    requires k < |active| && UniqueLanes(active)
    ensures Delete(active, active[k].lane) == active[..k] + active[k + 1..]
  {
    if k > 0 {
      DeleteAt(active[1..], k - 1);
      assert [active[0]] + active[1..][..k - 1] == active[..k];
    }
  }

  lemma {:induction false} DeleteBetween(front: seq<Waiting>, w: Waiting, back: seq<Waiting>)
    requires UniqueLanes(front + [w] + back)
    ensures Delete(front + [w] + back, w.lane) == front + back
    ensures UniqueLanes(front + back)
  {
    var all := front + [w] + back;
    DeleteAt(all, |front|);
    assert all[..|front|] == front && all[|front| + 1..] == back;
    forall i, j | 0 <= i < j < |front + back| ensures (front + back)[i].lane != (front + back)[j].lane {
      var i', j' := if i < |front| then i else i + 1, if j < |front| then j else j + 1;
      assert all[i'] == (front + back)[i] && all[j'] == (front + back)[j];
    }
  }

  lemma {:induction false} PutNew(active: seq<Waiting>, lane: nat, target: string)
    requires lane !in LanesOf(active)
    ensures Put(active, lane, target) == active + [Waiting(lane, target)]
  {
    if active != [] {
      assert LanesOf(active) == [active[0].lane] + LanesOf(active[1..]);
      PutNew(active[1..], lane, target);
    }
  }

  lemma {:induction false} NotForConcat(a: seq<Waiting>, b: seq<Waiting>, h: string)
    ensures NotFor(a + b, h) == NotFor(a, h) + NotFor(b, h)
  {
    if a == [] {
      assert a + b == b;
    } else {
      assert (a + b)[1..] == a[1..] + b;
      NotForConcat(a[1..], b, h);
    }
  }

  lemma {:induction false} NotForAbsent(a: seq<Waiting>, h: string)
    requires LanesFor(a, h) == []
    ensures NotFor(a, h) == a
  {
    if a != [] { NotForAbsent(a[1..], h); }
  }

  lemma PartitionIsUnique(active: seq<Waiting>, pool: Pool)
    requires Partition(LanesOf(active), pool)
    ensures UniqueLanes(active)
  {
    var ls := LanesOf(active);
    forall i, j | 0 <= i < j < |active| ensures active[i].lane != active[j].lane {
      assert ls == ls[..i] + [ls[i]] + ls[i + 1..j] + [ls[j]] + ls[j + 1..];
      assert multiset(ls)[ls[i]] + multiset(pool.free)[ls[i]] <= 1;
    }
  }

  /** The table halfway through the sweep for `h`: `k` entries seen, the first match (at `f`) still open, the rest ended. */
  ghost predicate Swept(seen: seq<Waiting>, k: nat, h: string, f: nat, active: seq<Waiting>, ended: seq<nat>)
    requires k <= |seen|
  {
    if LanesFor(seen[..k], h) == [] then active == seen && ended == []
    else
      && f < k && seen[f].target == h && LanesFor(seen[..f], h) == []
      && active == seen[..f + 1] + NotFor(seen[f + 1..k], h) + seen[k..]
      && LanesFor(seen[..k], h) == [seen[f].lane] + ended
  }

  lemma SweepPast(seen: seq<Waiting>, k: nat, h: string, f: nat, active: seq<Waiting>, ended: seq<nat>)
    requires k < |seen| && Swept(seen, k, h, f, active, ended) && seen[k].target != h
    ensures Swept(seen, k + 1, h, f, active, ended)
  {
    assert seen[..k + 1] == seen[..k] + [seen[k]];
    LanesForConcat(seen[..k], [seen[k]], h);
    if LanesFor(seen[..k], h) != [] {
      assert seen[f + 1..k + 1] == seen[f + 1..k] + [seen[k]];
      NotForConcat(seen[f + 1..k], [seen[k]], h);
      assert seen[k..] == [seen[k]] + seen[k + 1..];
    }
  }

  lemma {:induction false} SweepFirst(seen: seq<Waiting>, k: nat, h: string, f: nat, active: seq<Waiting>, ended: seq<nat>)
    requires k < |seen| && Swept(seen, k, h, f, active, ended) && seen[k].target == h
    requires LanesFor(seen[..k], h) == []
    ensures Swept(seen, k + 1, h, k, active, ended)
  {
    assert seen[..k + 1] == seen[..k] + [seen[k]];
    LanesForConcat(seen[..k], [seen[k]], h);
    assert seen[k + 1..k + 1] == [];
    assert seen == seen[..k + 1] + seen[k + 1..];
  }

  lemma {:induction false} SweepEnds(seen: seq<Waiting>, k: nat, h: string, f: nat, active: seq<Waiting>, ended: seq<nat>)
    requires k < |seen| && Swept(seen, k, h, f, active, ended) && seen[k].target == h
    requires LanesFor(seen[..k], h) != [] && UniqueLanes(active)
    ensures UniqueLanes(Delete(active, seen[k].lane))
    ensures Swept(seen, k + 1, h, f, Delete(active, seen[k].lane), ended + [seen[k].lane])
  {
    var w, front := seen[k], seen[..f + 1] + NotFor(seen[f + 1..k], h);
    assert seen[k..] == [w] + seen[k + 1..];
    assert active == front + [w] + seen[k + 1..];
    DeleteBetween(front, w, seen[k + 1..]);
    assert seen[f + 1..k + 1] == seen[f + 1..k] + [w];
    NotForConcat(seen[f + 1..k], [w], h);
    assert NotFor(seen[f + 1..k + 1], h) == NotFor(seen[f + 1..k], h);
    assert seen[..k + 1] == seen[..k] + [w];
    LanesForConcat(seen[..k], [w], h);
  }

  lemma {:induction false} SweepDone(seen: seq<Waiting>, h: string, f: nat, active: seq<Waiting>, ended: seq<nat>)
    requires Swept(seen, |seen|, h, f, active, ended) && UniqueLanes(active)
    ensures LanesFor(seen, h) == [] ==> active == NotFor(seen, h)
    ensures LanesFor(seen, h) != [] ==>
              && f < |seen| && LanesFor(seen, h) == [seen[f].lane] + ended
              && Delete(active, seen[f].lane) == NotFor(seen, h)
  {
    assert seen[..|seen|] == seen;
    if LanesFor(seen, h) == [] {
      NotForAbsent(seen, h);
    } else {
      DeleteAt(active, f);
      assert active[..f] == seen[..f];
      assert active[f + 1..] == NotFor(seen[f + 1..|seen|], h);
      assert seen == seen[..f] + ([seen[f]] + seen[f + 1..]);
      NotForConcat(seen[..f], [seen[f]] + seen[f + 1..], h);
      NotForConcat([seen[f]], seen[f + 1..], h);
      NotForAbsent(seen[..f], h);
      assert seen[f + 1..|seen|] == seen[f + 1..];
    }
  }

  class LaneTable {
    var active: seq<Waiting>
    var freeLanes: seq<nat>
    var nextLane: nat

    constructor ()
      ensures active == [] && Lanes() == Pool([], 0)
    {
      active, freeLanes, nextLane := [], [], 0;
    }

    function Lanes(): Pool
      reads this
    {
      Pool(freeLanes, nextLane)
    }

    ghost predicate Valid()
      reads this
    {
      Partition(LanesOf(active), Lanes())
    }

    method AllocLane() returns (lane: nat)
      modifies this`freeLanes, this`nextLane
      ensures (lane, Lanes()) == Alloc(old(Lanes()))
    {
      if freeLanes != [] {
        lane, freeLanes := freeLanes[0], freeLanes[1..];
        return;
      }
      nextLane := nextLane + 1;
      lane := nextLane - 1;
    }

    /** The row's own lane; every other lane waiting for `h` ends at this row. */
    method Take(h: string, row: nat) returns (mine: nat, ending: seq<Edge>)
      requires Valid()
      modifies this
      ensures (mine, Lanes()) == Settle(old(active), old(Lanes()), h)
      ensures active == NotFor(old(active), h)
      ensures forall e | e in ending :: e.child.None?
    {
      PartitionIsUnique(active, Lanes());
      var seen := active;
      var found: Option<nat> := None;
      ghost var f, ended: seq<nat> := 0, [];
      ending := [];
      for k := 0 to |seen|
        invariant UniqueLanes(active) && Swept(seen, k, h, f, active, ended)
        invariant found == OldestLane(seen[..k], h)
        invariant nextLane == old(nextLane) && freeLanes == old(freeLanes) + ended
        invariant forall e | e in ending :: e.child.None?
      {
        var lane := seen[k].lane;
        if seen[k].target != h {
          SweepPast(seen, k, h, f, active, ended);
        } else if found.None? {
          SweepFirst(seen, k, h, f, active, ended);
          found, f := Some(lane), k;
        } else {
          ending := ending + [Edge(None, row, lane)];
          SweepEnds(seen, k, h, f, active, ended);
          active := Delete(active, lane);
          freeLanes, ended := freeLanes + [lane], ended + [lane];
        }
        OldestOfPrefix(seen, k, h);
      }
      assert seen[..|seen|] == seen;
      SweepDone(seen, h, f, active, ended);
      if found.None? {
        mine := AllocLane();
      } else {
        mine := found.value;
        active := Delete(active, mine);
      }
    }

    /** The row's lane goes on to the first parent. */
    method Continue(mine: nat, parents: seq<string>, window: set<string>)
      requires Partition(LanesOf(active) + [mine], Lanes())
      modifies this
      ensures parents == [] ==>
        active == old(active) && Lanes() == Pool(old(freeLanes) + [mine], old(nextLane))
      ensures parents != [] ==>
        var onward := old(active) + [Waiting(mine, parents[0])];
        var (added, pool) := Open(parents[1..], old(Lanes()), window, Elements(Targets(onward)));
        active == onward + added && Lanes() == pool
    {
      if parents == [] {
        freeLanes := freeLanes + [mine];
      } else {
        LastIsNew(LanesOf(active), mine, Lanes());
        PutNew(active, mine, parents[0]);
        active := Put(active, mine, parents[0]);
        assert LanesOf(active) == LanesOf(old(active)) + [mine];
        OpenExtras(parents[1..], window);
      }
    }

    /** Untracked extra parents in the window get lanes of their own. */
    method OpenExtras(extras: seq<string>, window: set<string>)
      requires Valid()
      modifies this
      ensures var (added, pool) := Open(extras, old(Lanes()), window, Elements(Targets(old(active))));
              active == old(active) + added && Lanes() == pool
    {
      var tracked := Elements(Targets(active));
      ghost var added: seq<Waiting> := [];
      for k := 0 to |extras|
        invariant Valid() && active == old(active) + added
        invariant (added, Lanes()) == Open(extras[..k], old(Lanes()), window, tracked)
      {
        OpenOneMore(extras[..k], extras[k], old(Lanes()), window, tracked);
        assert extras[..k + 1] == extras[..k] + [extras[k]];
        if extras[k] in window && extras[k] !in tracked {
          var lane := OpenLane(extras[k]);
          added := added + [Waiting(lane, extras[k])];
        }
      }
      assert extras[..|extras|] == extras;
    }

    method OpenLane(target: string) returns (lane: nat)
      requires Valid()
      modifies this
      ensures Valid() && (lane, Lanes()) == Alloc(old(Lanes()))
      ensures active == old(active) + [Waiting(lane, target)]
    {
      AllocPartition(LanesOf(active), Lanes());
      lane := AllocLane();
      PutNew(active, lane, target);
      active := Put(active, lane, target);
      assert LanesOf(active) == LanesOf(old(active)) + [lane];
    }
  }

  lemma {:induction false} OpenOneMore(extras: seq<string>, x: string, pool: Pool, window: set<string>, tracked: set<string>)
    ensures var (added, pool') := Open(extras, pool, window, tracked);
            Open(extras + [x], pool, window, tracked)
              == if x in window && x !in tracked then (added + [Waiting(Alloc(pool').0, x)], Alloc(pool').1)
                 else (added, pool')
  {
    if extras == [] {
      assert extras + [x] == [x] && [x][1..] == [];
      if x in window && x !in tracked {
        var (lane, pool1) := Alloc(pool);
        assert Open([x][1..], pool1, window, tracked) == ([], pool1);
        assert Open([x], pool, window, tracked) == ([Waiting(lane, x)] + [], pool1);
        assert [Waiting(lane, x)] + [] == [] + [Waiting(lane, x)];
      }
    } else {
      assert (extras + [x])[1..] == extras[1..] + [x];
      OpenOneMore(extras[1..], x, Alloc(pool).1, window, tracked);
      OpenOneMore(extras[1..], x, pool, window, tracked);
      var first := Waiting(Alloc(pool).0, extras[0]);
      var (rest, pool') := Open(extras[1..], Alloc(pool).1, window, tracked);
      var last := Waiting(Alloc(pool').0, x);
      assert [first] + (rest + [last]) == [first] + rest + [last];
    }
  }

  lemma OldestOfPrefix(seen: seq<Waiting>, k: nat, h: string)
    requires k < |seen|
    ensures OldestLane(seen[..k + 1], h)
         == if OldestLane(seen[..k], h).Some? then OldestLane(seen[..k], h)
            else if seen[k].target == h then Some(seen[k].lane) else None
  {
    assert seen[..k + 1] == seen[..k] + [seen[k]];
    LanesForConcat(seen[..k], [seen[k]], h);
  }

  lemma LastIsNew(lanes: seq<nat>, mine: nat, pool: Pool)
    requires Partition(lanes + [mine], pool)
    ensures mine !in lanes
  {
    assert multiset(lanes + [mine])[mine] + multiset(pool.free)[mine] <= 1;
  }

  /** The row a hash is drawn at: the last one, as later entries overwrite earlier ones. */
  function RowOf(commits: seq<Commit>, h: string): Option<nat> {
    if commits == [] then None
    else if commits[|commits| - 1].hash == h then Some(|commits| - 1)
    else RowOf(commits[..|commits| - 1], h)
  }

  function EdgesOf(commits: seq<Commit>, laneOf: seq<nat>, i: nat, parents: seq<string>): seq<Edge>
    requires |laneOf| == |commits| && i < |commits|
  {
    if parents == [] then []
    else
      var last := parents[|parents| - 1];
      var before := EdgesOf(commits, laneOf, i, parents[..|parents| - 1]);
      match RowOf(commits, last)
      case None => before
      case Some(j) => RowOfBelow(commits, last); before + [Edge(Some((i, laneOf[i])), j, laneOf[j])]
  }

  function ParentEdges(commits: seq<Commit>, laneOf: seq<nat>, n: nat): seq<Edge>
    requires |laneOf| == |commits| && n <= |commits|
  {
    if n == 0 then []
    else ParentEdges(commits, laneOf, n - 1) + EdgesOf(commits, laneOf, n - 1, commits[n - 1].parents)
  }

  lemma {:induction false} RowOfBelow(commits: seq<Commit>, h: string)
    ensures RowOf(commits, h).Some? ==> RowOf(commits, h).value < |commits| && commits[RowOf(commits, h).value].hash == h
    ensures RowOf(commits, h).None? ==> forall j | 0 <= j < |commits| :: commits[j].hash != h
  {
    if commits != [] { RowOfBelow(commits[..|commits| - 1], h); }
  }

  lemma {:induction false} EdgesOfAre(commits: seq<Commit>, laneOf: seq<nat>, i: nat, parents: seq<string>, e: Edge)
    requires |laneOf| == |commits| && i < |commits|
    ensures e in EdgesOf(commits, laneOf, i, parents) <==>
            && e.child == Some((i, laneOf[i]))
            && (exists k | 0 <= k < |parents| :: RowOf(commits, parents[k]) == Some(e.parent))
            && e.parent < |commits| && e.parentLane == laneOf[e.parent]
  {
    if parents != [] {
      var n := |parents| - 1;
      EdgesOfAre(commits, laneOf, i, parents[..n], e);
      RowOfBelow(commits, parents[n]);
      assert forall k | 0 <= k < n :: parents[..n][k] == parents[k];
    }
  }

  /** The edges drawn are exactly the child-parent pairs of the window, each end on its commit's lane. */
  lemma {:induction false} EdgesAreParentLinks(commits: seq<Commit>, laneOf: seq<nat>, n: nat, e: Edge)
    requires Readable(commits) && |laneOf| == |commits| && n <= |commits|
    ensures e in ParentEdges(commits, laneOf, n) <==>
            && e.child.Some? && e.child.value.0 < n && e.parent < |commits|
            && commits[e.parent].hash in commits[e.child.value.0].parents
            && e.child.value.1 == laneOf[e.child.value.0] && e.parentLane == laneOf[e.parent]
  {
    if n > 0 {
      EdgesAreParentLinks(commits, laneOf, n - 1, e);
      EdgesOfAre(commits, laneOf, n - 1, commits[n - 1].parents, e);
      forall p | p in commits[n - 1].parents && e.parent < |commits|
        ensures RowOf(commits, p) == Some(e.parent) <==> commits[e.parent].hash == p
      {
        RowOfBelow(commits, p);
      }
    }
  }

  /** The hashes a row's edges lead to. */
  function Ends(commits: seq<Commit>, edges: seq<Edge>): seq<string>
    requires forall e | e in edges :: e.parent < |commits|
  {
    if edges == [] then [] else Ends(commits, edges[..|edges| - 1]) + [commits[edges[|edges| - 1].parent].hash]
  }

  /** A row's edges lead to its parents in the window, one for each listing, in the order listed. */
  lemma {:induction false} EdgesFollowParents(commits: seq<Commit>, laneOf: seq<nat>, i: nat, parents: seq<string>)
    requires |laneOf| == |commits| && i < |commits|
    ensures var edges := EdgesOf(commits, laneOf, i, parents);
            && (forall e | e in edges :: e.parent < |commits|)
            && Ends(commits, edges) == Filter((p: string) => p in Window(commits), parents)
  {
    if parents == [] {
      assert EdgesOf(commits, laneOf, i, parents) == [];
    } else {
      var n := |parents| - 1;
      var last, before := parents[n], EdgesOf(commits, laneOf, i, parents[..n]);
      EdgesFollowParents(commits, laneOf, i, parents[..n]);
      RowOfBelow(commits, last);
      assert parents == parents[..n] + [last];
      var inWindow := (p: string) => p in Window(commits);
      FilterConcat(inWindow, parents[..n], [last]);
      assert [last][1..] == [] && Filter(inWindow, []) == [];
      match RowOf(commits, last) {
        case None =>
          assert last !in Window(commits);
        case Some(j) =>
          var edges := EdgesOf(commits, laneOf, i, parents);
          assert last in Window(commits);
          assert edges[..|edges| - 1] == before;
      }
    }
  }

  /** Edges stand row by row. */
  lemma {:induction false} EdgesAreByRow(commits: seq<Commit>, laneOf: seq<nat>, n: nat)
    requires |laneOf| == |commits| && n <= |commits|
    ensures var edges := ParentEdges(commits, laneOf, n);
            && (forall e | e in edges :: e.child.Some? && e.child.value.0 < n)
            && forall a, b | 0 <= a < b < |edges| :: edges[a].child.value.0 <= edges[b].child.value.0
  {
    if n > 0 {
      EdgesAreByRow(commits, laneOf, n - 1);
      var before, row := ParentEdges(commits, laneOf, n - 1), EdgesOf(commits, laneOf, n - 1, commits[n - 1].parents);
      forall e | e in row ensures e.child == Some((n - 1, laneOf[n - 1])) {
        EdgesOfAre(commits, laneOf, n - 1, commits[n - 1].parents, e);
      }
      hide EdgesOf;
      forall a, b | 0 <= a < b < |before + row| ensures (before + row)[a].child.value.0 <= (before + row)[b].child.value.0 {
        if b >= |before| {
          assert row[b - |before|] in row;
          assert a < |before| ==> before[a] in before;
          assert a >= |before| ==> row[a - |before|] in row;
        }
      }
    }
  }

  lemma {:induction false} DrawnEdgesHaveChildren(commits: seq<Commit>, laneOf: seq<nat>, i: nat, parents: seq<string>)
    requires |laneOf| == |commits| && i < |commits|
    ensures forall e | e in EdgesOf(commits, laneOf, i, parents) :: e.child.Some?
  {
    forall e | e in EdgesOf(commits, laneOf, i, parents) ensures e.child.Some? {
      EdgesOfAre(commits, laneOf, i, parents, e);
    }
  }

  predicate IsDrawn(e: Edge) { e.child.Some? }

  lemma {:induction false} EndingsDropOut(ending: seq<Edge>, links: seq<Edge>)
    requires forall e | e in ending :: e.child.None?
    requires forall e | e in links :: e.child.Some?
    ensures Filter(IsDrawn, ending + links) == links
  {
    FilterConcat(IsDrawn, ending, links);
    FilterNone(IsDrawn, ending);
    FilterAll(IsDrawn, links);
  }

  /** `{hash: row}`, later rows overwriting earlier ones. */
  method IndexRows(commits: seq<Commit>) returns (rowByHash: map<string, nat>)
    ensures rowByHash.Keys == Window(commits)
    ensures forall h :: RowOf(commits, h) == if h in rowByHash then Some(rowByHash[h]) else None
  {
    rowByHash := map[];
    for i := 0 to |commits|
      invariant rowByHash.Keys == Window(commits[..i])
      invariant forall h :: RowOf(commits[..i], h) == if h in rowByHash then Some(rowByHash[h]) else None
    {
      assert commits[..i + 1][..i] == commits[..i];
      rowByHash := rowByHash[commits[i].hash := i];
    }
    assert commits[..|commits|] == commits;
  }

  method DrawEdges(commits: seq<Commit>, laneOf: seq<nat>, rowByHash: map<string, nat>) returns (edges: seq<Edge>)
    requires |laneOf| == |commits|
    requires forall h :: RowOf(commits, h) == if h in rowByHash then Some(rowByHash[h]) else None
    ensures edges == ParentEdges(commits, laneOf, |commits|)
    ensures forall e | e in edges :: e.child.Some?
  {
    edges := [];
    for i := 0 to |commits|
      invariant edges == ParentEdges(commits, laneOf, i)
      invariant forall e | e in edges :: e.child.Some?
    {
      var parents := commits[i].parents;
      ghost var before := edges;
      for k := 0 to |parents|
        invariant edges == before + EdgesOf(commits, laneOf, i, parents[..k])
      {
        assert parents[..k + 1][..k] == parents[..k];
        if parents[k] in rowByHash {
          var j := rowByHash[parents[k]];
          RowOfBelow(commits, parents[k]);
          edges := edges + [Edge(Some((i, laneOf[i])), j, laneOf[j])];
        }
      }
      assert parents[..|parents|] == parents;
      DrawnEdgesHaveChildren(commits, laneOf, i, parents);
    }
  }

  method AssignLanes(commits: seq<Commit>) returns (laneOf: seq<nat>, edges: seq<Edge>)
    ensures laneOf == LaneOf(commits)
    ensures edges == ParentEdges(commits, laneOf, |commits|)
  {
    var rowByHash := IndexRows(commits);
    var table := new LaneTable();
    var ending: seq<Edge> := [];
    laneOf := [];
    for i := 0 to |commits|
      invariant State(table.active, table.Lanes(), laneOf) == Run(commits, i)
      invariant table.Valid()
      invariant forall e | e in ending :: e.child.None?
    {
      StepPartition(Window(commits), commits[i], Run(commits, i));
      SettlePartition(table.active, table.Lanes(), commits[i].hash);
      var mine, ended := table.Take(commits[i].hash, i);
      ending, laneOf := ending + ended, laneOf + [mine];
      table.Continue(mine, commits[i].parents, rowByHash.Keys);
    }
    var links := DrawEdges(commits, laneOf, rowByHash);
    EndingsDropOut(ending, links);
    edges := Filter(IsDrawn, ending + links);
  }
}
