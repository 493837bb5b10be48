/** The lane allocator of the commit graph, as a machine that handles one row at a time. */
module Lanes {
  import opened Basics
  import opened Sorting

  datatype Commit = Commit(hash: string, parents: seq<string>)

  /** One entry of the waiting table: an open lane and the commit it is heading for. */
  datatype Waiting = Waiting(lane: nat, target: string)

  /** The lanes nobody occupies, longest free first, and the high-water mark. */
  datatype Pool = Pool(free: seq<nat>, next: nat)

  /** `active` is an insertion-ordered table: position is age. */
  datatype State = State(active: seq<Waiting>, pool: Pool, laneOf: seq<nat>)

  // ----- reading the table -----

  function LanesOf(active: seq<Waiting>): seq<nat> {
    seq(|active|, i requires 0 <= i < |active| => active[i].lane)
  }

  function Targets(active: seq<Waiting>): seq<string> {
    seq(|active|, i requires 0 <= i < |active| => active[i].target)
  }

  /** The lanes waiting for `h`, oldest first. */
  function LanesFor(active: seq<Waiting>, h: string): seq<nat> {
    if active == [] then []
    else if active[0].target == h then [active[0].lane] + LanesFor(active[1..], h)
    else LanesFor(active[1..], h)
  }

  function NotFor(active: seq<Waiting>, h: string): seq<Waiting> {
    if active == [] then []
    else if active[0].target == h then NotFor(active[1..], h)
    else [active[0]] + NotFor(active[1..], h)
  }

  /** The lane that has waited longest for `h`. */
  function OldestLane(active: seq<Waiting>, h: string): Option<nat> {
    var ms := LanesFor(active, h);
    if ms == [] then None else Some(ms[0])
  }

  // ----- one row -----

  function Alloc(pool: Pool): (nat, Pool) {
    if pool.free != [] then (pool.free[0], Pool(pool.free[1..], pool.next))
    else (pool.next, Pool([], pool.next + 1))
  }

  /** The row's own lane: the oldest lane waiting for it, or a fresh one; the other waiting lanes end here. */
  function Settle(active: seq<Waiting>, pool: Pool, h: string): (nat, Pool) {
    var ms := LanesFor(active, h);
    if ms == [] then Alloc(pool) else (ms[0], Pool(pool.free + ms[1..], pool.next))
  }

  /** Lanes opened for the extra parents that are in the window and not tracked when the row began its parents. */
  function Open(extras: seq<string>, pool: Pool, window: set<string>, tracked: set<string>): (seq<Waiting>, Pool) {
    if extras == [] then ([], pool)
    else if extras[0] in window && extras[0] !in tracked then
      var (lane, pool1) := Alloc(pool);
      var (added, pool2) := Open(extras[1..], pool1, window, tracked);
      ([Waiting(lane, extras[0])] + added, pool2)
    else Open(extras[1..], pool, window, tracked)
  }

  function Elements(s: seq<string>): set<string> { set x | x in s }

  function Window(commits: seq<Commit>): set<string> { set i | 0 <= i < |commits| :: commits[i].hash }

  function Step(window: set<string>, c: Commit, st: State): State {
    var (mine, pool) := Settle(st.active, st.pool, c.hash);
    var rest := NotFor(st.active, c.hash);
    if c.parents == [] then
      State(rest, Pool(pool.free + [mine], pool.next), st.laneOf + [mine])
    else
      var onward := rest + [Waiting(mine, c.parents[0])];
      var (added, pool') := Open(c.parents[1..], pool, window, Elements(Targets(onward)));
      State(onward + added, pool', st.laneOf + [mine])
  }

  /** The state after the first `i` rows. */
  function Run(commits: seq<Commit>, i: nat): (st: State)
    requires i <= |commits|
    ensures |st.laneOf| == i
  {
    if i == 0 then State([], Pool([], 0), [])
    else Step(Window(commits), commits[i - 1], Run(commits, i - 1))
  }

  function LaneOf(commits: seq<Commit>): (lanes: seq<nat>)
    ensures |lanes| == |commits|
  {
    Run(commits, |commits|).laneOf
  }

  /** What `git log --topo-order` gives: every hash once, and no commit before one of its children. */
  ghost predicate Readable(commits: seq<Commit>) {
    && (forall i, j | 0 <= i < j < |commits| :: commits[i].hash != commits[j].hash)
    && (forall i, j | 0 <= i < |commits| && 0 <= j < |commits| && commits[j].hash in commits[i].parents :: i < j)
  }

  // ----- the table's bookkeeping -----

  lemma {:induction false} SplitTable(active: seq<Waiting>, h: string, l: nat)
    ensures multiset(LanesOf(active))[l] == multiset(LanesFor(active, h))[l] + multiset(LanesOf(NotFor(active, h)))[l]
  {
    if active != [] {
      SplitTable(active[1..], h, l);
      LanesOfCons(active[0], active[1..]);
      assert active == [active[0]] + active[1..];
      if active[0].target != h { LanesOfCons(active[0], NotFor(active[1..], h)); }
    }
  }

  lemma LanesOfCons(w: Waiting, rest: seq<Waiting>)
    ensures LanesOf([w] + rest) == [w.lane] + LanesOf(rest)
  {
  }

  lemma LanesOfConcat(a: seq<Waiting>, b: seq<Waiting>)
    ensures LanesOf(a + b) == LanesOf(a) + LanesOf(b) && |LanesOf(a + b)| == |a + b|
  {
  }

  lemma {:induction false} LanesForConcat(a: seq<Waiting>, b: seq<Waiting>, h: string)
    ensures LanesFor(a + b, h) == LanesFor(a, h) + LanesFor(b, h)
  {
    if a == [] {
      assert a + b == b;
    } else {
      assert (a + b)[1..] == a[1..] + b;
      LanesForConcat(a[1..], b, h);
    }
  }

  lemma {:induction false} NotForElsewhere(active: seq<Waiting>, h: string, x: string)
    ensures LanesFor(NotFor(active, x), h) == if h == x then [] else LanesFor(active, h)
  {
    if active != [] {
      NotForElsewhere(active[1..], h, x);
      if active[0].target != x {
        var kept := [active[0]] + NotFor(active[1..], x);
        assert kept[0] == active[0] && kept[1..] == NotFor(active[1..], x);
      }
    }
  }

  lemma {:induction false} LanesForCounts(active: seq<Waiting>, h: string)
    ensures |LanesFor(active, h)| == multiset(Targets(active))[h]
    ensures forall l | l in LanesFor(active, h) :: l in LanesOf(active)
  {
    if active != [] {
      LanesForCounts(active[1..], h);
      assert Targets(active) == [active[0].target] + Targets(active[1..]);
      assert LanesOf(active) == [active[0].lane] + LanesOf(active[1..]);
    }
  }

  /** Every lane below the mark is either open or free, and no lane is both or twice. */
  ghost predicate Partition(lanes: seq<nat>, pool: Pool) {
    forall l: nat :: multiset(lanes)[l] + multiset(pool.free)[l] == if l < pool.next then 1 else 0
  }

  ghost function Below(n: nat): multiset<nat> {
    if n == 0 then multiset{} else Below(n - 1) + multiset{n - 1}
  }

  lemma {:induction false} BelowHas(n: nat)
    ensures |Below(n)| == n
    ensures forall x: nat :: Below(n)[x] == if x < n then 1 else 0
  {
    if n > 0 { BelowHas(n - 1); }
  }

  lemma PartitionSize(lanes: seq<nat>, pool: Pool)
    requires Partition(lanes, pool)
    ensures |lanes| + |pool.free| == pool.next
  {
    BelowHas(pool.next);
    forall l: nat ensures (multiset(lanes) + multiset(pool.free))[l] == Below(pool.next)[l] {}
    assert multiset(lanes) + multiset(pool.free) == Below(pool.next);
    assert |multiset(lanes) + multiset(pool.free)| == |lanes| + |pool.free|;
  }

  lemma AllocPartition(lanes: seq<nat>, pool: Pool)
    requires Partition(lanes, pool)
    ensures var (lane, pool') := Alloc(pool);
            && Partition(lanes + [lane], pool')
            && lane !in lanes
            && pool'.next >= pool.next
            && (pool'.next > pool.next ==> pool'.free == [])
            && (pool'.next > pool.next ==> pool'.next == pool.next + 1 && lane == pool.next)
  {
    var (lane, pool') := Alloc(pool);
    if pool.free != [] {
      assert pool.free == [lane] + pool'.free;
    }
    forall l: nat
      ensures multiset(lanes + [lane])[l] + multiset(pool'.free)[l] == if l < pool'.next then 1 else 0
    {
      assert multiset(lanes)[l] + multiset(pool.free)[l] == if l < pool.next then 1 else 0;
    }
    assert multiset(lanes)[lane] + multiset(pool.free)[lane] == if lane < pool.next then 1 else 0;
  }

  lemma {:induction false} SettlePartition(active: seq<Waiting>, pool: Pool, h: string)
    requires Partition(LanesOf(active), pool)
    ensures var (mine, pool') := Settle(active, pool, h);
            && Partition(LanesOf(NotFor(active, h)) + [mine], pool')
            && pool'.next >= pool.next
            && (pool'.next > pool.next ==> pool'.free == [])
            && (pool'.next > pool.next ==> pool'.next == pool.next + 1 && mine == pool.next)
  {
    var ms := LanesFor(active, h);
    var rest: seq<nat> := LanesOf(NotFor(active, h));
    var (mine, pool') := Settle(active, pool, h);
    if ms == [] {
      assert Partition(rest, pool) by {
        forall l: nat ensures multiset(rest)[l] + multiset(pool.free)[l] == if l < pool.next then 1 else 0 {
          SplitTable(active, h, l);
        }
      }
      AllocPartition(rest, pool);
    } else {
      assert ms == [mine] + ms[1..];
      forall l: nat
        ensures multiset(rest + [mine])[l] + multiset(pool'.free)[l] == if l < pool'.next then 1 else 0
      {
        SplitTable(active, h, l);
      }
    }
  }

  lemma {:induction false} OpenPartition(extras: seq<string>, pool: Pool, window: set<string>, tracked: set<string>, lanes: seq<nat>)
    requires Partition(lanes, pool)
    ensures var (added, pool') := Open(extras, pool, window, tracked);
            && Partition(lanes + LanesOf(added), pool')
            && pool'.next >= pool.next
            && (pool'.next > pool.next ==> pool'.free == [])
            && forall l | pool.next <= l < pool'.next :: l in LanesOf(added)
  {
    var (added, pool') := Open(extras, pool, window, tracked);
    if extras == [] {
      assert lanes + LanesOf(added) == lanes;
    } else if extras[0] in window && extras[0] !in tracked {
      var (lane, pool1) := Alloc(pool);
      AllocPartition(lanes, pool);
      OpenPartition(extras[1..], pool1, window, tracked, lanes + [lane]);
      var added1 := Open(extras[1..], pool1, window, tracked).0;
      assert LanesOf(added) == [lane] + LanesOf(added1);
      assert lanes + [lane] + LanesOf(added1) == lanes + LanesOf(added);
      if pool'.next > pool.next && pool1.next == pool'.next {
        OpenOnFull(extras[1..], pool1, window, tracked);
      }
      assert LanesOf(added)[0] == lane;
      forall l | pool.next <= l < pool'.next ensures l in LanesOf(added) {
        if l < pool1.next { assert l == lane; }
      }
    } else {
      OpenPartition(extras[1..], pool, window, tracked, lanes);
    }
  }

  /** With nothing free, either nothing is opened or the mark moves; in both cases nothing becomes free. */
  lemma {:induction false} OpenOnFull(extras: seq<string>, pool: Pool, window: set<string>, tracked: set<string>)
    requires pool.free == []
    ensures Open(extras, pool, window, tracked).1.free == []
  {
    if extras != [] {
      OpenOnFull(extras[1..], Alloc(pool).1, window, tracked);
      OpenOnFull(extras[1..], pool, window, tracked);
    }
  }

  lemma {:induction false} OpenTargets(extras: seq<string>, pool: Pool, window: set<string>, tracked: set<string>)
    ensures Targets(Open(extras, pool, window, tracked).0) == Filter((p: string) => p in window && p !in tracked, extras)
  {
    if extras != [] {
      OpenTargets(extras[1..], Alloc(pool).1, window, tracked);
      OpenTargets(extras[1..], pool, window, tracked);
      if extras[0] in window && extras[0] !in tracked {
        var (added, _) := Open(extras[1..], Alloc(pool).1, window, tracked);
        assert Targets([Waiting(Alloc(pool).0, extras[0])] + added) == [extras[0]] + Targets(added);
      }
    }
  }

  /** Lanes are opened from the front of the free list, in the order of the extra parents, and then past the mark. */
  lemma {:induction false} OpensFromTheFront(extras: seq<string>, pool: Pool, window: set<string>, tracked: set<string>)
    ensures var (added, pool') := Open(extras, pool, window, tracked);
            && (forall k | 0 <= k < |added| ::
                  added[k].lane == if k < |pool.free| then pool.free[k] else pool.next + (k - |pool.free|))
            && pool'.free == pool.free[if |added| < |pool.free| then |added| else |pool.free|..]
  {
    if extras != [] {
      OpensFromTheFront(extras[1..], Alloc(pool).1, window, tracked);
      OpensFromTheFront(extras[1..], pool, window, tracked);
    }
  }

  /** The lanes a row gives back, in order: those that end in it, oldest first, and its own if it is a root. */
  function Released(c: Commit, st: State): seq<nat> {
    var ms := LanesFor(st.active, c.hash);
    (if ms == [] then [] else ms[1..]) + (if c.parents == [] then [Settle(st.active, st.pool, c.hash).0] else [])
  }

  /** The free list is a queue: what a row gives back goes to its end, what it takes comes from its front. */
  lemma FreeListIsAQueue(window: set<string>, c: Commit, st: State) returns (taken: nat)
    ensures taken <= |st.pool.free + Released(c, st)|
    ensures Step(window, c, st).pool.free == (st.pool.free + Released(c, st))[taken..]
    ensures LanesFor(st.active, c.hash) == [] && st.pool.free != [] ==> taken > 0
  {
    var (mine, pool) := Settle(st.active, st.pool, c.hash);
    var ms, free := LanesFor(st.active, c.hash), st.pool.free;
    var first := if ms == [] && free != [] then 1 else 0;
    var back := if ms == [] then [] else ms[1..];
    assert pool.free == (free + back)[first..];
    if c.parents == [] {
      assert free + Released(c, st) == (free + back) + [mine];
      taken := first;
    } else {
      var tracked := Elements(Targets(NotFor(st.active, c.hash) + [Waiting(mine, c.parents[0])]));
      OpensFromTheFront(c.parents[1..], pool, window, tracked);
      var added := Open(c.parents[1..], pool, window, tracked).0;
      var more := if |added| < |pool.free| then |added| else |pool.free|;
      assert free + Released(c, st) == free + back;
      taken := first + more;
    }
  }

  /** The pieces of one row, named. */
  ghost function Onward(window: set<string>, c: Commit, st: State): seq<Waiting> {
    var rest := NotFor(st.active, c.hash);
    if c.parents == [] then rest else rest + [Waiting(Settle(st.active, st.pool, c.hash).0, c.parents[0])]
  }

  ghost function Opened(window: set<string>, c: Commit, st: State): (added: seq<Waiting>) {
    if c.parents == [] then []
    else Open(c.parents[1..], Settle(st.active, st.pool, c.hash).1, window, Elements(Targets(Onward(window, c, st)))).0
  }

  lemma StepShape(window: set<string>, c: Commit, st: State)
    ensures Step(window, c, st).active == Onward(window, c, st) + Opened(window, c, st)
    ensures Step(window, c, st).laneOf == st.laneOf + [Settle(st.active, st.pool, c.hash).0]
  {
    if c.parents == [] {
      assert Onward(window, c, st) + Opened(window, c, st) == NotFor(st.active, c.hash);
    }
  }

  /** The lanes occupied while a row is drawn: those still open below it, and its own if it ends there. */
  ghost function Occupied(c: Commit, after: State): nat {
    |after.active| + if c.parents == [] then 1 else 0
  }

  /** A root gives its lane back. */
  lemma RootPartition(rest: seq<nat>, mine: nat, pool: Pool)
    requires Partition(rest + [mine], pool)
    ensures Partition(rest, Pool(pool.free + [mine], pool.next))
    ensures |rest| + 1 + |pool.free| == pool.next
  {
    PartitionSize(rest + [mine], pool);
    forall l: nat
      ensures multiset(rest)[l] + multiset(pool.free + [mine])[l] == if l < pool.next then 1 else 0
    {
      assert multiset(rest + [mine])[l] + multiset(pool.free)[l] == if l < pool.next then 1 else 0;
    }
  }

  /** A row with parents hands its lane on and opens what it must. */
  lemma {:induction false} ForkPartition(c: Commit, rest: seq<Waiting>, mine: nat, pool: Pool, window: set<string>)
    requires c.parents != [] && Partition(LanesOf(rest) + [mine], pool)
    ensures var onward := rest + [Waiting(mine, c.parents[0])];
            var (added, pool') := Open(c.parents[1..], pool, window, Elements(Targets(onward)));
            && Partition(LanesOf(onward + added), pool')
            && |onward + added| + |pool'.free| == pool'.next
            && pool'.next >= pool.next
            && (pool'.next > pool.next || pool.free == [] ==> pool'.free == [])
            && forall l | pool.next <= l < pool'.next :: l in LanesOf(added)
  {
    var onward := rest + [Waiting(mine, c.parents[0])];
    assert LanesOf(onward) == LanesOf(rest) + [mine];
    hide *;
    var tracked := Elements(Targets(onward));
    OpenPartition(c.parents[1..], pool, window, tracked, LanesOf(onward));
    var (added, pool') := Open(c.parents[1..], pool, window, tracked);
    LanesOfConcat(onward, added);
    PartitionSize(LanesOf(onward + added), pool');
    if pool.free == [] { OpenOnFull(c.parents[1..], pool, window, tracked); }
  }

  /** One row keeps the partition, and moves the high-water mark only up to what is occupied right then. */
  lemma StepPartition(window: set<string>, c: Commit, st: State)
    requires Partition(LanesOf(st.active), st.pool)
    ensures var st' := Step(window, c, st);
            && Partition(LanesOf(st'.active), st'.pool)
            && st'.pool.next >= st.pool.next
            && Occupied(c, st') <= st'.pool.next
            && (st'.pool.next > st.pool.next ==> Occupied(c, st') == st'.pool.next)
            && forall l | st.pool.next <= l < st'.pool.next ::
                 l == st'.laneOf[|st.laneOf|] || l in LanesOf(Opened(window, c, st))
  {
    SettlePartition(st.active, st.pool, c.hash);
    var (mine, pool) := Settle(st.active, st.pool, c.hash);
    var rest := NotFor(st.active, c.hash);
    if c.parents == [] {
      RootPartition(LanesOf(rest), mine, pool);
    } else {
      ForkPartition(c, rest, mine, pool, window);
    }
  }
}
