/** A reset lands exactly on the seed, does nothing it need not do, and a seed file is read whole or refused. */
module SeedTheorems {
  import opened Basics
  import opened Sorting
  import opened Seed

  // ----- branch maps -----

  ghost predicate DistinctBranches(branches: seq<Branch>) {
    forall i, j | 0 <= i < j < |branches| :: branches[i].0 != branches[j].0
  }

  /** The seed names no branch at two tips; it may repeat a line. */
  ghost predicate OneTipEach(refs: seq<SeedRef>) {
    forall r, s | r in refs && s in refs && r.name == s.name :: r.oid == s.oid
  }

  function BranchMap(branches: seq<Branch>): map<string, string> {
    if branches == [] then map[] else BranchMap(branches[1..])[branches[0].0 := branches[0].1]
  }

  function SeedMap(refs: seq<SeedRef>): map<string, string> {
    if refs == [] then map[] else SeedMap(refs[1..])[refs[0].name := refs[0].oid]
  }

  lemma {:induction false} BranchMapHas(branches: seq<Branch>)
    requires DistinctBranches(branches)
    ensures forall n, o :: (n, o) in branches <==> n in BranchMap(branches) && BranchMap(branches)[n] == o
  {
    if branches != [] {
      BranchMapHas(branches[1..]);
      assert branches == [branches[0]] + branches[1..];
      assert forall b | b in branches[1..] :: b.0 != branches[0].0;
    }
  }

  lemma {:induction false} SeedMapHas(refs: seq<SeedRef>)
    requires OneTipEach(refs)
    ensures forall n, o :: SeedRef(n, o) in refs <==> n in SeedMap(refs) && SeedMap(refs)[n] == o
    ensures forall n :: Names(refs, n) <==> n in SeedMap(refs)
  {
    if refs != [] {
      SeedMapHas(refs[1..]);
      assert refs == [refs[0]] + refs[1..];
      forall n, o ensures SeedRef(n, o) in refs <==> n in SeedMap(refs) && SeedMap(refs)[n] == o {
        if n == refs[0].name && SeedRef(n, o) in refs { assert refs[0] in refs; }
      }
      forall n ensures Names(refs, n) <==> n in SeedMap(refs) {
        assert Names(refs, n) <==> refs[0].name == n || Names(refs[1..], n);
      }
    }
  }

  // ----- applying a plan, one entry at a time -----

  function ApplyUpdates(m: map<string, string>, update: seq<SeedRef>): map<string, string>
    decreases |update|
  {
    if update == [] then m else ApplyUpdates(m[update[0].name := update[0].oid], update[1..])
  }

  function ApplyDeletes(m: map<string, string>, delete: seq<string>): map<string, string>
    decreases |delete|
  {
    if delete == [] then m else ApplyDeletes(m - {delete[0]}, delete[1..])
  }

  function Apply(m: map<string, string>, plan: ResetPlan): map<string, string> {
    ApplyDeletes(ApplyUpdates(m, plan.update), plan.delete)
  }

  lemma {:induction false} DeletesRemove(m: map<string, string>, delete: seq<string>)
    ensures forall n :: n in ApplyDeletes(m, delete) <==> n in m && n !in delete
    ensures forall n | n in ApplyDeletes(m, delete) :: ApplyDeletes(m, delete)[n] == m[n]
    decreases |delete|
  {
    if delete != [] {
      DeletesRemove(m - {delete[0]}, delete[1..]);
      assert delete == [delete[0]] + delete[1..];
    }
  }

  /** Updates that agree with one map leave each named branch at that map's value, and the others alone. */
  lemma {:induction false} UpdatesSet(m: map<string, string>, update: seq<SeedRef>, truth: map<string, string>)
    requires forall r | r in update :: r.name in truth && truth[r.name] == r.oid
    ensures var done := ApplyUpdates(m, update);
            && (forall n :: n in done <==> n in m || Names(update, n))
            && (forall n | n in done :: done[n] == if Names(update, n) then truth[n] else m[n])
    decreases |update|
  {
    if update != [] {
      var r, rest := update[0], update[1..];
      assert r in update && forall x | x in rest :: x in update;
      forall n ensures Names(update, n) <==> r.name == n || Names(rest, n) {
        assert update == [r] + rest;
      }
      hide Names;
      UpdatesSet(m[r.name := r.oid], rest, truth);
    }
  }

  // ----- what a plan holds -----

  lemma {:induction false} BranchNamesHas(branches: seq<Branch>, n: string)
    ensures n in BranchNames(branches) <==> exists b | b in branches :: b.0 == n
  {
    if branches != [] {
      BranchNamesHas(branches[1..], n);
      assert branches == [branches[0]] + branches[1..];
    }
  }

  lemma ByNameOrder()
    ensures TotalPreorder(ByName)
  {
    StringOrder();
  }

  /** The same name, or one whose code points come first. */
  ghost predicate Upward(a: string, b: string) { a == b || Precedes(Codes(a), Codes(b)) }

  /** A plan moves exactly the seeded branches that are missing or elsewhere, and deletes exactly the unseeded ones. */
  lemma PlanHolds(seed: Seed, current: seq<Branch>)
    ensures var plan := Plan(seed, current);
            && (forall r :: r in plan.update <==> r in seed.refs && (r.name, r.oid) !in current)
            && (forall n :: n in plan.delete <==> !Names(seed.refs, n) && exists b | b in current :: b.0 == n)
            && (forall i, j | 0 <= i < j < |plan.update| :: Upward(plan.update[i].name, plan.update[j].name))
            && (forall i, j | 0 <= i < j < |plan.delete| :: Upward(plan.delete[i], plan.delete[j]))
  {
    forall i, j | 0 <= i < j < |Plan(seed, current).update|
      ensures Upward(Plan(seed, current).update[i].name, Plan(seed, current).update[j].name)
    {
      PlanIsSorted(seed, current);
      StringLeIsBefore(Plan(seed, current).update[i].name, Plan(seed, current).update[j].name);
      assert ByName(Plan(seed, current).update[i], Plan(seed, current).update[j]);
    }
    forall i, j | 0 <= i < j < |Plan(seed, current).delete|
      ensures Upward(Plan(seed, current).delete[i], Plan(seed, current).delete[j])
    {
      PlanIsSorted(seed, current);
      StringLeIsBefore(Plan(seed, current).delete[i], Plan(seed, current).delete[j]);
      assert StringLe(Plan(seed, current).delete[i], Plan(seed, current).delete[j]);
    }
    PlanMembers(seed, current);
  }

  lemma PlanIsSorted(seed: Seed, current: seq<Branch>)
    ensures SortedBy(ByName, Plan(seed, current).update) && SortedBy(StringLe, Plan(seed, current).delete)
  {
    ByNameOrder();
    StringOrder();
    SortIsSortedPermutation(ByName, Filter(Stale(current), seed.refs));
    SortIsSortedPermutation(StringLe, BranchNames(Filter(Unseeded(seed.refs), current)));
  }

  lemma {:induction false} PlanMembers(seed: Seed, current: seq<Branch>)
    ensures var plan := Plan(seed, current);
            && (forall r :: r in plan.update <==> r in seed.refs && (r.name, r.oid) !in current)
            && (forall n :: n in plan.delete <==> !Names(seed.refs, n) && exists b | b in current :: b.0 == n)
  {
    var stale, gone := Filter(Stale(current), seed.refs), Filter(Unseeded(seed.refs), current);
    FilterMembers(Stale(current), seed.refs);
    FilterMembers(Unseeded(seed.refs), current);
    ByNameOrder();
    StringOrder();
    SortIsSortedPermutation(ByName, stale);
    SortIsSortedPermutation(StringLe, BranchNames(gone));
    var plan := Plan(seed, current);
    forall r ensures r in plan.update <==> r in stale { assert r in multiset(plan.update) <==> r in multiset(stale); }
    forall n ensures n in plan.delete <==> !Names(seed.refs, n) && exists b | b in current :: b.0 == n {
      assert n in multiset(plan.delete) <==> n in multiset(BranchNames(gone));
      BranchNamesHas(gone, n);
    }
  }

  /** Applying the plan to the branches it was made for gives exactly the seed's map. */
  lemma {:induction false} ResetLandsOnTheSeed(seed: Seed, current: seq<Branch>)
    requires OneTipEach(seed.refs) && DistinctBranches(current)
    ensures Apply(BranchMap(current), Plan(seed, current)) == SeedMap(seed.refs)
  {
    var plan, m, truth := Plan(seed, current), BranchMap(current), SeedMap(seed.refs);
    PlanHolds(seed, current);
    BranchMapHas(current);
    SeedMapHas(seed.refs);
    forall r | r in plan.update ensures r.name in truth && truth[r.name] == r.oid {
      assert SeedRef(r.name, r.oid) in seed.refs;
    }
    UpdatesSet(m, plan.update, truth);
    hide Plan, BranchMap, SeedMap, ApplyUpdates, ApplyDeletes, OneTipEach, DistinctBranches, Names;
    DeletesRemove(ApplyUpdates(m, plan.update), plan.delete);
    var done := Apply(m, plan);
    forall n ensures (n in done <==> n in truth) && (n in done ==> done[n] == truth[n]) {
      EntryLands(seed, current, n);
    }
    assert done == truth;
  }

  lemma {:induction false} EntryLands(seed: Seed, current: seq<Branch>, n: string)
    requires OneTipEach(seed.refs) && DistinctBranches(current)
    ensures var plan, m, truth := Plan(seed, current), BranchMap(current), SeedMap(seed.refs);
            && (n in truth ==> n !in plan.delete && (Names(plan.update, n) || (n in m && m[n] == truth[n])))
            && (n !in truth ==> !Names(plan.update, n) && (n in m ==> n in plan.delete))
  {
    var plan, m, truth := Plan(seed, current), BranchMap(current), SeedMap(seed.refs);
    PlanHolds(seed, current);
    BranchMapHas(current);
    SeedMapHas(seed.refs);
    if n in truth {
      assert SeedRef(n, truth[n]) in seed.refs;
      if SeedRef(n, truth[n]) !in plan.update { assert (n, truth[n]) in current; }
    } else if n in m {
      assert (n, m[n]) in current;
    }
  }

  lemma SomethingInIt<T(!new)>(s: seq<T>)
    ensures s != [] ==> exists x :: x in s
  {
    if s != [] { assert s[0] in s; }
  }

  /** The plan is empty exactly when the branches already are the seed's. */
  lemma {:induction false} PlanIsEmptyIffOnSeed(seed: Seed, current: seq<Branch>)
    requires OneTipEach(seed.refs) && DistinctBranches(current)
    ensures Plan(seed, current) == ResetPlan([], []) <==> BranchMap(current) == SeedMap(seed.refs)
  {
    var plan, m, truth := Plan(seed, current), BranchMap(current), SeedMap(seed.refs);
    if plan == ResetPlan([], []) { ResetLandsOnTheSeed(seed, current); }
    if m == truth {
      PlanHolds(seed, current);
      BranchMapHas(current);
      SeedMapHas(seed.refs);
      forall r ensures r !in plan.update {
        assert SeedRef(r.name, r.oid) == r;
        if r in seed.refs { assert (r.name, r.oid) in current; }
      }
      forall n ensures n !in plan.delete {
        if b :| b in current && b.0 == n { assert (b.0, b.1) in current; }
      }
      SomethingInIt(plan.update);
      SomethingInIt(plan.delete);
    }
  }

  /** After a reset there is nothing left to plan, however the branches are then listed. */
  lemma {:induction false} ReplanningIsEmpty(seed: Seed, current: seq<Branch>, after: seq<Branch>)
    requires OneTipEach(seed.refs) && DistinctBranches(current) && DistinctBranches(after)
    requires BranchMap(after) == Apply(BranchMap(current), Plan(seed, current))
    ensures Plan(seed, after) == ResetPlan([], [])
  {
    ResetLandsOnTheSeed(seed, current);
    PlanIsEmptyIffOnSeed(seed, after);
  }

  /** A seed that names a branch at two tips is never reached: no listing of the branches leaves the plan empty. */
  lemma TwoTipsAreNeverReached(seed: Seed, current: seq<Branch>)
    requires DistinctBranches(current) && !OneTipEach(seed.refs)
    ensures Plan(seed, current).update != []
  {
    var r, s :| r in seed.refs && s in seed.refs && r.name == s.name && r.oid != s.oid;
    PlanHolds(seed, current);
    BranchMapHas(current);
    assert !((r.name, r.oid) in current && (s.name, s.oid) in current);
    assert r in Plan(seed, current).update || s in Plan(seed, current).update;
  }

  /** A reset leaves nothing to plan exactly when the seed names no branch at two tips. */
  lemma {:induction false} ReplanningIsEmptyIff(seed: Seed, current: seq<Branch>, after: seq<Branch>)
    requires DistinctBranches(current) && DistinctBranches(after)
    requires BranchMap(after) == Apply(BranchMap(current), Plan(seed, current))
    ensures Plan(seed, after) == ResetPlan([], []) <==> OneTipEach(seed.refs)
  {
    if OneTipEach(seed.refs) {
      ReplanningIsEmpty(seed, current, after);
    } else {
      TwoTipsAreNeverReached(seed, after);
    }
  }

  /** The branches are exactly the seed's, each at every tip the seed records for it. */
  ghost predicate Reached(m: map<string, string>, refs: seq<SeedRef>) {
    && (forall n :: n in m <==> Names(refs, n))
    && forall r | r in refs :: r.name in m && m[r.name] == r.oid
  }

  /** The plan is empty exactly when the branches already are the seed's, whatever the seed. */
  lemma {:induction false} PlanIsEmptyIffReached(seed: Seed, current: seq<Branch>)
    requires DistinctBranches(current)
    ensures Plan(seed, current) == ResetPlan([], []) <==> Reached(BranchMap(current), seed.refs)
  {
    var plan, m := Plan(seed, current), BranchMap(current);
    PlanHolds(seed, current);
    BranchMapHas(current);
    hide Plan, BranchMap, DistinctBranches;
    SomethingInIt(plan.update);
    SomethingInIt(plan.delete);
    if plan == ResetPlan([], []) {
      forall r | r in seed.refs ensures r.name in m && m[r.name] == r.oid { assert r !in plan.update; }
      forall n ensures n in m <==> Names(seed.refs, n) {
        if n in m { assert (n, m[n]) in current && n !in plan.delete; }
      }
    }
    if Reached(m, seed.refs) {
      forall n ensures n !in plan.delete {
        if b :| b in current && b.0 == n { assert (b.0, b.1) in current; }
      }
    }
  }

  /** Every branch of the seed ends at its recorded tip, and no other is left, exactly when no branch has two. */
  lemma {:induction false} ResetReachesTheSeedIff(seed: Seed, current: seq<Branch>)
    requires DistinctBranches(current)
    ensures Reached(Apply(BranchMap(current), Plan(seed, current)), seed.refs) <==> OneTipEach(seed.refs)
  {
    if OneTipEach(seed.refs) {
      ResetLandsOnTheSeed(seed, current);
      SeedMapHas(seed.refs);
      assert forall r | r in seed.refs :: SeedRef(r.name, r.oid) in seed.refs;
    }
  }

  /** No entry is a no-op: each changes the branch map it is planned against. */
  lemma {:induction false} NoEntryIsIdle(seed: Seed, current: seq<Branch>)
    requires DistinctBranches(current)
    ensures var m := BranchMap(current);
            && (forall r | r in Plan(seed, current).update :: m[r.name := r.oid] != m)
            && (forall n | n in Plan(seed, current).delete :: m - {n} != m)
  {
    var m := BranchMap(current);
    PlanHolds(seed, current);
    BranchMapHas(current);
    forall r | r in Plan(seed, current).update ensures m[r.name := r.oid] != m {
      assert m[r.name := r.oid][r.name] == r.oid;
    }
    forall n | n in Plan(seed, current).delete ensures m - {n} != m {
      var b :| b in current && b.0 == n;
      assert (b.0, b.1) in current;
      assert n in m;
    }
  }

  function Named(n: string): Branch -> bool { (b: Branch) => b.0 == n }

  lemma {:induction false} BranchNamesCount(branches: seq<Branch>, n: string)
    ensures multiset(BranchNames(branches))[n] == |Filter(Named(n), branches)|
  {
    if branches != [] { BranchNamesCount(branches[1..], n); }
  }

  lemma {:induction false} BranchNamesPermute(x: seq<Branch>, y: seq<Branch>)
    requires multiset(x) == multiset(y)
    ensures multiset(BranchNames(x)) == multiset(BranchNames(y))
  {
    forall n ensures multiset(BranchNames(x))[n] == multiset(BranchNames(y))[n] {
      BranchNamesCount(x, n);
      BranchNamesCount(y, n);
      FilterPermutes(Named(n), x, y);
      assert |multiset(Filter(Named(n), x))| == |multiset(Filter(Named(n), y))|;
    }
  }

  /** The plan does not depend on the order in which the current branches are listed. */
  lemma PlanIgnoresOrder(seed: Seed, current: seq<Branch>, shuffled: seq<Branch>)
    requires multiset(current) == multiset(shuffled)
    ensures Plan(seed, current) == Plan(seed, shuffled)
  {
    forall b ensures b in current <==> b in shuffled { assert b in multiset(current) <==> b in multiset(shuffled); }
    FilterAgree(Stale(current), Stale(shuffled), seed.refs);
    var p := Unseeded(seed.refs);
    FilterPermutes(p, current, shuffled);
    var x, y := BranchNames(Filter(p, current)), BranchNames(Filter(p, shuffled));
    BranchNamesPermute(Filter(p, current), Filter(p, shuffled));
    hide Sort, SortedBy, Filter, BranchNames;
    StringOrder();
    SortIsSortedPermutation(StringLe, x);
    SortIsSortedPermutation(StringLe, y);
    SortedPermutationUnique(StringLe, Sort(StringLe, x), Sort(StringLe, y));
  }

  // ----- reading a seed -----

  /** A line that names a commit and a branch. */
  ghost predicate WellFormed(line: string) {
    var text := Trim(line);
    var i := Find(text, ' ', 0);
    i < |text| && IsOid(text[..i])
  }

  lemma {:induction false} TrimEndEnds(s: string)
    ensures TrimEnd(s) != "" ==> !IsSpace(TrimEnd(s)[|TrimEnd(s)| - 1])
  {
    if s != "" && IsSpace(s[|s| - 1]) { TrimEndEnds(s[..|s| - 1]); }
  }

  /** After trimming a name is never empty, so a line is accepted exactly when it is well formed. */
  lemma LineIsReadIff(line: string)
    ensures ParseLine(line).Ok? <==> WellFormed(line)
    ensures ParseLine(line).Err? ==> !ParseLine(line).error.EmptyName?
  {
    var text := Trim(line);
    var i := Find(text, ' ', 0);
    TrimEndEnds(TrimStart(line));
    assert text != "" ==> text[|text| - 1] != ' ';
  }

  lemma {:induction false} LinesAreReadIff(lines: seq<string>)
    ensures ParseLines(lines).Ok? <==> forall l | l in lines :: WellFormed(l)
    ensures ParseLines(lines).Ok? ==>
              && |ParseLines(lines).value| == |lines|
              && forall k | 0 <= k < |lines| :: ParseLine(lines[k]) == Ok(ParseLines(lines).value[k])
  {
    if lines != [] {
      assert lines == [lines[0]] + lines[1..];
      LineIsReadIff(lines[0]);
      LinesAreReadIff(lines[1..]);
    }
  }

  /** A seed is read only whole: every non-blank line well formed, none skipped, and the head among them. */
  lemma {:induction false} SeedIsReadWholeOrRefused(refs: string, headText: string)
    ensures var lines := Filter(NotBlank, Lines(refs));
            && (Parsed(refs, headText).Ok? <==>
                  && Trim(headText) != "" && lines != []
                  && (forall l | l in lines :: WellFormed(l))
                  && exists k | 0 <= k < |lines| :: ParseLine(lines[k]).Ok? && ParseLine(lines[k]).value.name == Trim(headText))
            && (Parsed(refs, headText).Ok? ==>
                  var seed := Parsed(refs, headText).value;
                  && seed.head == Trim(headText) && |seed.refs| == |lines|
                  && forall k | 0 <= k < |lines| :: ParseLine(lines[k]) == Ok(seed.refs[k]))
  {
    var lines := Filter(NotBlank, Lines(refs));
    LinesAreReadIff(lines);
    if ParseLines(lines).Ok? {
      var parsed := ParseLines(lines).value;
      assert Names(parsed, Trim(headText)) <==>
        exists k | 0 <= k < |parsed| :: parsed[k].name == Trim(headText);
    }
  }

  /** Every id of a seed that was read is forty lower-case hexadecimal digits. */
  lemma {:induction false} SeedIdsAreCommits(refs: string, headText: string)
    ensures Parsed(refs, headText).Ok? ==>
              forall r | r in Parsed(refs, headText).value.refs :: |r.oid| == 40 && forall c | c in r.oid :: c in "0123456789abcdef"
  {
    SeedIsReadWholeOrRefused(refs, headText);
    if Parsed(refs, headText).Ok? {
      var lines, parsed := Filter(NotBlank, Lines(refs)), Parsed(refs, headText).value.refs;
      hide Parsed, ParseLine;
      forall r | r in parsed ensures |r.oid| == 40 && forall c | c in r.oid :: c in "0123456789abcdef" {
        var k :| 0 <= k < |parsed| && parsed[k] == r;
        ReadIdIsCommit(lines[k]);
      }
    }
  }

  lemma ReadIdIsCommit(line: string)
    ensures ParseLine(line).Ok? ==>
              |ParseLine(line).value.oid| == 40 && forall c | c in ParseLine(line).value.oid :: c in "0123456789abcdef"
  {
    var text := Trim(line);
    var oid := text[..Find(text, ' ', 0)];
    hide Trim, Find;
    if ParseLine(line).Ok? {
      forall i | 0 <= i < |oid| ensures Lower(oid)[i] in "0123456789abcdef" { LowerHex(oid[i]); }
    }
  }

  /** The digits an id may have, in either case. */
  lemma HexDigits(c: char)
    ensures IsHexDigit(c) <==> c in "0123456789abcdefABCDEF"
  {
    var digits := "0123456789abcdefABCDEF";
    if '0' <= c <= '9' { assert digits[c as int - '0' as int] == c; }
    if 'a' <= c <= 'f' { assert digits[10 + (c as int - 'a' as int)] == c; }
    if 'A' <= c <= 'F' { assert digits[16 + (c as int - 'A' as int)] == c; }
  }

  lemma LowerHex(c: char)
    requires IsHexDigit(c)
    ensures LowerChar(c) in "0123456789abcdef"
  {
    var digits, d := "0123456789abcdef", LowerChar(c);
    if '0' <= d <= '9' { assert digits[d as int - '0' as int] == d; } else { assert digits[10 + (d as int - 'a' as int)] == d; }
  }

  /** What a line says, if it names an id and a branch. */
  ghost predicate SaysIdAndName(line: string, oid: string, name: string) {
    Trim(line) == oid + " " + name && ' ' !in oid
  }

  /** The id could not be a commit's. */
  ghost predicate IsNoCommit(oid: string) { |oid| != 40 || exists c | c in oid :: c !in "0123456789abcdefABCDEF" }

  /** Each line gives its branch and its id in lower case, or is refused for just what is wrong with it. */
  lemma LineSays(line: string, oid: string, name: string)
    requires SaysIdAndName(line, oid, name)
    ensures IsNoCommit(oid) ==> ParseLine(line) == Err(MalformedOid(oid))
    ensures !IsNoCommit(oid) ==> ParseLine(line).Ok? && ParseLine(line).value.name == name && SameButForCase(ParseLine(line).value.oid, oid)
  {
    LineIsReadIff(line);
    var text := Trim(line);
    assert text[|oid|] == ' ' && text[..|oid|] == oid && text[|oid| + 1..] == name;
    assert forall k | 0 <= k < |oid| :: text[k] == oid[k] && oid[k] in oid;
    FindAt(text, ' ', |oid|);
    forall c ensures IsHexDigit(c) <==> c in "0123456789abcdefABCDEF" { HexDigits(c); }
    hide Trim, IsHexDigit;
    assert IsNoCommit(oid) <==> !IsOid(oid) by {
      if i :| 0 <= i < |oid| && !IsHexDigit(oid[i]) { assert oid[i] in oid; }
    }
  }

  /** Letter by letter the same, or the small letter for the capital. */
  ghost predicate SameButForCase(lower: string, oid: string) {
    |lower| == |oid| && forall i | 0 <= i < |oid| :: lower[i] == (if 'A' <= oid[i] <= 'Z' then (oid[i] as int + 32) as char else oid[i])
  }

  /** A line without a separator is refused as it stands. */
  lemma LineWithoutSeparator(line: string)
    requires ' ' !in Trim(line)
    ensures ParseLine(line) == Err(MalformedLine(line))
  {
    assert forall k | 0 <= k < |Trim(line)| :: Trim(line)[k] in Trim(line);
    FindAt(Trim(line), ' ', |Trim(line)|);
  }

  /** The first bad line decides the error. */
  lemma {:induction false} FirstBadLineIsTheError(lines: seq<string>, k: nat)
    requires k < |lines| && (forall i | 0 <= i < k :: ParseLine(lines[i]).Ok?) && ParseLine(lines[k]).Err?
    ensures ParseLines(lines) == Err(ParseLine(lines[k]).error)
  {
    hide ParseLine;
    if k > 0 { FirstBadLineIsTheError(lines[1..], k - 1); }
  }

  /** In this order: an empty head, the first bad line, no branch, a head that is not among them. */
  lemma {:induction false} ErrorsInOrder(refs: string, headText: string, k: nat)
    ensures var head, lines := Trim(headText), Filter(NotBlank, Lines(refs));
            && (head == "" ==> Parsed(refs, headText) == Err(EmptyHead))
            && (head != "" && k < |lines| && (forall i | 0 <= i < k :: ParseLine(lines[i]).Ok?) && ParseLine(lines[k]).Err? ==>
                  Parsed(refs, headText) == Err(ParseLine(lines[k]).error))
            && (head != "" && lines == [] ==> Parsed(refs, headText) == Err(NoBranches))
            && (head != "" && lines != [] && (forall i | 0 <= i < |lines| :: ParseLine(lines[i]).Ok? && ParseLine(lines[i]).value.name != head) ==>
                  Parsed(refs, headText) == Err(HeadNotSeeded(head)))
  {
    var head, lines := Trim(headText), Filter(NotBlank, Lines(refs));
    hide ParseLine, Trim, Lines, Filter;
    if k < |lines| && (forall i | 0 <= i < k :: ParseLine(lines[i]).Ok?) && ParseLine(lines[k]).Err? {
      FirstBadLineIsTheError(lines, k);
    }
    if forall i | 0 <= i < |lines| :: ParseLine(lines[i]).Ok? && ParseLine(lines[i]).value.name != head { AllLinesRead(lines); }
  }

  lemma {:induction false} AllLinesRead(lines: seq<string>)
    requires forall i | 0 <= i < |lines| :: ParseLine(lines[i]).Ok?
    ensures ParseLines(lines).Ok? && |ParseLines(lines).value| == |lines|
    ensures forall i | 0 <= i < |lines| :: ParseLines(lines).value[i] == ParseLine(lines[i]).value
  {
    hide ParseLine;
    if lines != [] { AllLinesRead(lines[1..]); }
  }

  // ----- a recorded seed reads back -----

  /** One line of the seed file, as `git for-each-ref` writes it. */
  function RefLine(r: SeedRef): string { r.oid + " " + r.name }

  function RefLines(refs: seq<SeedRef>): string {
    if refs == [] then "" else RefLine(refs[0]) + "\n" + RefLines(refs[1..])
  }

  /** A commit id in lower case and a branch name on one line, not ending in white space. */
  ghost predicate Recordable(r: SeedRef) {
    && IsOid(r.oid) && (forall i | 0 <= i < |r.oid| :: LowerChar(r.oid[i]) == r.oid[i])
    && r.name != "" && !IsSpace(r.name[|r.name| - 1]) && forall i | 0 <= i < |r.name| :: r.name[i] != '\n'
  }

  lemma RefLineReadsBack(r: SeedRef)
    requires Recordable(r)
    ensures ParseLine(RefLine(r)) == Ok(r) && NotBlank(RefLine(r))
  {
    var line := RefLine(r);
    assert line[0] == r.oid[0] && line[|line| - 1] == r.name[|r.name| - 1];
    TrimTrimmed(line);
    assert forall k | 0 <= k < 40 :: line[k] == r.oid[k] && IsHexDigit(r.oid[k]);
    FindAt(line, ' ', 40);
    assert line[..40] == r.oid && line[41..] == r.name;
    assert Lower(r.oid) == r.oid;
  }

  lemma {:induction false} LinesOne(line: string, rest: string)
    requires line != "" && !IsSpace(line[|line| - 1]) && forall i | 0 <= i < |line| :: line[i] != '\n'
    ensures Lines(line + "\n" + rest) == [line] + Lines(rest)
  {
    var text := line + "\n" + rest;
    FindAt(text, '\n', |line|);
    assert text[..|line|] == line && text[|line| + 1..] == rest;
  }

  lemma {:induction false} RefLineIsALine(r: SeedRef, rest: string)
    requires Recordable(r)
    ensures Lines(RefLine(r) + "\n" + rest) == [RefLine(r)] + Lines(rest)
  {
    var line := RefLine(r);
    assert line[|line| - 1] == r.name[|r.name| - 1];
    forall i | 0 <= i < |line| ensures line[i] != '\n' {
      if i < 40 { assert line[i] == r.oid[i] && IsHexDigit(r.oid[i]); }
      if i > 40 { assert line[i] == r.name[i - 41]; }
    }
    LinesOne(line, rest);
  }

  lemma {:induction false} ReadOneMore(r: SeedRef, lines: seq<string>, refs: seq<SeedRef>)
    requires ParseLine(RefLine(r)) == Ok(r) && NotBlank(RefLine(r))
    requires ParseLines(Filter(NotBlank, lines)) == Ok(refs)
    ensures ParseLines(Filter(NotBlank, [RefLine(r)] + lines)) == Ok([r] + refs)
  {
    hide ParseLine, NotBlank, RefLine;
    var all := [RefLine(r)] + lines;
    assert all[0] == RefLine(r) && all[1..] == lines;
    var kept := [RefLine(r)] + Filter(NotBlank, lines);
    assert kept[0] == RefLine(r) && kept[1..] == Filter(NotBlank, lines);
  }

  lemma {:induction false} RefLinesReadBack(refs: seq<SeedRef>)
    requires forall r | r in refs :: Recordable(r)
    ensures ParseLines(Filter(NotBlank, Lines(RefLines(refs)))) == Ok(refs)
  {
    if refs != [] {
      hide Recordable, NotBlank, ParseLine, Lines, RefLine, ParseLines, Filter;
      assert refs[0] in refs && forall x | x in refs[1..] :: x in refs;
      RefLinesReadBack(refs[1..]);
      RefLineReadsBack(refs[0]);
      RefLineIsALine(refs[0], RefLines(refs[1..]));
      ReadOneMore(refs[0], Lines(RefLines(refs[1..])), refs[1..]);
      assert [refs[0]] + refs[1..] == refs;
    }
  }

  /** A line ends at its line feed, and a return right before that is no part of it; the last line may do without one. */
  lemma {:induction false} LinesUnfold(line: string, rest: string)
    requires '\n' !in line
    ensures Lines(line + "\n" + rest) == [line] + Lines(rest) || (line != "" && line[|line| - 1] == '\r')
    ensures Lines(line + "\r\n" + rest) == [line] + Lines(rest)
    ensures Lines(line) == if line == "" then [] else [line]
  {
    assert forall k | 0 <= k < |line| :: line[k] in line;
    FindAt(line, '\n', |line|);
    var text, returned := line + "\n" + rest, line + "\r\n" + rest;
    FindAt(text, '\n', |line|);
    FindAt(returned, '\n', |line| + 1);
    assert text[..|line|] == line && text[|line| + 1..] == rest;
    assert returned[..|line| + 1] == line + "\r" && returned[|line| + 2..] == rest;
    assert (line + "\r")[..|line|] == line;
  }

  /** A line of a seed file as someone may have left it: blank, or an entry with white space around it. */
  datatype Item = Blank(space: string) | Entry(front: string, ref: SeedRef, back: string)

  ghost predicate Space(s: string) { forall c | c in s :: IsSpace(c) && c != '\n' && c != '\r' }

  ghost predicate LaidOut(items: seq<Item>) {
    forall i | i in items ::
      match i
      case Blank(space) => Space(space)
      case Entry(front, ref, back) => Space(front) && Space(back) && Recordable(ref)
  }

  function TextOf(items: seq<Item>): string {
    if items == [] then ""
    else (match items[0] case Blank(space) => space case Entry(front, ref, back) => front + RefLine(ref) + back) + "\n" + TextOf(items[1..])
  }

  function EntriesOf(items: seq<Item>): seq<SeedRef> {
    if items == [] then [] else (if items[0].Entry? then [items[0].ref] else []) + EntriesOf(items[1..])
  }

  /** Blank lines are skipped, white space around an entry is no part of it, and every entry is read. */
  lemma {:induction false} AnyLayoutIsRead(items: seq<Item>)
    requires LaidOut(items)
    ensures ParseLines(Filter(NotBlank, Lines(TextOf(items)))) == Ok(EntriesOf(items))
  {
    hide Lines, ParseLines, NotBlank, Filter, Space, Recordable, RefLine;
    if items == [] {
      NothingIsRead();
    } else {
      var item, rest, later := items[0], TextOf(items[1..]), EntriesOf(items[1..]);
      assert item in items && forall i | i in items[1..] :: i in items;
      AnyLayoutIsRead(items[1..]);
      match item {
        case Blank(space) =>
          BlankIsSkipped(space, rest);
          assert [] + later == later;
        case Entry(front, ref, back) =>
          EntryIsRead(front, ref, back, rest, later);
      }
    }
  }

  lemma {:induction false} NothingIsRead()
    ensures ParseLines(Filter(NotBlank, Lines(""))) == Ok([])
  {
  }

  lemma {:induction false} BlankIsSkipped(space: string, rest: string)
    requires Space(space)
    ensures Filter(NotBlank, Lines(space + "\n" + rest)) == Filter(NotBlank, Lines(rest))
  {
    if space != "" { assert space[|space| - 1] in space; }
    LinesUnfold(space, rest);
    TrimPadded(space, "", "");
    assert space + "" + "" == space;
    hide Lines, Trim;
    var all := [space] + Lines(rest);
    assert all[0] == space && all[1..] == Lines(rest);
  }

  lemma {:induction false} EntryIsRead(front: string, ref: SeedRef, back: string, rest: string, later: seq<SeedRef>)
    requires Space(front) && Space(back) && Recordable(ref)
    requires ParseLines(Filter(NotBlank, Lines(rest))) == Ok(later)
    ensures ParseLines(Filter(NotBlank, Lines(front + RefLine(ref) + back + "\n" + rest))) == Ok([ref] + later)
  {
    var line := front + RefLine(ref) + back;
    EntryIsALine(front, ref, back);
    LinesUnfold(line, rest);
    PaddedIsRead(front, ref, back);
    hide Lines, ParseLine, NotBlank, RefLine, Recordable;
    var all := [line] + Lines(rest);
    assert all[0] == line && all[1..] == Lines(rest);
    var kept := [line] + Filter(NotBlank, Lines(rest));
    assert kept[0] == line && kept[1..] == Filter(NotBlank, Lines(rest));
  }

  lemma {:induction false} EntryIsALine(front: string, ref: SeedRef, back: string)
    requires Space(front) && Space(back) && Recordable(ref)
    ensures var line := front + RefLine(ref) + back; '\n' !in line && line != "" && line[|line| - 1] != '\r'
  {
    var text, line := RefLine(ref), front + RefLine(ref) + back;
    assert text[|text| - 1] == ref.name[|ref.name| - 1] && !IsSpace(text[|text| - 1]);
    assert line[|line| - 1] == if back == "" then text[|text| - 1] else back[|back| - 1];
    if back != "" { assert back[|back| - 1] in back; }
    forall c | c in text ensures c != '\n' {
      var i :| 0 <= i < |text| && text[i] == c;
      if i < 40 { assert text[i] == ref.oid[i] && IsHexDigit(ref.oid[i]); }
      if i > 40 { assert text[i] == ref.name[i - 41]; }
    }
  }

  lemma {:induction false} PaddedIsRead(front: string, ref: SeedRef, back: string)
    requires Space(front) && Space(back) && Recordable(ref)
    ensures var line := front + RefLine(ref) + back; ParseLine(line) == Ok(ref) && NotBlank(line)
  {
    var text := RefLine(ref);
    RefLineReadsBack(ref);
    assert text[0] == ref.oid[0] && IsHexDigit(ref.oid[0]) && !IsSpace(text[0]);
    assert text[|text| - 1] == ref.name[|ref.name| - 1];
    TrimPadded(front, text, back);
    TrimPadded("", text, "");
    assert "" + text + "" == text;
    hide Trim, RefLine, ParseLine;
    TrimmedAlikeReadAlike(front + text + back, text);
  }

  lemma TrimmedAlikeReadAlike(a: string, b: string)
    requires Trim(a) == Trim(b) && ParseLine(b).Ok?
    ensures ParseLine(a) == ParseLine(b)
  {
  }

  /** The parser accepts a file that lists a branch at two tips, and no reset ever reaches that seed. */
  lemma {:induction false} TwoTipsAreAccepted(a: string, b: string, current: seq<Branch>)
    requires Recordable(SeedRef("main", a)) && Recordable(SeedRef("main", b)) && a != b && DistinctBranches(current)
    ensures var refs := [SeedRef("main", a), SeedRef("main", b)];
            && Parsed(RefLines(refs), "main\n") == Ok(Seed("main", refs))
            && Plan(Seed("main", refs), current) != ResetPlan([], [])
  {
    var refs := [SeedRef("main", a), SeedRef("main", b)];
    hide Recordable, Parsed, RefLines, Plan;
    MainTrims();
    assert refs[0] in refs && refs[1] in refs;
    assert "main" + "\n" == "main\n";
    SeedReadsBack(Seed("main", refs));
    TwoTipsAreNeverReached(Seed("main", refs), current);
  }

  lemma MainTrims()
    ensures Trim("main\n") == "main"
  {
    assert "main\n"[..4] == "main";
    assert TrimStart("main\n") == "main\n" && TrimEnd("main") == "main";
  }

  /** The two files recorded for a seed read back as that seed. */
  lemma SeedReadsBack(seed: Seed)
    requires (forall r | r in seed.refs :: Recordable(r)) && Names(seed.refs, seed.head)
    requires Trim(seed.head + "\n") == seed.head && seed.head != ""
    ensures Parsed(RefLines(seed.refs), seed.head + "\n") == Ok(seed)
  {
    RefLinesReadBack(seed.refs);
  }
}
