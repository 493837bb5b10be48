/** The stream is a function of what was recorded, and nothing recorded differently gives the same stream. */
module GenerationTheorems {
  import opened Basics
  import opened Sorting
  import opened Generation

  // ----- fields and maps -----

  ghost predicate UniqueKeys(fields: seq<Field>) {
    forall i, j | 0 <= i < j < |fields| :: fields[i].0 != fields[j].0
  }

  ghost predicate Represents(fields: seq<Field>, m: map<Bytes, Bytes>) {
    && UniqueKeys(fields)
    && forall k, v :: (k, v) in fields <==> k in m && m[k] == v
  }

  lemma {:induction false} SetFieldKeys(fields: seq<Field>, key: Bytes, value: Bytes)
    requires UniqueKeys(fields)
    ensures UniqueKeys(SetField(fields, key, value))
    ensures forall f :: f in SetField(fields, key, value) <==> f == (key, value) || (f in fields && f.0 != key)
  {
    if fields != [] {
      var rest := fields[1..];
      assert fields == [fields[0]] + rest;
      assert forall f | f in rest :: f.0 != fields[0].0;
      if fields[0].0 != key {
        SetFieldKeys(rest, key, value);
        var r := SetField(rest, key, value);
        assert forall j | 0 <= j < |r| :: r[j] in r;
      }
    }
  }

  lemma {:induction false} FieldsRepresentRecord(calls: seq<Field>)
    ensures Represents(FieldsAfter(calls), Recorded(calls))
  {
    if calls != [] {
      var n := |calls| - 1;
      FieldsRepresentRecord(calls[..n]);
      SetFieldKeys(FieldsAfter(calls[..n]), calls[n].0, calls[n].1);
    }
  }

  lemma {:induction false} UniqueCounts(fields: seq<Field>, f: Field)
    requires UniqueKeys(fields)
    ensures multiset(fields)[f] == if f in fields then 1 else 0
  {
    if fields != [] {
      assert fields == [fields[0]] + fields[1..];
      UniqueCounts(fields[1..], f);
    }
  }

  lemma SameMapSameMultiset(a: seq<Field>, b: seq<Field>, m: map<Bytes, Bytes>)
    requires Represents(a, m) && Represents(b, m)
    ensures multiset(a) == multiset(b)
  {
    forall f ensures multiset(a)[f] == multiset(b)[f] {
      UniqueCounts(a, f);
      UniqueCounts(b, f);
      assert (f.0, f.1) in a <==> (f.0, f.1) in b;
    }
  }

  // ----- sorting -----

  lemma FieldOrder()
    ensures TotalPreorder(FieldLe) && Antisymmetric(FieldLe)
  {
    forall a, b ensures FieldLe(a, b) || FieldLe(b, a) { LexTotal(a.0, b.0); LexTotal(a.1, b.1); }
    forall a, b | FieldLe(a, b) && FieldLe(b, a) ensures a == b { LexTotal(a.0, b.0); LexTotal(a.1, b.1); }
    forall a, b, c | FieldLe(a, b) && FieldLe(b, c) ensures FieldLe(a, c) {
      LexTotal(a.0, b.0);
      if a.0 == b.0 == c.0 {
        LexTransitive(a.1, b.1, c.1);
      } else if a.0 != b.0 && b.0 != c.0 {
        LexTransitive(a.0, b.0, c.0);
      }
    }
  }

  lemma {:induction false} SortIgnoresOrder(a: seq<Field>, b: seq<Field>)
    requires multiset(a) == multiset(b)
    ensures Sort(FieldLe, a) == Sort(FieldLe, b)
  {
    FieldOrder();
    SortIsSortedPermutation(FieldLe, a);
    SortIsSortedPermutation(FieldLe, b);
    SortedPermutationUnique(FieldLe, Sort(FieldLe, a), Sort(FieldLe, b));
  }

  // ----- unique decoding -----

  ghost function Pow256(w: nat): nat { if w == 0 then 1 else 256 * Pow256(w - 1) }

  /** What a run of bytes is worth, most significant first. */
  ghost function Value(bytes: Bytes): nat {
    if bytes == [] then 0 else bytes[0] * Pow256(|bytes| - 1) + Value(bytes[1..])
  }

  lemma {:induction false} ValueSnoc(bytes: Bytes, b: byte)
    ensures Value(bytes + [b]) == 256 * Value(bytes) + b
  {
    var all := bytes + [b];
    if bytes == [] {
      assert all == [b] && all[1..] == [];
      assert Value([b]) == b * Pow256(0) + Value([]);
    } else {
      assert all[1..] == bytes[1..] + [b];
      ValueSnoc(bytes[1..], b);
      assert bytes[0] * Pow256(|bytes|) == 256 * (bytes[0] * Pow256(|bytes| - 1));
    }
  }

  /** Any length the width can hold is written so that it reads back. */
  lemma {:induction false} BigEndianReadsBack(n: nat, width: nat)
    requires n < Pow256(width)
    ensures |BigEndian(n, width)| == width && Value(BigEndian(n, width)) == n
  {
    if width > 0 {
      BigEndianReadsBack(n / 256, width - 1);
      ValueSnoc(BigEndian(n / 256, width - 1), n % 256);
    }
  }

  lemma {:induction false} BigEndianInjective(n: nat, m: nat, width: nat)
    requires n < Pow256(width) && m < Pow256(width) && BigEndian(n, width) == BigEndian(m, width)
    ensures n == m
  {
    BigEndianReadsBack(n, width);
    BigEndianReadsBack(m, width);
  }

  lemma {:induction false} BigEndianLength(n: nat, width: nat)
    ensures |BigEndian(n, width)| == width
  {
    if width > 0 { BigEndianLength(n / 256, width - 1); }
  }

  lemma EightBytesHoldALength()
    ensures Pow256(8) == LENGTH_LIMIT
  {
    assert Pow256(4) == 0x1_0000_0000;
    assert Pow256(8) == 256 * (256 * (256 * (256 * Pow256(4))));
  }

  /** A length-prefixed string can be told from what follows it. */
  lemma StringSplitsOff(s: Bytes, t: Bytes, s': Bytes, t': Bytes)
    requires |s| < LENGTH_LIMIT && |s'| < LENGTH_LIMIT
    requires EncodeString(s) + t == EncodeString(s') + t'
    ensures s == s' && t == t'
  {
    var all := EncodeString(s) + t;
    BigEndianLength(|s|, 8);
    BigEndianLength(|s'|, 8);
    EightBytesHoldALength();
    assert all[..8] == BigEndian(|s|, 8) && all[..8] == BigEndian(|s'|, 8);
    BigEndianInjective(|s|, |s'|, 8);
    assert all[8..8 + |s|] == s && all[8..8 + |s|] == s';
    assert all[8 + |s|..] == t && all[8 + |s|..] == t';
  }

  ghost predicate Fits(fields: seq<Field>) {
    forall f | f in fields :: |f.0| < LENGTH_LIMIT && |f.1| < LENGTH_LIMIT
  }

  lemma {:induction false} EncodeInjective(a: seq<Field>, b: seq<Field>)
    requires Fits(a) && Fits(b) && Encode(a) == Encode(b)
    ensures a == b
  {
    if a != [] { BigEndianLength(|a[0].0|, 8); assert a[0] in a; }
    if b != [] { BigEndianLength(|b[0].0|, 8); assert b[0] in b; }
    if a != [] && b != [] {
      StringSplitsOff(a[0].0, EncodeString(a[0].1) + Encode(a[1..]), b[0].0, EncodeString(b[0].1) + Encode(b[1..]));
      StringSplitsOff(a[0].1, Encode(a[1..]), b[0].1, Encode(b[1..]));
      EncodeInjective(a[1..], b[1..]);
      assert a == [a[0]] + a[1..] && b == [b[0]] + b[1..];
    }
  }

  // ----- reading the stream -----

  /** A string as the stream holds it: eight bytes for its length, then that many. */
  ghost function ReadString(bytes: Bytes): Option<(Bytes, Bytes)> {
    if |bytes| < 8 then None
    else
      var n := Value(bytes[..8]);
      if |bytes| - 8 < n then None else Some((bytes[8..8 + n], bytes[8 + n..]))
  }

  /** Key and value in turn, to the end. */
  ghost function Decode(bytes: Bytes): Option<seq<Field>>
    decreases |bytes|
  {
    if bytes == [] then Some([])
    else
      match ReadString(bytes)
      case None => None
      case Some((key, afterKey)) =>
        match ReadString(afterKey)
        case None => None
        case Some((value, later)) =>
          match Decode(later)
          case None => None
          case Some(fields) => Some([(key, value)] + fields)
  }

  lemma ReadsBack(s: Bytes, later: Bytes)
    requires |s| < LENGTH_LIMIT
    ensures ReadString(EncodeString(s) + later) == Some((s, later))
  {
    EightBytesHoldALength();
    BigEndianReadsBack(|s|, 8);
    var all := EncodeString(s) + later;
    assert all[..8] == BigEndian(|s|, 8) && all[8..8 + |s|] == s && all[8 + |s|..] == later;
  }

  lemma {:induction false} EncodeReadsBack(fields: seq<Field>)
    requires Fits(fields)
    ensures Decode(Encode(fields)) == Some(fields)
  {
    if fields != [] {
      var f, later := fields[0], Encode(fields[1..]);
      assert f in fields && forall g | g in fields[1..] :: g in fields;
      EncodeReadsBack(fields[1..]);
      FieldReadsBack(f, later);
      hide Decode, EncodeString;
      assert fields == [f] + fields[1..];
    }
  }

  lemma {:induction false} FieldReadsBack(f: Field, later: Bytes)
    requires |f.0| < LENGTH_LIMIT && |f.1| < LENGTH_LIMIT && Decode(later).Some?
    ensures Decode(EncodeString(f.0) + (EncodeString(f.1) + later)) == Some([f] + Decode(later).value)
  {
    ReadsBack(f.0, EncodeString(f.1) + later);
    ReadsBack(f.1, later);
    BigEndianLength(|f.0|, 8);
    assert |EncodeString(f.0)| >= 8;
    hide ReadString, EncodeString, Value;
  }

  /** Keys in ascending byte order. */
  ghost predicate Ascending(fields: seq<Field>) {
    forall i, j | 0 <= i < j < |fields| :: Precedes(fields[i].0, fields[j].0)
  }

  /** The stream lists what was recorded: each key once, with its last value, the keys in ascending byte order. */
  lemma {:induction false} StreamListsTheRecord(calls: seq<Field>) returns (fields: seq<Field>)
    requires Fits(calls)
    ensures Decode(Stream(FieldsAfter(calls))) == Some(fields)
    ensures forall key, value :: (key, value) in fields <==> key in Recorded(calls) && Recorded(calls)[key] == value
    ensures Ascending(fields)
  {
    var unsorted := FieldsAfter(calls);
    fields := Sort(FieldLe, unsorted);
    FieldsRepresentRecord(calls);
    FieldsFit(calls);
    SortKeepsFields(unsorted);
    EncodeReadsBack(fields);
    FieldOrder();
    SortIsSortedPermutation(FieldLe, unsorted);
    SortedKeysAscend(unsorted, fields);
  }

  lemma {:induction false} SortedKeysAscend(unsorted: seq<Field>, fields: seq<Field>)
    requires UniqueKeys(unsorted) && multiset(fields) == multiset(unsorted) && SortedBy(FieldLe, fields)
    ensures Ascending(fields)
  {
    forall i, j | 0 <= i < j < |fields| ensures Precedes(fields[i].0, fields[j].0) {
      assert FieldLe(fields[i], fields[j]);
      LexIsBefore(fields[i].0, fields[j].0);
      if fields[i].0 == fields[j].0 { KeysStayUnique(unsorted, fields, i, j); }
    }
  }

  lemma KeysStayUnique(unsorted: seq<Field>, fields: seq<Field>, i: nat, j: nat)
    requires UniqueKeys(unsorted) && multiset(fields) == multiset(unsorted) && i < j < |fields|
    ensures fields[i].0 != fields[j].0
  {
    var a, b := fields[i], fields[j];
    assert fields == fields[..i] + [a] + fields[i + 1..j] + [b] + fields[j + 1..];
    assert a in multiset(unsorted) && b in multiset(unsorted);
    UniqueCounts(unsorted, a);
    UniqueCounts(unsorted, b);
    assert a == b ==> multiset(fields)[a] >= 2;
    var p :| 0 <= p < |unsorted| && unsorted[p] == a;
    var q :| 0 <= q < |unsorted| && unsorted[q] == b;
  }

  lemma {:induction false} FieldsFit(calls: seq<Field>)
    requires Fits(calls)
    ensures Fits(FieldsAfter(calls))
  {
    if calls != [] {
      var n := |calls| - 1;
      assert calls[n] in calls && forall f | f in calls[..n] :: f in calls;
      FieldsFit(calls[..n]);
      FieldsRepresentRecord(calls[..n]);
      SetFieldKeys(FieldsAfter(calls[..n]), calls[n].0, calls[n].1);
    }
  }

  lemma {:induction false} SortKeepsFields(fields: seq<Field>)
    ensures multiset(Sort(FieldLe, fields)) == multiset(fields)
    ensures forall f :: f in Sort(FieldLe, fields) <==> f in fields
  {
    FieldOrder();
    SortIsSortedPermutation(FieldLe, fields);
    forall f ensures f in Sort(FieldLe, fields) <==> f in fields {
      assert f in multiset(Sort(FieldLe, fields)) <==> f in multiset(fields);
    }
  }

  /** Two runs of calls give the same byte stream exactly when they have recorded the same map. */
  lemma {:induction false} StreamIffRecorded(x: seq<Field>, y: seq<Field>)
    requires Fits(x) && Fits(y)
    ensures Stream(FieldsAfter(x)) == Stream(FieldsAfter(y)) <==> Recorded(x) == Recorded(y)
  {
    var a, b := FieldsAfter(x), FieldsAfter(y);
    FieldsRepresentRecord(x);
    FieldsRepresentRecord(y);
    if Recorded(x) == Recorded(y) {
      SameMapSameMultiset(a, b, Recorded(x));
      SortIgnoresOrder(a, b);
    }
    if Stream(a) == Stream(b) {
      FieldsFit(x);
      FieldsFit(y);
      SortKeepsFields(a);
      SortKeepsFields(b);
      EncodeInjective(Sort(FieldLe, a), Sort(FieldLe, b));
      SameFieldsSameMap(a, b, Recorded(x), Recorded(y));
    }
  }

  lemma SameFieldsSameMap(a: seq<Field>, b: seq<Field>, m: map<Bytes, Bytes>, n: map<Bytes, Bytes>)
    requires Represents(a, m) && Represents(b, n) && forall f :: f in a <==> f in b
    ensures m == n
  {
    forall k ensures k in m <==> k in n {
      if k in m { assert (k, m[k]) in a; }
      if k in n { assert (k, n[k]) in b; }
    }
    forall k | k in m ensures m[k] == n[k] { assert (k, m[k]) in a; }
  }

  // ----- what a generation is about -----

  /** The keys are spelled "head", "ref:" and the ref's full name, "index" and "worktree"; HEAD's two parts stand with a zero
      byte between them. */
  lemma FieldsAreSpelled(symbolic: Bytes, resolved: Bytes, name: Bytes, value: Bytes)
    ensures Written(Head(Some(symbolic), Some(resolved))) == (Codes("head"), symbolic + [0] + resolved)
    ensures Written(Head(Some(symbolic), None)) == (Codes("head"), symbolic + [0])
    ensures Written(Head(None, Some(resolved))) == (Codes("head"), [0] + resolved)
    ensures Written(Head(None, None)) == (Codes("head"), [0])
    ensures Written(Reference(name, value)) == (Codes("ref:") + name, value)
    ensures Written(Index(value)) == (Codes("index"), value) && Written(Worktree(value)) == (Codes("worktree"), value)
  {
    assert symbolic + [0] + [] == symbolic + [0] && [] + [0] + resolved == [0] + resolved && [] + [0] + [] == [0];
    assert Codes("head") == ['h' as int, 'e' as int, 'a' as int, 'd' as int] == HEAD_KEY;
    assert Codes("ref:") == ['r' as int, 'e' as int, 'f' as int, ':' as int] == REF_PREFIX;
    assert Codes("index") == ['i' as int, 'n' as int, 'd' as int, 'e' as int, 'x' as int] == INDEX_KEY;
    assert Codes("worktree")
        == ['w' as int, 'o' as int, 'r' as int, 'k' as int, 't' as int, 'r' as int, 'e' as int, 'e' as int] == WORKTREE_KEY;
  }

  datatype HeadState = HeadState(symbolic: Option<Bytes>, resolved: Option<Bytes>)

  /** What has been observed of a repository: each part as last told, if it was told at all. */
  datatype Snapshot = Snapshot(head: Option<HeadState>, refs: map<Bytes, Bytes>, index: Option<Bytes>, worktree: Option<Bytes>)

  function Observe(s: Snapshot, input: Input): Snapshot {
    match input
    case Head(symbolic, resolved) => s.(head := Some(HeadState(symbolic, resolved)))
    case Reference(fullName, target) => s.(refs := s.refs[fullName := target])
    case Index(digest) => s.(index := Some(digest))
    case Worktree(digest) => s.(worktree := Some(digest))
  }

  function SnapshotAfter(inputs: seq<Input>): Snapshot {
    if inputs == [] then Snapshot(None, map[], None, None)
    else Observe(SnapshotAfter(inputs[..|inputs| - 1]), inputs[|inputs| - 1])
  }

  lemma RefKeysDiffer(a: Bytes, b: Bytes)
    ensures REF_PREFIX + a == REF_PREFIX + b ==> a == b
    ensures REF_PREFIX + a != HEAD_KEY && REF_PREFIX + a != INDEX_KEY && REF_PREFIX + a != WORKTREE_KEY
  {
    assert (REF_PREFIX + a)[4..] == a && (REF_PREFIX + b)[4..] == b;
    assert (REF_PREFIX + a)[0] == 114;
  }

  ghost predicate RecordsRefs(m: map<Bytes, Bytes>, refs: map<Bytes, Bytes>) {
    && (forall name | name in refs :: REF_PREFIX + name in m && m[REF_PREFIX + name] == refs[name])
    && (forall name | REF_PREFIX + name in m :: name in refs)
  }

  ghost predicate Holds(m: map<Bytes, Bytes>, key: Bytes, value: Option<Bytes>) {
    if value.Some? then key in m && m[key] == value.value else key !in m
  }

  function HeadWritten(head: Option<HeadState>): Option<Bytes> {
    if head.Some? then Some(HeadValue(head.value.symbolic, head.value.resolved)) else None
  }

  /** `m` holds the snapshot's fields under their keys and nothing else. */
  ghost predicate Records(m: map<Bytes, Bytes>, s: Snapshot) {
    && Holds(m, HEAD_KEY, HeadWritten(s.head)) && Holds(m, INDEX_KEY, s.index) && Holds(m, WORKTREE_KEY, s.worktree)
    && RecordsRefs(m, s.refs)
    && forall k | k in m :: k in {HEAD_KEY, INDEX_KEY, WORKTREE_KEY} || REF_PREFIX <= k
  }

  /** An absent part of HEAD and an empty one are written alike. */
  ghost predicate SameHead(a: Option<HeadState>, b: Option<HeadState>) {
    && (a.Some? <==> b.Some?)
    && (a.Some? ==> UnwrapOr(a.value.symbolic, []) == UnwrapOr(b.value.symbolic, []))
    && (a.Some? ==> UnwrapOr(a.value.resolved, []) == UnwrapOr(b.value.resolved, []))
  }

  ghost predicate SameState(a: Snapshot, b: Snapshot) {
    SameHead(a.head, b.head) && a.refs == b.refs && a.index == b.index && a.worktree == b.worktree
  }

  /** The calls of a run, as keys and values. */
  function Calls(inputs: seq<Input>): seq<Field> {
    if inputs == [] then [] else Calls(inputs[..|inputs| - 1]) + [Written(inputs[|inputs| - 1])]
  }

  lemma {:induction false} CallsWriteFields(inputs: seq<Input>)
    ensures FieldsAfter(Calls(inputs)) == FieldsOf(inputs)
  {
    if inputs != [] {
      var calls, front := Calls(inputs), inputs[..|inputs| - 1];
      CallsWriteFields(front);
      assert calls[..|calls| - 1] == Calls(front);
    }
  }

  lemma OneMoreRecorded(m: map<Bytes, Bytes>, s: Snapshot, input: Input)
    requires Records(m, s)
    ensures Records(m[Written(input).0 := Written(input).1], Observe(s, input))
  {
    if input.Reference? {
      OneMoreReference(m, s, input.fullName, input.target);
    } else {
      OneMoreOther(m, s, input);
    }
  }

  lemma OneMoreReference(m: map<Bytes, Bytes>, s: Snapshot, fullName: Bytes, target: Bytes)
    requires Records(m, s)
    ensures Records(m[REF_PREFIX + fullName := target], s.(refs := s.refs[fullName := target]))
  {
    RefKeysDiffer(fullName, fullName);
    var key, m', refs' := REF_PREFIX + fullName, m[REF_PREFIX + fullName := target], s.refs[fullName := target];
    forall name | name in refs' ensures REF_PREFIX + name in m' && m'[REF_PREFIX + name] == refs'[name] {
      RefKeysDiffer(name, fullName);
    }
    forall name | REF_PREFIX + name in m' ensures name in refs' { RefKeysDiffer(name, fullName); }
  }

  lemma OneMoreOther(m: map<Bytes, Bytes>, s: Snapshot, input: Input)
    requires Records(m, s) && !input.Reference?
    ensures Records(m[Written(input).0 := Written(input).1], Observe(s, input))
  {
    var key, m' := Written(input).0, m[Written(input).0 := Written(input).1];
    assert HEAD_KEY[0] == 104 && INDEX_KEY[0] == 105 && WORKTREE_KEY[0] == 119;
    forall name: Bytes | REF_PREFIX + name in m' ensures REF_PREFIX + name in m { RefKeysDiffer(name, name); }
    forall name | name in s.refs ensures REF_PREFIX + name in m' && m'[REF_PREFIX + name] == s.refs[name] {
      RefKeysDiffer(name, name);
    }
    assert RecordsRefs(m', s.refs);
  }

  /** Whatever typed calls were made, what is recorded is the repository's state as they last told it. */
  lemma {:induction false} CallsRecordTheSnapshot(inputs: seq<Input>)
    ensures Records(Recorded(Calls(inputs)), SnapshotAfter(inputs))
  {
    if inputs != [] {
      var calls, front := Calls(inputs), inputs[..|inputs| - 1];
      CallsRecordTheSnapshot(front);
      assert calls[..|calls| - 1] == Calls(front);
      OneMoreRecorded(Recorded(Calls(front)), SnapshotAfter(front), inputs[|inputs| - 1]);
    }
  }

  /** Lengths fit their eight bytes, and what HEAD resolves to is a hexadecimal object id, which holds no zero byte. */
  ghost predicate ValidInputs(inputs: seq<Input>) {
    && Fits(Calls(inputs))
    && forall i | i in inputs && i.Head? :: 0 !in UnwrapOr(i.resolved, [])
  }

  lemma {:induction false} HeadWasTold(inputs: seq<Input>)
    requires SnapshotAfter(inputs).head.Some?
    ensures var head := SnapshotAfter(inputs).head.value; Input.Head(head.symbolic, head.resolved) in inputs
  {
    var front, last := inputs[..|inputs| - 1], inputs[|inputs| - 1];
    if !last.Head? { HeadWasTold(front); }
  }

  lemma ZeroIsLast(s: Bytes, r: Bytes, k: nat)
    requires 0 !in r && |s| <= k < |s| + 1 + |r|
    ensures (s + [0] + r)[k] == 0 <==> k == |s|
  {
    if k > |s| { assert (s + [0] + r)[k] == r[k - |s| - 1] && r[k - |s| - 1] in r; }
  }

  /** The last zero byte separates the two parts, for an object id holds none. */
  lemma HeadValueInjective(s: Bytes, r: Bytes, s': Bytes, r': Bytes)
    requires 0 !in r && 0 !in r' && s + [0] + r == s' + [0] + r'
    ensures s == s' && r == r'
  {
    var all, all' := s + [0] + r, s' + [0] + r';
    ZeroIsLast(s, r, |s|);
    ZeroIsLast(s', r', |s'|);
    ZeroIsLast(s, r, if |s| < |s'| then |s'| else |s|);
    ZeroIsLast(s', r', if |s'| < |s| then |s| else |s'|);
    assert |s| == |s'|;
    assert all[..|s|] == s && all'[..|s'|] == s' && all[|s| + 1..] == r && all'[|s'| + 1..] == r';
  }

  lemma SameRefs(m: map<Bytes, Bytes>, a: map<Bytes, Bytes>, b: map<Bytes, Bytes>)
    requires RecordsRefs(m, a) && RecordsRefs(m, b)
    ensures a == b
  {
    forall name ensures name in a <==> name in b {
      if name in a { assert REF_PREFIX + name in m; }
      if name in b { assert REF_PREFIX + name in m; }
    }
  }

  lemma SameStateSameMap(m: map<Bytes, Bytes>, n: map<Bytes, Bytes>, a: Snapshot, b: Snapshot)
    requires Records(m, a) && Records(n, b) && SameState(a, b)
    ensures m == n
  {
    forall k ensures k in m <==> k in n {
      if REF_PREFIX <= k {
        var name := k[|REF_PREFIX|..];
        assert REF_PREFIX + name == k;
      }
    }
    forall k | k in m ensures m[k] == n[k] {
      if REF_PREFIX <= k {
        var name := k[|REF_PREFIX|..];
        assert REF_PREFIX + name == k;
      }
    }
  }

  lemma SameMapSameState(m: map<Bytes, Bytes>, a: Snapshot, b: Snapshot)
    requires Records(m, a) && Records(m, b)
    requires a.head.Some? ==> 0 !in UnwrapOr(a.head.value.resolved, [])
    requires b.head.Some? ==> 0 !in UnwrapOr(b.head.value.resolved, [])
    ensures SameState(a, b)
  {
    SameRefs(m, a.refs, b.refs);
    if a.head.Some? {
      var x, y := a.head.value, b.head.value;
      HeadValueInjective(UnwrapOr(x.symbolic, []), UnwrapOr(x.resolved, []), UnwrapOr(y.symbolic, []), UnwrapOr(y.resolved, []));
    }
  }

  /** Two runs of typed calls, in any order, give the same stream exactly when they leave the same repository state told. */
  lemma {:induction false} GenerationTellsStatesApart(x: seq<Input>, y: seq<Input>)
    requires ValidInputs(x) && ValidInputs(y)
    ensures Stream(FieldsOf(x)) == Stream(FieldsOf(y)) <==> SameState(SnapshotAfter(x), SnapshotAfter(y))
  {
    CallsWriteFields(x);
    CallsWriteFields(y);
    CallsRecordTheSnapshot(x);
    CallsRecordTheSnapshot(y);
    StreamIffRecorded(Calls(x), Calls(y));
    if SnapshotAfter(x).head.Some? { HeadWasTold(x); }
    if SnapshotAfter(y).head.Some? { HeadWasTold(y); }
    hide Records, SameState, SnapshotAfter, Recorded, Calls, Stream, FieldsOf, FieldsAfter;
    if SameState(SnapshotAfter(x), SnapshotAfter(y)) {
      SameStateSameMap(Recorded(Calls(x)), Recorded(Calls(y)), SnapshotAfter(x), SnapshotAfter(y));
    }
    if Recorded(Calls(x)) == Recorded(Calls(y)) {
      SameMapSameState(Recorded(Calls(x)), SnapshotAfter(x), SnapshotAfter(y));
    }
  }
}
