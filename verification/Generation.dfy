/** The canonical byte stream behind a repository generation: keyed fields, sorted, length-prefixed. */
module Generation {
  import opened Basics
  import opened Sorting

  type byte = x: int | 0 <= x < 256

  /** Strings are their UTF-8 bytes: that is how they are compared, measured and written. */
  type Bytes = seq<byte>

  type Field = (Bytes, Bytes)

  const LENGTH_LIMIT: nat := 0x1_0000_0000_0000_0000

  // ----- recording -----

  /** Later writes to a key overwrite the earlier value where it stands. */
  function SetField(fields: seq<Field>, key: Bytes, value: Bytes): seq<Field> {
    if fields == [] then [(key, value)]
    else if fields[0].0 == key then [(key, value)] + fields[1..]
    else [fields[0]] + SetField(fields[1..], key, value)
  }

  function FieldsAfter(calls: seq<Field>): seq<Field> {
    if calls == [] then []
    else SetField(FieldsAfter(calls[..|calls| - 1]), calls[|calls| - 1].0, calls[|calls| - 1].1)
  }

  /** What a run of calls has recorded, as a map. */
  function Recorded(calls: seq<Field>): map<Bytes, Bytes> {
    if calls == [] then map[]
    else Recorded(calls[..|calls| - 1])[calls[|calls| - 1].0 := calls[|calls| - 1].1]
  }

  // ----- encoding -----

  function BigEndian(n: nat, width: nat): Bytes {
    if width == 0 then [] else BigEndian(n / 256, width - 1) + [n % 256]
  }

  function EncodeString(s: Bytes): Bytes { BigEndian(|s|, 8) + s }

  function Encode(fields: seq<Field>): Bytes {
    if fields == [] then []
    else EncodeString(fields[0].0) + (EncodeString(fields[0].1) + Encode(fields[1..]))
  }

  /** Tuples compare by key, then by value. */
  predicate FieldLe(a: Field, b: Field) {
    if a.0 == b.0 then LexLe(a.1, b.1) else LexLe(a.0, b.0)
  }

  function Stream(fields: seq<Field>): Bytes { Encode(Sort(FieldLe, fields)) }

  const HEAD_KEY: Bytes := [104, 101, 97, 100]
  const REF_PREFIX: Bytes := [114, 101, 102, 58]
  const INDEX_KEY: Bytes := [105, 110, 100, 101, 120]
  const WORKTREE_KEY: Bytes := [119, 111, 114, 107, 116, 114, 101, 101]

  function HeadValue(symbolic: Option<Bytes>, resolved: Option<Bytes>): Bytes {
    UnwrapOr(symbolic, []) + [0] + UnwrapOr(resolved, [])
  }

  /** One thing observed about a repository, as the typed calls take it. */
  datatype Input =
    | Head(symbolic: Option<Bytes>, resolved: Option<Bytes>)
    | Reference(fullName: Bytes, target: Bytes)
    | Index(indexDigest: Bytes)
    | Worktree(worktreeDigest: Bytes)

  /** The field a typed call records. */
  function Written(input: Input): Field {
    match input
    case Head(symbolic, resolved) => (HEAD_KEY, HeadValue(symbolic, resolved))
    case Reference(fullName, target) => (REF_PREFIX + fullName, target)
    case Index(digest) => (INDEX_KEY, digest)
    case Worktree(digest) => (WORKTREE_KEY, digest)
  }

  function Record(fields: seq<Field>, input: Input): seq<Field> {
    SetField(fields, Written(input).0, Written(input).1)
  }

  /** The fields held after a run of typed calls. */
  function FieldsOf(inputs: seq<Input>): seq<Field> {
    if inputs == [] then [] else Record(FieldsOf(inputs[..|inputs| - 1]), inputs[|inputs| - 1])
  }

  class GenerationInputs {
    var fields: seq<Field>

    constructor ()
      ensures fields == FieldsOf([])
    {
      fields := [];
    }

    method Set(key: Bytes, value: Bytes)
      modifies this
      ensures fields == SetField(old(fields), key, value)
    {
      var i := 0;
      assert fields[0..] == fields;
      while i < |fields| && fields[i].0 != key
        invariant 0 <= i <= |fields| && fields == old(fields)
        invariant SetField(fields, key, value) == fields[..i] + SetField(fields[i..], key, value)
      {
        assert fields[i..][0] == fields[i] && fields[i..][1..] == fields[i + 1..];
        assert fields[..i + 1] == fields[..i] + [fields[i]];
        Regroup(fields[..i], [fields[i]], SetField(fields[i + 1..], key, value));
        i := i + 1;
      }
      if i < |fields| {
        assert fields[i..][1..] == fields[i + 1..];
        fields := fields[i := (key, value)];
      } else {
        assert fields[..i] == fields && fields[i..] == [];
        fields := fields + [(key, value)];
      }
    }

    method Head(symbolic: Option<Bytes>, resolved: Option<Bytes>)
      modifies this
      ensures fields == Record(old(fields), Input.Head(symbolic, resolved))
    {
      Set(HEAD_KEY, HeadValue(symbolic, resolved));
    }

    method Reference(fullName: Bytes, target: Bytes)
      modifies this
      ensures fields == Record(old(fields), Input.Reference(fullName, target))
    {
      Set(REF_PREFIX + fullName, target);
    }

    method Index(digest: Bytes)
      modifies this
      ensures fields == Record(old(fields), Input.Index(digest))
    {
      Set(INDEX_KEY, digest);
    }

    method Worktree(digest: Bytes)
      modifies this
      ensures fields == Record(old(fields), Input.Worktree(digest))
    {
      Set(WORKTREE_KEY, digest);
    }

    /** The byte stream that is hashed. */
    method ByteStream() returns (bytes: Bytes)
      ensures bytes == Stream(fields)
    {
      var sorted := Sort(FieldLe, fields);
      bytes := [];
      ghost var rest := Encode(sorted);
      assert sorted[0..] == sorted;
      for i := 0 to |sorted|
        invariant rest == Encode(sorted[i..]) && bytes + rest == Stream(fields)
      {
        assert sorted[i..][0] == sorted[i] && sorted[i..][1..] == sorted[i + 1..];
        var (key, value) := sorted[i];
        rest := Encode(sorted[i + 1..]);
        Regroup(bytes, EncodeString(key), EncodeString(value) + rest);
        Regroup(bytes + EncodeString(key), EncodeString(value), rest);
        Regroup(bytes, BigEndian(|key|, 8), key);
        bytes := bytes + BigEndian(|key|, 8);
        bytes := bytes + key;
        Regroup(bytes, BigEndian(|value|, 8), value);
        bytes := bytes + BigEndian(|value|, 8);
        bytes := bytes + value;
      }
    }
  }
}
