/** The two NUL-separated diff listings, parsed into and folded over one list of files. */
module Diff {
  import opened Basics
  import opened Sorting

  datatype ChangeKind = Added | Modified | Deleted | Renamed

  datatype DiffFile = DiffFile(path: string, oldPath: Option<string>, kind: ChangeKind, additions: Option<nat>, deletions: Option<nat>)

  /** The pieces between separators: one more than there are separators. */
  function Split(s: string, c: char): seq<string>
    decreases |s|
  {
    var i := Find(s, c, 0);
    if i == |s| then [s] else [s[..i]] + Split(s[i + 1..], c)
  }

  predicate NotEmpty(s: string) { s != "" }

  function KindFromLetter(c: char): ChangeKind {
    if c == 'A' then Added
    else if c == 'D' then Deleted
    else if c == 'R' || c == 'C' then Renamed
    else Modified
  }

  predicate Renameish(c: char) { c == 'R' || c == 'C' }

  /** An unsigned 32-bit number: an optional plus sign, at least one digit, no overflow. */
  function ParseU32(s: string): Option<nat> {
    var digits := if s != "" && s[0] == '+' then s[1..] else s;
    if digits == "" || !AllDigits(digits) || DecimalValue(digits) >= 0x1_0000_0000 then None
    else Some(DecimalValue(digits))
  }

  // ----- --name-status -----

  function NameStatusFrom(tokens: seq<string>): seq<DiffFile> {
    if tokens == [] then []
    else if tokens[0] == "" then NameStatusFrom(tokens[1..])
    else
      var letter := tokens[0][0];
      if Renameish(letter) then
        if |tokens| < 3 then []
        else [DiffFile(tokens[2], Some(tokens[1]), KindFromLetter(letter), None, None)] + NameStatusFrom(tokens[3..])
      else if |tokens| < 2 then []
      else [DiffFile(tokens[1], None, KindFromLetter(letter), None, None)] + NameStatusFrom(tokens[2..])
  }

  function NameStatus(bytes: string): seq<DiffFile> { NameStatusFrom(Filter(NotEmpty, Split(bytes, '\0'))) }

  method ParseNameStatusZ(bytes: string) returns (files: seq<DiffFile>)
    ensures files == NameStatus(bytes)
  {
    var tokens := Filter(NotEmpty, Split(bytes, '\0'));
    files := [];
    var i := 0;
    assert tokens[0..] == tokens;
    while i < |tokens|
      invariant 0 <= i <= |tokens|
      invariant files + NameStatusFrom(tokens[i..]) == NameStatus(bytes)
    {
      var status := tokens[i];
      ghost var left := tokens[i..];
      assert left[1..] == tokens[i + 1..];
      if status == "" {
        i := i + 1;
        continue;
      }
      var letter := status[0];
      if Renameish(letter) {
        if |tokens| - i < 3 { break; }
        assert left[1] == tokens[i + 1] && left[2] == tokens[i + 2] && left[3..] == tokens[i + 3..];
        Regroup(files, [DiffFile(tokens[i + 2], Some(tokens[i + 1]), KindFromLetter(letter), None, None)], NameStatusFrom(tokens[i + 3..]));
        files := files + [DiffFile(tokens[i + 2], Some(tokens[i + 1]), KindFromLetter(letter), None, None)];
        i := i + 3;
      } else {
        if |tokens| - i < 2 { break; }
        assert left[1] == tokens[i + 1] && left[2..] == tokens[i + 2..];
        Regroup(files, [DiffFile(tokens[i + 1], None, KindFromLetter(letter), None, None)], NameStatusFrom(tokens[i + 2..]));
        files := files + [DiffFile(tokens[i + 1], None, KindFromLetter(letter), None, None)];
        i := i + 2;
      }
    }
  }

  // ----- --numstat -----

  /** The counts and, if it shares the token, the path of one record; none without two columns. */
  function Columns(head: string): Option<(string, string, string)> {
    var i := Find(head, '\t', 0);
    if i == |head| then None
    else
      var rest := head[i + 1..];
      var j := Find(rest, '\t', 0);
      Some((head[..i], rest[..j], if j == |rest| then "" else rest[j + 1..]))
  }

  /** The first file at `path` takes the counts. */
  function SetCounts(files: seq<DiffFile>, path: string, additions: Option<nat>, deletions: Option<nat>): seq<DiffFile> {
    if files == [] then []
    else if files[0].path == path then [files[0].(additions := additions, deletions := deletions)] + files[1..]
    else [files[0]] + SetCounts(files[1..], path, additions, deletions)
  }

  function NumstatFrom(tokens: seq<string>, files: seq<DiffFile>): seq<DiffFile> {
    if tokens == [] then files
    else
      match Columns(tokens[0])
      case None => NumstatFrom(tokens[1..], files)
      case Some((added, deleted, path)) =>
        if path != "" then NumstatFrom(tokens[1..], SetCounts(files, path, ParseU32(added), ParseU32(deleted)))
        else if |tokens| < 3 then files
        else NumstatFrom(tokens[3..], SetCounts(files, tokens[2], ParseU32(added), ParseU32(deleted)))
  }

  function Numstat(bytes: string, files: seq<DiffFile>): seq<DiffFile> { NumstatFrom(Split(bytes, '\0'), files) }

  lemma {:induction false} SetCountsSkips(files: seq<DiffFile>, i: nat, path: string, additions: Option<nat>, deletions: Option<nat>)
    requires i <= |files| && forall k | 0 <= k < i :: files[k].path != path
    ensures SetCounts(files, path, additions, deletions)
         == if i == |files| then files
            else if files[i].path == path then files[i := files[i].(additions := additions, deletions := deletions)]
            else SetCounts(files, path, additions, deletions)
  {
    if i > 0 {
      SetCountsSkips(files[1..], i - 1, path, additions, deletions);
      assert files == [files[0]] + files[1..];
    } else if files != [] && files[0].path == path {
      assert files == [files[0]] + files[1..];
    }
  }

  method SetCountsAt(files: array<DiffFile>, path: string, additions: Option<nat>, deletions: Option<nat>)
    modifies files
    ensures files[..] == SetCounts(old(files[..]), path, additions, deletions)
  {
    var i := 0;
    while i < files.Length && files[i].path != path
      invariant 0 <= i <= files.Length && files[..] == old(files[..])
      invariant forall k | 0 <= k < i :: files[k].path != path
    {
      i := i + 1;
    }
    SetCountsSkips(files[..], i, path, additions, deletions);
    if i < files.Length {
      files[i] := files[i].(additions := additions, deletions := deletions);
    }
  }

  method FoldNumstatZ(bytes: string, files: array<DiffFile>)
    modifies files
    ensures files[..] == Numstat(bytes, old(files[..]))
  {
    var tokens := Split(bytes, '\0');
    var i := 0;
    assert tokens[0..] == tokens;
    while i < |tokens|
      invariant 0 <= i <= |tokens|
      invariant NumstatFrom(tokens[i..], files[..]) == Numstat(bytes, old(files[..]))
    {
      var head := tokens[i];
      ghost var left := tokens[i..];
      assert left[1..] == tokens[i + 1..];
      i := i + 1;
      if head == "" { continue; }
      var columns := Columns(head);
      if columns.None? { continue; }
      var (added, deleted, path) := columns.value;
      if path == "" {
        if |tokens| - i < 2 { break; }
        path := tokens[i + 1];
        assert left[2] == path && left[3..] == tokens[i + 2..];
        i := i + 2;
      }
      SetCountsAt(files, path, ParseU32(added), ParseU32(deleted));
    }
  }
}
