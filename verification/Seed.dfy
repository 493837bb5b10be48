/** The recorded seed of a test repository, and the plan that brings its branches back to it. */
module Seed {
  import opened Basics
  import opened Sorting

  datatype SeedRef = SeedRef(name: string, oid: string)
  datatype Seed = Seed(head: string, refs: seq<SeedRef>)

  datatype SeedError =
    | EmptyHead
    | MalformedLine(line: string)
    | MalformedOid(oid: string)
    | EmptyName(nameless: string)
    | NoBranches
    | HeadNotSeeded(head: string)

  // ----- parsing -----

  /** The lines of a text without their ends; a final line end opens no further line, a return without one is kept. */
  function Lines(text: string): seq<string>
    decreases |text|
  {
    if text == "" then []
    else
      var i := Find(text, '\n', 0);
      if i == |text| then [text] else [DropReturn(text[..i])] + Lines(text[i + 1..])
  }

  function DropReturn(line: string): string {
    if line != "" && line[|line| - 1] == '\r' then line[..|line| - 1] else line
  }

  predicate NotBlank(line: string) { Trim(line) != "" }

  predicate IsHexDigit(c: char) { '0' <= c <= '9' || 'a' <= c <= 'f' || 'A' <= c <= 'F' }

  predicate IsOid(s: string) { |s| == 40 && forall i | 0 <= i < |s| :: IsHexDigit(s[i]) }

  function LowerChar(c: char): char { if 'A' <= c <= 'Z' then (c as int + 32) as char else c }

  function Lower(s: string): (r: string)
    ensures |r| == |s| && forall i | 0 <= i < |s| :: r[i] == LowerChar(s[i])
  {
    if s == "" then "" else [LowerChar(s[0])] + Lower(s[1..])
  }

  function ParseLine(line: string): Result<SeedRef, SeedError> {
    var text := Trim(line);
    var i := Find(text, ' ', 0);
    if i == |text| then Err(MalformedLine(line))
    else
      var oid, name := text[..i], text[i + 1..];
      if !IsOid(oid) then Err(MalformedOid(oid))
      else if name == "" then Err(EmptyName(line))
      else Ok(SeedRef(name, Lower(oid)))
  }

  function ParseLines(lines: seq<string>): Result<seq<SeedRef>, SeedError> {
    if lines == [] then Ok([])
    else
      match ParseLine(lines[0])
      case Err(e) => Err(e)
      case Ok(ref) => ReadBefore([ref], ParseLines(lines[1..]))
  }

  /** References already read, then the outcome for the remaining lines. */
  function ReadBefore(parsed: seq<SeedRef>, rest: Result<seq<SeedRef>, SeedError>): Result<seq<SeedRef>, SeedError> {
    match rest
    case Err(e) => Err(e)
    case Ok(refs) => Ok(parsed + refs)
  }

  lemma ReadLaws(parsed: seq<SeedRef>, ref: SeedRef, rest: Result<seq<SeedRef>, SeedError>)
    ensures ReadBefore(parsed, ReadBefore([ref], rest)) == ReadBefore(parsed + [ref], rest)
    ensures ReadBefore([], rest) == rest
  {
    if rest.Ok? {
      Regroup(parsed, [ref], rest.value);
      assert [] + rest.value == rest.value;
    }
  }

  predicate Names(refs: seq<SeedRef>, head: string) { exists r | r in refs :: r.name == head }

  function Parsed(refs: string, headText: string): Result<Seed, SeedError> {
    var head := Trim(headText);
    if head == "" then Err(EmptyHead)
    else
      match ParseLines(Filter(NotBlank, Lines(refs)))
      case Err(e) => Err(e)
      case Ok(parsed) =>
        if parsed == [] then Err(NoBranches)
        else if !Names(parsed, head) then Err(HeadNotSeeded(head))
        else Ok(Seed(head, parsed))
  }

  method ParseSeed(refs: string, headText: string) returns (r: Result<Seed, SeedError>)
    ensures r == Parsed(refs, headText)
  {
    var head := Trim(headText);
    if head == "" { return Err(EmptyHead); }
    var lines := Filter(NotBlank, Lines(refs));
    var read := ReadLines(lines);
    if read.Err? { return Err(read.error); }
    var parsed := read.value;
    if parsed == [] { return Err(NoBranches); }
    if !Names(parsed, head) { return Err(HeadNotSeeded(head)); }
    r := Ok(Seed(head, parsed));
  }

  /** Line by line, stopping at the first that is malformed. */
  method ReadLines(lines: seq<string>) returns (r: Result<seq<SeedRef>, SeedError>)
    ensures r == ParseLines(lines)
  {
    hide IsOid, Trim;
    var parsed: seq<SeedRef> := [];
    ReadLaws([], SeedRef("", ""), ParseLines(lines));
    assert lines[0..] == lines;
    for i := 0 to |lines|
      invariant ParseLines(lines) == ReadBefore(parsed, ParseLines(lines[i..]))
    {
      assert lines[i..][0] == lines[i] && lines[i..][1..] == lines[i + 1..];
      var text := Trim(lines[i]);
      var at := Find(text, ' ', 0);
      if at == |text| { return Err(MalformedLine(lines[i])); }
      var oid, name := text[..at], text[at + 1..];
      if !IsOid(oid) { return Err(MalformedOid(oid)); }
      if name == "" { return Err(EmptyName(lines[i])); }
      var ref := SeedRef(name, Lower(oid));
      ReadLaws(parsed, ref, ParseLines(lines[i + 1..]));
      parsed := parsed + [ref];
    }
    assert parsed + [] == parsed;
    r := Ok(parsed);
  }

  // ----- planning -----

  type Branch = (string, string)

  datatype ResetPlan = ResetPlan(update: seq<SeedRef>, delete: seq<string>)

  function Stale(current: seq<Branch>): SeedRef -> bool { (s: SeedRef) => (s.name, s.oid) !in current }

  function Unseeded(refs: seq<SeedRef>): Branch -> bool { (b: Branch) => !Names(refs, b.0) }

  function BranchNames(branches: seq<Branch>): seq<string> {
    if branches == [] then [] else [branches[0].0] + BranchNames(branches[1..])
  }

  predicate ByName(a: SeedRef, b: SeedRef) { StringLe(a.name, b.name) }

  /** What a reset must do: move or create every seeded branch that is not there, delete every other branch. */
  function Plan(seed: Seed, current: seq<Branch>): ResetPlan {
    ResetPlan(Sort(ByName, Filter(Stale(current), seed.refs)),
              Sort(StringLe, BranchNames(Filter(Unseeded(seed.refs), current))))
  }
}
