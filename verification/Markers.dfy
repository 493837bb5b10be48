/** Reading a conflict-marker file into blocks, and composing the file a set of choices stands for. */
module Markers {
  import opened Basics
  import opened Sorting

  datatype Block =
    | Context(text: string)
    | Conflict(ours: string, theirs: string, base: Option<string>)

  datatype Choice = Unchosen | Ours | Theirs | Both

  datatype Section = InOurs | InBase | InTheirs

  const OURS_OPEN := "<<<<<<<"
  const BASE_SEP := "|||||||"
  const MID_SEP := "======="
  const THEIRS_CLOSE := ">>>>>>>"

  /** The marker, then a space, a line end, or nothing. */
  predicate StartsMarker(line: string, marker: string) {
    marker <= line && (var rest := line[|marker|..]; rest == "" || rest[0] == ' ' || rest[0] == '\n' || rest[0] == '\r')
  }

  /** The lines of a text, each with its line end; only the last may lack one. */
  function SplitLines(text: string): seq<string>
    decreases |text|
  {
    if text == "" then []
    else
      var i := Find(text, '\n', 0);
      if i == |text| then [text] else [text[..i + 1]] + SplitLines(text[i + 1..])
  }

  // ----- parsing -----

  datatype Scan = Closed(ours: string, base: Option<string>, theirs: string, rest: seq<string>) | Unclosed

  /** The lines after an opening marker, up to the closing one. */
  function ScanConflict(lines: seq<string>, section: Section, ours: string, base: Option<string>, theirs: string): (r: Scan)
    ensures r.Closed? ==> |r.rest| < |lines| && r.rest == lines[|lines| - |r.rest|..]
  {
    if lines == [] then Unclosed
    else
      var inner, rest := lines[0], lines[1..];
      if StartsMarker(inner, BASE_SEP) then ScanConflict(rest, InBase, ours, Some(""), theirs)
      else if StartsMarker(inner, MID_SEP) then ScanConflict(rest, InTheirs, ours, base, theirs)
      else if StartsMarker(inner, THEIRS_CLOSE) then Closed(ours, base, theirs, rest)
      else match section
        case InOurs => ScanConflict(rest, section, ours + inner, base, theirs)
        case InBase => ScanConflict(rest, section, ours, Some(UnwrapOr(base, "") + inner), theirs)
        case InTheirs => ScanConflict(rest, section, ours, base, theirs + inner)
  }

  function Flush(context: string): seq<Block> { if context == "" then [] else [Context(context)] }

  /** The blocks of the remaining lines, after `context` has been gathered. */
  function ParseLines(lines: seq<string>, context: string): seq<Block>
    decreases |lines|
  {
    if lines == [] then Flush(context)
    else if !StartsMarker(lines[0], OURS_OPEN) then ParseLines(lines[1..], context + lines[0])
    else match ScanConflict(lines[1..], InOurs, "", None, "")
      case Closed(ours, base, theirs, rest) => Flush(context) + [Conflict(ours, theirs, base)] + ParseLines(rest, "")
      case Unclosed => Flush(context + Flatten(lines))
  }

  function Parsed(text: string): seq<Block> { ParseLines(SplitLines(text), "") }

  method Parse(text: string) returns (blocks: seq<Block>)
    ensures blocks == Parsed(text)
  {
    hide ScanConflict, StartsMarker;
    var lines := SplitLines(text);
    blocks := [];
    var context := "";
    var i := 0;
    assert lines[0..] == lines;
    while i < |lines|
      invariant 0 <= i <= |lines|
      invariant blocks + ParseLines(lines[i..], context) == Parsed(text)
    {
      var line := lines[i];
      assert lines[i..][0] == line && lines[i..][1..] == lines[i + 1..];
      if !StartsMarker(line, OURS_OPEN) {
        context, i := context + line, i + 1;
        continue;
      }
      var closed, ours, base, theirs, next, raw := ReadConflict(lines, i);
      if closed {
        ghost var later := ParseLines(lines[next..], "");
        Regroup(blocks, Flush(context), [Conflict(ours, theirs, base)]);
        Regroup(blocks, Flush(context) + [Conflict(ours, theirs, base)], later);
        if context != "" {
          blocks, context := blocks + [Context(context)], "";
        }
        blocks := blocks + [Conflict(ours, theirs, base)];
      } else {
        context := context + raw;
        assert lines[next..] == [];
      }
      i := next;
    }
    if context != "" {
      blocks := blocks + [Context(context)];
    }
  }

  /** From the opening marker at line `i` to its closing one, or to the end of the file. */
  method ReadConflict(lines: seq<string>, i: nat)
    returns (closed: bool, ours: string, base: Option<string>, theirs: string, next: nat, raw: string)
    requires i < |lines|
    ensures i < next <= |lines|
    ensures closed ==> ScanConflict(lines[i + 1..], InOurs, "", None, "") == Closed(ours, base, theirs, lines[next..])
    ensures !closed ==> ScanConflict(lines[i + 1..], InOurs, "", None, "") == Unclosed && next == |lines| && raw == Flatten(lines[i..])
  {
    ours, base, theirs := "", None, "";
    var section := InOurs;
    raw, next := lines[i], i + 1;
    assert lines[i..i + 1] == [lines[i]];
    while next < |lines|
      invariant i < next <= |lines| && raw == Flatten(lines[i..next])
      invariant ScanConflict(lines[i + 1..], InOurs, "", None, "") == ScanConflict(lines[next..], section, ours, base, theirs)
    {
      var inner := lines[next];
      assert lines[next..][0] == inner && lines[next..][1..] == lines[next + 1..];
      assert lines[i..next + 1] == lines[i..next] + [inner];
      FlattenSnoc(lines[i..next], inner);
      raw, next := raw + inner, next + 1;
      if StartsMarker(inner, BASE_SEP) {
        base, section := Some(""), InBase;
      } else if StartsMarker(inner, MID_SEP) {
        section := InTheirs;
      } else if StartsMarker(inner, THEIRS_CLOSE) {
        return true, ours, base, theirs, next, raw;
      } else {
        match section {
          case InOurs => ours := ours + inner;
          case InBase => base := Some(UnwrapOr(base, "") + inner);
          case InTheirs => theirs := theirs + inner;
        }
      }
    }
    assert lines[i..|lines|] == lines[i..];
    closed := false;
  }

  lemma {:induction false} FlattenSnoc<T>(ss: seq<seq<T>>, x: seq<T>)
    ensures Flatten(ss + [x]) == Flatten(ss) + x
  {
    FlattenConcat(ss, [x]);
    assert Flatten([x]) == x;
  }

  lemma {:induction false} FlattenConcat<T>(a: seq<seq<T>>, b: seq<seq<T>>)
    ensures Flatten(a + b) == Flatten(a) + Flatten(b)
  {
    if a == [] {
      assert a + b == b;
    } else {
      assert (a + b)[1..] == a[1..] + b;
      FlattenConcat(a[1..], b);
    }
  }

  // ----- composing -----

  function ChoiceAt(choices: seq<Choice>, n: nat): Choice { if n < |choices| then choices[n] else Unchosen }

  function Picked(block: Block, choice: Choice): string {
    match block
    case Context(text) => text
    case Conflict(ours, theirs, _) =>
      match choice
      case Unchosen => ""
      case Ours => ours
      case Theirs => theirs
      case Both => ours + theirs
  }

  predicate IsConflict(b: Block) { b.Conflict? }

  function ConflictCount(blocks: seq<Block>): nat { |Filter(IsConflict, blocks)| }

  /** `front`, then the rest of the file if there is one. */
  function Before(front: string, rest: Option<string>): Option<string> {
    match rest
    case None => None
    case Some(text) => Some(front + text)
  }

  /** The ordinals from `from` up to `count` that nobody has chosen. */
  function Open(choices: seq<Choice>, from: nat, count: nat): seq<nat>
    requires from <= count
    decreases count - from
  {
    if from == count then []
    else if ChoiceAt(choices, from) == Unchosen then [from] + Open(choices, from + 1, count)
    else Open(choices, from + 1, count)
  }

  function UnchosenOrdinals(blocks: seq<Block>, choices: seq<Choice>): seq<nat> {
    Open(choices, 0, ConflictCount(blocks))
  }

  /** The text of the blocks, whose first conflict has ordinal `nth`; none if a conflict is open. */
  function ComposeFrom(blocks: seq<Block>, choices: seq<Choice>, nth: nat): Option<string> {
    if blocks == [] then Some("")
    else
      var block := blocks[0];
      if block.Conflict? && ChoiceAt(choices, nth) == Unchosen then None
      else
        Before(Picked(block, ChoiceAt(choices, nth)),
               ComposeFrom(blocks[1..], choices, if block.Conflict? then nth + 1 else nth))
  }

  function Composed(blocks: seq<Block>, choices: seq<Choice>): Option<string> { ComposeFrom(blocks, choices, 0) }

  method Compose(blocks: seq<Block>, choices: seq<Choice>) returns (r: Option<string>)
    ensures r == Composed(blocks, choices)
  {
    var out, nth := "", 0;
    assert blocks[0..] == blocks;
    BeforeLaws("", "", Composed(blocks, choices));
    for i := 0 to |blocks|
      invariant Composed(blocks, choices) == Before(out, ComposeFrom(blocks[i..], choices, nth))
    {
      var block := blocks[i];
      assert blocks[i..][0] == block && blocks[i..][1..] == blocks[i + 1..];
      BeforeLaws(out, Picked(block, ChoiceAt(choices, nth)),
                 ComposeFrom(blocks[i + 1..], choices, if block.Conflict? then nth + 1 else nth));
      match block {
        case Context(text) => out := out + text;
        case Conflict(ours, theirs, _) =>
          var choice := ChoiceAt(choices, nth);
          nth := nth + 1;
          match choice {
            case Unchosen => return None;
            case Ours => out := out + ours;
            case Theirs => out := out + theirs;
            case Both =>
              Regroup(out, ours, theirs);
              out := out + ours;
              out := out + theirs;
          }
      }
    }
    assert out + "" == out;
    r := Some(out);
  }

  lemma BeforeLaws(a: string, b: string, rest: Option<string>)
    ensures Before(a, Before(b, rest)) == Before(a + b, rest)
    ensures Before("", rest) == rest
  {
    if rest.Some? {
      Regroup(a, b, rest.value);
      assert "" + rest.value == rest.value;
    }
  }
}
