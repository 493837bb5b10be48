/** What parsing produces, and what composing may do with it. */
module MarkerLaws {
  import opened Basics
  import opened Sorting
  import opened Markers
  import opened MarkerTheorems

  // ----- the parser's output is canonical -----

  lemma PlainBodyGrows(text: string, line: string)
    requires PlainBody(text) && Complete(line) && !IsSeparator(line)
    ensures PlainBody(text + line)
  {
    SplitConcat(text, line);
    SplitOfComplete(line, "");
    assert line + "" == line;
    assert SplitLines(text + line) == SplitLines(text) + [line];
  }

  lemma LinesAfter(lines: seq<string>, n: nat)
    requires WellSplit(lines) && n <= |lines|
    ensures WellSplit(lines[n..])
  {
  }

  /** The sides gathered before a closing marker are plain, for every line before it is complete. */
  lemma {:induction false} ScannedIsPlain(lines: seq<string>, section: Section, ours: string, base: Option<string>, theirs: string)
    requires WellSplit(lines) && PlainBody(ours) && PlainBody(theirs) && (base.Some? ==> PlainBody(base.value))
    ensures var r := ScanConflict(lines, section, ours, base, theirs);
            r.Closed? ==> PlainConflict(Conflict(r.ours, r.theirs, r.base))
  {
    var r := ScanConflict(lines, section, ours, base, theirs);
    MarkersAreRead();
    hide StartsMarker, IsMarkerLine;
    if r.Closed? {
      var inner, rest := lines[0], lines[1..];
      LinesAfter(lines, 1);
      hide PlainBody;
      EmptyIsPlain();
      if StartsMarker(inner, BASE_SEP) {
        ScannedIsPlain(rest, InBase, ours, Some(""), theirs);
      } else if StartsMarker(inner, MID_SEP) {
        ScannedIsPlain(rest, InTheirs, ours, base, theirs);
      } else if !StartsMarker(inner, THEIRS_CLOSE) {
        assert rest != [];
        assert Complete(inner);
        match section {
          case InOurs =>
            PlainBodyGrows(ours, inner);
            ScannedIsPlain(rest, section, ours + inner, base, theirs);
          case InBase =>
            PlainBodyGrows(UnwrapOr(base, ""), inner);
            ScannedIsPlain(rest, section, ours, Some(UnwrapOr(base, "") + inner), theirs);
          case InTheirs =>
            PlainBodyGrows(theirs, inner);
            ScannedIsPlain(rest, section, ours, base, theirs + inner);
        }
      }
    }
  }

  lemma EmptyIsPlain()
    ensures PlainBody("")
  {
  }

  lemma {:induction false} ContextGrows(context: string, line: string)
    requires Closes(context) && OpensNothing(SplitLines(context)) && IsLine(line)
    requires !StartsMarker(line, OURS_OPEN)
    ensures OpensNothing(SplitLines(context + line)) && (Complete(line) ==> Closes(context + line))
  {
    MarkersAreRead();
    hide SplitLines, IsLine, Complete, StartsMarker, IsMarkerLine, Flatten;
    if Complete(line) { CompleteEnds(line); }
    SplitConcat(context, line);
    SplitOfLines([line]);
    FlattenOne(line);
    assert SplitLines(context + line) == SplitLines(context) + [line];
  }

  lemma CompleteEnds(line: string)
    requires Complete(line)
    ensures line != "" && line[|line| - 1] == '\n'
  {
  }

  lemma OpensNothingClosesNothing(lines: seq<string>)
    requires OpensNothing(lines)
    ensures ClosesNothing(lines)
  {
  }

  /** A file with an opening marker that never closes, after a context without one. */
  lemma {:induction false} UnclosedTail(context: string, lines: seq<string>)
    requires WellSplit(lines) && Closes(context) && OpensNothing(SplitLines(context))
    requires lines != [] && ScanConflict(lines[1..], InOurs, "", None, "").Unclosed?
    ensures ClosesNothing(SplitLines(context + Flatten(lines)))
  {
    MarkersAreRead();
    hide StartsMarker, IsMarkerLine;
    UnclosedIff(lines[1..], InOurs, "", None, "");
    SplitConcat(context, Flatten(lines));
    SplitOfLines(lines);
    var before := SplitLines(context);
    forall i, j | 0 <= i < j < |before + lines|
      ensures !(IsMarkerLine((before + lines)[i], OURS_OPEN) && IsMarkerLine((before + lines)[j], THEIRS_CLOSE))
    {
      if i < |before| {
        assert before[i] in before;
      } else {
        assert (before + lines)[j] == lines[1..][j - |before| - 1];
      }
    }
  }

  lemma {:induction false} CanonicalFlush(context: string)
    requires ClosesNothing(SplitLines(context))
    ensures Canonical(Flush(context))
  {
  }

  lemma {:induction false} CanonicalConflict(context: string, b: Block, rest: seq<Block>)
    requires Closes(context) && OpensNothing(SplitLines(context)) && PlainConflict(b) && Canonical(rest)
    ensures Canonical(Flush(context) + [b] + rest)
  {
    var later := [b] + rest;
    assert later[1..] == rest;
    assert Canonical(later);
    assert Flush(context) + [b] + rest == Flush(context) + later;
    if context != "" {
      assert ([Context(context)] + later)[1..] == later;
    } else {
      assert Flush(context) + later == later;
    }
  }

  lemma {:induction false} ParseLinesIsCanonical(lines: seq<string>, context: string)
    requires WellSplit(lines) && OpensNothing(SplitLines(context))
    requires lines != [] ==> Closes(context)
    ensures Canonical(ParseLines(lines, context))
    decreases |lines|
  {
    hide Canonical, Closes, OpensNothing, ClosesNothing, PlainConflict;
    if lines == [] {
      OpensNothingClosesNothing(SplitLines(context));
      CanonicalFlush(context);
    } else if !StartsMarker(lines[0], OURS_OPEN) {
      ContextGrows(context, lines[0]);
      LinesAfter(lines, 1);
      ParseLinesIsCanonical(lines[1..], context + lines[0]);
    } else {
      ParseOpenedIsCanonical(lines, context);
    }
  }

  lemma {:induction false} ParseOpenedIsCanonical(lines: seq<string>, context: string)
    requires WellSplit(lines) && OpensNothing(SplitLines(context)) && Closes(context)
    requires lines != [] && StartsMarker(lines[0], OURS_OPEN)
    ensures Canonical(ParseLines(lines, context))
    decreases |lines|, 0
  {
    hide Canonical, PlainBody;
    LinesAfter(lines, 1);
    EmptyIsPlain();
    ScannedIsPlain(lines[1..], InOurs, "", None, "");
    match ScanConflict(lines[1..], InOurs, "", None, "") {
      case Closed(ours, base, theirs, rest) =>
        LinesAfter(lines, |lines| - |rest|);
        ParseLinesIsCanonical(rest, "");
        CanonicalConflict(context, Conflict(ours, theirs, base), ParseLines(rest, ""));
      case Unclosed =>
        UnclosedTail(context, lines);
        CanonicalFlush(context + Flatten(lines));
    }
  }

  /** Canonical blocks are exactly what parsing can produce. */
  lemma {:induction false} CanonicalIffParsed(blocks: seq<Block>)
    ensures Canonical(blocks) <==> exists text :: Parsed(text) == blocks
  {
    if text :| Parsed(text) == blocks {
      SplitIsWellSplit(text);
      ParseLinesIsCanonical(SplitLines(text), "");
    }
    if Canonical(blocks) {
      var bare := Labels("", "", "", "");
      var labels := seq(|blocks|, _ => bare);
      ParseInvertsRender(blocks, labels);
      assert Parsed(Render(blocks, labels)) == blocks;
    }
  }

  // ----- nothing is invented -----

  /** The raw lines behind each block. */
  function RawSpans(lines: seq<string>, context: string): seq<string>
    decreases |lines|
  {
    if lines == [] then FrontSpan(context)
    else if !StartsMarker(lines[0], OURS_OPEN) then RawSpans(lines[1..], context + lines[0])
    else match ScanConflict(lines[1..], InOurs, "", None, "")
      case Closed(_, _, _, rest) =>
        FrontSpan(context) + [Flatten(lines[..|lines| - |rest|])] + RawSpans(rest, "")
      case Unclosed => [context + Flatten(lines)]
  }

  /** Some characters of `b`, in order. */
  predicate Subsequence(a: string, b: string) {
    if a == "" then true
    else if b == "" then false
    else (a[0] == b[0] && Subsequence(a[1..], b[1..])) || Subsequence(a, b[1..])
  }

  lemma {:induction false} SubsequenceConcat(a: string, b: string, c: string, d: string)
    requires Subsequence(a, b) && Subsequence(c, d)
    ensures Subsequence(a + c, b + d)
  {
    if b == "" {
      assert a + c == c && b + d == d;
    } else {
      assert (b + d)[0] == b[0] && (b + d)[1..] == b[1..] + d;
      if a == "" {
        assert a + c == c;
        SubsequenceConcat("", b[1..], c, d);
        assert "" + c == c;
      } else if a[0] == b[0] && Subsequence(a[1..], b[1..]) {
        SubsequenceConcat(a[1..], b[1..], c, d);
        assert (a + c)[0] == a[0] && (a + c)[1..] == a[1..] + c;
      } else {
        SubsequenceConcat(a, b[1..], c, d);
      }
    }
  }

  lemma {:induction false} SubsequenceSelf(a: string)
    ensures Subsequence(a, a)
  {
    if a != "" { SubsequenceSelf(a[1..]); }
  }

  /** Both sides, ours first, are drawn in order from the raw lines; so is each alone. */
  ghost predicate DrawnFrom(ours: string, theirs: string, raw: string) {
    Subsequence(ours, raw) && Subsequence(theirs, raw) && Subsequence(ours + theirs, raw)
  }

  lemma DrawnGrows(ours: string, theirs: string, raw: string, inner: string)
    requires DrawnFrom(ours, theirs, raw)
    ensures DrawnFrom(ours, theirs, raw + inner)
    ensures DrawnFrom(ours, theirs + inner, raw + inner)
    ensures theirs == "" ==> DrawnFrom(ours + inner, theirs, raw + inner)
  {
    hide Subsequence;
    SubsequenceSelf(inner);
    EmptyIsSubsequence(inner);
    EmptyIsSubsequence(raw + inner);
    SubsequenceConcat(ours, raw, "", inner);
    SubsequenceConcat(ours, raw, inner, inner);
    SubsequenceConcat(theirs, raw, "", inner);
    SubsequenceConcat(theirs, raw, inner, inner);
    SubsequenceConcat(ours + theirs, raw, "", inner);
    SubsequenceConcat(ours + theirs, raw, inner, inner);
    Regroup(ours, theirs, inner);
    assert ours + "" == ours && theirs + "" == theirs && ours + theirs + "" == ours + theirs;
    assert ours + inner + "" == ours + inner;
  }

  lemma {:induction false} EmptyIsSubsequence(b: string)
    ensures Subsequence("", b)
  {
  }

  lemma RawOfPrefix(lines: seq<string>, n: nat, raw: string)
    requires 0 < n <= |lines|
    ensures raw + Flatten(lines[..n]) == (raw + lines[0]) + Flatten(lines[1..][..n - 1])
  {
    assert lines[..n] == [lines[0]] + lines[1..][..n - 1];
    Regroup(raw, lines[0], Flatten(lines[1..][..n - 1]));
  }

  /** One step of a scan: the state it goes on with, or that it ends here. */
  function ScanStep(inner: string, section: Section, ours: string, base: Option<string>, theirs: string)
    : Option<(Section, string, Option<string>, string)>
  {
    if StartsMarker(inner, BASE_SEP) then Some((InBase, ours, Some(""), theirs))
    else if StartsMarker(inner, MID_SEP) then Some((InTheirs, ours, base, theirs))
    else if StartsMarker(inner, THEIRS_CLOSE) then None
    else var (o, b, t) := AddTo(section, inner, ours, base, theirs); Some((section, o, b, t))
  }

  lemma {:induction false} ScanUnfolds(lines: seq<string>, section: Section, ours: string, base: Option<string>, theirs: string)
    requires lines != []
    ensures ScanConflict(lines, section, ours, base, theirs)
         == match ScanStep(lines[0], section, ours, base, theirs)
            case None => Closed(ours, base, theirs, lines[1..])
            case Some(next) => ScanConflict(lines[1..], next.0, next.1, next.2, next.3)
  {
  }

  lemma {:induction false} ScanDrawsFrom(lines: seq<string>, section: Section, ours: string, base: Option<string>, theirs: string, raw: string)
    requires DrawnFrom(ours, theirs, raw) && (section == InOurs ==> theirs == "")
    ensures var r := ScanConflict(lines, section, ours, base, theirs);
            r.Closed? ==> DrawnFrom(r.ours, r.theirs, raw + Flatten(lines[..|lines| - |r.rest|]))
  {
    if lines == [] { return; }
    ScanUnfolds(lines, section, ours, base, theirs);
    hide DrawnFrom, ScanConflict, Flatten, StartsMarker, ScanStep;
    DrawnGrows(ours, theirs, raw, lines[0]);
    var r := ScanConflict(lines, section, ours, base, theirs);
    if r.Closed? { RawOfPrefix(lines, |lines| - |r.rest|, raw); }
    match ScanStep(lines[0], section, ours, base, theirs) {
      case None =>
        assert lines[1..][..0] == [];
        assert Flatten(lines[1..][..0]) == "" by { FlattenNothing(lines[1..][..0]); }
        assert raw + lines[0] + "" == raw + lines[0];
      case Some(next) =>
        StepKeepsOrder(lines[0], section, ours, base, theirs);
        ScanDrawsFrom(lines[1..], next.0, next.1, next.2, next.3, raw + lines[0]);
    }
  }

  /** The base is drawn from the raw lines too, wherever it was last started anew. */
  lemma {:induction false} ScanDrawsBase(lines: seq<string>, section: Section, ours: string, base: Option<string>, theirs: string, raw: string)
    requires Subsequence(UnwrapOr(base, ""), raw)
    ensures var r := ScanConflict(lines, section, ours, base, theirs);
            r.Closed? ==> Subsequence(UnwrapOr(r.base, ""), raw + Flatten(lines[..|lines| - |r.rest|]))
  {
    if lines == [] { return; }
    ScanUnfolds(lines, section, ours, base, theirs);
    hide Subsequence, ScanConflict, Flatten, StartsMarker, ScanStep;
    BaseGrows(UnwrapOr(base, ""), raw, lines[0]);
    var r := ScanConflict(lines, section, ours, base, theirs);
    if r.Closed? { RawOfPrefix(lines, |lines| - |r.rest|, raw); }
    match ScanStep(lines[0], section, ours, base, theirs) {
      case None =>
        assert lines[1..][..0] == [];
        assert Flatten(lines[1..][..0]) == "" by { FlattenNothing(lines[1..][..0]); }
        assert raw + lines[0] + "" == raw + lines[0];
      case Some(next) =>
        StepGrowsBase(lines[0], section, ours, base, theirs);
        ScanDrawsBase(lines[1..], next.0, next.1, next.2, next.3, raw + lines[0]);
    }
  }

  lemma {:induction false} BaseGrows(base: string, raw: string, inner: string)
    requires Subsequence(base, raw)
    ensures Subsequence("", raw + inner) && Subsequence(base, raw + inner) && Subsequence(base + inner, raw + inner)
  {
    hide Subsequence;
    SubsequenceSelf(inner);
    EmptyIsSubsequence(inner);
    EmptyIsSubsequence(raw + inner);
    SubsequenceConcat(base, raw, "", inner);
    SubsequenceConcat(base, raw, inner, inner);
    assert base + "" == base;
  }

  lemma StepGrowsBase(inner: string, section: Section, ours: string, base: Option<string>, theirs: string)
    ensures match ScanStep(inner, section, ours, base, theirs)
            case None => true
            case Some(next) => UnwrapOr(next.2, "") in {"", UnwrapOr(base, ""), UnwrapOr(base, "") + inner}
  {
  }

  /** A line goes to one side, and to ours only while theirs is empty. */
  lemma StepKeepsOrder(inner: string, section: Section, ours: string, base: Option<string>, theirs: string)
    requires section == InOurs ==> theirs == ""
    ensures match ScanStep(inner, section, ours, base, theirs)
            case None => true
            case Some(next) =>
              && (next.0 == InOurs ==> next.3 == "")
              && ((next.1, next.3) in {(ours, theirs), (ours, theirs + inner)} || (theirs == "" && (next.1, next.3) == (ours + inner, theirs)))
  {
  }

  lemma {:induction false} FlattenNothing(lines: seq<string>)
    requires lines == []
    ensures Flatten(lines) == ""
  {
  }

  /** A block stands over its raw lines: a context is them, a conflict's sides are drawn from them. */
  ghost predicate StandsOver(b: Block, raw: string) {
    match b
    case Context(text) => raw == text
    case Conflict(ours, theirs, base) => DrawnFrom(ours, theirs, raw) && Subsequence(UnwrapOr(base, ""), raw)
  }

  ghost predicate AllStandOver(blocks: seq<Block>, raws: seq<string>) {
    |raws| == |blocks| && forall k | 0 <= k < |blocks| :: StandsOver(blocks[k], raws[k])
  }

  lemma OpenedDrawsFrom(lines: seq<string>)
    requires lines != []
    ensures var r := ScanConflict(lines[1..], InOurs, "", None, "");
            r.Closed? ==> StandsOver(Conflict(r.ours, r.theirs, r.base), Flatten(lines[..|lines| - |r.rest|]))
  {
    EmptyIsSubsequence(lines[0]);
    ScanDrawsFrom(lines[1..], InOurs, "", None, "", lines[0]);
    ScanDrawsBase(lines[1..], InOurs, "", None, "", lines[0]);
    var r := ScanConflict(lines[1..], InOurs, "", None, "");
    if r.Closed? {
      var n := |lines| - |r.rest|;
      assert lines[..n] == [lines[0]] + lines[1..][..n - 1];
    }
  }

  /** Every text is, in order, the raw spans of its blocks. */
  lemma {:induction false} SpansAreTheText(lines: seq<string>, context: string)
    ensures Flatten(RawSpans(lines, context)) == context + Flatten(lines)
    ensures AllStandOver(ParseLines(lines, context), RawSpans(lines, context))
    decreases |lines|
  {
    hide StandsOver;
    if lines == [] {
      ContextStands(context);
      assert context + "" == context;
      assert context != "" ==> Flatten([context]) == context + Flatten([]);
    } else if !StartsMarker(lines[0], OURS_OPEN) {
      SpansAreTheText(lines[1..], context + lines[0]);
      Regroup(context, lines[0], Flatten(lines[1..]));
    } else {
      var whole := context + Flatten(lines);
      ContextStands(whole);
      match ScanConflict(lines[1..], InOurs, "", None, "") {
        case Closed(ours, base, theirs, rest) =>
          SpansAreTheText(rest, "");
          ConflictSpans(lines, context);
        case Unclosed =>
          OpeningLineIsText(lines);
          assert Flatten([whole]) == whole + Flatten([]);
          assert whole + "" == whole;
      }
    }
  }

  lemma {:induction false} OpeningLineIsText(lines: seq<string>)
    requires lines != [] && StartsMarker(lines[0], OURS_OPEN)
    ensures Flatten(lines) != ""
  {
  }

  lemma ContextStands(context: string)
    ensures StandsOver(Context(context), context)
  {
  }

  lemma {:induction false} ConflictSpans(lines: seq<string>, context: string)
    requires lines != [] && StartsMarker(lines[0], OURS_OPEN)
    requires ScanConflict(lines[1..], InOurs, "", None, "").Closed?
    requires var rest := ScanConflict(lines[1..], InOurs, "", None, "").rest;
             Flatten(RawSpans(rest, "")) == "" + Flatten(rest) && AllStandOver(ParseLines(rest, ""), RawSpans(rest, ""))
    ensures Flatten(RawSpans(lines, context)) == context + Flatten(lines)
    ensures AllStandOver(ParseLines(lines, context), RawSpans(lines, context))
  {
    hide RawSpans, ParseLines, ScanConflict, Flatten, StandsOver, StartsMarker;
    var r := ScanConflict(lines[1..], InOurs, "", None, "");
    var n := |lines| - |r.rest|;
    var later, block := RawSpans(r.rest, ""), Conflict(r.ours, r.theirs, r.base);
    OpenedDrawsFrom(lines);
    ConflictUnfolds(lines, context);
    assert "" + Flatten(r.rest) == Flatten(r.rest);
    SpansJoin(lines, n, context, later);
    assert StandsOver(block, Flatten(lines[..n]));
    JoinedStandOver(context, block, Flatten(lines[..n]), ParseLines(r.rest, ""), later);
  }

  lemma {:induction false} ConflictUnfolds(lines: seq<string>, context: string)
    requires lines != [] && StartsMarker(lines[0], OURS_OPEN)
    requires ScanConflict(lines[1..], InOurs, "", None, "").Closed?
    ensures var r := ScanConflict(lines[1..], InOurs, "", None, "");
            && var n := |lines| - |r.rest|;
            && r.rest == lines[n..]
            && RawSpans(lines, context) == FrontSpan(context) + [Flatten(lines[..n])] + RawSpans(r.rest, "")
            && ParseLines(lines, context) == Flush(context) + [Conflict(r.ours, r.theirs, r.base)] + ParseLines(r.rest, "")
  {
    hide ScanConflict, StartsMarker, Flatten;
    ParseUnfolds(lines, context);
    RestIsTail(lines);
  }

  lemma {:induction false} ParseUnfolds(lines: seq<string>, context: string)
    requires lines != [] && StartsMarker(lines[0], OURS_OPEN)
    requires ScanConflict(lines[1..], InOurs, "", None, "").Closed?
    ensures var r := ScanConflict(lines[1..], InOurs, "", None, "");
            ParseLines(lines, context) == Flush(context) + [Conflict(r.ours, r.theirs, r.base)] + ParseLines(r.rest, "")
  {
    hide ScanConflict, StartsMarker, Flatten;
  }

  lemma RestIsTail(lines: seq<string>)
    requires lines != [] && ScanConflict(lines[1..], InOurs, "", None, "").Closed?
    ensures var rest := ScanConflict(lines[1..], InOurs, "", None, "").rest;
            rest == lines[|lines| - |rest|..]
  {
    hide ScanConflict;
    var rest := ScanConflict(lines[1..], InOurs, "", None, "").rest;
    assert lines[1..][|lines[1..]| - |rest|..] == lines[|lines| - |rest|..];
  }

  function FrontSpan(context: string): seq<string> { if context == "" then [] else [context] }

  lemma JoinedStandOver(context: string, b: Block, raw: string, blocks: seq<Block>, raws: seq<string>)
    requires StandsOver(b, raw) && AllStandOver(blocks, raws)
    ensures AllStandOver(Flush(context) + [b] + blocks, FrontSpan(context) + [raw] + raws)
  {
    ContextStands(context);
  }

  lemma FlattenOne(s: string)
    ensures Flatten([s]) == s
  {
    assert Flatten([s]) == s + Flatten([]);
  }

  lemma {:induction false} SpansJoin(lines: seq<string>, n: nat, context: string, later: seq<string>)
    requires n <= |lines| && Flatten(later) == Flatten(lines[n..])
    ensures Flatten(FrontSpan(context) + [Flatten(lines[..n])] + later) == context + Flatten(lines)
  {
    var raw := Flatten(lines[..n]);
    FlattenOne(raw);
    FlattenOne(context);
    FlattenNothing([]);
    hide Flatten;
    assert lines == lines[..n] + lines[n..];
    FlattenConcat(lines[..n], lines[n..]);
    FlattenConcat(FrontSpan(context) + [raw], later);
    FlattenConcat(FrontSpan(context), [raw]);
    Regroup(context, raw, Flatten(lines[n..]));
  }

  lemma {:induction false} ComposedIsDrawn(blocks: seq<Block>, raws: seq<string>, choices: seq<Choice>, nth: nat)
    requires AllStandOver(blocks, raws)
    ensures ComposeFrom(blocks, choices, nth).Some? ==> Subsequence(ComposeFrom(blocks, choices, nth).value, Flatten(raws))
  {
    if blocks != [] {
      var b := blocks[0];
      var next := if b.Conflict? then nth + 1 else nth;
      assert StandsOver(b, raws[0]);
      forall k | 0 <= k < |blocks| - 1 ensures StandsOver(blocks[1..][k], raws[1..][k]) {
        assert StandsOver(blocks[k + 1], raws[k + 1]);
      }
      ComposedIsDrawn(blocks[1..], raws[1..], choices, next);
      SubsequenceSelf(raws[0]);
      hide Subsequence;
      EmptyIsSubsequence(raws[0]);
      var rest := ComposeFrom(blocks[1..], choices, next);
      if rest.Some? {
        SubsequenceConcat(Picked(b, ChoiceAt(choices, nth)), raws[0], rest.value, Flatten(raws[1..]));
      }
    }
  }

  /** A composed file holds nothing but characters of the marker file, in order. */
  lemma {:induction false} CompositionInventsNothing(text: string, choices: seq<Choice>)
    ensures var r := Composed(Parsed(text), choices);
            r.Some? ==> Subsequence(r.value, text)
  {
    SplitIsWellSplit(text);
    SpansAreTheText(SplitLines(text), "");
    assert "" + text == text;
    ComposedIsDrawn(Parsed(text), RawSpans(SplitLines(text), ""), choices, 0);
  }

  // ----- texts without a conflict -----

  lemma {:induction false} FirstCloses(lines: seq<string>, context: string)
    ensures ConflictCount(ParseLines(lines, context)) == 0 <==> ClosesNothing(lines)
    decreases |lines|
  {
    MarkersAreRead();
    hide StartsMarker, IsMarkerLine;
    if ClosesNothing(lines) {
      ParseUnclosed(lines, context);
      NoConflictInContext(context + Flatten(lines));
    } else if !StartsMarker(lines[0], OURS_OPEN) {
      FirstCloses(lines[1..], context + lines[0]);
      if ClosesNothing(lines[1..]) { OpeningIsLater(lines); }
    } else {
      UnclosedIff(lines[1..], InOurs, "", None, "");
      match ScanConflict(lines[1..], InOurs, "", None, "") {
        case Closed(ours, base, theirs, rest) =>
          FilterConcat(IsConflict, Flush(context) + [Conflict(ours, theirs, base)], ParseLines(rest, ""));
          FilterConcat(IsConflict, Flush(context), [Conflict(ours, theirs, base)]);
        case Unclosed =>
      }
    }
  }

  lemma NoConflictInContext(context: string)
    ensures ConflictCount(Flush(context)) == 0
  {
    FilterNone(IsConflict, Flush(context));
  }

  lemma OpeningIsLater(lines: seq<string>)
    requires lines != [] && !IsMarkerLine(lines[0], OURS_OPEN) && ClosesNothing(lines[1..])
    ensures ClosesNothing(lines)
  {
    forall i, j | 0 <= i < j < |lines|
      ensures !(IsMarkerLine(lines[i], OURS_OPEN) && IsMarkerLine(lines[j], THEIRS_CLOSE))
    {
      if i > 0 { assert lines[i] == lines[1..][i - 1] && lines[j] == lines[1..][j - 1]; }
    }
  }

  /** A choice is offered exactly when some opening marker is closed further down. */
  lemma {:induction false} ConflictIffClosed(text: string)
    ensures ConflictCount(Parsed(text)) == 0 <==> ClosesNothing(SplitLines(text))
  {
    FirstCloses(SplitLines(text), "");
  }

  /** A text with no closed conflict composes to itself, whatever was chosen. */
  lemma PlainTextIsUnchanged(text: string, choices: seq<Choice>)
    requires ConflictCount(Parsed(text)) == 0
    ensures Composed(Parsed(text), choices) == Some(text)
  {
    ConflictIffClosed(text);
    SplitIsWellSplit(text);
    ParseUnclosed(SplitLines(text), "");
    assert "" + text == text && text + "" == text;
    if text != "" {
      assert [Context(text)][1..] == [];
      assert ComposeFrom([], choices, 0) == Some("");
    }
  }

  // ----- choices -----

  lemma ChoicesShift(b: Block, rest: seq<Block>)
    ensures ConflictCount([b] + rest) == ConflictCount(rest) + if b.Conflict? then 1 else 0
  {
    assert ([b] + rest)[1..] == rest;
  }

  lemma {:induction false} OpenIff(choices: seq<Choice>, from: nat, count: nat)
    requires from <= count
    ensures forall n :: n in Open(choices, from, count) <==> from <= n < count && (n >= |choices| || choices[n] == Unchosen)
    ensures Open(choices, from, count) == [] <==> forall n | from <= n < count :: ChoiceAt(choices, n) != Unchosen
    ensures forall i, j | 0 <= i < j < |Open(choices, from, count)| :: Open(choices, from, count)[i] < Open(choices, from, count)[j]
    decreases count - from
  {
    if from < count {
      OpenIff(choices, from + 1, count);
      var rest := Open(choices, from + 1, count);
      assert forall i | 0 <= i < |rest| :: rest[i] in rest;
    }
  }

  lemma {:induction false} ComposeFromIffChosen(blocks: seq<Block>, choices: seq<Choice>, nth: nat)
    ensures ComposeFrom(blocks, choices, nth).Some?
            <==> forall n | nth <= n < nth + ConflictCount(blocks) :: ChoiceAt(choices, n) != Unchosen
  {
    if blocks != [] {
      var b, rest := blocks[0], blocks[1..];
      assert blocks == [b] + rest;
      ChoicesShift(b, rest);
      ComposeFromIffChosen(rest, choices, if b.Conflict? then nth + 1 else nth);
    }
  }

  /** There is a file exactly when no conflict is listed as open: when the vector reaches every conflict and holds a choice
      for it. */
  lemma ComposesIffNothingOpen(blocks: seq<Block>, choices: seq<Choice>)
    ensures Composed(blocks, choices).Some? <==> UnchosenOrdinals(blocks, choices) == []
    ensures Composed(blocks, choices).Some?
            <==> ConflictCount(blocks) <= |choices| && forall n | 0 <= n < ConflictCount(blocks) :: choices[n] != Unchosen
    ensures forall n :: n in UnchosenOrdinals(blocks, choices) <==>
              0 <= n < ConflictCount(blocks) && (n >= |choices| || choices[n] == Unchosen)
  {
    ComposeFromIffChosen(blocks, choices, 0);
    OpenIff(choices, 0, ConflictCount(blocks));
    VectorReaches(choices, ConflictCount(blocks));
  }

  lemma VectorReaches(choices: seq<Choice>, count: nat)
    ensures (forall n | 0 <= n < count :: ChoiceAt(choices, n) != Unchosen)
            <==> count <= |choices| && forall n | 0 <= n < count :: choices[n] != Unchosen
  {
    if count <= |choices| {
      forall n | 0 <= n < count ensures ChoiceAt(choices, n) == choices[n] {}
    } else {
      assert ChoiceAt(choices, |choices|) == Unchosen;
    }
  }

  function Join(a: Option<string>, b: Option<string>): Option<string> {
    if a.Some? && b.Some? then Some(a.value + b.value) else None
  }

  lemma FrontUnfolds(a: seq<Block>, b: seq<Block>, choices: seq<Choice>, nth: nat)
    requires a != []
    ensures a == [a[0]] + a[1..]
    ensures var next := if a[0].Conflict? then nth + 1 else nth;
            var isOpen := a[0].Conflict? && ChoiceAt(choices, nth) == Unchosen;
            var picked := Picked(a[0], ChoiceAt(choices, nth));
            && ComposeFrom(a + b, choices, nth) == (if isOpen then None else Before(picked, ComposeFrom(a[1..] + b, choices, next)))
            && ComposeFrom(a, choices, nth) == (if isOpen then None else Before(picked, ComposeFrom(a[1..], choices, next)))
  {
    assert (a + b)[0] == a[0] && (a + b)[1..] == a[1..] + b;
  }

  /** Composition splits at any point; the second part's ordinals start at the first part's conflict count. */
  lemma {:induction false} CompositionSplits(a: seq<Block>, b: seq<Block>, choices: seq<Choice>, nth: nat)
    ensures ComposeFrom(a + b, choices, nth) == Join(ComposeFrom(a, choices, nth), ComposeFrom(b, choices, nth + ConflictCount(a)))
  {
    if a == [] {
      assert a + b == b;
      var r := ComposeFrom(b, choices, nth);
      if r.Some? { assert "" + r.value == r.value; }
    } else {
      FrontUnfolds(a, b, choices, nth);
      hide ConflictCount, Picked, ChoiceAt, ComposeFrom;
      var next := if a[0].Conflict? then nth + 1 else nth;
      ChoicesShift(a[0], a[1..]);
      CompositionSplits(a[1..], b, choices, next);
      var front, back := ComposeFrom(a[1..], choices, next), ComposeFrom(b, choices, next + ConflictCount(a[1..]));
      if front.Some? && back.Some? {
        Regroup(Picked(a[0], ChoiceAt(choices, nth)), front.value, back.value);
      }
    }
  }

  lemma {:induction false} OtherChoicesDoNotMatter(blocks: seq<Block>, x: seq<Choice>, y: seq<Choice>, nth: nat)
    requires forall n | nth <= n < nth + ConflictCount(blocks) :: ChoiceAt(x, n) == ChoiceAt(y, n)
    ensures ComposeFrom(blocks, x, nth) == ComposeFrom(blocks, y, nth)
  {
    if blocks != [] {
      assert blocks == [blocks[0]] + blocks[1..];
      ChoicesShift(blocks[0], blocks[1..]);
      OtherChoicesDoNotMatter(blocks[1..], x, y, if blocks[0].Conflict? then nth + 1 else nth);
    }
  }

  /** Changing one ordinal's choice changes that conflict's span and nothing else. */
  lemma OneChoiceChangesOneSpan(front: seq<Block>, conflict: Block, back: seq<Block>, x: seq<Choice>, y: seq<Choice>)
    requires conflict.Conflict?
    requires forall n: nat | n != ConflictCount(front) :: ChoiceAt(x, n) == ChoiceAt(y, n)
    requires Composed(front + [conflict] + back, x).Some? && Composed(front + [conflict] + back, y).Some?
    ensures ConflictCount(front) < |x| && ConflictCount(front) < |y|
    ensures exists before, after ::
              && Composed(front + [conflict] + back, x) == Some(before + Picked(conflict, x[ConflictCount(front)]) + after)
              && Composed(front + [conflict] + back, y) == Some(before + Picked(conflict, y[ConflictCount(front)]) + after)
  {
    var n := ConflictCount(front);
    FilterConcat(IsConflict, front, [conflict]);
    CompositionSplits(front + [conflict], back, x, 0);
    CompositionSplits(front, [conflict], x, 0);
    CompositionSplits(front + [conflict], back, y, 0);
    CompositionSplits(front, [conflict], y, 0);
    OtherChoicesDoNotMatter(front, x, y, 0);
    OtherChoicesDoNotMatter(back, x, y, n + 1);
    SingleSpan(conflict, x, n);
    SingleSpan(conflict, y, n);
    var before, after := ComposeFrom(front, x, 0).value, ComposeFrom(back, x, n + 1).value;
    assert Composed(front + [conflict] + back, x) == Some(before + Picked(conflict, ChoiceAt(x, n)) + after);
  }

  lemma {:induction false} SingleSpan(conflict: Block, choices: seq<Choice>, n: nat)
    requires conflict.Conflict?
    ensures ComposeFrom([conflict], choices, n)
         == if ChoiceAt(choices, n) == Unchosen then None else Some(Picked(conflict, ChoiceAt(choices, n)))
  {
    assert [conflict][1..] == [];
    assert ComposeFrom([], choices, n + 1) == Some("");
    assert Picked(conflict, ChoiceAt(choices, n)) + "" == Picked(conflict, ChoiceAt(choices, n));
  }

  /** The text of one conflict, markers and all. */
  function ConflictText(ours: string, theirs: string, l: Labels): string {
    MarkerLine(OURS_OPEN, l.open) + (ours + (MarkerLine(MID_SEP, l.mid) + (theirs + MarkerLine(THEIRS_CLOSE, l.close))))
  }

  lemma ConflictTextIsRendered(ours: string, theirs: string, l: Labels)
    ensures ConflictText(ours, theirs, l) == Render([Conflict(ours, theirs, None)], [l])
  {
    var block := Conflict(ours, theirs, None);
    var open, mid, close := MarkerLine(OURS_OPEN, l.open), MarkerLine(MID_SEP, l.mid), MarkerLine(THEIRS_CLOSE, l.close);
    SplitIsWellSplit(ours);
    SplitIsWellSplit(theirs);
    FlattenOne(open);
    FlattenOne(mid);
    FlattenOne(close);
    assert [block][1..] == [] && [l][1..] == [];
    assert RenderLines([], []) == [];
    assert RenderLines([block], [l]) == RenderBlock(block, l) + [];
    hide MarkerLine, SplitLines, Flatten;
    var o, t := SplitLines(ours), SplitLines(theirs);
    assert RenderBlock(block, l) + [] == [open] + (o + ([mid] + (t + [close])));
    FlattenConcat(t, [close]);
    FlattenConcat([mid], t + [close]);
    FlattenConcat(o, [mid] + (t + [close]));
    FlattenConcat([open], o + ([mid] + (t + [close])));
  }

  /** Between the markers: the first side is ours, the second theirs, and keeping both puts ours first. */
  lemma ChoiceKeepsThatSide(ours: string, theirs: string, l: Labels, choices: seq<Choice>)
    requires PlainBody(ours) && PlainBody(theirs) && ValidLabels(l)
    ensures Composed(Parsed(ConflictText(ours, theirs, l)), choices)
         == if choices == [] then None
            else match choices[0]
                 case Unchosen => None
                 case Ours => Some(ours)
                 case Theirs => Some(theirs)
                 case Both => Some(ours + theirs)
  {
    var block := Conflict(ours, theirs, None);
    ConflictTextIsRendered(ours, theirs, l);
    assert Canonical([block][1..]);
    assert Canonical([block]);
    ParseInvertsRender([block], [l]);
    SingleSpan(block, choices, 0);
  }

  // ----- any conflict, canonical or not -----

  /** A separator of a conflict and the lines up to the next one. */
  datatype Part = Part(isBase: bool, words: string, lines: seq<string>)

  function PartLines(parts: seq<Part>): seq<string> {
    if parts == [] then []
    else [MarkerLine(if parts[0].isBase then "|||||||" else "=======", parts[0].words)] + (parts[0].lines + PartLines(parts[1..]))
  }

  ghost predicate PlainParts(parts: seq<Part>) {
    forall p | p in parts :: ValidLabel(p.words) && forall l | l in p.lines :: Complete(l) && !IsSeparator(l)
  }

  /** Whatever stands below middle markers is theirs. */
  function TheirsOf(parts: seq<Part>): string {
    if parts == [] then "" else (if parts[0].isBase then "" else Flatten(parts[0].lines)) + TheirsOf(parts[1..])
  }

  /** Only what stands below the last base marker is the base. */
  function BaseOf(parts: seq<Part>, base: Option<string>): Option<string>
    decreases |parts|
  {
    if parts == [] then base else BaseOf(parts[1..], if parts[0].isBase then Some(Flatten(parts[0].lines)) else base)
  }

  lemma {:induction false} PartsScan(parts: seq<Part>, last: seq<string>, section: Section, ours: string, base: Option<string>,
                                     theirs: string, words: string)
    requires PlainParts(parts) && last != [] && last[0] == MarkerLine(THEIRS_CLOSE, words) && ValidLabel(words)
    ensures ScanConflict(PartLines(parts) + last, section, ours, base, theirs)
         == Closed(ours, BaseOf(parts, base), theirs + TheirsOf(parts), last[1..])
    decreases |parts|
  {
    hide ScanConflict, MarkerLine, Flatten, IsSeparator, Complete, ValidLabel;
    if parts == [] {
      NoParts(last, theirs, base);
      ClosedHere(last, section, ours, base, theirs, words);
    } else {
      var p, rest := parts[0], parts[1..];
      assert p in parts && forall q | q in rest :: q in parts;
      PartsUnfold(parts, last, base, theirs);
      hide PartLines, TheirsOf, BaseOf;
      PartScan(p, PartLines(rest) + last, section, ours, base, theirs);
      PartsScan(rest, last, if p.isBase then InBase else InTheirs, ours, if p.isBase then Some(Flatten(p.lines)) else base,
                if p.isBase then theirs else theirs + Flatten(p.lines), words);
    }
  }

  lemma {:induction false} NoParts(last: seq<string>, theirs: string, base: Option<string>)
    ensures PartLines([]) + last == last && theirs + TheirsOf([]) == theirs && BaseOf([], base) == base
  {
  }

  lemma {:induction false} PartsUnfold(parts: seq<Part>, last: seq<string>, base: Option<string>, theirs: string)
    requires parts != []
    ensures var p, rest := parts[0], parts[1..];
            && PartLines(parts) + last
                 == [MarkerLine(if p.isBase then BASE_SEP else MID_SEP, p.words)] + (p.lines + (PartLines(rest) + last))
            && theirs + TheirsOf(parts) == (if p.isBase then theirs else theirs + Flatten(p.lines)) + TheirsOf(rest)
            && BaseOf(parts, base) == BaseOf(rest, if p.isBase then Some(Flatten(p.lines)) else base)
  {
    hide MarkerLine, Flatten;
    var text, rest := Flatten(parts[0].lines), TheirsOf(parts[1..]);
    Regroup(theirs, text, rest);
    assert "" + rest == rest;
  }

  lemma {:induction false} ClosedHere(last: seq<string>, section: Section, ours: string, base: Option<string>, theirs: string, words: string)
    requires last != [] && last[0] == MarkerLine(THEIRS_CLOSE, words) && ValidLabel(words)
    ensures ScanConflict(last, section, ours, base, theirs) == Closed(ours, base, theirs, last[1..])
  {
    MarkerLineIs(THEIRS_CLOSE, words);
    hide MarkerLine, StartsMarker;
  }

  /** One separator and the lines below it. */
  lemma {:induction false} PartScan(p: Part, later: seq<string>, section: Section, ours: string, base: Option<string>, theirs: string)
    requires ValidLabel(p.words) && forall l | l in p.lines :: !IsSeparator(l)
    ensures ScanConflict([MarkerLine(if p.isBase then BASE_SEP else MID_SEP, p.words)] + (p.lines + later), section, ours, base, theirs)
         == ScanConflict(later, if p.isBase then InBase else InTheirs, ours, if p.isBase then Some(Flatten(p.lines)) else base,
                         if p.isBase then theirs else theirs + Flatten(p.lines))
  {
    hide ScanConflict, MarkerLine, Flatten, IsSeparator;
    var lines := [MarkerLine(if p.isBase then BASE_SEP else MID_SEP, p.words)] + (p.lines + later);
    assert lines[1..] == p.lines + later;
    ScanMarker(lines, p.words, section, ours, base, theirs);
    assert "" + Flatten(p.lines) == Flatten(p.lines);
    ScanPlain(p.lines, later, if p.isBase then InBase else InTheirs, ours, if p.isBase then Some("") else base, theirs);
  }

  /** The lines of one conflict with any separators, in any order and number. */
  function AnyConflict(l: Labels, ours: seq<string>, parts: seq<Part>): seq<string> {
    [MarkerLine("<<<<<<<", l.open)] + (ours + (PartLines(parts) + [MarkerLine(">>>>>>>", l.close)]))
  }

  /** Ours is all above the first separator, theirs all below middle markers, and the base what follows the last base marker. */
  lemma {:induction false} AnyConflictIsRead(l: Labels, ours: seq<string>, parts: seq<Part>)
    requires ValidLabels(l) && PlainParts(parts) && forall x | x in ours :: Complete(x) && !IsSeparator(x)
    ensures Parsed(Flatten(AnyConflict(l, ours, parts))) == [Conflict(Flatten(ours), TheirsOf(parts), BaseOf(parts, None))]
  {
    var lines, last := AnyConflict(l, ours, parts), [MarkerLine(THEIRS_CLOSE, l.close)];
    MarkerLineIs(OURS_OPEN, l.open);
    MarkerLineIs(THEIRS_CLOSE, l.close);
    hide MarkerLine, Complete, IsSeparator, StartsMarker, SplitLines, ScanConflict, Flatten, ValidLabel;
    PartsAreComplete(parts);
    AnyConflictIsComplete(lines, ours, PartLines(parts), last);
    SplitOfLines(lines);
    assert lines[1..] == ours + (PartLines(parts) + last);
    ScanPlain(ours, PartLines(parts) + last, InOurs, "", None, "");
    assert "" + Flatten(ours) == Flatten(ours) && "" + TheirsOf(parts) == TheirsOf(parts);
    PartsScan(parts, last, InOurs, Flatten(ours), None, "", l.close);
    ParsesToOne(lines, Conflict(Flatten(ours), TheirsOf(parts), BaseOf(parts, None)));
  }

  lemma {:induction false} ParsesToOne(lines: seq<string>, b: Block)
    requires lines != [] && StartsMarker(lines[0], OURS_OPEN) && b.Conflict?
    requires ScanConflict(lines[1..], InOurs, "", None, "") == Closed(b.ours, b.base, b.theirs, [])
    ensures ParseLines(lines, "") == [b]
  {
    assert ParseLines([], "") == [];
    hide StartsMarker, ScanConflict;
    assert Flush("") + [b] + [] == [b];
  }

  lemma AnyConflictIsComplete(lines: seq<string>, ours: seq<string>, middle: seq<string>, last: seq<string>)
    requires lines != [] && lines == [lines[0]] + (ours + (middle + last)) && Complete(lines[0])
    requires (forall x | x in ours :: Complete(x)) && (forall x | x in middle :: Complete(x)) && forall x | x in last :: Complete(x)
    ensures WellSplit(lines)
  {
    forall i | 0 <= i < |lines| ensures Complete(lines[i]) {
      assert lines[i] == lines[0] || lines[i] in ours || lines[i] in middle || lines[i] in last;
    }
  }

  lemma {:induction false} PartsAreComplete(parts: seq<Part>)
    requires PlainParts(parts)
    ensures forall l | l in PartLines(parts) :: Complete(l)
  {
    if parts != [] {
      var p := parts[0];
      assert p in parts && forall q | q in parts[1..] :: q in parts;
      MarkerLineIs(BASE_SEP, p.words);
      MarkerLineIs(MID_SEP, p.words);
      PartsAreComplete(parts[1..]);
    }
  }

  /** A row of ten equals signs in a side is text: only seven, and then a space or a line end, part the sides. */
  lemma {:induction false} HeadingIsText()
    ensures Parsed("<<<<<<< HEAD\n" + ("Title\n==========\nours\n" + ("=======\n" + ("theirs\n" + ">>>>>>> topic\n"))))
         == [Conflict("Title\n==========\nours\n", "theirs\n", None)]
  {
    var l := Labels(" HEAD", "", "", " topic");
    var ours, theirs := ["Title\n", "==========\n", "ours\n"], ["theirs\n"];
    var parts := [Part(false, "", theirs)];
    FindAt(" HEAD", '\n', 5);
    FindAt(" topic", '\n', 6);
    FindAt("", '\n', 0);
    forall x | x in ours + theirs ensures Complete(x) && !IsSeparator(x) {
      FindAt(x, '\n', |x| - 1);
      NotASeparator(x);
    }
    AnyConflictIsRead(l, ours, parts);
    HeadingText(l, ours, parts, theirs);
  }

  lemma NotASeparator(x: string)
    requires x in ["Title\n", "==========\n", "ours\n", "theirs\n"]
    ensures !IsSeparator(x)
  {
    MarkersAreRead();
    hide IsMarkerLine;
    assert "Title\n"[0] == 'T' && "ours\n"[0] == 'o' && "theirs\n"[0] == 't' && "==========\n"[7] == '=';
    assert "|||||||"[0] == '|' && "======="[0] == '=' && ">>>>>>>"[0] == '>';
    if x == "==========\n" { assert x[7..][0] == '='; }
  }

  lemma {:induction false} HeadingText(l: Labels, ours: seq<string>, parts: seq<Part>, theirs: seq<string>)
    requires l == Labels(" HEAD", "", "", " topic") && ours == ["Title\n", "==========\n", "ours\n"] && theirs == ["theirs\n"]
    requires parts == [Part(false, "", theirs)]
    ensures Flatten(AnyConflict(l, ours, parts))
         == "<<<<<<< HEAD\n" + ("Title\n==========\nours\n" + ("=======\n" + ("theirs\n" + ">>>>>>> topic\n")))
    ensures Flatten(ours) == "Title\n==========\nours\n" && TheirsOf(parts) == "theirs\n" && BaseOf(parts, None) == None
  {
    assert parts[1..] == [] && PartLines(parts[1..]) == [] && TheirsOf(parts[1..]) == "" && BaseOf(parts[1..], None) == None;
    var open, mid, close := MarkerLine("<<<<<<<", " HEAD"), MarkerLine("=======", ""), MarkerLine(">>>>>>>", " topic");
    assert PartLines(parts) == [mid] + theirs;
    assert open == "<<<<<<< HEAD\n" && mid == "=======\n" && close == ">>>>>>> topic\n";
    HeadingSide(ours);
    hide Flatten, MarkerLine;
    FlattenOne("theirs\n");
    FlattenOne(close);
    FlattenOne(open);
    FlattenOne(mid);
    var tail := theirs + [close];
    assert AnyConflict(l, ours, parts) == [open] + (ours + ([mid] + tail));
    FlattenConcat(theirs, [close]);
    FlattenConcat([mid], tail);
    FlattenConcat(ours, [mid] + tail);
    FlattenConcat([open], ours + ([mid] + tail));
  }

  lemma {:induction false} HeadingSide(ours: seq<string>)
    requires ours == ["Title\n", "==========\n", "ours\n"]
    ensures Flatten(ours) == "Title\n==========\nours\n"
  {
    assert ours[1..] == ["==========\n", "ours\n"] && ours[1..][1..] == ["ours\n"];
    FlattenOne("ours\n");
    assert Flatten(ours[1..]) == "==========\n" + "ours\n";
    assert "Title\n" + ("==========\n" + "ours\n") == "Title\n==========\nours\n";
  }
}
