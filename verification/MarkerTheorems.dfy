/** The parser inverts rendering exactly on canonical blocks, and neither parsing nor composing invents text. */
module MarkerTheorems {
  import opened Basics
  import opened Markers

  // ----- lines -----

  ghost predicate Complete(line: string) { line != "" && Find(line, '\n', 0) == |line| - 1 }

  /** A line as `SplitLines` gives it: not empty, a line end only at its end. */
  ghost predicate IsLine(line: string) { line != "" && Find(line, '\n', 0) >= |line| - 1 }

  /** Lines that split the way they are: all complete, the last one perhaps not. */
  ghost predicate WellSplit(lines: seq<string>) {
    && (forall i | 0 <= i < |lines| :: IsLine(lines[i]))
    && (forall i | 0 <= i < |lines| - 1 :: Complete(lines[i]))
  }

  lemma {:induction false} SplitIsWellSplit(text: string)
    ensures WellSplit(SplitLines(text)) && Flatten(SplitLines(text)) == text
    decreases |text|
  {
    if text != "" {
      var i := Find(text, '\n', 0);
      if i < |text| {
        FindAt(text[..i + 1], '\n', i);
        SplitIsWellSplit(text[i + 1..]);
        hide Find;
        var line, rest := text[..i + 1], SplitLines(text[i + 1..]);
        WellSplitConcat([line], rest);
        assert text == line + text[i + 1..];
      }
    }
  }

  lemma WellSplitConcat(a: seq<string>, b: seq<string>)
    requires WellSplit(b) && forall i | 0 <= i < |a| :: Complete(a[i])
    ensures WellSplit(a + b)
  {
  }

  lemma {:induction false} SplitOfComplete(line: string, rest: string)
    requires Complete(line)
    ensures SplitLines(line + rest) == [line] + SplitLines(rest)
  {
    var text := line + rest;
    FindAt(text, '\n', |line| - 1);
    assert text[..|line|] == line && text[|line|..] == rest;
  }

  lemma {:induction false} SplitOfLines(lines: seq<string>)
    requires WellSplit(lines)
    ensures SplitLines(Flatten(lines)) == lines
  {
    if |lines| == 1 {
      assert Flatten(lines) == lines[0];
      var i := Find(lines[0], '\n', 0);
      if i < |lines[0]| { assert lines[0][..i + 1] == lines[0] && lines[0][i + 1..] == ""; }
    } else if lines != [] {
      assert WellSplit(lines[1..]);
      SplitOfLines(lines[1..]);
      SplitOfComplete(lines[0], Flatten(lines[1..]));
    }
  }

  /** A text of complete lines. */
  ghost predicate Closes(text: string) { text == "" || text[|text| - 1] == '\n' }

  lemma {:induction false} ClosesMeansComplete(text: string)
    requires Closes(text)
    ensures forall i | 0 <= i < |SplitLines(text)| :: Complete(SplitLines(text)[i])
    decreases |text|
  {
    if text != "" {
      var i := Find(text, '\n', 0);
      assert i < |text|;
      FindAt(text[..i + 1], '\n', i);
      ClosesMeansComplete(text[i + 1..]);
    }
  }

  lemma {:induction false} SplitConcat(a: string, b: string)
    requires Closes(a)
    ensures SplitLines(a + b) == SplitLines(a) + SplitLines(b)
  {
    ClosesMeansComplete(a);
    SplitIsWellSplit(a);
    SplitIsWellSplit(b);
    hide SplitLines, Complete, IsLine;
    WellSplitConcat(SplitLines(a), SplitLines(b));
    FlattenConcat(SplitLines(a), SplitLines(b));
    SplitOfLines(SplitLines(a) + SplitLines(b));
  }

  // ----- canonical blocks -----

  /** The line is the marker alone, or the marker and then a space or a line end before anything else. */
  ghost predicate IsMarkerLine(line: string, marker: string) {
    line == marker || exists c, rest :: c in {' ', '\r', '\n'} && line == marker + [c] + rest
  }

  /** The parser reads as markers exactly the marker lines. */
  lemma MarkersAreRead()
    ensures forall line, marker :: StartsMarker(line, marker) <==> IsMarkerLine(line, marker)
  {
    forall line: string, marker: string ensures StartsMarker(line, marker) <==> IsMarkerLine(line, marker) {
      MarkerIsRead(line, marker);
    }
  }

  lemma MarkerIsRead(line: string, marker: string)
    ensures StartsMarker(line, marker) <==> IsMarkerLine(line, marker)
  {
    if StartsMarker(line, marker) && line != marker {
      var after := line[|marker|..];
      assert line == marker + [after[0]] + after[1..];
    }
    if c, rest :| c in {' ', '\r', '\n'} && line == marker + [c] + rest {
      assert line[|marker|..] == [c] + rest;
      assert line[..|marker|] == marker;
    }
  }

  /** Of a line, that means the marker, any label, and perhaps a line end: seven signs and more signs are text. */
  lemma MarkerHasALabel(line: string, marker: string)
    requires IsLine(line) && marker in {"<<<<<<<", "|||||||", "=======", ">>>>>>>"}
    ensures StartsMarker(line, marker) <==>
              exists words :: ValidLabel(words) && (line == marker + words || line == marker + words + "\n")
  {
    if StartsMarker(line, marker) {
      LabelOf(line, marker);
    }
    if words :| ValidLabel(words) && (line == marker + words || line == marker + words + "\n") {
      var after := line[|marker|..];
      assert line[..|marker|] == marker;
      assert after == words || after == words + "\n";
    }
  }

  lemma LabelOf(line: string, marker: string)
    requires IsLine(line) && StartsMarker(line, marker) && |marker| == 7
    ensures exists words :: ValidLabel(words) && (line == marker + words || line == marker + words + "\n")
  {
    var n := |line|;
    var closed := n > 7 && line[n - 1] == '\n';
    var words := if closed then line[7..n - 1] else line[7..];
    assert line == marker + words + if closed then "\n" else "";
    assert forall k | 0 <= k < n - 1 :: line[k] != '\n';
    if n > 7 && !closed { assert line[n - 1] != '\n'; }
    assert forall k | 0 <= k < |words| :: words[k] == line[k + 7] != '\n';
    FindAt(words, '\n', |words|);
    assert ValidLabel(words);
  }

  ghost predicate IsSeparator(line: string) {
    IsMarkerLine(line, "|||||||") || IsMarkerLine(line, "=======") || IsMarkerLine(line, ">>>>>>>")
  }

  /** A side of a conflict: complete lines, none of them a separator; it may hold opening markers. */
  ghost predicate PlainBody(text: string) {
    Closes(text) && forall l | l in SplitLines(text) :: !IsSeparator(l)
  }

  ghost predicate OpensNothing(lines: seq<string>) {
    forall l | l in lines :: !IsMarkerLine(l, "<<<<<<<")
  }

  /** No opening marker is followed by a closing one. */
  ghost predicate ClosesNothing(lines: seq<string>) {
    forall i, j | 0 <= i < j < |lines| :: !(IsMarkerLine(lines[i], "<<<<<<<") && IsMarkerLine(lines[j], ">>>>>>>"))
  }

  ghost predicate PlainConflict(b: Block) {
    b.Conflict? && PlainBody(b.ours) && PlainBody(b.theirs) && (b.base.Some? ==> PlainBody(b.base.value))
  }

  ghost predicate Canonical(blocks: seq<Block>) {
    if blocks == [] then true
    else
      && Canonical(blocks[1..])
      && (blocks[0].Conflict? ==> PlainConflict(blocks[0]))
      && (blocks[0].Context? ==>
            && blocks[0].text != ""
            && if |blocks| == 1 then ClosesNothing(SplitLines(blocks[0].text))
               else blocks[1].Conflict? && Closes(blocks[0].text) && OpensNothing(SplitLines(blocks[0].text)))
  }

  // ----- rendering -----

  /** What follows each marker on its line. */
  datatype Labels = Labels(open: string, base: string, mid: string, close: string)

  ghost predicate ValidLabel(s: string) {
    (s == "" || s[0] == ' ' || s[0] == '\r') && Find(s, '\n', 0) == |s|
  }

  ghost predicate ValidLabels(l: Labels) {
    ValidLabel(l.open) && ValidLabel(l.base) && ValidLabel(l.mid) && ValidLabel(l.close)
  }

  function MarkerLine(marker: string, words: string): string { marker + words + "\n" }

  function RenderBase(base: Option<string>, l: Labels): seq<string> {
    match base
    case None => []
    case Some(text) => [MarkerLine(BASE_SEP, l.base)] + SplitLines(text)
  }

  function RenderBlock(b: Block, l: Labels): seq<string> {
    match b
    case Context(text) => SplitLines(text)
    case Conflict(ours, theirs, base) =>
      [MarkerLine(OURS_OPEN, l.open)]
        + (SplitLines(ours)
           + (RenderBase(base, l)
              + ([MarkerLine(MID_SEP, l.mid)] + (SplitLines(theirs) + [MarkerLine(THEIRS_CLOSE, l.close)]))))
  }

  /** The lines of a marker file that says `blocks`, with any labels, one set to a block. */
  function RenderLines(blocks: seq<Block>, labels: seq<Labels>): seq<string>
    requires |labels| == |blocks|
  {
    if blocks == [] then [] else RenderBlock(blocks[0], labels[0]) + RenderLines(blocks[1..], labels[1..])
  }

  function Render(blocks: seq<Block>, labels: seq<Labels>): string
    requires |labels| == |blocks|
  {
    Flatten(RenderLines(blocks, labels))
  }

  lemma MarkerLineIs(marker: string, words: string)
    requires marker in {OURS_OPEN, BASE_SEP, MID_SEP, THEIRS_CLOSE} && ValidLabel(words)
    ensures var line := MarkerLine(marker, words);
            && Complete(line)
            && forall m | m in {OURS_OPEN, BASE_SEP, MID_SEP, THEIRS_CLOSE} :: StartsMarker(line, m) <==> m == marker
  {
    var line := MarkerLine(marker, words);
    assert line[..7] == marker && line[7..] == words + "\n";
    forall k | 0 <= k < |line| - 1 ensures line[k] != '\n' {
      if k >= 7 { assert line[k] == words[k - 7]; }
    }
    FindAt(line, '\n', |line| - 1);
    assert line[0] == marker[0];
    forall m | m in {OURS_OPEN, BASE_SEP, MID_SEP, THEIRS_CLOSE}
      ensures StartsMarker(line, m) <==> m == marker
    {
      if m <= line { assert m[0] == line[0]; }
    }
  }

  // ----- parsing what was rendered -----

  function AddTo(section: Section, text: string, ours: string, base: Option<string>, theirs: string)
    : (string, Option<string>, string)
  {
    match section
    case InOurs => (ours + text, base, theirs)
    case InBase => (ours, Some(UnwrapOr(base, "") + text), theirs)
    case InTheirs => (ours, base, theirs + text)
  }

  lemma {:induction false} ScanPlain(body: seq<string>, rest: seq<string>, section: Section, ours: string, base: Option<string>, theirs: string)
    requires forall l | l in body :: !IsSeparator(l)
    requires section == InBase ==> base.Some?
    ensures var (o, b, t) := AddTo(section, Flatten(body), ours, base, theirs);
            ScanConflict(body + rest, section, ours, base, theirs) == ScanConflict(rest, section, o, b, t)
  {
    if body == [] {
      assert body + rest == rest;
      assert ours + "" == ours && theirs + "" == theirs && (base.Some? ==> base.value + "" == base.value);
    } else {
      var l, body' := body[0], body[1..];
      assert (body + rest)[0] == l && (body + rest)[1..] == body' + rest;
      assert l in body && forall x | x in body' :: x in body;
      var (o, b, t) := AddTo(section, l, ours, base, theirs);
      MarkersAreRead();
      hide StartsMarker, IsMarkerLine;
      ScanPlain(body', rest, section, o, b, t);
      Regroup(ours, l, Flatten(body'));
      Regroup(theirs, l, Flatten(body'));
      Regroup(UnwrapOr(base, ""), l, Flatten(body'));
    }
  }

  lemma RegroupTail<T>(x: T, a: seq<T>, b: seq<T>, y: T, c: seq<T>, z: T, rest: seq<T>)
    ensures ([x] + (a + (b + ([y] + (c + [z])))) + rest)[1..] == a + (b + ([y] + (c + ([z] + rest))))
  {
    Regroup(c, [z], rest);
    Regroup([y], c + [z], rest);
    Regroup(b, [y] + (c + [z]), rest);
    Regroup(a, b + ([y] + (c + [z])), rest);
    Regroup([x], a + (b + ([y] + (c + [z]))), rest);
  }

  lemma RenderedTail(b: Block, l: Labels, rest: seq<string>)
    requires b.Conflict?
    ensures (RenderBlock(b, l) + rest)[1..]
         == SplitLines(b.ours) + (RenderBase(b.base, l) + ([MarkerLine(MID_SEP, l.mid)]
              + (SplitLines(b.theirs) + ([MarkerLine(THEIRS_CLOSE, l.close)] + rest))))
  {
    hide MarkerLine, SplitLines, RenderBase;
    RegroupTail(MarkerLine(OURS_OPEN, l.open), SplitLines(b.ours), RenderBase(b.base, l), MarkerLine(MID_SEP, l.mid),
                SplitLines(b.theirs), MarkerLine(THEIRS_CLOSE, l.close), rest);
  }

  lemma ScanRendered(b: Block, l: Labels, rest: seq<string>)
    requires PlainConflict(b) && ValidLabels(l)
    ensures ScanConflict((RenderBlock(b, l) + rest)[1..], InOurs, "", None, "") == Closed(b.ours, b.base, b.theirs, rest)
  {
    hide ScanConflict, MarkerLine, SplitLines, Flatten, IsSeparator, RenderBlock, RenderBase;
    var theirs := SplitLines(b.theirs) + ([MarkerLine(THEIRS_CLOSE, l.close)] + rest);
    var mid := [MarkerLine(MID_SEP, l.mid)] + theirs;
    RenderedTail(b, l, rest);
    SplitIsWellSplit(b.ours);
    ScanPlain(SplitLines(b.ours), RenderBase(b.base, l) + mid, InOurs, "", None, "");
    assert "" + b.ours == b.ours;
    ScanBase(b, l, mid);
    assert mid[1..] == theirs;
    ScanTheirs(b, l, rest);
  }

  lemma {:induction false} ScanTheirs(b: Block, l: Labels, rest: seq<string>)
    requires PlainConflict(b) && ValidLabels(l)
    ensures ScanConflict(SplitLines(b.theirs) + ([MarkerLine(THEIRS_CLOSE, l.close)] + rest), InTheirs, b.ours, b.base, "")
         == Closed(b.ours, b.base, b.theirs, rest)
  {
    MarkerLineIs(THEIRS_CLOSE, l.close);
    SplitIsWellSplit(b.theirs);
    var close := [MarkerLine(THEIRS_CLOSE, l.close)] + rest;
    hide SplitLines, MarkerLine;
    ScanPlain(SplitLines(b.theirs), close, InTheirs, b.ours, b.base, "");
    assert "" + b.theirs == b.theirs && close[1..] == rest;
  }

  /** A base marker starts the base anew, and the middle marker starts the other side. */
  lemma {:induction false} ScanMarker(lines: seq<string>, words: string, section: Section, ours: string, base: Option<string>, theirs: string)
    requires lines != [] && ValidLabel(words)
    ensures lines[0] == MarkerLine(BASE_SEP, words) ==>
              ScanConflict(lines, section, ours, base, theirs) == ScanConflict(lines[1..], InBase, ours, Some(""), theirs)
    ensures lines[0] == MarkerLine(MID_SEP, words) ==>
              ScanConflict(lines, section, ours, base, theirs) == ScanConflict(lines[1..], InTheirs, ours, base, theirs)
  {
    MarkerLineIs(BASE_SEP, words);
    MarkerLineIs(MID_SEP, words);
    hide MarkerLine, StartsMarker;
  }

  lemma {:induction false} ScanBase(b: Block, l: Labels, mid: seq<string>)
    requires PlainConflict(b) && ValidLabels(l)
    requires mid != [] && mid[0] == MarkerLine(MID_SEP, l.mid)
    ensures ScanConflict(RenderBase(b.base, l) + mid, InOurs, b.ours, None, "")
         == ScanConflict(mid[1..], InTheirs, b.ours, b.base, "")
  {
    hide ScanConflict, SplitLines, MarkerLine;
    var lines := RenderBase(b.base, l) + mid;
    if b.base.None? {
      assert lines == mid;
      ScanMarker(mid, l.mid, InOurs, b.ours, None, "");
    } else {
      var text := b.base.value;
      SplitIsWellSplit(text);
      assert lines[0] == MarkerLine(BASE_SEP, l.base) && lines[1..] == SplitLines(text) + mid;
      ScanMarker(lines, l.base, InOurs, b.ours, None, "");
      ScanPlain(SplitLines(text), mid, InBase, b.ours, Some(""), "");
      assert "" + text == text;
      ScanMarker(mid, l.mid, InBase, b.ours, b.base, "");
    }
  }

  lemma {:induction false} ParseContext(run: seq<string>, rest: seq<string>, context: string)
    requires OpensNothing(run)
    ensures ParseLines(run + rest, context) == ParseLines(rest, context + Flatten(run))
  {
    if run == [] {
      assert run + rest == rest && context + "" == context;
    } else {
      MarkersAreRead();
      hide StartsMarker, IsMarkerLine;
      assert (run + rest)[0] == run[0] && (run + rest)[1..] == run[1..] + rest;
      assert run[0] in run && forall x | x in run[1..] :: x in run;
      ParseContext(run[1..], rest, context + run[0]);
      Regroup(context, run[0], Flatten(run[1..]));
    }
  }

  /** An opening marker is never closed exactly when no later line closes it. */
  lemma {:induction false} UnclosedIff(lines: seq<string>, section: Section, ours: string, base: Option<string>, theirs: string)
    ensures ScanConflict(lines, section, ours, base, theirs).Unclosed? <==> forall l | l in lines :: !StartsMarker(l, THEIRS_CLOSE)
  {
    if lines != [] {
      assert lines == [lines[0]] + lines[1..];
      MarkersDiffer(lines[0]);
      UnclosedIff(lines[1..], InBase, ours, Some(""), theirs);
      UnclosedIff(lines[1..], InTheirs, ours, base, theirs);
      UnclosedIff(lines[1..], InOurs, ours + lines[0], base, theirs);
      UnclosedIff(lines[1..], InBase, ours, Some(UnwrapOr(base, "") + lines[0]), theirs);
      UnclosedIff(lines[1..], InTheirs, ours, base, theirs + lines[0]);
    }
  }

  lemma MarkersDiffer(line: string)
    ensures StartsMarker(line, THEIRS_CLOSE) ==> !StartsMarker(line, BASE_SEP) && !StartsMarker(line, MID_SEP)
  {
    if line != "" && StartsMarker(line, THEIRS_CLOSE) { assert line[0] == THEIRS_CLOSE[0]; }
  }

  /** Where nothing closes, everything is one context. */
  lemma {:induction false} ParseUnclosed(lines: seq<string>, context: string)
    requires ClosesNothing(lines)
    ensures ParseLines(lines, context) == Flush(context + Flatten(lines))
  {
    MarkersAreRead();
    hide StartsMarker, IsMarkerLine;
    if lines == [] {
      assert context + "" == context;
    } else if !StartsMarker(lines[0], OURS_OPEN) {
      forall i, j | 0 <= i < j < |lines[1..]|
        ensures !(IsMarkerLine(lines[1..][i], OURS_OPEN) && IsMarkerLine(lines[1..][j], THEIRS_CLOSE))
      {
        assert lines[1..][i] == lines[i + 1] && lines[1..][j] == lines[j + 1];
      }
      ParseUnclosed(lines[1..], context + lines[0]);
      Regroup(context, lines[0], Flatten(lines[1..]));
    } else {
      forall l | l in lines[1..] ensures !StartsMarker(l, THEIRS_CLOSE) {
        var j :| 0 <= j < |lines| - 1 && lines[1..][j] == l;
        assert lines[j + 1] == l;
      }
      UnclosedIff(lines[1..], InOurs, "", None, "");
    }
  }

  lemma {:induction false} ParseConflict(b: Block, l: Labels, rest: seq<string>, context: string)
    requires PlainConflict(b) && ValidLabels(l)
    ensures ParseLines(RenderBlock(b, l) + rest, context) == Flush(context) + [b] + ParseLines(rest, "")
  {
    ScanRendered(b, l, rest);
    MarkerLineIs(OURS_OPEN, l.open);
    hide ScanConflict, PlainConflict;
    assert (RenderBlock(b, l) + rest)[0] == MarkerLine(OURS_OPEN, l.open);
  }

  lemma {:induction false} ParseRendered(blocks: seq<Block>, labels: seq<Labels>, context: string)
    requires Canonical(blocks) && |labels| == |blocks| && forall l | l in labels :: ValidLabels(l)
    requires blocks != [] && blocks[0].Context? ==> context == ""
    ensures ParseLines(RenderLines(blocks, labels), context) == Flush(context) + blocks
    decreases |blocks|, 1
  {
    if blocks != [] {
      if blocks[0].Conflict? {
        ParseRenderedConflict(blocks, labels, context);
      } else {
        ParseRenderedContext(blocks, labels, RenderLines(blocks[1..], labels[1..]));
      }
    } else {
      assert Flush(context) + [] == Flush(context);
    }
  }

  lemma {:induction false} ParseRenderedConflict(blocks: seq<Block>, labels: seq<Labels>, context: string)
    requires Canonical(blocks) && |labels| == |blocks| > 0 && blocks[0].Conflict? && forall l | l in labels :: ValidLabels(l)
    ensures ParseLines(RenderLines(blocks, labels), context) == Flush(context) + blocks
    decreases |blocks|, 0
  {
    hide ParseLines, RenderBlock, ValidLabels, PlainConflict, ClosesNothing, OpensNothing, Closes;
    var b, l, rest := blocks[0], labels[0], RenderLines(blocks[1..], labels[1..]);
    assert l in labels && forall x | x in labels[1..] :: x in labels;
    ParseConflict(b, l, rest, context);
    ParseRendered(blocks[1..], labels[1..], "");
    assert Flush("") + blocks[1..] == blocks[1..];
    Regroup(Flush(context), [b], blocks[1..]);
    assert [b] + blocks[1..] == blocks;
  }

  lemma {:induction false} ParseRenderedContext(blocks: seq<Block>, labels: seq<Labels>, rest: seq<string>)
    requires Canonical(blocks) && |labels| == |blocks| > 0 && blocks[0].Context? && forall l | l in labels :: ValidLabels(l)
    requires rest == RenderLines(blocks[1..], labels[1..]) && (|blocks| == 1 ==> rest == [])
    ensures ParseLines(RenderBlock(blocks[0], labels[0]) + rest, "") == blocks
    decreases |blocks|, 0
  {
    hide ParseLines, SplitLines, RenderLines, ClosesNothing, OpensNothing, Closes, ValidLabels;
    var text := blocks[0].text;
    SplitIsWellSplit(text);
    assert "" + text == text;
    if |blocks| == 1 {
      assert SplitLines(text) + rest == SplitLines(text);
      ParseUnclosed(SplitLines(text), "");
      assert blocks == [blocks[0]];
    } else {
      ParseContext(SplitLines(text), rest, "");
      assert forall x | x in labels[1..] :: x in labels;
      ParseRendered(blocks[1..], labels[1..], text);
      assert blocks == [blocks[0]] + blocks[1..];
    }
  }

  lemma AllComplete(a: seq<string>, b: seq<string>)
    requires (forall i | 0 <= i < |a| :: Complete(a[i])) && (forall i | 0 <= i < |b| :: Complete(b[i]))
    ensures forall i | 0 <= i < |a + b| :: Complete((a + b)[i])
  {
  }

  lemma ConflictIsComplete(b: Block, l: Labels)
    requires PlainConflict(b) && ValidLabels(l)
    ensures forall i | 0 <= i < |RenderBlock(b, l)| :: Complete(RenderBlock(b, l)[i])
  {
    MarkerLineIs(OURS_OPEN, l.open);
    MarkerLineIs(BASE_SEP, l.base);
    MarkerLineIs(MID_SEP, l.mid);
    MarkerLineIs(THEIRS_CLOSE, l.close);
    ClosesMeansComplete(b.ours);
    ClosesMeansComplete(b.theirs);
    if b.base.Some? { ClosesMeansComplete(b.base.value); }
    hide MarkerLine, SplitLines, Complete, PlainBody;
    var tail := [MarkerLine(MID_SEP, l.mid)] + (SplitLines(b.theirs) + [MarkerLine(THEIRS_CLOSE, l.close)]);
    AllComplete(RenderBase(b.base, l), tail);
    AllComplete(SplitLines(b.ours), RenderBase(b.base, l) + tail);
  }

  lemma {:induction false} RenderIsWellSplit(blocks: seq<Block>, labels: seq<Labels>)
    requires Canonical(blocks) && |labels| == |blocks| && forall l | l in labels :: ValidLabels(l)
    ensures WellSplit(RenderLines(blocks, labels))
  {
    if blocks != [] {
      var b := blocks[0];
      assert forall x | x in labels[1..] :: x in labels;
      RenderIsWellSplit(blocks[1..], labels[1..]);
      var rest := RenderLines(blocks[1..], labels[1..]);
      if b.Conflict? {
        ConflictIsComplete(b, labels[0]);
        WellSplitConcat(RenderBlock(b, labels[0]), rest);
      } else {
        SplitIsWellSplit(b.text);
        if |blocks| == 1 {
          assert SplitLines(b.text) + rest == SplitLines(b.text);
        } else {
          ClosesMeansComplete(b.text);
          WellSplitConcat(SplitLines(b.text), rest);
        }
      }
    }
  }

  /** Rendering canonical blocks with any labels and parsing the file gives back exactly those blocks. */
  lemma {:induction false} ParseInvertsRender(blocks: seq<Block>, labels: seq<Labels>)
    requires Canonical(blocks) && |labels| == |blocks| && forall l | l in labels :: ValidLabels(l)
    ensures Parsed(Render(blocks, labels)) == blocks
  {
    RenderIsWellSplit(blocks, labels);
    SplitOfLines(RenderLines(blocks, labels));
    ParseRendered(blocks, labels, "");
  }
}
