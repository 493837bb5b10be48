/** Both listings, rendered from one list of files, give that list back. */
module DiffTheorems {
  import opened Basics
  import opened Sorting
  import opened Diff

  /** One file as git lists it: the status token of the first listing, and the file itself. */
  datatype Record = Record(status: string, file: DiffFile)

  ghost predicate Token(s: string) { s != "" && Find(s, '\0', 0) == |s| }

  ghost predicate Countable(n: Option<nat>) { n.Some? ==> n.value < 0x1_0000_0000 }

  /** The letters git writes for a kind; type changes and letters nobody knows count as modified. */
  ghost predicate Letter(c: char, kind: ChangeKind) {
    match kind
    case Added => c == 'A'
    case Deleted => c == 'D'
    case Renamed => c in {'R', 'C'}
    case Modified => c !in {'A', 'D', 'R', 'C'}
  }

  ghost predicate ValidRecord(r: Record) {
    && Token(r.status) && Token(r.file.path)
    && Letter(r.status[0], r.file.kind)
    && (r.file.oldPath.Some? <==> r.file.kind == Renamed)
    && (r.file.oldPath.Some? ==> Token(r.file.oldPath.value))
    && Countable(r.file.additions) && Countable(r.file.deletions)
  }

  ghost predicate DistinctPaths(records: seq<Record>) {
    forall i, j | 0 <= i < j < |records| :: records[i].file.path != records[j].file.path
  }

  function FilesOf(records: seq<Record>): seq<DiffFile> {
    if records == [] then [] else [records[0].file] + FilesOf(records[1..])
  }

  function WithoutCounts(files: seq<DiffFile>): seq<DiffFile> {
    if files == [] then [] else [files[0].(additions := None, deletions := None)] + WithoutCounts(files[1..])
  }

  // ----- rendering -----

  function Joined(tokens: seq<string>): string {
    if tokens == [] then "" else tokens[0] + "\0" + Joined(tokens[1..])
  }

  function StatusTokens(records: seq<Record>): seq<string> {
    if records == [] then []
    else
      var r := records[0];
      (if r.file.oldPath.Some? then [r.status, r.file.oldPath.value, r.file.path] else [r.status, r.file.path])
        + StatusTokens(records[1..])
  }

  function Count(n: Option<nat>): string { if n.Some? then Decimal(n.value) else "-" }

  function NumstatHead(f: DiffFile): string { Count(f.additions) + ("\t" + (Count(f.deletions) + "\t")) }

  function NumstatTokens(records: seq<Record>): seq<string> {
    if records == [] then []
    else
      var f := records[0].file;
      (if f.oldPath.Some? then [NumstatHead(f), f.oldPath.value, f.path] else [NumstatHead(f) + f.path])
        + NumstatTokens(records[1..])
  }

  // ----- tokens -----

  lemma {:induction false} SplitOne(t: string, rest: string)
    requires Find(t, '\0', 0) == |t|
    ensures Split(t + "\0" + rest, '\0') == [t] + Split(rest, '\0')
  {
    var s := t + "\0" + rest;
    FindAt(s, '\0', |t|);
    assert s[..|t|] == t && s[|t| + 1..] == rest;
  }

  lemma {:induction false} SplitJoined(tokens: seq<string>)
    requires forall t | t in tokens :: Find(t, '\0', 0) == |t|
    ensures Split(Joined(tokens), '\0') == tokens + [""]
  {
    if tokens != [] {
      hide Split, Find;
      var t, rest := tokens[0], tokens[1..];
      assert t in tokens;
      forall x | x in rest ensures Find(x, '\0', 0) == |x| { assert x in tokens; }
      SplitOne(t, Joined(rest));
      SplitJoined(rest);
      assert tokens == [t] + rest;
      Regroup([t], rest, [""]);
    }
  }

  lemma {:induction false} StatusTokensAreTokens(records: seq<Record>)
    requires forall r | r in records :: ValidRecord(r)
    ensures forall t | t in StatusTokens(records) :: Token(t)
  {
    if records != [] {
      assert records[0] in records && forall x | x in records[1..] :: x in records;
      StatusTokensAreTokens(records[1..]);
    }
  }

  lemma {:induction false} StatusesParse(records: seq<Record>, tail: seq<string>)
    requires forall r | r in records :: ValidRecord(r)
    ensures NameStatusFrom(StatusTokens(records) + tail) == WithoutCounts(FilesOf(records)) + NameStatusFrom(tail)
  {
    if records == [] {
      assert StatusTokens(records) + tail == tail;
      assert WithoutCounts(FilesOf(records)) + NameStatusFrom(tail) == NameStatusFrom(tail);
    } else {
      var r, rest := records[0], records[1..];
      assert r in records && forall x | x in rest :: x in records;
      RecordsUnfold(records, tail);
      hide NameStatusFrom, ValidRecord, StatusTokens, WithoutCounts, FilesOf;
      StatusesParse(rest, tail);
      StatusParses(r, StatusTokens(rest) + tail);
      Regroup([r.file.(additions := None, deletions := None)], WithoutCounts(FilesOf(rest)), NameStatusFrom(tail));
    }
  }

  lemma {:induction false} RecordsUnfold(records: seq<Record>, tail: seq<string>)
    requires records != []
    ensures var r, rest := records[0], records[1..];
            && StatusTokens(records) + tail
                 == (if r.file.oldPath.Some? then [r.status, r.file.oldPath.value, r.file.path] else [r.status, r.file.path])
                  + (StatusTokens(rest) + tail)
            && WithoutCounts(FilesOf(records)) == [r.file.(additions := None, deletions := None)] + WithoutCounts(FilesOf(rest))
  {
  }

  lemma {:induction false} StatusParses(r: Record, later: seq<string>)
    requires ValidRecord(r)
    ensures var f := r.file;
            var first := if f.oldPath.Some? then [r.status, f.oldPath.value, f.path] else [r.status, f.path];
            NameStatusFrom(first + later) == [f.(additions := None, deletions := None)] + NameStatusFrom(later)
  {
    var f := r.file;
    if f.oldPath.Some? {
      var tokens := [r.status, f.oldPath.value, f.path] + later;
      assert tokens[0] == r.status && tokens[1] == f.oldPath.value && tokens[2] == f.path && tokens[3..] == later;
    } else {
      var tokens := [r.status, f.path] + later;
      assert tokens[0] == r.status && tokens[1] == f.path && tokens[2..] == later;
    }
  }

  /** A listing cut inside its last record, before the last path, gives the files of the whole records and no more. */
  lemma {:induction false} CutStatusIsDropped(records: seq<Record>, cut: seq<string>)
    requires forall r | r in records :: ValidRecord(r)
    requires |cut| > 0 && cut[0] != "" && |cut| < (if cut[0][0] in {'R', 'C'} then 3 else 2)
    ensures NameStatusFrom(StatusTokens(records) + cut) == WithoutCounts(FilesOf(records))
  {
    StatusesParse(records, cut);
    hide ValidRecord;
    assert NameStatusFrom(cut) == [];
    assert WithoutCounts(FilesOf(records)) + [] == WithoutCounts(FilesOf(records));
  }

  lemma {:induction false} NameStatusParses(records: seq<Record>)
    requires forall r | r in records :: ValidRecord(r)
    ensures NameStatus(Joined(StatusTokens(records))) == WithoutCounts(FilesOf(records))
  {
    StatusTokensAreTokens(records);
    FieldsOf(StatusTokens(records));
    FilterAll(NotEmpty, StatusTokens(records));
    assert StatusTokens(records) + [] == StatusTokens(records);
    StatusesParse(records, []);
    assert WithoutCounts(FilesOf(records)) + NameStatusFrom([]) == WithoutCounts(FilesOf(records));
  }

  /** Empty fields are passed over wherever they stand. */
  lemma {:induction false} EmptyFieldsArePassedOver(tokens: seq<string>)
    requires forall t | t in tokens :: Find(t, '\0', 0) == |t|
    ensures NameStatus(Joined(tokens)) == NameStatus(Joined(Filter((t: string) => t != "", tokens)))
  {
    var full := Filter((t: string) => t != "", tokens);
    FilterMembers((t: string) => t != "", tokens);
    FieldsOf(tokens);
    FieldsOf(full);
    FilterAgree(NotEmpty, (t: string) => t != "", tokens);
    FilterAll(NotEmpty, full);
  }

  lemma {:induction false} FieldsOf(tokens: seq<string>)
    requires forall t | t in tokens :: Find(t, '\0', 0) == |t|
    ensures NameStatus(Joined(tokens)) == NameStatusFrom(Filter(NotEmpty, tokens))
  {
    SplitJoined(tokens);
    FilterConcat(NotEmpty, tokens, [""]);
    FilterNone(NotEmpty, [""]);
    hide Split, Joined, Filter, NameStatusFrom;
    assert Filter(NotEmpty, tokens) + [] == Filter(NotEmpty, tokens);
  }

  // ----- counts -----

  ghost predicate Zeros(s: string) { forall c | c in s :: c == '0' }

  /** Digits worth `n` are `n` as printed, perhaps after zeros. */
  lemma {:induction false} DigitsOf(s: string) returns (zeros: string)
    requires s != "" && AllDigits(s)
    ensures Zeros(zeros) && s == zeros + Decimal(DecimalValue(s))
  {
    var front, last := s[..|s| - 1], s[|s| - 1];
    assert s == front + [last];
    if front == "" {
      zeros := "";
      assert DecimalValue("") == 0;
    } else {
      zeros := DigitsOf(front);
      NextDigit(DecimalValue(front), last);
      if DecimalValue(front) == 0 { zeros := front; }
    }
  }

  lemma {:induction false} NextDigit(n: nat, last: char)
    requires '0' <= last <= '9'
    ensures var next := 10 * n + (last as int - '0' as int);
            Decimal(next) == if n == 0 then [last] else Decimal(n) + [last]
    ensures Decimal(0) == "0"
  {
  }

  lemma {:induction false} ZerosAreWorthless(zeros: string, s: string)
    requires Zeros(zeros) && AllDigits(s)
    ensures AllDigits(zeros + s) && DecimalValue(zeros + s) == DecimalValue(s)
  {
    assert forall k | 0 <= k < |zeros| :: zeros[k] in zeros;
    if s == "" {
      assert zeros + s == zeros;
      ZerosAreZero(zeros);
    } else {
      var front := s[..|s| - 1];
      ZerosAreWorthless(zeros, front);
      assert (zeros + s)[..|zeros + s| - 1] == zeros + front;
    }
  }

  lemma {:induction false} ZerosAreZero(zeros: string)
    requires Zeros(zeros)
    ensures AllDigits(zeros) && DecimalValue(zeros) == 0
  {
    assert forall k | 0 <= k < |zeros| :: zeros[k] in zeros;
    if zeros != "" { ZerosAreZero(zeros[..|zeros| - 1]); }
  }

  /** A count is read from its digits, after zeros and one plus sign if need be, when it fits 32 bits; nothing else is one. */
  lemma {:induction false} CountIsReadIff(s: string, n: nat)
    ensures ParseU32(s) == Some(n) <==> n < 0x1_0000_0000 && exists zeros :: Zeros(zeros) && s in {zeros + Decimal(n), "+" + (zeros + Decimal(n))}
  {
    if ParseU32(s) == Some(n) {
      var digits := if s[0] == '+' then s[1..] else s;
      var zeros := DigitsOf(digits);
      assert s == zeros + Decimal(n) || s == "+" + (zeros + Decimal(n)) by { if s[0] == '+' { assert s == "+" + s[1..]; } }
    }
    if n < 0x1_0000_0000 {
      if zeros :| Zeros(zeros) && s in {zeros + Decimal(n), "+" + (zeros + Decimal(n))} { PrintedIsRead(s, zeros, n); }
    }
  }

  lemma {:induction false} PrintedIsRead(s: string, zeros: string, n: nat)
    requires Zeros(zeros) && s in {zeros + Decimal(n), "+" + (zeros + Decimal(n))} && n < 0x1_0000_0000
    ensures ParseU32(s) == Some(n)
  {
    var digits := zeros + Decimal(n);
    DecimalReadsBack(n);
    ZerosAreWorthless(zeros, Decimal(n));
    hide Decimal, DecimalValue;
    assert '0' <= digits[0] <= '9';
    assert s == digits || (s[0] == '+' && s[1..] == digits);
  }

  lemma CountParses(n: Option<nat>)
    requires Countable(n)
    ensures ParseU32(Count(n)) == n && Count(n) != ""
    ensures forall k | 0 <= k < |Count(n)| :: Count(n)[k] != '\t' && Count(n)[k] != '\0'
  {
    if n.Some? {
      DecimalReadsBack(n.value);
      assert '0' <= Decimal(n.value)[0] <= '9';
    } else {
      assert !AllDigits("-") by { assert "-"[0] == '-'; }
    }
  }

  lemma ColumnsOf(a: string, d: string, path: string)
    requires forall k | 0 <= k < |a| :: a[k] != '\t'
    requires forall k | 0 <= k < |d| :: d[k] != '\t'
    ensures Columns(a + ("\t" + (d + ("\t" + path)))) == Some((a, d, path))
  {
    var rest := d + ("\t" + path);
    var head := a + ("\t" + rest);
    FindAt(head, '\t', |a|);
    assert head[..|a|] == a && head[|a| + 1..] == rest;
    FindAt(rest, '\t', |d|);
    assert rest[..|d|] == d && rest[|d| + 1..] == path;
  }

  lemma HeadColumns(f: DiffFile, path: string)
    requires Countable(f.additions) && Countable(f.deletions)
    ensures Columns(NumstatHead(f) + path) == Some((Count(f.additions), Count(f.deletions), path))
  {
    CountParses(f.additions);
    CountParses(f.deletions);
    var a, d := Count(f.additions), Count(f.deletions);
    hide Count, Columns;
    ColumnsOf(a, d, path);
    Regroup(a, "\t" + (d + "\t"), path);
    Regroup("\t", d + "\t", path);
    Regroup(d, "\t", path);
  }

  lemma {:induction false} FindEnd(s: string, c: char)
    requires Find(s, c, 0) == |s|
    ensures forall k | 0 <= k < |s| :: s[k] != c
  {
  }

  lemma {:induction false} HeadIsOneToken(f: DiffFile, path: string)
    requires Countable(f.additions) && Countable(f.deletions) && Find(path, '\0', 0) == |path|
    ensures Token(NumstatHead(f) + path)
  {
    FindEnd(path, '\0');
    CountParses(f.additions);
    CountParses(f.deletions);
    hide Find, Count;
    var head := NumstatHead(f) + path;
    var n := |NumstatHead(f)|;
    forall k | 0 <= k < |head| ensures head[k] != '\0' {
      if k >= n { assert head[k] == path[k - n]; }
    }
    FindAt(head, '\0', |head|);
  }

  lemma {:induction false} NumstatTokensAreTokens(records: seq<Record>)
    requires forall r | r in records :: ValidRecord(r)
    ensures forall t | t in NumstatTokens(records) :: Token(t)
  {
    if records != [] {
      var f := records[0].file;
      assert records[0] in records && forall x | x in records[1..] :: x in records;
      NumstatTokensAreTokens(records[1..]);
      HeadIsOneToken(f, if f.oldPath.Some? then "" else f.path);
      assert NumstatHead(f) + "" == NumstatHead(f);
    }
  }

  /** The records' counts applied one after the other. */
  function ApplyAll(files: seq<DiffFile>, records: seq<Record>): seq<DiffFile>
    decreases |records|
  {
    if records == [] then files
    else
      var f := records[0].file;
      ApplyAll(SetCounts(files, f.path, f.additions, f.deletions), records[1..])
  }

  lemma {:induction false} CountsUnfold(records: seq<Record>, tail: seq<string>, files: seq<DiffFile>)
    requires records != []
    ensures var f, rest := records[0].file, records[1..];
            && NumstatTokens(records) + tail
                 == (if f.oldPath.Some? then [NumstatHead(f), f.oldPath.value, f.path] else [NumstatHead(f) + f.path])
                  + (NumstatTokens(rest) + tail)
            && ApplyAll(files, records) == ApplyAll(SetCounts(files, f.path, f.additions, f.deletions), rest)
  {
    hide NumstatHead, SetCounts;
  }

  lemma {:induction false} NumstatApplies(records: seq<Record>, tail: seq<string>, files: seq<DiffFile>)
    requires forall r | r in records :: ValidRecord(r)
    ensures NumstatFrom(NumstatTokens(records) + tail, files) == NumstatFrom(tail, ApplyAll(files, records))
  {
    if records == [] {
      assert NumstatTokens(records) + tail == tail;
    } else {
      var f := records[0].file;
      assert records[0] in records && forall x | x in records[1..] :: x in records;
      hide NumstatFrom, SetCounts, NumstatTokens, ApplyAll, NumstatHead, ValidRecord;
      NumstatApplies(records[1..], tail, SetCounts(files, f.path, f.additions, f.deletions));
      NumstatRecord(records[0], NumstatTokens(records[1..]) + tail, files);
      CountsUnfold(records, tail, files);
    }
  }

  lemma {:induction false} NothingAfterTheLast(files: seq<DiffFile>)
    ensures NumstatFrom([""], files) == files
  {
    assert [""][1..] == [] && NumstatFrom([], files) == files;
  }

  /** Counts cut before the new path of a rename change nothing, and a token without a tab is passed over. */
  lemma {:induction false} CutCountsAreDropped(records: seq<Record>, f: DiffFile, cut: seq<string>, files: seq<DiffFile>)
    requires (forall r | r in records :: ValidRecord(r)) && Countable(f.additions) && Countable(f.deletions)
    requires cut == [NumstatHead(f)] || (|cut| == 2 && cut[0] == NumstatHead(f))
    ensures NumstatFrom(NumstatTokens(records) + cut, files) == ApplyAll(files, records)
  {
    NumstatApplies(records, cut, files);
    HeadColumns(f, "");
    assert NumstatHead(f) + "" == NumstatHead(f);
    hide NumstatHead, Columns, Count, ParseU32, SetCounts;
    CountParses(f.additions);
  }

  lemma {:induction false} TabLessIsPassedOver(token: string, later: seq<string>, files: seq<DiffFile>)
    requires '\t' !in token
    ensures NumstatFrom([token] + later, files) == NumstatFrom(later, files)
  {
    assert forall k | 0 <= k < |token| :: token[k] in token;
    FindAt(token, '\t', |token|);
    assert ([token] + later)[1..] == later;
  }

  lemma {:induction false} NumstatRecord(r: Record, later: seq<string>, files: seq<DiffFile>)
    requires ValidRecord(r)
    ensures var f := r.file;
            var first := if f.oldPath.Some? then [NumstatHead(f), f.oldPath.value, f.path] else [NumstatHead(f) + f.path];
            NumstatFrom(first + later, files) == NumstatFrom(later, SetCounts(files, f.path, f.additions, f.deletions))
  {
    var f := r.file;
    CountParses(f.additions);
    CountParses(f.deletions);
    if f.oldPath.Some? {
      HeadColumns(f, "");
      assert NumstatHead(f) + "" == NumstatHead(f);
      hide NumstatHead, Columns, Count, ParseU32, SetCounts;
      var tokens := [NumstatHead(f), f.oldPath.value, f.path] + later;
      assert tokens[0] == NumstatHead(f) && tokens[2] == f.path && tokens[3..] == later;
    } else {
      HeadColumns(f, f.path);
      hide NumstatHead, Columns, Count, ParseU32, SetCounts;
      var tokens := [NumstatHead(f) + f.path] + later;
      assert tokens[0] == NumstatHead(f) + f.path && tokens[1..] == later;
    }
  }

  // ----- folding never touches the list itself -----

  ghost predicate SameList(a: seq<DiffFile>, b: seq<DiffFile>) {
    && |a| == |b|
    && forall k | 0 <= k < |a| :: a[k].path == b[k].path && a[k].oldPath == b[k].oldPath && a[k].kind == b[k].kind
  }

  lemma {:induction false} SetCountsKeepsTheList(files: seq<DiffFile>, path: string, additions: Option<nat>, deletions: Option<nat>)
    ensures SameList(SetCounts(files, path, additions, deletions), files)
  {
    if files != [] && files[0].path != path { SetCountsKeepsTheList(files[1..], path, additions, deletions); }
  }

  /** Of several files at the path the first takes the counts, and no other file changes. */
  lemma {:induction false} OnlyTheFirstIsCounted(files: seq<DiffFile>, path: string, additions: Option<nat>, deletions: Option<nat>)
    ensures var r := SetCounts(files, path, additions, deletions);
            && |r| == |files|
            && forall k | 0 <= k < |files| ::
                 r[k] == if files[k].path == path && (forall i | 0 <= i < k :: files[i].path != path)
                         then DiffFile(path, files[k].oldPath, files[k].kind, additions, deletions) else files[k]
  {
    var i := FirstAt(files, path);
    SetCountsSkips(files, i, path, additions, deletions);
  }

  lemma {:induction false} FirstAt(files: seq<DiffFile>, path: string) returns (i: nat)
    ensures i <= |files| && (i < |files| ==> files[i].path == path) && forall k | 0 <= k < i :: files[k].path != path
  {
    if files == [] || files[0].path == path {
      i := 0;
    } else {
      i := FirstAt(files[1..], path);
      i := i + 1;
      assert forall k | 0 < k < i :: files[k] == files[1..][k - 1];
    }
  }

  lemma {:induction false} SetCountsSets(files: seq<DiffFile>, path: string, additions: Option<nat>, deletions: Option<nat>)
    requires DistinctFiles(files)
    ensures var r := SetCounts(files, path, additions, deletions);
            && |r| == |files|
            && forall k | 0 <= k < |files| ::
                 r[k] == if files[k].path == path then files[k].(additions := additions, deletions := deletions) else files[k]
  {
    if files != [] && files[0].path != path {
      SetCountsSets(files[1..], path, additions, deletions);
    }
  }

  /** Whatever bytes it reads, folding changes no path, no kind and no order. */
  lemma {:induction false} FoldingKeepsTheList(tokens: seq<string>, files: seq<DiffFile>)
    ensures SameList(NumstatFrom(tokens, files), files)
  {
    if tokens != [] {
      match Columns(tokens[0]) {
        case None => FoldingKeepsTheList(tokens[1..], files);
        case Some((added, deleted, path)) =>
          if path != "" {
            SetCountsKeepsTheList(files, path, ParseU32(added), ParseU32(deleted));
            FoldingKeepsTheList(tokens[1..], SetCounts(files, path, ParseU32(added), ParseU32(deleted)));
          } else if |tokens| >= 3 {
            SetCountsKeepsTheList(files, tokens[2], ParseU32(added), ParseU32(deleted));
            FoldingKeepsTheList(tokens[3..], SetCounts(files, tokens[2], ParseU32(added), ParseU32(deleted)));
          }
      }
    }
  }

  // ----- recombination -----

  ghost predicate DistinctFiles(files: seq<DiffFile>) {
    forall i, j | 0 <= i < j < |files| :: files[i].path != files[j].path
  }

  ghost predicate HasPath(records: seq<Record>, path: string) { exists r | r in records :: r.file.path == path }

  /** Files the applied records speak of carry their true counts; the others are as they were. */
  lemma {:induction false} AppliedCounts(files: seq<DiffFile>, truth: seq<DiffFile>, records: seq<Record>)
    requires SameList(files, truth) && DistinctFiles(truth)
    requires forall r, k | r in records && 0 <= k < |truth| && r.file.path == truth[k].path :: r.file == truth[k]
    ensures var done := ApplyAll(files, records);
            && |done| == |truth|
            && forall k | 0 <= k < |truth| :: done[k] == if HasPath(records, truth[k].path) then truth[k] else files[k]
    decreases |records|
  {
    if records != [] {
      var f, rest := records[0].file, records[1..];
      assert records[0] in records && forall r | r in rest :: r in records;
      var once := SetCounts(files, f.path, f.additions, f.deletions);
      SetCountsSets(files, f.path, f.additions, f.deletions);
      AppliedCounts(once, truth, rest);
      forall k | 0 <= k < |truth|
        ensures ApplyAll(files, records)[k] == if HasPath(records, truth[k].path) then truth[k] else files[k]
      {
        assert HasPath(records, truth[k].path) <==> f.path == truth[k].path || HasPath(rest, truth[k].path);
      }
    }
  }

  lemma {:induction false} FilesOfAre(records: seq<Record>)
    ensures |FilesOf(records)| == |records| && |WithoutCounts(FilesOf(records))| == |records|
    ensures forall k | 0 <= k < |records| ::
              FilesOf(records)[k] == records[k].file
              && WithoutCounts(FilesOf(records))[k] == records[k].file.(additions := None, deletions := None)
  {
    if records != [] { FilesOfAre(records[1..]); }
  }

  lemma {:induction false} RecordsMatchFiles(records: seq<Record>)
    requires DistinctPaths(records)
    ensures DistinctFiles(FilesOf(records)) && SameList(WithoutCounts(FilesOf(records)), FilesOf(records))
    ensures forall r, k | r in records && 0 <= k < |FilesOf(records)| && r.file.path == FilesOf(records)[k].path ::
              r.file == FilesOf(records)[k]
    ensures forall k | 0 <= k < |FilesOf(records)| :: HasPath(records, FilesOf(records)[k].path)
  {
    var truth := FilesOf(records);
    FilesOfAre(records);
    forall r, k | r in records && 0 <= k < |truth| && r.file.path == truth[k].path ensures r.file == truth[k] {
      var i :| 0 <= i < |records| && records[i] == r;
      assert i == k;
    }
    forall k | 0 <= k < |truth| ensures HasPath(records, truth[k].path) {
      assert records[k] in records;
    }
  }

  /** The records' counts, applied in any order to the bare list, make it the full one. */
  lemma {:induction false} ShuffledCountsApply(records: seq<Record>, shuffled: seq<Record>)
    requires DistinctPaths(records) && multiset(shuffled) == multiset(records)
    ensures ApplyAll(WithoutCounts(FilesOf(records)), shuffled) == FilesOf(records)
  {
    var truth, files := FilesOf(records), WithoutCounts(FilesOf(records));
    forall r ensures r in shuffled <==> r in records { assert r in multiset(shuffled) <==> r in multiset(records); }
    RecordsMatchFiles(records);
    hide FilesOf, WithoutCounts, ApplyAll;
    AppliedCounts(files, truth, shuffled);
    forall k | 0 <= k < |truth| ensures HasPath(shuffled, truth[k].path) {
      var r :| r in records && r.file.path == truth[k].path;
      assert r in shuffled;
    }
  }

  /** Parsing the first listing and folding the second, its records in any order, gives back exactly the files. */
  lemma {:induction false} ListingsRecombine(records: seq<Record>, shuffled: seq<Record>)
    requires (forall r | r in records :: ValidRecord(r)) && DistinctPaths(records)
    requires multiset(shuffled) == multiset(records)
    ensures Numstat(Joined(NumstatTokens(shuffled)), NameStatus(Joined(StatusTokens(records)))) == FilesOf(records)
  {
    hide NameStatus, Joined, Split, NumstatFrom, FilesOf, WithoutCounts, ValidRecord, ApplyAll, NumstatTokens, StatusTokens;
    forall r | r in shuffled ensures ValidRecord(r) { assert r in multiset(records) && r in records; }
    NameStatusParses(records);
    NumstatTokensAreTokens(shuffled);
    TokensHaveNoSeparator(NumstatTokens(shuffled));
    SplitJoined(NumstatTokens(shuffled));
    NumstatApplies(shuffled, [""], WithoutCounts(FilesOf(records)));
    NothingAfterTheLast(ApplyAll(WithoutCounts(FilesOf(records)), shuffled));
    ShuffledCountsApply(records, shuffled);
  }

  lemma TokensHaveNoSeparator(tokens: seq<string>)
    requires forall t | t in tokens :: Token(t)
    ensures forall t | t in tokens :: Find(t, '\0', 0) == |t|
  {
  }
}
