/** Option and Result values, and the few string operations the program takes from its standard library. */
module Basics {

  datatype Option<+T> = None | Some(value: T)

  datatype Result<+T, +E> = Ok(value: T) | Err(error: E)

  function UnwrapOr<T>(o: Option<T>, default: T): T {
    match o
    case Some(v) => v
    case None => default
  }

  // ----- lists of lists -----

  lemma Regroup<T>(a: seq<T>, b: seq<T>, c: seq<T>)
    ensures a + (b + c) == (a + b) + c
  {
  }

  function Flatten<T>(ss: seq<seq<T>>): seq<T> {
    if ss == [] then [] else ss[0] + Flatten(ss[1..])
  }

  function TotalSize<T>(ss: seq<seq<T>>): nat {
    if ss == [] then 0 else |ss[0]| + TotalSize(ss[1..])
  }

  // ----- prefixes and separators -----

  function StripPrefix(s: string, prefix: string): Option<string> {
    if prefix <= s then Some(s[|prefix|..]) else None
  }

  /** The position of the first `c` at or after `from`, or the end. */
  function Find(s: string, c: char, from: nat): (i: nat)
    requires from <= |s|
    ensures from <= i <= |s|
    ensures i < |s| ==> s[i] == c
    ensures forall k | from <= k < i :: s[k] != c
    decreases |s| - from
  {
    if from == |s| || s[from] == c then from else Find(s, c, from + 1)
  }

  lemma {:induction false} FindAt(s: string, c: char, i: nat)
    requires i <= |s| && (i < |s| ==> s[i] == c) && forall k | 0 <= k < i :: s[k] != c
    ensures Find(s, c, 0) == i
  {
  }

  /** The position of the last occurrence of `sep`, if any. */
  function RFind(s: string, sep: string): (r: Option<nat>)
    ensures r.Some? ==> r.value + |sep| <= |s|
    decreases |s|
  {
    if |s| < |sep| then None
    else if s[|s| - |sep|..] == sep then Some(|s| - |sep|)
    else if s == [] then None
    else RFind(s[..|s| - 1], sep)
  }

  predicate OccursAt(s: string, sep: string, i: nat) { i + |sep| <= |s| && s[i..i + |sep|] == sep }

  lemma {:induction false} RFindOccurs(s: string, sep: string)
    ensures RFind(s, sep).Some? ==> OccursAt(s, sep, RFind(s, sep).value)
    decreases |s|
  {
    if |s| >= |sep| && s[|s| - |sep|..] != sep && s != [] {
      var front := s[..|s| - 1];
      RFindOccurs(front, sep);
      if RFind(front, sep).Some? {
        var k := RFind(front, sep).value;
        assert front[k..k + |sep|] == s[k..k + |sep|];
      }
    }
  }

  /** What is found is an occurrence, and there is none further on. */
  lemma {:induction false} RFindIsLast(s: string, sep: string, i: nat)
    requires OccursAt(s, sep, i)
    ensures RFind(s, sep).Some? && OccursAt(s, sep, RFind(s, sep).value) && i <= RFind(s, sep).value
    decreases |s|
  {
    if s[|s| - |sep|..] != sep {
      var front := s[..|s| - 1];
      assert front[i..i + |sep|] == s[i..i + |sep|];
      RFindIsLast(front, sep, i);
      var k := RFind(front, sep).value;
      assert front[k..k + |sep|] == s[k..k + |sep|];
    }
  }

  // ----- white space -----

  /** The characters with the Unicode White_Space property. */
  predicate IsSpace(c: char) {
    || '\t' <= c <= '\r' || c == ' '
    || c == '\U{85}' || c == '\U{A0}' || c == '\U{1680}' || '\U{2000}' <= c <= '\U{200A}'
    || c == '\U{2028}' || c == '\U{2029}' || c == '\U{202F}' || c == '\U{205F}' || c == '\U{3000}'
  }

  /** Those are twenty-five characters. */
  lemma SpacesAre()
    ensures forall c :: IsSpace(c) <==>
              c in {'\t', '\n', '\U{0B}', '\U{0C}', '\r', ' ', '\U{85}', '\U{A0}', '\U{1680}', '\U{2000}', '\U{2001}', '\U{2002}',
                    '\U{2003}', '\U{2004}', '\U{2005}', '\U{2006}', '\U{2007}', '\U{2008}', '\U{2009}', '\U{200A}', '\U{2028}',
                    '\U{2029}', '\U{202F}', '\U{205F}', '\U{3000}'}
  {
  }

  function TrimStart(s: string): string {
    if s != [] && IsSpace(s[0]) then TrimStart(s[1..]) else s
  }

  function TrimEnd(s: string): string {
    if s != [] && IsSpace(s[|s| - 1]) then TrimEnd(s[..|s| - 1]) else s
  }

  function Trim(s: string): string { TrimEnd(TrimStart(s)) }

  /** Trimming takes white space off both ends, and all of it. */
  lemma TrimTakesOff(s: string) returns (front: string, back: string)
    ensures s == front + Trim(s) + back && (forall c | c in front + back :: IsSpace(c))
    ensures Trim(s) != "" ==> !IsSpace(Trim(s)[0]) && !IsSpace(Trim(s)[|Trim(s)| - 1])
  {
    var rest;
    front, rest := TrimStartTakesOff(s);
    back := TrimEndTakesOff(rest);
    Regroup(front, Trim(s), back);
    if Trim(s) != "" { assert Trim(s)[0] == rest[0]; }
  }

  lemma {:induction false} TrimStartTakesOff(s: string) returns (front: string, rest: string)
    ensures rest == TrimStart(s) && s == front + rest && (forall c | c in front :: IsSpace(c)) && (rest != "" ==> !IsSpace(rest[0]))
  {
    if s != [] && IsSpace(s[0]) {
      front, rest := TrimStartTakesOff(s[1..]);
      front := [s[0]] + front;
    } else {
      front, rest := "", s;
    }
  }

  lemma {:induction false} TrimEndTakesOff(s: string) returns (back: string)
    ensures s == TrimEnd(s) + back && (forall c | c in back :: IsSpace(c))
    ensures TrimEnd(s) != "" ==> !IsSpace(TrimEnd(s)[|TrimEnd(s)| - 1])
  {
    if s != [] && IsSpace(s[|s| - 1]) {
      back := TrimEndTakesOff(s[..|s| - 1]);
      back := back + [s[|s| - 1]];
    } else {
      back := "";
    }
  }

  /** Whatever white space stands around a text, trimming gives the text. */
  lemma {:induction false} TrimPadded(front: string, s: string, back: string)
    requires (forall c | c in front :: IsSpace(c)) && forall c | c in back :: IsSpace(c)
    requires s != "" ==> !IsSpace(s[0]) && !IsSpace(s[|s| - 1])
    ensures Trim(front + s + back) == s
  {
    hide IsSpace;
    TrimStartPadded(front, s + back);
    assert front + s + back == front + (s + back);
    if s == "" {
      assert s + back == back;
      TrimStartPadded(back, "");
      assert back + "" == back;
    } else {
      assert (s + back)[0] == s[0];
      TrimEndPadded(s, back);
    }
  }

  lemma {:induction false} TrimStartPadded(front: string, s: string)
    requires forall c | c in front :: IsSpace(c)
    ensures TrimStart(front + s) == TrimStart(s)
  {
    if front == "" {
      assert front + s == s;
    } else {
      assert front[0] in front && forall c | c in front[1..] :: c in front;
      assert (front + s)[0] == front[0] && (front + s)[1..] == front[1..] + s;
      TrimStartPadded(front[1..], s);
    }
  }

  lemma {:induction false} TrimEndPadded(s: string, back: string)
    requires forall c | c in back :: IsSpace(c)
    ensures TrimEnd(s + back) == TrimEnd(s)
  {
    if back == "" {
      assert s + back == s;
    } else {
      var n := |back| - 1;
      assert back[n] in back && forall c | c in back[..n] :: c in back;
      assert (s + back)[|s + back| - 1] == back[n] && (s + back)[..|s + back| - 1] == s + back[..n];
      TrimEndPadded(s, back[..n]);
    }
  }

  /** Text with no white space at either end is left alone. */
  lemma TrimTrimmed(s: string)
    requires s != [] ==> !IsSpace(s[0]) && !IsSpace(s[|s| - 1])
    ensures Trim(s) == s
  {
  }

  // ----- decimal numbers -----

  function Digit(d: nat): char
    requires d < 10
  {
    ('0' as int + d) as char
  }

  function Decimal(n: nat): string {
    if n < 10 then [Digit(n)] else Decimal(n / 10) + [Digit(n % 10)]
  }

  predicate AllDigits(s: string) {
    forall i | 0 <= i < |s| :: '0' <= s[i] <= '9'
  }

  function DecimalValue(s: string): nat
    requires AllDigits(s)
  {
    if s == [] then 0
    else 10 * DecimalValue(s[..|s| - 1]) + (s[|s| - 1] as int - '0' as int)
  }

  lemma {:induction false} DecimalReadsBack(n: nat)
    ensures Decimal(n) != [] && AllDigits(Decimal(n)) && DecimalValue(Decimal(n)) == n
  {
    if n >= 10 {
      DecimalReadsBack(n / 10);
      assert Decimal(n)[..|Decimal(n)| - 1] == Decimal(n / 10);
    } else {
      assert [Digit(n)][..0] == [];
    }
  }
}
