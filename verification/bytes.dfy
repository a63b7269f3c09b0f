/**
 * Byte strings and the small amount of text processing the server does on
 * them.  A byte is modelled as a character in the range 0..255, so that HTTP
 * text can be written as string literals; a Rust `String` is modelled by its
 * UTF-8 bytes.  Whitespace and case folding are the ASCII parts of Rust's
 * `char::is_whitespace`, `to_lowercase` and `to_uppercase`.
 */
module Bytes {
  import opened Wrappers

  type Byte = c: char | c as int < 256
  type Bytes = seq<Byte>

  const CR: Byte := '\r'
  const LF: Byte := '\n'
  const CRLF: Bytes := "\r\n"

  /** Largest `usize` plus one, on the 64-bit targets the server is built for. */
  const USIZE_LIMIT: nat := 0x1_0000_0000_0000_0000

  // ---------------------------------------------------------------- bytes

  /** ASCII white space as Rust's `char::is_whitespace` sees it: TAB, LF, VT, FF, CR and SPACE. */
  predicate IsSpace(c: Byte) {
    c == ' ' || ('\t' <= c <= '\r')
  }

  predicate IsDigit(c: Byte) {
    '0' as int <= c as int <= '9' as int
  }

  function Lower(c: Byte): (r: Byte)
    ensures 'A' <= c <= 'Z' ==> r as int == c as int + 32
    ensures !('A' <= c <= 'Z') ==> r == c
  {
    if 'A' <= c <= 'Z' then (c as int + 32) as char else c
  }

  function Upper(c: Byte): (r: Byte)
    ensures 'a' <= c <= 'z' ==> r as int == c as int - 32
    ensures !('a' <= c <= 'z') ==> r == c
  {
    if 'a' <= c <= 'z' then (c as int - 32) as char else c
  }

  function ToLower(s: Bytes): (r: Bytes)
    ensures |r| == |s|
    ensures forall i :: 0 <= i < |s| ==> r[i] == Lower(s[i])
  {
    seq(|s|, i requires 0 <= i < |s| => Lower(s[i]))
  }

  function ToUpper(s: Bytes): (r: Bytes)
    ensures |r| == |s|
    ensures forall i :: 0 <= i < |s| ==> r[i] == Upper(s[i])
  {
    seq(|s|, i requires 0 <= i < |s| => Upper(s[i]))
  }

  /** Upper-casing forgets exactly the case of ASCII letters. */
  lemma UpperIgnoresCase(s: Bytes)
    ensures ToUpper(ToLower(s)) == ToUpper(s)
  {
    assert forall i :: 0 <= i < |s| ==> Upper(Lower(s[i])) == Upper(s[i]);
  }

  /**
   * Stated once so that proofs about concatenations need not rediscover it
   * in contexts full of other sequence facts.
   */
  lemma AppendAssociative(a: Bytes, b: Bytes, c: Bytes)
    ensures a + b + c == a + (b + c)
  {
  }

  lemma TakeAppend(a: Bytes, b: Bytes, n: nat)
    requires n <= |a|
    ensures (a + b)[..n] == a[..n]
  {
  }

  lemma DropAppend(a: Bytes, b: Bytes, n: nat)
    requires n <= |a|
    ensures (a + b)[n..] == a[n..] + b
  {
  }

  lemma EmptyAppend(b: Bytes)
    ensures [] + b == b
  {
  }

  lemma SplitAppendAt(a: Bytes, b: Bytes)
    ensures (a + b)[..|a|] == a && (a + b)[|a|..] == b
  {
  }

  // ---------------------------------------------------------------- trimming

  /** `str::trim_start`: drops leading white space. */
  function TrimStart(s: Bytes): (r: Bytes)
    ensures |r| <= |s| && r == s[|s| - |r|..]
    ensures r == [] || !IsSpace(r[0])
    ensures forall i :: 0 <= i < |s| - |r| ==> IsSpace(s[i])
  {
    if s != [] && IsSpace(s[0]) then TrimStart(s[1..]) else s
  }

  /** `str::trim_end`: drops trailing white space. */
  function TrimEnd(s: Bytes): (r: Bytes)
    ensures |r| <= |s| && r == s[..|r|]
    ensures r == [] || !IsSpace(r[|r| - 1])
    ensures forall i :: |r| <= i < |s| ==> IsSpace(s[i])
  {
    if s != [] && IsSpace(s[|s| - 1]) then TrimEnd(s[..|s| - 1]) else s
  }

  /** `str::trim`. */
  function Trim(s: Bytes): Bytes {
    TrimEnd(TrimStart(s))
  }

  lemma TrimKeeps(s: Bytes)
    requires s == [] || (!IsSpace(s[0]) && !IsSpace(s[|s| - 1]))
    ensures Trim(s) == s
  {
  }

  /** Trimming the start removes exactly a leading run of white space. */
  lemma {:induction false} TrimSpaces(spaces: Bytes, t: Bytes)
    requires forall i :: 0 <= i < |spaces| ==> IsSpace(spaces[i])
    requires t == [] || !IsSpace(t[0])
    ensures TrimStart(spaces + t) == t
  {
    if spaces == [] {
      assert spaces + t == t;
    } else {
      assert (spaces + t)[0] == spaces[0];
      assert (spaces + t)[1..] == spaces[1..] + t;
      TrimSpaces(spaces[1..], t);
    }
  }

  // ---------------------------------------------------------------- searching

  /** Index of the first occurrence of `c` in `s`. */
  function Find(s: Bytes, c: Byte): (r: Option<nat>)
    ensures r.Some? ==> r.value < |s| && s[r.value] == c
    ensures r.Some? ==> forall j :: 0 <= j < r.value ==> s[j] != c
    ensures r.None? <==> c !in s
  {
    if s == [] then None
    else if s[0] == c then Some(0)
    else match Find(s[1..], c)
      case None => None
      case Some(i) => Some(i + 1)
  }

  lemma FindPrefix(a: Bytes, b: Bytes, c: Byte)
    requires c in a
    ensures Find(a + b, c) == Find(a, c)
  {
    var i := Find(a, c).value;
    var r := Find(a + b, c);
    assert (a + b)[i] == c;
    assert r.Some?;
    assert forall j :: 0 <= j < i ==> (a + b)[j] == a[j];
  }

  /** `str::split_once(c)`: the text before the first `c` and the text after it. */
  function SplitOnce(s: Bytes, c: Byte): (r: Option<(Bytes, Bytes)>)
    ensures r.None? <==> c !in s
    ensures r.Some? ==> s == r.value.0 + [c] + r.value.1 && c !in r.value.0
  {
    match Find(s, c)
    case None => None
    case Some(i) => Some((s[..i], s[i + 1..]))
  }

  /** Splitting at the first `c` of a text whose first part has none gives back the two parts. */
  lemma SplitOnceAt(key: Bytes, value: Bytes, c: Byte)
    requires c !in key
    ensures SplitOnce(key + [c] + value, c) == Some((key, value))
  {
    var s := key + [c] + value;
    assert s[|key|] == c;
    var i := Find(s, c).value;
    forall j | 0 <= j < |key|
      ensures s[j] != c
    {
      assert s[j] == key[j];
    }
    assert s[..i] == key && s[i + 1..] == value;
  }

  /** A text without `c` is a single piece. */
  lemma SplitWithout(s: Bytes, c: Byte)
    requires c !in s
    ensures Split(s, c) == [s]
  {
  }

  /** `str::split(c)`: the pieces between occurrences of `c`; always at least one. */
  function Split(s: Bytes, c: Byte): (r: seq<Bytes>)
    ensures |r| >= 1
    ensures forall i :: 0 <= i < |r| ==> c !in r[i]
    decreases |s|
  {
    match Find(s, c)
    case None => [s]
    case Some(i) => [s[..i]] + Split(s[i + 1..], c)
  }

  /** The inverse of `Split`: the pieces put back together with `c` between them. */
  function Join(pieces: seq<Bytes>, c: Byte): Bytes {
    if pieces == [] then []
    else if |pieces| == 1 then pieces[0]
    else pieces[0] + [c] + Join(pieces[1..], c)
  }

  lemma {:induction false} JoinSplit(s: Bytes, c: Byte)
    ensures Join(Split(s, c), c) == s
    decreases |s|
  {
    match Find(s, c)
    case None =>
    case Some(i) =>
      var rest := Split(s[i + 1..], c);
      assert Split(s, c) == [s[..i]] + rest;
      JoinCons(s[..i], rest, c);
      JoinSplit(s[i + 1..], c);
      assert s == s[..i] + [c] + s[i + 1..];
  }

  lemma JoinCons(piece: Bytes, rest: seq<Bytes>, c: Byte)
    requires rest != []
    ensures Join([piece] + rest, c) == piece + [c] + Join(rest, c)
  {
    var pieces := [piece] + rest;
    assert pieces[0] == piece && pieces[1..] == rest;
  }

  lemma {:induction false} SplitJoin(pieces: seq<Bytes>, c: Byte)
    requires |pieces| >= 1
    requires forall i :: 0 <= i < |pieces| ==> c !in pieces[i]
    ensures Split(Join(pieces, c), c) == pieces
  {
    if |pieces| > 1 {
      var rest := Join(pieces[1..], c);
      SplitJoin(pieces[1..], c);
      FindPrefix(pieces[0] + [c], rest, c);
      assert Find(pieces[0] + [c], c) == Some(|pieces[0]|) by {
        assert (pieces[0] + [c])[|pieces[0]|] == c;
      }
      assert (pieces[0] + [c] + rest)[..|pieces[0]|] == pieces[0];
      assert (pieces[0] + [c] + rest)[|pieces[0]| + 1..] == rest;
    }
  }

  /** Splitting a text with `c` between two parts splits the two parts. */
  lemma SplitAppend(a: Bytes, b: Bytes, c: Byte)
    ensures Split(a + [c] + b, c) == Split(a, c) + Split(b, c)
  {
    JoinSplit(a, c);
    JoinSplit(b, c);
    var pieces := Split(a, c) + Split(b, c);
    JoinAppend(Split(a, c), Split(b, c), c);
    SplitJoin(pieces, c);
  }

  lemma {:induction false} JoinAppend(p: seq<Bytes>, q: seq<Bytes>, c: Byte)
    requires |p| >= 1 && |q| >= 1
    ensures Join(p + q, c) == Join(p, c) + [c] + Join(q, c)
  {
    if |p| > 1 {
      JoinAppend(p[1..], q, c);
      assert (p + q)[1..] == p[1..] + q;
    } else {
      assert (p + q)[1..] == q;
    }
  }

  /** The pieces written one after the other, with nothing between them. */
  function Concat(pieces: seq<Bytes>): (r: Bytes)
    ensures pieces == [] ==> r == []
  {
    if pieces == [] then [] else Concat(pieces[..|pieces| - 1]) + pieces[|pieces| - 1]
  }

  lemma {:induction false} ConcatAppend(p: seq<Bytes>, q: seq<Bytes>)
    ensures Concat(p + q) == Concat(p) + Concat(q)
    decreases |q|
  {
    if q == [] {
      assert p + q == p;
    } else {
      var init, last := q[..|q| - 1], q[|q| - 1];
      var pq := p + q;
      assert pq[..|pq| - 1] == p + init;
      assert pq[|pq| - 1] == last;
      ConcatAppend(p, init);
      AppendAssociative(Concat(p), Concat(init), last);
    }
  }

  /** A byte that occurs in none of the pieces does not occur in their concatenation. */
  lemma {:induction false} ConcatExcludes(pieces: seq<Bytes>, c: Byte)
    requires forall i :: 0 <= i < |pieces| ==> c !in pieces[i]
    ensures c !in Concat(pieces)
    decreases |pieces|
  {
    if pieces != [] {
      var init := pieces[..|pieces| - 1];
      assert forall i :: 0 <= i < |init| ==> init[i] == pieces[i];
      ConcatExcludes(init, c);
    }
  }

  // ---------------------------------------------------------------- lines and words

  /** Drops one carriage return at the end of a line. */
  function StripCR(line: Bytes): Bytes {
    if line != [] && line[|line| - 1] == CR then line[..|line| - 1] else line
  }

  /**
   * `str::lines`: the lines of `s`, split at LF, with a CR just before the LF
   * removed; a final line ending does not start another line.
   */
  function Lines(s: Bytes): (r: seq<Bytes>)
    ensures s != [] ==> r != []
    decreases |s|
  {
    if s == [] then []
    else match Find(s, LF)
      case None => [s]
      case Some(i) => [StripCR(s[..i])] + Lines(s[i + 1..])
  }

  lemma LinesCons(line: Bytes, rest: Bytes)
    requires LF !in line
    ensures Lines(line + [LF] + rest) == [StripCR(line)] + Lines(rest)
  {
    var s := line + [LF] + rest;
    FindPrefix(line + [LF], rest, LF);
    assert Find(line + [LF], LF) == Some(|line|) by {
      assert (line + [LF])[|line|] == LF;
    }
    assert s[..|line|] == line;
    assert s[|line| + 1..] == rest;
  }

  /** Length of the word at the start of `s`: the bytes before the first white space. */
  function WordLength(s: Bytes): (n: nat)
    ensures n <= |s|
    ensures forall i :: 0 <= i < n ==> !IsSpace(s[i])
    ensures n < |s| ==> IsSpace(s[n])
  {
    if s == [] || IsSpace(s[0]) then 0 else 1 + WordLength(s[1..])
  }

  /** `str::split_whitespace`: the non-empty runs of non-space bytes, in order. */
  function Words(s: Bytes): (r: seq<Bytes>)
    ensures forall i :: 0 <= i < |r| ==> r[i] != []
    decreases |s|
  {
    var t := TrimStart(s);
    if t == [] then []
    else
      var n := WordLength(t);
      assert 0 < n by { assert !IsSpace(t[0]); }
      var rest := Words(t[n..]);
      NoEmptyWord(t[..n], rest);
      [t[..n]] + rest
  }

  lemma NoEmptyWord(w: Bytes, rest: seq<Bytes>)
    requires w != [] && forall i :: 0 <= i < |rest| ==> rest[i] != []
    ensures forall i :: 0 <= i < |rest| + 1 ==> ([w] + rest)[i] != []
  {
    forall i | 0 < i < |rest| + 1
      ensures ([w] + rest)[i] != []
    {
      assert ([w] + rest)[i] == rest[i - 1];
    }
  }

  /** White space before the first word is skipped. */
  lemma WordsSkipsSpace(c: Byte, s: Bytes)
    requires IsSpace(c)
    ensures Words([c] + s) == Words(s)
  {
    assert ([c] + s)[1..] == s;
  }

  lemma {:induction false} WordLengthOf(w: Bytes, rest: Bytes)
    requires forall i :: 0 <= i < |w| ==> !IsSpace(w[i])
    requires rest == [] || IsSpace(rest[0])
    ensures WordLength(w + rest) == |w|
    decreases |w|
  {
    if w == [] {
      assert w + rest == rest;
    } else {
      assert (w + rest)[1..] == w[1..] + rest;
      WordLengthOf(w[1..], rest);
    }
  }

  /** A run of non-space bytes followed by white space (or nothing) is the first word. */
  lemma WordsCons(w: Bytes, rest: Bytes)
    requires w != [] && forall i :: 0 <= i < |w| ==> !IsSpace(w[i])
    requires rest == [] || IsSpace(rest[0])
    ensures Words(w + rest) == [w] + Words(rest)
  {
    var s := w + rest;
    assert TrimStart(s) == s by {
      assert !IsSpace(s[0]);
    }
    WordLengthOf(w, rest);
    assert s[..|w|] == w && s[|w|..] == rest;
  }

  // ---------------------------------------------------------------- numbers

  function Digit(d: nat): (c: Byte)
    requires d < 10
    ensures IsDigit(c) && DigitValue(c) == d
  {
    ('0' as int + d) as char
  }

  /** The decimal text `format!("{}", n)` writes for an unsigned integer. */
  function Decimal(n: nat): (r: Bytes)
    ensures r != []
    ensures forall i :: 0 <= i < |r| ==> IsDigit(r[i])
  {
    if n < 10 then [Digit(n)] else Decimal(n / 10) + [Digit(n % 10)]
  }

  /** The value of a string of decimal digits. */
  function DigitsValue(s: Bytes): nat
    requires forall i :: 0 <= i < |s| ==> IsDigit(s[i])
  {
    if s == [] then 0
    else DigitsValue(s[..|s| - 1]) * 10 + DigitValue(s[|s| - 1])
  }

  function DigitValue(c: Byte): (d: nat)
    requires IsDigit(c)
    ensures d < 10
  {
    c as int - '0' as int
  }

  /**
   * `str::parse::<usize>()`: an optional `+`, then at least one decimal digit
   * and nothing else, with a value that fits in 64 bits.
   */
  function ParseUsize(s: Bytes): (r: Option<nat>)
    ensures r.Some? ==> r.value < USIZE_LIMIT
    ensures r.Some? ==> s != [] && forall i :: 0 <= i < |s| ==> IsDigit(s[i]) || (i == 0 && s[i] == '+')
    ensures r.Some? ==>
      var d := if s[0] == '+' then s[1..] else s;
      d != [] && (forall i :: 0 <= i < |d| ==> IsDigit(d[i])) && r.value == DigitsValue(d)
  {
    var d := if s != [] && s[0] == '+' then s[1..] else s;
    if d != [] && (forall i :: 0 <= i < |d| ==> IsDigit(d[i])) && DigitsValue(d) < USIZE_LIMIT
    then Some(DigitsValue(d))
    else None
  }

  /**
   * Every non-empty run of digits, with or without a leading `+`, parses to
   * its value when that fits in 64 bits and is refused otherwise; leading
   * zeros are allowed.
   */
  lemma ParseDigits(d: Bytes)
    requires d != [] && forall i :: 0 <= i < |d| ==> IsDigit(d[i])
    ensures ParseUsize(d) == (if DigitsValue(d) < USIZE_LIMIT then Some(DigitsValue(d)) else None)
    ensures ParseUsize("+" + d) == ParseUsize(d)
  {
    assert d[0] != '+' by { assert IsDigit(d[0]); }
    var signed: Bytes := "+" + d;
    assert signed[0] == '+' && signed[1..] == d;
  }

  lemma {:induction false} DigitsValueOfDecimal(n: nat)
    ensures DigitsValue(Decimal(n)) == n
  {
    if n >= 10 {
      DigitsValueOfDecimal(n / 10);
      var d := Decimal(n);
      assert d[..|d| - 1] == Decimal(n / 10);
    }
  }

  /** Reading back what `Decimal` wrote gives the number again. */
  lemma ParseDecimal(n: nat)
    requires n < USIZE_LIMIT
    ensures ParseUsize(Decimal(n)) == Some(n)
  {
    DigitsValueOfDecimal(n);
  }

  // ---------------------------------------------------------------- UTF-8

  predicate InRange(c: Byte, lo: int, hi: int) {
    lo <= c as int <= hi
  }

  /**
   * Length of the well-formed UTF-8 sequence at the start of `s`, or 0 if
   * there is none (the table of well-formed byte sequences of RFC 3629,
   * section 4: no overlong forms, no surrogates, nothing above U+10FFFF).
   */
  function Utf8SequenceLength(s: Bytes): (n: nat)
    ensures n <= |s| && n <= 4
  {
    if s == [] then 0
    else
      var b := s[0] as int;
      if b < 0x80 then 1
      else if 0xC2 <= b <= 0xDF then
        if |s| >= 2 && InRange(s[1], 0x80, 0xBF) then 2 else 0
      else if 0xE0 <= b <= 0xEF then
        var lo := if b == 0xE0 then 0xA0 else 0x80;
        var hi := if b == 0xED then 0x9F else 0xBF;
        if |s| >= 3 && InRange(s[1], lo, hi) && InRange(s[2], 0x80, 0xBF) then 3 else 0
      else if 0xF0 <= b <= 0xF4 then
        var lo := if b == 0xF0 then 0x90 else 0x80;
        var hi := if b == 0xF4 then 0x8F else 0xBF;
        if |s| >= 4 && InRange(s[1], lo, hi) && InRange(s[2], 0x80, 0xBF) && InRange(s[3], 0x80, 0xBF)
        then 4 else 0
      else 0
  }

  /** What `String::from_utf8` accepts. */
  predicate WellFormedUtf8(s: Bytes)
    decreases |s|
  {
    s == [] || (Utf8SequenceLength(s) > 0 && WellFormedUtf8(s[Utf8SequenceLength(s)..]))
  }

  lemma {:induction false} AsciiIsUtf8(s: Bytes)
    requires forall i :: 0 <= i < |s| ==> s[i] as int < 0x80
    ensures WellFormedUtf8(s)
  {
    if s != [] {
      AsciiIsUtf8(s[1..]);
    }
  }

  /** A well-formed sequence at the start of a text is read the same whatever follows it. */
  lemma Utf8SequenceOfPrefix(a: Bytes, b: Bytes)
    requires Utf8SequenceLength(a) > 0
    ensures Utf8SequenceLength(a + b) == Utf8SequenceLength(a)
  {
    var n := Utf8SequenceLength(a);
    assert forall i :: 0 <= i < n ==> (a + b)[i] == a[i];
  }

  /** Well-formed UTF-8 texts stay well-formed when concatenated. */
  lemma {:induction false} Utf8Concat(a: Bytes, b: Bytes)
    requires WellFormedUtf8(a) && WellFormedUtf8(b)
    ensures WellFormedUtf8(a + b)
    decreases |a|
  {
    if a == [] {
      assert a + b == b;
    } else {
      var n := Utf8Unfold(a);
      Utf8Concat(a[n..], b);
      Utf8ConcatStep(a, b, n);
    }
  }

  lemma Utf8ConcatStep(a: Bytes, b: Bytes, n: nat)
    requires 0 < n <= |a| && Utf8SequenceLength(a) == n && WellFormedUtf8(a[n..] + b)
    ensures WellFormedUtf8(a + b)
  {
    var ab := a + b;
    assert ab[n..] == a[n..] + b;
    Utf8SequenceOfPrefix(a, b);
    Utf8Step(ab, n);
  }

  lemma Utf8Unfold(s: Bytes) returns (n: nat)
    requires s != [] && WellFormedUtf8(s)
    ensures n == Utf8SequenceLength(s) && 0 < n <= |s| && WellFormedUtf8(s[n..])
  {
    n := Utf8SequenceLength(s);
  }

  lemma Utf8Step(s: Bytes, n: nat)
    requires n > 0 && Utf8SequenceLength(s) == n && WellFormedUtf8(s[n..])
    ensures WellFormedUtf8(s)
  {
  }

  /**
   * Texts that `from_utf8` refuses because of how they start: a continuation
   * byte (80-BF) as the first byte, the never-used leads C0, C1 and F5-FF, and
   * ED followed by A0-BF (an encoded surrogate).
   */
  lemma Utf8RejectsBadStart(s: Bytes)
    requires s != []
    requires || InRange(s[0], 0x80, 0xBF) || InRange(s[0], 0xC0, 0xC1) || InRange(s[0], 0xF5, 0xFF)
             || (|s| >= 2 && s[0] as int == 0xED && InRange(s[1], 0xA0, 0xBF))
    ensures !WellFormedUtf8(s)
  {
    assert Utf8SequenceLength(s) == 0;
  }

  /** `String::from_utf8(bytes).unwrap_or_default()`. */
  function Utf8OrEmpty(s: Bytes): (r: Bytes)
    ensures WellFormedUtf8(s) ==> r == s
    ensures !WellFormedUtf8(s) ==> r == []
  {
    if WellFormedUtf8(s) then s else []
  }
}
