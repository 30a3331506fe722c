/** The parts of C++ formatted stream input and output that the image system
    relies on, written as functions on the text that is still unread.  A
    stream is "the rest of its text"; an extraction returns what it read and
    the rest.  Integers are unbounded, so the `int` overflow of `operator>>`
    is not part of this model. */
module Streams {

  datatype Option<T> = None | Some(value: T)

  /** Whitespace in the C locale (`isspace`). */
  predicate IsSpace(c: char) {
    c == ' ' || c == '\t' || c == '\n' || c == '\r' || c == '\U{0B}' || c == '\U{0C}'
  }

  predicate IsDigit(c: char) {
    '0' <= c <= '9'
  }

  predicate AllSpace(w: string) {
    forall k :: 0 <= k < |w| ==> IsSpace(w[k])
  }

  predicate AllDigits(d: string) {
    forall k :: 0 <= k < |d| ==> IsDigit(d[k])
  }

  /** Drops leading whitespace, as the sentry of every formatted extraction does. */
  function SkipSpace(t: string): (u: string)
    ensures |u| <= |t|
    ensures u == [] || !IsSpace(u[0])
  {
    if t != [] && IsSpace(t[0]) then SkipSpace(t[1..]) else t
  }

  /** Length of the longest prefix without whitespace. */
  function WordLength(t: string): (n: nat)
    ensures n <= |t|
    ensures forall k :: 0 <= k < n ==> !IsSpace(t[k])
    ensures n == |t| || IsSpace(t[n])
  {
    if t == [] || IsSpace(t[0]) then 0 else 1 + WordLength(t[1..])
  }

  datatype Read<T> = Read(value: T, rest: string)

  /** `stream >> word` for a `std::string`: skip whitespace, then take the
      longest run of non-whitespace; the whitespace after it stays unread.
      At the end of the text nothing is read and the word is empty. */
  function ReadWord(t: string): (r: Read<string>)
    ensures r.rest == [] || IsSpace(r.rest[0])
  {
    var u := SkipSpace(t);
    var n := WordLength(u);
    Read(u[..n], u[n..])
  }

  /** Length of the prefix before the first newline. */
  function LineLength(t: string): (n: nat)
    ensures n <= |t|
    ensures forall k :: 0 <= k < n ==> t[k] != '\n'
    ensures n == |t| || t[n] == '\n'
  {
    if t == [] || t[0] == '\n' then 0 else 1 + LineLength(t[1..])
  }

  /** `std::getline`: fails only when nothing is left; otherwise yields the
      characters up to the next newline, which is consumed but not kept.
      A last line without a newline is still a line. */
  function GetLine(t: string): (r: Option<Read<string>>)
    ensures r.None? <==> t == []
    ensures r.Some? ==> |r.value.rest| < |t|
  {
    if t == [] then None
    else
      var n := LineLength(t);
      if n < |t| then
        Some(Read(t[..n], t[n + 1..]))
      else
        Some(Read(t, []))
  }

  /** Length of the longest prefix of decimal digits. */
  function DigitRun(t: string): (n: nat)
    ensures n <= |t| && AllDigits(t[..n])
    ensures n == |t| || !IsDigit(t[n])
  {
    if t == [] || !IsDigit(t[0]) then 0
    else
      var n := 1 + DigitRun(t[1..]);
      assert t[..n] == [t[0]] + t[1..][..n - 1];
      n
  }

  function DigitValue(c: char): nat
    requires IsDigit(c)
  {
    c as int - '0' as int
  }

  function DigitChar(d: nat): (c: char)
    requires d < 10
    ensures IsDigit(c) && DigitValue(c) == d
  {
    ('0' as int + d) as char
  }

  /** The number a string of decimal digits denotes, most significant first. */
  function DigitsValue(d: string): nat
    requires AllDigits(d)
  {
    if d == [] then 0
    else 10 * DigitsValue(d[..|d| - 1]) + DigitValue(d[|d| - 1])
  }

  /** The three ways `stream >> n` for an `int` can end: a number was read;
      the sentry found text that is not a number (C++11 then stores 0 in
      `n`); or the sentry found nothing but whitespace (then `n` keeps its
      value).  In the last two cases the stream has failed. */
  datatype Extraction = Got(value: int, rest: string) | Invalid | Exhausted

  /** The digits at the front of `d`, read as a number. */
  function ReadNumber(d: string): (r: Extraction)
    ensures !r.Exhausted?
    ensures r.Got? ==> |r.rest| < |d| && r.value >= 0
  {
    var n := DigitRun(d);
    if n == 0 then Invalid else Got(DigitsValue(d[..n]), d[n..])
  }

  function Negated(r: Extraction): Extraction {
    if r.Got? then Got(-r.value, r.rest) else r
  }

  /** `stream >> n` for an `int`: skip whitespace, an optional sign, then the
      longest run of decimal digits (at least one). */
  function ExtractInt(t: string): (r: Extraction)
    ensures r.Got? ==> |r.rest| < |t|
  {
    var u := SkipSpace(t);
    if u == [] then Exhausted
    else if u[0] == '-' then Negated(ReadNumber(u[1..]))
      else if u[0] == '+' then ReadNumber(u[1..])
      else ReadNumber(u)
  }

  /** `stream << v` for a non-negative `int`: its decimal digits. */
  function NatToString(v: nat): (s: string)
    ensures s != [] && AllDigits(s)
    decreases v
  {
    if v < 10 then [DigitChar(v)] else NatToString(v / 10) + [DigitChar(v % 10)]
  }

  /** `stream << v` for an `int`: a minus sign before negative numbers. */
  function IntToString(v: int): (s: string)
    ensures s != [] && (IsDigit(s[0]) || s[0] == '-')
    ensures forall k :: 0 <= k < |s| ==> s[k] == '-' || IsDigit(s[k])
  {
    if v < 0 then "-" + NatToString(-v) else NatToString(v)
  }

  /** Reading back the digits that NatToString wrote gives the number. */
  lemma {:induction false} DigitsOfNat(v: nat)
    ensures DigitsValue(NatToString(v)) == v
  {
    if v >= 10 {
      var s := NatToString(v);
      assert s[..|s| - 1] == NatToString(v / 10);
      DigitsOfNat(v / 10);
    }
  }

  /** Skipping whitespace leaves nothing exactly when there is nothing but
      whitespace. */
  lemma {:induction false} SkipSpaceAll(t: string)
    ensures SkipSpace(t) == [] <==> AllSpace(t)
  {
    if t != [] && IsSpace(t[0]) {
      SkipSpaceAll(t[1..]);
      assert AllSpace(t) <==> AllSpace(t[1..]) by {
        assert forall k :: 0 < k < |t| ==> t[k] == t[1..][k - 1];
      }
    }
  }

  /** An extraction finds nothing to read exactly when only whitespace is
      left. */
  lemma ExtractExhausted(t: string)
    ensures ExtractInt(t).Exhausted? <==> AllSpace(t)
  {
    SkipSpaceAll(t);
  }

  lemma SkipSpacePrefix(w: string, x: string)
    requires AllSpace(w)
    requires x == [] || !IsSpace(x[0])
    ensures SkipSpace(w + x) == x
    decreases |w|
  {
    if w != [] {
      assert (w + x)[1..] == w[1..] + x;
      SkipSpacePrefix(w[1..], x);
    }
  }

  /** Whitespace before the text is dropped with the whitespace the text
      starts with. */
  lemma {:induction false} SkipSpaceLeading(w: string, t: string)
    requires AllSpace(w)
    ensures SkipSpace(w + t) == SkipSpace(t)
    decreases |w|
  {
    if w == [] {
      assert w + t == t;
    } else {
      assert (w + t)[0] == w[0] && (w + t)[1..] == w[1..] + t;
      SkipSpaceLeading(w[1..], t);
    }
  }

  lemma DigitRunOf(d: string, x: string)
    requires AllDigits(d)
    requires x == [] || !IsDigit(x[0])
    ensures DigitRun(d + x) == |d|
    decreases |d|
  {
    if d != [] {
      assert (d + x)[1..] == d[1..] + x;
      DigitRunOf(d[1..], x);
    }
  }

  lemma ReadNumberOf(digits: string, x: string)
    requires digits != [] && AllDigits(digits)
    requires x == [] || !IsDigit(x[0])
    ensures ReadNumber(digits + x) == Got(DigitsValue(digits), x)
  {
    var d := digits + x;
    DigitRunOf(digits, x);
    assert d[..|digits|] == digits;
    assert d[|digits|..] == x;
  }

  /** `stream >> n` on text that, once blanks are skipped, starts with a
      run of digits (after a minus sign when `negative`). */
  lemma ExtractAfterSkip(t: string, negative: bool, n: string, x: string)
    requires n != [] && AllDigits(n)
    requires x == [] || !IsDigit(x[0])
    requires SkipSpace(t) == (if negative then "-" + n else n) + x
    ensures ExtractInt(t) == Got(if negative then -(DigitsValue(n) as int) else DigitsValue(n), x)
  {
    var u := SkipSpace(t);
    ReadNumberOf(n, x);
    if negative {
      assert u[0] == '-' && u[1..] == n + x;
    } else {
      assert IsDigit(u[0]);
    }
  }

  lemma {:induction false} SkipSpaceBlank(w: string, x: string)
    requires AllSpace(w)
    ensures SkipSpace(w + x) == SkipSpace(x)
  {
    if w != [] {
      assert (w + x)[1..] == w[1..] + x;
      SkipSpaceBlank(w[1..], x);
    } else {
      assert w + x == x;
    }
  }

  lemma {:induction false} SkipToWritten(w: string, s: string, x: string)
    requires AllSpace(w)
    requires s != [] && !IsSpace(s[0])
    ensures SkipSpace(w + s + x) == s + x
  {
    assert w + s + x == w + (s + x);
    SkipSpacePrefix(w, s + x);
  }

  /** Whatever `stream << v` wrote, `stream >> n` reads back as `v`, after
      any whitespace and provided no digit follows. */
  lemma {:induction false} ExtractWritten(w: string, v: int, x: string)
    requires AllSpace(w)
    requires x == [] || !IsDigit(x[0])
    ensures ExtractInt(w + IntToString(v) + x) == Got(v, x)
  {
    if v < 0 {
      DigitsOfNat(-v);
      SkipToWritten(w, IntToString(v), x);
      ExtractAfterSkip(w + IntToString(v) + x, true, NatToString(-v), x);
    } else {
      DigitsOfNat(v);
      SkipToWritten(w, IntToString(v), x);
      ExtractAfterSkip(w + IntToString(v) + x, false, NatToString(v), x);
    }
  }

  lemma LineLengthOf(line: string, x: string)
    requires forall k :: 0 <= k < |line| ==> line[k] != '\n'
    ensures LineLength(line + "\n" + x) == |line|
    decreases |line|
  {
    if line != [] {
      assert (line + "\n" + x)[1..] == line[1..] + "\n" + x;
      LineLengthOf(line[1..], x);
    }
  }

  /** A line that holds no newline is read back by `std::getline` whole. */
  lemma GetLineOf(line: string, x: string)
    requires forall k :: 0 <= k < |line| ==> line[k] != '\n'
    ensures GetLine(line + "\n" + x) == Some(Read(line, x))
  {
    var t := line + "\n" + x;
    LineLengthOf(line, x);
    assert t[..|line|] == line;
    assert t[|line| + 1..] == x;
  }
}
