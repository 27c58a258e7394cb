/**
 * The pieces of C's formatted input and output that the client relies on:
 * the "C" locale's white space, the NUL-terminated view of a byte buffer,
 * the `%d`/`%ld` conversion of `sscanf` and the `%d` conversion of
 * `sprintf` for non-negative values.
 */
module Scan {
  import opened Wrappers

  /** `isspace` in the "C" locale: space, tab, newline, vertical tab, form feed, carriage return. */
  predicate IsSpace(c: char) {
    c == ' ' || c == '\t' || c == '\n' || c == '\U{0B}' || c == '\U{0C}' || c == '\r'
  }

  predicate IsDigit(c: char) {
    '0' <= c <= '9'
  }

  predicate AllDigits(d: seq<char>) {
    forall i :: 0 <= i < |d| ==> IsDigit(d[i])
  }

  /** The string a buffer holds for the C library: everything before the first NUL. */
  function CString(buf: seq<char>): (s: seq<char>)
    ensures s <= buf
    ensures '\0' !in s
    ensures |s| < |buf| ==> buf[|s|] == '\0'
  {
    if buf == [] || buf[0] == '\0' then [] else [buf[0]] + CString(buf[1..])
  }

  /** A NUL-free text followed by a NUL (or by nothing) reads back as that text. */
  lemma {:induction false} CStringOfTerminated(s: seq<char>, rest: seq<char>)
    requires '\0' !in s
    requires rest == [] || rest[0] == '\0'
    ensures CString(s + rest) == s
  {
    if s != [] {
      assert (s + rest)[1..] == s[1..] + rest;
      CStringOfTerminated(s[1..], rest);
    } else {
      assert s + rest == rest;
    }
  }

  /** Length of the longest prefix of `s` whose characters all satisfy `p`. */
  function Span(s: seq<char>, p: char -> bool): (n: nat)
    ensures n <= |s|
    ensures forall i :: 0 <= i < n ==> p(s[i])
    ensures n < |s| ==> !p(s[n])
  {
    if s != [] && p(s[0]) then 1 + Span(s[1..], p) else 0
  }

  /** A prefix all of whose characters satisfy `p`, followed by one that does not, is the span. */
  lemma {:induction false} SpanOfPrefix(x: seq<char>, rest: seq<char>, p: char -> bool)
    requires forall i :: 0 <= i < |x| ==> p(x[i])
    requires rest == [] || !p(rest[0])
    ensures Span(x + rest, p) == |x|
  {
    if x != [] {
      assert (x + rest)[1..] == x[1..] + rest;
      SpanOfPrefix(x[1..], rest, p);
    } else {
      assert x + rest == rest;
    }
  }

  /** What a white-space directive (or the start of a conversion) leaves unread. */
  function SkipSpace(s: seq<char>): (r: seq<char>)
    ensures |r| <= |s| && r == s[|s| - |r|..]
    ensures r != [] ==> !IsSpace(r[0])
  {
    s[Span(s, IsSpace)..]
  }

  function DigitValue(c: char): (v: nat)
    requires IsDigit(c)
    ensures v < 10
  {
    (c as int) - ('0' as int)
  }

  function DigitChar(v: nat): (c: char)
    requires v < 10
    ensures IsDigit(c) && DigitValue(c) == v
  {
    (('0' as int) + v) as char
  }

  /** The value of a string of decimal digits, most significant first. */
  function Value(d: seq<char>): nat
    requires AllDigits(d)
  {
    if d == [] then 0 else Value(d[..|d| - 1]) * 10 + DigitValue(d[|d| - 1])
  }

  /** `sprintf("%d", n)` for a non-negative `n`. */
  function Decimal(n: nat): (d: seq<char>)
    ensures d != [] && AllDigits(d)
    ensures |d| > 1 ==> d[0] != '0'
  {
    if n < 10 then [DigitChar(n)] else Decimal(n / 10) + [DigitChar(n % 10)]
  }

  /** Printing in decimal and reading the digits back gives the number. */
  lemma {:induction false} ValueOfDecimal(n: nat)
    ensures Value(Decimal(n)) == n
  {
    if n >= 10 {
      var d := Decimal(n);
      assert d[..|d| - 1] == Decimal(n / 10);
      ValueOfDecimal(n / 10);
    }
  }

  /** A number below 1000 prints in at most three digits, one below 10 in one. */
  lemma DecimalLength(n: nat)
    ensures n < 10 ==> |Decimal(n)| == 1
    ensures n < 100 ==> |Decimal(n)| <= 2
    ensures n < 1000 ==> |Decimal(n)| <= 3
  {
    if n >= 10 {
      DecimalLength(n / 10);
    }
  }

  /**
   * The `%d` (and `%ld`) conversion of `sscanf`: leading white space, an
   * optional sign and at least one digit. Gives the value and the unread rest,
   * or None on a matching failure (when the target is left unassigned).
   */
  function ScanInt(s: seq<char>): (r: Option<(int, seq<char>)>)
    ensures r.Some? ==> |r.value.1| < |s| && r.value.1 == s[|s| - |r.value.1|..]
  {
    ScanSigned(SkipSpace(s))
  }

  /** The sign and digits of `%d`, once the white space is skipped. */
  function ScanSigned(t: seq<char>): (r: Option<(int, seq<char>)>)
    ensures r.Some? ==> |r.value.1| < |t| && r.value.1 == t[|t| - |r.value.1|..]
  {
    if t != [] && (t[0] == '-' || t[0] == '+') then
      match ScanDigits(t[1..])
      case None => None
      case Some((v, rest)) => Some((if t[0] == '-' then -v else v, rest))
    else ScanDigits(t)
  }

  /** The longest run of digits at the start of `u`, at least one, and what follows it. */
  function ScanDigits(u: seq<char>): (r: Option<(int, seq<char>)>)
    ensures r.Some? ==> r.value.0 >= 0 && |r.value.1| < |u| && r.value.1 == u[|u| - |r.value.1|..]
  {
    var n := Span(u, IsDigit);
    if n == 0 then None else Some((Value(u[..n]) as int, u[n..]))
  }

  /** Skipping white space in front of text that does not start with white space leaves that text. */
  lemma SkipSpaceOfPrefix(ws: seq<char>, x: seq<char>)
    requires forall i :: 0 <= i < |ws| ==> IsSpace(ws[i])
    requires x == [] || !IsSpace(x[0])
    ensures SkipSpace(ws + x) == x
  {
    SpanOfPrefix(ws, x, IsSpace);
    assert (ws + x)[|ws|..] == x;
  }

  /** The digits of a printed number, followed by a non-digit, are read back with the rest unread. */
  lemma ScanDigitsOfDecimal(n: nat, rest: seq<char>)
    requires rest == [] || !IsDigit(rest[0])
    ensures ScanDigits(Decimal(n) + rest) == Some((n as int, rest))
  {
    var d := Decimal(n);
    SpanOfPrefix(d, rest, IsDigit);
    assert (d + rest)[..|d|] == d;
    assert (d + rest)[|d|..] == rest;
    ValueOfDecimal(n);
  }

  /**
   * A number printed in decimal, after any white space and before anything
   * that is not a digit, is read back by `%d` with exactly that rest unread.
   */
  lemma ScanIntOfDecimal(ws: seq<char>, n: nat, rest: seq<char>)
    requires forall i :: 0 <= i < |ws| ==> IsSpace(ws[i])
    requires rest == [] || !IsDigit(rest[0])
    ensures ScanInt(ws + Decimal(n) + rest) == Some((n as int, rest))
  {
    var d := Decimal(n);
    assert ws + d + rest == ws + (d + rest);
    assert IsDigit((d + rest)[0]);
    SkipSpaceOfPrefix(ws, d + rest);
    assert ScanSigned(d + rest) == ScanDigits(d + rest);
    ScanDigitsOfDecimal(n, rest);
  }
}
