/**
 * Python's `int(str)` and `str(int)` as the roster script uses them: the
 * numeric attribute columns are strings that `int()` parses, and the two
 * derived ratings are written back with `str()`.
 *
 * `int()` accepts, after stripping surrounding whitespace, an optional sign
 * followed by decimal digits, with single underscores allowed between digits
 * ("+7", " 70 ", "1_000"). The model covers ASCII whitespace and ASCII digits.
 */
module Numeric {

  predicate IsDigit(c: char) {
    '0' <= c <= '9'
  }

  /**
   * The ASCII whitespace `int()` strips around its digits: space, tab, line
   * feed, vertical tab, form feed and carriage return. The separators
   * U+001C to U+001F, which `str.isspace` also accepts, make `int()` fail.
   */
  predicate IsSpace(c: char) {
    c == ' ' || c == '\t' || c == '\n' || c == '\r' || c == '\U{000B}' || c == '\U{000C}'
  }

  function TrimStart(s: string): string {
    if |s| > 0 && IsSpace(s[0]) then TrimStart(s[1..]) else s
  }

  function TrimEnd(s: string): string {
    if |s| > 0 && IsSpace(s[|s| - 1]) then TrimEnd(s[..|s| - 1]) else s
  }

  function Strip(s: string): string {
    TrimEnd(TrimStart(s))
  }

  /** Drops one leading sign character, if there is one. */
  function Unsigned(t: string): string {
    if |t| > 0 && (t[0] == '-' || t[0] == '+') then t[1..] else t
  }

  /** Decimal digits with single underscores allowed between two digits. */
  predicate IsDigitGroup(s: string) {
    && |s| > 0
    && IsDigit(s[0])
    && IsDigit(s[|s| - 1])
    && (forall i :: 0 <= i < |s| ==> IsDigit(s[i]) || s[i] == '_')
    && (forall i :: 0 <= i < |s| - 1 ==> IsDigit(s[i]) || IsDigit(s[i + 1]))
  }

  /** The strings `int()` converts without raising `ValueError`. */
  predicate IsInt(s: string) {
    IsDigitGroup(Unsigned(Strip(s)))
  }

  /** Value of the digits of `s`, read left to right; underscores are skipped. */
  function DigitsValue(s: string): nat {
    if s == [] then 0
    else
      var c := s[|s| - 1];
      if IsDigit(c) then DigitsValue(s[..|s| - 1]) * 10 + (c as int - '0' as int)
      else DigitsValue(s[..|s| - 1])
  }

  /**
   * `int(s)`. Total, so that contracts can apply it to any string; every
   * operation of the script that calls `int()` requires `IsInt` of its input,
   * so the value on other strings is never used.
   */
  function ParseInt(s: string): int {
    var t := Strip(s);
    var m: int := DigitsValue(Unsigned(t));
    if |t| > 0 && t[0] == '-' then -m else m
  }

  function Digit(k: nat): char
    requires k < 10
  {
    (('0' as int) + k) as char
  }

  function NatToString(n: nat): string {
    if n < 10 then [Digit(n)] else NatToString(n / 10) + [Digit(n % 10)]
  }

  /** `str(n)` for an integer `n`. */
  function IntToString(n: int): string {
    if n < 0 then "-" + NatToString(-n) else NatToString(n)
  }

  /** Only digits, and no leading zero unless the whole string is "0". */
  predicate IsCanonicalDigits(d: string) {
    && |d| > 0
    && (forall i :: 0 <= i < |d| ==> IsDigit(d[i]))
    && (d[0] == '0' ==> |d| == 1)
  }

  /** The strings `str()` prints for an integer: canonical digits, a '-' before non-zero negatives. */
  predicate IsDecimal(s: string) {
    if |s| > 0 && s[0] == '-' then IsCanonicalDigits(s[1..]) && s[1..] != "0"
    else IsCanonicalDigits(s)
  }

  lemma {:induction false} NatToStringCanonical(n: nat)
    ensures IsCanonicalDigits(NatToString(n))
    ensures DigitsValue(NatToString(n)) == n
  {
    if n >= 10 {
      NatToStringCanonical(n / 10);
      var s := NatToString(n);
      assert s[..|s| - 1] == NatToString(n / 10);
    }
  }

  lemma {:induction false} DigitsValueAtLeastFirst(d: string)
    requires |d| > 0 && forall i :: 0 <= i < |d| ==> IsDigit(d[i])
    ensures DigitsValue(d) >= d[0] as int - '0' as int
  {
    if |d| > 1 {
      DigitsValueAtLeastFirst(d[..|d| - 1]);
    }
  }

  lemma {:induction false} CanonicalDigitsRoundTrip(d: string)
    requires IsCanonicalDigits(d)
    ensures NatToString(DigitsValue(d)) == d
  {
    if |d| > 1 {
      var p := d[..|d| - 1];
      assert IsCanonicalDigits(p);
      CanonicalDigitsRoundTrip(p);
      DigitsValueAtLeastFirst(p);
      assert DigitsValue(d) == DigitsValue(p) * 10 + (d[|d| - 1] as int - '0' as int);
      assert d == p + [d[|d| - 1]];
    }
  }

  lemma NoSpaceIsStripped(s: string)
    requires |s| > 0 && !IsSpace(s[0]) && !IsSpace(s[|s| - 1])
    ensures Strip(s) == s
  {
  }

  /**
   * `int(str(n)) == n`, and what `str()` prints is a decimal string that
   * `int()` accepts.
   */
  lemma {:induction false} ParseIntOfIntToString(n: int)
    ensures IsDecimal(IntToString(n))
    ensures IsInt(IntToString(n))
    ensures ParseInt(IntToString(n)) == n
  {
    var m: nat := if n < 0 then -n else n;
    NatToStringCanonical(m);
    var d := NatToString(m);
    var s := IntToString(n);
    assert d[|d| - 1] == s[|s| - 1];
    NoSpaceIsStripped(s);
    if n < 0 {
      assert s[1..] == d;
    }
    assert Unsigned(s) == d;
  }

  /** `str(int(s)) == s` for every decimal string: `str()` and `int()` are inverse on them. */
  lemma {:induction false} IntToStringOfParseInt(s: string)
    requires IsDecimal(s)
    ensures IntToString(ParseInt(s)) == s
  {
    assert !IsSpace(s[0]) && !IsSpace(s[|s| - 1]);
    NoSpaceIsStripped(s);
    if s[0] == '-' {
      var d := s[1..];
      CanonicalDigitsRoundTrip(d);
      assert Unsigned(s) == d;
      DigitsValueAtLeastFirst(d);
      assert DigitsValue(d) > 0;
      assert s == "-" + d;
    } else {
      CanonicalDigitsRoundTrip(s);
    }
  }

  /** `str()` of a multiple of ten below one hundred, e.g. "70". */
  lemma TwoDigitDecimal(d: nat)
    requires 1 <= d < 10
    ensures IntToString(10 * d) == [Digit(d), '0']
  {
    assert NatToString(10 * d) == NatToString(d) + [Digit(0)];
  }

  /**
   * `int()` strips a surrounding space or newline, but rejects a digit string
   * led by the file separator U+001C.
   */
  lemma StripExamples()
    ensures IsInt(" 70\n") && ParseInt(" 70\n") == 70
    ensures !IsInt("\U{001C}70")
  {
    assert Strip(" 70\n") == "70" by {
      assert TrimStart(" 70\n") == "70\n";
      assert TrimEnd("70\n") == "70";
    }
    assert "70"[..1] == "7" && "7"[..0] == "";
    assert DigitsValue("70") == 70;
    assert Strip("\U{001C}70")[0] == '\U{001C}';
  }
}
