/**
 * The parts of Go's strconv package the core relies on: `FormatUint(n, 10)`, `FormatInt(n, 10)`
 * and `Atoi`, over decimal digits and Go's 64-bit `int`.
 */
module Strconv {
  import opened Wrappers

  const MinInt64: int := -0x8000_0000_0000_0000
  const MaxInt64: int := 0x7fff_ffff_ffff_ffff

  predicate IsDigit(c: char) {
    '0' <= c <= '9'
  }

  predicate AllDigits(s: string) {
    forall i :: 0 <= i < |s| ==> IsDigit(s[i])
  }

  function DigitChar(d: nat): (c: char)
    requires d < 10
    ensures IsDigit(c) && c as int - '0' as int == d
  {
    ('0' as int + d) as char
  }

  function DigitOf(c: char): (d: nat)
    requires IsDigit(c)
    ensures d < 10
  {
    c as int - '0' as int
  }

  /** The number a string of decimal digits denotes, read most significant digit first. */
  function DigitsValue(s: string): nat
    requires AllDigits(s)
  {
    if s == [] then 0 else DigitsValue(s[..|s| - 1]) * 10 + DigitOf(s[|s| - 1])
  }

  /** `strconv.FormatUint(n, 10)`: decimal digits, no sign, no leading zero except for 0 itself. */
  function FormatUint(n: nat): (s: string)
    ensures |s| >= 1 && AllDigits(s)
    ensures s[0] == '0' <==> n == 0
    ensures n < 10 ==> |s| == 1
  {
    if n < 10 then [DigitChar(n)] else FormatUint(n / 10) + [DigitChar(n % 10)]
  }

  lemma {:induction false} FormatUintValue(n: nat)
    ensures DigitsValue(FormatUint(n)) == n
  {
    if n >= 10 {
      FormatUintValue(n / 10);
      var s := FormatUint(n);
      assert s[..|s| - 1] == FormatUint(n / 10);
    }
  }

  /** `strconv.FormatInt(n, 10)`: a minus sign before the digits of a negative number. */
  function FormatInt(n: int): (s: string)
    ensures |s| >= 1
  {
    if n < 0 then "-" + FormatUint(-n) else FormatUint(n)
  }

  /**
   * `strconv.Atoi`: an optional '+' or '-', then one or more decimal digits (leading zeros allowed,
   * no spaces, no underscores, no base prefix), whose value must fit a 64-bit `int`.
   * Every other string is an error, modelled as `None`.
   */
  function Atoi(s: string): (r: Option<int>)
    ensures r.Some? ==> MinInt64 <= r.value <= MaxInt64
    ensures r.Some? ==> |s| >= 1
  {
    var negative := |s| > 0 && s[0] == '-';
    var digits := Unsigned(s);
    if digits == [] || !AllDigits(digits) then None
    else
      var magnitude: int := DigitsValue(digits);
      var v := if negative then -magnitude else magnitude;
      if MinInt64 <= v <= MaxInt64 then Some(v) else None
  }

  /** Writing an `int` in decimal and reading it back with `Atoi` gives the same `int`. */
  lemma AtoiFormatInt(n: int)
    requires MinInt64 <= n <= MaxInt64
    ensures Atoi(FormatInt(n)) == Some(n)
  {
    var s := FormatInt(n);
    if n < 0 {
      FormatUintValue(-n);
      assert Unsigned(s) == FormatUint(-n) by {
        assert s[1..] == FormatUint(-n);
      }
    } else {
      FormatUintValue(n);
      assert Unsigned(s) == s;
    }
  }

  /** The part of an `Atoi` input after an optional leading sign. */
  function Unsigned(s: string): (body: string)
    ensures |body| == |s| || |body| == |s| - 1
  {
    if |s| > 0 && (s[0] == '-' || s[0] == '+') then s[1..] else s
  }

  /** A string whose unsigned part is empty or holds a non-digit is refused: "", "+", "12a", "- 1". */
  lemma AtoiRefuses(s: string)
    requires Unsigned(s) == [] || !AllDigits(Unsigned(s))
    ensures Atoi(s) == None
  {
  }

  /**
   * A sign and digits (leading zeros allowed, as in "+5" or "-05") parse to the signed value of the
   * digits when it fits 64 bits, and are refused otherwise.
   */
  lemma AtoiSigned(sign: char, digits: string)
    requires sign == '+' || sign == '-'
    requires |digits| >= 1 && AllDigits(digits)
    ensures var v: int := if sign == '-' then -(DigitsValue(digits) as int) else DigitsValue(digits);
      Atoi([sign] + digits) == if MinInt64 <= v <= MaxInt64 then Some(v) else None
  {
    var s := [sign] + digits;
    assert Unsigned(s) == digits by {
      assert s[0] == sign && s[1..] == digits;
    }
    assert (|s| > 0 && s[0] == '-') <==> sign == '-';
  }

  /** `Atoi` accepts a plain digit string exactly when its value fits, and then gives that value. */
  lemma AtoiDigits(s: string)
    requires |s| >= 1 && AllDigits(s)
    ensures Atoi(s) == if DigitsValue(s) <= MaxInt64 then Some(DigitsValue(s)) else None
  {
  }
}
