/** Decimal text of integers: Long.toString, string concatenation of an int, and Long.parseLong. */
module Numerals {
  import opened Wrappers

  const LONG_MIN: int := -0x8000_0000_0000_0000
  const LONG_MAX: int := 0x7FFF_FFFF_FFFF_FFFF

  predicate IsDigit(c: char) { '0' <= c <= '9' }

  predicate AllDigits(s: string) { forall i :: 0 <= i < |s| ==> IsDigit(s[i]) }

  function DigitChar(d: nat): (c: char)
    requires d < 10
    ensures IsDigit(c) && c as int - '0' as int == d
  {
    ('0' as int + d) as char
  }

  /** The decimal digits of n, most significant first, with no leading zero ("0" for zero). */
  function Digits(n: nat): (s: string)
    ensures |s| > 0 && AllDigits(s)
    decreases n
  {
    if n < 10 then [DigitChar(n)] else Digits(n / 10) + [DigitChar(n % 10)]
  }

  /** The value of a string of decimal digits. */
  function DigitsValue(s: string): nat
    requires AllDigits(s)
  {
    if s == [] then 0 else DigitsValue(s[..|s| - 1]) * 10 + (s[|s| - 1] as int - '0' as int)
  }

  /** Java's decimal rendering of an integer: a minus sign for negatives, then the digits. */
  function ShowInt(n: int): string {
    if n < 0 then "-" + Digits(-n) else Digits(n)
  }

  /** Java's integer division for a positive divisor: the quotient is rounded toward zero, where
      Dafny's rounds toward negative infinity. */
  function TruncDiv(a: int, b: int): int
    requires b > 0
  {
    if a >= 0 then a / b else -((-a) / b)
  }

  /** Long.parseLong over ASCII digits: an optional sign, at least one digit, and a value
      within the 64-bit range; anything else is a NumberFormatException (None). */
  function ParseLong(s: string): (r: Option<int>)
    ensures r.Some? ==> LONG_MIN <= r.value <= LONG_MAX
  {
    if s == [] then None
    else
      var body := if s[0] == '-' || s[0] == '+' then s[1..] else s;
      if body == [] || !AllDigits(body) then None
      else
        var magnitude: int := DigitsValue(body);
        var v := if s[0] == '-' then -magnitude else magnitude;
        if LONG_MIN <= v <= LONG_MAX then Some(v) else None
  }

  lemma {:induction false} DigitsValueOfDigits(n: nat)
    ensures DigitsValue(Digits(n)) == n
    decreases n
  {
    if n >= 10 {
      var s := Digits(n);
      assert s[..|s| - 1] == Digits(n / 10);
      DigitsValueOfDigits(n / 10);
    }
  }

  /** Parsing the rendering of any 64-bit value gives the value back. */
  lemma ParseShowRoundTrip(n: int)
    requires LONG_MIN <= n <= LONG_MAX
    ensures ParseLong(ShowInt(n)) == Some(n)
  {
    var m: nat := if n < 0 then -n else n;
    var d := Digits(m);
    DigitsValueOfDigits(m);
    assert IsDigit(d[0]);
    if n < 0 {
      var s := "-" + d;
      assert s[0] == '-' && s[1..] == d;
    } else {
      assert d[0] != '-' && d[0] != '+';
    }
  }

  /** A rendering is never empty and holds no character other than digits and a leading '-'. */
  lemma ShowIntChars(n: int)
    ensures |ShowInt(n)| > 0
    ensures forall i :: 0 <= i < |ShowInt(n)| ==> IsDigit(ShowInt(n)[i]) || (i == 0 && ShowInt(n)[i] == '-')
  {
    if n < 0 {
      var s := ShowInt(n);
      assert s[1..] == Digits(-n);
      forall i | 1 <= i < |s| ensures IsDigit(s[i]) { assert s[i] == s[1..][i - 1]; }
    }
  }
}
