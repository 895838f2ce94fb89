/** Decimal text for integers: `String.valueOf(int/long)`, used by
    `Path.getChild(int)` and `Path.getChild(long)`, and `Integer.parseInt` /
    `Long.parseLong`, used by `PathMatcher.getIntVar` and `getLongVar`.
    Only the ASCII digits `0`-`9` are modelled.
 */
module Decimal {
  import opened Errors

  const INT_MIN: int := -0x8000_0000
  const INT_MAX: int := 0x7fff_ffff
  const LONG_MIN: int := -0x8000_0000_0000_0000
  const LONG_MAX: int := 0x7fff_ffff_ffff_ffff

  predicate IsDigit(c: char) {
    '0' <= c <= '9'
  }

  predicate AllDigits(s: string) {
    forall k :: 0 <= k < |s| ==> IsDigit(s[k])
  }

  function DigitValue(c: char): (d: nat)
    requires IsDigit(c)
    ensures d < 10
  {
    (c as int) - ('0' as int)
  }

  function DigitChar(d: nat): (c: char)
    requires d < 10
    ensures IsDigit(c) && DigitValue(c) == d
  {
    (('0' as int) + d) as char
  }

  /** The value of a run of digits, most significant first. */
  function DigitsValue(s: string): nat
    requires AllDigits(s)
  {
    if |s| == 0 then 0 else DigitsValue(s[..|s| - 1]) * 10 + DigitValue(s[|s| - 1])
  }

  /** Decimal digits of `n` without leading zeros. */
  function NatToString(n: nat): (r: string)
    ensures |r| > 0 && AllDigits(r)
  {
    if n < 10 then [DigitChar(n)] else NatToString(n / 10) + [DigitChar(n % 10)]
  }

  /** `String.valueOf` of an `int` or a `long`. */
  function IntToString(i: int): string {
    if i < 0 then "-" + NatToString(-i) else NatToString(i)
  }

  predicate IsSign(c: char) {
    c == '-' || c == '+'
  }

  /** The text `parseInt` and `parseLong` accept, bounds aside: an optional
      `-` or `+`, then at least one digit. */
  predicate Numeral(s: string) {
    if |s| > 0 && IsSign(s[0]) then |s| > 1 && AllDigits(s[1..])
    else |s| > 0 && AllDigits(s)
  }

  /** The value a numeral denotes: its digits, negated after a `-`. */
  function SignedValue(s: string): int
    requires Numeral(s)
  {
    if s[0] == '-' then 0 - (DigitsValue(s[1..]) as int)
    else if s[0] == '+' then DigitsValue(s[1..])
    else DigitsValue(s)
  }

  /** `Integer.parseInt` (bounds `INT_MIN..INT_MAX`) or `Long.parseLong`
      (bounds `LONG_MIN..LONG_MAX`): an optional sign, then at least one digit,
      and a value inside the bounds; anything else is a `NumberFormatException`. */
  function ParseInteger(s: string, lo: int, hi: int): (r: Result<int>)
    ensures r.Ok? <==> Numeral(s) && lo <= SignedValue(s) <= hi
    ensures r.Ok? ==> r.value == SignedValue(s) && lo <= r.value <= hi
    ensures r.Err? ==> r.error == NumberFormat(s)
    ensures AllDigits(s) && |s| > 0 && lo <= DigitsValue(s) <= hi ==> r == Ok(DigitsValue(s))
  {
    if |s| == 0 then Err(NumberFormat(s))
    else
      var negative := s[0] == '-';
      var digits := if s[0] == '-' || s[0] == '+' then s[1..] else s;
      if |digits| == 0 || !AllDigits(digits) then Err(NumberFormat(s))
      else
        var v: int := if negative then 0 - (DigitsValue(digits) as int) else DigitsValue(digits);
        if lo <= v <= hi then Ok(v) else Err(NumberFormat(s))
  }

  function ParseInt(s: string): Result<int> {
    ParseInteger(s, INT_MIN, INT_MAX)
  }

  function ParseLong(s: string): Result<int> {
    ParseInteger(s, LONG_MIN, LONG_MAX)
  }

  /** Reading back the digits of `n` gives `n`. */
  lemma {:induction false} DigitsOfNat(n: nat)
    ensures DigitsValue(NatToString(n)) == n
  {
    var s := NatToString(n);
    if n >= 10 {
      DigitsOfNat(n / 10);
      assert s[..|s| - 1] == NatToString(n / 10);
    }
  }

  /** Parsing what `String.valueOf` printed gives the number back, for every
      number inside the parser's bounds. */
  lemma ParseIntegerOfIntToString(i: int, lo: int, hi: int)
    requires lo <= i <= hi
    ensures ParseInteger(IntToString(i), lo, hi) == Ok(i)
  {
    var s := IntToString(i);
    if i < 0 {
      DigitsOfNat(-i);
      assert s[1..] == NatToString(-i);
    } else {
      DigitsOfNat(i);
    }
  }

  /** Two numbers print the same only if they are equal. */
  lemma IntToStringInjective(i: int, j: int)
    requires IntToString(i) == IntToString(j)
    ensures i == j
  {
    ParseIntegerOfIntToString(i, i, i);
    ParseIntegerOfIntToString(j, j, j);
    ParseIntegerOfIntToString(i, if i < j then i else j, if i < j then j else i);
    ParseIntegerOfIntToString(j, if i < j then i else j, if i < j then j else i);
  }
  /** Text that is not a numeral is rejected. */
  lemma ParseIntNonNumerals()
    ensures ParseInt("abc").Err? && ParseInt("+").Err? && ParseInt("12x").Err?
  {
    assert !Numeral("abc") by { assert !IsDigit("abc"[0]); }
    assert !Numeral("12x") by { assert !IsDigit("12x"[2]); }
  }

  /** A sign or leading zeros do not change the value. */
  lemma ParseIntSignAndZeros()
    ensures ParseInt("+7") == Ok(7) && ParseInt("007") == Ok(7)
  {
    assert "+7"[1..] == "7";
    assert "007"[..2] == "00" && "00"[..1] == "0" && "0"[..0] == "";
  }

  /** The printed form of a number parses exactly when the number lies inside
      the parser's bounds; outside them it is a `NumberFormatException`. */
  lemma {:induction false} ParseIntegerRange(i: int, lo: int, hi: int)
    ensures ParseInteger(IntToString(i), lo, hi).Ok? <==> lo <= i <= hi
    ensures !(lo <= i <= hi) ==> ParseInteger(IntToString(i), lo, hi) == Err(NumberFormat(IntToString(i)))
  {
    ParseIntegerOfIntToString(i, i, i);
  }
}
