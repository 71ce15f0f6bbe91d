/** Decimal text for Java integers: `Long.toString` and `Long.parseLong` over ASCII digits. */
module Decimal {
  import opened Wrappers
  import opened JavaInts

  predicate IsDigit(c: char) {
    '0' <= c <= '9'
  }

  predicate AllDigits(s: string) {
    forall i :: 0 <= i < |s| ==> IsDigit(s[i])
  }

  function DigitChar(d: int): (c: char)
    requires 0 <= d < 10
    ensures IsDigit(c) && c as int - '0' as int == d
  {
    ('0' as int + d) as char
  }

  /** The value of a string of decimal digits, most significant first. */
  function DigitsValue(s: string): nat
    requires AllDigits(s)
  {
    if |s| == 0 then 0
    else 10 * DigitsValue(s[..|s| - 1]) + (s[|s| - 1] as int - '0' as int)
  }

  /** The shortest decimal digits of `n`. */
  function NatToDecimal(n: nat): (s: string)
    ensures |s| > 0 && AllDigits(s)
  {
    if n < 10 then [DigitChar(n)] else NatToDecimal(n / 10) + [DigitChar(n % 10)]
  }

  /** `Long.toString(n)`: a minus sign for negative values, then the digits of the magnitude. */
  function IntToDecimal(n: int): (s: string)
    ensures |s| > 0
  {
    if n < 0 then "-" + NatToDecimal(-n) else NatToDecimal(n)
  }

  /** `Long.parseLong(s)`: an optional sign, at least one digit, and a value that fits in a long. */
  function ParseLong(s: string): (r: Result<int>)
    ensures r.Ok? ==> IsLong(r.value)
    ensures r.Err? ==> r.error == NumberFormatException
  {
    var negative := |s| > 0 && s[0] == '-';
    var digits := if |s| > 0 && (s[0] == '-' || s[0] == '+') then s[1..] else s;
    if |digits| == 0 || !AllDigits(digits) then Err(NumberFormatException)
    else
      var magnitude: int := DigitsValue(digits);
      var v := if negative then -magnitude else magnitude;
      if IsLong(v) then Ok(v) else Err(NumberFormatException)
  }

  lemma {:induction false} DigitsValueOfNat(n: nat)
    ensures DigitsValue(NatToDecimal(n)) == n
  {
    if n >= 10 {
      var s := NatToDecimal(n);
      assert s[..|s| - 1] == NatToDecimal(n / 10);
      DigitsValueOfNat(n / 10);
    }
  }

  /** Parsing inverts printing for every long. */
  lemma ParseLongOfDecimal(n: int)
    requires IsLong(n)
    ensures ParseLong(IntToDecimal(n)) == Ok(n)
  {
    if n < 0 {
      ParseNegative(n);
    } else {
      ParseNonNegative(n);
    }
  }

  lemma ParseNegative(n: int)
    requires IsLong(n) && n < 0
    ensures ParseLong(IntToDecimal(n)) == Ok(n)
  {
    var s := IntToDecimal(n);
    var digits := NatToDecimal(-n);
    assert s == "-" + digits;
    assert s[0] == '-' && s[1..] == digits;
    DigitsValueOfNat(-n);
    assert DigitsValue(s[1..]) == -n;
  }

  lemma ParseNonNegative(n: int)
    requires IsLong(n) && n >= 0
    ensures ParseLong(IntToDecimal(n)) == Ok(n)
  {
    var s := NatToDecimal(n);
    assert IsDigit(s[0]);
    assert s[0] != '-' && s[0] != '+';
    DigitsValueOfNat(n);
  }
}
