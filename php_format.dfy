/**
 * The `%d` conversion of PHP's `sprintf`: an integer written in base ten,
 * with a leading minus sign when it is negative and no leading zeros.
 * `ParseInt` reads such a numeral back; it is the partner that shows the
 * conversion loses nothing.
 */
module PhpFormat {

  import opened Wrappers

  predicate IsDigit(c: char) {
    '0' <= c <= '9'
  }

  function DigitChar(d: nat): (c: char)
    requires d < 10
    ensures IsDigit(c) && DigitValue(c) == d
  {
    ['0', '1', '2', '3', '4', '5', '6', '7', '8', '9'][d]
  }

  function DigitValue(c: char): nat
    requires IsDigit(c)
  {
    (c as int) - ('0' as int)
  }

  ghost predicate AllDigits(s: string) {
    forall k :: 0 <= k < |s| ==> IsDigit(s[k])
  }

  /** The base-ten numeral of a natural number, most significant digit first. */
  function NatToDecimal(n: nat): (s: string)
    ensures |s| > 0 && IsDigit(s[0])
    ensures s[0] == '0' <==> n == 0
    ensures n == 0 ==> s == "0"
    decreases n
  {
    if n < 10 then [DigitChar(n)]
    else NatToDecimal(n / 10) + [DigitChar(n % 10)]
  }

  /** A numeral is made of digits only. */
  lemma {:induction false} NatToDecimalDigits(n: nat)
    ensures AllDigits(NatToDecimal(n))
    decreases n
  {
    if n >= 10 {
      NatToDecimalDigits(n / 10);
    }
  }

  /** `sprintf('%d', n)`. */
  function FormatInt(n: int): (s: string)
    ensures |s| > 0
    ensures s[0] == '-' <==> n < 0
    ensures n < 0 ==> |s| > 1 && s[1] != '0'
    ensures n >= 0 ==> (s[0] == '0' <==> n == 0)
    ensures n == 0 ==> s == "0"
  {
    if n < 0 then
      var digits := NatToDecimal(-n);
      assert ("-" + digits)[1] == digits[0];
      "-" + digits
    else NatToDecimal(n)
  }

  /** `%d` writes digits only, after the minus sign of a negative number. */
  lemma FormatIntDigits(n: int)
    ensures var s := FormatInt(n); AllDigits(if n < 0 then s[1..] else s)
  {
    if n < 0 {
      var m: nat := -n;
      var digits := NatToDecimal(m);
      NatToDecimalDigits(m);
      assert FormatInt(n) == "-" + digits;
      assert FormatInt(n)[1..] == digits;
    } else {
      NatToDecimalDigits(n);
    }
  }

  /** The value of a non-empty string of digits. */
  function ParseNat(s: string): Option<nat>
  {
    if s == [] || !IsDigit(s[|s| - 1]) then None
    else if |s| == 1 then Some(DigitValue(s[0]))
    else match ParseNat(s[..|s| - 1])
      case None => None
      case Some(m) => Some(10 * m + DigitValue(s[|s| - 1]))
  }

  /** The value of an optional minus sign followed by digits. */
  function ParseInt(s: string): Option<int>
  {
    if |s| > 0 && s[0] == '-' then
      match ParseNat(s[1..])
      case None => None
      case Some(m) => Some(-(m as int))
    else
      match ParseNat(s)
      case None => None
      case Some(m) => Some(m)
  }

  lemma {:induction false} ParseNatDecimal(n: nat)
    ensures ParseNat(NatToDecimal(n)) == Some(n)
    decreases n
  {
    if n >= 10 {
      var s := NatToDecimal(n);
      assert s[..|s| - 1] == NatToDecimal(n / 10);
      ParseNatDecimal(n / 10);
    }
  }

  /** Reading back what `%d` wrote gives the number that was written. */
  lemma ParseFormatInt(n: int)
    ensures ParseInt(FormatInt(n)) == Some(n)
  {
    if n < 0 {
      ParseFormatNegative(n);
    } else {
      ParseFormatNonNegative(n);
    }
  }

  lemma ParseFormatNegative(n: int)
    requires n < 0
    ensures ParseInt(FormatInt(n)) == Some(n)
  {
    var m: nat := -n;
    var digits := NatToDecimal(m);
    assert FormatInt(n) == "-" + digits;
    ParseNatDecimal(m);
    ParseSigned(digits, m);
  }

  lemma ParseFormatNonNegative(n: int)
    requires n >= 0
    ensures ParseInt(FormatInt(n)) == Some(n)
  {
    ParseNatDecimal(n);
    ParseUnsigned(NatToDecimal(n), n);
  }

  /** A minus sign in front of digits negates their value. */
  lemma ParseSigned(digits: string, m: nat)
    requires ParseNat(digits) == Some(m)
    ensures ParseInt("-" + digits) == Some(-(m as int))
  {
    var s := "-" + digits;
    assert s[0] == '-' && s[1..] == digits;
  }

  /** Digits with no sign in front are read as they are. */
  lemma ParseUnsigned(digits: string, m: nat)
    requires ParseNat(digits) == Some(m)
    requires |digits| > 0 && IsDigit(digits[0])
    ensures ParseInt(digits) == Some(m)
  {
  }

  /** Two different numbers are never written the same way. */
  lemma FormatIntInjective(a: int, b: int)
    requires FormatInt(a) == FormatInt(b)
    ensures a == b
  {
    ParseFormatInt(a);
    ParseFormatInt(b);
  }
}
