/**
 * Integer numerals as JavaScript's unary `+` reads them, restricted to
 * decimal integer literals, and the decimal numeral of a natural number.
 */
module Numerals {
  import opened Wrappers

  predicate IsDigit(c: char)
  {
    '0' <= c <= '9'
  }

  predicate AllDigits(s: string)
  {
    forall k :: 0 <= k < |s| ==> IsDigit(s[k])
  }

  function DigitValue(c: char): nat
    requires IsDigit(c)
  {
    c as int - '0' as int
  }

  function DigitChar(d: nat): char
    requires d < 10
  {
    ('0' as int + d) as char
  }

  /** The value of a run of decimal digits, most significant digit first. */
  function DigitsValue(ds: string): nat
    requires AllDigits(ds)
    decreases |ds|
  {
    if ds == [] then 0
    else DigitsValue(ds[..|ds| - 1]) * 10 + DigitValue(ds[|ds| - 1])
  }

  /**
   * `+t` on a token: the empty text is 0, an optional '+' or '-' followed by
   * one or more decimal digits is that integer, and anything else is NaN
   * (None). Fractions, exponents, hexadecimal, binary and octal literals,
   * "Infinity" and white space other than the space character around the
   * digits (tabs, line breaks, U+00A0, U+FEFF and the other Unicode spaces),
   * which JavaScript also accepts, are NaN here; a token made only of such
   * white space, which JavaScript reads as 0, is NaN here too.
   */
  function ToNumber(t: string): Option<int>
  {
    if t == [] then Some(0)
    else
      var signed := t[0] == '+' || t[0] == '-';
      var digits := if signed then t[1..] else t;
      if digits != [] && AllDigits(digits) then
        Some(if t[0] == '-' then -(DigitsValue(digits) as int) else DigitsValue(digits) as int)
      else None
  }

  /**
   * What `+` accepts: a non-empty token with a number ends in a digit, has
   * only digits after its first character, and starts with a digit or a
   * sign; a negative number comes only from a leading '-'.
   */
  lemma ToNumberShape(t: string)
    ensures ToNumber(t).Some? && t != [] ==> IsDigit(t[|t| - 1])
    ensures ToNumber(t).Some? ==> forall k :: 0 < k < |t| ==> IsDigit(t[k])
    ensures ToNumber(t).Some? && t != [] ==> IsDigit(t[0]) || t[0] == '+' || t[0] == '-'
    ensures ToNumber(t).Some? && ToNumber(t).value < 0 ==> t != [] && t[0] == '-'
  {
  }

  /** The decimal numeral of n, without leading zeros. */
  function Decimal(n: nat): (r: string)
    ensures |r| >= 1 && AllDigits(r)
    ensures r[0] == '0' ==> n == 0
  {
    if n < 10 then [DigitChar(n)] else Decimal(n / 10) + [DigitChar(n % 10)]
  }

  /** A run of digits holds no space, so it is one space-separated token. */
  lemma NoSpaceInNumeral(ds: string)
    requires AllDigits(ds)
    ensures ' ' !in ds
  {
  }

  /** Reading back the decimal numeral of n gives n. */
  lemma {:induction false} DecimalRoundTrip(n: nat)
    ensures DigitsValue(Decimal(n)) == n
  {
    if n >= 10 {
      DecimalRoundTrip(n / 10);
      var ds := Decimal(n);
      assert ds[..|ds| - 1] == Decimal(n / 10);
    }
  }

  /** `+` reads a run of digits after an optional sign as its value, negated after a '-'. */
  lemma ToNumberSigned(sign: string, ds: string)
    requires sign == "" || sign == "+" || sign == "-"
    requires ds != [] && AllDigits(ds)
    ensures ToNumber(sign + ds) == Some(if sign == "-" then -(DigitsValue(ds) as int) else DigitsValue(ds) as int)
  {
    var t := sign + ds;
    if sign == "" {
      assert t == ds;
    } else {
      assert t[0] == sign[0] && t[1..] == ds;
    }
  }

  /** `+` reads the numeral of n, with or without a sign, as n or -n. */
  lemma ToNumberDecimal(n: nat)
    ensures ToNumber(Decimal(n)) == Some(n)
    ensures ToNumber("+" + Decimal(n)) == Some(n)
    ensures ToNumber("-" + Decimal(n)) == Some(-(n as int))
  {
    DecimalRoundTrip(n);
    var ds := Decimal(n);
    assert ('+' == ds[0] || '-' == ds[0]) == false;
    assert ("+" + ds)[1..] == ds;
    assert ("-" + ds)[1..] == ds;
  }

  /**
   * A token with a character that is neither a digit nor a leading sign is
   * NaN, and so is a lone sign.
   */
  lemma NonNumeralIsNaN(t: string, k: nat)
    requires k < |t| && !IsDigit(t[k])
    requires k > 0 || (t[0] != '+' && t[0] != '-')
    ensures ToNumber(t) == None
  {
  }

  lemma LoneSignIsNaN()
    ensures ToNumber("+") == None && ToNumber("-") == None
  {
  }
}
