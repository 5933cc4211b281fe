/**
 * Decimal text and numbers: a model of `parseInt(text, 10)` as the pomodoro
 * input uses it, and the decimal rendering of a non-negative count that the
 * number input displays.
 *
 * The model of `parseInt` is: an optional `+` or `-` sign, then the longest
 * run of decimal digits; no digit at all means failure (JavaScript's `NaN`).
 */
module Numbers {
  import opened Wrappers

  predicate IsDigit(c: char) {
    '0' <= c <= '9'
  }

  predicate AllDigits(s: string) {
    forall i :: 0 <= i < |s| ==> IsDigit(s[i])
  }

  function DigitValue(c: char): (d: nat)
    requires IsDigit(c)
    ensures d < 10
  {
    c as int - '0' as int
  }

  function DigitChar(d: nat): (c: char)
    requires d < 10
    ensures IsDigit(c) && DigitValue(c) == d
  {
    (d + '0' as int) as char
  }

  /** Length of the longest prefix of `s` made of decimal digits. */
  function DigitPrefixLength(s: string): (k: nat)
    ensures k <= |s|
    ensures AllDigits(s[..k])
    ensures k < |s| ==> !IsDigit(s[k])
  {
    if |s| == 0 || !IsDigit(s[0]) then 0
    else
      var k' := DigitPrefixLength(s[1..]);
      assert s[..k' + 1] == [s[0]] + s[1..][..k'];
      k' + 1
  }

  /** The number a string of decimal digits denotes, most significant digit first. */
  function DigitsValue(s: string): (n: nat)
    requires AllDigits(s)
  {
    if |s| == 0 then 0 else DigitsValue(s[..|s| - 1]) * 10 + DigitValue(s[|s| - 1])
  }

  /** 1 when `s` starts with a sign character, 0 otherwise. */
  function SignLength(s: string): (k: nat)
    ensures k <= |s|
  {
    if |s| > 0 && (s[0] == '-' || s[0] == '+') then 1 else 0
  }

  /** `parseInt(s, 10)`: `None` is the `NaN` result. */
  function ParseInt(s: string): (r: Option<int>)
    ensures r.None? <==> DigitPrefixLength(s[SignLength(s)..]) == 0
    ensures r.Some? && r.value < 0 ==> s[0] == '-'
  {
    var rest := s[SignLength(s)..];
    var k := DigitPrefixLength(rest);
    if k == 0 then None
    else
      var magnitude: int := DigitsValue(rest[..k]);
      if |s| > 0 && s[0] == '-' then Some(-magnitude) else Some(magnitude)
  }

  /** The decimal text of `n`, without sign or leading zeros. */
  function Decimal(n: nat): (s: string)
    ensures |s| > 0 && AllDigits(s)
    ensures n > 0 ==> s[0] != '0'
    ensures |s| > 1 ==> s[0] != '0'
  {
    if n < 10 then [DigitChar(n)] else Decimal(n / 10) + [DigitChar(n % 10)]
  }

  /** Reading back the decimal text of `n` gives `n`. */
  lemma {:induction false} DecimalValue(n: nat)
    ensures DigitsValue(Decimal(n)) == n
  {
    var s := Decimal(n);
    if n >= 10 {
      DecimalValue(n / 10);
      assert s[..|s| - 1] == Decimal(n / 10);
    }
  }

  /** A digit run followed by a non-digit (or nothing) is exactly the digit prefix. */
  lemma {:induction false} DigitPrefixOfDigits(d: string, suffix: string)
    requires AllDigits(d)
    requires suffix == [] || !IsDigit(suffix[0])
    ensures DigitPrefixLength(d + suffix) == |d|
  {
    if |d| > 0 {
      assert (d + suffix)[1..] == d[1..] + suffix;
      DigitPrefixOfDigits(d[1..], suffix);
    }
  }

  /**
   * `parseInt` reads a count back from its decimal text, also when the text goes on
   * with something that is not a digit (as in "2.5" or "3e1").
   */
  lemma ParseDecimal(n: nat, suffix: string)
    requires suffix == [] || !IsDigit(suffix[0])
    ensures ParseInt(Decimal(n) + suffix) == Some(n)
  {
    var s := Decimal(n) + suffix;
    assert SignLength(s) == 0 by { assert IsDigit(s[0]); }
    DigitPrefixOfDigits(Decimal(n), suffix);
    assert s[..|Decimal(n)|] == Decimal(n);
    DecimalValue(n);
  }

  /** A leading minus sign negates the value read. */
  lemma ParseNegativeDecimal(n: nat, suffix: string)
    requires suffix == [] || !IsDigit(suffix[0])
    ensures ParseInt("-" + Decimal(n) + suffix) == Some(-(n as int))
  {
    var s := "-" + Decimal(n) + suffix;
    assert s[SignLength(s)..] == Decimal(n) + suffix;
    DigitPrefixOfDigits(Decimal(n), suffix);
    assert (Decimal(n) + suffix)[..|Decimal(n)|] == Decimal(n);
    DecimalValue(n);
  }
}
