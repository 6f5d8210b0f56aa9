/**
 * The text an integer turns into inside a JavaScript template literal
 * (`${n}`) while its magnitude is below 10^21: an optional minus sign and
 * the decimal digits, without leading zeros. From 10^21 on JavaScript
 * switches to exponent notation, which this module does not produce. The
 * loader interpolates numbers twice, in the animation-variant class name
 * and in the width of the progress bar.
 */
module NumberText {
  import opened Wrappers

  function DigitChar(d: nat): (c: char)
    requires d < 10
    ensures '0' <= c <= '9'
  {
    ('0' as int + d) as char
  }

  predicate IsDigit(c: char) {
    '0' <= c <= '9'
  }

  function DigitValue(c: char): (d: nat)
    requires IsDigit(c)
    ensures d < 10
  {
    c as int - '0' as int
  }

  /** The decimal digits of `n`, most significant first. */
  function Digits(n: nat): (s: string)
    ensures |s| >= 1 && IsDigit(s[0])
    ensures |s| > 1 ==> s[0] != '0'
  {
    if n < 10 then [DigitChar(n)] else Digits(n / 10) + [DigitChar(n % 10)]
  }

  /** `${n}` for an integer `n` with |n| < 10^21. */
  function Text(n: int): (s: string)
    ensures |s| >= 1
    ensures s[0] == '-' <==> n < 0
  {
    if n < 0 then "-" + Digits(-n) else Digits(n)
  }

  /** The value of a non-empty string of decimal digits; None for anything else. */
  function DigitsValue(s: string): Option<nat> {
    if s == [] || !IsDigit(s[|s| - 1]) then None
    else if |s| == 1 then Some(DigitValue(s[0]))
    else
      match DigitsValue(s[..|s| - 1])
      case None => None
      case Some(v) => Some(v * 10 + DigitValue(s[|s| - 1]))
  }

  /** Reads back an optionally signed decimal integer; None for anything else. */
  function Parse(s: string): Option<int> {
    if |s| > 1 && s[0] == '-' then
      match DigitsValue(s[1..])
      case None => None
      case Some(v) => Some(0 - v)
    else
      match DigitsValue(s)
      case None => None
      case Some(v) => Some(v)
  }

  lemma {:induction false} DigitsRoundTrip(n: nat)
    ensures DigitsValue(Digits(n)) == Some(n)
  {
    if n >= 10 {
      var s := Digits(n);
      assert s[..|s| - 1] == Digits(n / 10);
      DigitsRoundTrip(n / 10);
    }
  }

  /** Reading the text back gives the number: the formatting loses nothing. */
  lemma TextRoundTrip(n: int)
    ensures Parse(Text(n)) == Some(n)
  {
    var s := Text(n);
    if n < 0 {
      assert s[1..] == Digits(-n);
      DigitsRoundTrip(-n);
    } else {
      DigitsRoundTrip(n);
    }
  }

  /** Distinct numbers have distinct texts. */
  lemma TextInjective(a: int, b: int)
    ensures Text(a) == Text(b) <==> a == b
  {
    TextRoundTrip(a);
    TextRoundTrip(b);
  }
}
