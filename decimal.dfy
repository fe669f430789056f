/**
  Unsigned decimal numerals: Rust's `to_string` on a day or month number, and the
  value of a run of ASCII digits as `%d`, `%m` and `%Y` read it.
*/
module Decimal {

  predicate IsDigit(c: char) {
    '0' <= c <= '9'
  }

  predicate IsDigits(s: string) {
    forall i :: 0 <= i < |s| ==> IsDigit(s[i])
  }

  function DigitChar(n: nat): (c: char)
    requires n < 10
    ensures IsDigit(c)
  {
    ('0' as int + n) as char
  }

  function DigitValue(c: char): (n: nat)
    requires IsDigit(c)
    ensures n < 10 && DigitChar(n) == c
  {
    c as int - '0' as int
  }

  /** The number a digit string denotes, most significant digit first. */
  function Value(s: string): nat
    requires IsDigits(s)
  {
    if s == [] then 0 else 10 * Value(s[..|s| - 1]) + DigitValue(s[|s| - 1])
  }

  function Pow10(n: nat): (p: nat)
    ensures p >= 1
  {
    if n == 0 then 1 else 10 * Pow10(n - 1)
  }

  /** A numeral of at most `n` digits is below `10^n`. */
  lemma {:induction false} ValueBelow(s: string, n: nat)
    requires IsDigits(s) && |s| <= n
    ensures Value(s) < Pow10(n)
  {
    if s != [] {
      ValueBelow(s[..|s| - 1], n - 1);
    }
  }

  /** `n.to_string()`: the shortest numeral of `n`, without padding. */
  function ToString(n: nat): (s: string)
    ensures IsDigits(s) && |s| >= 1
    ensures s[0] == '0' ==> s == "0"
    ensures |s| == 1 <==> n < 10
    ensures |s| == 2 <==> 10 <= n < 100
  {
    if n < 10 then [DigitChar(n)] else ToString(n / 10) + [DigitChar(n % 10)]
  }

  /** A numeral reads back as the number it was written from. */
  lemma {:induction false} ValueOfToString(n: nat)
    ensures Value(ToString(n)) == n
  {
    var s := ToString(n);
    if n >= 10 {
      assert s[..|s| - 1] == ToString(n / 10);
      ValueOfToString(n / 10);
    }
  }

  /** A leading zero does not change the value of a numeral. */
  lemma {:induction false} ValueOfPadded(s: string)
    requires IsDigits(s)
    ensures IsDigits("0" + s) && Value("0" + s) == Value(s)
  {
    if s != [] {
      var p := "0" + s;
      assert p[..|p| - 1] == "0" + s[..|s| - 1];
      ValueOfPadded(s[..|s| - 1]);
    }
  }

  /** Two-digit, zero-padded numeral: how a day or month is written in a birthdate cell. */
  function TwoDigits(n: nat): (s: string)
    requires n < 100
    ensures IsDigits(s) && |s| == 2 && Value(s) == n
  {
    ValueOfToString(n);
    if n < 10 then
      ValueOfPadded(ToString(n));
      "0" + ToString(n)
    else
      ToString(n)
  }
}
