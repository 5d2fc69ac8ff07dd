/** Two- and four-character runs of ASCII decimal digits and the numbers they spell. */
module Digits {

  /** The regex class `[0-9]`. */
  predicate IsDigit(c: char) {
    '0' <= c <= '9'
  }

  function DigitValue(c: char): (d: nat)
    requires IsDigit(c)
    ensures d < 10
  {
    (c as int - '0' as int) as nat
  }

  function DigitChar(d: nat): (c: char)
    requires d < 10
    ensures IsDigit(c) && DigitValue(c) == d
  {
    ('0' as int + d) as char
  }

  /** `[0-9]{2}` at position `at`. */
  predicate TwoDigitsAt(s: string, at: nat) {
    at + 2 <= |s| && IsDigit(s[at]) && IsDigit(s[at + 1])
  }

  /** `[0-9]{4}` at position `at`. */
  predicate FourDigitsAt(s: string, at: nat) {
    TwoDigitsAt(s, at) && TwoDigitsAt(s, at + 2)
  }

  /** `int(s[at:at + 2])`. */
  function TwoDigitValue(s: string, at: nat): (n: nat)
    requires TwoDigitsAt(s, at)
    ensures n < 100
  {
    10 * DigitValue(s[at]) + DigitValue(s[at + 1])
  }

  /** `int(s[at:at + 4])`. */
  function FourDigitValue(s: string, at: nat): (n: nat)
    requires FourDigitsAt(s, at)
    ensures n < 10000
  {
    100 * TwoDigitValue(s, at) + TwoDigitValue(s, at + 2)
  }

  /** `'%02d' % n`. */
  function TwoDigits(n: nat): (s: string)
    requires n < 100
    ensures |s| == 2 && TwoDigitsAt(s, 0)
  {
    [DigitChar(n / 10), DigitChar(n % 10)]
  }

  /** `'%04d' % n`. */
  function FourDigits(n: nat): (s: string)
    requires n < 10000
    ensures |s| == 4 && FourDigitsAt(s, 0)
  {
    TwoDigits(n / 100) + TwoDigits(n % 100)
  }

  /** Reading back two digits written at `at` gives the number written. */
  lemma ValueOfTwoDigits(s: string, at: nat, n: nat)
    requires n < 100 && at + 2 <= |s| && s[at..at + 2] == TwoDigits(n)
    ensures TwoDigitsAt(s, at) && TwoDigitValue(s, at) == n
  {
    assert s[at] == TwoDigits(n)[0] && s[at + 1] == TwoDigits(n)[1];
  }

  /** Reading back four digits written at `at` gives the number written. */
  lemma ValueOfFourDigits(s: string, at: nat, n: nat)
    requires n < 10000 && at + 4 <= |s| && s[at..at + 4] == FourDigits(n)
    ensures FourDigitsAt(s, at) && FourDigitValue(s, at) == n
  {
    assert s[at..at + 2] == FourDigits(n)[..2] == TwoDigits(n / 100);
    assert s[at + 2..at + 4] == FourDigits(n)[2..] == TwoDigits(n % 100);
    ValueOfTwoDigits(s, at, n / 100);
    ValueOfTwoDigits(s, at + 2, n % 100);
  }

  /** Writing back the number two digits spell gives those digits. */
  lemma TwoDigitsOfValue(s: string, at: nat)
    requires TwoDigitsAt(s, at)
    ensures TwoDigits(TwoDigitValue(s, at)) == s[at..at + 2]
  {
    var v := TwoDigitValue(s, at);
    assert v / 10 == DigitValue(s[at]) && v % 10 == DigitValue(s[at + 1]);
  }

  /** Writing back the number four digits spell gives those digits. */
  lemma FourDigitsOfValue(s: string, at: nat)
    requires FourDigitsAt(s, at)
    ensures FourDigits(FourDigitValue(s, at)) == s[at..at + 4]
  {
    var hi, lo := TwoDigitValue(s, at), TwoDigitValue(s, at + 2);
    assert (100 * hi + lo) / 100 == hi && (100 * hi + lo) % 100 == lo;
    TwoDigitsOfValue(s, at);
    TwoDigitsOfValue(s, at + 2);
    assert s[at..at + 4] == s[at..at + 2] + s[at + 2..at + 4];
  }
}
