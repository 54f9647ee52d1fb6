/**
  Decimal digits as Python reads them with `int(...)` and writes them with the
  format specification `02d`.
 */
module Decimal {

  predicate IsDigit(c: char) {
    '0' <= c <= '9'
  }

  predicate AllDigits(s: string) {
    forall i :: 0 <= i < |s| ==> IsDigit(s[i])
  }

  function DigitValue(c: char): (d: nat)
    requires IsDigit(c)
    ensures d < 10
  {
    c as int - '0' as int
  }

  function DigitChar(d: nat): (c: char)
    requires d < 10
    ensures IsDigit(c) && DigitValue(c) == d
  {
    ('0' as int + d) as char
  }

  /** The number that a string of decimal digits denotes, most significant digit first. */
  function DecimalValue(s: string): nat
    requires AllDigits(s)
  {
    if s == [] then 0 else 10 * DecimalValue(s[..|s| - 1]) + DigitValue(s[|s| - 1])
  }

  lemma DecimalValueOfOne(a: char)
    requires IsDigit(a)
    ensures DecimalValue([a]) == DigitValue(a)
  {
    assert [a][..0] == [];
  }

  lemma DecimalValueOfTwo(a: char, b: char)
    requires IsDigit(a) && IsDigit(b)
    ensures DecimalValue([a, b]) == 10 * DigitValue(a) + DigitValue(b)
  {
    assert [a, b][..1] == [a];
    DecimalValueOfOne(a);
  }

  /** The shortest decimal spelling of `n`, as `str(n)`. */
  function DecimalString(n: nat): (s: string)
    ensures 1 <= |s| && AllDigits(s)
    ensures n < 10 <==> |s| == 1
    ensures 10 <= n ==> s[0] != '0'
  {
    if n < 10 then [DigitChar(n)] else DecimalString(n / 10) + [DigitChar(n % 10)]
  }

  lemma {:induction false} DecimalStringRoundTrip(n: nat)
    ensures DecimalValue(DecimalString(n)) == n
  {
    var s := DecimalString(n);
    if n < 10 {
      DecimalValueOfOne(DigitChar(n));
    } else {
      DecimalStringRoundTrip(n / 10);
      assert s[..|s| - 1] == DecimalString(n / 10);
    }
  }

  /** `n` formatted with `02d`: its decimal spelling, left-padded with '0' to two characters. */
  function Pad2(n: nat): (s: string)
    ensures AllDigits(s) && DecimalValue(s) == n
    ensures n < 100 ==> s == [DigitChar(n / 10), DigitChar(n % 10)]
    ensures 100 <= n ==> |s| > 2
  {
    var digits := DecimalString(n);
    DecimalStringRoundTrip(n);
    if |digits| >= 2 then
      assert n < 100 ==> digits == [DigitChar(n / 10), DigitChar(n % 10)] by {
        if n < 100 {
          assert DecimalString(n / 10) == [DigitChar(n / 10)];
        }
      }
      assert 100 <= n ==> |digits| > 2 by {
        if 100 <= n {
          assert |DecimalString(n / 10)| > 1;
        }
      }
      digits
    else
      DecimalValueOfTwo('0', digits[0]);
      assert digits == [DigitChar(n)];
      "0" + digits
  }
}
