/** Canonical decimal numerals, as Python's str and int write and read them. */
module Decimal {

  predicate IsDigit(c: char) {
    '0' <= c <= '9'
  }

  function DigitValue(c: char): (d: nat)
    requires IsDigit(c)
    ensures d < 10
  {
    c as int - '0' as int
  }

  function DigitChar(d: nat): (c: char)
    requires d < 10
    ensures IsDigit(c) && DigitValue(c) == d
  {
    (d + '0' as int) as char
  }

  predicate AllDigits(s: string) {
    forall k | 0 <= k < |s| :: IsDigit(s[k])
  }

  function Value(s: string): nat
    requires AllDigits(s)
  {
    if s == "" then 0 else 10 * Value(s[..|s| - 1]) + DigitValue(s[|s| - 1])
  }

  // str(n)
  function Numeral(n: nat): (s: string)
    ensures s != "" && AllDigits(s)
  {
    if n < 10 then [DigitChar(n)] else Numeral(n / 10) + [DigitChar(n % 10)]
  }

  // No sign, no leading zero, at least one digit.
  predicate IsCanonical(s: string) {
    s != "" && AllDigits(s) && (|s| > 1 ==> s[0] != '0')
  }

  lemma {:induction false} NumeralIsCanonical(n: nat)
    ensures IsCanonical(Numeral(n)) && Value(Numeral(n)) == n
    ensures n > 0 ==> Numeral(n)[0] != '0'
  {
    if n >= 10 {
      NumeralIsCanonical(n / 10);
      assert Numeral(n)[..|Numeral(n)| - 1] == Numeral(n / 10);
      assert Numeral(n)[0] == Numeral(n / 10)[0];
    } else {
      assert [DigitChar(n)][..0] == "";
    }
  }

  // The canonical numeral of a value is the only one.
  lemma {:induction false} CanonicalIsNumeral(s: string)
    requires IsCanonical(s)
    ensures s == Numeral(Value(s))
    ensures s[0] != '0' ==> Value(s) > 0
  {
    var front, last := s[..|s| - 1], s[|s| - 1];
    assert s == front + [last];
    if front == "" {
      assert Value(front) == 0;
    } else {
      CanonicalIsNumeral(front);
      assert front[0] == s[0];
      assert Value(s) / 10 == Value(front) && Value(s) % 10 == DigitValue(last);
      assert DigitChar(DigitValue(last)) == last;
    }
  }

  lemma NumeralInjective(m: nat, n: nat)
    requires Numeral(m) == Numeral(n)
    ensures m == n
  {
    NumeralIsCanonical(m);
    NumeralIsCanonical(n);
  }
}
