/** Base-10 digit strings: the shared vocabulary of the integer codec and of the fixed-width
    fields of the date pattern. */
module Decimal {

  predicate IsDigit(c: char) {
    '0' <= c <= '9'
  }

  predicate AllDigits(s: string) {
    forall i :: 0 <= i < |s| ==> IsDigit(s[i])
  }

  function DigitChar(d: nat): (c: char)
    requires d < 10
    ensures IsDigit(c)
  {
    (('0' as int) + d) as char
  }

  function DigitValue(c: char): (d: nat)
    requires IsDigit(c)
    ensures d < 10 && DigitChar(d) == c
  {
    (c as int) - ('0' as int)
  }

  function Pow10(n: nat): (p: nat)
    ensures p >= 1
  {
    if n == 0 then 1 else 10 * Pow10(n - 1)
  }

  /** The number a digit string denotes; leading zeros are allowed. */
  function ValueOf(s: string): nat
    requires AllDigits(s)
  {
    if s == [] then 0 else 10 * ValueOf(s[..|s| - 1]) + DigitValue(s[|s| - 1])
  }

  /** The shortest decimal spelling of `n`: no leading zeros, and "0" for zero. */
  function Digits(n: nat): (s: string)
    ensures |s| > 0 && AllDigits(s)
  {
    if n < 10 then [DigitChar(n)] else Digits(n / 10) + [DigitChar(n % 10)]
  }

  /** `n` written with exactly `width` digits, zero-padded on the left. */
  function Fixed(n: nat, width: nat): (s: string)
    requires n < Pow10(width)
    ensures |s| == width && AllDigits(s)
  {
    if width == 0 then "" else Fixed(n / 10, width - 1) + [DigitChar(n % 10)]
  }

  lemma {:induction false} ValueOfDigits(n: nat)
    ensures ValueOf(Digits(n)) == n
  {
    var s := Digits(n);
    if n >= 10 {
      ValueOfDigits(n / 10);
      assert s[..|s| - 1] == Digits(n / 10);
    }
  }

  lemma {:induction false} ValueOfFixed(n: nat, width: nat)
    requires n < Pow10(width)
    ensures ValueOf(Fixed(n, width)) == n
  {
    if width > 0 {
      var s := Fixed(n, width);
      ValueOfFixed(n / 10, width - 1);
      assert s[..|s| - 1] == Fixed(n / 10, width - 1);
    }
  }

  lemma {:induction false} ValueOfBound(s: string)
    requires AllDigits(s)
    ensures ValueOf(s) < Pow10(|s|)
  {
    if s != [] {
      ValueOfBound(s[..|s| - 1]);
    }
  }

  /** A digit string is the fixed-width spelling of its own value. */
  lemma {:induction false} FixedValueOf(s: string)
    requires AllDigits(s)
    ensures ValueOf(s) < Pow10(|s|) && Fixed(ValueOf(s), |s|) == s
  {
    ValueOfBound(s);
    if s != [] {
      var init := s[..|s| - 1];
      FixedValueOf(init);
      var v := ValueOf(s);
      assert v / 10 == ValueOf(init) && v % 10 == DigitValue(s[|s| - 1]);
      assert s == init + [s[|s| - 1]];
    }
  }

  /** A leading zero does not change the value of a digit string. */
  lemma {:induction false} ValueOfLeadingZero(s: string)
    requires AllDigits(s)
    ensures AllDigits("0" + s) && ValueOf("0" + s) == ValueOf(s)
  {
    var z := "0" + s;
    assert AllDigits(z) by {
      forall i | 0 <= i < |z| ensures IsDigit(z[i]) {
        if i > 0 {
          assert z[i] == s[i - 1];
        }
      }
    }
    if s != [] {
      ValueOfLeadingZero(s[..|s| - 1]);
      assert z[..|z| - 1] == "0" + s[..|s| - 1];
    }
  }
}
