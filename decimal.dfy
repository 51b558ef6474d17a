/** Decimal digit strings: Python's f"{i}" for a non-negative int, the
    two-digit zero-padded fields of '%m' and '%d', and reading digits back. */
module Decimal {

  predicate IsDigit(c: char) {
    '0' <= c <= '9'
  }

  predicate AllDigits(s: string) {
    forall i :: 0 <= i < |s| ==> IsDigit(s[i])
  }

  function DigitChar(d: nat): (c: char)
    requires d < 10
    ensures IsDigit(c) && c as int - '0' as int == d
  {
    ('0' as int + d) as char
  }

  function DigitValue(c: char): (d: nat)
    requires IsDigit(c)
    ensures d < 10 && DigitChar(d) == c
  {
    c as int - '0' as int
  }

  function Pow10(k: nat): (p: nat)
    ensures p >= 1
  {
    if k == 0 then 1 else 10 * Pow10(k - 1)
  }

  /** Plain decimal text of n, no leading zeros, no sign: f"{n}". */
  function Digits(n: nat): (s: string)
    ensures |s| >= 1 && AllDigits(s)
    ensures s[0] == '0' ==> n == 0
  {
    if n < 10 then [DigitChar(n)] else Digits(n / 10) + [DigitChar(n % 10)]
  }

  /** The number a string of decimal digits denotes (leading zeros allowed). */
  function Value(s: string): (n: nat)
    requires AllDigits(s)
    ensures n < Pow10(|s|)
  {
    if s == [] then 0 else Value(s[..|s| - 1]) * 10 + DigitValue(s[|s| - 1])
  }

  /** Two-digit zero-padded text of n, as '%m' and '%d' print. */
  function Pad2(n: nat): (s: string)
    requires n < 100
    ensures |s| == 2 && AllDigits(s) && Value(s) == n
  {
    [DigitChar(n / 10), DigitChar(n % 10)]
  }

  lemma {:induction false} ValueOfDigits(n: nat)
    ensures Value(Digits(n)) == n
  {
    if n >= 10 {
      ValueOfDigits(n / 10);
      var s := Digits(n);
      assert s[..|s| - 1] == Digits(n / 10);
    }
  }

  lemma DigitsInjective(a: nat, b: nat)
    requires Digits(a) == Digits(b)
    ensures a == b
  {
    ValueOfDigits(a);
    ValueOfDigits(b);
  }

  /** Digits(n) is at most k characters long exactly when n < 10^k. */
  lemma {:induction false} DigitsLength(n: nat, k: nat)
    requires k >= 1
    ensures |Digits(n)| <= k <==> n < Pow10(k)
  {
    if n >= 10 && k >= 2 {
      DigitsLength(n / 10, k - 1);
    } else if n >= 10 {
      assert |Digits(n)| == |Digits(n / 10)| + 1;
    }
  }

  lemma FourDigitYears(n: nat)
    ensures |Digits(n)| == 4 <==> 1000 <= n <= 9999
  {
    DigitsLength(n, 3);
    DigitsLength(n, 4);
  }

  /** Dropping the last digit twice drops the last two. */
  lemma DropTwoDigits(n: nat)
    ensures n / 10 / 10 == n / 100 && n / 10 % 10 == n % 100 / 10 && n % 10 == n % 100 % 10
  {
    var q, r := n / 100, n % 100;
    assert n == 10 * (10 * q + r / 10) + r % 10;
  }

  /** From 100 on, the text is the hundreds followed by the last two digits. */
  lemma DigitsHundreds(n: nat)
    requires n >= 100
    ensures Digits(n) == Digits(n / 100) + Pad2(n % 100)
  {
    DropTwoDigits(n);
    assert Digits(n / 10) == Digits(n / 100) + [DigitChar(n / 10 % 10)];
  }

  /** A four-digit number is written as two two-digit halves, so concrete
      years can be written out. */
  lemma DigitsOfFourDigitNumber(n: nat)
    requires 1000 <= n <= 9999
    ensures Digits(n) == Pad2(n / 100) + Pad2(n % 100)
  {
    DigitsHundreds(n);
    var h := n / 100;
    assert 10 <= h < 100;
    assert Digits(h) == Digits(h / 10) + [DigitChar(h % 10)];
  }
}
