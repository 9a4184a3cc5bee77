/** Decimal numerals: the digit strings that are printed and the integers they denote. */
module Numerals {

  predicate IsDigit(c: char) {
    '0' <= c <= '9'
  }

  predicate AllDigits(s: string) {
    forall i :: 0 <= i < |s| ==> IsDigit(s[i])
  }

  function DigitOf(c: char): (d: nat)
    requires IsDigit(c)
    ensures d < 10
  {
    c as int - '0' as int
  }

  function DigitChar(d: nat): (c: char)
    requires d < 10
    ensures IsDigit(c) && DigitOf(c) == d
  {
    d as char + '0'
  }

  /** `n` times ten to the power `k`: the numeral of `n` followed by `k` zeros. */
  function Shift(n: nat, k: nat): nat {
    if k == 0 then n else 10 * Shift(n, k - 1)
  }

  function Pow10(k: nat): nat {
    Shift(1, k)
  }

  /** The integer a digit string denotes, most significant digit first. */
  function Value(s: string): nat
    requires AllDigits(s)
  {
    if s == [] then 0 else Value(s[..|s| - 1]) * 10 + DigitOf(s[|s| - 1])
  }

  /** What an output stream prints for `n`. */
  function Digits(n: nat): string {
    if n < 10 then [DigitChar(n)] else Digits(n / 10) + [DigitChar(n % 10)]
  }

  /** What an output stream prints for `n` padded on the left with zeros, for `n` of at most `width` digits. */
  function Padded(n: nat, width: nat): string {
    if width == 0 then "" else Padded(n / 10, width - 1) + [DigitChar(n % 10)]
  }

  lemma ValueEmpty()
    ensures Value("") == 0
  {
  }

  lemma ValueAppend(s: string, c: char)
    requires AllDigits(s) && IsDigit(c)
    ensures AllDigits(s + [c])
    ensures Value(s + [c]) == Value(s) * 10 + DigitOf(c)
  {
    assert (s + [c])[..|s|] == s;
  }

  lemma {:induction false} ShiftShift(n: nat, j: nat, k: nat)
    ensures Shift(Shift(n, j), k) == Shift(n, j + k)
  {
    if k > 0 {
      ShiftShift(n, j, k - 1);
    }
  }

  lemma {:induction false} ShiftAdd(m: nat, n: nat, k: nat)
    ensures Shift(m + n, k) == Shift(m, k) + Shift(n, k)
  {
    if k > 0 {
      ShiftAdd(m, n, k - 1);
    }
  }

  lemma {:induction false} ShiftBelow(m: nat, n: nat, k: nat)
    requires m < n
    ensures Shift(m, k) < Shift(n, k)
  {
    if k > 0 {
      ShiftBelow(m, n, k - 1);
    }
  }

  lemma {:induction false} ShiftGrows(n: nat, k: nat)
    ensures n <= Shift(n, k)
  {
    if k > 0 {
      ShiftGrows(n, k - 1);
    }
  }

  lemma {:induction false} ValueConcat(a: string, b: string)
    requires AllDigits(a) && AllDigits(b)
    ensures AllDigits(a + b)
    ensures Value(a + b) == Shift(Value(a), |b|) + Value(b)
  {
    if b == [] {
      assert a + b == a;
    } else {
      var init, last := b[..|b| - 1], b[|b| - 1];
      ValueConcat(a, init);
      assert a + b == (a + init) + [last];
      ValueAppend(a + init, last);
    }
  }

  lemma {:induction false} ValueBound(s: string)
    requires AllDigits(s)
    ensures Value(s) < Pow10(|s|)
  {
    if s != [] {
      ValueBound(s[..|s| - 1]);
    }
  }

  /** Printing and reading an integer are inverse, and the print has no redundant leading zero. */
  lemma {:induction false} DigitsCorrect(n: nat)
    ensures AllDigits(Digits(n)) && Digits(n) != ""
    ensures Value(Digits(n)) == n
    ensures Digits(n)[0] == '0' <==> n == 0
    ensures Digits(n)[0] == '0' ==> |Digits(n)| == 1
  {
    if n >= 10 {
      DigitsCorrect(n / 10);
      ValueAppend(Digits(n / 10), DigitChar(n % 10));
    } else {
      ValueAppend("", DigitChar(n));
      assert Digits(n) == "" + [DigitChar(n)];
    }
  }

  /** A digit string without a redundant leading zero is the print of its value. */
  lemma {:induction false} DigitsUnique(s: string)
    requires AllDigits(s) && s != ""
    requires |s| == 1 || s[0] != '0'
    ensures Digits(Value(s)) == s
  {
    var init := s[..|s| - 1];
    if |s| == 1 {
      assert s == [s[0]];
    } else {
      DigitsUnique(init);
      assert Digits(0) == "0";
      assert s == init + [s[|s| - 1]];
    }
  }

  lemma {:induction false} DigitsLength(n: nat, k: nat)
    requires n < Pow10(k) && k >= 1
    ensures |Digits(n)| <= k
  {
    if n >= 10 {
      DigitsLength(n / 10, k - 1);
    }
  }

  lemma {:induction false} PaddedCorrect(n: nat, width: nat)
    ensures |Padded(n, width)| == width && AllDigits(Padded(n, width))
    ensures n < Pow10(width) ==> Value(Padded(n, width)) == n
  {
    if width > 0 {
      PaddedCorrect(n / 10, width - 1);
      ValueAppend(Padded(n / 10, width - 1), DigitChar(n % 10));
    }
  }

  lemma {:induction false} PaddedUnique(s: string)
    requires AllDigits(s)
    ensures Padded(Value(s), |s|) == s
  {
    if s != [] {
      PaddedUnique(s[..|s| - 1]);
      assert s == s[..|s| - 1] + [s[|s| - 1]];
    }
  }
}
