/** Decimal notation of natural numbers. */
module Decimal {
  import opened Rounding

  predicate IsDigit(c: char) { '0' <= c <= '9' }

  predicate AllDigits(s: string) { forall i :: 0 <= i < |s| ==> IsDigit(s[i]) }

  function DigitChar(d: nat): (c: char)
    requires d < 10
    ensures IsDigit(c)
  {
    '0' + d as char
  }

  function DigitValue(c: char): (d: nat)
    requires IsDigit(c)
    ensures d < 10 && DigitChar(d) == c
  {
    (c - '0') as nat
  }

  function ToDecimal(n: nat): (s: string)
    ensures s != "" && AllDigits(s)
    ensures s[0] == '0' <==> n == 0
  {
    if n < 10 then [DigitChar(n)] else ToDecimal(n / 10) + [DigitChar(n % 10)]
  }

  function Parse(s: string): (n: nat)
    requires AllDigits(s)
  {
    if s == "" then 0 else Parse(s[..|s| - 1]) * 10 + DigitValue(s[|s| - 1])
  }

  lemma {:induction false} ParseToDecimal(n: nat)
    ensures Parse(ToDecimal(n)) == n
  {
    if n >= 10 {
      ParseToDecimal(n / 10);
      assert ToDecimal(n)[..|ToDecimal(n)| - 1] == ToDecimal(n / 10);
    } else {
      assert ToDecimal(n)[..0] == "";
      assert Parse(ToDecimal(n)[..0]) == 0;
    }
  }

  /** Digits after digits: the first part is shifted by the length of the second. */
  lemma {:induction false} ParseAppend(a: string, b: string)
    requires AllDigits(a) && AllDigits(b)
    ensures AllDigits(a + b) && Parse(a + b) == Parse(a) * Pow10(|b|) + Parse(b)
  {
    if b == "" {
      assert a + b == a;
    } else {
      var init := b[..|b| - 1];
      assert (a + b)[..|a + b| - 1] == a + init;
      ParseAppend(a, init);
      Shift(Parse(a), Pow10(|init|), Parse(init));
    }
  }

  lemma Shift(x: int, p: int, y: int)
    ensures (x * p + y) * 10 == x * (10 * p) + y * 10
  {
  }

  lemma {:induction false} ParseBelow(s: string)
    requires AllDigits(s)
    ensures Parse(s) < Pow10(|s|)
  {
    if s != "" {
      ParseBelow(s[..|s| - 1]);
    }
  }

  /** Without a leading zero the notation is the only one. */
  lemma {:induction false} ToDecimalParse(s: string)
    requires s != "" && AllDigits(s) && s[0] != '0'
    ensures Parse(s) > 0 && ToDecimal(Parse(s)) == s
  {
    var init, last := s[..|s| - 1], s[|s| - 1];
    if init == "" {
      assert Parse(init) == 0 && s == [last];
    } else {
      ToDecimalParse(init);
      assert s == init + [last];
    }
  }

  /** A number of k digits lies between 10^(k-1) and 10^k. */
  lemma {:induction false} DigitCount(n: nat)
    requires n > 0
    ensures Pow10(|ToDecimal(n)| - 1) <= n < Pow10(|ToDecimal(n)|)
  {
    if n >= 10 {
      DigitCount(n / 10);
    }
  }

  lemma {:induction false} Pow10Monotone(a: nat, b: nat)
    requires a <= b
    ensures Pow10(a) <= Pow10(b)
  {
    if a < b {
      Pow10Monotone(a, b - 1);
    }
  }

  lemma {:induction false} FewDigits(n: nat, k: nat)
    requires k > 0 && n < Pow10(k)
    ensures |ToDecimal(n)| <= k
  {
    if n >= 10 {
      FewDigits(n / 10, k - 1);
    }
  }

  /** The number of digits, from bounds. */
  lemma DigitCountIs(n: nat, k: nat)
    requires k > 0 && Pow10(k - 1) <= n < Pow10(k)
    ensures |ToDecimal(n)| == k
  {
    DigitCount(n);
    var d := |ToDecimal(n)|;
    if d < k {
      Pow10Monotone(d, k - 1);
    } else if d > k {
      Pow10Monotone(k, d - 1);
    }
  }

  /** The first digits are the quotient, the last k the remainder, by 10^k. */
  lemma CutDigits(n: nat, k: nat)
    requires k <= |ToDecimal(n)|
    ensures
      var s := ToDecimal(n);
      && Parse(s[..|s| - k]) == n / Pow10(k) && Parse(s[|s| - k..]) == n % Pow10(k)
  {
    var s := ToDecimal(n);
    var a, b := s[..|s| - k], s[|s| - k..];
    assert s == a + b;
    ParseToDecimal(n);
    ParseAppend(a, b);
    ParseBelow(b);
    DivMod(n, Pow10(k), Parse(a), Parse(b));
  }

  lemma DivMod(n: nat, d: nat, q: nat, r: nat)
    requires d > 0 && r < d && n == q * d + r
    ensures q == n / d && r == n % d
  {
    DifferenceTimes(q, n / d, d);
    MultipleBounds(q - n / d, d);
  }

  lemma DifferenceTimes(a: int, b: int, d: int)
    ensures (a - b) * d == a * d - b * d
  {
  }

  lemma MultipleBounds(k: int, d: int)
    requires d > 0
    ensures k >= 1 ==> k * d >= d
    ensures k <= -1 ==> k * d <= -d
  {
    if k >= 1 {
      assert (k - 1) * d >= 0;
      DifferenceTimes(k, 1, d);
    } else if k <= -1 {
      assert (-1 - k) * d >= 0;
      DifferenceTimes(-1, k, d);
    }
  }

  lemma QuotientBounds(n: nat, d: nat)
    requires d > 0
    ensures 0 <= n / d <= n && 0 <= n % d <= n
  {
    NotNegative(n, d, n / d, n % d);
    PartsBound(n, d, n / d, n % d);
  }

  lemma NotNegative(n: nat, d: nat, q: int, r: nat)
    requires r < d && n == q * d + r
    ensures q >= 0
  {
    if q < 0 {
      MultipleBounds(q, d);
    }
  }

  lemma PartsBound(n: nat, d: nat, q: nat, r: nat)
    requires d > 0 && n == q * d + r
    ensures q <= n && r <= n
  {
    if q > 0 {
      MultipleBounds(d, q);
    }
  }

  /** Zeros to the end are zeros to the end from any later digit on. */
  lemma ZeroTail(n: nat, small: nat, large: nat)
    requires small <= large && n % Pow10(large) == 0
    ensures n % Pow10(small) == 0
  {
    Pow10Add(small, large - small);
    MultipleOfFactor(n, Pow10(large), n / Pow10(large), Pow10(small), Pow10(large - small));
  }

  lemma MultipleOfFactor(n: nat, d: nat, q: nat, p: nat, r: nat)
    requires p > 0 && n == q * d && d == p * r
    ensures n % p == 0
  {
    Regroup(q, p, r);
    DivMod(n, p, q * r, 0);
  }

  lemma Regroup(q: int, p: int, r: int)
    ensures q * (p * r) == q * r * p
  {
  }
}
