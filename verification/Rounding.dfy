/** Python's round on exact arithmetic: to the nearest integer, ties to even. */
module Rounding {

  function RoundHalfEven(x: real): (n: int)
    ensures -0.5 <= n as real - x <= 0.5
  {
    var lower := x.Floor;
    var fraction := x - lower as real;
    if fraction < 0.5 || (fraction == 0.5 && lower % 2 == 0) then lower else lower + 1
  }

  function Pow10(n: nat): (p: int)
    ensures p >= 1
  {
    if n == 0 then 1 else 10 * Pow10(n - 1)
  }

  /** x rounded to a multiple of 1 / scale. */
  function RoundAtScale(x: real, scale: real): real
    requires scale > 0.0
  {
    RoundHalfEven(x * scale) as real / scale
  }

  /** x rounded to the given number of decimal places. */
  function RoundTo(x: real, places: nat): real {
    RoundAtScale(x, Pow10(places) as real)
  }

  lemma RoundedNumerator(x: real, scale: real) returns (n: int)
    requires scale > 0.0
    ensures RoundAtScale(x, scale) == n as real / scale
  {
    n := RoundHalfEven(x * scale);
  }

  lemma RoundIsMonotone(x: real, y: real)
    requires x <= y
    ensures RoundHalfEven(x) <= RoundHalfEven(y)
  {
    if x.Floor < y.Floor && RoundHalfEven(x) > x.Floor {
      assert RoundHalfEven(x) == x.Floor + 1;
    }
  }

  lemma RoundFixesIntegers(n: int)
    ensures RoundHalfEven(n as real) == n
  {
  }

  lemma {:induction false} Pow10Add(a: nat, b: nat)
    ensures Pow10(a + b) == Pow10(a) * Pow10(b)
  {
    if a > 0 {
      Pow10Add(a - 1, b);
    }
  }

  ghost predicate Within(d: real, bound: real) { -bound <= d <= bound }

  /** Rounding moves a number by at most half of the last place. */
  lemma RoundAtScaleIsClose(x: real, scale: real)
    requires scale > 0.0
    ensures Within(RoundAtScale(x, scale) - x, 0.5 / scale)
  {
    var n := RoundHalfEven(x * scale) as real;
    CloseQuotients(n, x * scale, n / scale, x, 0.5 / scale, scale);
  }

  lemma CloseQuotients(n: real, m: real, r: real, x: real, half: real, scale: real)
    requires scale > 0.0 && -0.5 <= n - m <= 0.5
    requires r * scale == n && x * scale == m && half * scale == 0.5
    ensures Within(r - x, half)
  {
    Distribute(r, x, scale);
    Distribute(0.0, half, scale);
    assert 0.0 * scale == 0.0;
    LeFromProduct(r - x, half, scale);
    LeFromProduct(0.0 - half, r - x, scale);
  }

  lemma Distribute(a: real, b: real, p: real)
    ensures (a - b) * p == a * p - b * p
  {
  }

  lemma LeFromProduct(a: real, b: real, p: real)
    requires p > 0.0 && a * p <= b * p
    ensures a <= b
  {
  }
}
