/** Rounding quantities and prices to the increment of a symbol. */
module KucoinPrecision {
  import opened Common
  import opened Rounding
  import opened Decimal

  const TOLERANCE := 0.0000000001
  const MAX_PLAIN_DIGITS := 16

  // mantissa / 10^scale
  datatype Increment = Increment(mantissa: nat, scale: nat)

  /** Positive and in lowest terms. */
  predicate IsReduced(i: Increment) {
    i.mantissa > 0 && (i.scale > 0 ==> i.mantissa % 10 != 0)
  }

  function Unit(scale: nat): (u: real)
    ensures u >= 1.0
  {
    Pow10(scale) as real
  }

  function Value(i: Increment): real { i.mantissa as real / Unit(i.scale) }

  /** Below 0.0001, where numbers print in exponent form. */
  predicate IsTiny(i: Increment) { i.scale >= |ToDecimal(i.mantissa)| + 4 }

  /** The characters after the point in the printed increment, 0 without a point: `5.0`, `0.01`, but `1e-05` and
      `1.5e-05`. (Integers too long for the plain form have no digits to lose and count as 0.) */
  function PrintedPlaces(i: Increment): nat {
    var digits := |ToDecimal(i.mantissa)|;
    if i.scale == 0 then if digits <= MAX_PLAIN_DIGITS then 1 else 0
    else if !IsTiny(i) then i.scale
    else if digits == 1 then 0
    else
      var exponent := |ToDecimal(i.scale - digits + 1)|;
      digits - 1 + 2 + if exponent > 2 then exponent else 2
  }

  // increment is None when the configured one is not positive.
  datatype SymbolInfo = SymbolInfo(minSize: real, maxSize: Option<real>, increment: Option<Increment>)

  function Multiple(k: int, v: real): real { k as real * v }

  /** x rounded to the nearest multiple of v. */
  function Snap(x: real, v: real): real
    requires v > 0.0
  {
    Multiple(RoundHalfEven(x / v), v)
  }

  function PositiveValue(i: Increment): (v: real)
    requires i.mantissa > 0
    ensures v > 0.0 && v == Value(i)
  {
    PositiveQuotient(i.mantissa as real, Unit(i.scale));
    Value(i)
  }

  /** The number that the formatted text stands for; an unknown symbol is left alone. */
  function Format(info: Option<SymbolInfo>, x: real): real
    requires info.Some? && info.value.increment.Some? ==> IsReduced(info.value.increment.value)
  {
    if info.None? || info.value.increment.None? then x
    else
      var i := info.value.increment.value;
      RoundTo(Snap(x, PositiveValue(i)), PrintedPlaces(i))
  }

  /** The remainder that the source computes, never negative. */
  function Remainder(x: real, v: real): real
    requires v > 0.0
  {
    x - (x / v).Floor as real * v
  }

  predicate Validate(info: Option<SymbolInfo>, x: real)
    requires info.Some? && info.value.increment.Some? ==> IsReduced(info.value.increment.value)
  {
    info.Some? ==>
      && x >= info.value.minSize
      && (info.value.maxSize.Some? ==> x <= info.value.maxSize.value)
      && (info.value.increment.Some? ==> Remainder(x, PositiveValue(info.value.increment.value)) <= TOLERANCE)
  }

  // ---- Real arithmetic ----

  lemma PositiveQuotient(a: real, b: real)
    requires a > 0.0 && b > 0.0
    ensures a / b > 0.0
  {
    assert a / b * b == a;
    PositiveFactor(a / b, b);
  }

  lemma PositiveFactor(q: real, b: real)
    requires b > 0.0 && q * b > 0.0
    ensures q > 0.0
  {
  }

  lemma QuotientMonotone(x: real, y: real, v: real)
    requires v > 0.0 && x <= y
    ensures x / v <= y / v
  {
    assert x / v * v == x && y / v * v == y;
    LeFromProduct(x / v, y / v, v);
  }

  lemma SameQuotient(a: real, b: real, v: real)
    requires v > 0.0 && a * v == b * v
    ensures a == b
  {
  }

  // ---- Printing is exact unless the increment is tiny ----

  lemma DividesBack(k: int, x: real, u: real)
    requires u >= 1.0 && x * u == k as real
    ensures RoundAtScale(x, u) == x
  {
    RoundFixesIntegers(k);
    var n := x * u;
    assert RoundAtScale(x, u) == RoundHalfEven(n) as real / u;
    var q := k as real / u;
    assert q * u == k as real;
    SameQuotient(q, x, u);
  }

  /** With enough places a multiple of the increment has nothing left after them. */
  lemma ScaledMultiple(k: int, i: Increment, places: nat) returns (n: int)
    requires places >= i.scale
    ensures Multiple(k, Value(i)) * Unit(places) == n as real
  {
    n := k * i.mantissa;
    MultipleTimesUnit(k, i);
    n := MorePlaces(Multiple(k, Value(i)), n, i.scale, places);
  }

  lemma MultipleTimesUnit(k: int, i: Increment)
    ensures Multiple(k, Value(i)) * Unit(i.scale) == (k * i.mantissa) as real
  {
    ValueTimesUnit(i);
    RealProduct(k, i.mantissa);
    Associate(k as real, Value(i), Unit(i.scale));
  }

  lemma {:induction false} MorePlaces(x: real, m: int, scale: nat, places: nat) returns (n: int)
    requires places >= scale && x * Unit(scale) == m as real
    ensures x * Unit(places) == n as real
  {
    n := m;
    if places > scale {
      n := MorePlaces(x, m, scale, places - 1);
      TenTimes(x, Unit(places - 1), n);
      n := 10 * n;
    }
  }

  lemma ValueTimesUnit(i: Increment)
    ensures Value(i) * Unit(i.scale) == i.mantissa as real
  {
  }

  lemma Associate(a: real, b: real, c: real)
    ensures a * b * c == a * (b * c)
  {
  }

  lemma TenTimes(x: real, u: real, n: int)
    requires x * u == n as real
    ensures x * (10.0 * u) == (10 * n) as real
  {
    assert x * (10.0 * u) == 10.0 * (x * u);
  }

  lemma RealProduct(a: int, b: int)
    ensures (a * b) as real == a as real * b as real
  {
  }

  lemma PrintsExactly(k: int, i: Increment)
    requires IsReduced(i) && !IsTiny(i)
    ensures RoundTo(Multiple(k, Value(i)), PrintedPlaces(i)) == Multiple(k, Value(i))
  {
    PrintsWithPlaces(k, i, PrintedPlaces(i));
  }

  lemma PrintsWithPlaces(k: int, i: Increment, places: nat)
    requires places >= i.scale
    ensures RoundTo(Multiple(k, Value(i)), places) == Multiple(k, Value(i))
  {
    var n := ScaledMultiple(k, i, places);
    DividesBack(n, Multiple(k, Value(i)), Unit(places));
  }

  lemma TinyLosesPlaces(i: Increment)
    requires IsReduced(i) && IsTiny(i)
    ensures PrintedPlaces(i) < i.scale
  {
    var digits := |ToDecimal(i.mantissa)|;
    ShortNotation(i.scale - digits + 1);
  }

  lemma {:induction false} ShortNotation(n: nat)
    requires n >= 5
    ensures |ToDecimal(n)| + 2 < n
  {
    if n >= 10 {
      if n / 10 >= 5 {
        ShortNotation(n / 10);
      }
    }
  }

  // ---- The grid ----

  lemma SnapIsNear(x: real, v: real)
    requires v > 0.0
    ensures -v <= 2.0 * (Snap(x, v) - x) <= v
  {
    var q := x / v;
    assert q * v == x;
    NearBy(RoundHalfEven(q) as real, q, v, Snap(x, v), x);
  }

  lemma Halves(v: real)
    ensures 2.0 * (0.5 * v) == v && 2.0 * (-0.5 * v) == -v
  {
  }

  lemma NearBy(n: real, q: real, v: real, nv: real, qv: real)
    requires v > 0.0 && -0.5 <= n - q <= 0.5 && nv == n * v && qv == q * v
    ensures -v <= 2.0 * (nv - qv) <= v
  {
    var d := n - q;
    Distribute(n, q, v);
    assert d * v == nv - qv;
    ProductLe(-0.5, d, v);
    ProductLe(d, 0.5, v);
    Halves(v);
  }

  lemma SnapIsMonotone(x: real, y: real, v: real)
    requires v > 0.0 && x <= y
    ensures Snap(x, v) <= Snap(y, v)
  {
    QuotientMonotone(x, y, v);
    RoundIsMonotone(x / v, y / v);
    MultipleMonotone(RoundHalfEven(x / v), RoundHalfEven(y / v), v);
  }

  lemma MultipleMonotone(a: int, b: int, v: real)
    requires v > 0.0 && a <= b
    ensures Multiple(a, v) <= Multiple(b, v)
  {
  }

  lemma MultipleQuotient(k: int, v: real)
    requires v > 0.0
    ensures Multiple(k, v) / v == k as real
  {
    var q := Multiple(k, v) / v;
    assert q * v == Multiple(k, v);
    SameQuotient(q, k as real, v);
  }

  lemma SnapFixesMultiples(k: int, v: real)
    requires v > 0.0
    ensures Snap(Multiple(k, v), v) == Multiple(k, v)
  {
    MultipleQuotient(k, v);
    RoundFixesIntegers(k);
    assert RoundHalfEven(Multiple(k, v) / v) == k;
  }

  ghost predicate IsMultiple(x: real, v: real) { exists k: int :: x == Multiple(k, v) }

  lemma FormatIsSnap(info: SymbolInfo, i: Increment, x: real)
    requires info.increment == Some(i) && IsReduced(i) && !IsTiny(i)
    ensures Format(Some(info), x) == Snap(x, PositiveValue(i))
  {
    PrintsExactly(RoundHalfEven(x / PositiveValue(i)), i);
  }

  lemma SnapIsSound(x: real, y: real, v: real)
    requires v > 0.0 && x <= y
    ensures IsMultiple(Snap(x, v), v) && -v <= 2.0 * (Snap(x, v) - x) <= v
    ensures Snap(x, v) <= Snap(y, v) && Snap(Snap(x, v), v) == Snap(x, v)
  {
    SnapIsNear(x, v);
    SnapIsMonotone(x, y, v);
    SnapFixesMultiples(RoundHalfEven(x / v), v);
  }

  /** For an increment that is not tiny the formatted number is a multiple of it within half an increment, in the
      order of the inputs, and formatting again changes nothing. */
  lemma FormattingIsSound(info: SymbolInfo, i: Increment, x: real, y: real)
    requires info.increment == Some(i) && IsReduced(i) && !IsTiny(i) && x <= y
    ensures
      var v, formatted := PositiveValue(i), Format(Some(info), x);
      && IsMultiple(formatted, v) && -v <= 2.0 * (formatted - x) <= v
      && formatted <= Format(Some(info), y) && Format(Some(info), formatted) == formatted
  {
    FormatIsSnap(info, i, x);
    FormatIsSnap(info, i, y);
    FormatIsSnap(info, i, Format(Some(info), x));
    SnapIsSound(x, y, PositiveValue(i));
  }

  lemma RemainderOfMultiple(k: int, v: real)
    requires v > 0.0
    ensures Remainder(Multiple(k, v), v) == 0.0
  {
    MultipleQuotient(k, v);
    assert (Multiple(k, v) / v).Floor == k;
  }

  lemma SnapWithin(x: real, low: real, v: real)
    requires v > 0.0 && IsMultiple(low, v)
    ensures low <= x ==> low <= Snap(x, v)
    ensures x <= low ==> Snap(x, v) <= low
  {
    var k: int :| low == Multiple(k, v);
    SnapFixesMultiples(k, v);
    if low <= x {
      SnapIsMonotone(low, x, v);
    }
    if x <= low {
      SnapIsMonotone(x, low, v);
    }
  }

  /** With limits that are multiples of the increment, every quantity within them formats to a valid one. */
  lemma FormattedIsValid(info: SymbolInfo, i: Increment, x: real)
    requires info.increment == Some(i) && IsReduced(i) && !IsTiny(i)
    requires IsMultiple(info.minSize, PositiveValue(i)) && info.minSize <= x
    requires info.maxSize.Some? ==> IsMultiple(info.maxSize.value, PositiveValue(i)) && x <= info.maxSize.value
    ensures Validate(Some(info), Format(Some(info), x))
  {
    var v := PositiveValue(i);
    FormatIsSnap(info, i, x);
    RemainderOfMultiple(RoundHalfEven(x / v), v);
    SnapWithin(x, info.minSize, v);
    if info.maxSize.Some? {
      SnapWithin(x, info.maxSize.value, v);
    }
  }

  ghost predicate JustAbove(x: real, k: int, v: real) { Multiple(k, v) <= x <= Multiple(k, v) + 0.0000000001 }

  lemma FloorIsBest(x: real, v: real, k: int)
    requires v > 0.0 && Multiple(k, v) <= x
    ensures Multiple(k, v) <= x - Remainder(x, v)
  {
    var q := x / v;
    assert q * v == x;
    LeFromProduct(k as real, q, v);
    MultipleMonotone(k, q.Floor, v);
  }

  lemma RemainderIsRest(x: real, v: real)
    requires v > 0.0
    ensures Remainder(x, v) >= 0.0 && x - Remainder(x, v) == Multiple((x / v).Floor, v)
  {
    var q := x / v;
    assert q * v == x;
    ProductLe(q.Floor as real, q, v);
  }

  lemma ProductLe(a: real, b: real, v: real)
    requires v > 0.0 && a <= b
    ensures a * v <= b * v
  {
  }

  /** A quantity within the limits is valid exactly when it is a multiple of the increment or exceeds one by at
      most the tolerance; falling short of one by as little does not do. */
  lemma ValidMeansJustAboveGrid(info: SymbolInfo, i: Increment, x: real)
    requires info.increment == Some(i) && IsReduced(i)
    requires info.minSize <= x && (info.maxSize.Some? ==> x <= info.maxSize.value)
    ensures Validate(Some(info), x) <==> exists k: int :: JustAbove(x, k, PositiveValue(i))
  {
    var v := PositiveValue(i);
    RemainderIsRest(x, v);
    if Validate(Some(info), x) {
      assert JustAbove(x, (x / v).Floor, v);
    }
    forall k: int | JustAbove(x, k, v)
      ensures Validate(Some(info), x)
    {
      FloorIsBest(x, v, k);
    }
  }

  // ---- Tiny increments are not printed in full ----

  lemma PrintedMeansZeroAtEnd(i: Increment, places: nat)
    requires i.mantissa > 0 && places < i.scale && RoundTo(Value(i), places) == Value(i)
    ensures i.mantissa % 10 == 0
  {
    var n := RoundedNumerator(Value(i), Unit(places));
    var p, rest := Pow10(places), Pow10(i.scale - places);
    Pow10Add(places, i.scale - places);
    SameFraction(n, p, i.mantissa, Pow10(i.scale), rest);
    TenDivides(n, Pow10(i.scale - places - 1));
  }

  lemma SameFraction(n: int, p: int, m: int, whole: int, rest: int)
    requires p >= 1 && whole >= 1 && whole == p * rest && n as real / p as real == m as real / whole as real
    ensures m == n * rest
  {
    RealProduct(p, rest);
    RealProduct(n, rest);
    EqualFractions(n as real, p as real, m as real, whole as real, rest as real);
  }

  lemma EqualFractions(n: real, p: real, m: real, whole: real, rest: real)
    requires p >= 1.0 && whole >= 1.0 && whole == p * rest && n / p == m / whole
    ensures n * rest == m
  {
    var q := n / p;
    assert q * p == n;
    assert q * whole == m;
    assert q * (p * rest) == q * p * rest;
  }

  lemma TenDivides(n: int, r: int)
    ensures n * (10 * r) % 10 == 0
  {
    assert n * (10 * r) == 10 * (n * r);
  }

  ghost predicate KeepsMultiple(info: SymbolInfo, i: Increment, k: int)
    requires info.increment == Some(i) && IsReduced(i)
  {
    Format(Some(info), Multiple(k, PositiveValue(i))) == Multiple(k, PositiveValue(i))
  }

  lemma TinyLosesItself(info: SymbolInfo, i: Increment)
    requires info.increment == Some(i) && IsReduced(i) && IsTiny(i)
    ensures !KeepsMultiple(info, i, 1)
  {
    var v := PositiveValue(i);
    TinyLosesPlaces(i);
    SnapFixesMultiples(1, v);
    OneTimes(v);
    if RoundTo(Value(i), PrintedPlaces(i)) == Value(i) {
      PrintedMeansZeroAtEnd(i, PrintedPlaces(i));
    }
  }

  lemma OneTimes(v: real)
    ensures Multiple(1, v) == v
  {
  }

  /** Formatting keeps every multiple of the increment exactly when the increment is not tiny; a tiny increment
      itself is not kept. This affects the configured base increment of BTC-USDT and the default one, 0.00001. */
  lemma FormatKeepsMultiplesIff(info: SymbolInfo, i: Increment)
    requires info.increment == Some(i) && IsReduced(i)
    ensures (forall k: int :: KeepsMultiple(info, i, k)) <==> !IsTiny(i)
    ensures KeepsMultiple(info, i, 1) <==> !IsTiny(i)
  {
    if IsTiny(i) {
      TinyLosesItself(info, i);
    } else {
      forall k: int
        ensures KeepsMultiple(info, i, k)
      {
        FormatIsSnap(info, i, Multiple(k, PositiveValue(i)));
        SnapFixesMultiples(k, PositiveValue(i));
      }
    }
  }

  /** Tiny means below 0.0001. */
  lemma TinyIsBelow(i: Increment)
    requires IsReduced(i)
    ensures IsTiny(i) <==> i.mantissa * 10_000 < Pow10(i.scale)
  {
    var digits := |ToDecimal(i.mantissa)|;
    DigitCount(i.mantissa);
    assert Pow10(4) == 10_000;
    Pow10Add(digits, 4);
    Pow10Add(digits - 1, 4);
    if IsTiny(i) {
      Pow10Monotone(digits + 4, i.scale);
    } else {
      Pow10Monotone(i.scale, digits + 3);
    }
  }

  // ---- What is rejected ----

  /** A quantity outside the limits is invalid; without data on the symbol every quantity is valid and printed as
      it is, and so it is within the limits without a positive increment. */
  lemma LimitsDecide(info: SymbolInfo, x: real)
    requires info.increment.Some? ==> IsReduced(info.increment.value)
    ensures x < info.minSize || (info.maxSize.Some? && x > info.maxSize.value) ==> !Validate(Some(info), x)
    ensures (info.increment.None? && info.minSize <= x && (info.maxSize.Some? ==> x <= info.maxSize.value)) ==>
              Validate(Some(info), x)
    ensures info.increment.None? ==> Format(Some(info), x) == x
    ensures Validate(None, x) && Format(None, x) == x
  {
  }
}
