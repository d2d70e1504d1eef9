/** Splitting entry prices that were run together. */
module EntryPrices {
  import opened Common
  import opened Rounding
  import opened Decimal

  // A fractional price prints with a point, or in an exponent form of less than eight characters.
  datatype Price = Whole(n: int) | Fraction(r: real)

  // The upper-cased coin symbol.
  datatype Coin = BTC | ETH | OtherCoin

  /** The positions tried, in this order, for a text of the given length. */
  function Positions(coin: Coin, length: nat): seq<nat>
    requires length >= 8
  {
    match coin
    case BTC => [4, 5, 6]
    case ETH => [3, 4]
    case OtherCoin => [length / 2 - 1, length / 2, length / 2 + 1]
  }

  predicate Reasonable(coin: Coin, n: nat, p1: nat, p2: nat) {
    match coin
    case BTC => 1000 <= p1 <= 200000 && 1000 <= p2 <= 200000
    case ETH => 100 <= p1 <= 10000 && 100 <= p2 <= 10000
    case OtherCoin => 0 < p1 < n * 10 && 0 < p2 < n * 10
  }

  predicate LongEnough(coin: Coin, length: nat, k: nat) {
    if coin.OtherCoin? then 0 < k < length else length >= 2 * k
  }

  predicate Splits(coin: Coin, n: nat, text: string, k: nat)
    requires AllDigits(text)
  {
    LongEnough(coin, |text|, k) && k <= |text| && Reasonable(coin, n, Parse(text[..k]), Parse(text[k..]))
  }

  /** The first of the positions that splits the text. */
  function FirstSplit(coin: Coin, n: nat, text: string, positions: seq<nat>): (k: Option<nat>)
    requires AllDigits(text)
    ensures k.Some? ==> k.value in positions && Splits(coin, n, text, k.value)
    ensures k.None? ==> forall p :: p in positions ==> !Splits(coin, n, text, p)
  {
    if positions == [] then None
    else if Splits(coin, n, text, positions[0]) then Some(positions[0])
    else FirstSplit(coin, n, text, positions[1..])
  }

  function SplitOf(coin: Coin, n: nat): Option<nat> {
    if |ToDecimal(n)| < 8 then None
    else FirstSplit(coin, n, ToDecimal(n), Positions(coin, |ToDecimal(n)|))
  }

  /** What one price becomes. */
  function Expand(coin: Coin, price: Price): seq<Price> {
    if price.Fraction? || price.n < 0 || SplitOf(coin, price.n).None? then [price]
    else
      var text, k := ToDecimal(price.n), SplitOf(coin, price.n).value;
      [Whole(Parse(text[..k])), Whole(Parse(text[k..]))]
  }

  function Expander(coin: Coin): Price -> seq<Price> { (price: Price) => Expand(coin, price) }

  /** The in-order expansion of a list. */
  function ExpandAll(coin: Coin, prices: seq<Price>): seq<Price> { FlatMap(Expander(coin), prices) }

  /** The search for a split position. */
  method FindSplit(coin: Coin, n: nat, text: string) returns (found: Option<nat>)
    requires AllDigits(text) && |text| >= 8
    ensures found == FirstSplit(coin, n, text, Positions(coin, |text|))
  {
    var positions := Positions(coin, |text|);
    for j := 0 to |positions|
      invariant FirstSplit(coin, n, text, positions) == FirstSplit(coin, n, text, positions[j..])
    {
      if Splits(coin, n, text, positions[j]) {
        return Some(positions[j]);
      }
      assert positions[j..][1..] == positions[j + 1..];
    }
    return None;
  }

  /** One price as it is, or the two it is split into. */
  method FixPrice(price: Price, coin: Coin) returns (parts: seq<Price>)
    ensures parts == Expand(coin, price)
  {
    parts := [price];
    // A minus sign would make the first part negative, which no coin accepts.
    if price.Whole? && price.n >= 0 && |ToDecimal(price.n)| >= 8 {
      var text := ToDecimal(price.n);
      var k := FindSplit(coin, price.n, text);
      if k.Some? {
        parts := [Whole(Parse(text[..k.value])), Whole(Parse(text[k.value..]))];
      }
    }
  }

  method FixMalformedEntryPrices(prices: seq<Price>, coin: Coin) returns (fixed: seq<Price>)
    ensures fixed == ExpandAll(coin, prices)
  {
    fixed := [];
    for i := 0 to |prices|
      invariant fixed == ExpandAll(coin, prices[..i])
    {
      FlatMapNext(Expander(coin), prices, i);
      var parts := FixPrice(prices[i], coin);
      fixed := fixed + parts;
    }
    assert prices[..|prices|] == prices;
  }

  // ---- No digit is lost ----

  lemma SplitPosition(coin: Coin, n: nat)
    requires SplitOf(coin, n).Some?
    ensures
      var text, k := ToDecimal(n), SplitOf(coin, n).value;
      && n > 0 && 0 < k < |text| && 0 < Parse(text[..k]) && 0 < Parse(text[k..])
      && Expand(coin, Whole(n)) == [Whole(Parse(text[..k])), Whole(Parse(text[k..]))]
  {
    var text, k := ToDecimal(n), SplitOf(coin, n).value;
    if coin.OtherCoin? {
      assert k < |text|;
    }
  }

  /** A price that is split at position k is p1 times 10^(digits - k) plus p2, and both parts are positive. */
  lemma SplitLosesNoDigit(coin: Coin, n: nat) returns (k: nat, p1: nat, p2: nat)
    requires SplitOf(coin, n).Some?
    ensures SplitOf(coin, n) == Some(k) && 0 < k < |ToDecimal(n)|
    ensures Expand(coin, Whole(n)) == [Whole(p1), Whole(p2)]
    ensures 0 < p1 && 0 < p2 < Pow10(|ToDecimal(n)| - k)
    ensures n == p1 * Pow10(|ToDecimal(n)| - k) + p2
  {
    SplitPosition(coin, n);
    k := SplitOf(coin, n).value;
    p1, p2 := Recombine(n, k);
  }

  lemma Recombine(n: nat, k: nat) returns (p1: nat, p2: nat)
    requires k <= |ToDecimal(n)|
    ensures p1 == Parse(ToDecimal(n)[..k]) && p2 == Parse(ToDecimal(n)[k..])
    ensures n == p1 * Pow10(|ToDecimal(n)| - k) + p2 && p2 < Pow10(|ToDecimal(n)| - k)
  {
    var text := ToDecimal(n);
    p1, p2 := Parse(text[..k]), Parse(text[k..]);
    ParseToDecimal(n);
    ParseAppend(text[..k], text[k..]);
    ParseBelow(text[k..]);
    assert text == text[..k] + text[k..];
  }

  /** The digits of the two parts run together are the digits of the price exactly when the second part has
      no leading zero. */
  lemma PartsRunTogether(coin: Coin, n: nat)
    requires SplitOf(coin, n).Some?
    ensures
      var text, k := ToDecimal(n), SplitOf(coin, n).value;
      var parts := Expand(coin, Whole(n));
      && 0 < k < |text| && |parts| == 2 && parts[0].Whole? && parts[0].n >= 0 && parts[1].Whole? && parts[1].n >= 0
      && ToDecimal(parts[0].n) == text[..k]
      && (ToDecimal(parts[0].n) + ToDecimal(parts[1].n) == text <==> text[k] != '0')
  {
    SplitPosition(coin, n);
    var text, k := ToDecimal(n), SplitOf(coin, n).value;
    assert text[0] != '0' && text[..k][0] == text[0];
    ToDecimalParse(text[..k]);
    TailNotation(text, k);
  }

  lemma TailNotation(text: string, k: nat)
    requires AllDigits(text) && k < |text| && Parse(text[k..]) > 0
    ensures text[..k] + ToDecimal(Parse(text[k..])) == text <==> text[k] != '0'
  {
    assert text == text[..k] + text[k..];
    var second := ToDecimal(Parse(text[k..]));
    assert (text[..k] + second)[k] == second[0];
    if text[k] != '0' {
      ToDecimalParse(text[k..]);
    }
  }

  predicate Positive(price: Price) { if price.Whole? then price.n > 0 else price.r > 0.0 }

  lemma ExpandKeepsPositivity(coin: Coin, price: Price)
    ensures (forall q :: q in Expand(coin, price) ==> Positive(q)) <==> Positive(price)
  {
    if price.Whole? && price.n >= 0 && SplitOf(coin, price.n).Some? {
      SplitPosition(coin, price.n);
      var parts := Expand(coin, price);
      assert forall q :: q in parts ==> q == parts[0] || q == parts[1];
    } else {
      assert price in Expand(coin, price);
    }
  }

  /** All fixed prices are positive exactly when all given ones are: the price check that follows rejects the
      same signals with and without the fix. */
  lemma FixKeepsPositivity(coin: Coin, prices: seq<Price>)
    ensures (forall p :: p in ExpandAll(coin, prices) ==> Positive(p)) <==> (forall p :: p in prices ==> Positive(p))
  {
    FlatMapMembers(Expander(coin), prices);
    forall p | p in prices
      ensures (forall q :: q in Expander(coin)(p) ==> Positive(q)) <==> Positive(p)
    {
      ExpandKeepsPositivity(coin, p);
    }
  }

  // ---- Which position wins, in arithmetic ----

  function Digits(n: nat): (d: nat)
    ensures d > 0
  {
    |ToDecimal(n)|
  }

  /** The number that the first k digits make. */
  function Head(n: nat, k: nat): nat
    requires k <= Digits(n)
  {
    QuotientBounds(n, Pow10(Digits(n) - k));
    n / Pow10(Digits(n) - k)
  }

  /** The number that the digits from position k on make. */
  function Tail(n: nat, k: nat): nat
    requires k <= Digits(n)
  {
    n % Pow10(Digits(n) - k)
  }

  lemma SplitsInArithmetic(coin: Coin, n: nat, k: nat)
    requires k <= Digits(n)
    ensures Parse(ToDecimal(n)[..k]) == Head(n, k) && Parse(ToDecimal(n)[k..]) == Tail(n, k)
    ensures Splits(coin, n, ToDecimal(n), k) <==>
            LongEnough(coin, Digits(n), k) && Reasonable(coin, n, Head(n, k), Tail(n, k))
  {
    CutDigits(n, Digits(n) - k);
  }

  /** The first k digits make a number of k digits. */
  lemma HeadHasDigits(n: nat, k: nat)
    requires n > 0 && 0 < k <= Digits(n)
    ensures Pow10(k - 1) <= Head(n, k) < Pow10(k)
  {
    var first := ToDecimal(n)[..k];
    assert first[0] == ToDecimal(n)[0];
    ToDecimalParse(first);
    DigitCount(Parse(first));
    SplitsInArithmetic(OtherCoin, n, k);
  }

  lemma LongIsPositive(n: nat)
    requires Digits(n) > 1
    ensures n > 0
  {
    assert n == 0 ==> Digits(n) == 1;
  }

  predicate BtcPrice(p: nat) { 1000 <= p <= 200000 }

  predicate EthPrice(p: nat) { 100 <= p <= 10000 }

  lemma BtcSplits(n: nat, k: nat)
    requires 8 <= Digits(n) && 4 <= k <= 6
    ensures Splits(BTC, n, ToDecimal(n), k) <==>
            Digits(n) >= 2 * k && BtcPrice(Tail(n, k)) && (k == 6 ==> Head(n, 6) <= 200000)
  {
    SplitsInArithmetic(BTC, n, k);
    LongIsPositive(n);
    HeadHasDigits(n, k);
    assert Pow10(3) == 1000 && Pow10(4) == 10_000 && Pow10(5) == 100_000;
  }

  /** A BTC price is split after four digits if the rest is an acceptable price, else after five or six if the
      price has at least twice as many digits and the rest, and after six also the first part, is acceptable. */
  lemma BtcSplit(n: nat)
    ensures SplitOf(BTC, n) ==
            if Digits(n) < 8 then None
            else if BtcPrice(Tail(n, 4)) then Some(4)
            else if Digits(n) >= 10 && BtcPrice(Tail(n, 5)) then Some(5)
            else if Digits(n) >= 12 && Head(n, 6) <= 200000 && BtcPrice(Tail(n, 6)) then Some(6)
            else None
  {
    if Digits(n) >= 8 {
      BtcSplits(n, 4);
      BtcSplits(n, 5);
      BtcSplits(n, 6);
      FirstOfThree(BTC, n, ToDecimal(n), 4, 5, 6);
    }
  }

  lemma EthSplits(n: nat, k: nat)
    requires 8 <= Digits(n) && 3 <= k <= 4
    ensures Splits(ETH, n, ToDecimal(n), k) <==> EthPrice(Tail(n, k))
  {
    SplitsInArithmetic(ETH, n, k);
    LongIsPositive(n);
    HeadHasDigits(n, k);
    assert Pow10(2) == 100 && Pow10(3) == 1000 && Pow10(4) == 10_000;
  }

  /** An ETH price of eight digits or more is split after three digits if the rest is an acceptable price, else
      after four if that rest is. */
  lemma EthSplit(n: nat)
    ensures SplitOf(ETH, n) ==
            if Digits(n) < 8 then None
            else if EthPrice(Tail(n, 3)) then Some(3)
            else if EthPrice(Tail(n, 4)) then Some(4)
            else None
  {
    if Digits(n) >= 8 {
      EthSplits(n, 3);
      EthSplits(n, 4);
      FirstOfTwo(ETH, n, ToDecimal(n), 3, 4);
    }
  }

  /** Two five-digit BTC prices run together are told apart again exactly when the first does not end in 0 or 1:
      otherwise the split after four digits comes first and wins. Of the two documented examples 9057290312
      therefore gives 90572 and 90312, but 9340093800 gives 9340 and 93800. */
  lemma BtcPairIsRestored(a: nat, b: nat)
    requires 10_000 <= a < 100_000 && 10_000 <= b < 100_000
    ensures Expand(BTC, Whole(a * 100_000 + b)) ==
              if a % 10 >= 2 then [Whole(a), Whole(b)] else [Whole(a / 10), Whole(a % 10 * 100_000 + b)]
  {
    var n := a * 100_000 + b;
    TenDigits(n);
    BtcSplit(n);
    SplitsInArithmetic(BTC, n, 4);
    SplitsInArithmetic(BTC, n, 5);
    assert n / 1_000_000 == a / 10 && n % 1_000_000 == a % 10 * 100_000 + b;
    assert n / 100_000 == a && n % 100_000 == b;
  }

  lemma TenDigits(n: nat)
    requires 1_000_000_000 <= n < 10_000_000_000
    ensures Digits(n) == 10 && Pow10(6) == 1_000_000 && Pow10(5) == 100_000
  {
    assert Pow10(5) == 100_000;
    assert Pow10(9) == 1_000_000_000 && Pow10(10) == 10_000_000_000;
    DigitCountIs(n, 10);
  }

  lemma FirstOfTwo(coin: Coin, n: nat, text: string, a: nat, b: nat)
    requires AllDigits(text)
    ensures FirstSplit(coin, n, text, [a, b]) ==
            if Splits(coin, n, text, a) then Some(a) else if Splits(coin, n, text, b) then Some(b) else None
  {
    assert [a, b][1..] == [b] && [b][1..] == [];
    assert FirstSplit(coin, n, text, [b][1..]) == None;
  }

  lemma FirstOfThree(coin: Coin, n: nat, text: string, a: nat, b: nat, c: nat)
    requires AllDigits(text)
    ensures FirstSplit(coin, n, text, [a, b, c]) ==
            if Splits(coin, n, text, a) then Some(a)
            else if Splits(coin, n, text, b) then Some(b)
            else if Splits(coin, n, text, c) then Some(c) else None
  {
    FirstOfTwo(coin, n, text, b, c);
    assert [a, b, c][1..] == [b, c];
  }

  lemma OtherSplits(n: nat, k: nat)
    requires Digits(n) >= 8 && 0 < k < Digits(n)
    ensures Splits(OtherCoin, n, ToDecimal(n), k) <==> Tail(n, k) != 0
  {
    SplitsInArithmetic(OtherCoin, n, k);
    LongIsPositive(n);
    HeadHasDigits(n, k);
    QuotientBounds(n, Pow10(Digits(n) - k));
    OtherReasonable(n, Head(n, k), Tail(n, k));
  }

  lemma OtherReasonable(n: nat, p1: nat, p2: nat)
    requires 0 < p1 <= n && p2 <= n
    ensures Reasonable(OtherCoin, n, p1, p2) <==> p2 != 0
  {
  }

  /** Zeros from position k on are zeros from any later position on. */
  lemma TailStaysZero(n: nat, k: nat, later: nat)
    requires k <= later <= Digits(n) && Tail(n, k) == 0
    ensures Tail(n, later) == 0
  {
    ZeroTail(n, Digits(n) - later, Digits(n) - k);
  }

  /** Any other coin's price of eight digits or more is split one digit before its middle, the other positions
      never being reached, unless everything from there on is zeros. */
  lemma OtherCoinSplit(n: nat)
    ensures
      var middle := Digits(n) / 2 - 1;
      SplitOf(OtherCoin, n) == if Digits(n) >= 8 && Tail(n, middle) != 0 then Some(middle) else None
  {
    if Digits(n) >= 8 {
      var k := Digits(n) / 2 - 1;
      OtherSplits(n, k);
      OtherSplits(n, k + 1);
      OtherSplits(n, k + 2);
      if Tail(n, k) == 0 {
        TailStaysZero(n, k, k + 1);
        TailStaysZero(n, k, k + 2);
      }
      FirstOfThree(OtherCoin, n, ToDecimal(n), k, k + 1, k + 2);
    }
  }

  // ---- Fixing twice ----

  predicate Unsplit(coin: Coin, price: Price) { Expand(coin, price) == [price] }

  lemma SecondFixChangesNothing(coin: Coin, prices: seq<Price>)
    ensures ExpandAll(coin, ExpandAll(coin, prices)) == ExpandAll(coin, prices) <==>
            forall p :: p in ExpandAll(coin, prices) ==> Unsplit(coin, p)
  {
    FlatMapFixed(Expander(coin), ExpandAll(coin, prices));
    assert forall p :: Expander(coin)(p) == Expand(coin, p);
  }

  /** Too short to be split, or all zeros from one digit before the middle on. */
  predicate Stays(n: nat) { Digits(n) < 8 || Tail(n, Digits(n) / 2 - 1) == 0 }

  /** The price stays, or the two numbers it is cut into one digit before the middle do. */
  predicate SplitsOnce(n: nat) {
    Stays(n) || (Stays(Head(n, Digits(n) / 2 - 1)) && Stays(Tail(n, Digits(n) / 2 - 1)))
  }

  lemma UnsplitOther(n: nat)
    ensures Unsplit(OtherCoin, Whole(n)) <==> Stays(n)
  {
    OtherCoinSplit(n);
  }

  lemma PartsOfOther(n: nat)
    requires !Stays(n)
    ensures
      var k := Digits(n) / 2 - 1;
      Expand(OtherCoin, Whole(n)) == [Whole(Head(n, k)), Whole(Tail(n, k))]
  {
    OtherCoinSplit(n);
    SplitsInArithmetic(OtherCoin, n, Digits(n) / 2 - 1);
  }

  lemma OtherPartsUnsplit(n: nat)
    ensures (forall q :: q in Expand(OtherCoin, Whole(n)) ==> Unsplit(OtherCoin, q)) <==> SplitsOnce(n)
  {
    UnsplitOther(n);
    if Stays(n) {
      assert Expand(OtherCoin, Whole(n)) == [Whole(n)];
    } else {
      var k := Digits(n) / 2 - 1;
      PartsOfOther(n);
      UnsplitOther(Head(n, k));
      UnsplitOther(Tail(n, k));
      var parts := Expand(OtherCoin, Whole(n));
      assert parts[0] in parts && parts[1] in parts;
    }
  }

  lemma FewDigitsStay(coin: Coin, n: nat)
    requires n < 10_000_000
    ensures Unsplit(coin, Whole(n)) && Stays(n)
  {
    assert Pow10(7) == 10_000_000;
    FewDigits(n, 7);
  }

  /** The parts of a BTC or ETH price are too short to be split again. */
  lemma MajorPartsUnsplit(coin: Coin, n: nat)
    requires !coin.OtherCoin?
    ensures forall q :: q in Expand(coin, Whole(n)) ==> Unsplit(coin, q)
  {
    if SplitOf(coin, n).Some? {
      SplitPosition(coin, n);
      var parts := Expand(coin, Whole(n));
      FewDigitsStay(coin, parts[0].n);
      FewDigitsStay(coin, parts[1].n);
      assert forall q :: q in parts ==> q == parts[0] || q == parts[1];
    }
  }

  /** What a price must be for its parts not to be split again. */
  predicate FixedOnce(coin: Coin, price: Price) {
    coin.OtherCoin? && price.Whole? && price.n >= 0 ==> SplitsOnce(price.n)
  }

  lemma PartsUnsplit(coin: Coin, price: Price)
    ensures (forall q :: q in Expand(coin, price) ==> Unsplit(coin, q)) <==> FixedOnce(coin, price)
  {
    if price.Whole? && price.n >= 0 {
      if coin.OtherCoin? {
        OtherPartsUnsplit(price.n);
      } else {
        MajorPartsUnsplit(coin, price.n);
      }
    }
  }

  /** For any list: a second fix changes nothing always for BTC and ETH, and for another coin exactly when every
      whole price either stays or is cut into two numbers that stay. */
  lemma FixIsIdempotentIff(coin: Coin, prices: seq<Price>)
    ensures ExpandAll(coin, ExpandAll(coin, prices)) == ExpandAll(coin, prices) <==>
            forall p :: p in prices ==> FixedOnce(coin, p)
  {
    SecondFixChangesNothing(coin, prices);
    FlatMapMembers(Expander(coin), prices);
    forall p | p in prices
      ensures (forall q :: q in Expander(coin)(p) ==> Unsplit(coin, q)) <==> FixedOnce(coin, p)
    {
      PartsUnsplit(coin, p);
    }
  }

  lemma CutBelow(n: nat, k: nat, limit: nat)
    requires k <= Digits(n) && n > 0 && 0 < k <= limit && Digits(n) - k <= limit
    ensures Head(n, k) < Pow10(limit) && Tail(n, k) < Pow10(limit)
  {
    HeadHasDigits(n, k);
    Pow10Monotone(k, limit);
    Pow10Monotone(Digits(n) - k, limit);
  }

  lemma TwelveDigitsSplitOnce(n: nat)
    requires n < 1_000_000_000_000
    ensures SplitsOnce(n)
  {
    if Digits(n) >= 8 {
      assert Pow10(12) == 1_000_000_000_000 && Pow10(7) == 10_000_000;
      FewDigits(n, 12);
      LongIsPositive(n);
      var k := Digits(n) / 2 - 1;
      CutBelow(n, k, 7);
      FewDigitsStay(OtherCoin, Head(n, k));
      FewDigitsStay(OtherCoin, Tail(n, k));
    }
  }

  /** The fix is idempotent for BTC and ETH, and for other coins on whole prices of at most twelve digits. */
  lemma FixIsIdempotent(coin: Coin, prices: seq<Price>)
    requires coin.OtherCoin? ==> forall p :: p in prices && p.Whole? ==> p.n < 1_000_000_000_000
    ensures ExpandAll(coin, ExpandAll(coin, prices)) == ExpandAll(coin, prices)
  {
    forall p | p in prices
      ensures FixedOnce(coin, p)
    {
      if coin.OtherCoin? && p.Whole? && p.n >= 0 {
        TwelveDigitsSplitOnce(p.n);
      }
    }
    FixIsIdempotentIff(coin, prices);
  }

  /** Twelve digits are the limit: a thirteen-digit price of another coin is fixed once and for all exactly when
      the last eight digits have a leading zero or the last five are zeros. */
  lemma ThirteenDigits(n: nat)
    requires 1_000_000_000_000 <= n < 10_000_000_000_000
    ensures ExpandAll(OtherCoin, ExpandAll(OtherCoin, [Whole(n)])) == ExpandAll(OtherCoin, [Whole(n)]) <==>
            n % 100_000_000 < 10_000_000 || n % 100_000 == 0
  {
    FixIsIdempotentIff(OtherCoin, [Whole(n)]);
    assert Whole(n) in [Whole(n)];
    ThirteenDigitsSplitOnce(n);
  }

  lemma ThirteenDigitsCut(n: nat)
    requires 1_000_000_000_000 <= n < 10_000_000_000_000
    ensures Digits(n) == 13 && Head(n, 5) == n / 100_000_000 && Tail(n, 5) == n % 100_000_000
  {
    assert Pow10(12) == 1_000_000_000_000 && Pow10(13) == 10_000_000_000_000;
    DigitCountIs(n, 13);
    assert Pow10(8) == 100_000_000;
  }

  lemma ThirteenDigitsSplitOnce(n: nat)
    requires 1_000_000_000_000 <= n < 10_000_000_000_000
    ensures SplitsOnce(n) <==> n % 100_000_000 < 10_000_000 || n % 100_000 == 0
  {
    ThirteenDigitsCut(n);
    FewDigitsStay(OtherCoin, n / 100_000_000);
    EightDigitsStay(n % 100_000_000);
    LowDigits(n);
  }

  lemma EightDigitsStay(low: nat)
    requires low < 100_000_000
    ensures Stays(low) <==> low < 10_000_000 || low % 100_000 == 0
  {
    assert Pow10(7) == 10_000_000 && Pow10(8) == 100_000_000 && Pow10(5) == 100_000;
    if low < 10_000_000 {
      FewDigitsStay(OtherCoin, low);
    } else {
      DigitCountIs(low, 8);
    }
  }

  lemma LowDigits(n: nat)
    ensures n % 100_000_000 % 100_000 == n % 100_000
  {
  }
}
