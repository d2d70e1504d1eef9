/** Realized PnL of one trade computed from raw exchange fills. */
module FillPnl {
  import opened Common
  import opened Fields
  import opened Rounding

  // closedAt is None when the column is empty; times are milliseconds, 0 when unreadable.
  datatype Trade = Trade(
    id: int, onKucoin: bool, isClosed: bool, createdMs: int, closedAt: Option<int>, updatedMs: int,
    symbol: string, kind: Kind, positionSize: Field, orderId: string,
    pnlUsd: Field, netPnl: Field, entryPrice: Field, exitPrice: Field)

  // The upper-cased side column, or the liquidity column when the side is empty.
  datatype Side = Buy | Sell | Maker | Taker | OtherSide

  datatype Fill = Fill(
    tradeId: string, id: string, orderId: string, orderIdAlt: string, side: Side, reduceOnly: bool,
    size: Field, qty: Field, price: Field, fee: Field, commission: Field,
    realizedPnl: Field, realisedPnl: Field, pnl: Field)

  // What an update rests on: a position-history record with this close id, or a set of fills.
  datatype Basis = PositionRecord(closeId: string) | FillSet

  datatype Update = Update(pnl: real, entryPrice: Option<real>, exitPrice: Option<real>, basis: Basis)

  // Raised is an exception that leaves the function.
  datatype Outcome = NoUpdate | Emit(update: Update) | Raised

  // ---- Which fills belong to the trade ----

  datatype Role = Entry | Exit | Unrelated

  /** The id a used exit fill is remembered by. */
  function MarkId(f: Fill): string { OrText(f.tradeId, f.id) }

  /** The id a fill is looked up by in the used set. */
  function LookupId(f: Fill): string { OrText(MarkId(f), f.orderId) }

  function RoleOf(kind: Kind, orderId: string, f: Fill): Role {
    var entrySide := if kind.Long? then Buy else Sell;
    var exitSide := if kind.Long? then Sell else Buy;
    if orderId != "" && OrText(f.orderId, f.orderIdAlt) == orderId then
      if f.side == entrySide || f.side.Maker? || f.side.Taker? then Entry
      else if f.side == exitSide then Exit
      else Unrelated
    else if f.side == entrySide then Entry
    else if f.side == exitSide || f.reduceOnly then Exit
    else Unrelated
  }

  function Plays(role: Role, kind: Kind, orderId: string, used: set<string>): Fill -> bool {
    (f: Fill) => !(LookupId(f) != "" && LookupId(f) in used) && RoleOf(kind, orderId, f) == role
  }

  function FillsIn(role: Role, t: Trade, used: set<string>, fills: seq<Fill>): seq<Fill> {
    Filter(Plays(role, t.kind, t.orderId, used), fills)
  }

  // ---- What one fill adds to the totals; a fill with an unreadable number is skipped from there on ----

  function Quantity(f: Fill): Option<real> { ToFloat(Or(Or(f.size, f.qty), ZERO)) }

  function Price(f: Fill): Option<real> { ToFloat(Or(f.price, ZERO)) }

  function Fee(f: Fill): Option<real> { ToFloat(Or(Or(f.fee, f.commission), ZERO)) }

  function Reported(f: Fill): Field { Or(Or(f.realizedPnl, f.realisedPnl), f.pnl) }

  predicate EntryReadable(f: Fill) { Quantity(f).Some? && Price(f).Some? && Fee(f).Some? }

  predicate ExitReadable(f: Fill) {
    if Reported(f).Missing? then Quantity(f).Some? && Price(f).Some? else ToFloat(Reported(f)).Some?
  }

  function EntryQty(f: Fill): real { if EntryReadable(f) then Quantity(f).value else 0.0 }

  function EntryValue(f: Fill): real { if EntryReadable(f) then Quantity(f).value * Price(f).value else 0.0 }

  function EntryFee(f: Fill): real { if EntryReadable(f) then Fee(f).value else 0.0 }

  function ExitReported(f: Fill): real {
    if !Reported(f).Missing? && ExitReadable(f) then ToFloat(Reported(f)).value else 0.0
  }

  function ExitQty(f: Fill): real {
    if Reported(f).Missing? && ExitReadable(f) then Quantity(f).value else 0.0
  }

  function ExitValue(f: Fill): real {
    if Reported(f).Missing? && ExitReadable(f) then Quantity(f).value * Price(f).value else 0.0
  }

  function ExitFee(f: Fill): real { if ExitReadable(f) && Fee(f).Some? then Fee(f).value else 0.0 }

  // ---- PnL of the whole trade ----

  datatype Totals = Totals(entryValue: real, entryQty: real, entryFee: real,
                           reported: real, exitValue: real, exitQty: real, exitFee: real)

  function TotalsOf(entries: seq<Fill>, exits: seq<Fill>): Totals {
    Totals(SumBy(EntryValue, entries), SumBy(EntryQty, entries), SumBy(EntryFee, entries),
           SumBy(ExitReported, exits), SumBy(ExitValue, exits), SumBy(ExitQty, exits), SumBy(ExitFee, exits))
  }

  /** The PnL the exit fills report or, when that sums to zero, the difference of the two values. */
  function Gross(kind: Kind, totals: Totals): real {
    if totals.reported == 0.0 && totals.entryValue > 0.0 && totals.exitValue > 0.0 then
      if kind.Long? then totals.exitValue - totals.entryValue else totals.entryValue - totals.exitValue
    else totals.reported
  }

  function Fees(totals: Totals): real { totals.entryFee + totals.exitFee }

  function Net(kind: Kind, totals: Totals): real { Gross(kind, totals) - Fees(totals) }

  function Average(value: real, qty: real): Option<real> {
    if qty > 0.0 then Some(value / qty) else None
  }

  /** The exit price reported by the update: the fills' average, or the stored price when that is missing or 0. */
  function ExitPriceOr(average: Option<real>, stored: Field): Option<real> {
    if average.Some? && average.value != 0.0 then average
    else if Truthy(stored) && ToFloat(stored).Some? then ToFloat(stored)
    else average
  }

  // ---- When a stored PnL is replaced ----

  function StoredPnl(t: Trade): Option<real> { ToFloat(Or(Or(t.pnlUsd, t.netPnl), ZERO)) }

  /** The stored value is off by more than a cent, and is zero or off by more than 0.10 and 5 percent. */
  predicate Mismatch(stored: real, computed: real) {
    var diff := AbsReal(stored - computed);
    var share := if computed != 0.0 then AbsReal(diff / computed) else 1.0;
    diff > 0.01 && !(stored != 0.0 && (diff <= 0.10 || share <= 0.05))
  }

  function ApplyUpdate(t: Trade, u: Update, now: int): Trade {
    t.(pnlUsd := Number(u.pnl), netPnl := Number(u.pnl), updatedMs := now,
       entryPrice := if u.entryPrice.Some? then Number(u.entryPrice.value) else t.entryPrice,
       exitPrice := if u.exitPrice.Some? then Number(u.exitPrice.value) else t.exitPrice)
  }

  // ---- The fills-based calculation ----

  // computed is the PnL compared with the stored one, when a comparison takes place.
  datatype FillsStep = FillsStep(outcome: Outcome, exits: seq<Fill>, computed: Option<real>)

  function Consumed(exits: seq<Fill>): set<string> {
    set f | f in exits && MarkId(f) != "" :: MarkId(f)
  }

  function FillsUpdate(t: Trade, totals: Totals): Update {
    Update(RoundTo(Net(t.kind, totals), 8),
           Average(totals.entryValue, totals.entryQty),
           ExitPriceOr(Average(totals.exitValue, totals.exitQty), t.exitPrice),
           FillSet)
  }

  function FillsOutcome(t: Trade, totals: Totals): Outcome {
    if StoredPnl(t).Some? && Mismatch(StoredPnl(t).value, Net(t.kind, totals)) then Emit(FillsUpdate(t, totals))
    else NoUpdate
  }

  function FillsStepOf(t: Trade, used: set<string>, fills: seq<Fill>): FillsStep {
    var entries, exits := FillsIn(Entry, t, used, fills), FillsIn(Exit, t, used, fills);
    if t.kind.OtherKind? || (entries == [] && exits == []) then FillsStep(NoUpdate, [], None)
    else
      var totals := TotalsOf(entries, exits);
      FillsStep(FillsOutcome(t, totals), exits, if StoredPnl(t).None? then None else Some(Net(t.kind, totals)))
  }

  // ---- Order does not matter ----

  lemma ConsumedPermuted(a: seq<Fill>, b: seq<Fill>)
    requires multiset(a) == multiset(b)
    ensures Consumed(a) == Consumed(b)
  {
    assert forall f :: f in a <==> f in multiset(a);
    assert forall f :: f in b <==> f in multiset(b);
  }

  /** Whatever the order of the fills, the same update is emitted and the same fill ids are used up. */
  lemma FillOrderIsIrrelevant(t: Trade, used: set<string>, a: seq<Fill>, b: seq<Fill>)
    requires multiset(a) == multiset(b)
    ensures FillsStepOf(t, used, a).outcome == FillsStepOf(t, used, b).outcome
    ensures FillsStepOf(t, used, a).computed == FillsStepOf(t, used, b).computed
    ensures Consumed(FillsStepOf(t, used, a).exits) == Consumed(FillsStepOf(t, used, b).exits)
  {
    var entriesA, exitsA := FillsIn(Entry, t, used, a), FillsIn(Exit, t, used, a);
    var entriesB, exitsB := FillsIn(Entry, t, used, b), FillsIn(Exit, t, used, b);
    FilterPermuted(Plays(Entry, t.kind, t.orderId, used), a, b);
    FilterPermuted(Plays(Exit, t.kind, t.orderId, used), a, b);
    TotalsPermuted(entriesA, entriesB, exitsA, exitsB);
    SameLength(entriesA, entriesB);
    SameLength(exitsA, exitsB);
    ConsumedPermuted(exitsA, exitsB);
  }

  lemma SameLength(a: seq<Fill>, b: seq<Fill>)
    requires multiset(a) == multiset(b)
    ensures |a| == |b|
  {
    assert |multiset(a)| == |a| && |multiset(b)| == |b|;
  }

  lemma TotalsPermuted(entriesA: seq<Fill>, entriesB: seq<Fill>, exitsA: seq<Fill>, exitsB: seq<Fill>)
    requires multiset(entriesA) == multiset(entriesB) && multiset(exitsA) == multiset(exitsB)
    ensures TotalsOf(entriesA, exitsA) == TotalsOf(entriesB, exitsB)
  {
    SumPermuted(EntryValue, entriesA, entriesB);
    SumPermuted(EntryQty, entriesA, entriesB);
    SumPermuted(EntryFee, entriesA, entriesB);
    SumPermuted(ExitReported, exitsA, exitsB);
    SumPermuted(ExitValue, exitsA, exitsB);
    SumPermuted(ExitQty, exitsA, exitsB);
    SumPermuted(ExitFee, exitsA, exitsB);
  }

  // ---- Long and short mirror each other ----

  function MirrorKind(kind: Kind): Kind {
    match kind case Long => Short case Short => Long case OtherKind => OtherKind
  }

  function MirrorSide(side: Side): Side {
    match side case Buy => Sell case Sell => Buy case _ => side
  }

  function MirrorFill(f: Fill): Fill { f.(side := MirrorSide(f.side)) }

  function MirrorTrade(t: Trade): Trade { t.(kind := MirrorKind(t.kind)) }

  function MirrorFills(fills: seq<Fill>): seq<Fill> {
    seq(|fills|, i requires 0 <= i < |fills| => MirrorFill(fills[i]))
  }

  lemma PlaysMirrored(role: Role, t: Trade, used: set<string>, f: Fill)
    requires !t.kind.OtherKind?
    ensures Plays(role, MirrorKind(t.kind), t.orderId, used)(MirrorFill(f)) == Plays(role, t.kind, t.orderId, used)(f)
  {
  }

  lemma MirrorNext(fills: seq<Fill>, f: Fill)
    ensures MirrorFills(fills + [f]) == MirrorFills(fills) + [MirrorFill(f)]
  {
  }

  lemma {:induction false} FillsInMirrored(role: Role, t: Trade, used: set<string>, fills: seq<Fill>)
    requires !t.kind.OtherKind?
    ensures FillsIn(role, MirrorTrade(t), used, MirrorFills(fills)) == MirrorFills(FillsIn(role, t, used, fills))
  {
    if fills != [] {
      var init, last := fills[..|fills| - 1], fills[|fills| - 1];
      FillsInMirrored(role, t, used, init);
      PlaysMirrored(role, t, used, last);
      MirrorNext(init, last);
      MirrorNext(FillsIn(role, t, used, init), last);
      assert fills == init + [last];
    }
  }

  lemma {:induction false} SumMirrored(f: Fill -> real, fills: seq<Fill>)
    requires forall x :: f(MirrorFill(x)) == f(x)
    ensures SumBy(f, MirrorFills(fills)) == SumBy(f, fills)
  {
    if fills != [] {
      SumMirrored(f, fills[..|fills| - 1]);
      assert MirrorFills(fills)[..|fills| - 1] == MirrorFills(fills[..|fills| - 1]);
    }
  }

  function TotalsIn(t: Trade, used: set<string>, fills: seq<Fill>): Totals {
    TotalsOf(FillsIn(Entry, t, used, fills), FillsIn(Exit, t, used, fills))
  }

  lemma EntryTotalsMirrored(entries: seq<Fill>)
    ensures SumBy(EntryValue, MirrorFills(entries)) == SumBy(EntryValue, entries)
    ensures SumBy(EntryQty, MirrorFills(entries)) == SumBy(EntryQty, entries)
    ensures SumBy(EntryFee, MirrorFills(entries)) == SumBy(EntryFee, entries)
  {
    SumMirrored(EntryValue, entries);
    SumMirrored(EntryQty, entries);
    SumMirrored(EntryFee, entries);
  }

  lemma ExitTotalsMirrored(exits: seq<Fill>)
    ensures SumBy(ExitReported, MirrorFills(exits)) == SumBy(ExitReported, exits)
    ensures SumBy(ExitValue, MirrorFills(exits)) == SumBy(ExitValue, exits)
    ensures SumBy(ExitQty, MirrorFills(exits)) == SumBy(ExitQty, exits)
    ensures SumBy(ExitFee, MirrorFills(exits)) == SumBy(ExitFee, exits)
  {
    SumMirrored(ExitReported, exits);
    SumMirrored(ExitValue, exits);
    SumMirrored(ExitQty, exits);
    SumMirrored(ExitFee, exits);
  }

  lemma TotalsMirrored(t: Trade, used: set<string>, fills: seq<Fill>)
    requires !t.kind.OtherKind?
    ensures TotalsIn(MirrorTrade(t), used, MirrorFills(fills)) == TotalsIn(t, used, fills)
  {
    FillsInMirrored(Entry, t, used, fills);
    FillsInMirrored(Exit, t, used, fills);
    EntryTotalsMirrored(FillsIn(Entry, t, used, fills));
    ExitTotalsMirrored(FillsIn(Exit, t, used, fills));
  }

  /** Swapping long with short and buy with sell keeps the fees; it negates the gross PnL exactly when
      the PnL reported by the exit fills sums to zero, and leaves it alone when it does not. */
  lemma MirrorNegatesGross(t: Trade, used: set<string>, fills: seq<Fill>)
    requires !t.kind.OtherKind?
    ensures
      var totals := TotalsIn(t, used, fills);
      var mirrored := TotalsIn(MirrorTrade(t), used, MirrorFills(fills));
      && Fees(mirrored) == Fees(totals)
      && (Gross(MirrorKind(t.kind), mirrored) == -Gross(t.kind, totals) <==> totals.reported == 0.0)
      && (totals.reported != 0.0 ==> Gross(MirrorKind(t.kind), mirrored) == Gross(t.kind, totals))
  {
    TotalsMirrored(t, used, fills);
  }

  /** Exit fills that carry no PnL field report nothing. */
  lemma {:induction false} NothingReported(exits: seq<Fill>)
    requires forall f :: f in exits ==> Reported(f).Missing?
    ensures SumBy(ExitReported, exits) == 0.0
  {
    if exits != [] {
      NothingReported(exits[..|exits| - 1]);
    }
  }

  // ---- The stored value after an update ----

  /** A value rounded to eight places never mismatches the value it was rounded from. */
  lemma RoundedValueSettles(x: real)
    ensures !Mismatch(RoundTo(x, 8), x)
  {
    RoundAtScaleIsClose(x, Pow10(8) as real);
    assert Pow10(8) == 100_000_000;
  }

  /** The stored value is replaced exactly when it is off by more than 0.01 and is zero or off by more than
      0.10 as well as by more than 5 percent of the computed value, which may be zero. */
  lemma MismatchMeans(stored: real, computed: real)
    ensures
      var off := AbsReal(stored - computed);
      Mismatch(stored, computed) <==> off > 0.01 && (stored == 0.0 || (off > 0.10 && off > 0.05 * AbsReal(computed)))
  {
    var off := AbsReal(stored - computed);
    if computed != 0.0 {
      var q := off / computed;
      assert q * computed == off;
      ShareBound(q, computed, 0.05);
    }
  }

  lemma ShareBound(q: real, x: real, bound: real)
    requires x != 0.0
    ensures AbsReal(q) <= bound <==> AbsReal(q * x) <= bound * AbsReal(x)
  {
    AbsProduct(q, x);
    if AbsReal(q) <= bound {
      ScaledBounds(AbsReal(q), AbsReal(x), AbsReal(q), bound);
    } else {
      QuotientAbove(AbsReal(q), bound, AbsReal(x));
    }
  }

  lemma AbsProduct(a: real, b: real)
    ensures AbsReal(a * b) == AbsReal(a) * AbsReal(b)
  {
  }

  lemma QuotientAbove(a: real, b: real, weight: real)
    requires weight > 0.0 && a > b
    ensures a * weight > b * weight
  {
  }

  // ---- The prices of an update ----

  /** The fill's price is within the bounds and its quantity is not negative. */
  predicate PricedWithin(f: Fill, low: real, high: real) {
    && (Quantity(f).Some? ==> Quantity(f).value >= 0.0)
    && (Price(f).Some? ==> low <= Price(f).value <= high)
  }

  /** The entry price of an update lies between any bounds of the entry fills' prices. */
  lemma EntryPriceWithin(t: Trade, used: set<string>, fills: seq<Fill>, low: real, high: real)
    requires forall f :: f in FillsIn(Entry, t, used, fills) ==> PricedWithin(f, low, high)
    ensures
      var outcome := FillsStepOf(t, used, fills).outcome;
      outcome.Emit? ==>
        var price := outcome.update.entryPrice;
        price.Some? ==> low <= price.value <= high
  {
    var entries := FillsIn(Entry, t, used, fills);
    EntriesBounded(entries, low, high);
    AverageWithin(EntryValue, EntryQty, entries, low, high);
  }

  lemma EntriesBounded(entries: seq<Fill>, low: real, high: real)
    requires forall f :: f in entries ==> PricedWithin(f, low, high)
    ensures forall f :: f in entries ==> Bounded(EntryValue(f), EntryQty(f), low, high)
  {
    forall f | f in entries
      ensures Bounded(EntryValue(f), EntryQty(f), low, high)
    {
      if EntryReadable(f) {
        ScaledBounds(Price(f).value, Quantity(f).value, low, high);
      }
    }
  }

  lemma AverageWithin(value: Fill -> real, qty: Fill -> real, fills: seq<Fill>, low: real, high: real)
    requires forall f :: f in fills ==> Bounded(value(f), qty(f), low, high)
    ensures
      var average := Average(SumBy(value, fills), SumBy(qty, fills));
      average.Some? ==> low <= average.value <= high
  {
    SumBounds(value, qty, fills, low, high);
    if SumBy(qty, fills) > 0.0 {
      AverageBounds(SumBy(value, fills), SumBy(qty, fills), low, high);
    }
  }

  /** The exit price of an update lies between any bounds of the exit fills' prices that are positive, or else it
      is the stored one. */
  lemma ExitPriceWithin(t: Trade, used: set<string>, fills: seq<Fill>, low: real, high: real)
    requires 0.0 < low && forall f :: f in FillsIn(Exit, t, used, fills) ==> PricedWithin(f, low, high)
    ensures
      var outcome := FillsStepOf(t, used, fills).outcome;
      outcome.Emit? ==>
        var price := outcome.update.exitPrice;
        price.Some? ==> low <= price.value <= high || price == ToFloat(t.exitPrice)
  {
    var exits := FillsIn(Exit, t, used, fills);
    ExitsBounded(exits, low, high);
    AverageWithin(ExitValue, ExitQty, exits, low, high);
  }

  lemma ExitsBounded(exits: seq<Fill>, low: real, high: real)
    requires forall f :: f in exits ==> PricedWithin(f, low, high)
    ensures forall f :: f in exits ==> Bounded(ExitValue(f), ExitQty(f), low, high)
  {
    forall f | f in exits
      ensures Bounded(ExitValue(f), ExitQty(f), low, high)
    {
      if Reported(f).Missing? && ExitReadable(f) {
        ScaledBounds(Price(f).value, Quantity(f).value, low, high);
      }
    }
  }

  // ---- No exit fill counts twice ----

  /** Exit fills taken now carry no id that was already used. */
  lemma ConsumedIsFresh(t: Trade, used: set<string>, fills: seq<Fill>)
    ensures Consumed(FillsStepOf(t, used, fills).exits) !! used
  {
    FilterMembers(Plays(Exit, t.kind, t.orderId, used), fills);
  }
}
