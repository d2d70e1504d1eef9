/** What the PnL computed from fills means. */
module PnlMeaning {
  import opened Common
  import opened Fields
  import opened FillPnl
  import opened Rounding

  // ---- In terms of the totals ----

  lemma ComputedIsNet(t: Trade, used: set<string>, fills: seq<Fill>)
    requires FillsStepOf(t, used, fills).computed.Some?
    ensures !t.kind.OtherKind? && FillsStepOf(t, used, fills).computed == Some(Net(t.kind, TotalsIn(t, used, fills)))
  {
  }

  /** The computed PnL: what the position gained between entry and exit, for a long trade what the exits brought
      less what the entries cost and for a short one the reverse, or else what the exits report; less all fees. */
  ghost predicate IsGainLessFees(kind: Kind, totals: Totals, pnl: real) {
    var paid, got, fees := totals.entryValue, totals.exitValue, totals.entryFee + totals.exitFee;
    && (totals.reported == 0.0 && paid > 0.0 && got > 0.0 && kind.Long? ==> pnl == got - paid - fees)
    && (totals.reported == 0.0 && paid > 0.0 && got > 0.0 && kind.Short? ==> pnl == paid - got - fees)
    && (totals.reported != 0.0 || paid <= 0.0 || got <= 0.0 ==> pnl == totals.reported - fees)
  }

  /** With values on both sides and nothing reported the PnL is what the position gained between entry and exit,
      otherwise what the exit fills report; all fees are subtracted once. */
  lemma PnlIsGainLessFees(t: Trade, used: set<string>, fills: seq<Fill>)
    requires FillsStepOf(t, used, fills).computed.Some?
    ensures IsGainLessFees(t.kind, TotalsIn(t, used, fills), FillsStepOf(t, used, fills).computed.value)
  {
    ComputedIsNet(t, used, fills);
  }

  lemma AverageTimesQuantity(value: real, qty: real)
    ensures Average(value, qty).Some? <==> qty > 0.0
    ensures Average(value, qty).Some? ==> Average(value, qty).value * qty == value
  {
  }

  lemma NotZero(a: real, b: real, product: real)
    requires a * b == product && product > 0.0
    ensures a != 0.0
  {
  }

  lemma EmittedUpdate(t: Trade, used: set<string>, fills: seq<Fill>)
    requires FillsStepOf(t, used, fills).outcome.Emit?
    ensures FillsStepOf(t, used, fills).outcome.update == FillsUpdate(t, TotalsIn(t, used, fills))
    ensures FillsStepOf(t, used, fills).computed.Some? && !t.kind.OtherKind?
  {
  }

  /** The PnL an update writes is the computed one up to half a unit of the eighth place. */
  lemma WrittenPnlIsRounded(t: Trade, used: set<string>, fills: seq<Fill>)
    requires FillsStepOf(t, used, fills).outcome.Emit?
    ensures
      var step := FillsStepOf(t, used, fills);
      step.computed.Some? && AbsReal(step.outcome.update.pnl - step.computed.value) <= 0.000000005
  {
    EmittedUpdate(t, used, fills);
    ComputedIsNet(t, used, fills);
    RoundedToEight(Net(t.kind, TotalsIn(t, used, fills)));
  }

  lemma RoundedToEight(x: real)
    ensures AbsReal(RoundTo(x, 8) - x) <= 0.000000005
  {
    RoundAtScaleIsClose(x, Pow10(8) as real);
    assert Pow10(8) == 100_000_000;
  }

  lemma UpdatePrices(t: Trade, totals: Totals)
    ensures
      var u := FillsUpdate(t, totals);
      && (u.entryPrice.Some? <==> totals.entryQty > 0.0)
      && (u.entryPrice.Some? ==> u.entryPrice.value * totals.entryQty == totals.entryValue)
      && (totals.exitQty > 0.0 && totals.exitValue > 0.0 ==>
            u.exitPrice.Some? && u.exitPrice.value * totals.exitQty == totals.exitValue)
      && (totals.exitQty <= 0.0 && (t.exitPrice.Text? || (t.exitPrice.Number? && t.exitPrice.v != 0.0)) ==>
            u.exitPrice == Some(t.exitPrice.v))
  {
    AverageTimesQuantity(totals.entryValue, totals.entryQty);
    AverageTimesQuantity(totals.exitValue, totals.exitQty);
    if totals.exitQty > 0.0 && totals.exitValue > 0.0 {
      NotZero(Average(totals.exitValue, totals.exitQty).value, totals.exitQty, totals.exitValue);
    }
  }

  /** The prices an update writes are the averages by quantity: price times total quantity is the total value. */
  lemma PricesAreAverages(t: Trade, used: set<string>, fills: seq<Fill>)
    requires FillsStepOf(t, used, fills).outcome.Emit?
    ensures
      var u, totals := FillsStepOf(t, used, fills).outcome.update, TotalsIn(t, used, fills);
      && (u.entryPrice.Some? <==> totals.entryQty > 0.0)
      && (u.entryPrice.Some? ==> u.entryPrice.value * totals.entryQty == totals.entryValue)
      && (totals.exitQty > 0.0 && totals.exitValue > 0.0 ==>
            u.exitPrice.Some? && u.exitPrice.value * totals.exitQty == totals.exitValue)
      && (totals.exitQty <= 0.0 && (t.exitPrice.Text? || (t.exitPrice.Number? && t.exitPrice.v != 0.0)) ==>
            u.exitPrice == Some(t.exitPrice.v))
  {
    EmittedUpdate(t, used, fills);
    UpdatePrices(t, TotalsIn(t, used, fills));
  }

  /** The totals are the sums over the unused fills of either role. */
  lemma TotalsAreSums(t: Trade, used: set<string>, fills: seq<Fill>)
    ensures
      var totals := TotalsIn(t, used, fills);
      var entries, exits := FillsIn(Entry, t, used, fills), FillsIn(Exit, t, used, fills);
      && totals.entryValue == SumBy(EntryValue, entries) && totals.entryQty == SumBy(EntryQty, entries)
      && totals.entryFee == SumBy(EntryFee, entries) && totals.exitFee == SumBy(ExitFee, exits)
      && totals.exitValue == SumBy(ExitValue, exits) && totals.exitQty == SumBy(ExitQty, exits)
      && totals.reported == SumBy(ExitReported, exits)
  {
  }

  lemma MoveInTotals(t: Trade, totals: Totals, qty: real, pnl: real)
    requires !t.kind.OtherKind? && IsGainLessFees(t.kind, totals, pnl)
    requires qty > 0.0 && totals.entryQty == qty == totals.exitQty
    requires totals.entryValue > 0.0 && totals.exitValue > 0.0 && totals.reported == 0.0
    ensures IsQuantityTimesMove(t.kind, FillsUpdate(t, totals), qty, pnl + totals.entryFee + totals.exitFee)
  {
    UpdatePrices(t, totals);
    var u := FillsUpdate(t, totals);
    Difference(u.exitPrice.value, u.entryPrice.value, qty);
    Difference(u.entryPrice.value, u.exitPrice.value, qty);
  }

  /** The gain is the quantity times the price difference: exit less entry for a long trade, entry less exit for a
      short one. */
  ghost predicate IsQuantityTimesMove(kind: Kind, u: Update, qty: real, gain: real) {
    && u.entryPrice.Some? && u.exitPrice.Some?
    && gain == if kind.Long? then (u.exitPrice.value - u.entryPrice.value) * qty
               else (u.entryPrice.value - u.exitPrice.value) * qty
  }

  /** When as much was sold as bought, the PnL before fees is that quantity times the difference of the prices that
      the update writes. */
  lemma PnlIsQuantityTimesMove(t: Trade, used: set<string>, fills: seq<Fill>, qty: real)
    requires FillsStepOf(t, used, fills).outcome.Emit? && qty > 0.0
    requires
      var totals := TotalsIn(t, used, fills);
      && totals.entryQty == qty == totals.exitQty
      && totals.entryValue > 0.0 && totals.exitValue > 0.0 && totals.reported == 0.0
    ensures FillsStepOf(t, used, fills).computed.Some?
    ensures
      var totals, step := TotalsIn(t, used, fills), FillsStepOf(t, used, fills);
      IsQuantityTimesMove(t.kind, step.outcome.update, qty, step.computed.value + totals.entryFee + totals.exitFee)
  {
    EmittedUpdate(t, used, fills);
    PnlIsGainLessFees(t, used, fills);
    MoveInTotals(t, TotalsIn(t, used, fills), qty, FillsStepOf(t, used, fills).computed.value);
  }

  lemma Difference(a: real, b: real, c: real)
    ensures (a - b) * c == a * c - b * c
  {
  }

  // ---- In terms of the cash that moved ----

  /** A buy or sell with positive size and price and a fee, and without a PnL of its own. */
  ghost predicate IsPlain(f: Fill) {
    && (f.side.Buy? || f.side.Sell?)
    && f.size.Number? && f.size.v > 0.0 && f.price.Number? && f.price.v > 0.0
    && f.fee.Number? && (f.fee.v != 0.0 || f.commission.Missing?)
    && f.realizedPnl.Missing? && f.realisedPnl.Missing? && f.pnl.Missing?
  }

  /** What the account gains by a fill: the proceeds of a sell, minus the cost of a buy, less the fee. */
  ghost function CashFlow(f: Fill): real {
    if f.size.Number? && f.price.Number? && f.fee.Number? then
      (if f.side.Sell? then f.size.v * f.price.v else -(f.size.v * f.price.v)) - f.fee.v
    else 0.0
  }

  ghost predicate IsUnused(f: Fill, used: set<string>) {
    f.tradeId !in used && f.id !in used && f.orderId !in used
  }

  ghost function EntrySideOf(kind: Kind): Side { if kind.Long? then Buy else Sell }

  lemma PlainFillPlays(t: Trade, used: set<string>, f: Fill)
    requires !t.kind.OtherKind? && IsPlain(f) && IsUnused(f, used)
    ensures Plays(Entry, t.kind, t.orderId, used)(f) <==> f.side == EntrySideOf(t.kind)
    ensures Plays(Exit, t.kind, t.orderId, used)(f) <==> f.side != EntrySideOf(t.kind)
  {
  }

  lemma PlainFillAdds(f: Fill)
    requires IsPlain(f)
    ensures EntryValue(f) == ExitValue(f) == f.size.v * f.price.v && EntryFee(f) == ExitFee(f) == f.fee.v
    ensures EntryValue(f) > 0.0 && ExitReported(f) == 0.0
  {
    ProductPositive(f.size.v, f.price.v);
  }

  lemma ProductPositive(a: real, b: real)
    requires a > 0.0 && b > 0.0
    ensures a * b > 0.0
  {
  }

  /** The totals are those of plain fills that moved this much cash, some of them on these sides. */
  ghost predicate Tallied(totals: Totals, kind: Kind, cash: real, hasEntry: bool, hasExit: bool) {
    && cash == (if kind.Long? then totals.exitValue - totals.entryValue else totals.entryValue - totals.exitValue)
               - totals.entryFee - totals.exitFee
    && totals.reported == 0.0 && totals.entryValue >= 0.0 && totals.exitValue >= 0.0
    && (hasEntry ==> totals.entryValue > 0.0) && (hasExit ==> totals.exitValue > 0.0)
  }

  ghost predicate HasSide(fills: seq<Fill>, side: Side) { exists f :: f in fills && f.side == side }

  ghost function ExitSideOf(kind: Kind): Side { if kind.Long? then Sell else Buy }

  /** One more fill adds its value and fee on its side. */
  ghost predicate AddsFill(before: Totals, after: Totals, kind: Kind, f: Fill) {
    && after.reported == before.reported
    && (if f.side == EntrySideOf(kind) then
          && after.entryValue == before.entryValue + EntryValue(f) && after.entryFee == before.entryFee + EntryFee(f)
          && after.exitValue == before.exitValue && after.exitFee == before.exitFee
        else
          && after.entryValue == before.entryValue && after.entryFee == before.entryFee
          && after.exitValue == before.exitValue + ExitValue(f) && after.exitFee == before.exitFee + ExitFee(f))
  }

  /** What the last fill adds to a sum over the fills of one role. */
  lemma PlayedSum(role: Role, t: Trade, used: set<string>, fills: seq<Fill>, g: Fill -> real)
    requires fills != []
    ensures
      var f := fills[|fills| - 1];
      SumBy(g, FillsIn(role, t, used, fills)) ==
        SumBy(g, FillsIn(role, t, used, fills[..|fills| - 1]))
        + if Plays(role, t.kind, t.orderId, used)(f) then g(f) else 0.0
  {
    FilterSum(g, Plays(role, t.kind, t.orderId, used), fills);
  }

  lemma TotalsNext(t: Trade, used: set<string>, fills: seq<Fill>)
    requires fills != [] && !t.kind.OtherKind? && IsPlain(fills[|fills| - 1]) && IsUnused(fills[|fills| - 1], used)
    ensures AddsFill(TotalsIn(t, used, fills[..|fills| - 1]), TotalsIn(t, used, fills), t.kind, fills[|fills| - 1])
  {
    var f := fills[|fills| - 1];
    var isEntry := f.side == EntrySideOf(t.kind);
    PlainFillPlays(t, used, f);
    assert Plays(Entry, t.kind, t.orderId, used)(f) == isEntry;
    assert Plays(Exit, t.kind, t.orderId, used)(f) == !isEntry;
    assert ExitReported(f) == 0.0;
    PlayedSum(Entry, t, used, fills, EntryValue);
    PlayedSum(Entry, t, used, fills, EntryFee);
    PlayedSum(Exit, t, used, fills, ExitValue);
    PlayedSum(Exit, t, used, fills, ExitFee);
    PlayedSum(Exit, t, used, fills, ExitReported);
  }

  lemma TallyNext(before: Totals, after: Totals, kind: Kind, cash: real, f: Fill, hasEntry: bool, hasExit: bool)
    requires !kind.OtherKind? && IsPlain(f) && AddsFill(before, after, kind, f)
    requires Tallied(before, kind, cash, hasEntry, hasExit)
    ensures Tallied(after, kind, cash + CashFlow(f), hasEntry || f.side == EntrySideOf(kind),
                    hasExit || f.side == ExitSideOf(kind))
  {
    PlainFillAdds(f);
  }

  lemma NothingTallied(t: Trade, used: set<string>)
    ensures Tallied(TotalsIn(t, used, []), t.kind, 0.0, false, false)
  {
  }

  lemma {:induction false} CashIsTallied(t: Trade, used: set<string>, fills: seq<Fill>)
    requires !t.kind.OtherKind? && forall f :: f in fills ==> IsPlain(f) && IsUnused(f, used)
    ensures Tallied(TotalsIn(t, used, fills), t.kind, SumBy(CashFlow, fills),
                    HasSide(fills, EntrySideOf(t.kind)), HasSide(fills, ExitSideOf(t.kind)))
  {
    if fills == [] {
      NothingTallied(t, used);
    } else {
      var init, last := fills[..|fills| - 1], fills[|fills| - 1];
      assert fills == init + [last];
      CashIsTallied(t, used, init);
      TotalsNext(t, used, fills);
      TallyNext(TotalsIn(t, used, init), TotalsIn(t, used, fills), t.kind, SumBy(CashFlow, init), last,
                HasSide(init, EntrySideOf(t.kind)), HasSide(init, ExitSideOf(t.kind)));
      SidesNext(init, last, EntrySideOf(t.kind));
      SidesNext(init, last, ExitSideOf(t.kind));
    }
  }

  lemma SidesNext(init: seq<Fill>, last: Fill, side: Side)
    ensures HasSide(init + [last], side) <==> HasSide(init, side) || last.side == side
  {
    assert last in init + [last];
  }

  /** For plain fills, bought and sold, the PnL of a trade is the sum of what its fills moved, whichever direction
      the trade has. */
  lemma PnlIsCashFlow(t: Trade, used: set<string>, fills: seq<Fill>)
    requires FillsStepOf(t, used, fills).computed.Some?
    requires forall f :: f in fills ==> IsPlain(f) && IsUnused(f, used)
    requires HasSide(fills, Buy) && HasSide(fills, Sell)
    ensures FillsStepOf(t, used, fills).computed == Some(SumBy(CashFlow, fills))
  {
    CashIsTallied(t, used, fills);
    PnlIsGainLessFees(t, used, fills);
    ComputedIsNet(t, used, fills);
    assert HasSide(fills, EntrySideOf(t.kind)) && HasSide(fills, ExitSideOf(t.kind));
    TalliedGain(t.kind, TotalsIn(t, used, fills), SumBy(CashFlow, fills), FillsStepOf(t, used, fills).computed.value);
  }

  lemma TalliedGain(kind: Kind, totals: Totals, cash: real, pnl: real)
    requires !kind.OtherKind? && Tallied(totals, kind, cash, true, true) && IsGainLessFees(kind, totals, pnl)
    ensures pnl == cash
  {
  }

  // ---- Which field is read ----

  /** The first field that the language takes for true, else the last one. */
  ghost function FirstTrue(fields: seq<Field>): Field
    requires fields != []
  {
    var f := fields[0];
    if |fields| == 1 || f.Text? || f.Malformed? || (f.Number? && f.v != 0.0) then f
    else FirstTrue(fields[1..])
  }

  lemma FirstOfTwo(a: Field, b: Field)
    ensures FirstTrue([a, b]) == Or(a, b)
  {
    assert [a, b][1..] == [b];
  }

  lemma FirstOfThree(a: Field, b: Field, c: Field)
    ensures FirstTrue([a, b, c]) == Or(Or(a, b), c)
  {
    assert [a, b, c][1..] == [b, c];
    FirstOfTwo(b, c);
  }

  /** The order in which the fields of fills and trades are tried. */
  lemma FieldsAreTriedInOrder(t: Trade, f: Fill)
    ensures Quantity(f) == ToFloat(FirstTrue([f.size, f.qty, Number(0.0)]))
    ensures Price(f) == ToFloat(FirstTrue([f.price, Number(0.0)]))
    ensures Fee(f) == ToFloat(FirstTrue([f.fee, f.commission, Number(0.0)]))
    ensures Reported(f) == FirstTrue([f.realizedPnl, f.realisedPnl, f.pnl])
    ensures StoredPnl(t) == ToFloat(FirstTrue([t.pnlUsd, t.netPnl, Number(0.0)]))
  {
    FirstOfThree(f.size, f.qty, ZERO);
    FirstOfTwo(f.price, ZERO);
    FirstOfThree(f.fee, f.commission, ZERO);
    FirstOfThree(f.realizedPnl, f.realisedPnl, f.pnl);
    FirstOfThree(t.pnlUsd, t.netPnl, ZERO);
  }

  /** What one readable fill adds: as entry its value and fee; as exit the PnL it reports or else its value, and its
      fee. An unreadable one adds nothing, an exit with only the fee unreadable all but the fee. */
  lemma WhatFillsAdd(f: Fill)
    ensures
      var q, p, fee := Quantity(f), Price(f), Fee(f);
      && (if q.Some? && p.Some? && fee.Some? then
            EntryQty(f) == q.value && EntryValue(f) == q.value * p.value && EntryFee(f) == fee.value
          else EntryQty(f) == EntryValue(f) == EntryFee(f) == 0.0)
      && (match Reported(f)
          case Missing =>
            && ExitReported(f) == 0.0
            && (if q.Some? && p.Some? then ExitQty(f) == q.value && ExitValue(f) == q.value * p.value
                else ExitQty(f) == ExitValue(f) == 0.0)
            && ExitFee(f) == (if q.Some? && p.Some? && fee.Some? then fee.value else 0.0)
          case Number(v) =>
            && ExitReported(f) == v && ExitQty(f) == ExitValue(f) == 0.0
            && ExitFee(f) == (if fee.Some? then fee.value else 0.0)
          case Text(v) =>
            && ExitReported(f) == v && ExitQty(f) == ExitValue(f) == 0.0
            && ExitFee(f) == (if fee.Some? then fee.value else 0.0)
          case _ => ExitReported(f) == ExitQty(f) == ExitValue(f) == ExitFee(f) == 0.0)
  {
  }

  // ---- Which fills count as what ----

  ghost function FirstNonEmpty(texts: seq<string>): string {
    if texts == [] then "" else if texts[0] != "" then texts[0] else FirstNonEmpty(texts[1..])
  }

  lemma FirstNonEmptyOf(a: string, b: string, c: string)
    ensures FirstNonEmpty([a, b]) == OrText(a, b) && FirstNonEmpty([a, b, c]) == OrText(OrText(a, b), c)
  {
    assert [a, b, c][1..] == [b, c] && [b, c][1..] == [c] && [c][1..] == [] && [a, b][1..] == [b] && [b][1..] == [];
    assert FirstNonEmpty([c]) == c && FirstNonEmpty([b]) == b;
    assert FirstNonEmpty([b, c]) == OrText(b, c);
  }

  /** A fill of the trade's own order is an entry on the entry side or as maker or taker, and an exit on the exit
      side; any other is an entry on the entry side, and an exit on the exit side or when it only reduces. */
  lemma RolesAre(kind: Kind, orderId: string, f: Fill)
    requires !kind.OtherKind?
    ensures
      var own := orderId != "" && orderId == FirstNonEmpty([f.orderId, f.orderIdAlt]);
      var entrySide, exitSide := if kind.Long? then Buy else Sell, if kind.Long? then Sell else Buy;
      && (RoleOf(kind, orderId, f) == Entry <==> f.side == entrySide || (own && f.side in {Maker, Taker}))
      && (RoleOf(kind, orderId, f) == Exit <==>
            f.side == exitSide || (!own && f.reduceOnly && f.side != entrySide))
  {
    FirstNonEmptyOf(f.orderId, f.orderIdAlt, "");
  }

  /** A fill counts unless the first of its trade id, id and order id that is not empty was used before. Used up
      are, of each exit fill, the first of trade id and id. */
  lemma FillsCountUnlessUsed(t: Trade, used: set<string>, fills: seq<Fill>, role: Role, f: Fill)
    ensures f in FillsIn(role, t, used, fills) <==>
            && f in fills && RoleOf(t.kind, t.orderId, f) == role
            && (var id := FirstNonEmpty([f.tradeId, f.id, f.orderId]);
                id == "" || id !in used)
    ensures forall id :: id in Consumed(fills) <==>
                         id != "" && exists x :: x in fills && FirstNonEmpty([x.tradeId, x.id]) == id
  {
    FilterMembers(Plays(role, t.kind, t.orderId, used), fills);
    FirstNonEmptyOf(f.tradeId, f.id, f.orderId);
    forall x: Fill
      ensures FirstNonEmpty([x.tradeId, x.id]) == MarkId(x)
    {
      FirstNonEmptyOf(x.tradeId, x.id, "");
    }
  }
}
