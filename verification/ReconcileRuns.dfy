/** What the reconciler guarantees over whole runs and over repeated calls. */
module ReconcileRuns {
  import opened Common
  import opened Fields
  import opened Rounding
  import opened PositionHistory
  import opened FillPnl
  import opened Matching
  import opened Reconcile

  // ---- No double use ----

  /** The close id an update rests on, "" when there is none. */
  function CloseIdOf(outcome: Outcome): string {
    if outcome.Emit? && outcome.update.basis.PositionRecord? then outcome.update.basis.closeId else ""
  }

  lemma StepUsesFreshIds(ex: Exchange, t: Trade, usedCloseIds: set<string>, usedFillIds: set<string>)
    ensures
      var step := StepOf(ex, t, usedCloseIds, usedFillIds);
      var closeId := CloseIdOf(step.outcome);
      && step.usedCloseIds == (if closeId != "" then usedCloseIds + {closeId} else usedCloseIds)
      && step.usedFillIds == usedFillIds + Consumed(step.exits)
      && (closeId != "" ==> closeId !in usedCloseIds) && Consumed(step.exits) !! usedFillIds
  {
    CloseIdIsFresh(ex, t, usedCloseIds, usedFillIds);
    FillIdsAreFresh(ex, t, usedCloseIds, usedFillIds);
  }

  lemma CloseIdIsFresh(ex: Exchange, t: Trade, usedCloseIds: set<string>, usedFillIds: set<string>)
    ensures
      var step := StepOf(ex, t, usedCloseIds, usedFillIds);
      var closeId := CloseIdOf(step.outcome);
      && step.usedCloseIds == (if closeId != "" then usedCloseIds + {closeId} else usedCloseIds)
      && (closeId != "" ==> closeId !in usedCloseIds)
  {
    MatchIsOptimal(t, usedCloseIds, HistoryFor(ex, t));
  }

  lemma FillIdsAreFresh(ex: Exchange, t: Trade, usedCloseIds: set<string>, usedFillIds: set<string>)
    ensures
      var step := StepOf(ex, t, usedCloseIds, usedFillIds);
      step.usedFillIds == usedFillIds + Consumed(step.exits) && Consumed(step.exits) !! usedFillIds
  {
    if FillsFor(ex, t).Some? {
      ConsumedIsFresh(t, usedFillIds, FillsFor(ex, t).value);
    }
  }

  /** Step i of a run starts from the ids used by the steps before it. */
  lemma {:induction false} RunStep(exs: seq<Exchange>, trades: seq<Trade>, c: set<string>, f: set<string>, i: nat)
    requires |exs| == |trades| && i < |trades|
    ensures
      var steps := RunOf(exs, trades, c, f);
      steps[i] == StepOf(exs[i], trades[i], CloseIdsAfter(steps[..i], c), FillIdsAfter(steps[..i], f))
  {
    var last := |trades| - 1;
    var steps, before := RunOf(exs, trades, c, f), RunOf(exs[..last], trades[..last], c, f);
    assert steps[..last] == before;
    if i < last {
      RunStep(exs[..last], trades[..last], c, f, i);
      assert steps[..i] == before[..i] && steps[i] == before[i];
    }
  }

  lemma UsedIdsGrowByOne(exs: seq<Exchange>, trades: seq<Trade>, c: set<string>, f: set<string>, j: nat)
    requires |exs| == |trades| && j < |trades|
    ensures
      var steps := RunOf(exs, trades, c, f);
      && CloseIdsAfter(steps[..j], c) <= steps[j].usedCloseIds == CloseIdsAfter(steps[..j + 1], c)
      && FillIdsAfter(steps[..j], f) <= steps[j].usedFillIds == FillIdsAfter(steps[..j + 1], f)
  {
    var steps := RunOf(exs, trades, c, f);
    var closeIds, fillIds := CloseIdsAfter(steps[..j], c), FillIdsAfter(steps[..j], f);
    RunStep(exs, trades, c, f, j);
    StepUsesFreshIds(exs[j], trades[j], closeIds, fillIds);
  }

  lemma {:induction false} UsedIdsGrow(exs: seq<Exchange>, trades: seq<Trade>, c: set<string>, f: set<string>,
                                       i: nat, j: nat)
    requires |exs| == |trades| && i < j <= |trades|
    ensures
      var steps := RunOf(exs, trades, c, f);
      && steps[i].usedCloseIds <= CloseIdsAfter(steps[..j], c)
      && steps[i].usedFillIds <= FillIdsAfter(steps[..j], f)
    decreases j
  {
    UsedIdsGrowByOne(exs, trades, c, f, j - 1);
    if i + 1 < j {
      UsedIdsGrow(exs, trades, c, f, i, j - 1);
    }
  }

  lemma SharedExitsAreUnmarked(a: seq<Fill>, b: seq<Fill>)
    requires Consumed(a) !! Consumed(b)
    ensures forall x :: x in a && x in b ==> MarkId(x) == ""
  {
    assert forall x :: x in a && MarkId(x) != "" ==> MarkId(x) in Consumed(a);
    assert forall x :: x in b && MarkId(x) != "" ==> MarkId(x) in Consumed(b);
  }

  /** In any run no two updates rest on the same close id, no exit-fill id is used up twice, and an exit
      fill that counts for two trades carries neither a trade id nor an id. */
  lemma NoDoubleUse(exs: seq<Exchange>, trades: seq<Trade>, c: set<string>, f: set<string>, i: nat, j: nat)
    requires |exs| == |trades| && i < j < |trades|
    ensures
      var steps := RunOf(exs, trades, c, f);
      && (CloseIdOf(steps[i].outcome) != "" ==> CloseIdOf(steps[i].outcome) != CloseIdOf(steps[j].outcome))
      && Consumed(steps[i].exits) !! Consumed(steps[j].exits)
      && (forall x :: x in steps[i].exits && x in steps[j].exits ==> MarkId(x) == "")
  {
    var steps := RunOf(exs, trades, c, f);
    RunStep(exs, trades, c, f, i);
    RunStep(exs, trades, c, f, j);
    UsedIdsGrow(exs, trades, c, f, i, j);
    StepUsesFreshIds(exs[i], trades[i], CloseIdsAfter(steps[..i], c), FillIdsAfter(steps[..i], f));
    StepUsesFreshIds(exs[j], trades[j], CloseIdsAfter(steps[..j], c), FillIdsAfter(steps[..j], f));
    SharedExitsAreUnmarked(steps[i].exits, steps[j].exits);
  }

  // ---- What an update rests on ----

  /** An update from position history rests on an unused record of the fetched history that carries both
      times, each within its relaxed window; a call with a chosen record raises exactly when one of its times is
      missing or the stored PnL is unreadable. */
  lemma EmittedRecordIsTimed(ex: Exchange, t: Trade, usedCloseIds: set<string>, usedFillIds: set<string>)
    requires Eligible(t) && SettlingRecord(ex, t, usedCloseIds).Some?
    ensures
      var r := SettlingRecord(ex, t, usedCloseIds).value;
      var outcome := StepOf(ex, t, usedCloseIds, usedFillIds).outcome;
      && (outcome == Raised <==> r.openTime == 0 || r.closeTime == 0 || StoredPnl(t).None?)
      && (outcome.Emit? ==>
            && r in HistoryFor(ex, t) && Unused(usedCloseIds, r)
            && outcome.update.basis == PositionRecord(r.closeId)
            && AbsInt(r.openTime - t.createdMs) <= 2 * CREATED_PAD
            && AbsInt(r.closeTime - ClosedMs(t)) <= 2 * CLOSE_PAD)
  {
    MatchIsOptimal(t, usedCloseIds, HistoryFor(ex, t));
  }

  /** Such an update writes the record's PnL up to half a unit of the eighth place. As entry price the record's
      average wins over its opening price, and as exit price its closing price over its average; the second is
      taken only when the first is missing, empty or zero, not when it is unreadable. */
  lemma EmittedValuesAreTheRecords(ex: Exchange, t: Trade, usedCloseIds: set<string>, usedFillIds: set<string>)
    requires SettlingRecord(ex, t, usedCloseIds).Some?
    requires StepOf(ex, t, usedCloseIds, usedFillIds).outcome.Emit?
    ensures
      var r, u := SettlingRecord(ex, t, usedCloseIds).value, StepOf(ex, t, usedCloseIds, usedFillIds).outcome.update;
      && AbsReal(u.pnl - FinalPnl(r)) <= 0.000000005
      && Wins(r.avgEntryPrice, r.openPrice, u.entryPrice)
      && Wins(r.closePrice, r.avgExitPrice, u.exitPrice)
  {
    var r := SettlingRecord(ex, t, usedCloseIds).value;
    StepByRecord(ex, t, usedCloseIds, usedFillIds, r);
    RecordUpdateValues(r);
  }

  lemma RecordUpdateValues(r: Record)
    ensures
      var u := RecordUpdate(r);
      && AbsReal(u.pnl - FinalPnl(r)) <= 0.000000005
      && Wins(r.avgEntryPrice, r.openPrice, u.entryPrice)
      && Wins(r.closePrice, r.avgExitPrice, u.exitPrice)
  {
    RoundAtScaleIsClose(FinalPnl(r), Pow10(8) as real);
    assert Pow10(8) == 100_000_000;
    FirstWins(r.avgEntryPrice, r.openPrice);
    FirstWins(r.closePrice, r.avgExitPrice);
  }

  lemma FirstWins(first: Field, second: Field)
    ensures Wins(first, second, ToFloat(Or(first, second)))
  {
  }

  /** The price written when the record has these two fields for it. */
  ghost predicate Wins(first: Field, second: Field, price: Option<real>) {
    && (forall v :: (first == Number(v) && v != 0.0) || first == Text(v) ==> price == Some(v))
    && (first in {Missing, Blank, Number(0.0)} ==>
          && (forall v :: second == Number(v) || second == Text(v) ==> price == Some(v))
          && (second in {Missing, Blank, Malformed} ==> price == None))
    && (first == Malformed ==> price == None)
  }

  // ---- Settling ----

  lemma {:induction false} BestIndexAgrees(t: Trade, t': Trade, pool: seq<Record>)
    requires pool != []
    requires forall r :: r in pool ==> ScoreOf(t, r) == ScoreOf(t', r)
    ensures BestIndex(t, pool) == BestIndex(t', pool)
  {
    if |pool| > 1 {
      BestIndexAgrees(t, t', pool[..|pool| - 1]);
      var k := BestIndex(t, pool[..|pool| - 1]);
      assert pool[k] in pool && pool[|pool| - 1] in pool;
    }
  }

  /** The two trades agree on everything the choice of a record looks at. */
  ghost predicate SameMatch(t: Trade, t': Trade) {
    && t.createdMs == t'.createdMs && ClosedMs(t) == ClosedMs(t') && t.symbol == t'.symbol
    && t.kind == t'.kind && t.positionSize == t'.positionSize
    && t.onKucoin == t'.onKucoin && t.isClosed == t'.isClosed && t.orderId == t'.orderId
  }

  lemma SameMatchSamePool(t: Trade, t': Trade, used: set<string>, records: seq<Record>)
    requires SameMatch(t, t')
    ensures Pool(t, used, records) == Pool(t', used, records)
  {
    FilterAgrees(Strict(t, used), Strict(t', used), records);
    FilterAgrees(Relaxed(t, used), Relaxed(t', used), records);
  }

  lemma SameMatchSameRecord(ex: Exchange, t: Trade, t': Trade, used: set<string>)
    requires SameMatch(t, t')
    ensures SettlingRecord(ex, t, used) == SettlingRecord(ex, t', used)
  {
    var records := HistoryFor(ex, t);
    assert HistoryFor(ex, t') == records;
    SameMatchSamePool(t, t', used, records);
    var pool := Pool(t, used, records);
    if pool != [] {
      BestIndexAgrees(t, t', pool);
    }
  }

  lemma StoredAfterUpdate(t: Trade, u: Update, now: int)
    ensures StoredPnl(ApplyUpdate(t, u, now)) == Some(u.pnl)
  {
  }

  lemma RecordSettles(t: Trade, r: Record, now: int)
    ensures RecordOutcome(t, r).Emit? ==> RecordOutcome(ApplyUpdate(t, RecordUpdate(r), now), r) == NoUpdate
  {
    StoredAfterUpdate(t, RecordUpdate(r), now);
    RoundedValueSettles(FinalPnl(r));
  }

  lemma FillsSettle(t: Trade, used: set<string>, fills: seq<Fill>, now: int)
    requires FillsStepOf(t, used, fills).outcome.Emit?
    ensures
      var u := FillsStepOf(t, used, fills).outcome.update;
      FillsStepOf(ApplyUpdate(t, u, now), used, fills).outcome == NoUpdate
  {
    StoredAfterUpdate(t, FillsStepOf(t, used, fills).outcome.update, now);
    RoundedValueSettles(Net(t.kind, TotalsIn(t, used, fills)));
  }

  lemma ApplyKeepsMatch(t: Trade, u: Update, now: int)
    requires t.closedAt.Some? || now == t.updatedMs
    ensures SameMatch(t, ApplyUpdate(t, u, now)) && Eligible(t) == Eligible(ApplyUpdate(t, u, now))
  {
  }

  lemma StepByRecord(ex: Exchange, t: Trade, c: set<string>, f: set<string>, r: Record)
    requires Eligible(t) && SettlingRecord(ex, t, c) == Some(r)
    ensures StepOf(ex, t, c, f).outcome == RecordOutcome(t, r)
  {
  }

  lemma StepByFills(ex: Exchange, t: Trade, c: set<string>, f: set<string>, fills: seq<Fill>)
    requires Eligible(t) && SettlingRecord(ex, t, c).None? && FillsFor(ex, t) == Some(fills)
    ensures StepOf(ex, t, c, f).outcome == FillsStepOf(t, f, fills).outcome
  {
  }

  lemma FillsForAgrees(ex: Exchange, t: Trade, t': Trade)
    requires SameMatch(t, t')
    ensures FillsFor(ex, t) == FillsFor(ex, t')
  {
  }

  lemma SettlesByRecord(ex: Exchange, t: Trade, c: set<string>, f: set<string>, r: Record, now: int)
    requires Eligible(t) && SettlingRecord(ex, t, c) == Some(r) && RecordOutcome(t, r).Emit?
    requires t.closedAt.Some? || now == t.updatedMs
    ensures StepOf(ex, ApplyUpdate(t, RecordUpdate(r), now), c, f).outcome == NoUpdate
  {
    var t' := ApplyUpdate(t, RecordUpdate(r), now);
    ApplyKeepsMatch(t, RecordUpdate(r), now);
    SameMatchSameRecord(ex, t, t', c);
    StepByRecord(ex, t', c, f, r);
    RecordSettles(t, r, now);
  }

  /** After the update of a trade with a close time was written, the same call finds nothing to do. */
  lemma ReconcilingSettles(ex: Exchange, t: Trade, usedCloseIds: set<string>, usedFillIds: set<string>, now: int)
    requires StepOf(ex, t, usedCloseIds, usedFillIds).outcome.Emit?
    requires t.closedAt.Some? || now == t.updatedMs
    ensures
      var u := StepOf(ex, t, usedCloseIds, usedFillIds).outcome.update;
      StepOf(ex, ApplyUpdate(t, u, now), usedCloseIds, usedFillIds).outcome == NoUpdate
  {
    var u := StepOf(ex, t, usedCloseIds, usedFillIds).outcome.update;
    match SettlingRecord(ex, t, usedCloseIds) {
      case Some(r) => SettlesByRecord(ex, t, usedCloseIds, usedFillIds, r, now);
      case None =>
        var t' := ApplyUpdate(t, u, now);
        ApplyKeepsMatch(t, u, now);
        SameMatchSameRecord(ex, t, t', usedCloseIds);
        FillsForAgrees(ex, t, t');
        FillsSettle(t, usedFillIds, FillsFor(ex, t).value, now);
        StepByFills(ex, t', usedCloseIds, usedFillIds, FillsFor(ex, t).value);
    }
  }

  /** Whatever was compared, the row holds a value within tolerance once the outcome is written. */
  lemma ComparedRowIsClose(ex: Exchange, t: Trade, c: set<string>, f: set<string>, now: int)
    requires StepOf(ex, t, c, f).computed.Some?
    ensures
      var step := StepOf(ex, t, c, f);
      var t' := if step.outcome.Emit? then ApplyUpdate(t, step.outcome.update, now) else t;
      && StoredPnl(t').Some?
      && !Mismatch(StoredPnl(t').value, step.computed.value)
  {
    var step := StepOf(ex, t, c, f);
    RoundedValueSettles(step.computed.value);
    if step.outcome.Emit? {
      StoredAfterUpdate(t, step.outcome.update, now);
    }
  }

  ghost predicate DistinctIds(trades: seq<Trade>) {
    forall i, j :: 0 <= i < j < |trades| ==> trades[i].id != trades[j].id
  }

  lemma {:induction false} UntouchedRow(table: map<int, Trade>, trades: seq<Trade>, steps: seq<Step>, now: int, id: int)
    requires |trades| == |steps| && forall i :: 0 <= i < |trades| ==> trades[i].id != id
    ensures id in TableAfter(table, trades, steps, now) <==> id in table
    ensures id in table ==> TableAfter(table, trades, steps, now)[id] == table[id]
  {
    if trades != [] {
      UntouchedRow(table, trades[..|trades| - 1], steps[..|trades| - 1], now, id);
    }
  }

  lemma {:induction false} WrittenRow(table: map<int, Trade>, trades: seq<Trade>, steps: seq<Step>, now: int, i: nat)
    requires |trades| == |steps| && DistinctIds(trades) && i < |trades| && trades[i].id in table
    ensures
      var table' := TableAfter(table, trades, steps, now);
      && trades[i].id in table'
      && table'[trades[i].id] == WriteStep(table, trades[i].id, steps[i].outcome, now)[trades[i].id]
  {
    var last := |trades| - 1;
    if i == last {
      UntouchedRow(table, trades[..last], steps[..last], now, trades[i].id);
    } else {
      WrittenRow(table, trades[..last], steps[..last], now, i);
    }
  }

  /** After a run over a table that still holds the loaded rows, every trade whose PnL was compared
      stores a value within 0.10 or 5 percent of the computed one. */
  lemma RunLeavesCloseValues(exs: seq<Exchange>, trades: seq<Trade>, c: set<string>, f: set<string>,
                             table: map<int, Trade>, now: int, i: nat)
    requires |exs| == |trades| && i < |trades| && DistinctIds(trades)
    requires trades[i].id in table && table[trades[i].id] == trades[i]
    requires RunOf(exs, trades, c, f)[i].computed.Some?
    ensures
      var steps := RunOf(exs, trades, c, f);
      HoldsCloseValue(TableAfter(table, trades, steps, now), trades[i].id, steps[i].computed.value)
  {
    var steps := RunOf(exs, trades, c, f);
    RunStep(exs, trades, c, f, i);
    ComparedRowIsClose(exs[i], trades[i], CloseIdsAfter(steps[..i], c), FillIdsAfter(steps[..i], f), now);
    WrittenRow(table, trades, steps, now, i);
    SettledRowIsClose(TableAfter(table, trades, steps, now), trades[i].id, steps[i].computed.value);
  }

  /** A run leaves every row alone that is not a closed KuCoin trade with all it takes to be compared. */
  lemma {:induction false} OnlyClosedTradesAreUpdated(exs: seq<Exchange>, trades: seq<Trade>, c: set<string>,
                                                      f: set<string>, table: map<int, Trade>, now: int, id: int)
    requires |exs| == |trades| && id in table
    requires forall t :: t in trades && t.id == id ==>
               || !t.onKucoin || !t.isClosed || t.createdMs == 0 || ClosedMs(t) == 0 || t.symbol == ""
               || StoredPnl(t).None?
    ensures
      var after := TableAfter(table, trades, RunOf(exs, trades, c, f), now);
      id in after && after[id] == table[id]
  {
    if trades != [] {
      var last := |trades| - 1;
      OnlyClosedTradesAreUpdated(exs[..last], trades[..last], c, f, table, now, id);
      assert RunOf(exs, trades, c, f)[..last] == RunOf(exs[..last], trades[..last], c, f);
      assert trades[last] in trades;
    }
  }

  ghost predicate HoldsCloseValue(table: map<int, Trade>, id: int, x: real) {
    && id in table && StoredPnl(table[id]).Some?
    && var off := AbsReal(StoredPnl(table[id]).value - x);
       off <= 0.10 || off <= 0.05 * AbsReal(x)
  }

  lemma SettledRowIsClose(table: map<int, Trade>, id: int, x: real)
    requires id in table && StoredPnl(table[id]).Some? && !Mismatch(StoredPnl(table[id]).value, x)
    ensures HoldsCloseValue(table, id, x)
  {
    MismatchMeans(StoredPnl(table[id]).value, x);
  }

  // ---- Where the guarantees stop: fills without an id ----

  /** The fill is among the exits of two steps. */
  ghost predicate InTwo(f: Fill, steps: seq<Step>) {
    exists i, j :: 0 <= i < j < |steps| && f in steps[i].exits && f in steps[j].exits
  }

  /** The fill counts as an exit for two distinct trades of one run. */
  ghost predicate CountsTwice(f: Fill, exs: seq<Exchange>, trades: seq<Trade>, c: set<string>, g: set<string>) {
    |exs| == |trades| && DistinctIds(trades) && InTwo(f, RunOf(exs, trades, c, g))
  }

  /** Some trade takes the fill for an exit. */
  predicate CanExit(f: Fill) { f.side.Buy? || f.side.Sell? || f.reduceOnly }

  function TradeExitedBy(f: Fill, id: int): Trade {
    Trade(id, true, true, 1, Some(1), 1, "ADA", if f.side.Buy? then Short else Long,
          Missing, "", Missing, Missing, Missing, Missing)
  }

  /** A server without position history whose fills are always the same single one. */
  function OneFillExchange(f: Fill): Exchange {
    Exchange((symbol: string, startMs: int, endMs: int, filtered: bool, page: nat) => Page([]),
             (symbol: string, startMs: int, endMs: int) => Some([f]))
  }

  lemma NoRecordToSettleBy(f: Fill, t: Trade)
    ensures SettlingRecord(OneFillExchange(f), t, {}).None?
  {
    FilterNone(HasSymbol(KucoinSymbol(t.symbol)), []);
    assert HistoryFor(OneFillExchange(f), t) == [];
    MatchIsOptimal(t, {}, []);
  }

  lemma LoneFillIsExit(f: Fill, id: int)
    requires CanExit(f) && MarkId(f) == ""
    ensures
      var t := TradeExitedBy(f, id);
      FillsStepOf(t, {}, [f]).exits == [f] && Consumed([f]) == {}
  {
    var t := TradeExitedBy(f, id);
    LoneFillPlaysExit(f, id);
    FilterSingle(Plays(Exit, t.kind, t.orderId, {}), f);
    ExitsOfFillsStep(t, {}, [f]);
  }

  lemma LoneFillPlaysExit(f: Fill, id: int)
    requires CanExit(f)
    ensures
      var t := TradeExitedBy(f, id);
      Plays(Exit, t.kind, t.orderId, {})(f)
  {
  }

  lemma ExitsOfFillsStep(t: Trade, used: set<string>, fills: seq<Fill>)
    requires !t.kind.OtherKind?
    ensures FillsStepOf(t, used, fills).exits == FillsIn(Exit, t, used, fills)
  {
  }

  lemma LoneFillStep(f: Fill, id: int)
    requires CanExit(f) && MarkId(f) == ""
    ensures
      var step := StepOf(OneFillExchange(f), TradeExitedBy(f, id), {}, {});
      step.exits == [f] && step.usedCloseIds == {} && step.usedFillIds == {}
  {
    NoRecordToSettleBy(f, TradeExitedBy(f, id));
    LoneFillIsExit(f, id);
  }

  lemma UnmarkedSteps(ex: Exchange, t: Trade, t': Trade)
    requires StepOf(ex, t, {}, {}).usedCloseIds == {} && StepOf(ex, t, {}, {}).usedFillIds == {}
    ensures RunOf([ex, ex], [t, t'], {}, {}) == [StepOf(ex, t, {}, {}), StepOf(ex, t', {}, {})]
  {
    RunNext([ex, ex], [t, t'], {}, {}, 0);
    RunNext([ex, ex], [t, t'], {}, {}, 1);
    assert [ex, ex][..2] == [ex, ex] && [t, t'][..2] == [t, t'];
  }

  lemma UnmarkedFillCountsTwice(f: Fill)
    requires CanExit(f) && MarkId(f) == ""
    ensures
      var ex := OneFillExchange(f);
      CountsTwice(f, [ex, ex], [TradeExitedBy(f, 1), TradeExitedBy(f, 2)], {}, {})
  {
    var ex, t, t' := OneFillExchange(f), TradeExitedBy(f, 1), TradeExitedBy(f, 2);
    LoneFillStep(f, 1);
    LoneFillStep(f, 2);
    UnmarkedSteps(ex, t, t');
    FirstTwo(f, StepOf(ex, t, {}, {}), StepOf(ex, t', {}, {}));
  }

  lemma FirstTwo(f: Fill, a: Step, b: Step)
    requires f in a.exits && f in b.exits
    ensures InTwo(f, [a, b])
  {
    assert f in [a, b][0].exits && f in [a, b][1].exits;
  }

  lemma StepExitsCanExit(ex: Exchange, t: Trade, c: set<string>, g: set<string>, f: Fill)
    requires f in StepOf(ex, t, c, g).exits
    ensures CanExit(f)
  {
    FillsExitsCanExit(t, g, FillsFor(ex, t).value, f);
  }

  lemma FillsExitsCanExit(t: Trade, used: set<string>, fills: seq<Fill>, f: Fill)
    requires f in FillsStepOf(t, used, fills).exits
    ensures CanExit(f)
  {
    FilterMembers(Plays(Exit, t.kind, t.orderId, used), fills);
  }

  /** A fill can count as an exit for two distinct trades of a run, whatever was used before the run, exactly when
      it can be an exit at all and carries neither a trade id nor an id: the order id, by which used fills are
      looked up as well, is never marked. */
  lemma CountsTwiceIff(f: Fill)
    ensures (exists exs, trades, c, g :: CountsTwice(f, exs, trades, c, g)) <==> CanExit(f) && MarkId(f) == ""
  {
    if CanExit(f) && MarkId(f) == "" {
      UnmarkedFillCountsTwice(f);
    }
    forall exs, trades, c, g | CountsTwice(f, exs, trades, c, g)
      ensures CanExit(f) && MarkId(f) == ""
    {
      var steps := RunOf(exs, trades, c, g);
      var i, j :| 0 <= i < j < |trades| && f in steps[i].exits && f in steps[j].exits;
      NoDoubleUse(exs, trades, c, g, i, j);
      RunStep(exs, trades, c, g, i);
      StepExitsCanExit(exs[i], trades[i], CloseIdsAfter(steps[..i], c), FillIdsAfter(steps[..i], g), f);
    }
  }

  // ---- Where the guarantees stop: trades without a close time ----

  function RecordAt(openTime: int, closeTime: int, pnl: real): Record {
    Record("", "", openTime, closeTime, Missing, "", "", true, Number(pnl), Missing, Missing, Missing,
           Missing, Missing, Missing, Missing, Missing, Missing, Missing, Missing)
  }

  function TwoRecordExchange(a: Record, b: Record): Exchange {
    Exchange((symbol: string, startMs: int, endMs: int, filtered: bool, page: nat) => Page([a, b]),
             (symbol: string, startMs: int, endMs: int) => None)
  }

  /** An unused record exactly at the trade's times is chosen over one that was closed at another time. */
  lemma ExactRecordIsChosen(t: Trade, closeTime: int, pnl: real, pnl': real, records: seq<Record>)
    requires t.createdMs != 0 && ClosedMs(t) != 0 && closeTime != 0 && closeTime != ClosedMs(t)
    requires
      var r, other := RecordAt(t.createdMs, ClosedMs(t), pnl), RecordAt(t.createdMs, closeTime, pnl');
      records == [r, other] || records == [other, r]
    ensures MatchRecord(t, {}, records) == Some(RecordAt(t.createdMs, ClosedMs(t), pnl))
  {
    var r, other := RecordAt(t.createdMs, ClosedMs(t), pnl), RecordAt(t.createdMs, closeTime, pnl');
    ExactScores(t, closeTime, pnl, pnl');
    BetterIsChosen(t, r, other, records);
  }

  lemma ExactScores(t: Trade, closeTime: int, pnl: real, pnl': real)
    requires t.createdMs != 0 && ClosedMs(t) != 0 && closeTime != 0 && closeTime != ClosedMs(t)
    ensures
      var r, other := RecordAt(t.createdMs, ClosedMs(t), pnl), RecordAt(t.createdMs, closeTime, pnl');
      IsStrict(t, {}, r) && Less(ScoreOf(t, r), ScoreOf(t, other))
  {
  }

  lemma BetterIsChosen(t: Trade, r: Record, other: Record, records: seq<Record>)
    requires records == [r, other] || records == [other, r]
    requires IsStrict(t, {}, r) && Less(ScoreOf(t, r), ScoreOf(t, other))
    ensures MatchRecord(t, {}, records) == Some(r)
  {
    MatchIsOptimal(t, {}, records);
    assert r in records;
  }

  lemma ExactRecordDecides(t: Trade, closeTime: int, pnl: real, pnl': real, exactFirst: bool)
    requires Eligible(t) && closeTime != 0 && closeTime != ClosedMs(t)
    ensures
      var r, other := RecordAt(t.createdMs, ClosedMs(t), pnl), RecordAt(t.createdMs, closeTime, pnl');
      var ex := if exactFirst then TwoRecordExchange(r, other) else TwoRecordExchange(other, r);
      StepOf(ex, t, {}, {}).outcome == RecordOutcome(t, r)
  {
    var r, other := RecordAt(t.createdMs, ClosedMs(t), pnl), RecordAt(t.createdMs, closeTime, pnl');
    var ex := if exactFirst then TwoRecordExchange(r, other) else TwoRecordExchange(other, r);
    var records := if exactFirst then [r, other] else [other, r];
    assert HistoryFor(ex, t) == records;
    ExactRecordIsChosen(t, closeTime, pnl, pnl', records);
    StepByRecord(ex, t, {}, {}, r);
  }

  /** A PnL that is off from the stored one. */
  function FarFrom(stored: real): int { if stored <= 0.0 then 100 else -100 }

  lemma FarRecordEmits(t: Trade, r: Record, pnl: int)
    requires r == RecordAt(r.openTime, r.closeTime, pnl as real) && r.openTime != 0 && r.closeTime != 0
    requires StoredPnl(t).Some? && pnl == FarFrom(StoredPnl(t).value)
    ensures RecordOutcome(t, r) == Emit(RecordUpdate(r)) && RecordUpdate(r).pnl == pnl as real
  {
    MismatchMeans(StoredPnl(t).value, pnl as real);
    RoundFixes(pnl);
  }

  /** Without a close time the update itself moves the time the match is made by. For every such trade there is
      an exchange, one record closed at the old time and one at the new, for which the call after the update
      writes another PnL. */
  lemma OpenEndedTradeNeedNotSettle(t: Trade, now: int)
    requires Eligible(t) && t.closedAt.None? && StoredPnl(t).Some? && now != 0 && now != t.updatedMs
    ensures
      var pnl := FarFrom(StoredPnl(t).value);
      var ex := TwoRecordExchange(RecordAt(t.createdMs, t.updatedMs, pnl as real),
                                  RecordAt(t.createdMs, now, (-pnl) as real));
      var first := StepOf(ex, t, {}, {}).outcome;
      && first.Emit? && first.update.pnl == pnl as real
      && var second := StepOf(ex, ApplyUpdate(t, first.update, now), {}, {}).outcome;
         second.Emit? && second.update.pnl == (-pnl) as real
  {
    var pnl := FarFrom(StoredPnl(t).value);
    var a, b := RecordAt(t.createdMs, t.updatedMs, pnl as real), RecordAt(t.createdMs, now, (-pnl) as real);
    ExactRecordDecides(t, now, pnl as real, (-pnl) as real, true);
    FarRecordEmits(t, a, pnl);
    var t' := ApplyUpdate(t, RecordUpdate(a), now);
    StoredAfterUpdate(t, RecordUpdate(a), now);
    ExactRecordDecides(t', t.updatedMs, (-pnl) as real, pnl as real, false);
    FarRecordEmits(t', b, -pnl);
  }

  /** If the call updates the trade, the same call after the update was written finds nothing to do. */
  ghost predicate Settles(ex: Exchange, t: Trade, c: set<string>, f: set<string>, now: int) {
    var outcome := StepOf(ex, t, c, f).outcome;
    outcome.Emit? ==> StepOf(ex, ApplyUpdate(t, outcome.update, now), c, f).outcome == NoUpdate
  }

  /** A trade that is not eligible, or whose stored PnL is unreadable, is never updated. */
  lemma OthersAreNeverUpdated(ex: Exchange, t: Trade, c: set<string>, f: set<string>)
    requires !Eligible(t) || StoredPnl(t).None?
    ensures !StepOf(ex, t, c, f).outcome.Emit?
  {
  }

  /** The update time is what the trade is matched by, and the write changes it to another usable time. */
  predicate MovesItsOwnMatch(t: Trade, now: int) {
    t.closedAt.None? && now != t.updatedMs && now != 0
  }

  lemma StaysPutSettles(ex: Exchange, t: Trade, c: set<string>, f: set<string>, now: int)
    requires !Eligible(t) || StoredPnl(t).None? || !MovesItsOwnMatch(t, now)
    ensures Settles(ex, t, c, f, now)
  {
    if !Eligible(t) || StoredPnl(t).None? {
      OthersAreNeverUpdated(ex, t, c, f);
    } else if StepOf(ex, t, c, f).outcome.Emit? {
      if t.closedAt.Some? || now == t.updatedMs {
        ReconcilingSettles(ex, t, c, f, now);
      } else {
        assert !Eligible(ApplyUpdate(t, StepOf(ex, t, c, f).outcome.update, now));
      }
    }
  }

  /** A trade settles, whatever the exchange shows and whatever was used before, exactly when it is not updated
      at all or has a close time or the write does not move its update time (to a usable one). */
  lemma SettlesIff(t: Trade, now: int)
    ensures (forall ex, c, f :: Settles(ex, t, c, f, now)) <==>
            !Eligible(t) || StoredPnl(t).None? || !MovesItsOwnMatch(t, now)
  {
    if !Eligible(t) || StoredPnl(t).None? || !MovesItsOwnMatch(t, now) {
      forall ex, c, f
        ensures Settles(ex, t, c, f, now)
      {
        StaysPutSettles(ex, t, c, f, now);
      }
    } else {
      OpenEndedTradeNeedNotSettle(t, now);
      var pnl := FarFrom(StoredPnl(t).value);
      assert !Settles(TwoRecordExchange(RecordAt(t.createdMs, t.updatedMs, pnl as real),
                                        RecordAt(t.createdMs, now, (-pnl) as real)), t, {}, {}, now);
    }
  }

  lemma RoundFixes(n: int)
    ensures RoundTo(n as real, 8) == n as real
  {
    assert Pow10(8) == 100_000_000;
    RoundFixesIntegers(n * 100_000_000);
  }

  // ---- What is asked of the exchange ----

  lemma {:induction false} SamePages(api: Api, api': Api, symbol: string, page: nat)
    requires forall filtered, p :: api(filtered, p) == api'(filtered, p)
    ensures CollectFrom(api, symbol, page) == CollectFrom(api', symbol, page)
    decreases MAX_PAGES + 1 - page
  {
    if page <= MAX_PAGES {
      assert PageRecords(api, symbol, page) == PageRecords(api', symbol, page);
      SamePages(api, api', symbol, page + 1);
    }
  }

  /** Only the trade's KuCoin symbol, from half an hour before its creation to half an hour after its close, is
      asked for: exchanges that agree on that settle it alike. */
  lemma StepAsksForWindow(ex: Exchange, ex': Exchange, t: Trade, c: set<string>, f: set<string>)
    requires
      var symbol := (if t.symbol == "BTC" then "XBT" else t.symbol) + "USDTM";
      var start := if t.createdMs > 1_800_000 then t.createdMs - 1_800_000 else 0;
      var end := (if t.closedAt.Some? then t.closedAt.value else t.updatedMs) + 1_800_000;
      && ex.fills(symbol, start, end) == ex'.fills(symbol, start, end)
      && forall filtered, page :: ex.positions(symbol, start, end, filtered, page) ==
                                  ex'.positions(symbol, start, end, filtered, page)
    ensures StepOf(ex, t, c, f) == StepOf(ex', t, c, f)
  {
    var symbol := KucoinSymbol(t.symbol);
    assert symbol == (if t.symbol == "BTC" then "XBT" else t.symbol) + "USDTM";
    var api := ApiFor(ex, symbol, WindowStart(t), WindowEnd(t));
    var api' := ApiFor(ex', symbol, WindowStart(t), WindowEnd(t));
    SamePages(api, api', symbol, 1);
    assert HistoryFor(ex, t) == HistoryFor(ex', t);
    assert FillsFor(ex, t) == FillsFor(ex', t);
  }

  // ---- What a run writes ----

  /** The row of an updated trade holds the update's PnL twice, the prices it gives, and is otherwise as it was. */
  lemma RunWritesUpdate(exs: seq<Exchange>, trades: seq<Trade>, c: set<string>, f: set<string>,
                        table: map<int, Trade>, now: int, i: nat)
    requires |exs| == |trades| && i < |trades| && DistinctIds(trades) && trades[i].id in table
    ensures trades[i].id in TableAfter(table, trades, RunOf(exs, trades, c, f), now)
    ensures
      var outcome := RunOf(exs, trades, c, f)[i].outcome;
      var before, after := table[trades[i].id], TableAfter(table, trades, RunOf(exs, trades, c, f), now)[trades[i].id];
      if outcome.Emit? then
        && after.pnlUsd == after.netPnl == Number(outcome.update.pnl) && after.updatedMs == now
        && (match outcome.update.entryPrice case None => after.entryPrice == before.entryPrice
                                            case Some(p) => after.entryPrice == Number(p))
        && (match outcome.update.exitPrice case None => after.exitPrice == before.exitPrice
                                           case Some(p) => after.exitPrice == Number(p))
        && after.(pnlUsd := before.pnlUsd, netPnl := before.netPnl, updatedMs := before.updatedMs,
                  entryPrice := before.entryPrice, exitPrice := before.exitPrice) == before
      else after == before
  {
    WrittenRow(table, trades, RunOf(exs, trades, c, f), now, i);
  }

  // ---- When fills decide ----

  /** Without a matching record, or with one that has no field at all, the fills decide: outcome, compared value and
      used ids are theirs, and nothing happens when they cannot be had. */
  lemma FillsDecide(ex: Exchange, t: Trade, c: set<string>, f: set<string>)
    requires Eligible(t)
    requires
      var found := MatchRecord(t, c, HistoryFor(ex, t));
      found.None? || !found.value.hasKeys
    ensures
      var step := StepOf(ex, t, c, f);
      && step.usedCloseIds == c
      && match FillsFor(ex, t)
         case None => step.outcome == NoUpdate && step.usedFillIds == f
         case Some(fills) =>
           var expected := FillsStepOf(t, f, fills);
           && step.outcome == expected.outcome && step.computed == expected.computed && step.exits == expected.exits
           && step.usedFillIds == f + Consumed(expected.exits)
  {
  }
}
