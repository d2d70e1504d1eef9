/** The KuCoin PnL reconciler: one trade at a time, with two sets of ids that are already used up. */
module Reconcile {
  import opened Common
  import opened Fields
  import opened Rounding
  import opened PositionHistory
  import opened FillPnl
  import opened Matching

  const WINDOW_PAD := 30 * 60 * 1000

  // positions: symbol, start, end, filtered by symbol or not, page. fills: symbol, start, end; None when it raises.
  datatype Exchange = Exchange(
    positions: (string, int, int, bool, nat) -> Response,
    fills: (string, int, int) -> Option<seq<Fill>>)

  function KucoinSymbol(symbol: string): string {
    if symbol == "BTC" then "XBTUSDTM" else symbol + "USDTM"
  }

  function WindowStart(t: Trade): int { if t.createdMs > WINDOW_PAD then t.createdMs - WINDOW_PAD else 0 }

  function WindowEnd(t: Trade): int { ClosedMs(t) + WINDOW_PAD }

  function ApiFor(ex: Exchange, symbol: string, startMs: int, endMs: int): Api {
    (filtered: bool, page: nat) => ex.positions(symbol, startMs, endMs, filtered, page)
  }

  function HistoryFor(ex: Exchange, t: Trade): seq<Record> {
    var symbol := KucoinSymbol(t.symbol);
    CollectFrom(ApiFor(ex, symbol, WindowStart(t), WindowEnd(t)), symbol, 1)
  }

  function FillsFor(ex: Exchange, t: Trade): Option<seq<Fill>> {
    ex.fills(KucoinSymbol(t.symbol), WindowStart(t), WindowEnd(t))
  }

  predicate Eligible(t: Trade) {
    t.onKucoin && t.isClosed && t.createdMs != 0 && ClosedMs(t) != 0 && t.symbol != ""
  }

  /** The record the trade is settled by; a chosen record without any key counts as none. */
  function SettlingRecord(ex: Exchange, t: Trade, usedCloseIds: set<string>): Option<Record> {
    match MatchRecord(t, usedCloseIds, HistoryFor(ex, t))
    case None => None
    case Some(r) => if r.hasKeys then Some(r) else None
  }

  function RecordUpdate(r: Record): Update {
    Update(RoundTo(FinalPnl(r), 8), ToFloat(Or(r.avgEntryPrice, r.openPrice)),
           ToFloat(Or(r.closePrice, r.avgExitPrice)), PositionRecord(r.closeId))
  }

  /** A record without an open or close time makes the report line raise. */
  function RecordOutcome(t: Trade, r: Record): Outcome {
    if r.openTime == 0 || r.closeTime == 0 || StoredPnl(t).None? then Raised
    else if Mismatch(StoredPnl(t).value, FinalPnl(r)) then Emit(RecordUpdate(r))
    else NoUpdate
  }

  // computed is the PnL the stored one was compared with, None when there was no comparison.
  datatype Step = Step(outcome: Outcome, usedCloseIds: set<string>, usedFillIds: set<string>,
                       exits: seq<Fill>, computed: Option<real>)

  function StepOf(ex: Exchange, t: Trade, usedCloseIds: set<string>, usedFillIds: set<string>): Step {
    if !Eligible(t) then Step(NoUpdate, usedCloseIds, usedFillIds, [], None)
    else
      match SettlingRecord(ex, t, usedCloseIds)
      case Some(r) =>
        var outcome := RecordOutcome(t, r);
        Step(outcome, if outcome.Emit? && r.closeId != "" then usedCloseIds + {r.closeId} else usedCloseIds,
             usedFillIds, [], if outcome.Raised? then None else Some(FinalPnl(r)))
      case None =>
        match FillsFor(ex, t)
        case None => Step(NoUpdate, usedCloseIds, usedFillIds, [], None)
        case Some(fills) =>
          var step := FillsStepOf(t, usedFillIds, fills);
          Step(step.outcome, usedCloseIds, usedFillIds + Consumed(step.exits), step.exits, step.computed)
  }

  // ---- A whole run, trade by trade; the exchange may answer differently each time ----

  function RunOf(exs: seq<Exchange>, trades: seq<Trade>, usedCloseIds: set<string>, usedFillIds: set<string>)
    : (steps: seq<Step>)
    requires |exs| == |trades|
    ensures |steps| == |trades|
  {
    if trades == [] then []
    else
      var last := |trades| - 1;
      var before := RunOf(exs[..last], trades[..last], usedCloseIds, usedFillIds);
      before + [StepOf(exs[last], trades[last], CloseIdsAfter(before, usedCloseIds), FillIdsAfter(before, usedFillIds))]
  }

  function CloseIdsAfter(steps: seq<Step>, initial: set<string>): set<string> {
    if steps == [] then initial else steps[|steps| - 1].usedCloseIds
  }

  function FillIdsAfter(steps: seq<Step>, initial: set<string>): set<string> {
    if steps == [] then initial else steps[|steps| - 1].usedFillIds
  }

  /** The trades table after the updates were written, row by row. */
  function TableAfter(table: map<int, Trade>, trades: seq<Trade>, steps: seq<Step>, now: int): map<int, Trade>
    requires |trades| == |steps|
  {
    if trades == [] then table
    else
      var last := |trades| - 1;
      WriteStep(TableAfter(table, trades[..last], steps[..last], now), trades[last].id, steps[last].outcome, now)
  }

  function WriteStep(table: map<int, Trade>, id: int, outcome: Outcome, now: int): map<int, Trade> {
    if outcome.Emit? && id in table then table[id := ApplyUpdate(table[id], outcome.update, now)] else table
  }

  function EmitCount(outcomes: seq<Outcome>): nat {
    if outcomes == [] then 0
    else EmitCount(outcomes[..|outcomes| - 1]) + if outcomes[|outcomes| - 1].Emit? then 1 else 0
  }

  // ---- The loops over records and fills ----

  /** The strict candidates or, failing those, the relaxed ones. */
  method CandidatePool(t: Trade, used: set<string>, records: seq<Record>) returns (candidates: seq<Record>)
    ensures candidates == Pool(t, used, records)
  {
    candidates := [];
    for i := 0 to |records|
      invariant candidates == Filter(Strict(t, used), records[..i])
    {
      FilterNext(Strict(t, used), records, i);
      if IsStrict(t, used, records[i]) {
        candidates := candidates + [records[i]];
      }
    }
    assert records[..|records|] == records;
    if candidates == [] {
      for i := 0 to |records|
        invariant candidates == Filter(Relaxed(t, used), records[..i])
      {
        FilterNext(Relaxed(t, used), records, i);
        if IsRelaxed(t, used, records[i]) {
          candidates := candidates + [records[i]];
        }
      }
    }
  }

  /** The loop that sorts unused fills into entries and exits. */
  method SplitFills(t: Trade, used: set<string>, fills: seq<Fill>) returns (entries: seq<Fill>, exits: seq<Fill>)
    ensures entries == FillsIn(Entry, t, used, fills)
    ensures exits == FillsIn(Exit, t, used, fills)
  {
    entries, exits := [], [];
    for i := 0 to |fills|
      invariant entries == FillsIn(Entry, t, used, fills[..i])
      invariant exits == FillsIn(Exit, t, used, fills[..i])
    {
      FilterNext(Plays(Entry, t.kind, t.orderId, used), fills, i);
      FilterNext(Plays(Exit, t.kind, t.orderId, used), fills, i);
      if LookupId(fills[i]) != "" && LookupId(fills[i]) in used {
        continue;
      }
      match RoleOf(t.kind, t.orderId, fills[i]) {
        case Entry => entries := entries + [fills[i]];
        case Exit => exits := exits + [fills[i]];
        case Unrelated =>
      }
    }
    assert fills[..|fills|] == fills;
  }

  /** The running totals over entry and exit fills. */
  method AddUp(entries: seq<Fill>, exits: seq<Fill>) returns (totals: Totals)
    ensures totals == TotalsOf(entries, exits)
  {
    var entryValue, entryQty, entryFee := AddUpEntries(entries);
    var reported, exitValue, exitQty, exitFee := AddUpExits(exits);
    totals := Totals(entryValue, entryQty, entryFee, reported, exitValue, exitQty, exitFee);
  }

  method AddUpEntries(entries: seq<Fill>) returns (value: real, qty: real, fee: real)
    ensures value == SumBy(EntryValue, entries) && qty == SumBy(EntryQty, entries) && fee == SumBy(EntryFee, entries)
  {
    value, qty, fee := 0.0, 0.0, 0.0;
    for i := 0 to |entries|
      invariant value == SumBy(EntryValue, entries[..i])
      invariant qty == SumBy(EntryQty, entries[..i])
      invariant fee == SumBy(EntryFee, entries[..i])
    {
      assert entries[..i + 1][..i] == entries[..i];
      var f := entries[i];
      if EntryReadable(f) {
        qty := qty + Quantity(f).value;
        value := value + Quantity(f).value * Price(f).value;
        fee := fee + Fee(f).value;
      }
    }
    assert entries[..|entries|] == entries;
  }

  method AddUpExits(exits: seq<Fill>) returns (reported: real, value: real, qty: real, fee: real)
    ensures reported == SumBy(ExitReported, exits) && value == SumBy(ExitValue, exits)
    ensures qty == SumBy(ExitQty, exits) && fee == SumBy(ExitFee, exits)
  {
    reported, value, qty, fee := 0.0, 0.0, 0.0, 0.0;
    for i := 0 to |exits|
      invariant reported == SumBy(ExitReported, exits[..i])
      invariant value == SumBy(ExitValue, exits[..i])
      invariant qty == SumBy(ExitQty, exits[..i])
      invariant fee == SumBy(ExitFee, exits[..i])
    {
      assert exits[..i + 1][..i] == exits[..i];
      var f := exits[i];
      if ExitReadable(f) {
        if !Reported(f).Missing? {
          reported := reported + ToFloat(Reported(f)).value;
        } else {
          qty := qty + Quantity(f).value;
          value := value + Quantity(f).value * Price(f).value;
        }
        if Fee(f).Some? {
          fee := fee + Fee(f).value;
        }
      }
    }
    assert exits[..|exits|] == exits;
  }

  // ---- The loop over trades ----

  lemma EmitNext(outcomes: seq<Outcome>, outcome: Outcome)
    ensures EmitCount(outcomes + [outcome]) == EmitCount(outcomes) + if outcome.Emit? then 1 else 0
  {
    assert (outcomes + [outcome])[..|outcomes|] == outcomes;
  }

  lemma RunNext(exs: seq<Exchange>, trades: seq<Trade>, c: set<string>, f: set<string>, i: nat)
    requires |exs| == |trades| && i < |trades|
    ensures
      var before := RunOf(exs[..i], trades[..i], c, f);
      RunOf(exs[..i + 1], trades[..i + 1], c, f) ==
        before + [StepOf(exs[i], trades[i], CloseIdsAfter(before, c), FillIdsAfter(before, f))]
  {
    assert exs[..i + 1][..i] == exs[..i] && trades[..i + 1][..i] == trades[..i];
  }

  lemma TableNext(table: map<int, Trade>, trades: seq<Trade>, steps: seq<Step>, now: int, i: nat)
    requires i < |trades| && |steps| == i + 1
    ensures TableAfter(table, trades[..i + 1], steps, now) ==
            WriteStep(TableAfter(table, trades[..i], steps[..i], now), trades[i].id, steps[i].outcome, now)
  {
    assert trades[..i + 1][..i] == trades[..i];
  }

  /** Where a run stands after the given steps. */
  ghost predicate Reached(steps: seq<Step>, trades: seq<Trade>, c: set<string>, f: set<string>, rows: map<int, Trade>,
                          now: int, closeIds: set<string>, fillIds: set<string>, table: map<int, Trade>,
                          outcomes: seq<Outcome>, fixes: nat)
  {
    && |steps| == |trades| == |outcomes|
    && (forall k :: 0 <= k < |steps| ==> outcomes[k] == steps[k].outcome)
    && table == TableAfter(rows, trades, steps, now)
    && closeIds == CloseIdsAfter(steps, c) && fillIds == FillIdsAfter(steps, f)
    && fixes == EmitCount(outcomes)
  }

  lemma ReachedNext(steps: seq<Step>, step: Step, trades: seq<Trade>, i: nat, c: set<string>, f: set<string>,
                    rows: map<int, Trade>, now: int, table: map<int, Trade>, outcomes: seq<Outcome>, fixes: nat)
    requires i < |trades|
    requires Reached(steps, trades[..i], c, f, rows, now, CloseIdsAfter(steps, c), FillIdsAfter(steps, f),
                     table, outcomes, fixes)
    ensures Reached(steps + [step], trades[..i + 1], c, f, rows, now, step.usedCloseIds, step.usedFillIds,
                    WriteStep(table, trades[i].id, step.outcome, now), outcomes + [step.outcome],
                    fixes + if step.outcome.Emit? then 1 else 0)
  {
    EmitNext(outcomes, step.outcome);
    TableNext(rows, trades, steps + [step], now, i);
    assert (steps + [step])[..i] == steps;
  }

  lemma NoPositions(outcomes: seq<Outcome>)
    requires |outcomes| == 0
    ensures (set i | 0 <= i < |outcomes| && outcomes[i].Emit?) == {}
  {
  }

  /** The count is the number of positions with an update. */
  lemma {:induction false} EmitCountIs(outcomes: seq<Outcome>)
    ensures EmitCount(outcomes) == |set i | 0 <= i < |outcomes| && outcomes[i].Emit?|
  {
    if outcomes != [] {
      var last := |outcomes| - 1;
      EmitCountIs(outcomes[..last]);
      var before := set i | 0 <= i < last && outcomes[..last][i].Emit?;
      var all := set i | 0 <= i <= last && outcomes[i].Emit?;
      assert all == if outcomes[last].Emit? then before + {last} else before;
      assert all == set i | 0 <= i < |outcomes| && outcomes[i].Emit?;
    } else {
      NoPositions(outcomes);
    }
  }

  class Reconciler {
    var usedCloseIds: set<string>
    var usedFillIds: set<string>
    var table: map<int, Trade>

    constructor (table: map<int, Trade>)
      ensures usedCloseIds == {} && usedFillIds == {} && this.table == table
    {
      usedCloseIds, usedFillIds := {}, {};
      this.table := table;
    }

    /** Marks the exit fills' ids as used. */
    method UseUp(exits: seq<Fill>)
      modifies this`usedFillIds
      ensures usedFillIds == old(usedFillIds) + Consumed(exits)
    {
      for i := 0 to |exits|
        invariant usedFillIds == old(usedFillIds) + Consumed(exits[..i])
      {
        assert exits[..i + 1] == exits[..i] + [exits[i]];
        if MarkId(exits[i]) != "" {
          usedFillIds := usedFillIds + {MarkId(exits[i])};
        }
      }
      assert exits[..|exits|] == exits;
    }

    /** Splits the fills, adds them up, uses up the exit fills' ids, then compares with the stored PnL. */
    method CalculatePnlFromFills(t: Trade, fills: seq<Fill>) returns (outcome: Outcome)
      modifies this`usedFillIds
      ensures outcome == FillsStepOf(t, old(usedFillIds), fills).outcome
      ensures usedFillIds == old(usedFillIds) + Consumed(FillsStepOf(t, old(usedFillIds), fills).exits)
    {
      if fills == [] || t.kind.OtherKind? {
        return NoUpdate;
      }
      var entries, exits := SplitFills(t, usedFillIds, fills);
      if entries == [] && exits == [] {
        return NoUpdate;
      }
      var totals := AddUp(entries, exits);
      UseUp(exits);
      var stored := StoredPnl(t);
      if stored.None? || !Mismatch(stored.value, Net(t.kind, totals)) {
        return NoUpdate;
      }
      return Emit(FillsUpdate(t, totals));
    }

    /** The update for one trade, if any, from position history or else from fills. */
    method ReconcileTrade(ex: Exchange, t: Trade) returns (outcome: Outcome)
      modifies this`usedCloseIds, this`usedFillIds
      ensures
        var step := StepOf(ex, t, old(usedCloseIds), old(usedFillIds));
        outcome == step.outcome && usedCloseIds == step.usedCloseIds && usedFillIds == step.usedFillIds
    {
      if !t.onKucoin || !t.isClosed {
        return NoUpdate;
      }
      if t.createdMs == 0 || ClosedMs(t) == 0 {
        return NoUpdate;
      }
      if t.symbol == "" {
        return NoUpdate;
      }
      var symbol := KucoinSymbol(t.symbol);
      var records, _ := FetchAllPositionHistory(ApiFor(ex, symbol, WindowStart(t), WindowEnd(t)), symbol);
      var candidates := CandidatePool(t, usedCloseIds, records);
      if candidates == [] || !candidates[BestIndex(t, candidates)].hasKeys {
        var fills := FillsFor(ex, t);
        if fills.None? {
          return NoUpdate;
        }
        outcome := CalculatePnlFromFills(t, fills.value);
        return;
      }
      var r := candidates[BestIndex(t, candidates)];
      if r.openTime == 0 || r.closeTime == 0 {
        return Raised;
      }
      var stored := StoredPnl(t);
      if stored.None? {
        return Raised;
      }
      if !Mismatch(stored.value, FinalPnl(r)) {
        return NoUpdate;
      }
      if r.closeId != "" {
        usedCloseIds := usedCloseIds + {r.closeId};
      }
      return Emit(RecordUpdate(r));
    }

    /** One turn of the run's loop: the update, if any, goes to the trade's row. */
    method ReconcileAndWrite(ex: Exchange, t: Trade, now: int) returns (outcome: Outcome)
      modifies this
      ensures
        var step := StepOf(ex, t, old(usedCloseIds), old(usedFillIds));
        outcome == step.outcome && usedCloseIds == step.usedCloseIds && usedFillIds == step.usedFillIds
      ensures table == WriteStep(old(table), t.id, outcome, now)
    {
      outcome := ReconcileTrade(ex, t);
      if outcome.Emit? && t.id in table {
        table := table[t.id := ApplyUpdate(table[t.id], outcome.update, now)];
      }
    }

    /** The run over all loaded trades; an exception skips the trade. */
    method Run(exs: seq<Exchange>, trades: seq<Trade>, now: int) returns (outcomes: seq<Outcome>, fixes: nat)
      requires |exs| == |trades|
      modifies this
      ensures
        var steps := RunOf(exs, trades, old(usedCloseIds), old(usedFillIds));
        && |outcomes| == |steps| && (forall i :: 0 <= i < |steps| ==> outcomes[i] == steps[i].outcome)
        && table == TableAfter(old(table), trades, steps, now)
        && usedCloseIds == CloseIdsAfter(steps, old(usedCloseIds))
        && usedFillIds == FillIdsAfter(steps, old(usedFillIds))
        && fixes == EmitCount(outcomes)
    {
      outcomes, fixes := [], 0;
      ghost var c, f, rows := usedCloseIds, usedFillIds, table;
      for i := 0 to |trades|
        invariant Reached(RunOf(exs[..i], trades[..i], c, f), trades[..i], c, f, rows, now,
                          usedCloseIds, usedFillIds, table, outcomes, fixes)
      {
        RunNext(exs, trades, c, f, i);
        ghost var steps := RunOf(exs[..i], trades[..i], c, f);
        ghost var before := table;
        ghost var step := StepOf(exs[i], trades[i], usedCloseIds, usedFillIds);
        var outcome := ReconcileAndWrite(exs[i], trades[i], now);
        ReachedNext(steps, step, trades, i, c, f, rows, now, before, outcomes, fixes);
        outcomes := outcomes + [outcome];
        if outcome.Emit? {
          fixes := fixes + 1;
        }
      }
      assert exs[..|trades|] == exs && trades[..|trades|] == trades;
    }
  }
}
