/** Income of one trade, fetched in chunks of seven days, and the PnL computed from it. */
module IncomeWindow {
  import opened Common

  const CHUNK := 7 * 24 * 60 * 60 * 1000
  const BUFFER_AFTER := 5000

  // time is milliseconds, 0 when absent; price is None when absent or empty.
  datatype Income = Income(time: int, kind: string, value: real, price: Option<real>)

  // The exchange's answer for an inclusive time range; None when the call fails.
  type Query = (int, int) -> Option<seq<Income>>

  function ChunkEnd(start: int, end: int): int { if start + CHUNK < end then start + CHUNK else end }

  function ChunkIncomes(query: Query, start: int, end: int): seq<Income> {
    if query(start, ChunkEnd(start, end)).Some? then query(start, ChunkEnd(start, end)).value else []
  }

  function Fetched(query: Query, start: int, end: int): seq<Income>
    decreases end - start
  {
    if start >= end then []
    else ChunkIncomes(query, start, end) + Fetched(query, ChunkEnd(start, end), end)
  }

  function Chunks(start: int, end: int): seq<(int, int)>
    decreases end - start
  {
    if start >= end then [] else [(start, ChunkEnd(start, end))] + Chunks(ChunkEnd(start, end), end)
  }

  /** Chunk by chunk; a failed call adds nothing. The calls made are the chunks of the window. */
  method FetchWindow(query: Query, windowStart: int, windowEnd: int)
    returns (incomes: seq<Income>, ghost calls: seq<(int, int)>)
    ensures incomes == Fetched(query, windowStart, windowEnd)
    ensures calls == Chunks(windowStart, windowEnd)
  {
    incomes, calls := [], [];
    var chunkStart := windowStart;
    while chunkStart < windowEnd
      invariant incomes + Fetched(query, chunkStart, windowEnd) == Fetched(query, windowStart, windowEnd)
      invariant calls + Chunks(chunkStart, windowEnd) == Chunks(windowStart, windowEnd)
      decreases windowEnd - chunkStart
    {
      var chunkEnd := if chunkStart + CHUNK < windowEnd then chunkStart + CHUNK else windowEnd;
      var answer := query(chunkStart, chunkEnd);
      if answer.Some? {
        incomes := incomes + answer.value;
      }
      calls := calls + [(chunkStart, chunkEnd)];
      chunkStart := chunkEnd;
    }
  }

  function InPeriod(start: int, end: int): Income -> bool {
    (x: Income) => x.time != 0 && start <= x.time <= end
  }

  function SearchStart(start: int, before: int): int { start - if before > 0 then before else 0 }

  function SearchEnd(end: int, after: int): int { end + if after > 0 then after else 0 }

  function IncomeFor(query: Query, start: int, end: int, before: int, after: int): seq<Income> {
    var from, to := SearchStart(start, before), SearchEnd(end, after);
    Filter(InPeriod(from, to), Fetched(query, from, to))
  }

  // The language's upper-casing and its class of letters and digits.
  datatype Letters = Letters(upper: string -> string, isAlnum: char -> bool)

  const INVALID_SYMBOLS: set<string> := {
    "APE", "BT", "ARC", "AUCTION", "AEVO", "AERO", "BANANAS31", "APT", "AAVE",
    "ARKM", "ARB", "ALT", "BNX", "BILLY", "AI16Z", "BLAST", "BSW", "B2", "API3",
    "BON", "AIXBT", "AI", "1000BONK", "ANIME", "ARK", "BOND", "ANYONE", "ADA",
    "ALCH", "BERA", "ALU", "ALGO", "BONK", "AGT", "AVAX", "AIN", "ATOM",
    "1000RATS", "BMT", "BB", "AR", "BENDOG", "AVA", "0X0", "BRETT", "BANANA",
    "1000TURBO", "M", "PUMPFUN", "SPX", "MYX", "MOG", "PENGU", "SPK", "CRV",
    "HYPE", "MAGIC", "ZRC", "FARTCOIN", "IP", "SYN", "SKATE", "SOON", "PUMP"
  }

  predicate IsFetched(letters: Letters, symbol: string) {
    && 2 <= |symbol| <= 10
    && (forall i :: 0 <= i < |symbol| ==> letters.isAlnum(symbol[i]))
    && letters.upper(symbol) !in INVALID_SYMBOLS
  }

  /** The income of the padded period; nothing is asked for a symbol that looks invalid. */
  method GetIncomeForTradePeriod(letters: Letters, symbol: string, query: Query, start: int, end: int,
                                 before: int, after: int)
    returns (filtered: seq<Income>)
    ensures filtered == if IsFetched(letters, symbol) then IncomeFor(query, start, end, before, after) else []
  {
    if !IsFetched(letters, symbol) {
      return [];
    }
    filtered := FetchPeriod(query, start, end, before, after);
  }

  method FetchPeriod(query: Query, start: int, end: int, before: int, after: int) returns (filtered: seq<Income>)
    ensures filtered == IncomeFor(query, start, end, before, after)
  {
    var searchStart := start - if before > 0 then before else 0;
    var searchEnd := end + if after > 0 then after else 0;
    var all, _ := FetchWindow(query, searchStart, searchEnd);
    filtered := KeepPeriod(all, searchStart, searchEnd);
  }

  method KeepPeriod(all: seq<Income>, from: int, to: int) returns (filtered: seq<Income>)
    ensures filtered == Filter(InPeriod(from, to), all)
  {
    filtered := [];
    for i := 0 to |all|
      invariant filtered == Filter(InPeriod(from, to), all[..i])
    {
      FilterNext(InPeriod(from, to), all, i);
      if all[i].time != 0 && from <= all[i].time <= to {
        filtered := filtered + [all[i]];
      }
    }
    assert all[..|all|] == all;
  }

  // ---- The PnL of the income ----

  function AmountOf(kind: string): Income -> real { (x: Income) => if x.kind == kind then x.value else 0.0 }

  function NetValue(x: Income): real {
    if x.kind == "REALIZED_PNL" || x.kind == "COMMISSION" || x.kind == "FUNDING_FEE" then x.value else 0.0
  }

  // exitPrice is None when no positive one was seen.
  datatype Backfill = NoIncome | NothingRealized | Totals(pnlUsd: real, netPnl: real, exitPrice: Option<real>)

  /** The price of the last realized record that carries one, 0 when there is none. */
  function LastPrice(incomes: seq<Income>): real {
    if incomes == [] then 0.0
    else
      var last := incomes[|incomes| - 1];
      if last.kind == "REALIZED_PNL" && last.price.Some? then last.price.value
      else LastPrice(incomes[..|incomes| - 1])
  }

  function BackfillOf(incomes: seq<Income>): Backfill {
    if incomes == [] then NoIncome
    else if forall x :: x in incomes ==> x.kind != "REALIZED_PNL" then NothingRealized
    else
      Totals(SumBy(AmountOf("REALIZED_PNL"), incomes), SumBy(NetValue, incomes),
             if LastPrice(incomes) > 0.0 then Some(LastPrice(incomes)) else None)
  }

  /** Adds up realized PnL, commissions and funding fees of the trade's period. */
  method BackfillFromIncome(letters: Letters, symbol: string, query: Query, start: int, end: int)
    returns (result: Backfill)
    ensures result == if IsFetched(letters, symbol) then BackfillOf(IncomeFor(query, start, end, 0, BUFFER_AFTER))
                      else NoIncome
  {
    var incomes := GetIncomeForTradePeriod(letters, symbol, query, start, end, 0, BUFFER_AFTER);
    if incomes == [] {
      return NoIncome;
    }
    var realized, net := AddUpIncome(incomes);
    var count, exitPrice := ReadRealized(incomes);
    if count == 0 {
      return NothingRealized;
    }
    return Totals(realized, net, if exitPrice > 0.0 then Some(exitPrice) else None);
  }

  /** The three running totals. */
  method AddUpIncome(incomes: seq<Income>) returns (realized: real, net: real)
    ensures realized == SumBy(AmountOf("REALIZED_PNL"), incomes)
    ensures net == SumBy(NetValue, incomes)
  {
    realized := 0.0;
    var commission, funding := 0.0, 0.0;
    for i := 0 to |incomes|
      invariant realized == SumBy(AmountOf("REALIZED_PNL"), incomes[..i])
      invariant realized + commission + funding == SumBy(NetValue, incomes[..i])
    {
      assert incomes[..i + 1][..i] == incomes[..i];
      var income := incomes[i];
      if income.kind == "REALIZED_PNL" {
        realized := realized + income.value;
      } else if income.kind == "COMMISSION" {
        commission := commission + income.value;
      } else if income.kind == "FUNDING_FEE" {
        funding := funding + income.value;
      }
    }
    assert incomes[..|incomes|] == incomes;
    net := realized + commission + funding;
  }

  /** The number of realized records, and the last price among them. */
  method ReadRealized(incomes: seq<Income>) returns (count: nat, exitPrice: real)
    ensures exitPrice == LastPrice(incomes)
    ensures count == 0 <==> forall x :: x in incomes ==> x.kind != "REALIZED_PNL"
  {
    count, exitPrice := 0, 0.0;
    for i := 0 to |incomes|
      invariant exitPrice == LastPrice(incomes[..i])
      invariant count == 0 <==> forall x :: x in incomes[..i] ==> x.kind != "REALIZED_PNL"
    {
      assert incomes[..i + 1] == incomes[..i] + [incomes[i]];
      assert incomes[..i + 1][..i] == incomes[..i];
      if incomes[i].kind == "REALIZED_PNL" {
        count := count + 1;
        if incomes[i].price.Some? {
          exitPrice := incomes[i].price.value;
        }
      }
    }
    assert incomes[..|incomes|] == incomes;
  }

  // ---- The chunks tile the window ----

  /** The ranges run from start to end, each where the one before ends; all but the last are of full
      length, so that their number is the least possible. */
  ghost predicate Tile(chunks: seq<(int, int)>, start: int, end: int) {
    && chunks != [] && chunks[0].0 == start && chunks[|chunks| - 1].1 == end
    && (forall i :: 0 < i < |chunks| ==> chunks[i].0 == chunks[i - 1].1)
    && (forall i :: 0 <= i < |chunks| - 1 ==> chunks[i].1 == chunks[i].0 + 604_800_000)
    && 0 < chunks[|chunks| - 1].1 - chunks[|chunks| - 1].0 <= 604_800_000
    && (|chunks| - 1) * 604_800_000 < end - start <= |chunks| * 604_800_000
  }

  lemma TileOneMore(rest: seq<(int, int)>, start: int, end: int)
    requires Tile(rest, start + CHUNK, end)
    ensures Tile([(start, start + CHUNK)] + rest, start, end)
  {
    var chunks := [(start, start + CHUNK)] + rest;
    assert forall i :: 0 < i < |chunks| ==> chunks[i] == rest[i - 1];
    assert chunks[1] == rest[0];
  }

  /** The chunks asked for tile the window. */
  lemma {:induction false} ChunksTile(start: int, end: int)
    requires start < end
    ensures Tile(Chunks(start, end), start, end)
    decreases end - start
  {
    if start + CHUNK < end {
      ChunksTile(start + CHUNK, end);
      TileOneMore(Chunks(start + CHUNK, end), start, end);
    } else {
      assert ChunkEnd(start, end) == end && Chunks(end, end) == [];
    }
  }

  // ---- Each record is counted once, and once more at an inner chunk boundary ----

  function Between(start: int, end: int): Income -> bool { (x: Income) => start <= x.time <= end }

  /** The exchange answers with all its records of the range, both ends included. */
  ghost predicate Answers(query: Query, log: seq<Income>) {
    forall start, end :: query(start, end) == Some(Filter(Between(start, end), log))
  }

  predicate IsInnerBoundary(time: int, start: int, end: int) {
    start < time < end && (time - start) % CHUNK == 0
  }

  function AtBoundary(start: int, end: int): Income -> bool { (x: Income) => IsInnerBoundary(x.time, start, end) }

  lemma {:induction false} SumOfSplit(f: Income -> real, log: seq<Income>, a: int, b: int, c: int)
    requires a <= b <= c
    ensures SumBy(f, Filter(Between(a, b), log)) + SumBy(f, Filter(Between(b, c), log)) ==
            SumBy(f, Filter(Between(a, c), log)) + SumBy(f, Filter(Between(b, b), log))
  {
    if log != [] {
      var init, last := log[..|log| - 1], log[|log| - 1];
      SumOfSplit(f, init, a, b, c);
      FilterSum(f, Between(a, b), log);
      FilterSum(f, Between(b, c), log);
      FilterSum(f, Between(a, c), log);
      FilterSum(f, Between(b, b), log);
    }
  }

  lemma BoundaryStep(time: int, start: int, end: int)
    requires start + CHUNK < end
    ensures IsInnerBoundary(time, start, end) <==> time == start + CHUNK || IsInnerBoundary(time, start + CHUNK, end)
  {
    var d := time - start;
    assert (d - CHUNK) % CHUNK == d % CHUNK;
    if 0 < d < CHUNK {
      assert d % CHUNK == d;
    }
  }

  lemma SumOfBoundaries(f: Income -> real, log: seq<Income>, start: int, end: int)
    requires start + CHUNK < end
    ensures SumBy(f, Filter(AtBoundary(start, end), log)) ==
            SumBy(f, Filter(Between(start + CHUNK, start + CHUNK), log)) +
            SumBy(f, Filter(AtBoundary(start + CHUNK, end), log))
  {
    var here, later := Between(start + CHUNK, start + CHUNK), AtBoundary(start + CHUNK, end);
    forall x | x in log
      ensures (AtBoundary(start, end)(x) <==> here(x) || later(x)) && !(here(x) && later(x))
    {
      BoundaryStep(x.time, start, end);
    }
    SumOfDisjoint(f, here, later, AtBoundary(start, end), log);
  }

  /** For any weight f the chunked fetch weighs as much as the window plus its inner chunk boundaries. */
  lemma {:induction false} FetchedSum(f: Income -> real, query: Query, log: seq<Income>, start: int, end: int)
    requires Answers(query, log) && start < end
    ensures SumBy(f, Fetched(query, start, end)) ==
            SumBy(f, Filter(Between(start, end), log)) + SumBy(f, Filter(AtBoundary(start, end), log))
    decreases end - start
  {
    var middle := ChunkEnd(start, end);
    var first := Filter(Between(start, middle), log);
    SumAppend(f, first, Fetched(query, middle, end));
    if middle < end {
      FetchedSum(f, query, log, middle, end);
      SumOfSplit(f, log, start, middle, end);
      SumOfBoundaries(f, log, start, end);
    } else {
      NoBoundary(log, start, end);
    }
  }

  lemma NoBoundary(log: seq<Income>, start: int, end: int)
    requires end <= start + CHUNK
    ensures Filter(AtBoundary(start, end), log) == []
  {
    forall x | x in log
      ensures !AtBoundary(start, end)(x)
    {
      if start < x.time < end {
        assert (x.time - start) % CHUNK == x.time - start;
      }
    }
    FilterNone(AtBoundary(start, end), log);
  }

  /** f, but 0 where p fails. */
  function Only(p: Income -> bool, f: Income -> real): Income -> real {
    (x: Income) => if p(x) then f(x) else 0.0
  }

  lemma {:induction false} SumOnly(p: Income -> bool, f: Income -> real, s: seq<Income>)
    ensures SumBy(f, Filter(p, s)) == SumBy(Only(p, f), s)
  {
    if s != [] {
      SumOnly(p, f, s[..|s| - 1]);
      FilterSum(f, p, s);
    }
  }

  /** For any weight f, the income taken for a trade weighs as much as the log's income of the search window
      plus, once more, its income exactly at an inner chunk boundary. With f constantly 1 on one record and 0
      elsewhere: the record is taken once, and twice exactly at a boundary. */
  lemma IncomeIsWindowPlusBoundaries(f: Income -> real, query: Query, log: seq<Income>,
                                     start: int, end: int, before: int, after: int)
    requires Answers(query, log)
    requires SearchStart(start, before) < SearchEnd(end, after)
    ensures
      var from, to := SearchStart(start, before), SearchEnd(end, after);
      var window := Filter(InPeriod(from, to), log);
      SumBy(f, IncomeFor(query, start, end, before, after)) ==
        SumBy(f, window) + SumBy(f, Filter(AtBoundary(from, to), window))
  {
    var from, to := SearchStart(start, before), SearchEnd(end, after);
    var p := InPeriod(from, to);
    SumOnly(p, f, Fetched(query, from, to));
    FetchedSum(Only(p, f), query, log, from, to);
    WindowSums(f, log, from, to);
  }

  lemma WindowSums(f: Income -> real, log: seq<Income>, from: int, to: int)
    ensures
      var p := InPeriod(from, to);
      && SumBy(Only(p, f), Filter(Between(from, to), log)) == SumBy(f, Filter(p, log))
      && SumBy(Only(p, f), Filter(AtBoundary(from, to), log)) == SumBy(f, Filter(AtBoundary(from, to), Filter(p, log)))
  {
    var p, q := InPeriod(from, to), AtBoundary(from, to);
    SumOnly(p, f, Filter(Between(from, to), log));
    SumOnly(p, f, Filter(q, log));
    FilterCommutes(p, Between(from, to), log);
    FilterCommutes(p, q, log);
    FilterMembers(p, log);
    FilterAll(Between(from, to), Filter(p, log));
  }

  /** The net PnL of an update equals the plain sum of all realized PnL, commissions and funding fees of the
      window exactly when the income at the inner chunk boundaries nets to zero. */
  lemma NetPnlIsPlainSum(query: Query, log: seq<Income>, start: int, end: int)
    requires Answers(query, log) && start < end + BUFFER_AFTER
    ensures
      var result := BackfillOf(IncomeFor(query, start, end, 0, BUFFER_AFTER));
      var window := Filter(InPeriod(start, end + BUFFER_AFTER), log);
      var doubled := SumBy(NetValue, Filter(AtBoundary(start, end + BUFFER_AFTER), window));
      result.Totals? ==>
        && result.netPnl == SumBy(NetValue, window) + doubled
        && (result.netPnl == SumBy(NetValue, window) <==> doubled == 0.0)
  {
    IncomeIsWindowPlusBoundaries(NetValue, query, log, start, end, 0, BUFFER_AFTER);
  }

  /** A trade of less than a week has no inner boundary, so its net PnL is always the plain sum. */
  lemma ShortTradeIsExact(query: Query, log: seq<Income>, start: int, end: int)
    requires Answers(query, log) && start < end + BUFFER_AFTER <= start + CHUNK
    ensures
      var result := BackfillOf(IncomeFor(query, start, end, 0, BUFFER_AFTER));
      result.Totals? ==> result.netPnl == SumBy(NetValue, Filter(InPeriod(start, end + BUFFER_AFTER), log))
  {
    NetPnlIsPlainSum(query, log, start, end);
    NoBoundary(Filter(InPeriod(start, end + BUFFER_AFTER), log), start, end + BUFFER_AFTER);
  }

  /** An exchange that answers from the log. */
  function LogQuery(log: seq<Income>): Query { (start: int, end: int) => Some(Filter(Between(start, end), log)) }

  /** For one: a profit of 1 at the inner boundary of a trade of just over a week makes a net PnL of 2. */
  lemma BoundaryIncomeCountsTwice(start: int)
    requires start > 0
    ensures
      var x := Income(start + CHUNK, "REALIZED_PNL", 1.0, None);
      var end := start + CHUNK + 1;
      && SumBy(NetValue, Filter(InPeriod(start, end + BUFFER_AFTER), [x])) == 1.0
      && BackfillOf(IncomeFor(LogQuery([x]), start, end, 0, BUFFER_AFTER)) == Totals(2.0, 2.0, None)
  {
    var x := Income(start + CHUNK, "REALIZED_PNL", 1.0, None);
    var middle, to := start + CHUNK, start + CHUNK + 1 + BUFFER_AFTER;
    var query := LogQuery([x]);
    FilterSingle(Between(start, middle), x);
    FilterSingle(Between(middle, to), x);
    FilterSingle(InPeriod(start, to), x);
    assert ChunkEnd(start, to) == middle && ChunkEnd(middle, to) == to;
    assert Fetched(query, to, to) == [];
    assert Fetched(query, middle, to) == [x];
    assert Fetched(query, start, to) == [x, x];
    FilterAll(InPeriod(start, to), [x, x]);
    TwoProfits(x);
  }

  lemma TwoProfits(x: Income)
    requires x.kind == "REALIZED_PNL" && x.price.None?
    ensures SumBy(NetValue, [x]) == x.value
    ensures BackfillOf([x, x]) == Totals(x.value + x.value, x.value + x.value, None)
  {
    assert [x, x][..1] == [x] && [x][..0] == [];
    SumOfOne(NetValue, x);
    SumOfOne(AmountOf("REALIZED_PNL"), x);
    assert LastPrice([x][..0]) == 0.0;
    assert LastPrice([x, x][..1]) == 0.0;
    assert x in [x, x];
  }

  lemma SumOfOne(f: Income -> real, x: Income)
    ensures SumBy(f, [x]) == f(x) && SumBy(f, [x, x]) == f(x) + f(x)
  {
    assert [x, x][..1] == [x] && [x][..0] == [];
    assert SumBy(f, [x][..0]) == 0.0;
  }

  // ---- What is taken and added up, in the records' own fields ----

  /** Exactly the log's records that carry a time within the trade's period, widened by the buffers, are taken. */
  lemma IncomeTaken(query: Query, log: seq<Income>, start: int, end: int, before: int, after: int, x: Income)
    requires Answers(query, log)
    ensures
      var from := if before > 0 then start - before else start;
      var to := if after > 0 then end + after else end;
      x in IncomeFor(query, start, end, before, after) <==>
        x in log && x.time != 0 && from <= x.time <= to && from < to
  {
    var from, to := SearchStart(start, before), SearchEnd(end, after);
    FilterMembers(InPeriod(from, to), Fetched(query, from, to));
    FetchedMembers(query, log, from, to, x);
  }

  lemma {:induction false} FetchedMembers(query: Query, log: seq<Income>, start: int, end: int, x: Income)
    requires Answers(query, log)
    ensures x in Fetched(query, start, end) <==> x in log && start <= x.time <= end && start < end
    decreases end - start
  {
    if start < end {
      var middle := ChunkEnd(start, end);
      FilterMembers(Between(start, middle), log);
      FetchedMembers(query, log, middle, end, x);
    }
  }

  /** The value of a record of one of these kinds, 0 of any other. */
  function ValueIf(kinds: set<string>): Income -> real { (x: Income) => if x.kind in kinds then x.value else 0.0 }

  const NET_KINDS: set<string> := {"REALIZED_PNL", "COMMISSION", "FUNDING_FEE"}

  lemma SumsByKind(incomes: seq<Income>)
    ensures SumBy(AmountOf("REALIZED_PNL"), incomes) == SumBy(ValueIf({"REALIZED_PNL"}), incomes)
    ensures SumBy(NetValue, incomes) == SumBy(ValueIf(NET_KINDS), incomes)
  {
    SumAgrees(AmountOf("REALIZED_PNL"), ValueIf({"REALIZED_PNL"}), incomes);
    SumAgrees(NetValue, ValueIf(NET_KINDS), incomes);
  }

  lemma TakenFromWindow(query: Query, log: seq<Income>, start: int, end: int)
    requires Answers(query, log) && start < end + 5000
    ensures forall x :: x in IncomeFor(query, start, end, 0, BUFFER_AFTER) <==>
                        x in Filter(InPeriod(start, end + 5000), log)
  {
    FilterMembers(InPeriod(start, end + 5000), log);
    forall x
      ensures x in IncomeFor(query, start, end, 0, BUFFER_AFTER) <==> x in Filter(InPeriod(start, end + 5000), log)
    {
      IncomeTaken(query, log, start, end, 0, BUFFER_AFTER, x);
    }
  }

  /** An update is made exactly when the window holds a realized record. */
  lemma BackfillNeedsRealized(query: Query, log: seq<Income>, start: int, end: int)
    requires Answers(query, log) && start < end + 5000
    ensures BackfillOf(IncomeFor(query, start, end, 0, BUFFER_AFTER)).Totals? <==>
            exists x :: x in Filter(InPeriod(start, end + 5000), log) && x.kind == "REALIZED_PNL"
  {
    TakenFromWindow(query, log, start, end);
    TotalsNeedRealized(IncomeFor(query, start, end, 0, BUFFER_AFTER));
  }

  lemma TotalsNeedRealized(incomes: seq<Income>)
    ensures BackfillOf(incomes).Totals? <==> exists x :: x in incomes && x.kind == "REALIZED_PNL"
  {
  }

  /** PnL and net PnL are the sums of the realized records and of those of the three kinds, over the window and
      once more over its inner chunk boundaries. */
  lemma BackfillIsExact(query: Query, log: seq<Income>, start: int, end: int)
    requires Answers(query, log) && start < end + 5000
    ensures
      var result := BackfillOf(IncomeFor(query, start, end, 0, BUFFER_AFTER));
      var window := Filter(InPeriod(start, end + 5000), log);
      var doubled := Filter(AtBoundary(start, end + 5000), window);
      result.Totals? ==>
        && result.pnlUsd == SumBy(ValueIf({"REALIZED_PNL"}), window) + SumBy(ValueIf({"REALIZED_PNL"}), doubled)
        && result.netPnl == SumBy(ValueIf(NET_KINDS), window) + SumBy(ValueIf(NET_KINDS), doubled)
  {
    IncomeIsWindowPlusBoundaries(ValueIf({"REALIZED_PNL"}), query, log, start, end, 0, BUFFER_AFTER);
    IncomeIsWindowPlusBoundaries(ValueIf(NET_KINDS), query, log, start, end, 0, BUFFER_AFTER);
    SumsByKind(IncomeFor(query, start, end, 0, BUFFER_AFTER));
  }

  /** This record is realized and carries the price, and no later one carries any. */
  ghost predicate IsLastPriced(incomes: seq<Income>, i: nat, price: real) {
    && i < |incomes| && incomes[i].kind == "REALIZED_PNL" && incomes[i].price == Some(price)
    && forall j :: i < j < |incomes| ==> incomes[j].kind != "REALIZED_PNL" || incomes[j].price.None?
  }

  lemma {:induction false} LastPriceIs(incomes: seq<Income>) returns (i: int)
    ensures -1 <= i < |incomes|
    ensures if i >= 0 then IsLastPriced(incomes, i, LastPrice(incomes))
            else LastPrice(incomes) == 0.0 && forall k: nat, p :: !IsLastPriced(incomes, k, p)
  {
    i := |incomes| - 1;
    if incomes != [] && !(incomes[i].kind == "REALIZED_PNL" && incomes[i].price.Some?) {
      var init := incomes[..|incomes| - 1];
      i := LastPriceIs(init);
      assert incomes == init + [incomes[|incomes| - 1]];
      forall k: nat, p
        ensures IsLastPriced(incomes, k, p) ==> IsLastPriced(init, k, p)
      {
      }
    }
  }

  /** The exit price written is the last price among the realized records, when that is positive. */
  lemma ExitPriceIsLast(incomes: seq<Income>, price: real)
    requires BackfillOf(incomes).Totals?
    ensures BackfillOf(incomes).exitPrice == Some(price) <==>
            price > 0.0 && exists i: nat :: IsLastPriced(incomes, i, price)
  {
    var i := LastPriceIs(incomes);
    if k: nat :| IsLastPriced(incomes, k, price) {
      assert i >= 0;
      assert k == i;
    }
  }
}
