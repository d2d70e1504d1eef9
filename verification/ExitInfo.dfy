/** Entry and exit price of a KuCoin trade, derived from the account's fill history. */
module ExitInfo {
  import opened Common
  import opened Fields

  // side is lower-cased; times are milliseconds, 0 when there is none; rawTime is the raw response's, for the case
  // that the record itself has none.
  datatype HistoryFill = HistoryFill(side: string, time: int, rawTime: int, price: real, size: real, fee: real,
                                     orderId: string)

  datatype Lifecycle = Lifecycle(kind: Kind, orderId: string, createdMs: int, closedMs: int)

  // A fill with its time filled in, and whether it belongs to the trade's own order.
  datatype Info = Info(price: real, size: real, fee: real, time: int, orderMatch: bool)

  function EntrySide(t: Lifecycle): string { if t.kind.Long? then "buy" else "sell" }

  function ExitSide(t: Lifecycle): string { if t.kind.Long? then "sell" else "buy" }

  function OrderMatches(t: Lifecycle, f: HistoryFill): bool { t.orderId != "" && f.orderId == t.orderId }

  function GivenTime(f: HistoryFill): int { if f.time != 0 then f.time else f.rawTime }

  /** The fill's time or, when missing, the trade's creation for its own order and for entries, else its close. */
  function TimeOf(t: Lifecycle, f: HistoryFill): int {
    if GivenTime(f) != 0 then GivenTime(f)
    else if OrderMatches(t, f) || f.side == EntrySide(t) then t.createdMs
    else t.closedMs
  }

  function InfoOf(t: Lifecycle, f: HistoryFill): Info {
    Info(f.price, f.size, f.fee, TimeOf(t, f), OrderMatches(t, f))
  }

  /** The fills of one side, in history order. */
  function SideInfos(t: Lifecycle, side: string, history: seq<HistoryFill>): seq<Info> {
    if history == [] then []
    else
      var before, last := SideInfos(t, side, history[..|history| - 1]), history[|history| - 1];
      if last.side == side then before + [InfoOf(t, last)] else before
  }

  method SplitHistory(t: Lifecycle, history: seq<HistoryFill>) returns (entries: seq<Info>, exits: seq<Info>)
    ensures entries == SideInfos(t, EntrySide(t), history)
    ensures exits == SideInfos(t, ExitSide(t), history)
  {
    entries, exits := [], [];
    for i := 0 to |history|
      invariant entries == SideInfos(t, EntrySide(t), history[..i])
      invariant exits == SideInfos(t, ExitSide(t), history[..i])
    {
      assert history[..i + 1][..i] == history[..i];
      var f := history[i];
      var time := f.time;
      if time == 0 {
        time := f.rawTime;
      }
      if time == 0 {
        if OrderMatches(t, f) || f.side == EntrySide(t) {
          time := t.createdMs;
        } else if f.side == ExitSide(t) {
          time := t.closedMs;
        } else {
          continue;
        }
      }
      var info := Info(f.price, f.size, f.fee, time, OrderMatches(t, f));
      if f.side == EntrySide(t) {
        entries := entries + [info];
      } else if f.side == ExitSide(t) {
        exits := exits + [info];
      }
    }
    assert history[..|history|] == history;
  }

  // ---- Stable sorting by time ----

  function Insert(x: Info, sorted: seq<Info>): seq<Info> {
    if sorted == [] || sorted[|sorted| - 1].time <= x.time then sorted + [x]
    else Insert(x, sorted[..|sorted| - 1]) + [sorted[|sorted| - 1]]
  }

  function SortByTime(s: seq<Info>): seq<Info> {
    if s == [] then [] else Insert(s[|s| - 1], SortByTime(s[..|s| - 1]))
  }

  ghost predicate Sorted(s: seq<Info>) {
    forall i, j :: 0 <= i < j < |s| ==> s[i].time <= s[j].time
  }

  lemma {:induction false} InsertKeepsMembers(x: Info, sorted: seq<Info>)
    ensures multiset(Insert(x, sorted)) == multiset(sorted) + multiset{x}
  {
    if sorted != [] && sorted[|sorted| - 1].time > x.time {
      InsertKeepsMembers(x, sorted[..|sorted| - 1]);
      assert sorted == sorted[..|sorted| - 1] + [sorted[|sorted| - 1]];
    }
  }

  lemma {:induction false} InsertKeepsSorted(x: Info, sorted: seq<Info>)
    requires Sorted(sorted)
    ensures Sorted(Insert(x, sorted))
    ensures forall i :: 0 <= i < |Insert(x, sorted)| ==>
              Insert(x, sorted)[i].time <= x.time ||
              (sorted != [] && Insert(x, sorted)[i].time <= sorted[|sorted| - 1].time)
  {
    if sorted != [] && sorted[|sorted| - 1].time > x.time {
      InsertKeepsSorted(x, sorted[..|sorted| - 1]);
    }
  }

  lemma {:induction false} SortByTimeSorts(s: seq<Info>)
    ensures Sorted(SortByTime(s)) && multiset(SortByTime(s)) == multiset(s)
  {
    if s != [] {
      SortByTimeSorts(s[..|s| - 1]);
      InsertKeepsMembers(s[|s| - 1], SortByTime(s[..|s| - 1]));
      InsertKeepsSorted(s[|s| - 1], SortByTime(s[..|s| - 1]));
      CutLast(s);
    }
  }

  // ---- Which fills are used, and the prices ----

  function OfOwnOrder(): Info -> bool { (x: Info) => x.orderMatch }

  function NotAfter(time: int): Info -> bool { (x: Info) => x.time <= time }

  function NotBefore(time: int): Info -> bool { (x: Info) => x.time >= time }

  /** Those that satisfy p, or all when none does. */
  function PreferThose(p: Info -> bool, s: seq<Info>): seq<Info> {
    if Filter(p, s) != [] then Filter(p, s) else s
  }

  function EntriesUsed(t: Lifecycle, entries: seq<Info>): seq<Info> {
    PreferThose(NotAfter(t.closedMs), PreferThose(OfOwnOrder(), SortByTime(entries)))
  }

  function ExitsUsed(entries: seq<Info>, exits: seq<Info>): seq<Info> {
    var usable := PreferThose(OfOwnOrder(), SortByTime(exits));
    if entries == [] then usable else Filter(NotBefore(FirstTime(entries)), usable)
  }

  function FirstTime(s: seq<Info>): (time: int)
    requires s != []
    ensures exists x :: x in s && x.time == time
    ensures forall x :: x in s ==> time <= x.time
  {
    if |s| == 1 then s[0].time
    else
      var init, last := s[..|s| - 1], s[|s| - 1];
      var before := FirstTime(init);
      assert s == init + [last];
      if last.time < before then last.time else before
  }

  function SizeOf(x: Info): real { x.size }

  function Worth(x: Info): real { x.price * x.size }

  function FeeOf(x: Info): real { x.fee }

  /** The first fill closest in time. */
  function Closest(s: seq<Info>, time: int): (x: Info)
    requires s != []
    ensures x in s && forall y :: y in s ==> AbsInt(x.time - time) <= AbsInt(y.time - time)
  {
    if |s| == 1 then s[0]
    else
      var init, last := s[..|s| - 1], s[|s| - 1];
      var best := Closest(init, time);
      assert s == init + [last];
      if AbsInt(last.time - time) < AbsInt(best.time - time) then last else best
  }

  /** The average price, weighted by size. */
  function WeightedPrice(s: seq<Info>): real
    requires SumBy(SizeOf, s) > 0.0
  {
    SumBy(Worth, s) / SumBy(SizeOf, s)
  }

  datatype Result = Result(exitPrice: Option<real>, entryPrice: Option<real>, positionSize: Option<real>, fees: real)

  function ResultOf(t: Lifecycle, entries: seq<Info>, exits: seq<Info>): Result {
    var entriesUsed, exitsUsed := EntriesUsed(t, entries), ExitsUsed(entries, exits);
    var entrySize, exitSize := SumBy(SizeOf, entriesUsed), SumBy(SizeOf, exitsUsed);
    Result(
      if exitsUsed == [] then None
      else if exitSize > 0.0 then Some(WeightedPrice(exitsUsed))
      else Some(Closest(exitsUsed, t.closedMs).price),
      if entrySize > 0.0 then Some(WeightedPrice(entriesUsed)) else None,
      if entrySize > 0.0 then Some(entrySize) else if exitSize > 0.0 then Some(exitSize) else None,
      SumBy(FeeOf, entries) + SumBy(FeeOf, exits))
  }

  /** Nothing is returned without a nonzero exit price, or for a trade that is neither long nor short. */
  method GetExitInfo(t: Lifecycle, history: seq<HistoryFill>) returns (info: Option<Result>)
    ensures
      var r := ResultOf(t, SideInfos(t, EntrySide(t), history), SideInfos(t, ExitSide(t), history));
      info == if !t.kind.OtherKind? && r.exitPrice.Some? && r.exitPrice.value != 0.0 then Some(r) else None
  {
    if t.kind.OtherKind? {
      return None;
    }
    var entries, exits := SplitHistory(t, history);
    var r := ResultOf(t, entries, exits);
    return if r.exitPrice.Some? && r.exitPrice.value != 0.0 then Some(r) else None;
  }

  // ---- Prices are averages by size ----

  lemma WeightedPriceTimesSize(s: seq<Info>)
    requires SumBy(SizeOf, s) > 0.0
    ensures WeightedPrice(s) * SumBy(SizeOf, s) == SumBy(Worth, s)
  {
  }

  /** The exit price times the total size of the exits used is what these are worth. Exits of no total size are
      priced by one that is as close to the trade's close as any. */
  lemma ExitPriceIsAverage(t: Lifecycle, entries: seq<Info>, exits: seq<Info>)
    ensures
      var price, used := ResultOf(t, entries, exits).exitPrice, ExitsUsed(entries, exits);
      && (price.None? <==> used == [])
      && (price.Some? && SumBy(SizeOf, used) > 0.0 ==> price.value * SumBy(SizeOf, used) == SumBy(Worth, used))
      && (price.Some? && SumBy(SizeOf, used) <= 0.0 ==>
            exists x :: x in used && price.value == x.price &&
                        forall y :: y in used ==> AbsInt(x.time - t.closedMs) <= AbsInt(y.time - t.closedMs))
  {
    var used := ExitsUsed(entries, exits);
    if SumBy(SizeOf, used) > 0.0 {
      WeightedPriceTimesSize(used);
    } else if used != [] {
      assert Closest(used, t.closedMs) in used;
    }
  }

  /** The entry price times the total size of the entries used is what these are worth, and that size is the
      position's; without it there is no entry price, and the position's size is that of the exits used. */
  lemma EntryPriceIsAverage(t: Lifecycle, entries: seq<Info>, exits: seq<Info>)
    ensures
      var r, size := ResultOf(t, entries, exits), SumBy(SizeOf, EntriesUsed(t, entries));
      var exitSize := SumBy(SizeOf, ExitsUsed(entries, exits));
      && (r.entryPrice.Some? <==> size > 0.0)
      && (r.entryPrice.Some? ==>
            r.entryPrice.value * size == SumBy(Worth, EntriesUsed(t, entries)) && r.positionSize == Some(size))
      && (r.entryPrice.None? ==> r.positionSize == if exitSize > 0.0 then Some(exitSize) else None)
  {
    if SumBy(SizeOf, EntriesUsed(t, entries)) > 0.0 {
      WeightedPriceTimesSize(EntriesUsed(t, entries));
    }
  }

  /** The fees are those of all fills on both sides, used or not. */
  lemma FeesAreTotal(t: Lifecycle, entries: seq<Info>, exits: seq<Info>)
    ensures ResultOf(t, entries, exits).fees == SumBy((x: Info) => x.fee, entries + exits)
  {
    SumAppend((x: Info) => x.fee, entries, exits);
    SumAgrees(FeeOf, (x: Info) => x.fee, entries);
    SumAgrees(FeeOf, (x: Info) => x.fee, exits);
  }

  /** A sum of sizes, and one of worths, in the fills' own fields. */
  lemma SizesAndWorths(s: seq<Info>)
    ensures SumBy(SizeOf, s) == SumBy((x: Info) => x.size, s)
    ensures SumBy(Worth, s) == SumBy((x: Info) => x.price * x.size, s)
  {
    SumAgrees(SizeOf, (x: Info) => x.size, s);
    SumAgrees(Worth, (x: Info) => x.price * x.size, s);
  }

  // ---- Prices lie in the hull ----

  lemma {:induction false} PriceExtremes(s: seq<Info>) returns (low: Info, high: Info)
    requires s != []
    ensures low in s && high in s && forall x :: x in s ==> low.price <= x.price <= high.price
  {
    var last := s[|s| - 1];
    if |s| == 1 {
      low, high := last, last;
    } else {
      low, high := PriceExtremes(s[..|s| - 1]);
      assert s == s[..|s| - 1] + [last];
      if last.price < low.price {
        low := last;
      }
      if last.price > high.price {
        high := last;
      }
    }
  }

  /** Some fill is priced no higher, and some no lower. */
  ghost predicate InHull(price: real, s: seq<Info>) {
    && (exists x :: x in s && x.price <= price)
    && (exists x :: x in s && price <= x.price)
  }

  lemma AverageInHull(s: seq<Info>)
    requires s != [] && SumBy(SizeOf, s) > 0.0 && forall x :: x in s ==> x.size >= 0.0
    ensures InHull(WeightedPrice(s), s)
  {
    var low, high := PriceExtremes(s);
    forall x | x in s
      ensures Bounded(Worth(x), SizeOf(x), low.price, high.price)
    {
      ScaledBounds(x.price, x.size, low.price, high.price);
    }
    SumBounds(Worth, SizeOf, s, low.price, high.price);
    AverageBounds(SumBy(Worth, s), SumBy(SizeOf, s), low.price, high.price);
  }

  lemma SortedMembers(s: seq<Info>)
    ensures forall x :: x in SortByTime(s) <==> x in s
  {
    SortByTimeSorts(s);
    assert forall x :: x in SortByTime(s) <==> x in multiset(SortByTime(s));
    assert forall x :: x in s <==> x in multiset(s);
  }

  /** The exit fills used are exit fills, of the trade's own order if any exit fill is, and none is earlier than
      the first entry. */
  lemma ExitsUsedAreValid(entries: seq<Info>, exits: seq<Info>)
    ensures forall x :: x in ExitsUsed(entries, exits) <==>
                        && x in exits
                        && (x.orderMatch || forall y :: y in exits ==> !y.orderMatch)
                        && (entries == [] || FirstTime(entries) <= x.time)
  {
    var sorted := SortByTime(exits);
    SortedMembers(exits);
    FilterMembers(OfOwnOrder(), sorted);
    if Filter(OfOwnOrder(), sorted) == [] {
      assert forall y :: y in sorted ==> !y.orderMatch by {
        assert forall y :: y in sorted && y.orderMatch ==> y in Filter(OfOwnOrder(), sorted);
      }
    } else {
      assert Filter(OfOwnOrder(), sorted)[0] in Filter(OfOwnOrder(), sorted);
    }
    if entries != [] {
      FilterMembers(NotBefore(FirstTime(entries)), PreferThose(OfOwnOrder(), sorted));
    }
  }

  /** With nonnegative sizes the exit price lies between prices of the exit fills used. */
  lemma ExitPriceInHull(t: Lifecycle, entries: seq<Info>, exits: seq<Info>)
    requires forall x :: x in exits ==> x.size >= 0.0
    ensures
      var price := ResultOf(t, entries, exits).exitPrice;
      price.Some? ==> InHull(price.value, ExitsUsed(entries, exits))
  {
    var used := ExitsUsed(entries, exits);
    ExitsUsedAreValid(entries, exits);
    if used != [] {
      if SumBy(SizeOf, used) > 0.0 {
        AverageInHull(used);
      } else {
        assert Closest(used, t.closedMs) in used;
      }
    }
  }

  /** With nonnegative sizes the entry price lies between prices of the entry fills used, and the reported
      position size is their total size. */
  lemma EntryPriceInHull(t: Lifecycle, entries: seq<Info>, exits: seq<Info>)
    requires forall x :: x in entries ==> x.size >= 0.0
    ensures
      var r, used := ResultOf(t, entries, exits), EntriesUsed(t, entries);
      r.entryPrice.Some? ==>
        && InHull(r.entryPrice.value, used) && (forall x :: x in used ==> x in entries)
        && r.positionSize == Some(SumBy(SizeOf, used))
  {
    EntriesUsedAreEntries(t, entries);
    if SumBy(SizeOf, EntriesUsed(t, entries)) > 0.0 {
      AverageInHull(EntriesUsed(t, entries));
    }
  }

  lemma EntriesUsedAreEntries(t: Lifecycle, entries: seq<Info>)
    ensures forall x :: x in EntriesUsed(t, entries) ==> x in entries
  {
    EntriesUsedAreValid(t, entries);
  }

  lemma PreferredMembers(p: Info -> bool, s: seq<Info>)
    ensures forall x :: x in PreferThose(p, s) <==> x in s && (p(x) || forall y :: y in s ==> !p(y))
  {
    FilterMembers(p, s);
    if Filter(p, s) == [] {
      assert forall y :: y in s && p(y) ==> y in Filter(p, s);
    } else {
      assert Filter(p, s)[0] in Filter(p, s);
    }
  }

  /** The fill is an entry, of the trade's own order if any entry is. */
  ghost predicate IsOwnEntry(x: Info, entries: seq<Info>) {
    x in entries && (x.orderMatch || forall y :: y in entries ==> !y.orderMatch)
  }

  /** The entry fills used are such entries, and of these the ones no later than the close if any is. */
  lemma EntriesUsedAreValid(t: Lifecycle, entries: seq<Info>)
    ensures forall x :: x in EntriesUsed(t, entries) <==>
                        && IsOwnEntry(x, entries)
                        && (x.time <= t.closedMs || forall y :: IsOwnEntry(y, entries) ==> y.time > t.closedMs)
  {
    var sorted := SortByTime(entries);
    SortedMembers(entries);
    PreferredMembers(OfOwnOrder(), sorted);
    assert forall x :: x in PreferThose(OfOwnOrder(), sorted) <==> IsOwnEntry(x, entries);
    PreferredMembers(NotAfter(t.closedMs), PreferThose(OfOwnOrder(), sorted));
  }

  // ---- The fills of a history ----

  /** What the fill becomes for a trade with these sides: its time is its own, else its raw response's, else the
      trade's creation when it is an entry or of the trade's own order, else the trade's close. */
  ghost predicate Becomes(t: Lifecycle, f: HistoryFill, entrySide: string, x: Info) {
    var own := t.orderId != "" && f.orderId == t.orderId;
    && x.price == f.price && x.size == f.size && x.fee == f.fee && x.orderMatch == own
    && x.time == if f.time != 0 then f.time else if f.rawTime != 0 then f.rawTime
                 else if own || f.side == entrySide then t.createdMs else t.closedMs
  }

  /** A long trade is entered by buys and left by sells, a short one the other way round. */
  lemma {:induction false} FillsOfTrade(t: Lifecycle, history: seq<HistoryFill>, entrySide: string, exitSide: string)
    requires (t.kind.Long? && entrySide == "buy" && exitSide == "sell")
             || (t.kind.Short? && entrySide == "sell" && exitSide == "buy")
    ensures forall x :: x in SideInfos(t, EntrySide(t), history) <==>
                        exists f :: f in history && f.side == entrySide && Becomes(t, f, entrySide, x)
    ensures forall x :: x in SideInfos(t, ExitSide(t), history) <==>
                        exists f :: f in history && f.side == exitSide && Becomes(t, f, entrySide, x)
  {
    if history != [] {
      var init, last := history[..|history| - 1], history[|history| - 1];
      assert history == init + [last];
      FillsOfTrade(t, init, entrySide, exitSide);
      assert forall x :: Becomes(t, last, entrySide, x) <==> x == InfoOf(t, last);
      assert forall f :: f in history <==> f in init || f == last;
    }
  }
}
