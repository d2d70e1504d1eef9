/** Choosing the position-history record that belongs to a trade. */
module Matching {
  import opened Common
  import opened Fields
  import opened FillPnl
  import opened PositionHistory
  import opened Text

  const CREATED_PAD := 10 * 60 * 1000
  const CLOSE_PAD := 30 * 60 * 1000
  const NO_TIME := 1_000_000_000
  const SIZE_PENALTY := 1_000_000

  function ClosedMs(t: Trade): int { if t.closedAt.Some? then t.closedAt.value else t.updatedMs }

  predicate Unused(used: set<string>, r: Record) { !(r.closeId != "" && r.closeId in used) }

  /** Each time the record carries is within its pad of the trade's time. */
  predicate TimesWithin(t: Trade, r: Record, createdPad: int, closePad: int) {
    && (r.openTime != 0 ==> AbsInt(r.openTime - t.createdMs) <= createdPad)
    && (r.closeTime != 0 ==> AbsInt(r.closeTime - ClosedMs(t)) <= closePad)
  }

  function TradeSize(t: Trade): Option<real> {
    if Truthy(t.positionSize) then ToFloat(t.positionSize) else None
  }

  predicate SizesKnown(t: Trade, r: Record) {
    TradeSize(t).Some? && ToFloat(r.size).Some? && ToFloat(r.size).value > 0.0
  }

  /** Known sizes differ by at most a fifth of the trade's size. */
  predicate SizeFits(t: Trade, r: Record) {
    SizesKnown(t, r) ==>
      var size := TradeSize(t).value;
      (if size > 0.0 then AbsReal(size - ToFloat(r.size).value) / size else 1.0) <= 0.20
  }

  predicate SizeOff(t: Trade, r: Record) {
    SizesKnown(t, r) &&
    var size, recSize := TradeSize(t).value, ToFloat(r.size).value;
    AbsReal(size - recSize) > if size * 0.01 > 0.01 then size * 0.01 else 0.01
  }

  predicate TypeFits(t: Trade, r: Record) {
    match t.kind
    case OtherKind => true
    case Long => r.closeType == "" || Contains(r.closeType, "CLOSE_LONG")
    case Short => r.closeType == "" || Contains(r.closeType, "CLOSE_SHORT")
  }

  predicate SideFits(t: Trade, r: Record) {
    match t.kind
    case OtherKind => true
    case Long => r.side == "" || r.side == "LONG"
    case Short => r.side == "" || r.side == "SHORT"
  }

  predicate IsStrict(t: Trade, used: set<string>, r: Record) {
    && Unused(used, r)
    && TimesWithin(t, r, CREATED_PAD, CLOSE_PAD)
    && SizeFits(t, r) && TypeFits(t, r) && SideFits(t, r)
  }

  predicate IsRelaxed(t: Trade, used: set<string>, r: Record) {
    Unused(used, r) && TimesWithin(t, r, 2 * CREATED_PAD, 2 * CLOSE_PAD)
  }

  function Strict(t: Trade, used: set<string>): Record -> bool { (r: Record) => IsStrict(t, used, r) }

  function Relaxed(t: Trade, used: set<string>): Record -> bool { (r: Record) => IsRelaxed(t, used, r) }

  /** The strict candidates or, when there is none, the relaxed ones. */
  function Pool(t: Trade, used: set<string>, records: seq<Record>): seq<Record> {
    var strict := Filter(Strict(t, used), records);
    if strict != [] then strict else Filter(Relaxed(t, used), records)
  }

  // ---- The score ----

  datatype Score = Score(close: int, open: int, size: int)

  function ScoreOf(t: Trade, r: Record): Score {
    Score(if r.closeTime != 0 then AbsInt(r.closeTime - ClosedMs(t)) else NO_TIME,
          if r.openTime != 0 then AbsInt(r.openTime - t.createdMs) else NO_TIME,
          if SizeOff(t, r) then SIZE_PENALTY else 0)
  }

  predicate Less(a: Score, b: Score) {
    a.close < b.close || (a.close == b.close && (a.open < b.open || (a.open == b.open && a.size < b.size)))
  }

  /** The position of the first record with the least score. */
  function BestIndex(t: Trade, pool: seq<Record>): (k: nat)
    requires pool != []
    ensures k < |pool|
    ensures forall j :: 0 <= j < |pool| ==> !Less(ScoreOf(t, pool[j]), ScoreOf(t, pool[k]))
    ensures forall j :: 0 <= j < k ==> Less(ScoreOf(t, pool[k]), ScoreOf(t, pool[j]))
  {
    if |pool| == 1 then 0
    else
      var last := |pool| - 1;
      var k := BestIndex(t, pool[..last]);
      if Less(ScoreOf(t, pool[last]), ScoreOf(t, pool[k])) then last else k
  }

  function MatchRecord(t: Trade, used: set<string>, records: seq<Record>): Option<Record> {
    var pool := Pool(t, used, records);
    if pool == [] then None else Some(pool[BestIndex(t, pool)])
  }

  /** The strict candidates are among the relaxed ones. */
  lemma StrictIsRelaxed(t: Trade, used: set<string>, r: Record)
    requires IsStrict(t, used, r)
    ensures IsRelaxed(t, used, r)
  {
  }

  /** The chosen record is unused, within the relaxed windows and has the least score of all strict
      candidates if there is one, of all relaxed candidates otherwise; none is chosen exactly when no
      record is relaxed. */
  lemma MatchIsOptimal(t: Trade, used: set<string>, records: seq<Record>)
    ensures MatchRecord(t, used, records).None? <==> forall r :: r in records ==> !IsRelaxed(t, used, r)
    ensures
      MatchRecord(t, used, records).Some? ==>
        var chosen := MatchRecord(t, used, records).value;
        && chosen in records && IsRelaxed(t, used, chosen)
        && (IsStrict(t, used, chosen) <==> exists r :: r in records && IsStrict(t, used, r))
        && (forall r :: r in records && IsRelaxed(t, used, r) && (IsStrict(t, used, chosen) ==> IsStrict(t, used, r))
              ==> !Less(ScoreOf(t, r), ScoreOf(t, chosen)))
  {
    var strict := Filter(Strict(t, used), records);
    var relaxed := Filter(Relaxed(t, used), records);
    var pool := Pool(t, used, records);
    FilterMembers(Strict(t, used), records);
    FilterMembers(Relaxed(t, used), records);
    assert strict != [] ==> strict[0] in strict;
    assert pool != [] ==> pool[BestIndex(t, pool)] in pool;
    if relaxed == [] {
      FilterNone(Strict(t, used), records);
    }
  }

  // ---- The choice, in the fields of trade and record ----

  /** The trade's size counts unless it is zero, the record's when it is positive. */
  ghost predicate SizesComparable(t: Trade, r: Record) {
    && (t.positionSize.Text? || (t.positionSize.Number? && t.positionSize.v != 0.0))
    && (r.size.Text? || r.size.Number?) && r.size.v > 0.0
  }

  /** The sizes differ by more than 0.01 and more than one percent of the trade's. */
  ghost predicate FarInSize(t: Trade, r: Record) {
    && SizesComparable(t, r)
    && var off := AbsReal(t.positionSize.v - r.size.v);
       off > 0.01 && 100.0 * off > t.positionSize.v
  }

  ghost predicate Near(time: int, target: int, pad: int) { time != 0 ==> -pad <= time - target <= pad }

  /** Unused, and opened and closed within these many milliseconds of the trade, as far as the times are known. */
  ghost predicate Fits(t: Trade, used: set<string>, r: Record, openPad: int, closePad: int) {
    && (r.closeId == "" || r.closeId !in used)
    && Near(r.openTime, t.createdMs, openPad) && Near(r.closeTime, ClosedMs(t), closePad)
  }

  /** Within 10 and 30 minutes, of a size within a fifth of the trade's, and not of the other direction. */
  ghost predicate FitsStrictly(t: Trade, used: set<string>, r: Record) {
    && Fits(t, used, r, 600_000, 1_800_000)
    && (SizesComparable(t, r) ==> 5.0 * AbsReal(t.positionSize.v - r.size.v) <= t.positionSize.v)
    && (t.kind.Long? ==> (r.closeType != "" ==> Contains(r.closeType, "CLOSE_LONG")) && r.side in ["", "LONG"])
    && (t.kind.Short? ==> (r.closeType != "" ==> Contains(r.closeType, "CLOSE_SHORT")) && r.side in ["", "SHORT"])
  }

  /** The first time is known if the second is, and at least as close to the target. */
  ghost predicate AtLeastAsClose(target: int, time: int, other: int) {
    other != 0 ==> time != 0 && AbsInt(time - target) <= AbsInt(other - target)
  }

  ghost predicate EquallyClose(target: int, time: int, other: int) {
    AtLeastAsClose(target, time, other) && AtLeastAsClose(target, other, time)
  }

  /** Close times count first, then open times, then whether the sizes differ. */
  ghost predicate NoWorse(t: Trade, m: Record, r: Record) {
    && AtLeastAsClose(ClosedMs(t), m.closeTime, r.closeTime)
    && (EquallyClose(ClosedMs(t), m.closeTime, r.closeTime) ==>
          && AtLeastAsClose(t.createdMs, m.openTime, r.openTime)
          && (EquallyClose(t.createdMs, m.openTime, r.openTime) && FarInSize(t, m) ==> FarInSize(t, r)))
  }

  lemma CandidatesFit(t: Trade, used: set<string>, r: Record)
    ensures IsStrict(t, used, r) <==> FitsStrictly(t, used, r)
    ensures IsRelaxed(t, used, r) <==> Fits(t, used, r, 1_200_000, 3_600_000)
  {
    if SizesKnown(t, r) && TradeSize(t).value > 0.0 {
      FifthOf(AbsReal(TradeSize(t).value - ToFloat(r.size).value), TradeSize(t).value);
    }
  }

  lemma FifthOf(off: real, size: real)
    requires size > 0.0
    ensures off / size <= 0.20 <==> 5.0 * off <= size
  {
    var share := off / size;
    assert share * size == off;
    if share <= 0.20 {
      ScaledUp(share, 0.20, size);
    } else {
      ScaledUp(0.20, share, size);
      assert 0.20 * size != share * size by {
        if 0.20 * size == share * size {
          QuotientBound(share, 0.20, size);
        }
      }
    }
  }

  lemma ScaledUp(a: real, b: real, size: real)
    requires size > 0.0 && a <= b
    ensures a * size <= b * size
  {
  }

  lemma NotLessIsNoWorse(t: Trade, used: set<string>, m: Record, r: Record)
    requires IsRelaxed(t, used, m) && IsRelaxed(t, used, r) && !Less(ScoreOf(t, r), ScoreOf(t, m))
    ensures NoWorse(t, m, r)
  {
  }

  /** A record is found exactly when one fits within 20 and 60 minutes. It fits strictly if any does, and of those
      that fit as well as it does none was closed closer to the trade's close, nor, among those closed as close,
      opened closer to its creation, nor, among those, is within the size margin if it is not itself. */
  lemma MatchIsClosest(t: Trade, used: set<string>, records: seq<Record>)
    ensures MatchRecord(t, used, records).None? <==>
            forall r :: r in records ==> !Fits(t, used, r, 1_200_000, 3_600_000)
    ensures
      MatchRecord(t, used, records).Some? ==>
        var m := MatchRecord(t, used, records).value;
        && m in records && Fits(t, used, m, 1_200_000, 3_600_000)
        && ((exists r :: r in records && FitsStrictly(t, used, r)) ==> FitsStrictly(t, used, m))
        && forall r :: r in records && (if FitsStrictly(t, used, m) then FitsStrictly(t, used, r)
                                        else Fits(t, used, r, 1_200_000, 3_600_000))
             ==> NoWorse(t, m, r)
  {
    MatchIsOptimal(t, used, records);
    forall r
      ensures IsStrict(t, used, r) <==> FitsStrictly(t, used, r)
      ensures IsRelaxed(t, used, r) <==> Fits(t, used, r, 1_200_000, 3_600_000)
      ensures IsStrict(t, used, r) ==> IsRelaxed(t, used, r)
    {
      CandidatesFit(t, used, r);
    }
    var found := MatchRecord(t, used, records);
    if found.Some? {
      forall r | r in records && IsRelaxed(t, used, r) && (IsStrict(t, used, found.value) ==> IsStrict(t, used, r))
        ensures NoWorse(t, found.value, r)
      {
        NotLessIsNoWorse(t, used, found.value, r);
      }
    }
  }

  // ---- The PnL a record stands for ----

  function Realized(r: Record): real {
    if ToFloat(r.pnl).Some? then ToFloat(r.pnl).value
    else if ToFloat(r.realisedPnl).Some? then ToFloat(r.realisedPnl).value
    else if ToFloat(r.realizedPnl).Some? then ToFloat(r.realizedPnl).value
    else if ToFloat(r.realisedPNL).Some? then ToFloat(r.realisedPNL).value
    else 0.0
  }

  function OrZero(f: Field): real { if ToFloat(f).Some? then ToFloat(f).value else 0.0 }

  function RecordFees(r: Record): real {
    OrZero(r.tradeFee) + OrZero(r.fee) + OrZero(r.closeFee) + OrZero(r.fundingFee)
  }

  /** The reported PnL or, when that is zero, minus the fees. */
  function FinalPnl(r: Record): real {
    if Realized(r) != 0.0 then Realized(r) else -RecordFees(r)
  }

  // ---- The same, field by field ----

  /** The first field that reads as a number. */
  function FirstReadable(fields: seq<Field>): Option<real> {
    if fields == [] then None
    else if fields[0].Number? || fields[0].Text? then Some(fields[0].v)
    else FirstReadable(fields[1..])
  }

  /** The sum of the fields that read as numbers. */
  function SumReadable(fields: seq<Field>): real {
    if fields == [] then 0.0
    else (if fields[0].Number? || fields[0].Text? then fields[0].v else 0.0) + SumReadable(fields[1..])
  }

  lemma OneMoreReadable(f: Field, rest: seq<Field>)
    ensures FirstReadable([f] + rest) == if ToFloat(f).Some? then ToFloat(f) else FirstReadable(rest)
    ensures SumReadable([f] + rest) == OrZero(f) + SumReadable(rest)
  {
    assert ([f] + rest)[1..] == rest;
  }

  lemma FourReadable(a: Field, b: Field, c: Field, d: Field)
    ensures FirstReadable([a, b, c, d]) ==
            if ToFloat(a).Some? then ToFloat(a) else if ToFloat(b).Some? then ToFloat(b)
            else if ToFloat(c).Some? then ToFloat(c) else ToFloat(d)
    ensures SumReadable([a, b, c, d]) == OrZero(a) + OrZero(b) + OrZero(c) + OrZero(d)
  {
    OneMoreReadable(d, []);
    OneMoreReadable(c, [d]);
    OneMoreReadable(b, [c, d]);
    OneMoreReadable(a, [b, c, d]);
    assert [d] + [] == [d] && [c] + [d] == [c, d] && [b] + [c, d] == [b, c, d] && [a] + [b, c, d] == [a, b, c, d];
  }

  /** A record stands for the first readable of its PnL fields when that is not zero, else for minus all its fees. */
  lemma RecordPnlMeans(r: Record)
    ensures
      var first := FirstReadable([r.pnl, r.realisedPnl, r.realizedPnl, r.realisedPNL]);
      FinalPnl(r) == if first.Some? && first.value != 0.0 then first.value
                     else -SumReadable([r.tradeFee, r.fee, r.closeFee, r.fundingFee])
  {
    FourReadable(r.pnl, r.realisedPnl, r.realizedPnl, r.realisedPNL);
    FourReadable(r.tradeFee, r.fee, r.closeFee, r.fundingFee);
  }
}
