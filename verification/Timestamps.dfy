/** Setting and repairing the created_at and closed_at columns. */
module Timestamps {
  import opened Common
  import opened Trades

  /** An exchange time, when given and nonzero, is preferred over the clock. */
  function TimeOr(time: Option<int>, now: int): int {
    if time.Some? && time.value != 0 then time.value else now
  }

  function Created(r: Row, time: Option<int>, now: int): Row {
    if r.createdAt.Some? then r else r.(createdAt := Some(TimeOr(time, now)), updatedAt := Some(now))
  }

  function Closed(r: Row, time: Option<int>, now: int): Row {
    r.(closedAt := Some(TimeOr(time, now)), status := CLOSED, updatedAt := Some(TimeOr(time, now)))
  }

  function Fixed(r: Row, now: int): Row {
    var fallback := if r.updatedAt.Some? then r.updatedAt else Some(now);
    var createdAt := if r.createdAt.None? then fallback else r.createdAt;
    var closedAt := if r.status.CLOSED? && r.closedAt.None? then fallback else r.closedAt;
    if createdAt == r.createdAt && closedAt == r.closedAt then r
    else r.(createdAt := createdAt, closedAt := closedAt, updatedAt := Some(now))
  }

  class TimestampManager {
    const table: Table

    constructor (table: Table)
      ensures this.table == table
    {
      this.table := table;
    }

    method SetCreatedAt(id: int, orderTime: Option<int>, now: int) returns (success: bool)
      modifies table
      ensures success <==> id in old(table.rows) && old(table.rows)[id].createdAt.None?
      ensures table.rows == Apply(old(table.rows), SetCreated(id, orderTime, now))
    {
      if id !in table.rows {
        return false;
      }
      var trade := table.rows[id];
      if trade.createdAt.Some? {
        return false;
      }
      var createdAt := if orderTime.Some? && orderTime.value != 0 then orderTime.value else now;
      table.Update(id, trade.(createdAt := Some(createdAt), updatedAt := Some(now)));
      return true;
    }

    method SetClosedAt(id: int, fillTime: Option<int>, now: int) returns (success: bool)
      modifies table
      ensures success <==> id in old(table.rows)
      ensures table.rows == Apply(old(table.rows), SetClosed(id, fillTime, now))
    {
      if id !in table.rows {
        return false;
      }
      var closedAt := if fillTime.Some? && fillTime.value != 0 then fillTime.value else now;
      table.Update(id, table.rows[id].(closedAt := Some(closedAt), status := CLOSED, updatedAt := Some(closedAt)));
      return true;
    }

    method FixMissingTimestamps(id: int, now: int) returns (success: bool)
      modifies table
      ensures success <==> id in old(table.rows)
      ensures table.rows == Apply(old(table.rows), Fix(id, now))
    {
      if id !in table.rows {
        return false;
      }
      var trade := table.rows[id];
      var update, changed := trade, false;
      if trade.createdAt.None? {
        update := update.(createdAt := if trade.updatedAt.Some? then trade.updatedAt else Some(now));
        changed := true;
      }
      if trade.status.CLOSED? && trade.closedAt.None? {
        update := update.(closedAt := if trade.updatedAt.Some? then trade.updatedAt else Some(now));
        changed := true;
      }
      if changed {
        table.Update(id, update.(updatedAt := Some(now)));
      }
      return true;
    }
  }

  // ---- Sequences of calls ----

  datatype Call =
    | SetCreated(id: int, time: Option<int>, now: int)
    | SetClosed(id: int, time: Option<int>, now: int)
    | Fix(id: int, now: int)

  function Apply(rows: Rows, call: Call): Rows {
    if call.id !in rows then rows
    else
      rows[call.id :=
        match call
        case SetCreated(id, time, now) => Created(rows[id], time, now)
        case SetClosed(id, time, now) => Closed(rows[id], time, now)
        case Fix(id, now) => Fixed(rows[id], now)]
  }

  function ApplyAll(rows: Rows, calls: seq<Call>): Rows {
    if calls == [] then rows else ApplyAll(Apply(rows, calls[0]), calls[1..])
  }

  /** What no call undoes in a row. */
  ghost predicate Grows(r: Row, r': Row) {
    && (r.createdAt.Some? ==> r'.createdAt == r.createdAt)
    && (r.closedAt.Some? ==> r'.closedAt.Some?)
    && (r.status.CLOSED? ==> r'.status.CLOSED?)
    && (r'.status == r.status || r'.status.CLOSED?)
    && ((r.closedAt.Some? ==> r.status.CLOSED?) ==> (r'.closedAt.Some? ==> r'.status.CLOSED?))
    && r'.(createdAt := r.createdAt, closedAt := r.closedAt, status := r.status, updatedAt := r.updatedAt) == r
  }

  /** Over any sequence of calls rows neither appear nor vanish, a created_at never changes, a closed_at is
      never cleared, CLOSED is never left, "closed_at implies CLOSED" is kept, and nothing else changes. */
  lemma {:induction false} TimestampsOnlyGrow(rows: Rows, calls: seq<Call>)
    ensures ApplyAll(rows, calls).Keys == rows.Keys
    ensures forall id :: id in rows ==> Grows(rows[id], ApplyAll(rows, calls)[id])
  {
    if calls != [] {
      TimestampsOnlyGrow(Apply(rows, calls[0]), calls[1..]);
    }
  }

  /** A fix, even followed by any other calls, leaves no CLOSED row of that id without a closed_at and no row
      of that id without a created_at; and fixing twice is fixing once. */
  lemma FixIsLasting(rows: Rows, id: int, now: int, calls: seq<Call>, later: int)
    requires id in rows
    ensures
      var fixedRows := Apply(rows, Fix(id, now));
      && id in ApplyAll(fixedRows, calls) && ApplyAll(fixedRows, calls)[id].createdAt.Some?
      && (rows[id].status.CLOSED? ==> ApplyAll(fixedRows, calls)[id].closedAt.Some?)
      && Apply(fixedRows, Fix(id, later)) == fixedRows
  {
    TimestampsOnlyGrow(Apply(rows, Fix(id, now)), calls);
  }

  /** Calling twice is safe for created_at; for closed_at the later time wins, so the second call is without
      effect exactly when it brings the same time. */
  lemma SecondCall(rows: Rows, id: int, t1: Option<int>, now1: int, t2: Option<int>, now2: int)
    requires id in rows
    ensures
      var once := Apply(rows, SetCreated(id, t1, now1));
      Apply(once, SetCreated(id, t2, now2)) == once
    ensures
      var once := Apply(rows, SetClosed(id, t1, now1));
      Apply(once, SetClosed(id, t2, now2)) == once <==> TimeOr(t1, now1) == TimeOr(t2, now2)
  {
    var once := Apply(rows, SetClosed(id, t1, now1));
    var twice := Apply(once, SetClosed(id, t2, now2));
    assert once[id].closedAt == Some(TimeOr(t1, now1)) && twice[id].closedAt == Some(TimeOr(t2, now2));
  }

  /** Whatever else is called for the row later, its closed_at stays that of the last set_closed_at. */
  lemma {:induction false} LastCloseWins(rows: Rows, id: int, time: Option<int>, now: int, later: seq<Call>)
    requires id in rows
    requires forall call :: call in later && call.id == id ==> !call.SetClosed?
    ensures
      var after := ApplyAll(Apply(rows, SetClosed(id, time, now)), later);
      && id in after && after[id].status == CLOSED
      && after[id].closedAt == if time.Some? && time.value != 0 then time else Some(now)
  {
    ClosedRowKeepsItsTime(Apply(rows, SetClosed(id, time, now)), id, later);
  }

  lemma {:induction false} ClosedRowKeepsItsTime(rows: Rows, id: int, calls: seq<Call>)
    requires id in rows && rows[id].closedAt.Some? && rows[id].status.CLOSED?
    requires forall call :: call in calls && call.id == id ==> !call.SetClosed?
    ensures
      var after := ApplyAll(rows, calls);
      id in after && after[id].closedAt == rows[id].closedAt && after[id].status.CLOSED?
  {
    if calls != [] {
      ClosedRowKeepsItsTime(Apply(rows, calls[0]), id, calls[1..]);
    }
  }

  /** A missing created_at becomes the given time, or the clock's without one, and then stays; set_created_at
      changes nothing else but updated_at. */
  lemma FirstCreationWins(rows: Rows, id: int, time: Option<int>, now: int, later: seq<Call>)
    requires id in rows
    ensures
      var once := Apply(rows, SetCreated(id, time, now));
      && id in ApplyAll(once, later) && ApplyAll(once, later)[id].createdAt == once[id].createdAt
      && once[id].createdAt == (if rows[id].createdAt.Some? then rows[id].createdAt
                                else if time.Some? && time.value != 0 then time else Some(now))
      && once[id].(createdAt := rows[id].createdAt, updatedAt := rows[id].updatedAt) == rows[id]
      && once[id].updatedAt == if rows[id].createdAt.Some? then rows[id].updatedAt else Some(now)
  {
    TimestampsOnlyGrow(Apply(rows, SetCreated(id, time, now)), later);
  }

  /** A fix takes what is missing from updated_at, or from the clock when that is missing too; it sets no closed_at
      unless the row is CLOSED, and writes updated_at exactly when something was missing. */
  lemma FixTakesUpdateTime(rows: Rows, id: int, now: int)
    requires id in rows
    ensures
      var before, after := rows[id], Apply(rows, Fix(id, now))[id];
      var known := if before.updatedAt.Some? then before.updatedAt else Some(now);
      && after.createdAt == (if before.createdAt.None? then known else before.createdAt)
      && after.closedAt == (if before.closedAt.None? && before.status.CLOSED? then known else before.closedAt)
      && after.status == before.status
      && after.updatedAt == if before.createdAt.None? || (before.closedAt.None? && before.status.CLOSED?)
                            then Some(now) else before.updatedAt
  {
  }
}
