/** The pass that copies the state of exchange orders into trade rows. */
module OrderSync {
  import opened Common
  import opened Trades
  import opened LifecycleSync

  const MATCH_WINDOW := 600 * 1000

  // mapped is the position status that the status manager assigns to the order.
  datatype Order = Order(orderId: string, symbol: string, timeMs: int, mapped: Status)

  /** The last row that carries the order id. */
  function LastByOrderId(snapshot: seq<Row>, orderId: string): Option<Row> {
    if snapshot == [] then None
    else if snapshot[|snapshot| - 1].orderId == orderId then Some(snapshot[|snapshot| - 1])
    else LastByOrderId(snapshot[..|snapshot| - 1], orderId)
  }

  predicate NearInTime(conv: Converter, s: Row, order: Order) {
    KeyIs(conv, order.symbol, s) && s.createdAt.Some? && AbsInt(s.createdAt.value - order.timeMs) < MATCH_WINDOW
  }

  /** The first row of the order's symbol created within ten minutes of the order. */
  function FirstByTime(conv: Converter, snapshot: seq<Row>, order: Order): Option<Row> {
    if snapshot == [] then None
    else if NearInTime(conv, snapshot[0], order) then Some(snapshot[0])
    else FirstByTime(conv, snapshot[1..], order)
  }

  function MatchOrder(conv: Converter, snapshot: seq<Row>, order: Order): Option<Row> {
    if order.orderId == "" then None
    else if LastByOrderId(snapshot, order.orderId).Some? then LastByOrderId(snapshot, order.orderId)
    else if order.symbol == "" || order.timeMs == 0 then None
    else FirstByTime(conv, snapshot, order)
  }

  /** The order replaces the stored exchange response, and with it what is derived from the response. */
  function OrderedRow(r: Row, order: Order, now: int): Row {
    r.(status := order.mapped, updatedAt := Some(now), orderId := order.orderId,
       responseSymbol := StripUsdt(order.symbol), neverExecuted := false)
  }

  function WriteOrder(rows: Rows, target: Option<Row>, order: Order, now: int): Rows {
    if target.Some? && target.value.id in rows then
      var id := target.value.id;
      rows[id := OrderedRow(rows[id], order, now)]
    else rows
  }

  function OrdersApplied(rows: Rows, conv: Converter, snapshot: seq<Row>, orders: seq<Order>, now: int): Rows {
    if orders == [] then rows
    else
      var last := orders[|orders| - 1];
      var before := OrdersApplied(rows, conv, snapshot, orders[..|orders| - 1], now);
      WriteOrder(before, MatchOrder(conv, snapshot, last), last, now)
  }

  method IndexOrders(snapshot: seq<Row>) returns (byOrderId: map<string, Row>)
    ensures forall k :: k != "" ==> (k in byOrderId <==> LastByOrderId(snapshot, k).Some?)
    ensures forall k :: k != "" && k in byOrderId ==> Some(byOrderId[k]) == LastByOrderId(snapshot, k)
  {
    byOrderId := map[];
    for i := 0 to |snapshot|
      invariant forall k :: k != "" ==> (k in byOrderId <==> LastByOrderId(snapshot[..i], k).Some?)
      invariant forall k :: k != "" && k in byOrderId ==> Some(byOrderId[k]) == LastByOrderId(snapshot[..i], k)
    {
      assert snapshot[..i + 1][..i] == snapshot[..i];
      if snapshot[i].orderId != "" {
        byOrderId := byOrderId[snapshot[i].orderId := snapshot[i]];
      }
    }
    assert snapshot[..|snapshot|] == snapshot;
  }

  method FindByTime(conv: Converter, snapshot: seq<Row>, order: Order) returns (found: Option<Row>)
    ensures found == FirstByTime(conv, snapshot, order)
  {
    for i := 0 to |snapshot|
      invariant FirstByTime(conv, snapshot, order) == FirstByTime(conv, snapshot[i..], order)
    {
      if NearInTime(conv, snapshot[i], order) {
        return Some(snapshot[i]);
      }
      assert snapshot[i..][1..] == snapshot[i + 1..];
    }
    return None;
  }

  /** Writes the mapped status of every matched order, whether or not the trade is already closed. */
  method SyncOrders(table: Table, conv: Converter, orders: seq<Order>, snapshot: seq<Row>, now: int)
    modifies table
    ensures table.rows == OrdersApplied(old(table.rows), conv, snapshot, orders, now)
  {
    ghost var rows := table.rows;
    var byOrderId := IndexOrders(snapshot);
    for i := 0 to |orders|
      invariant table.rows == OrdersApplied(rows, conv, snapshot, orders[..i], now)
    {
      assert orders[..i + 1][..i] == orders[..i];
      var order := orders[i];
      if order.orderId == "" {
        continue;
      }
      var target: Option<Row> := None;
      if order.orderId in byOrderId {
        target := Some(byOrderId[order.orderId]);
      } else if order.symbol != "" && order.timeMs != 0 {
        target := FindByTime(conv, snapshot, order);
      }
      if target.Some? && target.value.id in table.rows {
        var row := table.rows[target.value.id];
        table.Update(target.value.id,
          row.(status := order.mapped, updatedAt := Some(now), orderId := order.orderId,
               responseSymbol := StripUsdt(order.symbol), neverExecuted := false));
      }
    }
    assert orders[..|orders|] == orders;
  }

  /** The last order matched to a row. */
  function LastOrder(conv: Converter, snapshot: seq<Row>, orders: seq<Order>, id: int): Option<Order> {
    if orders == [] then None
    else
      var last := orders[|orders| - 1];
      var target := MatchOrder(conv, snapshot, last);
      if target.Some? && target.value.id == id then Some(last)
      else LastOrder(conv, snapshot, orders[..|orders| - 1], id)
  }

  lemma {:induction false} OrdersDecideRow(rows: Rows, conv: Converter, snapshot: seq<Row>, orders: seq<Order>,
                                           now: int, id: int)
    requires id in rows
    ensures id in OrdersApplied(rows, conv, snapshot, orders, now)
    ensures OrdersApplied(rows, conv, snapshot, orders, now)[id] ==
            match LastOrder(conv, snapshot, orders, id)
            case None => rows[id]
            case Some(order) => OrderedRow(rows[id], order, now)
  {
    if orders != [] {
      OrdersDecideRow(rows, conv, snapshot, orders[..|orders| - 1], now, id);
    }
  }

  /** Order sync changes a row's status exactly to that of the last order matched to it, and its derived symbol
      exactly to that order's when the row has neither a symbol of its own nor one from its signal; it never
      changes the row's own symbol, its signal's or its closed_at. */
  lemma OrdersDecideStatus(rows: Rows, conv: Converter, snapshot: seq<Row>, orders: seq<Order>, now: int, id: int)
    requires id in rows
    ensures
      var before, last := rows[id], LastOrder(conv, snapshot, orders, id);
      && id in OrdersApplied(rows, conv, snapshot, orders, now)
      && var after := OrdersApplied(rows, conv, snapshot, orders, now)[id];
         && after.status == (if last.Some? then last.value.mapped else before.status)
         && SymbolOf(after) == (if last.Some? && before.coinSymbol == "" && before.signalSymbol == ""
                                then StripUsdt(last.value.symbol) else SymbolOf(before))
         && after.coinSymbol == before.coinSymbol && after.signalSymbol == before.signalSymbol
         && after.closedAt == before.closedAt && after.isActive == before.isActive
         && (last.Some? ==> after.orderId == last.value.orderId && !after.neverExecuted && after.updatedAt == Some(now))
         && (last.None? ==> after == before)
  {
    OrdersDecideRow(rows, conv, snapshot, orders, now, id);
  }

  // ---- Which row an order is matched to ----

  /** Of the order's KuCoin symbol, and created less than ten minutes before or after the order. */
  ghost predicate CreatedAround(conv: Converter, s: Row, order: Order) {
    && s.coinSymbol != "" && conv.toKucoin(s.coinSymbol) == order.symbol
    && s.createdAt.Some? && -600_000 < s.createdAt.value - order.timeMs < 600_000
  }

  lemma {:induction false} LastWithId(snapshot: seq<Row>, orderId: string) returns (i: int)
    ensures -1 <= i < |snapshot| && forall j :: i < j < |snapshot| ==> snapshot[j].orderId != orderId
    ensures if i == -1 then LastByOrderId(snapshot, orderId) == None
            else snapshot[i].orderId == orderId && LastByOrderId(snapshot, orderId) == Some(snapshot[i])
  {
    i := |snapshot| - 1;
    if snapshot != [] && snapshot[i].orderId != orderId {
      i := LastWithId(snapshot[..|snapshot| - 1], orderId);
    }
  }

  lemma {:induction false} FirstAround(conv: Converter, snapshot: seq<Row>, order: Order) returns (i: nat)
    ensures i <= |snapshot| && forall j :: 0 <= j < i ==> !CreatedAround(conv, snapshot[j], order)
    ensures if i == |snapshot| then FirstByTime(conv, snapshot, order) == None
            else CreatedAround(conv, snapshot[i], order) && FirstByTime(conv, snapshot, order) == Some(snapshot[i])
  {
    i := 0;
    if snapshot != [] && !CreatedAround(conv, snapshot[0], order) {
      i := FirstAround(conv, snapshot[1..], order);
      i := i + 1;
      assert forall j :: 0 < j < i ==> snapshot[j] == snapshot[1..][j - 1];
    }
  }

  /** Some row but none after it carries the order's id. */
  ghost predicate IsLastWithId(snapshot: seq<Row>, i: nat, order: Order) {
    && i < |snapshot| && order.orderId != "" && snapshot[i].orderId == order.orderId
    && forall j :: i < j < |snapshot| ==> snapshot[j].orderId != order.orderId
  }

  /** No row carries the order's id, and this is the first one created around it. */
  ghost predicate IsFirstAround(conv: Converter, snapshot: seq<Row>, i: nat, order: Order) {
    && i < |snapshot| && order.orderId != "" && order.symbol != "" && order.timeMs != 0
    && (forall j :: 0 <= j < |snapshot| ==> snapshot[j].orderId != order.orderId)
    && CreatedAround(conv, snapshot[i], order) && forall j :: 0 <= j < i ==> !CreatedAround(conv, snapshot[j], order)
  }

  /** An order is matched to the last row with its id or, when no row has it, to the first of its symbol created
      less than ten minutes from it; to none exactly when neither exists. */
  lemma OrdersAreMatched(conv: Converter, snapshot: seq<Row>, order: Order)
    ensures
      match MatchOrder(conv, snapshot, order)
      case Some(s) =>
        exists i: nat :: i < |snapshot| && s == snapshot[i] &&
                         (IsLastWithId(snapshot, i, order) || IsFirstAround(conv, snapshot, i, order))
      case None =>
        forall i: nat :: i < |snapshot| ==>
          !IsLastWithId(snapshot, i, order) && !IsFirstAround(conv, snapshot, i, order)
  {
    if order.orderId != "" {
      var i := LastWithId(snapshot, order.orderId);
      if i >= 0 {
        assert IsLastWithId(snapshot, i, order);
      } else if order.symbol != "" && order.timeMs != 0 {
        var k := FirstAround(conv, snapshot, order);
        if k < |snapshot| {
          assert IsFirstAround(conv, snapshot, k, order);
        }
      }
    }
  }
}
