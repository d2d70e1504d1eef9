/** The KuCoin passes that bring trade rows in line with a snapshot of the exchange. */
module LifecycleSync {
  import opened Common
  import opened Trades
  import opened Timestamps

  // toBot may leave a USDT suffix.
  datatype Converter = Converter(toKucoin: string -> string, toBot: string -> string)

  datatype Position = Position(symbol: string, size: real)

  function StripUsdt(s: string): string {
    if |s| >= 4 && s[|s| - 4..] == "USDT" then s[..|s| - 4] else s
  }

  function BotSymbol(conv: Converter, kucoinSymbol: string): string { StripUsdt(conv.toBot(kucoinSymbol)) }

  predicate Holds(conv: Converter, p: Position, symbol: string) {
    p.symbol != "" && p.size != 0.0 && BotSymbol(conv, p.symbol) == symbol && symbol != ""
  }

  /** The symbols with a nonzero position on the exchange. */
  function ActiveSymbols(conv: Converter, positions: seq<Position>): set<string> {
    set p | p in positions && Holds(conv, p, BotSymbol(conv, p.symbol)) :: BotSymbol(conv, p.symbol)
  }

  method CollectActiveSymbols(conv: Converter, positions: seq<Position>) returns (active: set<string>)
    ensures active == ActiveSymbols(conv, positions)
  {
    active := {};
    for i := 0 to |positions|
      invariant active == ActiveSymbols(conv, positions[..i])
    {
      assert positions[..i + 1] == positions[..i] + [positions[i]];
      var p := positions[i];
      if p.symbol != "" && p.size != 0.0 {
        var symbol := BotSymbol(conv, p.symbol);
        if symbol != "" {
          active := active + {symbol};
        }
      }
    }
    assert positions[..|positions|] == positions;
  }

  // ---- Position sync ----

  predicate KeyIs(conv: Converter, key: string, s: Row) {
    s.coinSymbol != "" && conv.toKucoin(s.coinSymbol) == key
  }

  function HasKey(conv: Converter, key: string): Row -> bool { (s: Row) => KeyIs(conv, key, s) }

  predicate MayActivate(s: Row) { !s.status.ACTIVE? && !s.status.OPEN? && s.closedAt.None? }

  function Touched(s: Row, r: Row, held: bool, now: int): Row {
    var touched := r.(updatedAt := Some(now));
    if held && MayActivate(s) then touched.(status := ACTIVE, isActive := true) else touched
  }

  function Marked(p: Position, now: int): Patch { (s: Row, r: Row) => Touched(s, r, p.size != 0.0, now) }

  predicate ShouldClose(s: Row) {
    s.status.ACTIVE? || s.status.OPEN? || (s.closedAt.Some? && !Terminal(s.status))
  }

  /** A forced close: the closed_at column is stamped, then the close update is written. */
  function ForceClosed(r: Row, now: int): Row {
    Closed(r, None, now).(isActive := false)
  }

  function DroppedRow(s: Row, r: Row, now: int): Row {
    if !ShouldClose(s) then r
    else if s.neverExecuted then r.(status := FAILED, isActive := false, updatedAt := Some(now))
    else ForceClosed(r, now)
  }

  function Dropped(now: int): Patch { (s: Row, r: Row) => DroppedRow(s, r, now) }

  function Index(conv: Converter, snapshot: seq<Row>, key: string): seq<Row> {
    Filter(HasKey(conv, key), snapshot)
  }

  /** The loop over positions. */
  function MarkAll(rows: Rows, conv: Converter, snapshot: seq<Row>, positions: seq<Position>, now: int): Rows {
    if positions == [] then rows
    else
      var last := positions[|positions| - 1];
      var before := MarkAll(rows, conv, snapshot, positions[..|positions| - 1], now);
      if last.symbol == "" then before else Rewrite(before, Index(conv, snapshot, last.symbol), Marked(last, now))
  }

  /** The loop over the indexed symbols without a listed position. */
  function DropAll(rows: Rows, conv: Converter, snapshot: seq<Row>, keys: seq<string>, listed: set<string>,
                   now: int): Rows
  {
    if keys == [] then rows
    else
      var last := keys[|keys| - 1];
      var before := DropAll(rows, conv, snapshot, keys[..|keys| - 1], listed, now);
      if last in listed then before else Rewrite(before, Index(conv, snapshot, last), Dropped(now))
  }

  predicate IsListed(conv: Converter, s: Row, positions: seq<Position>) {
    s.coinSymbol != "" && exists p :: p in positions && p.symbol != "" && p.symbol == conv.toKucoin(s.coinSymbol)
  }

  predicate IsHeld(conv: Converter, s: Row, positions: seq<Position>) {
    s.coinSymbol != "" &&
    exists p :: p in positions && p.symbol != "" && p.symbol == conv.toKucoin(s.coinSymbol) && p.size != 0.0
  }

  /** What position sync does to one row. */
  function SyncedRow(conv: Converter, positions: seq<Position>, s: Row, r: Row, now: int): Row {
    if s.coinSymbol == "" then r
    else if IsListed(conv, s, positions) then Touched(s, r, IsHeld(conv, s, positions), now)
    else DroppedRow(s, r, now)
  }

  function Synced(conv: Converter, positions: seq<Position>, now: int): Patch {
    (s: Row, r: Row) => SyncedRow(conv, positions, s, r, now)
  }

  /** The index lists under each key its rows, and has every key that occurs. */
  ghost predicate IsIndex(index: map<string, seq<Row>>, conv: Converter, snapshot: seq<Row>) {
    && (forall k :: k in index ==> index[k] == Index(conv, snapshot, k))
    && (forall s :: s in snapshot && s.coinSymbol != "" ==> conv.toKucoin(s.coinSymbol) in index)
  }

  function RowsFor(conv: Converter, snapshot: seq<Row>): string -> seq<Row> {
    (key: string) => Index(conv, snapshot, key)
  }

  /** The keys without repetition, each with its rows; keys not listed have none. */
  ghost predicate Collected(keys: seq<string>, index: map<string, seq<Row>>, rowsFor: string -> seq<Row>) {
    && (forall i, j :: 0 <= i < j < |keys| ==> keys[i] != keys[j])
    && (forall k :: k in keys <==> k in index)
    && (forall k :: k in index ==> index[k] == rowsFor(k))
    && (forall k :: k !in index ==> rowsFor(k) == [])
  }

  lemma CollectedNext(keys: seq<string>, index: map<string, seq<Row>>, before: string -> seq<Row>,
                      after: string -> seq<Row>, key: string, s: Row)
    requires Collected(keys, index, before)
    requires forall k :: after(k) == before(k) + if k == key then [s] else []
    ensures
      var rows := if key in index then index[key] else [];
      Collected(if key in index then keys else keys + [key], index[key := rows + [s]], after)
  {
  }

  /** Files one row under its key. */
  method AddToIndex(keys: seq<string>, index: map<string, seq<Row>>, key: string, trade: Row)
    returns (allKeys: seq<string>, wider: map<string, seq<Row>>)
    ensures allKeys == if key in index then keys else keys + [key]
    ensures wider == index[key := (if key in index then index[key] else []) + [trade]]
  {
    allKeys, wider := keys, index;
    if key !in index {
      allKeys := keys + [key];
      wider := index[key := []];
    }
    wider := wider[key := wider[key] + [trade]];
  }

  /** The symbol keys in order of first appearance, with their rows. */
  method BuildIndex(conv: Converter, snapshot: seq<Row>) returns (keys: seq<string>, index: map<string, seq<Row>>)
    ensures forall i, j :: 0 <= i < j < |keys| ==> keys[i] != keys[j]
    ensures forall k :: k in keys <==> k in index
    ensures IsIndex(index, conv, snapshot)
  {
    keys, index := [], map[];
    for i := 0 to |snapshot|
      invariant Collected(keys, index, RowsFor(conv, snapshot[..i]))
    {
      RowsForNext(conv, snapshot, i);
      var trade := snapshot[i];
      if trade.coinSymbol != "" {
        var key := conv.toKucoin(trade.coinSymbol);
        CollectedNext(keys, index, RowsFor(conv, snapshot[..i]), RowsFor(conv, snapshot[..i + 1]), key, trade);
        keys, index := AddToIndex(keys, index, key, trade);
      }
    }
    assert snapshot[..|snapshot|] == snapshot;
    CollectedIsIndex(keys, index, conv, snapshot);
  }

  lemma CollectedIsIndex(keys: seq<string>, index: map<string, seq<Row>>, conv: Converter, snapshot: seq<Row>)
    requires Collected(keys, index, RowsFor(conv, snapshot))
    ensures IsIndex(index, conv, snapshot)
  {
    forall s | s in snapshot && s.coinSymbol != ""
      ensures conv.toKucoin(s.coinSymbol) in index
    {
      var key := conv.toKucoin(s.coinSymbol);
      FilterMembers(HasKey(conv, key), snapshot);
      assert s in RowsFor(conv, snapshot)(key);
    }
  }

  lemma RowsForNext(conv: Converter, snapshot: seq<Row>, i: nat)
    requires i < |snapshot|
    ensures forall k :: RowsFor(conv, snapshot[..i + 1])(k) ==
                        RowsFor(conv, snapshot[..i])(k) + if KeyIs(conv, k, snapshot[i]) then [snapshot[i]] else []
  {
    forall k
      ensures Index(conv, snapshot[..i + 1], k) ==
              Index(conv, snapshot[..i], k) + if KeyIs(conv, k, snapshot[i]) then [snapshot[i]] else []
    {
      FilterNext(HasKey(conv, k), snapshot, i);
    }
  }

  lemma {:induction false} FilteredDistinct(p: Row -> bool, snapshot: seq<Row>)
    requires Distinct(snapshot)
    ensures Distinct(Filter(p, snapshot))
  {
    if snapshot != [] {
      var init, last := snapshot[..|snapshot| - 1], snapshot[|snapshot| - 1];
      FilteredDistinct(p, init);
      FilterMembers(p, init);
      assert forall s :: s in init ==> s.id != last.id;
      assert forall i :: 0 <= i < |Filter(p, init)| ==> Filter(p, init)[i] in Filter(p, init);
    }
  }

  /** Updates every row of one symbol that has a position. */
  method MarkRows(table: Table, trades: seq<Row>, p: Position, now: int)
    requires Distinct(trades)
    modifies table
    ensures table.rows == Rewrite(old(table.rows), trades, Marked(p, now))
  {
    ghost var rows := table.rows;
    for i := 0 to |trades|
      invariant table.rows == Rewrite(rows, trades[..i], Marked(p, now))
    {
      RewriteNext(rows, trades, Marked(p, now), i);
      var trade := trades[i];
      if trade.id in table.rows {
        var row := table.rows[trade.id].(updatedAt := Some(now));
        if p.size != 0.0 && !trade.status.ACTIVE? && !trade.status.OPEN? && trade.closedAt.None? {
          row := row.(status := ACTIVE, isActive := true);
        }
        table.Update(trade.id, row);
      }
    }
    assert trades[..|trades|] == trades;
  }

  /** Closes or fails the rows of one symbol that has no listed position. */
  method DropRows(table: Table, trades: seq<Row>, now: int)
    requires Distinct(trades)
    modifies table
    ensures table.rows == Rewrite(old(table.rows), trades, Dropped(now))
  {
    ghost var rows := table.rows;
    var manager := new TimestampManager(table);
    for i := 0 to |trades|
      invariant table.rows == Rewrite(rows, trades[..i], Dropped(now))
    {
      RewriteNext(rows, trades, Dropped(now), i);
      var trade := trades[i];
      if !ShouldClose(trade) || trade.id !in table.rows {
        continue;
      }
      if trade.neverExecuted {
        table.Update(trade.id, table.rows[trade.id].(status := FAILED, isActive := false, updatedAt := Some(now)));
      } else {
        var _ := manager.SetClosedAt(trade.id, None, now);
        table.Update(trade.id, table.rows[trade.id].(status := CLOSED, isActive := false));
      }
    }
    assert trades[..|trades|] == trades;
  }

  /** The symbols of the index that some position lists. */
  ghost predicate Lists(listed: set<string>, index: map<string, seq<Row>>, positions: seq<Position>) {
    forall k :: k in listed <==> k in index && k != "" && exists p :: p in positions && p.symbol == k
  }

  /** Marks the rows of every listed symbol. */
  method MarkListed(table: Table, conv: Converter, positions: seq<Position>, snapshot: seq<Row>,
                    index: map<string, seq<Row>>, now: int)
    returns (listed: set<string>)
    requires Distinct(snapshot) && IsIndex(index, conv, snapshot)
    modifies table
    ensures table.rows == MarkAll(old(table.rows), conv, snapshot, positions, now)
    ensures Lists(listed, index, positions)
  {
    ghost var rows := table.rows;
    listed := {};
    for i := 0 to |positions|
      invariant table.rows == MarkAll(rows, conv, snapshot, positions[..i], now)
      invariant Lists(listed, index, positions[..i])
    {
      assert positions[..i + 1] == positions[..i] + [positions[i]];
      assert positions[..i + 1][..i] == positions[..i];
      var symbol := positions[i].symbol;
      if symbol == "" {
        continue;
      }
      if symbol in index {
        listed := listed + {symbol};
        FilteredDistinct(HasKey(conv, symbol), snapshot);
        MarkRows(table, index[symbol], positions[i], now);
      } else {
        NoRows(table.rows, conv, snapshot, symbol, Marked(positions[i], now));
      }
    }
    assert positions[..|positions|] == positions;
  }

  /** Closes or fails the rows of every symbol that is not listed. */
  method DropUnlisted(table: Table, conv: Converter, snapshot: seq<Row>, keys: seq<string>,
                      index: map<string, seq<Row>>, listed: set<string>, now: int)
    requires Distinct(snapshot) && IsIndex(index, conv, snapshot) && forall k :: k in keys ==> k in index
    modifies table
    ensures table.rows == DropAll(old(table.rows), conv, snapshot, keys, listed, now)
  {
    ghost var rows := table.rows;
    for i := 0 to |keys|
      invariant table.rows == DropAll(rows, conv, snapshot, keys[..i], listed, now)
    {
      assert keys[..i + 1][..i] == keys[..i];
      if keys[i] in listed {
        continue;
      }
      FilteredDistinct(HasKey(conv, keys[i]), snapshot);
      DropRows(table, index[keys[i]], now);
    }
    assert keys[..|keys|] == keys;
  }

  /** Marks rows with a live position ACTIVE, then closes live rows whose symbol is no longer listed. */
  method SyncPositions(table: Table, conv: Converter, positions: seq<Position>, snapshot: seq<Row>, now: int)
    requires Distinct(snapshot)
    modifies table
    ensures table.rows == Rewrite(old(table.rows), snapshot, Synced(conv, positions, now))
  {
    ghost var rows := table.rows;
    var keys, index := BuildIndex(conv, snapshot);
    var listed := MarkListed(table, conv, positions, snapshot, index, now);
    DropUnlisted(table, conv, snapshot, keys, index, listed, now);
    SyncIsRowWise(rows, conv, snapshot, positions, keys, listed, now);
  }

  lemma NoRows(rows: Rows, conv: Converter, snapshot: seq<Row>, key: string, patch: Patch)
    requires forall s :: s in snapshot ==> !KeyIs(conv, key, s)
    ensures Rewrite(rows, Index(conv, snapshot, key), patch) == rows
  {
    FilterNone(HasKey(conv, key), snapshot);
  }

  // ---- The two loops together rewrite each row on its own ----

  function MarkOne(conv: Converter, s: Row, r: Row, positions: seq<Position>, now: int): Row {
    if positions == [] then r
    else
      var last := positions[|positions| - 1];
      var before := MarkOne(conv, s, r, positions[..|positions| - 1], now);
      if last.symbol != "" && KeyIs(conv, last.symbol, s) then Touched(s, before, last.size != 0.0, now) else before
  }

  /** Patching the rows of one symbol, row by row. */
  lemma SymbolRow(rows: Rows, conv: Converter, snapshot: seq<Row>, key: string, patch: Patch, id: int)
    requires Distinct(snapshot)
    ensures
      var after := Rewrite(rows, Index(conv, snapshot, key), patch);
      && after.Keys == rows.Keys
      && (id in rows ==>
            after[id] ==
            match Lookup(snapshot, id)
            case None => rows[id]
            case Some(s) => if KeyIs(conv, key, s) then patch(s, rows[id]) else rows[id])
  {
    LookupFiltered(HasKey(conv, key), snapshot, id);
  }

  lemma {:induction false} MarkAllIsRowWise(rows: Rows, conv: Converter, snapshot: seq<Row>,
                                            positions: seq<Position>, now: int, id: int)
    requires Distinct(snapshot)
    ensures MarkAll(rows, conv, snapshot, positions, now).Keys == rows.Keys
    ensures id in rows ==>
              MarkAll(rows, conv, snapshot, positions, now)[id] ==
              match Lookup(snapshot, id)
              case None => rows[id]
              case Some(s) => MarkOne(conv, s, rows[id], positions, now)
  {
    if positions != [] {
      var last := positions[|positions| - 1];
      MarkAllIsRowWise(rows, conv, snapshot, positions[..|positions| - 1], now, id);
      SymbolRow(MarkAll(rows, conv, snapshot, positions[..|positions| - 1], now), conv, snapshot, last.symbol,
                Marked(last, now), id);
    }
  }

  lemma {:induction false} MarkOneOutcome(conv: Converter, s: Row, r: Row, positions: seq<Position>, now: int)
    ensures MarkOne(conv, s, r, positions, now) ==
              if IsListed(conv, s, positions) then Touched(s, r, IsHeld(conv, s, positions), now) else r
  {
    if positions != [] {
      var init, last := positions[..|positions| - 1], positions[|positions| - 1];
      MarkOneOutcome(conv, s, r, init, now);
      assert positions == init + [last];
      assert forall p :: p in positions <==> p in init || p == last;
    }
  }

  lemma {:induction false} DropAllIsRowWise(rows: Rows, conv: Converter, snapshot: seq<Row>, keys: seq<string>,
                                            listed: set<string>, now: int, id: int)
    requires Distinct(snapshot)
    requires forall i, j :: 0 <= i < j < |keys| ==> keys[i] != keys[j]
    ensures DropAll(rows, conv, snapshot, keys, listed, now).Keys == rows.Keys
    ensures id in rows ==>
              DropAll(rows, conv, snapshot, keys, listed, now)[id] ==
              match Lookup(snapshot, id)
              case None => rows[id]
              case Some(s) =>
                var key := conv.toKucoin(s.coinSymbol);
                if s.coinSymbol != "" && key in keys && key !in listed then DroppedRow(s, rows[id], now) else rows[id]
  {
    if keys != [] {
      var init, last := keys[..|keys| - 1], keys[|keys| - 1];
      DropAllIsRowWise(rows, conv, snapshot, init, listed, now, id);
      SymbolRow(DropAll(rows, conv, snapshot, init, listed, now), conv, snapshot, last, Dropped(now), id);
      assert keys == init + [last] && last !in init;
    }
  }

  lemma SyncIsRowWise(rows: Rows, conv: Converter, snapshot: seq<Row>, positions: seq<Position>,
                      keys: seq<string>, listed: set<string>, now: int)
    requires Distinct(snapshot)
    requires forall i, j :: 0 <= i < j < |keys| ==> keys[i] != keys[j]
    requires forall s :: s in snapshot && s.coinSymbol != "" ==> conv.toKucoin(s.coinSymbol) in keys
    requires forall k :: k in listed <==> k in keys && k != "" && exists p :: p in positions && p.symbol == k
    ensures DropAll(MarkAll(rows, conv, snapshot, positions, now), conv, snapshot, keys, listed, now) ==
            Rewrite(rows, snapshot, Synced(conv, positions, now))
  {
    var marked := MarkAll(rows, conv, snapshot, positions, now);
    var dropped := DropAll(marked, conv, snapshot, keys, listed, now);
    MarkAllIsRowWise(rows, conv, snapshot, positions, now, 0);
    DropAllIsRowWise(marked, conv, snapshot, keys, listed, now, 0);
    forall id | id in rows
      ensures dropped[id] == Rewrite(rows, snapshot, Synced(conv, positions, now))[id]
    {
      MarkAllIsRowWise(rows, conv, snapshot, positions, now, id);
      DropAllIsRowWise(marked, conv, snapshot, keys, listed, now, id);
      LookupFinds(snapshot, id);
      if Lookup(snapshot, id).Some? {
        MarkOneOutcome(conv, Lookup(snapshot, id).value, rows[id], positions, now);
      }
    }
  }

  // ---- Cleanup ----

  predicate CleanupCloses(active: set<string>, s: Row) {
    SymbolOf(s) != "" &&
    ((SymbolOf(s) !in active && Open(s.status)) || (s.closedAt.Some? && !Terminal(s.status)))
  }

  function ToClose(active: set<string>): Row -> bool { (s: Row) => CleanupCloses(active, s) }

  function Closing(now: int): Patch { (s: Row, r: Row) => ForceClosed(r, now) }

  /** What cleanup does to one row. */
  function CleanedRow(active: set<string>, s: Row, r: Row, now: int): Row {
    if CleanupCloses(active, s) then ForceClosed(r, now) else r
  }

  function Cleaned(active: set<string>, now: int): Patch { (s: Row, r: Row) => CleanedRow(active, s, r, now) }

  /** Force-closes every given row. */
  method CloseRows(table: Table, trades: seq<Row>, now: int)
    requires Distinct(trades)
    modifies table
    ensures table.rows == Rewrite(old(table.rows), trades, Closing(now))
  {
    ghost var rows := table.rows;
    var manager := new TimestampManager(table);
    for i := 0 to |trades|
      invariant table.rows == Rewrite(rows, trades[..i], Closing(now))
    {
      RewriteNext(rows, trades, Closing(now), i);
      var id := trades[i].id;
      if id in table.rows {
        var _ := manager.SetClosedAt(id, None, now);
        table.Update(id, table.rows[id].(status := CLOSED, isActive := false));
      }
    }
    assert trades[..|trades|] == trades;
  }

  /** Closes the live rows of symbols without a position, and rows that are closed in all but status. */
  method CleanupPositions(table: Table, conv: Converter, positions: seq<Position>, snapshot: seq<Row>, now: int)
    requires Distinct(snapshot)
    modifies table
    ensures table.rows == Rewrite(old(table.rows), snapshot, Cleaned(ActiveSymbols(conv, positions), now))
  {
    ghost var rows := table.rows;
    var active := CollectActiveSymbols(conv, positions);
    var tradesToClose := [];
    for i := 0 to |snapshot|
      invariant tradesToClose == Filter(ToClose(active), snapshot[..i])
      invariant table.rows == rows
    {
      FilterNext(ToClose(active), snapshot, i);
      if CleanupCloses(active, snapshot[i]) {
        tradesToClose := tradesToClose + [snapshot[i]];
      }
    }
    assert snapshot[..|snapshot|] == snapshot;
    FilteredDistinct(ToClose(active), snapshot);
    CloseRows(table, tradesToClose, now);
    CleanupIsRowWise(rows, snapshot, active, now);
  }

  lemma CleanupIsRowWise(rows: Rows, snapshot: seq<Row>, active: set<string>, now: int)
    requires Distinct(snapshot)
    ensures Rewrite(rows, Filter(ToClose(active), snapshot), Closing(now)) ==
            Rewrite(rows, snapshot, Cleaned(active, now))
  {
    forall id | id in rows
      ensures Rewrite(rows, Filter(ToClose(active), snapshot), Closing(now))[id] ==
              Rewrite(rows, snapshot, Cleaned(active, now))[id]
    {
      LookupFiltered(ToClose(active), snapshot, id);
    }
  }

  // ---- Keeping closed trades closed ----

  predicate Reopened(s: Row) { s.closedAt.Some? && !Terminal(s.status) }

  /** What the last pass does to one row; updaterOk says for which trades the status updater succeeds. */
  function EnsuredRow(updaterOk: int -> bool, s: Row, r: Row): Row {
    if Reopened(s) && updaterOk(s.id) then r.(status := CLOSED, isActive := false) else r
  }

  function Ensured(updaterOk: int -> bool): Patch { (s: Row, r: Row) => EnsuredRow(updaterOk, s, r) }

  method EnsureClosedStayClosed(table: Table, snapshot: seq<Row>, updaterOk: int -> bool)
    requires Distinct(snapshot)
    modifies table
    ensures table.rows == Rewrite(old(table.rows), snapshot, Ensured(updaterOk))
  {
    ghost var rows := table.rows;
    for i := 0 to |snapshot|
      invariant table.rows == Rewrite(rows, snapshot[..i], Ensured(updaterOk))
    {
      RewriteNext(rows, snapshot, Ensured(updaterOk), i);
      var trade := snapshot[i];
      if trade.closedAt.Some? && !Terminal(trade.status) && updaterOk(trade.id) && trade.id in table.rows {
        table.Update(trade.id, table.rows[trade.id].(status := CLOSED, isActive := false));
      }
    }
    assert snapshot[..|snapshot|] == snapshot;
  }
}
