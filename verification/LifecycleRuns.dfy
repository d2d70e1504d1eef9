/** What sequences of sync passes guarantee. */
module LifecycleRuns {
  import opened Common
  import opened Trades
  import opened LifecycleSync
  import opened OrderSync

  /** Converting a bot symbol to KuCoin's form and back is the identity on the row's symbol. */
  ghost predicate RoundTrips(conv: Converter, s: Row) {
    s.coinSymbol != "" ==> BotSymbol(conv, conv.toKucoin(s.coinSymbol)) == s.coinSymbol
  }

  /** Position sync, then cleanup, both from the same rows read before. */
  function SyncThenCleanup(rows: Rows, conv: Converter, positions: seq<Position>, snapshot: seq<Row>, now: int): Rows {
    Rewrite(Rewrite(rows, snapshot, Synced(conv, positions, now)), snapshot,
            Cleaned(ActiveSymbols(conv, positions), now))
  }

  lemma SyncThenCleanupRow(rows: Rows, conv: Converter, positions: seq<Position>, snapshot: seq<Row>, now: int, s: Row)
    requires Distinct(snapshot) && s in snapshot && s.id in rows
    ensures s.id in SyncThenCleanup(rows, conv, positions, snapshot, now)
    ensures SyncThenCleanup(rows, conv, positions, snapshot, now)[s.id] ==
            CleanedRow(ActiveSymbols(conv, positions), s, SyncedRow(conv, positions, s, rows[s.id], now), now)
    ensures Rewrite(rows, snapshot, Synced(conv, positions, now))[s.id] ==
            SyncedRow(conv, positions, s, rows[s.id], now)
  {
    RewriteRow(rows, snapshot, Synced(conv, positions, now), s);
    RewriteRow(Rewrite(rows, snapshot, Synced(conv, positions, now)), snapshot,
               Cleaned(ActiveSymbols(conv, positions), now), s);
  }

  lemma HeldIsActive(conv: Converter, positions: seq<Position>, s: Row)
    requires RoundTrips(conv, s) && IsHeld(conv, s, positions)
    ensures s.coinSymbol in ActiveSymbols(conv, positions)
  {
    var p :| p in positions && p.symbol != "" && p.symbol == conv.toKucoin(s.coinSymbol) && p.size != 0.0;
    assert Holds(conv, p, BotSymbol(conv, p.symbol));
  }

  /** A row of a symbol without a position ends PENDING, ACTIVE or OPEN exactly when it was so already while
      the snapshot it is judged by says otherwise; with an up-to-date snapshot only live trades stay open. */
  lemma OnlyLiveTradesStayOpen(rows: Rows, conv: Converter, positions: seq<Position>, snapshot: seq<Row>, now: int,
                               s: Row)
    requires Distinct(snapshot) && s in snapshot && s.id in rows
    requires SymbolOf(s) != "" && RoundTrips(conv, s)
    ensures s.id in SyncThenCleanup(rows, conv, positions, snapshot, now)
    ensures
      var after := SyncThenCleanup(rows, conv, positions, snapshot, now)[s.id];
      var live := SymbolOf(s) in ActiveSymbols(conv, positions);
      && (Open(after.status) && !live <==>
            Open(rows[s.id].status) && !live && !CleanupCloses(ActiveSymbols(conv, positions), s))
      && (rows[s.id].status == s.status && Open(after.status) ==> live)
  {
    SyncThenCleanupRow(rows, conv, positions, snapshot, now, s);
    if IsHeld(conv, s, positions) {
      HeldIsActive(conv, positions, s);
    }
  }

  /** A row that becomes CLOSED is stamped and inactive, one that becomes FAILED is inactive, one that becomes ACTIVE
      is active, and otherwise only updated_at and, for a row that is closed again, the close time change. */
  ghost predicate IsVerdict(s: Row, r: Row, after: Row, now: int) {
    && (after.status != r.status ==>
          match after.status
          case CLOSED => after.closedAt == Some(now) && !after.isActive
          case FAILED => after.closedAt == r.closedAt && !after.isActive && s.neverExecuted
          case ACTIVE => after.closedAt == r.closedAt && after.isActive && s.closedAt.None?
          case _ => false)
    && (after.closedAt != r.closedAt ==> after.closedAt == Some(now) && after.status.CLOSED? && !after.isActive)
    && (after != r ==> after.updatedAt == Some(now))
    && after.(status := r.status, isActive := r.isActive, closedAt := r.closedAt, updatedAt := r.updatedAt) == r
  }

  lemma SyncedVerdict(conv: Converter, positions: seq<Position>, s: Row, r: Row, now: int)
    ensures IsVerdict(s, r, SyncedRow(conv, positions, s, r, now), now)
  {
  }

  lemma ClosedVerdict(s: Row, r: Row, between: Row, now: int)
    requires IsVerdict(s, r, between, now)
    ensures IsVerdict(s, r, ForceClosed(between, now), now)
  {
  }

  /** Whatever snapshot the rows are judged by, the verdict of the two passes is complete. */
  lemma VerdictsAreComplete(rows: Rows, conv: Converter, positions: seq<Position>, snapshot: seq<Row>, now: int, s: Row)
    requires Distinct(snapshot) && s in snapshot && s.id in rows
    ensures s.id in SyncThenCleanup(rows, conv, positions, snapshot, now)
    ensures IsVerdict(s, rows[s.id], SyncThenCleanup(rows, conv, positions, snapshot, now)[s.id], now)
  {
    SyncThenCleanupRow(rows, conv, positions, snapshot, now, s);
    SyncedVerdict(conv, positions, s, rows[s.id], now);
    ClosedVerdict(s, rows[s.id], SyncedRow(conv, positions, s, rows[s.id], now), now);
  }

  /** What position sync alone makes of a row that was read just before and has a symbol of its own. */
  lemma PositionSyncByCase(rows: Rows, conv: Converter, positions: seq<Position>, snapshot: seq<Row>, now: int, s: Row)
    requires Distinct(snapshot) && s in snapshot && s.id in rows && rows[s.id] == s
    ensures s.id in Rewrite(rows, snapshot, Synced(conv, positions, now))
    ensures
      var after := Rewrite(rows, snapshot, Synced(conv, positions, now))[s.id];
      var listed := exists p :: p in positions && p.symbol != "" && p.symbol == conv.toKucoin(s.coinSymbol);
      var live := s.status in [ACTIVE, OPEN] || (s.closedAt.Some? && s.status !in [CLOSED, CANCELLED, FAILED]);
      && (s.coinSymbol == "" ==> after == s)
      && (s.coinSymbol != "" && !listed && !live ==> after == s)
      && (s.coinSymbol != "" && !listed && live && s.neverExecuted ==>
            after == s.(status := FAILED, isActive := false, updatedAt := Some(now)))
      && (s.coinSymbol != "" && !listed && live && !s.neverExecuted ==>
            after == s.(status := CLOSED, isActive := false, closedAt := Some(now), updatedAt := Some(now)))
      && (s.coinSymbol != "" && listed
          && (!IsHeld(conv, s, positions) || s.status in [ACTIVE, OPEN] || s.closedAt.Some?) ==>
            after == s.(updatedAt := Some(now)))
  {
    RewriteRow(rows, snapshot, Synced(conv, positions, now), s);
  }

  /** The ensure pass closes exactly the rows with a close time and no terminal status, where the updater succeeds. */
  lemma EnsurePassByCase(rows: Rows, snapshot: seq<Row>, updaterOk: int -> bool, s: Row)
    requires Distinct(snapshot) && s in snapshot && s.id in rows
    ensures s.id in Rewrite(rows, snapshot, Ensured(updaterOk))
    ensures Rewrite(rows, snapshot, Ensured(updaterOk))[s.id] ==
            if s.closedAt.Some? && s.status !in [CLOSED, CANCELLED, FAILED] && updaterOk(s.id)
            then rows[s.id].(status := CLOSED, isActive := false) else rows[s.id]
  {
    RewriteRow(rows, snapshot, Ensured(updaterOk), s);
  }

  /** What becomes of a row, by the columns it has. */
  ghost predicate IsByCase(active: set<string>, held: bool, s: Row, after: Row, now: int) {
    var open := s.status in [ACTIVE, OPEN, PENDING];
    var closed := s.(status := CLOSED, isActive := false, closedAt := Some(now), updatedAt := Some(now));
    && (s.closedAt.Some? && s.status in [CLOSED, CANCELLED, FAILED] ==> after.(updatedAt := s.updatedAt) == s)
    && (s.closedAt.Some? && s.status !in [CLOSED, CANCELLED, FAILED] && SymbolOf(s) != "" ==> after == closed)
    && (s.closedAt.None? && open && SymbolOf(s) != "" && SymbolOf(s) !in active ==> after == closed)
    && (s.closedAt.None? && !open && !held ==> after.(updatedAt := s.updatedAt) == s)
    && (s.closedAt.None? && held && s.status !in [ACTIVE, OPEN] ==>
          after == s.(status := ACTIVE, isActive := true, updatedAt := Some(now)))
    && (s.closedAt.None? && held && s.status in [ACTIVE, OPEN] ==> after == s.(updatedAt := Some(now)))
  }

  lemma RowByCase(conv: Converter, positions: seq<Position>, s: Row, now: int)
    requires RoundTrips(conv, s)
    ensures
      var active, synced := ActiveSymbols(conv, positions), SyncedRow(conv, positions, s, s, now);
      IsByCase(active, IsHeld(conv, s, positions), s, CleanedRow(active, s, synced, now), now)
  {
    if IsHeld(conv, s, positions) {
      HeldIsActive(conv, positions, s);
    }
  }

  /** The row that the two passes make of one that was read just before: unchanged when closed for good, closed when
      closed in all but status or live without a position, active with one, and else left alone. */
  lemma RowsByCase(rows: Rows, conv: Converter, positions: seq<Position>, snapshot: seq<Row>, now: int, s: Row)
    requires Distinct(snapshot) && s in snapshot && s.id in rows && rows[s.id] == s && RoundTrips(conv, s)
    ensures s.id in SyncThenCleanup(rows, conv, positions, snapshot, now)
    ensures IsByCase(ActiveSymbols(conv, positions), IsHeld(conv, s, positions), s,
                     SyncThenCleanup(rows, conv, positions, snapshot, now)[s.id], now)
  {
    SyncThenCleanupRow(rows, conv, positions, snapshot, now, s);
    RowByCase(conv, positions, s, now);
  }

  /** A symbol is active exactly when some nonzero position has it, without a USDT suffix, as its bot symbol. */
  lemma ActiveSymbolsAre(conv: Converter, positions: seq<Position>, symbol: string)
    ensures symbol in ActiveSymbols(conv, positions) <==>
            symbol != "" && exists p :: p in positions && p.symbol != "" && p.size != 0.0 &&
                                        (conv.toBot(p.symbol) == symbol + "USDT"
                                         || (conv.toBot(p.symbol) == symbol && !EndsInUsdt(symbol)))
  {
    forall p: Position
      ensures BotSymbol(conv, p.symbol) == symbol <==>
              conv.toBot(p.symbol) == symbol + "USDT" || (conv.toBot(p.symbol) == symbol && !EndsInUsdt(symbol))
    {
      StrippedIs(conv.toBot(p.symbol), symbol);
    }
    if symbol in ActiveSymbols(conv, positions) {
      var p :| p in positions && Holds(conv, p, BotSymbol(conv, p.symbol)) && BotSymbol(conv, p.symbol) == symbol;
      assert p in positions;
    }
  }

  predicate EndsInUsdt(s: string) { |s| >= 4 && s[|s| - 4..] == "USDT" }

  lemma StrippedIs(s: string, symbol: string)
    ensures StripUsdt(s) == symbol <==> s == symbol + "USDT" || (s == symbol && !EndsInUsdt(symbol))
  {
    if EndsInUsdt(s) {
      assert s == s[..|s| - 4] + "USDT";
    }
    assert EndsInUsdt(symbol + "USDT") && (symbol + "USDT")[..|symbol|] == symbol;
  }

  /** Conversely, a row of a symbol with a position and without a close time ends ACTIVE, or stays OPEN, even if
      the snapshot has it as FAILED, CANCELLED or CLOSED. */
  lemma HeldTradesEndLive(rows: Rows, conv: Converter, positions: seq<Position>, snapshot: seq<Row>, now: int, s: Row)
    requires Distinct(snapshot) && s in snapshot && s.id in rows && rows[s.id].status == s.status
    requires RoundTrips(conv, s) && IsHeld(conv, s, positions) && s.closedAt.None?
    ensures s.id in SyncThenCleanup(rows, conv, positions, snapshot, now)
    ensures SyncThenCleanup(rows, conv, positions, snapshot, now)[s.id].status ==
            if s.status.OPEN? then OPEN else ACTIVE
  {
    SyncThenCleanupRow(rows, conv, positions, snapshot, now, s);
    HeldIsActive(conv, positions, s);
  }

  /** A row that is CLOSED, CANCELLED or FAILED stays so exactly when it has a close time or its symbol has no
      position, and then nothing but its updated_at changes. */
  lemma TerminalStaysTerminalIff(rows: Rows, conv: Converter, positions: seq<Position>, snapshot: seq<Row>, now: int,
                                 s: Row)
    requires Distinct(snapshot) && s in snapshot && s.id in rows && rows[s.id] == s
    requires RoundTrips(conv, s) && Terminal(s.status)
    ensures s.id in SyncThenCleanup(rows, conv, positions, snapshot, now)
    ensures
      var after := SyncThenCleanup(rows, conv, positions, snapshot, now)[s.id];
      && (Terminal(after.status) <==> s.closedAt.Some? || !IsHeld(conv, s, positions))
      && (Terminal(after.status) ==> after.(updatedAt := s.updatedAt) == s)
  {
    SyncThenCleanupRow(rows, conv, positions, snapshot, now, s);
    if IsHeld(conv, s, positions) {
      HeldIsActive(conv, positions, s);
    }
  }

  /** A row that position sync marks FAILED because it never executed ends FAILED exactly when it has no close
      time and its symbol counts as active all the same; the cleanup that shares the snapshot turns any other
      such row CLOSED. */
  lemma FailedVerdictIsOverwritten(rows: Rows, conv: Converter, positions: seq<Position>, snapshot: seq<Row>, now: int,
                                   s: Row)
    requires Distinct(snapshot) && s in snapshot && s.id in rows
    requires s.coinSymbol != "" && !IsListed(conv, s, positions) && ShouldClose(s) && s.neverExecuted
    ensures s.id in Rewrite(rows, snapshot, Synced(conv, positions, now))
    ensures s.id in SyncThenCleanup(rows, conv, positions, snapshot, now)
    ensures Rewrite(rows, snapshot, Synced(conv, positions, now))[s.id].status == FAILED
    ensures SyncThenCleanup(rows, conv, positions, snapshot, now)[s.id].status ==
            if s.closedAt.None? && s.coinSymbol in ActiveSymbols(conv, positions) then FAILED else CLOSED
  {
    SyncThenCleanupRow(rows, conv, positions, snapshot, now, s);
  }

  /** Where the converter inverts itself, an unlisted symbol never counts as active: every such row ends CLOSED. */
  lemma UnlistedIsNotActive(conv: Converter, positions: seq<Position>, s: Row)
    requires s.coinSymbol != "" && !IsListed(conv, s, positions)
    requires forall p :: p in positions ==> conv.toKucoin(BotSymbol(conv, p.symbol)) == p.symbol
    ensures s.coinSymbol !in ActiveSymbols(conv, positions)
  {
    forall p | p in positions && p.symbol != ""
      ensures BotSymbol(conv, p.symbol) != s.coinSymbol
    {
      assert p.symbol != conv.toKucoin(s.coinSymbol);
    }
  }

  // ---- Passes that each read the table again ----

  // ids are the rows a pass selects.
  datatype Pass =
    | PositionPass(ids: seq<int>, positions: seq<Position>, now: int)
    | CleanupPass(ids: seq<int>, positions: seq<Position>, now: int)
    | EnsurePass(ids: seq<int>, updaterOk: int -> bool)

  function Read(rows: Rows, ids: seq<int>): seq<Row> {
    if ids == [] then []
    else
      var before := Read(rows, ids[..|ids| - 1]);
      if ids[|ids| - 1] in rows then before + [rows[ids[|ids| - 1]]] else before
  }

  function PassPatch(conv: Converter, pass: Pass): Patch {
    match pass
    case PositionPass(_, positions, now) => Synced(conv, positions, now)
    case CleanupPass(_, positions, now) => Cleaned(ActiveSymbols(conv, positions), now)
    case EnsurePass(_, updaterOk) => Ensured(updaterOk)
  }

  function RunPass(rows: Rows, conv: Converter, pass: Pass): Rows {
    Rewrite(rows, Read(rows, pass.ids), PassPatch(conv, pass))
  }

  function RunPasses(rows: Rows, conv: Converter, passes: seq<Pass>): Rows {
    if passes == [] then rows else RunPasses(RunPass(rows, conv, passes[0]), conv, passes[1..])
  }

  /** Every row is keyed by its id. */
  ghost predicate Keyed(rows: Rows) { forall id :: id in rows ==> rows[id].id == id }

  lemma {:induction false} ReadIsCurrent(rows: Rows, ids: seq<int>, id: int)
    requires Keyed(rows)
    ensures Lookup(Read(rows, ids), id).Some? ==> id in rows && Lookup(Read(rows, ids), id).value == rows[id]
  {
    if ids != [] {
      var init, last := ids[..|ids| - 1], ids[|ids| - 1];
      ReadIsCurrent(rows, init, id);
      if last in rows {
        assert (Read(rows, init) + [rows[last]])[..|Read(rows, init)|] == Read(rows, init);
      }
    }
  }

  lemma {:induction false} ReadFinds(rows: Rows, ids: seq<int>, id: int)
    requires Keyed(rows)
    ensures Lookup(Read(rows, ids), id).Some? <==> id in ids && id in rows
  {
    if ids != [] {
      var init, last := ids[..|ids| - 1], ids[|ids| - 1];
      ReadFinds(rows, init, id);
      assert ids == init + [last];
      if last in rows {
        assert (Read(rows, init) + [rows[last]])[..|Read(rows, init)|] == Read(rows, init);
      }
    }
  }

  // ---- The two passes settle ----

  /** What position sync and cleanup make of a row that they have just read. */
  function SettledRow(conv: Converter, positions: seq<Position>, r: Row, now: int): Row {
    CleanedRow(ActiveSymbols(conv, positions), r, SyncedRow(conv, positions, r, r, now), now)
  }

  /** A row that is closed for good, and one that neither pass wants to write, is left alone but for updated_at. */
  lemma SettledRowStays(conv: Converter, positions: seq<Position>, r: Row, now: int)
    requires Settled(r) || (r.closedAt.None? && !CleanupCloses(ActiveSymbols(conv, positions), r))
    requires r.closedAt.None? && IsHeld(conv, r, positions) ==> r.status.ACTIVE? || r.status.OPEN?
    requires r.closedAt.None? && r.coinSymbol != "" && !IsListed(conv, r, positions) ==>
               !r.status.ACTIVE? && !r.status.OPEN?
    ensures SettledRow(conv, positions, r, now).(updatedAt := r.updatedAt) == r
  {
  }

  lemma SettledOnce(conv: Converter, positions: seq<Position>, r: Row, now: int)
    requires RoundTrips(conv, r) && (r.closedAt.Some? && !Terminal(r.status) ==> SymbolOf(r) != "")
    ensures
      var once := SettledRow(conv, positions, r, now);
      && once.id == r.id && once.coinSymbol == r.coinSymbol && SymbolOf(once) == SymbolOf(r)
      && (Settled(once) || (once.closedAt.None? && !CleanupCloses(ActiveSymbols(conv, positions), once)))
      && (once.closedAt.None? && IsHeld(conv, r, positions) ==> once.status.ACTIVE? || once.status.OPEN?)
      && (once.closedAt.None? && r.coinSymbol != "" && !IsListed(conv, r, positions) ==>
            !once.status.ACTIVE? && !once.status.OPEN?)
  {
    if IsHeld(conv, r, positions) {
      HeldIsActive(conv, positions, r);
    }
  }

  lemma SettlingTwice(conv: Converter, positions: seq<Position>, r: Row, now: int, later: int)
    requires RoundTrips(conv, r)
    ensures
      var once := SettledRow(conv, positions, r, now);
      SettledRow(conv, positions, once, later).(updatedAt := once.updatedAt) == once
  {
    if r.closedAt.Some? && !Terminal(r.status) && SymbolOf(r) == "" {
      assert SettledRow(conv, positions, r, now) == r;
    } else {
      SettledOnce(conv, positions, r, now);
      SettledRowStays(conv, positions, SettledRow(conv, positions, r, now), later);
    }
  }

  /** Position sync and cleanup over the given rows, read just before. */
  function ReadAndSettle(rows: Rows, conv: Converter, positions: seq<Position>, ids: seq<int>, now: int): Rows {
    SyncThenCleanup(rows, conv, positions, Read(rows, ids), now)
  }

  lemma SettledRowByRow(rows: Rows, conv: Converter, positions: seq<Position>, ids: seq<int>, now: int, id: int)
    requires Keyed(rows) && id in rows
    ensures id in ReadAndSettle(rows, conv, positions, ids, now)
    ensures ReadAndSettle(rows, conv, positions, ids, now)[id] ==
            if id in ids then SettledRow(conv, positions, rows[id], now) else rows[id]
  {
    ReadFinds(rows, ids, id);
    ReadIsCurrent(rows, ids, id);
  }

  /** After one run of position sync and cleanup a second one over the rows as they are now, with the same
      positions, changes nothing but updated_at. */
  lemma SecondRunSettles(rows: Rows, conv: Converter, positions: seq<Position>, ids: seq<int>, now: int, later: int,
                         id: int)
    requires Keyed(rows) && id in rows && RoundTrips(conv, rows[id])
    ensures
      var once := ReadAndSettle(rows, conv, positions, ids, now);
      var twice := ReadAndSettle(once, conv, positions, ids, later);
      id in once && id in twice && twice[id].(updatedAt := once[id].updatedAt) == once[id]
  {
    var once := ReadAndSettle(rows, conv, positions, ids, now);
    forall k | k in once
      ensures once[k].id == k
    {
      SettledRowByRow(rows, conv, positions, ids, now, k);
      SettledRowKeepsId(conv, positions, rows[k], now);
    }
    SettledRowByRow(rows, conv, positions, ids, now, id);
    SettledRowByRow(once, conv, positions, ids, later, id);
    SettlingTwice(conv, positions, rows[id], now, later);
  }

  lemma SettledRowKeepsId(conv: Converter, positions: seq<Position>, r: Row, now: int)
    ensures SettledRow(conv, positions, r, now).id == r.id
  {
  }

  // ---- Rows closed for good ----

  /** Closed for good: a close time and a terminal status. */
  predicate Settled(r: Row) { r.closedAt.Some? && Terminal(r.status) }

  lemma PassKeepsSettled(rows: Rows, conv: Converter, pass: Pass, id: int)
    requires Keyed(rows) && id in rows
    ensures
      var after := RunPass(rows, conv, pass);
      && id in after && after[id].id == id
      && (Settled(rows[id]) ==> after[id].(updatedAt := rows[id].updatedAt) == rows[id])
  {
    ReadIsCurrent(rows, pass.ids, id);
    if Lookup(Read(rows, pass.ids), id).Some? {
      PatchKeepsSettled(conv, pass, rows[id]);
    }
  }

  lemma PatchKeepsSettled(conv: Converter, pass: Pass, r: Row)
    ensures
      var after := PassPatch(conv, pass)(r, r);
      after.id == r.id && (Settled(r) ==> after.(updatedAt := r.updatedAt) == r)
  {
    match pass
    case PositionPass(_, positions, now) => assert PassPatch(conv, pass)(r, r) == SyncedRow(conv, positions, r, r, now);
    case CleanupPass(_, positions, now) =>
      assert PassPatch(conv, pass)(r, r) == CleanedRow(ActiveSymbols(conv, positions), r, r, now);
    case EnsurePass(_, updaterOk) => assert PassPatch(conv, pass)(r, r) == EnsuredRow(updaterOk, r, r);
  }

  /** Over any sequence of passes, whatever they select and whatever the exchange shows, a settled row keeps
      its status, its closed_at and every other column but updated_at. */
  lemma {:induction false} ClosedStaysClosed(rows: Rows, conv: Converter, passes: seq<Pass>, id: int)
    requires Keyed(rows) && id in rows && Settled(rows[id])
    ensures
      var after := RunPasses(rows, conv, passes);
      id in after && after[id].(updatedAt := rows[id].updatedAt) == rows[id]
  {
    if passes != [] {
      var next := RunPass(rows, conv, passes[0]);
      forall k | k in next
        ensures next[k].id == k
      {
        PassKeepsSettled(rows, conv, passes[0], k);
      }
      PassKeepsSettled(rows, conv, passes[0], id);
      ClosedStaysClosed(next, conv, passes[1..], id);
    }
  }

  // ---- The whole status sync: orders, positions, cleanup, ensure, all from one snapshot ----

  function FullSync(rows: Rows, conv: Converter, orders: seq<Order>, positions: seq<Position>, snapshot: seq<Row>,
                    updaterOk: int -> bool, now: int): Rows
  {
    Rewrite(SyncThenCleanup(OrdersApplied(rows, conv, snapshot, orders, now), conv, positions, snapshot, now),
            snapshot, Ensured(updaterOk))
  }

  method SyncStatuses(table: Table, conv: Converter, orders: seq<Order>, positions: seq<Position>, snapshot: seq<Row>,
                      updaterOk: int -> bool, now: int)
    requires Distinct(snapshot)
    modifies table
    ensures table.rows == FullSync(old(table.rows), conv, orders, positions, snapshot, updaterOk, now)
  {
    SyncOrders(table, conv, orders, snapshot, now);
    SyncPositions(table, conv, positions, snapshot, now);
    CleanupPositions(table, conv, positions, snapshot, now);
    EnsureClosedStayClosed(table, snapshot, updaterOk);
  }

  lemma FullSyncRow(rows: Rows, conv: Converter, orders: seq<Order>, positions: seq<Position>, snapshot: seq<Row>,
                    updaterOk: int -> bool, now: int, s: Row)
    requires Distinct(snapshot) && s in snapshot && s.id in rows
    ensures s.id in OrdersApplied(rows, conv, snapshot, orders, now)
    ensures s.id in FullSync(rows, conv, orders, positions, snapshot, updaterOk, now)
    ensures
      var ordered := OrdersApplied(rows, conv, snapshot, orders, now)[s.id];
      FullSync(rows, conv, orders, positions, snapshot, updaterOk, now)[s.id] ==
        EnsuredRow(updaterOk, s,
                   CleanedRow(ActiveSymbols(conv, positions), s, SyncedRow(conv, positions, s, ordered, now), now))
  {
    var ordered := OrdersApplied(rows, conv, snapshot, orders, now);
    OrdersDecideStatus(rows, conv, snapshot, orders, now, s.id);
    SyncThenCleanupRow(ordered, conv, positions, snapshot, now, s);
    RewriteRow(SyncThenCleanup(ordered, conv, positions, snapshot, now), snapshot, Ensured(updaterOk), s);
  }

  /** What the final verification reports. */
  predicate Inconsistent(active: set<string>, r: Row) {
    || (r.status.ACTIVE? && SymbolOf(r) != "" && SymbolOf(r) !in active)
    || (r.closedAt.Some? && !Terminal(r.status))
  }

  /** Cleanup, the ensure pass or the second half of position sync writes the row. */
  predicate IsClosedBySync(conv: Converter, positions: seq<Position>, updaterOk: int -> bool, s: Row) {
    || CleanupCloses(ActiveSymbols(conv, positions), s)
    || (Reopened(s) && updaterOk(s.id))
    || (s.coinSymbol != "" && !IsListed(conv, s, positions) && ShouldClose(s))
  }

  /** With an up-to-date snapshot and any orders, the verification reports a row exactly when no pass after the
      orders writes its status and the status that the orders left is inconsistent: ACTIVE although the symbol
      derived anew has no position, or not terminal although the row has a close time. */
  lemma VerificationFinds(rows: Rows, conv: Converter, orders: seq<Order>, positions: seq<Position>,
                          snapshot: seq<Row>, updaterOk: int -> bool, now: int, s: Row)
    requires Distinct(snapshot) && s in snapshot && s.id in rows && rows[s.id] == s && RoundTrips(conv, s)
    ensures s.id in FullSync(rows, conv, orders, positions, snapshot, updaterOk, now)
    ensures
      var active, last := ActiveSymbols(conv, positions), LastOrder(conv, snapshot, orders, s.id);
      var status := if last.Some? then last.value.mapped else s.status;
      var symbol := if last.Some? && s.coinSymbol == "" && s.signalSymbol == "" then StripUsdt(last.value.symbol)
                    else SymbolOf(s);
      Inconsistent(active, FullSync(rows, conv, orders, positions, snapshot, updaterOk, now)[s.id]) <==>
        && !IsClosedBySync(conv, positions, updaterOk, s)
        && ((status.ACTIVE? && symbol != "" && symbol !in active) || (s.closedAt.Some? && !Terminal(status)))
  {
    FullSyncRow(rows, conv, orders, positions, snapshot, updaterOk, now, s);
    OrdersDecideStatus(rows, conv, snapshot, orders, now, s.id);
    if IsHeld(conv, s, positions) {
      HeldIsActive(conv, positions, s);
    }
  }

  /** When no order matches a row and its status can be repaired, the verification does not report it. */
  lemma VerificationFindsNothing(rows: Rows, conv: Converter, orders: seq<Order>, positions: seq<Position>,
                                 snapshot: seq<Row>, updaterOk: int -> bool, now: int, s: Row)
    requires Distinct(snapshot) && s in snapshot && s.id in rows && rows[s.id] == s && RoundTrips(conv, s)
    requires LastOrder(conv, snapshot, orders, s.id).None?
    ensures s.id in FullSync(rows, conv, orders, positions, snapshot, updaterOk, now)
    ensures
      Inconsistent(ActiveSymbols(conv, positions),
                   FullSync(rows, conv, orders, positions, snapshot, updaterOk, now)[s.id]) <==>
        Reopened(s) && !updaterOk(s.id) && SymbolOf(s) == ""
  {
    VerificationFinds(rows, conv, orders, positions, snapshot, updaterOk, now, s);
  }

  /** The next cleanup, which reads the rows anew, closes a trade with a position that the orders have left open
      and without a close time exactly when its symbol is only known from the response and the order's symbol is
      given but not one that positions are listed under. */
  lemma OrdersCanHideSymbol(rows: Rows, conv: Converter, orders: seq<Order>, positions: seq<Position>,
                            snapshot: seq<Row>, now: int, id: int)
    requires id in rows && rows[id].closedAt.None? && SymbolOf(rows[id]) in ActiveSymbols(conv, positions)
    requires
      var last := LastOrder(conv, snapshot, orders, id);
      last.Some? && Open(last.value.mapped)
    ensures id in OrdersApplied(rows, conv, snapshot, orders, now)
    ensures
      var active := ActiveSymbols(conv, positions);
      var symbol := StripUsdt(LastOrder(conv, snapshot, orders, id).value.symbol);
      CleanupCloses(active, OrdersApplied(rows, conv, snapshot, orders, now)[id]) <==>
        rows[id].coinSymbol == "" && rows[id].signalSymbol == "" && symbol != "" && symbol !in active
  {
    OrdersDecideStatus(rows, conv, snapshot, orders, now, id);
  }

  function BitcoinConverter(): Converter {
    Converter((s: string) => if s == "BTC" then "XBTUSDTM" else s + "USDTM",
              (s: string) => if s == "XBTUSDTM" then "BTCUSDT" else s)
  }

  /** For one: a trade known as BTC from its response alone, with its position, closed after its own order. */
  lemma BitcoinTradeIsHidden(now: int)
    ensures
      var conv, positions := BitcoinConverter(), [Position("XBTUSDTM", 1.0)];
      var s := Row(1, "", "", "BTC", OPEN, true, None, None, None, false, "7");
      var after := OrdersApplied(map[1 := s], conv, [s], [Order("7", "XBTUSDTM", 0, ACTIVE)], now);
      && !CleanupCloses(ActiveSymbols(conv, positions), s)
      && 1 in after && CleanupCloses(ActiveSymbols(conv, positions), after[1])
  {
    var conv, positions := BitcoinConverter(), [Position("XBTUSDTM", 1.0)];
    var s := Row(1, "", "", "BTC", OPEN, true, None, None, None, false, "7");
    var order := Order("7", "XBTUSDTM", 0, ACTIVE);
    assert BotSymbol(conv, "XBTUSDTM") == "BTC";
    assert ActiveSymbols(conv, positions) == {"BTC"} by {
      assert Holds(conv, positions[0], "BTC");
    }
    assert StripUsdt("XBTUSDTM") == "XBTUSDTM";
    LoneOrderMatches(conv, s, order);
    OrdersCanHideSymbol(map[1 := s], conv, [order], positions, [s], now, 1);
  }

  lemma LoneOrderMatches(conv: Converter, s: Row, order: Order)
    requires order.orderId != "" && s.orderId == order.orderId
    ensures LastOrder(conv, [s], [order], s.id) == Some(order)
  {
    assert LastByOrderId([s], order.orderId) == Some(s);
  }

  /** A trade that was settled when the snapshot was read keeps through the whole sync the status that the
      order pass left it: it stays as it was exactly when no order, or one of the same status, matched last. */
  lemma OrdersCanReopen(rows: Rows, conv: Converter, orders: seq<Order>, positions: seq<Position>, snapshot: seq<Row>,
                        updaterOk: int -> bool, now: int, s: Row)
    requires Distinct(snapshot) && s in snapshot && s.id in rows && rows[s.id] == s && Settled(s)
    ensures s.id in FullSync(rows, conv, orders, positions, snapshot, updaterOk, now)
    ensures
      var after := FullSync(rows, conv, orders, positions, snapshot, updaterOk, now)[s.id];
      var last := LastOrder(conv, snapshot, orders, s.id);
      && after.status == (if last.Some? then last.value.mapped else s.status)
      && after.closedAt == s.closedAt
  {
    FullSyncRow(rows, conv, orders, positions, snapshot, updaterOk, now, s);
    OrdersDecideStatus(rows, conv, snapshot, orders, now, s.id);
  }

  /** For one: a closed trade whose order the status manager maps to ACTIVE, without any position. */
  lemma ClosedTradeIsReopened(conv: Converter, now: int)
    ensures
      var s := Row(1, "BTC", "", "", CLOSED, false, Some(1), Some(2), None, false, "7");
      var after := FullSync(map[1 := s], conv, [Order("7", "XBTUSDTM", 0, ACTIVE)], [], [s], (id: int) => true, now);
      1 in after && after[1].status == ACTIVE && after[1].closedAt == Some(2)
  {
    var s := Row(1, "BTC", "", "", CLOSED, false, Some(1), Some(2), None, false, "7");
    var order := Order("7", "XBTUSDTM", 0, ACTIVE);
    LoneOrderMatches(conv, s, order);
    OrdersCanReopen(map[1 := s], conv, [order], [], [s], (id: int) => true, now, s);
  }
}
