# A verified model of the trading bot's reconciliation, sync and text handling

The bot turns Discord signals into trades on KuCoin and Binance and keeps one row per trade in a database.
This project models the parts whose correctness spans many steps, and proves what they guarantee over all
inputs, all runs and all sequences of passes. `dafny verify dfyconfig.toml` checks everything.

| module | what it models |
|---|---|
| `PositionHistory`, `FillPnl`, `PnlMeaning`, `Matching`, `Reconcile`, `ReconcileRuns` | the KuCoin PnL reconciler: paging, choice of the matching record, PnL from raw fills, the two sets of used ids, whole runs |
| `Trades`, `Timestamps`, `LifecycleSync`, `OrderSync`, `LifecycleRuns` | the passes that bring trade rows in line with the exchange, and sequences of such passes |
| `Scheduler` | fourteen tasks on timers, one audit trailing another |
| `IncomeWindow`, `ExitInfo`, `TransactionImport` | chunked income fetch, derived entry and exit prices, batched import |
| `EnvCleanup` | commenting out duplicate assignments in a `.env` file |
| `EntryPrices`, `SanitizeContent`, `QuantityPrefix`, `KucoinPrecision` | repair of concatenated prices, text sanitizing, quantity prefixes, rounding to increments |
| `Common`, `Fields`, `Rounding`, `Decimal`, `Text`, `Words` | shared notions: filters and sums, field values, rounding, decimal notation, white space |

Loops are methods with loops, proved equal to a specification function; objects that change state (the used-id
sets, the trades table, the transaction table, the file's lines) are classes or arrays. The main theorems are
about the specification functions. Prices and amounts are exact reals, times are integers in milliseconds
(seconds, as reals, in `Scheduler`). The exchange and the converters between symbol formats are given functions;
database reads and writes act on a map or a sequence.

## Where the code does less than it seems to

Each of these is stated exactly by the lemma named.

- A fill that has only an order id is looked up by it but never marked by it: a fill can count as an exit for two
  trades exactly when it carries neither a trade id nor an id (`ReconcileRuns.CountsTwiceIff`; the ids themselves
  are never used twice).
- The line that reports a match formats both time differences, so a chosen record without an open or close time
  raises instead of settling the trade (`ReconcileRuns.EmittedRecordIsTimed`).
- Without `closed_at` the matching time is `updated_at`, which the update itself moves: a trade settles against
  every exchange exactly when it is never updated, has a `closed_at`, or the write leaves `updated_at` as it was
  (`ReconcileRuns.SettlesIff`).
- Cleanup judges rows by the snapshot that position sync used: a row just marked FAILED becomes CLOSED unless its
  symbol counts as active (`LifecycleRuns.FailedVerdictIsOverwritten`), and a row opened since stays open
  (`LifecycleRuns.OnlyLiveTradesStayOpen`).
- A row with status FAILED, CANCELLED or CLOSED keeps it exactly when it has a `closed_at` or its symbol has no
  position; otherwise it becomes ACTIVE again (`LifecycleRuns.TerminalStaysTerminalIff`,
  `LifecycleRuns.HeldTradesEndLive`).
- Order sync has no `closed_at` guard and can reopen a closed trade (`LifecycleRuns.OrdersCanReopen`, for one
  `LifecycleRuns.ClosedTradeIsReopened`).
- Order sync overwrites the exchange response, from which the symbol of a trade without any other is derived. With
  KuCoin's own notation in it, the next cleanup closes the trade although its position is live
  (`LifecycleRuns.OrdersCanHideSymbol`, for one `LifecycleRuns.BitcoinTradeIsHidden`).
- The final verification of the status sync can still report rows, because of what orders left
  (`LifecycleRuns.VerificationFinds`).
- `set_closed_at` overwrites an earlier `closed_at`, although its wrapper is documented as safe to call repeatedly
  (`Timestamps.SecondCall`).
- Income at an inner boundary of two seven-day chunks counts twice (`IncomeWindow.NetPnlIsPlainSum`, for one
  `IncomeWindow.BoundaryIncomeCountsTwice`).
- A key that occurs twice in one batch is inserted twice (`TransactionImport.ImportIsExact`, for one
  `TransactionImport.RepeatedTransactionIsInsertedTwice`).
- The least split position wins: 9340093800 becomes 9340 and 93800, not 93400 and 93800 as documented
  (`EntryPrices.BtcPairIsRestored`), and other coins are always split one digit before the middle
  (`EntryPrices.OtherCoinSplit`), so that a long price can be split again by a second pass
  (`EntryPrices.FixIsIdempotentIff`).
- Increments below 0.0001 print in exponent form and lose their decimal places
  (`KucoinPrecision.FormatKeepsMultiplesIff`).
- The statement meant to replace typographic apostrophes parses as one triple-quoted text, so what it replaces is
  the text `, "'").replace(`. Apostrophes of either kind are dropped later on; a text is treated as if it held none
  exactly when it does not contain that text (`SanitizeContent.ApostrophesAreDropped`). The statement before it
  replaces a quote by itself.
- If two loop iterations of the scheduler can start more than 1500 s apart, the take-profit audit may never come
  (`Scheduler.StarvedBeyond1500`).

## Model

| member | source | states |
|---|---|---|
| PositionHistory.FetchAllPositionHistory | scripts/maintenance/kucoin_pnl_reconcile_7d.py:103-206 | The page loop ends within 100 pages and returns what the recursive specification collects: short, empty and failed pages end it, page 1 falls back to an unfiltered call |
| PositionHistory.PagingIsComplete | scripts/maintenance/kucoin_pnl_reconcile_7d.py:105-196 | Against any server that pages faithfully, the result is the symbol's list in order, cut at 5000; complete if and only if it has at most 5000 records |
| PositionHistory.FailedPagingIsPrefix | scripts/maintenance/kucoin_pnl_reconcile_7d.py:198-206 | Whichever calls fail, what is returned is an initial part of the full list: no gap, no repeat |
| PositionHistory.NoMatchOnMixedPage | scripts/maintenance/kucoin_pnl_reconcile_7d.py:155-181 | The unfiltered fallback adds nothing when the server has no record of the symbol |
| PositionHistory.UnfilteredPageStandsIn | scripts/maintenance/kucoin_pnl_reconcile_7d.py:155-181 | When the filtered first page is empty, the symbol's records of the unfiltered one are taken, and page 2 is asked for only after fifty of them |
| Matching.BestIndex | scripts/maintenance/kucoin_pnl_reconcile_7d.py:615-643 | The choice among candidates is the first of those with the lexicographically least (close distance, open distance, size penalty) |
| Matching.StrictIsRelaxed | scripts/maintenance/kucoin_pnl_reconcile_7d.py:528-599 | Every strict candidate would also be a fallback candidate |
| Matching.MatchIsOptimal | scripts/maintenance/kucoin_pnl_reconcile_7d.py:528-643 | The match is unused, within the relaxed windows, strict if any strict candidate exists, and no candidate of its kind scores less; none is found if and only if no record qualifies |
| Matching.MatchIsClosest | scripts/maintenance/kucoin_pnl_reconcile_7d.py:528-643 | In the records' own fields: one is found if and only if one is unused and within 20 and 60 minutes; it fits the 10- and 30-minute windows, the size and the direction if any does; none that fits as well is closed closer, or as close and opened closer, or as close in both and of matching size where it is not |
| Matching.RecordPnlMeans | scripts/maintenance/kucoin_pnl_reconcile_7d.py:672-712 | A record stands for the first of its four PnL fields that reads as a number, when not zero, else for minus the sum of all its readable fees |
| FillPnl.FillOrderIsIrrelevant | scripts/maintenance/kucoin_pnl_reconcile_7d.py:265-431 | Permuting the fills changes neither the update, nor the compared PnL, nor the ids used up |
| FillPnl.MirrorNegatesGross | scripts/maintenance/kucoin_pnl_reconcile_7d.py:254-358 | Swapping LONG/SHORT and BUY/SELL keeps the fees and negates the gross PnL if and only if the reported PnL sums to zero; otherwise gross stays |
| FillPnl.NothingReported | scripts/maintenance/kucoin_pnl_reconcile_7d.py:335-343 | Exit fills without a PnL field report a sum of zero, the case in which mirroring negates |
| FillPnl.RoundedValueSettles | scripts/maintenance/kucoin_pnl_reconcile_7d.py:384-420 | A value rounded to eight places never mismatches the value it came from |
| FillPnl.MismatchMeans | scripts/maintenance/kucoin_pnl_reconcile_7d.py:384-403 | A stored PnL is replaced if and only if it is off by more than 0.01 and is zero or off by more than both 0.10 and 5 percent of the computed one, a computed zero included |
| FillPnl.EntryPriceWithin | scripts/maintenance/kucoin_pnl_reconcile_7d.py:361-428 | The entry price of a fills-based update lies within any bounds of the entry fills' prices |
| FillPnl.ExitPriceWithin | scripts/maintenance/kucoin_pnl_reconcile_7d.py:361-429 | Its exit price lies within any positive bounds of the exit fills' prices, or is the stored one |
| FillPnl.ConsumedIsFresh | scripts/maintenance/kucoin_pnl_reconcile_7d.py:272-275 | Exit fills taken for a trade carry no trade id or fill id that was used before |
| PnlMeaning.PnlIsGainLessFees | scripts/maintenance/kucoin_pnl_reconcile_7d.py:350-358 | With values on both sides and nothing reported: exit value less entry value less fees for LONG, the reverse for SHORT; otherwise the reported sum less fees |
| PnlMeaning.PnlIsCashFlow | scripts/maintenance/kucoin_pnl_reconcile_7d.py:265-358 | For plain buys and sells, both present, the PnL is the sum of what each fill moved (sells bring, buys cost, fees go), whichever direction the trade has |
| PnlMeaning.PricesAreAverages | scripts/maintenance/kucoin_pnl_reconcile_7d.py:360-371 | A price of the update times the total quantity is the total value; without exit quantity a nonzero stored exit price is kept |
| PnlMeaning.WrittenPnlIsRounded | scripts/maintenance/kucoin_pnl_reconcile_7d.py:418-421 | A fills-based update writes the computed PnL up to half a unit of the eighth place |
| PnlMeaning.PnlIsQuantityTimesMove | scripts/maintenance/kucoin_pnl_reconcile_7d.py:350-371 | For equal quantity in and out, PnL plus fees is that quantity times exit price less entry price for LONG, negated for SHORT |
| PnlMeaning.FieldsAreTriedInOrder | scripts/maintenance/kucoin_pnl_reconcile_7d.py:316-385 | Which of several fields of a fill or trade is read: the first that is neither missing, empty nor zero, else the last |
| PnlMeaning.WhatFillsAdd | scripts/maintenance/kucoin_pnl_reconcile_7d.py:313-348 | What one entry or exit fill adds to each total, readable or not |
| PnlMeaning.RolesAre | scripts/maintenance/kucoin_pnl_reconcile_7d.py:281-298 | Which fills are entries and which exits, by own order, side and reduce-only flag |
| PnlMeaning.FillsCountUnlessUsed | scripts/maintenance/kucoin_pnl_reconcile_7d.py:272-333 | A fill counts unless the first nonempty of its trade id, id and order id was used; used up are the first nonempty of trade id and id of each exit |
| Reconcile.CandidatePool | scripts/maintenance/kucoin_pnl_reconcile_7d.py:528-599 | The two candidate loops yield the strict records or, failing those, the relaxed ones, in order |
| Reconcile.SplitFills | scripts/maintenance/kucoin_pnl_reconcile_7d.py:265-298 | The loop sorts the unused fills into entries and exits by order id, side and reduce-only flag |
| Reconcile.AddUp | scripts/maintenance/kucoin_pnl_reconcile_7d.py:304-348 | The seven running totals are sums over the fills, unreadable fills being skipped from the unreadable field on |
| Reconcile.Reconciler.UseUp | scripts/maintenance/kucoin_pnl_reconcile_7d.py:327-333 | The used set grows by exactly the trade ids, or else ids, of the exit fills |
| Reconcile.Reconciler.CalculatePnlFromFills | scripts/maintenance/kucoin_pnl_reconcile_7d.py:209-435 | Update and used set are those of the order-free specification; ids are used up even when no update results |
| Reconcile.Reconciler.ReconcileTrade | scripts/maintenance/kucoin_pnl_reconcile_7d.py:438-775 | Update, exception and both used sets are those of one specified step: history first, fills when nothing matches |
| Reconcile.Reconciler.ReconcileAndWrite | scripts/maintenance/kucoin_pnl_reconcile_7d.py:856-866 | One turn of the loop writes the update to the trade's own row and nothing else |
| Reconcile.Reconciler.Run | scripts/maintenance/kucoin_pnl_reconcile_7d.py:852-868 | The whole run is the fold of steps over the trades, with the table and the number of corrections |
| ReconcileRuns.StepUsesFreshIds | scripts/maintenance/kucoin_pnl_reconcile_7d.py:528-533 | A step adds to the used sets exactly the close id of its update and the ids of its exit fills, none of which was used |
| ReconcileRuns.NoDoubleUse | scripts/maintenance/kucoin_pnl_reconcile_7d.py:852-866 | In any run two updates never rest on the same close id, and the exit-fill ids of different trades are disjoint; shared fills carry no id |
| ReconcileRuns.UnmarkedFillCountsTwice | scripts/maintenance/kucoin_pnl_reconcile_7d.py:272-382 | Any fill that can be an exit (buy, sell or reduce-only) and has neither trade id nor id counts for two distinct trades of some run |
| ReconcileRuns.CountsTwiceIff | scripts/maintenance/kucoin_pnl_reconcile_7d.py:272-382 | A fill can count as an exit for two distinct trades of a run if and only if it can be an exit and carries neither a trade id nor an id |
| ReconcileRuns.EmittedRecordIsTimed | scripts/maintenance/kucoin_pnl_reconcile_7d.py:648-670 | An update from history rests on an unused, fetched record that has both times within the relaxed windows; the call raises if and only if a time is missing or the stored PnL is unreadable |
| ReconcileRuns.EmittedValuesAreTheRecords | scripts/maintenance/kucoin_pnl_reconcile_7d.py:750-768 | It writes the record's PnL to within half a unit of the eighth place; the average entry price wins over the opening price and the closing price over the average exit price, the second being taken only when the first is missing, empty or zero |
| ReconcileRuns.ReconcilingSettles | scripts/maintenance/kucoin_pnl_reconcile_7d.py:714-775 | With `closed_at` set, the same call after applying the update finds nothing to do, by history and by fills |
| ReconcileRuns.OpenEndedTradeNeedNotSettle | scripts/maintenance/kucoin_pnl_reconcile_7d.py:449-449 | For every eligible trade without `closed_at` and every new update time there are two records for which the second call writes another PnL |
| ReconcileRuns.SettlesIff | scripts/maintenance/kucoin_pnl_reconcile_7d.py:445-775 | Any trade settles whatever the exchange shows and whatever ids are used if and only if it is never updated, has a `closed_at`, or its update time is not moved to another nonzero time |
| ReconcileRuns.OthersAreNeverUpdated | scripts/maintenance/kucoin_pnl_reconcile_7d.py:445-464 | A trade that is not eligible or whose stored PnL is unreadable never gets an update |
| ReconcileRuns.ComparedRowIsClose | scripts/maintenance/kucoin_pnl_reconcile_7d.py:714-755 | After any comparison, updated or not, the row's PnL no longer mismatches the computed one |
| ReconcileRuns.RunLeavesCloseValues | scripts/maintenance/kucoin_pnl_reconcile_7d.py:852-866 | After a whole run every compared trade stores a PnL within 0.10 or 5 percent of the computed one |
| ReconcileRuns.RunWritesUpdate | scripts/maintenance/kucoin_pnl_reconcile_7d.py:856-866 | After a run an updated trade's row holds the update's PnL in both columns and the prices it gives, and is otherwise as it was; any other row is unchanged |
| ReconcileRuns.StepAsksForWindow | scripts/maintenance/kucoin_pnl_reconcile_7d.py:454-480 | Exchanges that agree on the trade's KuCoin symbol from half an hour before creation to half an hour after close settle it alike |
| ReconcileRuns.FillsDecide | scripts/maintenance/kucoin_pnl_reconcile_7d.py:478-643 | Without a matching record, or with an empty one, outcome and used ids are those of the fills, and nothing happens when these cannot be had |
| Reconcile.EmitCountIs | scripts/maintenance/kucoin_pnl_reconcile_7d.py:852-868 | The number of corrections is the number of trades with an update |
| ReconcileRuns.OnlyClosedTradesAreUpdated | scripts/maintenance/kucoin_pnl_reconcile_7d.py:445-464 | A run changes no row that is not a closed KuCoin trade with times, symbol and a readable PnL |
| Timestamps.TimestampManager.SetCreatedAt | discord_bot/utils/timestamp_manager.py:70-116 | Sets `created_at` only when missing, to the order time or the clock; reports whether it did |
| Timestamps.TimestampManager.SetClosedAt | discord_bot/utils/timestamp_manager.py:118-172 | Sets `closed_at` and CLOSED on an existing row, overwriting an earlier time |
| Timestamps.TimestampManager.FixMissingTimestamps | discord_bot/utils/timestamp_manager.py:174-222 | Fills missing times from `updated_at` or the clock; an unaffected row is left alone |
| Timestamps.TimestampsOnlyGrow | discord_bot/utils/timestamp_manager.py:82-168 | Over any sequence of calls: `created_at` never changes, `closed_at` is never cleared, CLOSED is never left, "closed_at implies CLOSED" is kept, all else is untouched |
| Timestamps.FixIsLasting | discord_bot/utils/timestamp_manager.py:185-218 | After a fix and any further calls the row has its times; fixing twice is fixing once |
| Timestamps.SecondCall | discord_bot/utils/timestamp_manager.py:312-341 | A second `set_created_at` changes nothing; a second `set_closed_at` changes nothing if and only if it brings the same time |
| Timestamps.FirstCreationWins | discord_bot/utils/timestamp_manager.py:82-112 | A missing `created_at` becomes the given time, else the clock's, and stays so under any later calls |
| Timestamps.FixTakesUpdateTime | discord_bot/utils/timestamp_manager.py:185-218 | A fix takes exactly what is missing from `updated_at`, else from the clock, and a `closed_at` only for CLOSED rows |
| Timestamps.LastCloseWins | discord_bot/utils/timestamp_manager.py:130-168 | Whatever else is called for a row later, its `closed_at` is that of the last `set_closed_at` |
| LifecycleSync.CollectActiveSymbols | discord_bot/utils/trade_retry_utils.py:1956-1970 | The active symbols are exactly the converted symbols of nonzero positions |
| LifecycleSync.BuildIndex | discord_bot/utils/trade_retry_utils.py:799-807 | The index lists under each KuCoin symbol exactly its trades, in order, without repeating a symbol |
| LifecycleSync.MarkRows | discord_bot/utils/trade_retry_utils.py:820-875 | A held symbol's rows become ACTIVE unless live or closed; other rows stay |
| LifecycleSync.MarkListed | discord_bot/utils/trade_retry_utils.py:814-878 | The loop over positions marks the rows of each listed symbol and collects exactly the listed symbols |
| LifecycleSync.DropUnlisted | discord_bot/utils/trade_retry_utils.py:888-976 | The loop over the indexed symbols closes or fails exactly the rows of those not listed |
| LifecycleSync.DropRows | discord_bot/utils/trade_retry_utils.py:890-976 | Rows of an unlisted symbol are closed or, if never executed, failed, when the snapshot calls for it |
| LifecycleSync.SyncPositions | discord_bot/utils/trade_retry_utils.py:795-980 | Both loops together rewrite each row on its own, from its snapshot entry and whether its symbol is listed and held |
| LifecycleSync.SyncIsRowWise | discord_bot/utils/trade_retry_utils.py:814-976 | The two nested passes over positions and symbols equal one independent rewrite per row |
| LifecycleSync.CloseRows | discord_bot/utils/trade_retry_utils.py:1999-2053 | Every selected row is stamped and closed, no other row changes |
| LifecycleSync.CleanupPositions | discord_bot/utils/trade_retry_utils.py:1945-2055 | Exactly the rows without a live position and those closed in all but status are closed |
| LifecycleSync.EnsureClosedStayClosed | scripts/maintenance/kucoin_status_sync.py:161-211 | Exactly the rows with a close time and no terminal status are closed, where the updater succeeds |
| LifecycleRuns.OnlyLiveTradesStayOpen | discord_bot/utils/trade_retry_utils.py:1956-2050 | After sync and cleanup a row without a position is open if and only if it was open and the snapshot did not call for closing it; with a current snapshot, never |
| LifecycleRuns.VerdictsAreComplete | discord_bot/utils/trade_retry_utils.py:814-2050 | Under any snapshot: a row that becomes CLOSED has `closed_at` set to now and is inactive, one that becomes FAILED is inactive and never executed, one that becomes ACTIVE is active; nothing else changes |
| LifecycleRuns.PositionSyncByCase | discord_bot/utils/trade_retry_utils.py:814-976 | The whole row that position sync alone makes of a row read just before |
| LifecycleRuns.EnsurePassByCase | scripts/maintenance/kucoin_status_sync.py:161-206 | The ensure pass sets CLOSED and inactive exactly where a close time meets a status that is not terminal and the updater succeeds |
| LifecycleRuns.RowsByCase | discord_bot/utils/trade_retry_utils.py:814-2050 | The whole resulting row of a row read just before, by its close time, status, symbol and position |
| LifecycleRuns.ActiveSymbolsAre | discord_bot/utils/trade_retry_utils.py:1956-1970 | A symbol is active if and only if some nonzero position converts to it, with or without a USDT suffix |
| LifecycleRuns.HeldTradesEndLive | discord_bot/utils/trade_retry_utils.py:857-875 | Conversely, a row with a position and no close time ends ACTIVE (or stays OPEN), even from FAILED, CANCELLED or CLOSED |
| LifecycleRuns.TerminalStaysTerminalIff | discord_bot/utils/trade_retry_utils.py:857-875 | A CLOSED, CANCELLED or FAILED row stays so if and only if it has a close time or its symbol has no position, and then only `updated_at` changes |
| LifecycleRuns.FailedVerdictIsOverwritten | discord_bot/utils/trade_retry_utils.py:1976-1994 | A never-executed trade is FAILED after sync; after the cleanup that shares the snapshot it is FAILED if and only if it has no close time and its symbol counts as active, else CLOSED |
| LifecycleRuns.UnlistedIsNotActive | discord_bot/utils/trade_retry_utils.py:1956-1970 | Where the symbol converter inverts itself, the symbol of an unlisted trade never counts as active |
| LifecycleRuns.SecondRunSettles | discord_bot/utils/trade_retry_utils.py:795-2055 | A second run of sync and cleanup over the rows read anew, with the same positions, changes nothing but `updated_at` |
| LifecycleRuns.ClosedStaysClosed | scripts/maintenance/kucoin_status_sync.py:173-206 | Over any sequence of position, cleanup and ensure passes, each reading the table anew, a row with a close time and a terminal status changes nothing but `updated_at` |
| LifecycleRuns.SyncStatuses | scripts/maintenance/kucoin_status_sync.py:88-147 | Orders, positions, cleanup and ensure, all from one snapshot, compose as specified |
| LifecycleRuns.VerificationFinds | scripts/maintenance/kucoin_status_sync.py:214-249 | For any orders and a current snapshot, the final verification reports a row if and only if no pass after the orders writes it and the status the last order left is ACTIVE without a position or not terminal with a close time |
| LifecycleRuns.VerificationFindsNothing | scripts/maintenance/kucoin_status_sync.py:214-249 | A row that no order matches is reported if and only if it has a close time but no terminal status, no derivable symbol, and the updater fails on it |
| LifecycleRuns.OrdersCanReopen | discord_bot/utils/trade_retry_utils.py:657-663 | A closed trade leaves the whole sync with the status of the last order matched to it, and unchanged if none is |
| LifecycleRuns.ClosedTradeIsReopened | discord_bot/utils/trade_retry_utils.py:657-663 | One CLOSED trade with one open order and no position ends ACTIVE with its `closed_at` |
| LifecycleRuns.OrdersCanHideSymbol | discord_bot/utils/trade_retry_utils.py:388-421 | The next cleanup closes a live trade that orders left open if and only if its symbol is known from the response only and the order's symbol is given but not among the active ones |
| LifecycleRuns.BitcoinTradeIsHidden | discord_bot/utils/trade_retry_utils.py:711-713 | One open BTC trade with its position, known from its response only, is closed after its own order was synced |
| OrderSync.IndexOrders | discord_bot/utils/trade_retry_utils.py:573-591 | The lookup by order id finds the last trade with that id |
| OrderSync.FindByTime | discord_bot/utils/trade_retry_utils.py:727-748 | The fallback finds the first trade of the symbol created within ten minutes of the order |
| OrderSync.OrdersAreMatched | discord_bot/utils/trade_retry_utils.py:601-751 | An order goes to the last trade with its id or, when none has it, to the first of its symbol created less than 600 s from it; to none if and only if neither exists |
| OrderSync.SyncOrders | discord_bot/utils/trade_retry_utils.py:566-792 | The pass applies the orders one after the other to the rows matched by id, else by symbol and time |
| OrderSync.OrdersDecideStatus | discord_bot/utils/trade_retry_utils.py:657-784 | Each row ends with the status of the last order matched to it, or its own; its derived symbol becomes that order's if and only if it has neither a symbol of its own nor one from its signal; `coin_symbol`, the signal's symbol and `closed_at` never change |
| Scheduler.RunIteration | discord_bot/main.py:361-594 | An iteration runs each due task in order, its timer moving only on success |
| Scheduler.RunScheduler | discord_bot/main.py:322-594 | The loop's timers and log of runs are those of the specified run |
| Scheduler.TickTask | discord_bot/main.py:467-490 | Tasks are independent, except that the take-profit audit sees the stop-loss timer this iteration has left |
| Scheduler.TasksArePaced | discord_bot/main.py:322-594 | Successful runs of every task are at least its interval apart, whatever fails |
| Scheduler.TakeProfitTrailsStopLoss | discord_bot/main.py:478-490 | Every take-profit audit is at least 300 s after every earlier stop-loss audit, whatever fails |
| Scheduler.TasksAreNotStarved | discord_bot/main.py:361-594 | Any other succeeding task comes less than its interval plus the largest loop gap after its last run |
| Scheduler.TakeProfitIsPacedAndNotStarved | discord_bot/main.py:467-490 | For gaps up to d <= 1500 s, take-profit audits are at least 1800 s and less than 2100 + 2d s apart, and the next is never overdue |
| Scheduler.StarvedBeyond1500 | discord_bot/main.py:478-490 | For every d > 1500 s there are runs of any length without a take-profit audit though all audits succeed |
| IncomeWindow.FetchWindow | discord_bot/utils/trade_retry_utils.py:1677-1694 | The loop terminates, makes exactly the chunk calls, and concatenates the answers of those that succeed |
| IncomeWindow.ChunksTile | discord_bot/utils/trade_retry_utils.py:1680-1693 | The chunks run from start to end, meet at endpoints, are of seven days but the last, and are as few as possible |
| IncomeWindow.GetIncomeForTradePeriod | discord_bot/utils/trade_retry_utils.py:1649-1716 | The income for a trade is the fetched income of the padded window, in order, and empty for a symbol that looks invalid or is on the list of invalid ones |
| IncomeWindow.AddUpIncome | discord_bot/utils/trade_retry_utils.py:1832-1858 | The running totals are the realized sum and the sum over all three kinds |
| IncomeWindow.BackfillFromIncome | discord_bot/utils/trade_retry_utils.py:1832-1890 | An update is made if and only if a realized record was found, with both sums and the last realized price |
| IncomeWindow.IncomeIsWindowPlusBoundaries | discord_bot/utils/trade_retry_utils.py:1677-1714 | For any weight, the income taken weighs the log's window plus once more its inner chunk boundaries: each record once, twice exactly there |
| IncomeWindow.NetPnlIsPlainSum | discord_bot/utils/trade_retry_utils.py:1677-1885 | Net PnL is the plain sum over the window if and only if the income at inner boundaries nets to zero |
| IncomeWindow.IncomeTaken | discord_bot/utils/trade_retry_utils.py:1690-1714 | Exactly the records with a time within the period, widened by positive buffers, both ends included, are taken |
| IncomeWindow.BackfillIsExact | discord_bot/utils/trade_retry_utils.py:1832-1885 | PnL and net PnL are the sums of the realized records and of the three kinds, over the window and once more its inner boundaries |
| IncomeWindow.BackfillNeedsRealized | discord_bot/utils/trade_retry_utils.py:1860-1866 | An update is made if and only if the window holds a realized record |
| IncomeWindow.ExitPriceIsLast | discord_bot/utils/trade_retry_utils.py:1847-1890 | The exit price written is the price of the last realized record that carries one, if positive |
| IncomeWindow.BoundaryIncomeCountsTwice | discord_bot/utils/trade_retry_utils.py:1680-1693 | A profit of 1 at the inner boundary of a trade of just over a week makes a net PnL of 2 |
| IncomeWindow.ShortTradeIsExact | discord_bot/utils/trade_retry_utils.py:1677-1885 | Trades of less than a week always get the plain sum |
| ExitInfo.SplitHistory | discord_bot/utils/trade_retry_utils.py:2258-2342 | The loop splits the history by side and fills in missing times from the raw response, else from the trade's lifecycle |
| ExitInfo.GetExitInfo | discord_bot/utils/trade_retry_utils.py:2228-2432 | The result is the specified one, and absent if and only if the trade is neither long nor short or there is no nonzero exit price |
| ExitInfo.SortByTimeSorts | discord_bot/utils/trade_retry_utils.py:2355-2357 | Sorting by time gives a sorted permutation |
| ExitInfo.FirstTime | discord_bot/utils/trade_retry_utils.py:2394-2396 | The first entry time is attained and least |
| ExitInfo.ExitsUsedAreValid | discord_bot/utils/trade_retry_utils.py:2385-2401 | Exactly the exit fills of the trade's order (all, if none is) that are no earlier than the first entry are used |
| ExitInfo.EntriesUsedAreValid | discord_bot/utils/trade_retry_utils.py:2361-2376 | Exactly the entries of the trade's order (all, if none is) are used, and of these those no later than the close, if any |
| ExitInfo.FillsOfTrade | discord_bot/utils/trade_retry_utils.py:2228-2337 | For LONG the entries are the buys and the exits the sells, for SHORT the reverse, each with its own, raw or estimated time |
| ExitInfo.ExitPriceIsAverage | discord_bot/utils/trade_retry_utils.py:2401-2413 | Exit price times total size is the worth of the exits used; without size it is the price of one as close to the close as any |
| ExitInfo.EntryPriceIsAverage | discord_bot/utils/trade_retry_utils.py:2377-2383 | Entry price times total size is the worth of the entries used, and that size is the position's |
| ExitInfo.FeesAreTotal | discord_bot/utils/trade_retry_utils.py:2415-2421 | The fees are those of all entries and exits |
| ExitInfo.ExitPriceInHull | discord_bot/utils/trade_retry_utils.py:2385-2414 | With nonnegative sizes the exit price lies between two prices of the fills used |
| ExitInfo.EntryPriceInHull | discord_bot/utils/trade_retry_utils.py:2361-2383 | The entry price lies between two prices of its fills, and the position size is their total |
| TransactionImport.TransactionHistory.SplitBatch | discord_bot/main.py:766-781 | A batch's new rows are its transactions whose key is not stored, the rest is counted as skipped |
| TransactionImport.TransactionHistory.ImportBatch | discord_bot/main.py:766-788 | A batch adds all its new rows or, when refused, none |
| TransactionImport.TransactionHistory.ImportKucoin | discord_bot/main.py:757-792 | The batched loop has the specified table and counts |
| TransactionImport.ImportIsExact | discord_bot/main.py:762-790 | Stored keys keep their count, new keys are stored as often as in their first batch; the keys become the union of old and new |
| TransactionImport.NewKeyIsStored | discord_bot/main.py:757-790 | A new key is stored as often as it occurs in the hundred that holds its first occurrence |
| TransactionImport.RepeatedTransactionIsInsertedTwice | discord_bot/main.py:766-788 | A transaction listed twice in one batch is inserted twice into an empty table |
| TransactionImport.NothingIsLost | discord_bot/main.py:762-790 | Inserted, skipped and refused add up to the input's length, the table grows by the inserted ones and keeps its rows |
| TransactionImport.AddedRowsAreListed | discord_bot/main.py:752-790 | Every added row is a listed transaction, filed under KuCoin, with a key not stored before |
| TransactionImport.SecondImportInsertsNothing | discord_bot/database/database_manager.py:297-321 | Importing the same list again inserts nothing and skips everything |
| EnvCleanup.AnalyzeLines | scripts/setup/cleanup_env_duplicates.py:22-45 | The index holds, per variable in order of first assignment, all assigning lines in ascending order |
| EnvCleanup.AssignmentIsRead | scripts/setup/cleanup_env_duplicates.py:27-41 | A line `name = value`, with any white space around line and name, assigns to that name |
| EnvCleanup.OthersAssignNothing | scripts/setup/cleanup_env_duplicates.py:30-37 | Comment lines, whatever white space precedes them, and lines without an equals sign assign nothing |
| EnvCleanup.CommentLines | scripts/setup/cleanup_env_duplicates.py:78-86 | Exactly the given lines are commented, in place |
| EnvCleanup.CleanupLines | scripts/setup/cleanup_env_duplicates.py:47-90 | The lines end with exactly the superseded assignments commented; a dry run changes nothing |
| EnvCleanup.CleanupPreservesMeaning | scripts/setup/cleanup_env_duplicates.py:78-86 | Every variable keeps its last-assignment value and exactly one active assignment, the last |
| EnvCleanup.CleanupSettles | scripts/setup/cleanup_env_duplicates.py:47-90 | Cleaning again changes nothing; cleaning changes nothing if and only if no assignment is superseded |
| EnvCleanup.CleanFileIsSound | scripts/setup/cleanup_env_duplicates.py:27-90 | As file texts: the written file reads back as the cleaned lines, as many as before, values kept, second run without effect |
| EnvCleanup.CleanFileKeepsCleanFiles | scripts/setup/cleanup_env_duplicates.py:54-90 | A file without superseded assignments is written back unchanged to the letter |
| EntryPrices.FindSplit | discord_bot/signal_processing/signal_validator.py:96-143 | The search finds the first position in the coin's list that gives two acceptable prices |
| EntryPrices.FixPrice | discord_bot/signal_processing/signal_validator.py:78-148 | One price is kept or replaced by the two parts of its first acceptable split |
| EntryPrices.FixMalformedEntryPrices | discord_bot/signal_processing/signal_validator.py:60-150 | The result is the in-order expansion of the prices |
| EntryPrices.SplitLosesNoDigit | discord_bot/signal_processing/signal_validator.py:97-106 | A split price is p1 * 10^(n-k) + p2 with both parts positive and the second below 10^(n-k) |
| EntryPrices.PartsRunTogether | discord_bot/signal_processing/signal_validator.py:97-106 | The parts' digits run together give the price's digits if and only if the second part has no leading zero |
| EntryPrices.FixKeepsPositivity | discord_bot/signal_processing/signal_validator.py:187-192 | The fixed prices pass the positivity check if and only if the given ones do |
| EntryPrices.FixIsIdempotentIff | discord_bot/signal_processing/signal_validator.py:78-150 | For any list a second fix changes nothing: always for BTC and ETH, for other coins if and only if every whole price, or both numbers it is cut into one digit before its middle, is shorter than eight digits or all zeros from there on |
| EntryPrices.FixIsIdempotent | discord_bot/signal_processing/signal_validator.py:78-150 | The fix is idempotent for BTC and ETH always, for other coins up to twelve digits |
| EntryPrices.ThirteenDigits | discord_bot/signal_processing/signal_validator.py:129-143 | For other coins' thirteen-digit prices: idempotent if and only if the last eight digits start with 0 or the last five are zeros |
| EntryPrices.BtcPairIsRestored | discord_bot/signal_processing/signal_validator.py:64-66 | Two five-digit BTC prices run together are told apart if and only if the first ends in 2 to 9; else the split after four digits wins |
| EntryPrices.BtcSplit | discord_bot/signal_processing/signal_validator.py:92-109 | For every length: which of the positions 4, 5 and 6 splits a BTC price, in terms of quotients and remainders |
| EntryPrices.EthSplit | discord_bot/signal_processing/signal_validator.py:112-127 | For every length: which of the positions 3 and 4 splits an ETH price |
| EntryPrices.OtherCoinSplit | discord_bot/signal_processing/signal_validator.py:129-143 | Other coins' long prices are split one digit before the middle, or not at all if only zeros follow |
| SanitizeContent.SanitizeJoinsWords | discord_bot/signal_processing/signal_validator.py:266-272 | The result is the cleaned text's words joined by single blanks |
| SanitizeContent.SanitizedIsTidy | discord_bot/signal_processing/signal_validator.py:257-272 | Every character is allowed, no white space at the ends, only single blanks |
| SanitizeContent.CleaningIsCharacterwise | discord_bot/signal_processing/signal_validator.py:229-267 | The chain of replacements and filters is one pass per character if and only if the replaced text does not occur |
| SanitizeContent.AsciiIsKept | discord_bot/signal_processing/signal_validator.py:257-267 | Of ASCII exactly letters, digits, white space and the listed punctuation are kept |
| SanitizeContent.OthersAreDropped | discord_bot/signal_processing/signal_validator.py:232-267 | Beyond ASCII, dashes and ellipses are replaced, white space and filtered alphanumerics kept, all else is dropped |
| SanitizeContent.ApostrophesAreDropped | discord_bot/signal_processing/signal_validator.py:230-267 | No result holds an apostrophe, typographic or plain; a text is sanitized as if it held none if and only if the replaced text does not occur in it |
| SanitizeContent.SanitizedTexts | discord_bot/signal_processing/signal_validator.py:229-272 | A text is left unchanged if and only if it is tidy and has only allowed characters |
| SanitizeContent.SanitizeIsIdempotent | discord_bot/signal_processing/signal_validator.py:216-272 | A second pass changes nothing, for every text |
| SanitizeContent.SanitizeKeepsWords | discord_bot/signal_processing/signal_validator.py:269-272 | White space handling loses no word: the words before and after are the same |
| Words.StripCollapse | discord_bot/signal_processing/signal_validator.py:269-272 | Collapsing white space and stripping leaves the words joined by single blanks |
| QuantityPrefix.ExtractionRoundTrip | discord_bot/signal_processing/signal_parser.py:10-48 | The cleaned signal lacks exactly the number; number and cleaned signal give the signal back if and only if it has no leading zero or the number is zero |
| QuantityPrefix.CoinIs | discord_bot/signal_processing/signal_parser.py:19-46 | The coin is the first known name after the digits, else the two to ten upper-case letters there; nothing is found if and only if there are no digits or no such coin |
| KucoinPrecision.FormattingIsSound | config/kucoin/kucoin_precision.py:137-197 | For increments of 0.0001 or more: a multiple within half an increment, monotone, idempotent |
| KucoinPrecision.FormattedIsValid | config/kucoin/kucoin_precision.py:58-160 | With limits on the grid, every quantity within them formats to one that validates |
| KucoinPrecision.ValidMeansJustAboveGrid | config/kucoin/kucoin_precision.py:75-94 | Within the limits, a quantity is valid if and only if it is a multiple or exceeds one by at most the tolerance |
| KucoinPrecision.LimitsDecide | config/kucoin/kucoin_precision.py:66-98 | A quantity outside the limits is invalid; without symbol data all are valid and unchanged |
| KucoinPrecision.FormatKeepsMultiplesIff | config/kucoin/kucoin_precision.py:153-160 | Formatting keeps all multiples of the increment if and only if it is not tiny; a tiny one is not even kept itself |
| KucoinPrecision.TinyIsBelow | config/kucoin/kucoin_precision.py:156-158 | Tiny, that is printed in exponent form, means below 0.0001 |

## Left out

Assumptions the model makes:

- Network, database, logging, retries and sleeps: the exchange is a given function or sequence, the table a map or
  sequence, writes succeed (except batch insertions, which may be refused) and updating a missing row does nothing.
- Concurrency: passes and iterations are atomic, each with one clock reading; a pass may judge by stale rows.
- Floating point: amounts and prices are exact reals, and infinities and not-a-number do not occur.
- Texts the source upper- or lower-cases first (status, side, type, coin) are given in that case.
- The unified status updater and the enrichment step are not in the repository: a forced close is taken to yield
  CLOSED, in the ensure pass it may also fail; enrichment writes no status and no symbol.
- The symbol converter is not in the repository: it is a given pair of functions, assumed where needed to
  round-trip on the row's symbol.
- The status manager is not in the repository: each order comes with the status it is mapped to.
- The language's alphanumeric class is a parameter of the sanitizer, assumed for idempotence to contain no white
  space, dash, ellipsis or zero-width character and, of ASCII, only letters and digits; where apostrophes are concerned
  also no typographic apostrophe.

Not modelled:

- MarkRows: does not write the position size, entry price and mark price columns, on which no later pass of the model
  depends.
- DropRows: does not write `order_status`, the enrichment data and the zero defaults of exit price and PnL, on which no
  later pass depends.
- CloseRows: does not write the enrichment data and the zero defaults of exit price and PnL, likewise.
- SyncOrders: does not write the size, price and `order_status` columns, likewise; of the exchange response it keeps
  what later passes read, the symbol and whether it reports a failed execution.
- An empty, as opposed to missing, `closed_at` text in the lifecycle passes.
- GetIncomeForTradePeriod: does not truncate an answer at 1000 records.
- BackfillFromIncome: does not compute the fallback PnL from prices when there is no income, and does not write the
  symbol, timestamp and price-source columns.
- SplitHistory: does not raise on a fill whose price, size or fee is not a number.
- GetExitInfo: takes the history and the parsed times as given; choosing the time window and fetching it are left out.
- Import: errors of the existence query, which count as "not stored".
- Scheduler: the disabled orphaned-order task and the inactivity check, and what the tasks do.
- `.env` cleanup: the backup file, the report, and universal-newline translation of `\r`.
- Quantity prefix: digits outside ASCII, and the OpenAI parsing around it.
- Loading the precision file; an unparsable number in it makes formatting fall back to the input.
- Binance order and position sync, and Binance cleanup, which compares symbols such as
  BTCUSDT with BTC without converting them.
- Whole-run idempotence of the reconciler: a trade that already matches does not reserve its close id, so a second
  run may match other trades differently.
- Convergence of the position-size backfill, the update loops of the Discord handler, and the regular-expression
  dispatch of alerts.
- ClosedStaysClosed: excludes the order pass, for which it is false; `OrdersCanReopen` says exactly when.
- TasksAreNotStarved: excludes the take-profit audit, which has its own lemma with its own bound.
- FixIsIdempotent: excludes other coins' prices beyond twelve digits, where it can be false; `FixIsIdempotentIff` gives
  the exact condition on the prices of any list.
