/** The maintenance scheduler: fourteen tasks on independent timers, one of which must trail another. */
module Scheduler {

  // The tasks' intervals in seconds, in the order in which an iteration looks at the tasks.
  const INTERVALS: seq<real> := [
    86400.0,  // daily sync
    600.0,    // KuCoin sync
    3600.0,   // transaction history
    3600.0,   // PnL backfill
    3600.0,   // price backfill
    604800.0, // weekly backfill
    1800.0,   // stop-loss audit
    1800.0,   // take-profit audit
    300.0,    // balance sync
    21600.0,  // coin symbol backfill
    300.0,    // active futures sync
    2100.0,   // order monitor
    21600.0,  // reconciliation
    7200.0    // missing data sync
  ]
  const TASKS := 14
  const STOP_LOSS_AUDIT := 6
  const TAKE_PROFIT_AUDIT := 7

  // The least time from a stop-loss audit to the next take-profit audit.
  const TRAIL := 300.0

  // One pass of the loop: the clock, and which tasks would finish without an exception.
  datatype Iteration = Iteration(time: real, succeeds: nat -> bool)

  const ZEROS: seq<real> := [0.0, 0.0, 0.0, 0.0, 0.0, 0.0, 0.0, 0.0, 0.0, 0.0, 0.0, 0.0, 0.0, 0.0]

  type Timers = t: seq<real> | |t| == TASKS witness ZEROS

  const START: Timers := ZEROS

  predicate Runs(k: nat, last: Timers, it: Iteration)
    requires k < TASKS
  {
    && it.time - last[k] >= INTERVALS[k]
    && (k == TAKE_PROFIT_AUDIT ==> it.time - last[STOP_LOSS_AUDIT] >= TRAIL)
    && it.succeeds(k)
  }

  /** The timers after the first n tasks of an iteration. */
  function Tick(last: Timers, it: Iteration, n: nat): Timers
    requires n <= TASKS
  {
    if n == 0 then last
    else
      var before := Tick(last, it, n - 1);
      if Runs(n - 1, before, it) then before[n - 1 := it.time] else before
  }

  function AfterIteration(last: Timers, it: Iteration): Timers { Tick(last, it, |last|) }

  function TimersAfter(its: seq<Iteration>): Timers {
    if its == [] then START else AfterIteration(TimersAfter(its[..|its| - 1]), its[|its| - 1])
  }

  /** The times at which task k ran to completion. */
  function RunTimes(k: nat, its: seq<Iteration>): seq<real>
    requires k < TASKS
  {
    if its == [] then []
    else
      var init, it := its[..|its| - 1], its[|its| - 1];
      RunTimes(k, init) + if Runs(k, Tick(TimersAfter(init), it, k), it) then [it.time] else []
  }

  /** Whether the task is due and finishes. */
  method RunTask(k: nat, last: Timers, it: Iteration) returns (ran: bool)
    requires k < TASKS
    ensures ran <==> Runs(k, last, it)
  {
    ran := false;
    if it.time - last[k] >= INTERVALS[k] {
      if k != TAKE_PROFIT_AUDIT || it.time - last[STOP_LOSS_AUDIT] >= TRAIL {
        ran := it.succeeds(k);
      }
    }
  }

  /** The tasks of one iteration, each timer and each log entry after its task. */
  method RunIteration(before: Timers, it: Iteration, logBefore: seq<seq<real>>)
    returns (last: Timers, log: seq<seq<real>>)
    requires |logBefore| == TASKS
    ensures last == AfterIteration(before, it)
    ensures |log| == TASKS
    ensures forall k: nat :: k < TASKS ==>
              log[k] == logBefore[k] + if Runs(k, Tick(before, it, k), it) then [it.time] else []
  {
    last, log := before, logBefore;
    for k := 0 to |before|
      invariant last == Tick(before, it, k)
      invariant |log| == TASKS
      invariant forall m: nat :: m < k ==>
                  log[m] == logBefore[m] + if Runs(m, Tick(before, it, m), it) then [it.time] else []
      invariant forall m: nat :: k <= m < TASKS ==> log[m] == logBefore[m]
    {
      var ran := RunTask(k, last, it);
      if ran {
        last := last[k := it.time];
        log := log[k := log[k] + [it.time]];
      }
    }
  }

  /** The scheduler's loop over any finite number of iterations. */
  method RunScheduler(its: seq<Iteration>) returns (last: Timers, log: seq<seq<real>>)
    ensures last == TimersAfter(its)
    ensures |log| == TASKS && forall k: nat :: k < TASKS ==> log[k] == RunTimes(k, its)
  {
    last, log := START, [[], [], [], [], [], [], [], [], [], [], [], [], [], []];
    for i := 0 to |its|
      invariant last == TimersAfter(its[..i])
      invariant |log| == TASKS && forall k: nat :: k < TASKS ==> log[k] == RunTimes(k, its[..i])
    {
      assert its[..i + 1][..i] == its[..i];
      last, log := RunIteration(last, its[i], log);
    }
    assert its[..|its|] == its;
  }

  /** The intervals in minutes. */
  lemma IntervalsInMinutes(k: nat)
    requires k < TASKS
    ensures INTERVALS[k] ==
            60.0 * [1440.0, 10.0, 60.0, 60.0, 60.0, 10080.0, 30.0, 30.0, 5.0, 360.0, 5.0, 35.0, 360.0, 120.0][k]
  {
  }

  // ---- One iteration, task by task ----

  lemma {:induction false} TickUntouched(last: Timers, it: Iteration, n: nat, k: nat)
    requires n <= k < TASKS
    ensures Tick(last, it, n)[k] == last[k]
  {
    if n > 0 {
      TickUntouched(last, it, n - 1, k);
    }
  }

  lemma {:induction false} TickLater(last: Timers, it: Iteration, n: nat, k: nat)
    requires k < n <= TASKS
    ensures Tick(last, it, n)[k] == Tick(last, it, k + 1)[k]
  {
    if n > k + 1 {
      TickLater(last, it, n - 1, k);
    }
  }

  /** An iteration moves each timer on its own, except that the take-profit audit looks at the stop-loss
      timer as this iteration has left it. */
  lemma TickTask(last: Timers, it: Iteration, k: nat)
    requires k < TASKS
    ensures
      var after := AfterIteration(last, it);
      var runs :=
        && it.time - last[k] >= INTERVALS[k]
        && (k == TAKE_PROFIT_AUDIT ==> it.time - after[STOP_LOSS_AUDIT] >= TRAIL)
        && it.succeeds(k);
      && (Runs(k, Tick(last, it, k), it) <==> runs)
      && after[k] == if runs then it.time else last[k]
  {
    TickUntouched(last, it, k, k);
    TickLater(last, it, |last|, k);
    TickLater(last, it, |last|, STOP_LOSS_AUDIT);
    if k == TAKE_PROFIT_AUDIT {
      TickLater(last, it, k, STOP_LOSS_AUDIT);
    }
  }

  /** One more iteration, as seen by task k. */
  lemma NextIteration(its: seq<Iteration>, it: Iteration, k: nat)
    requires k < TASKS
    ensures
      var before, after := TimersAfter(its), TimersAfter(its + [it]);
      var runs :=
        && it.time - before[k] >= INTERVALS[k]
        && (k == TAKE_PROFIT_AUDIT ==> it.time - after[STOP_LOSS_AUDIT] >= TRAIL)
        && it.succeeds(k);
      && after[k] == (if runs then it.time else before[k])
      && RunTimes(k, its + [it]) == RunTimes(k, its) + if runs then [it.time] else []
  {
    assert (its + [it])[..|its|] == its;
    TickTask(TimersAfter(its), it, k);
  }

  // ---- Pacing, whether or not tasks fail ----

  /** The clock moves on, and the first reading is past every timer's start. */
  ghost predicate Clocked(its: seq<Iteration>) {
    && (its != [] ==> its[0].time > 0.0)
    && forall i, j :: 0 <= i < j < |its| && j == i + 1 ==> its[i].time < its[j].time
  }

  ghost predicate SpacedBy(times: seq<real>, gap: real) {
    forall i, j :: 0 <= i < j < |times| && j == i + 1 ==> times[j] - times[i] >= gap
  }

  /** The timer holds the time of the last run, 0 before the first. */
  ghost predicate TimerShows(times: seq<real>, timer: real) {
    timer == if times == [] then 0.0 else times[|times| - 1]
  }

  lemma {:induction false} TasksArePaced(its: seq<Iteration>, k: nat)
    requires k < TASKS
    ensures TimerShows(RunTimes(k, its), TimersAfter(its)[k])
    ensures SpacedBy(RunTimes(k, its), INTERVALS[k])
  {
    if its != [] {
      var init, it := its[..|its| - 1], its[|its| - 1];
      TasksArePaced(init, k);
      TickTask(TimersAfter(init), it, k);
    }
  }

  lemma {:induction false} RunsAreBounded(its: seq<Iteration>, k: nat)
    requires k < TASKS && Clocked(its)
    ensures forall s :: s in RunTimes(k, its) ==> 0.0 < s <= its[|its| - 1].time && s <= TimersAfter(its)[k]
    ensures its != [] ==> 0.0 <= TimersAfter(its)[k] <= its[|its| - 1].time
  {
    if its != [] {
      var init, it := its[..|its| - 1], its[|its| - 1];
      RunsAreBounded(init, k);
      TickTask(TimersAfter(init), it, k);
      assert init != [] ==> its[|its| - 2].time < it.time;
      FirstIsPositive(its, |its| - 1);
    }
  }

  lemma {:induction false} FirstIsPositive(its: seq<Iteration>, i: nat)
    requires Clocked(its) && i < |its|
    ensures its[i].time > 0.0
  {
    if i > 0 {
      FirstIsPositive(its, i - 1);
    }
  }

  lemma {:induction false} FirstIsLeast(its: seq<Iteration>, i: nat)
    requires Clocked(its) && i < |its|
    ensures its[0].time <= its[i].time
  {
    if i > 0 {
      FirstIsLeast(its, i - 1);
    }
  }

  /** Every take-profit audit comes at least five minutes after every stop-loss audit before it. */
  lemma {:induction false} TakeProfitTrailsStopLoss(its: seq<Iteration>)
    requires Clocked(its)
    ensures forall r, s :: r in RunTimes(TAKE_PROFIT_AUDIT, its) && s in RunTimes(STOP_LOSS_AUDIT, its) && s <= r
              ==> r - s >= 300.0
  {
    if its != [] {
      var init, it := its[..|its| - 1], its[|its| - 1];
      TakeProfitTrailsStopLoss(init);
      RunsAreBounded(init, TAKE_PROFIT_AUDIT);
      RunsAreBounded(its, STOP_LOSS_AUDIT);
      TickTask(TimersAfter(init), it, TAKE_PROFIT_AUDIT);
      assert init != [] ==> its[|its| - 2].time < it.time;
    }
  }

  // ---- Pacing when the audits succeed and the loop is never away for longer than d ----

  /** Consecutive iterations start at most d apart; the clock is past the half hour from the start on. */
  ghost predicate Steady(its: seq<Iteration>, d: real) {
    && Clocked(its)
    && (its != [] ==> its[0].time >= 1800.0)
    && forall i, j :: 0 <= i < j < |its| && j == i + 1 ==> its[j].time - its[i].time <= d
  }

  ghost predicate Succeeds(its: seq<Iteration>, k: nat) {
    forall i :: 0 <= i < |its| ==> its[i].succeeds(k)
  }

  ghost predicate GapsBelow(times: seq<real>, bound: real) {
    forall i, j :: 0 <= i < j < |times| && j == i + 1 ==> times[j] - times[i] < bound
  }

  /** Any other task that keeps succeeding runs less than its interval plus d after its previous run. */
  lemma {:induction false} TasksAreNotStarved(its: seq<Iteration>, k: nat, d: real)
    requires k < TASKS && k != TAKE_PROFIT_AUDIT
    requires Steady(its, d) && Succeeds(its, k) && d >= 0.0
    ensures GapsBelow(RunTimes(k, its), INTERVALS[k] + d)
    ensures its != [] ==> its[|its| - 1].time - TimersAfter(its)[k] < INTERVALS[k]
  {
    if its != [] {
      var init, it := its[..|its| - 1], its[|its| - 1];
      TasksAreNotStarved(init, k, d);
      TasksArePaced(init, k);
      TickTask(TimersAfter(init), it, k);
      assert init != [] ==> it.time - its[|its| - 2].time <= d;
      assert INTERVALS[k] > 0.0;
      if init == [] {
        assert RunTimes(k, init) == [];
      }
    }
  }

  /** After an iteration at time t: the stop-loss timer is fresh, and a take-profit audit that is due is held
      back only by a stop-loss audit of the last five minutes, one that itself came soon enough. */
  ghost predicate OnTrack(t: real, first: real, sl: real, tp: real, d: real) {
    && t - sl < 1800.0
    && (if tp == 0.0 then sl == first && t - first < TRAIL
        else tp > 0.0 && (t - tp < 1800.0 || (t - sl < TRAIL && sl < tp + 1800.0 + d)))
  }

  lemma TrackStep(t: real, t': real, first: real, sl: real, tp: real, sl': real, tp': real, d: real)
    requires OnTrack(t, first, sl, tp, d) && t < t' <= t + d && d <= 1500.0
    requires 1800.0 <= first <= t && tp <= t && sl <= t
    requires sl' == if t' - sl >= 1800.0 then t' else sl
    requires tp' == if t' - tp >= 1800.0 && t' - sl' >= TRAIL then t' else tp
    ensures OnTrack(t', first, sl', tp', d)
    ensures tp' != tp && tp != 0.0 ==> t' - tp < 2100.0 + 2.0 * d
    ensures tp' != tp && tp == 0.0 ==> TRAIL <= t' - first < TRAIL + d
  {
  }

  /** One more iteration, with the audits' timers before and after it. */
  lemma AuditStep(its: seq<Iteration>, d: real)
    requires |its| >= 2 && Steady(its, d) && 0.0 <= d <= 1500.0
    requires Succeeds(its, STOP_LOSS_AUDIT) && Succeeds(its, TAKE_PROFIT_AUDIT)
    requires
      var init := its[..|its| - 1];
      var before := TimersAfter(init);
      OnTrack(its[|its| - 2].time, its[0].time, before[STOP_LOSS_AUDIT], before[TAKE_PROFIT_AUDIT], d)
    ensures
      var tp, last := TimersAfter(its[..|its| - 1])[TAKE_PROFIT_AUDIT], TimersAfter(its);
      var t, first := its[|its| - 1].time, its[0].time;
      && OnTrack(t, first, last[STOP_LOSS_AUDIT], last[TAKE_PROFIT_AUDIT], d)
      && (last[TAKE_PROFIT_AUDIT] != tp && tp != 0.0 ==> t - tp < 2100.0 + 2.0 * d)
      && (last[TAKE_PROFIT_AUDIT] != tp && tp == 0.0 ==> TRAIL <= t - first < TRAIL + d)
  {
    var init, it := its[..|its| - 1], its[|its| - 1];
    var before, last := TimersAfter(init), TimersAfter(its);
    TickTask(before, it, STOP_LOSS_AUDIT);
    TickTask(before, it, TAKE_PROFIT_AUDIT);
    RunsAreBounded(init, STOP_LOSS_AUDIT);
    RunsAreBounded(init, TAKE_PROFIT_AUDIT);
    FirstIsLeast(its, |its| - 2);
    TrackStep(its[|its| - 2].time, it.time, its[0].time, before[STOP_LOSS_AUDIT], before[TAKE_PROFIT_AUDIT],
              last[STOP_LOSS_AUDIT], last[TAKE_PROFIT_AUDIT], d);
  }

  lemma FirstIteration(its: seq<Iteration>)
    requires |its| == 1 && its[0].time >= 1800.0 && its[0].succeeds(STOP_LOSS_AUDIT)
    ensures TimersAfter(its)[STOP_LOSS_AUDIT] == its[0].time && TimersAfter(its)[TAKE_PROFIT_AUDIT] == 0.0
    ensures RunTimes(TAKE_PROFIT_AUDIT, its) == []
  {
    assert its[..0] == [];
    TickTask(START, its[0], STOP_LOSS_AUDIT);
    TickTask(START, its[0], TAKE_PROFIT_AUDIT);
  }

  lemma {:induction false} StaysOnTrack(its: seq<Iteration>, d: real)
    requires its != [] && Steady(its, d) && 0.0 <= d <= 1500.0
    requires Succeeds(its, STOP_LOSS_AUDIT) && Succeeds(its, TAKE_PROFIT_AUDIT)
    ensures OnTrack(its[|its| - 1].time, its[0].time,
                    TimersAfter(its)[STOP_LOSS_AUDIT], TimersAfter(its)[TAKE_PROFIT_AUDIT], d)
  {
    if |its| == 1 {
      FirstIteration(its);
    } else {
      StaysOnTrack(its[..|its| - 1], d);
      AuditStep(its, d);
    }
  }

  lemma {:induction false} AuditGaps(its: seq<Iteration>, d: real)
    requires its != [] && Steady(its, d) && 0.0 <= d <= 1500.0
    requires Succeeds(its, STOP_LOSS_AUDIT) && Succeeds(its, TAKE_PROFIT_AUDIT)
    ensures
      var runs := RunTimes(TAKE_PROFIT_AUDIT, its);
      && GapsBelow(runs, 2100.0 + 2.0 * d)
      && (runs != [] ==> TRAIL <= runs[0] - its[0].time < TRAIL + d)
  {
    if |its| == 1 {
      FirstIteration(its);
    } else {
      var init := its[..|its| - 1];
      AuditGaps(init, d);
      StaysOnTrack(init, d);
      AuditStep(its, d);
      AppendedRun(its);
    }
  }

  /** The last iteration's audit, if any, follows the run that the timer showed before it. */
  lemma AppendedRun(its: seq<Iteration>)
    requires |its| >= 2 && Clocked(its)
    ensures
      var init, it := its[..|its| - 1], its[|its| - 1];
      var tp, runs := TimersAfter(init)[TAKE_PROFIT_AUDIT], RunTimes(TAKE_PROFIT_AUDIT, init);
      && TimerShows(runs, tp) && (runs == [] <==> tp == 0.0)
      && RunTimes(TAKE_PROFIT_AUDIT, its) ==
           if TimersAfter(its)[TAKE_PROFIT_AUDIT] != tp then runs + [it.time] else runs
  {
    var init, it := its[..|its| - 1], its[|its| - 1];
    TickTask(TimersAfter(init), it, TAKE_PROFIT_AUDIT);
    TasksArePaced(init, TAKE_PROFIT_AUDIT);
    RunsAreBounded(init, TAKE_PROFIT_AUDIT);
    assert its[|its| - 2].time < it.time;
    var runs := RunTimes(TAKE_PROFIT_AUDIT, init);
    assert runs != [] ==> runs[|runs| - 1] in runs;
  }

  /** Consecutive runs are at least 1800 s and less than 2100 + 2d apart, the first comes 300 to 300 + d after the
      start, and now the next one is not overdue. */
  ghost predicate PacedAndNotOverdue(runs: seq<real>, start: real, now: real, d: real) {
    && SpacedBy(runs, 1800.0) && GapsBelow(runs, 2100.0 + 2.0 * d)
    && (if runs == [] then now - start < 300.0
        else 300.0 <= runs[0] - start < 300.0 + d && now - runs[|runs| - 1] < 2100.0 + d)
  }

  /** For gaps of at most 1500 s the take-profit audits are paced, and at no time is the next one overdue. */
  lemma TakeProfitIsPacedAndNotStarved(its: seq<Iteration>, d: real)
    requires its != [] && Steady(its, d) && 0.0 <= d <= 1500.0
    requires Succeeds(its, STOP_LOSS_AUDIT) && Succeeds(its, TAKE_PROFIT_AUDIT)
    ensures PacedAndNotOverdue(RunTimes(TAKE_PROFIT_AUDIT, its), its[0].time, its[|its| - 1].time, d)
  {
    AuditGaps(its, d);
    AuditsAreSpaced(its);
    LastAuditIsRecent(its, d);
  }

  lemma AuditsAreSpaced(its: seq<Iteration>)
    ensures SpacedBy(RunTimes(TAKE_PROFIT_AUDIT, its), 1800.0)
  {
    TasksArePaced(its, TAKE_PROFIT_AUDIT);
  }

  lemma LastAuditIsRecent(its: seq<Iteration>, d: real)
    requires its != [] && Steady(its, d) && 0.0 <= d <= 1500.0
    requires Succeeds(its, STOP_LOSS_AUDIT) && Succeeds(its, TAKE_PROFIT_AUDIT)
    ensures
      var runs, now := RunTimes(TAKE_PROFIT_AUDIT, its), its[|its| - 1].time;
      if runs == [] then now - its[0].time < TRAIL else now - runs[|runs| - 1] < 2100.0 + d
  {
    StaysOnTrack(its, d);
    var runs, last := RunTimes(TAKE_PROFIT_AUDIT, its), TimersAfter(its);
    TimerIsLastRun(its, TAKE_PROFIT_AUDIT, runs, last[TAKE_PROFIT_AUDIT]);
    LastRunIsRecent(its[|its| - 1].time, its[0].time, last[STOP_LOSS_AUDIT], last[TAKE_PROFIT_AUDIT], d, runs);
  }

  lemma TimerIsLastRun(its: seq<Iteration>, k: nat, runs: seq<real>, timer: real)
    requires k < TASKS && Clocked(its) && runs == RunTimes(k, its) && timer == TimersAfter(its)[k]
    ensures TimerShows(runs, timer) && (runs != [] ==> timer > 0.0)
  {
    TasksArePaced(its, k);
    RunsAreBounded(its, k);
    assert runs != [] ==> runs[|runs| - 1] in runs;
  }

  lemma LastRunIsRecent(t: real, first: real, sl: real, tp: real, d: real, runs: seq<real>)
    requires OnTrack(t, first, sl, tp, d) && d >= 0.0 && TimerShows(runs, tp) && (runs != [] ==> tp > 0.0)
    ensures if runs == [] then t - first < TRAIL else t - runs[|runs| - 1] < 2100.0 + d
  {
  }

  // ---- The bound of 1500 s cannot be raised ----

  function AllSucceed(): nat -> bool { (k: nat) => true }

  /** Times by turns 300 - e and 1500 + e apart. */
  function StarvingTime(i: nat, e: real): real {
    if i == 0 then 1800.0
    else StarvingTime(i - 1, e) + if i % 2 == 1 then TRAIL - e else 1500.0 + e
  }

  function Starving(n: nat, e: real): seq<Iteration> {
    if n == 0 then [] else Starving(n - 1, e) + [Iteration(StarvingTime(n - 1, e), AllSucceed())]
  }

  lemma {:induction false} StarvingIterations(n: nat, e: real)
    ensures |Starving(n, e)| == n
    ensures forall i :: 0 <= i < n ==> Starving(n, e)[i] == Iteration(StarvingTime(i, e), AllSucceed())
  {
    if n > 0 {
      StarvingIterations(n - 1, e);
    }
  }

  lemma StarvingClock(n: nat, e: real, d: real)
    requires 0.0 < e < TRAIL && 1500.0 + e <= d
    ensures Steady(Starving(n, e), d)
  {
    StarvingIterations(n, e);
    forall i | 0 < i < n
      ensures StarvingTime(i - 1, e) < StarvingTime(i, e) <= StarvingTime(i - 1, e) + d
    {
    }
  }

  lemma StarvedStep(its: seq<Iteration>, it: Iteration)
    requires TimersAfter(its)[TAKE_PROFIT_AUDIT] == 0.0 && RunTimes(TAKE_PROFIT_AUDIT, its) == []
    requires it.succeeds(STOP_LOSS_AUDIT)
    requires
      var gap := it.time - TimersAfter(its)[STOP_LOSS_AUDIT];
      gap >= 1800.0 || gap < TRAIL
    ensures
      var sl := TimersAfter(its)[STOP_LOSS_AUDIT];
      && TimersAfter(its + [it])[STOP_LOSS_AUDIT] == (if it.time - sl >= 1800.0 then it.time else sl)
      && TimersAfter(its + [it])[TAKE_PROFIT_AUDIT] == 0.0 && RunTimes(TAKE_PROFIT_AUDIT, its + [it]) == []
  {
    NextIteration(its, it, STOP_LOSS_AUDIT);
    NextIteration(its, it, TAKE_PROFIT_AUDIT);
  }

  /** The time of the last stop-loss audit after n iterations: every other iteration runs one. */
  function StarvingAudit(n: nat, e: real): real {
    if n == 0 then 0.0 else if n % 2 == 1 then StarvingTime(n - 1, e) else StarvingTime(n - 2, e)
  }

  lemma StarvingGap(n: nat, e: real)
    requires 0.0 < e < TRAIL
    ensures
      var gap := StarvingTime(n, e) - StarvingAudit(n, e);
      && (gap >= 1800.0 || gap < TRAIL)
      && StarvingAudit(n + 1, e) == if gap >= 1800.0 then StarvingTime(n, e) else StarvingAudit(n, e)
  {
    StarvingPeriod(n, e);
  }

  /** No take-profit audit so far, and the last stop-loss audit was at the given time. */
  ghost predicate Starved(its: seq<Iteration>, audit: real) {
    && RunTimes(TAKE_PROFIT_AUDIT, its) == [] && TimersAfter(its)[TAKE_PROFIT_AUDIT] == 0.0
    && TimersAfter(its)[STOP_LOSS_AUDIT] == audit
  }

  lemma NothingRanYet()
    ensures Starved([], 0.0)
  {
  }

  lemma StarvingNext(its: seq<Iteration>, n: nat, e: real)
    requires 0.0 < e < TRAIL && Starved(its, StarvingAudit(n, e))
    ensures Starved(its + [Iteration(StarvingTime(n, e), AllSucceed())], StarvingAudit(n + 1, e))
  {
    StarvingGap(n, e);
    StarvedStep(its, Iteration(StarvingTime(n, e), AllSucceed()));
  }

  lemma {:induction false} StarvedFrom(starved: (seq<Iteration>, real) -> bool, n: nat, e: real)
    requires starved([], 0.0)
    requires forall its, i: nat :: starved(its, StarvingAudit(i, e)) ==>
               starved(its + [Iteration(StarvingTime(i, e), AllSucceed())], StarvingAudit(i + 1, e))
    ensures starved(Starving(n, e), StarvingAudit(n, e))
  {
    if n > 0 {
      StarvedFrom(starved, n - 1, e);
      assert starved(Starving(n - 1, e), StarvingAudit(n - 1, e));
    }
  }

  /** The take-profit audit is always too close to the last stop-loss audit. */
  lemma StarvingState(n: nat, e: real)
    requires 0.0 < e < TRAIL
    ensures Starved(Starving(n, e), StarvingAudit(n, e))
  {
    var starved := (its: seq<Iteration>, audit: real) => Starved(its, audit);
    NothingRanYet();
    forall its: seq<Iteration>, i: nat | starved(its, StarvingAudit(i, e))
      ensures starved(its + [Iteration(StarvingTime(i, e), AllSucceed())], StarvingAudit(i + 1, e))
    {
      StarvingNext(its, i, e);
    }
    StarvedFrom(starved, n, e);
  }

  lemma {:induction false} StarvingPeriod(i: nat, e: real)
    requires 0.0 < e < TRAIL
    ensures StarvingTime(i, e) >= 1800.0
    ensures i >= 2 ==> StarvingTime(i, e) == StarvingTime(i - 2, e) + 1800.0
    ensures i % 2 == 1 ==> StarvingTime(i, e) == StarvingTime(i - 1, e) + TRAIL - e
  {
    if i > 0 {
      StarvingPeriod(i - 1, e);
    }
  }

  /** For any larger gap there are runs of every length, all audits succeeding, without a single
      take-profit audit. */
  lemma StarvedBeyond1500(d: real, n: nat)
    requires d > 1500.0
    ensures exists its :: |its| == n && Steady(its, d)
                          && Succeeds(its, STOP_LOSS_AUDIT) && Succeeds(its, TAKE_PROFIT_AUDIT)
                          && RunTimes(TAKE_PROFIT_AUDIT, its) == []
  {
    var e := if d - 1500.0 < 150.0 then d - 1500.0 else 150.0;
    StarvingState(n, e);
    StarvingClock(n, e, d);
    StarvingIterations(n, e);
    var its := Starving(n, e);
    assert Succeeds(its, STOP_LOSS_AUDIT) && Succeeds(its, TAKE_PROFIT_AUDIT);
  }
}
