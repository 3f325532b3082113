/** What the loop guarantees over its turns: the request dates form an exact
    arithmetic progression whatever the cycles did, each cycle asks for the
    trades of the day after its request, a saved snapshot is named after that
    day and the request minute, and with an interval of at least a minute no
    snapshot name is used twice. */
module SchedulerProperties {
  import opened CivilTime
  import opened Formatting
  import opened Aggregation
  import opened RetryFetch
  import opened RetryProperties
  import opened Snapshot
  import opened Scheduler

  /** What a saved cycle wrote: the snapshot of an aggregation of the fetched trades. */
  lemma SavedCycle(requestDate: nat, opts: Options, toUtc: Instant -> Instant, render: Volume -> string,
                   env: CycleEnv, outcome: CycleOutcome)
    requires CycleRan(requestDate, opts, toUtc, render, env, outcome)
    requires outcome.Saved?
    ensures TradedDate(requestDate) < InstantLimit && env.saveSucceeds
    ensures IsSnapshot(TradedDate(requestDate), requestDate, outcome.positions, render, outcome.file)
    ensures exists trades, log ::
      && RetryRun(env.source, env.clock, TradedDate(requestDate), requestDate,
                  LimitDate(requestDate, opts.retryLimitSeconds), opts.retryDelayMs, Fetched(trades), log)
      && IsAggregation(Contributions(trades, toUtc), outcome.positions)
  {
    var tradedDate := TradedDate(requestDate);
    var r, log :| RetryRun(env.source, env.clock, tradedDate, requestDate,
                           LimitDate(requestDate, opts.retryLimitSeconds), opts.retryDelayMs, r, log)
                  && CycleEndsAfterFetch(requestDate, tradedDate, toUtc, render, env, r, outcome);
    assert r == Fetched(r.trades);
    assert IsAggregation(Contributions(r.trades, toUtc), outcome.positions);
  }

  /** A cycle whose fetch limit had passed when it started never calls the
      source: every run of its fetch makes no call and logs nothing, and the
      cycle ends in a timeout. */
  lemma ExpiredCycleTimesOut(requestDate: nat, opts: Options, toUtc: Instant -> Instant, render: Volume -> string,
                             env: CycleEnv, outcome: CycleOutcome)
    requires CycleRan(requestDate, opts, toUtc, render, env, outcome)
    requires env.clock.start >= LimitDate(requestDate, opts.retryLimitSeconds)
    ensures outcome == FetchTimedOut || outcome == TradedDateOutOfRange
    ensures forall r, log ::
      RetryRun(env.source, env.clock, TradedDate(requestDate), requestDate,
               LimitDate(requestDate, opts.retryLimitSeconds), opts.retryDelayMs, r, log)
      ==> SourceCalls(r, log) == 0 && log == [] && r == TimedOut(requestDate)
  {
    forall r, log | RetryRun(env.source, env.clock, TradedDate(requestDate), requestDate,
                             LimitDate(requestDate, opts.retryLimitSeconds), opts.retryDelayMs, r, log)
      ensures SourceCalls(r, log) == 0 && log == [] && r == TimedOut(requestDate)
    {
      ExpiredLimitNoCall(env.source, env.clock, TradedDate(requestDate), requestDate,
                         LimitDate(requestDate, opts.retryLimitSeconds), opts.retryDelayMs, r, log);
    }
    var tradedDate := TradedDate(requestDate);
    if tradedDate < InstantLimit {
      var r, log :| RetryRun(env.source, env.clock, tradedDate, requestDate,
                             LimitDate(requestDate, opts.retryLimitSeconds), opts.retryDelayMs, r, log)
                    && CycleEndsAfterFetch(requestDate, tradedDate, toUtc, render, env, r, outcome);
      ExpiredLimitNoCall(env.source, env.clock, tradedDate, requestDate,
                         LimitDate(requestDate, opts.retryLimitSeconds), opts.retryDelayMs, r, log);
    }
  }

  /** The schedule of turn k: its request date, traded date and sleep. */
  lemma TurnSchedule(start: nat, opts: Options, toUtc: Instant -> Instant, render: Volume -> string,
                     env: nat -> CycleEnv, trace: seq<Iteration>, k: nat)
    requires TraceRan(start, opts, toUtc, render, env, trace) && k < |trace|
    ensures trace[k].requestDate == start + k * (opts.intervalSeconds * MsPerSecond)
    ensures trace[k].tradedDate == TradedDate(trace[k].requestDate)
    ensures trace[k].waitMs == RemainingDelay(trace[k].requestDate + opts.intervalSeconds * MsPerSecond, env(k).nowAfter)
    ensures CycleRan(trace[k].requestDate, opts, toUtc, render, env(k), trace[k].outcome)
  {
    assert TurnRan(start, opts, toUtc, render, env, k, trace[k]);
  }

  /** Turn k asks for the trades of the calendar day after its request date. */
  lemma TradedDayFollowsRequest(start: nat, opts: Options, toUtc: Instant -> Instant, render: Volume -> string,
                                env: nat -> CycleEnv, trace: seq<Iteration>, k: nat)
    requires TraceRan(start, opts, toUtc, render, env, trace) && k < |trace|
    ensures FieldsOf(trace[k].tradedDate) == DateTimeFields(NextDay(FieldsOf(trace[k].requestDate).date), 0, 0, 0)
  {
    TurnSchedule(start, opts, toUtc, render, env, trace, k);
    TradedDateIsNextDay(trace[k].requestDate);
  }

  /** The snapshot of a saved turn is named after the day after the request
      and after the request time to the minute. */
  lemma SavedSnapshotName(start: nat, opts: Options, toUtc: Instant -> Instant, render: Volume -> string,
                          env: nat -> CycleEnv, trace: seq<Iteration>, k: nat)
    requires TraceRan(start, opts, toUtc, render, env, trace) && k < |trace|
    requires trace[k].outcome.Saved?
    ensures var name := trace[k].outcome.file.name;
      && |name| == 39 && name[..14] == "PowerPosition_" && name[35..] == ".csv"
      && ParseCompactDate(name[14..22]) == NextDay(FieldsOf(trace[k].requestDate).date)
      && ParseCompactMinute(name[23..35]) == FieldsOf(trace[k].requestDate).(second := 0)
  {
    var it := trace[k];
    TurnSchedule(start, opts, toUtc, render, env, trace, k);
    SavedCycle(it.requestDate, opts, toUtc, render, env(k), it.outcome);
    TradedDateIsNextDay(it.requestDate);
    SnapshotNameLayout(it.tradedDate, it.requestDate);
  }

  /** Turn k serves start + k intervals, whatever earlier cycles did. */
  lemma {:induction false} RequestDatesProgress(start: nat, opts: Options, toUtc: Instant -> Instant,
                                                render: Volume -> string, env: nat -> CycleEnv,
                                                trace: seq<Iteration>, j: nat, k: nat)
    requires TraceRan(start, opts, toUtc, render, env, trace) && j <= k < |trace|
    ensures trace[k].requestDate - trace[j].requestDate == (k - j) * (opts.intervalSeconds * MsPerSecond)
  {
    TurnSchedule(start, opts, toUtc, render, env, trace, j);
    TurnSchedule(start, opts, toUtc, render, env, trace, k);
    var step := opts.intervalSeconds * MsPerSecond;
    assert k * step - j * step == (k - j) * step;
  }

  /** Two runs from the same start with the same options serve the same
      request dates, however differently their cycles went. */
  lemma ScheduleIndependentOfCycles(start: nat, opts: Options, toUtc: Instant -> Instant, render: Volume -> string,
                                    env1: nat -> CycleEnv, trace1: seq<Iteration>,
                                    env2: nat -> CycleEnv, trace2: seq<Iteration>, k: nat)
    requires TraceRan(start, opts, toUtc, render, env1, trace1) && k < |trace1|
    requires TraceRan(start, opts, toUtc, render, env2, trace2) && k < |trace2|
    ensures trace1[k].requestDate == trace2[k].requestDate && trace1[k].tradedDate == trace2[k].tradedDate
  {
    TurnSchedule(start, opts, toUtc, render, env1, trace1, k);
    TurnSchedule(start, opts, toUtc, render, env2, trace2, k);
  }

  /** A turn sleeps exactly until the next request date when that is still
      ahead of the clock, and not at all otherwise. */
  lemma SleepsUntilNextRequest(start: nat, opts: Options, toUtc: Instant -> Instant, render: Volume -> string,
                               env: nat -> CycleEnv, trace: seq<Iteration>, k: nat)
    requires TraceRan(start, opts, toUtc, render, env, trace) && k < |trace|
    ensures var next := trace[k].requestDate + opts.intervalSeconds * MsPerSecond;
      && (trace[k].waitMs > 0 <==> env(k).nowAfter < next)
      && (trace[k].waitMs > 0 ==> env(k).nowAfter + trace[k].waitMs == next)
  {
    TurnSchedule(start, opts, toUtc, render, env, trace, k);
  }

  /** A later turn serves a request date at least one interval later. */
  lemma LaterRequest(start: nat, opts: Options, toUtc: Instant -> Instant, render: Volume -> string,
                     env: nat -> CycleEnv, trace: seq<Iteration>, j: nat, k: nat)
    requires TraceRan(start, opts, toUtc, render, env, trace) && j < k < |trace|
    ensures trace[k].requestDate >= trace[j].requestDate + opts.intervalSeconds * MsPerSecond
  {
    RequestDatesProgress(start, opts, toUtc, render, env, trace, j, k);
    AtLeastOneStep(k - j, opts.intervalSeconds * MsPerSecond);
  }

  lemma AtLeastOneStep(n: nat, step: nat)
    requires n >= 1
    ensures n * step >= step
  {
  }

  /** A request a minute or more later falls in a later minute. */
  lemma LaterMinute(x: nat, y: nat)
    requires y >= x + MsPerMinute
    ensures y / MsPerMinute > x / MsPerMinute
  {
  }

  /** Requests in different minutes get different snapshot names. */
  lemma DistinctMinutesDistinctNames(traded1: Instant, request1: Instant, traded2: Instant, request2: Instant)
    requires request1 / MsPerMinute != request2 / MsPerMinute
    ensures SnapshotName(traded1, request1) != SnapshotName(traded2, request2)
  {
    if SnapshotName(traded1, request1) == SnapshotName(traded2, request2) {
      SnapshotNameDistinguishes(traded1, request1, traded2, request2);
    }
  }

  /** The saved outcome of turn k is named after its traded date and request date. */
  lemma SavedTurnName(start: nat, opts: Options, toUtc: Instant -> Instant, render: Volume -> string,
                      env: nat -> CycleEnv, trace: seq<Iteration>, k: nat)
    requires TraceRan(start, opts, toUtc, render, env, trace) && k < |trace|
    requires trace[k].outcome.Saved?
    ensures trace[k].requestDate < trace[k].tradedDate < InstantLimit
    ensures trace[k].outcome.file.name == SnapshotName(trace[k].tradedDate, trace[k].requestDate)
  {
    TurnSchedule(start, opts, toUtc, render, env, trace, k);
    SavedCycle(trace[k].requestDate, opts, toUtc, render, env(k), trace[k].outcome);
  }

  /** With an interval of at least one minute, no two turns save snapshots
      under the same name, so no snapshot overwrites another. */
  lemma SnapshotsNeverOverwritten(start: nat, opts: Options, toUtc: Instant -> Instant, render: Volume -> string,
                                  env: nat -> CycleEnv, trace: seq<Iteration>, j: nat, k: nat)
    requires TraceRan(start, opts, toUtc, render, env, trace) && j < k < |trace|
    requires opts.intervalSeconds >= 60
    requires trace[j].outcome.Saved? && trace[k].outcome.Saved?
    ensures trace[j].outcome.file.name != trace[k].outcome.file.name
  {
    var a, b := trace[j], trace[k];
    SavedTurnName(start, opts, toUtc, render, env, trace, j);
    SavedTurnName(start, opts, toUtc, render, env, trace, k);
    LaterRequest(start, opts, toUtc, render, env, trace, j, k);
    LaterMinute(a.requestDate, b.requestDate);
    DistinctMinutesDistinctNames(a.tradedDate, a.requestDate, b.tradedDate, b.requestDate);
  }

  /** The options of the service's test fixture: a 60-second interval, a
      300-second retry limit and a 1000 ms retry delay. */
  function FixtureOptions(): Options {
    Options(60, 300, 1000, "Europe/Berlin", "C:\\Temp")
  }

  /** Under the fixture options consecutive turns are one minute apart, and
      each one's fetch may retry for five minutes after its request. */
  lemma FixtureSchedule(start: nat, toUtc: Instant -> Instant, render: Volume -> string,
                        env: nat -> CycleEnv, trace: seq<Iteration>, k: nat)
    requires TraceRan(start, FixtureOptions(), toUtc, render, env, trace) && k < |trace|
    ensures trace[k].requestDate == start + k * MsPerMinute
    ensures LimitDate(trace[k].requestDate, FixtureOptions().retryLimitSeconds) == trace[k].requestDate + 5 * MsPerMinute
  {
    TurnSchedule(start, FixtureOptions(), toUtc, render, env, trace, k);
  }
}
