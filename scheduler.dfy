/** The background loop (PositionService.ExecuteAsync): until cancellation is
    requested, run one cycle for the current request date (fetch with retry,
    aggregate, save the snapshot; any exception is caught and logged), then
    advance the request date by exactly IntervalInSeconds and sleep only for
    whatever of that interval is still ahead of the clock. */
module Scheduler {
  import opened CivilTime
  import opened Aggregation
  import opened RetryFetch
  import opened Snapshot

  /** PositionServiceOptions. The zone named by `location` is resolved once,
      into the `toUtc` conversion the cycle is given; `outputFilePath` is the
      directory the snapshot is written to. */
  datatype Options = Options(intervalSeconds: nat, retryLimitSeconds: int, retryDelayMs: nat,
                             location: string, outputFilePath: string)

  /** What the world does during one cycle: the trade source, the clock the
      retry loop reads, whether writing the file succeeds, and the clock
      reading taken after the cycle to compute the remaining delay. */
  datatype CycleEnv = CycleEnv(source: (int, nat) -> FetchOutcome, clock: Clock, saveSucceeds: bool, nowAfter: int)

  /** How a cycle ends: a snapshot saved, or the exception that the loop caught. */
  datatype CycleOutcome =
    | Saved(positions: seq<Position>, file: SnapshotFile)
    | TradedDateOutOfRange
    | FetchTimedOut
    | AggregationFailed(error: AggregationError)
    | SaveFailed

  /** One turn of the loop: the request date it served, the traded date it
      asked for, how the cycle ended, and how long it then slept. */
  datatype Iteration = Iteration(requestDate: nat, tradedDate: nat, outcome: CycleOutcome, waitMs: nat)

  /** remaining = requestDate - UtcNow; Task.Delay only when remaining > 0. */
  function RemainingDelay(next: int, now: int): (wait: nat)
    ensures wait > 0 <==> next > now
    ensures wait > 0 ==> now + wait == next
  {
    if next > now then next - now else 0
  }

  /** How a cycle ends once the fetch has produced `r`. */
  ghost predicate CycleEndsAfterFetch(requestDate: nat, tradedDate: nat, toUtc: Instant -> Instant,
                                      render: Volume -> string, env: CycleEnv, r: FetchResult, outcome: CycleOutcome)
  {
    match r
    case TimedOut(_) => outcome == FetchTimedOut
    case Fetched(trades) =>
      var cs := Contributions(trades, toUtc);
      if !AllInRange(cs) then
        outcome.AggregationFailed? && outcome.error.at in Instants(cs) && !InRange(outcome.error.at)
      else if !env.saveSucceeds then
        outcome == SaveFailed
      else
        outcome.Saved? && IsAggregation(cs, outcome.positions)
        && IsSnapshot(tradedDate, requestDate, outcome.positions, render, outcome.file)
  }

  /** A cycle for `requestDate` ran in `env` and ended in `outcome`. */
  ghost predicate CycleRan(requestDate: nat, opts: Options, toUtc: Instant -> Instant, render: Volume -> string,
                           env: CycleEnv, outcome: CycleOutcome)
  {
    var tradedDate := TradedDate(requestDate);
    if tradedDate >= InstantLimit then outcome == TradedDateOutOfRange
    else
      exists r: FetchResult, log: seq<LogEntry> ::
        && RetryRun(env.source, env.clock, tradedDate, requestDate,
                    LimitDate(requestDate, opts.retryLimitSeconds), opts.retryDelayMs, r, log)
        && CycleEndsAfterFetch(requestDate, tradedDate, toUtc, render, env, r, outcome)
  }

  /** The body of the try block: fetch, aggregate, save. */
  method RunCycle(requestDate: nat, opts: Options, toUtc: Instant -> Instant, render: Volume -> string, env: CycleEnv)
    returns (tradedDate: nat, outcome: CycleOutcome)
    requires Advances(env.clock, opts.retryDelayMs)
    ensures tradedDate == TradedDate(requestDate)
    ensures CycleRan(requestDate, opts, toUtc, render, env, outcome)
  {
    tradedDate := TradedDate(requestDate);
    if tradedDate >= InstantLimit {
      return tradedDate, TradedDateOutOfRange;
    }
    var r, log := GetTradesWithRetry(env.source, env.clock, tradedDate, requestDate,
                                     opts.retryLimitSeconds, opts.retryDelayMs);
    if r.TimedOut? {
      outcome := FetchTimedOut;
    } else {
      var positions := GetPositions(r.trades, toUtc);
      if positions.Err? {
        outcome := AggregationFailed(positions.error);
      } else if !env.saveSucceeds {
        outcome := SaveFailed;
      } else {
        var file := SavePositionsFile(tradedDate, requestDate, positions.value, render);
        outcome := Saved(positions.value, file);
      }
    }
    assert CycleEndsAfterFetch(requestDate, tradedDate, toUtc, render, env, r, outcome);
  }

  /** The k-th turn of the loop as it must have gone: served start + k intervals,
      ran its cycle in env(k), and slept until the next request date if that
      was still ahead of the clock. */
  ghost predicate TurnRan(start: nat, opts: Options, toUtc: Instant -> Instant, render: Volume -> string,
                          env: nat -> CycleEnv, k: nat, it: Iteration)
  {
    var requestDate := start + k * (opts.intervalSeconds * MsPerSecond);
    && it.requestDate == requestDate
    && it.tradedDate == TradedDate(requestDate)
    && CycleRan(requestDate, opts, toUtc, render, env(k), it.outcome)
    && it.waitMs == RemainingDelay(requestDate + opts.intervalSeconds * MsPerSecond, env(k).nowAfter)
  }

  ghost predicate TraceRan(start: nat, opts: Options, toUtc: Instant -> Instant, render: Volume -> string,
                           env: nat -> CycleEnv, trace: seq<Iteration>)
  {
    forall k :: 0 <= k < |trace| ==> TurnRan(start, opts, toUtc, render, env, k, trace[k])
  }

  lemma TraceRanStep(start: nat, opts: Options, toUtc: Instant -> Instant, render: Volume -> string,
                     env: nat -> CycleEnv, trace: seq<Iteration>, it: Iteration)
    requires TraceRan(start, opts, toUtc, render, env, trace)
    requires TurnRan(start, opts, toUtc, render, env, |trace|, it)
    ensures TraceRan(start, opts, toUtc, render, env, trace + [it])
  {
  }

  /** The loop. Cancellation is observed at the loop guard; `cancelled(k)` is
      whether it has been requested when guard k is evaluated, and `horizon`
      is a turn by which it has been. */
  method ExecuteAsync(start: nat, opts: Options, toUtc: Instant -> Instant, render: Volume -> string,
                      env: nat -> CycleEnv, cancelled: nat -> bool, ghost horizon: nat)
    returns (trace: seq<Iteration>)
    requires cancelled(horizon)
    requires forall k: nat :: Advances(env(k).clock, opts.retryDelayMs)
    ensures |trace| <= horizon && cancelled(|trace|)
    ensures forall k :: 0 <= k < |trace| ==> !cancelled(k)
    ensures TraceRan(start, opts, toUtc, render, env, trace)
  {
    var requestDate := start;
    var k: nat := 0;
    trace := [];
    while !cancelled(k)
      invariant k == |trace| && k <= horizon
      invariant requestDate == start + k * (opts.intervalSeconds * MsPerSecond)
      invariant forall j :: 0 <= j < k ==> !cancelled(j)
      invariant TraceRan(start, opts, toUtc, render, env, trace)
      decreases horizon - k
    {
      var tradedDate, outcome := RunCycle(requestDate, opts, toUtc, render, env(k));
      var served := requestDate;
      requestDate := requestDate + opts.intervalSeconds * MsPerSecond;
      var wait := RemainingDelay(requestDate, env(k).nowAfter);
      var it := Iteration(served, tradedDate, outcome, wait);
      TraceRanStep(start, opts, toUtc, render, env, trace, it);
      trace := trace + [it];
      k := k + 1;
    }
  }

  /** The first n turns of a run that is never cancelled. What a turn does
      does not depend on cancellation, so they are the trace of a run whose
      cancellation is first seen at guard n. */
  method FirstTurns(start: nat, opts: Options, toUtc: Instant -> Instant, render: Volume -> string,
                    env: nat -> CycleEnv, n: nat)
    returns (trace: seq<Iteration>)
    requires forall k: nat :: Advances(env(k).clock, opts.retryDelayMs)
    ensures |trace| == n
    ensures TraceRan(start, opts, toUtc, render, env, trace)
  {
    trace := ExecuteAsync(start, opts, toUtc, render, env, (k: nat) => k >= n, n);
  }
}
