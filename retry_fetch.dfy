/** Bounded retry of the trade fetch (PositionService.GetTradesWithRetry):
    the trade source is called while the clock reads before
    requestDate + RetryLimitInSeconds; a failed call is logged as a warning
    and followed by a fixed delay; the first success is returned unchanged;
    once the clock reaches the limit the fetch gives up with a timeout. */
module RetryFetch {
  import opened CivilTime
  import opened Aggregation

  /** What one call of the trade source does: throws, or returns trades. */
  datatype FetchOutcome = Failure | Success(trades: seq<Trade>)

  /** The fetch returns the trades of the first successful call, or throws
      a TimeoutException naming the request date. */
  datatype FetchResult = Fetched(trades: seq<Trade>) | TimedOut(requestDate: int)

  /** "GetTradesAsync failed. Retrying in {delay} ms..." after the given (1-based) failed attempt. */
  datatype LogEntry = RetryWarning(attempt: nat, delayMs: nat)

  /** The readings of DateTime.UtcNow at successive loop guards, in milliseconds:
      `start` at the first guard, and `gap(k)` more at guard k + 1 than at guard k. */
  datatype Clock = Clock(start: int, gap: nat -> nat)

  /** The clock reading at guard k. */
  function Reading(c: Clock, k: nat): int {
    if k == 0 then c.start else Reading(c, k - 1) + c.gap(k - 1)
  }

  /** The clock never runs backwards. */
  lemma {:induction false} ReadingMonotone(c: Clock, j: nat, k: nat)
    requires j <= k
    ensures Reading(c, j) <= Reading(c, k)
    decreases k - j
  {
    if j < k {
      ReadingMonotone(c, j, k - 1);
    }
  }

  /** Between two guards lies a Task.Delay(delay), so the clock moves on by at
      least `delay`, and (time being real) by at least one millisecond. */
  ghost predicate Advances(c: Clock, delay: nat) {
    forall k: nat :: c.gap(k) >= delay && c.gap(k) >= 1
  }

  /** requestDate.AddSeconds(RetryLimitInSeconds) */
  function LimitDate(requestDate: int, retryLimitSeconds: int): int {
    requestDate + retryLimitSeconds * MsPerSecond
  }

  /** Each of the first |log| guards read a time before the limit, and the
      call after it failed and was logged once. */
  ghost predicate FailedAttempts(source: (int, nat) -> FetchOutcome, clock: Clock, tradedDate: int,
                                 limit: int, delay: nat, log: seq<LogEntry>)
  {
    forall i :: 0 <= i < |log| ==>
      Reading(clock, i) < limit && source(tradedDate, i).Failure? && log[i] == RetryWarning(i + 1, delay)
  }

  lemma FailedAttemptsStep(source: (int, nat) -> FetchOutcome, clock: Clock, tradedDate: int,
                           limit: int, delay: nat, log: seq<LogEntry>)
    requires FailedAttempts(source, clock, tradedDate, limit, delay, log)
    requires Reading(clock, |log|) < limit && source(tradedDate, |log|).Failure?
    ensures FailedAttempts(source, clock, tradedDate, limit, delay, log + [RetryWarning(|log| + 1, delay)])
  {
  }

  /** The run of the loop that the source, the clock and the limit determine:
      each of the first |log| guards read a time before the limit, the call
      after it failed and was logged once; then either the next guard read a
      time before the limit and that call succeeded with the trades returned,
      or the next guard read the limit or later and the fetch timed out. */
  ghost predicate RetryRun(source: (int, nat) -> FetchOutcome, clock: Clock, tradedDate: int,
                           requestDate: int, limit: int, delay: nat, r: FetchResult, log: seq<LogEntry>)
  {
    && FailedAttempts(source, clock, tradedDate, limit, delay, log)
    && (if Reading(clock, |log|) < limit
        then source(tradedDate, |log|).Success? && r == Fetched(source(tradedDate, |log|).trades)
        else r == TimedOut(requestDate))
  }

  /** The number of times the source is called in a run. */
  function SourceCalls(r: FetchResult, log: seq<LogEntry>): nat {
    |log| + (if r.Fetched? then 1 else 0)
  }

  /** The loop itself; attempt k asks the source for its k-th outcome. */
  method GetTradesWithRetry(source: (int, nat) -> FetchOutcome, clock: Clock, tradedDate: int,
                            requestDate: int, retryLimitSeconds: int, delay: nat)
    returns (r: FetchResult, ghost log: seq<LogEntry>)
    requires Advances(clock, delay)
    ensures RetryRun(source, clock, tradedDate, requestDate, LimitDate(requestDate, retryLimitSeconds), delay, r, log)
    ensures r.Fetched? ==>
      exists k: nat :: Reading(clock, k) < LimitDate(requestDate, retryLimitSeconds)
        && source(tradedDate, k) == Success(r.trades)
        && forall i :: 0 <= i < k ==> source(tradedDate, i).Failure?
    ensures r.TimedOut? ==>
      r.requestDate == requestDate
      && forall k: nat :: Reading(clock, k) < LimitDate(requestDate, retryLimitSeconds) ==> source(tradedDate, k).Failure?
  {
    var limit := LimitDate(requestDate, retryLimitSeconds);
    var now := clock.start;
    var attempt: nat := 0;
    log := [];
    while now < limit
      invariant now == Reading(clock, attempt) && |log| == attempt
      invariant FailedAttempts(source, clock, tradedDate, limit, delay, log)
      decreases limit - now
    {
      var outcome := source(tradedDate, attempt);
      if outcome.Success? {
        return Fetched(outcome.trades), log;
      }
      FailedAttemptsStep(source, clock, tradedDate, limit, delay, log);
      log := log + [RetryWarning(attempt + 1, delay)];
      now := now + clock.gap(attempt);
      attempt := attempt + 1;
    }
    forall k: nat | Reading(clock, k) < limit
      ensures source(tradedDate, k).Failure?
    {
      if attempt <= k {
        ReadingMonotone(clock, attempt, k);
      }
    }
    return TimedOut(requestDate), log;
  }
}
