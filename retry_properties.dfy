/** What a run of the retry loop guarantees: it is determined by its inputs,
    calls the source only before the limit, never passes over a success that
    comes before the limit, and gives up after a bounded number of failures. */
module RetryProperties {
  import opened Aggregation
  import opened RetryFetch

  lemma {:induction false} ReadingLowerBound(c: Clock, delay: nat, k: nat)
    requires Advances(c, delay)
    ensures Reading(c, k) >= c.start + k * delay
    ensures Reading(c, k) >= c.start + k
  {
    if k > 0 {
      ReadingLowerBound(c, delay, k - 1);
      assert c.gap(k - 1) >= delay && c.gap(k - 1) >= 1;
    }
  }

  lemma FailedAt(source: (int, nat) -> FetchOutcome, clock: Clock, tradedDate: int,
                 limit: int, delay: nat, log: seq<LogEntry>, i: nat)
    requires FailedAttempts(source, clock, tradedDate, limit, delay, log)
    ensures i < |log| ==> Reading(clock, i) < limit && source(tradedDate, i).Failure?
  {
  }

  /** No sequence of failed attempts is longer than the failures of a run. */
  lemma FailuresWithinRun(source: (int, nat) -> FetchOutcome, clock: Clock, tradedDate: int, requestDate: int,
                          limit: int, delay: nat, r: FetchResult, log: seq<LogEntry>, other: seq<LogEntry>)
    requires RetryRun(source, clock, tradedDate, requestDate, limit, delay, r, log)
    requires FailedAttempts(source, clock, tradedDate, limit, delay, other)
    ensures |other| <= |log|
  {
    FailedAt(source, clock, tradedDate, limit, delay, other, |log|);
  }

  /** The source, the clock and the limit determine the run completely. */
  lemma RetryRunUnique(source: (int, nat) -> FetchOutcome, clock: Clock, tradedDate: int, requestDate: int,
                       limit: int, delay: nat, r1: FetchResult, log1: seq<LogEntry>, r2: FetchResult, log2: seq<LogEntry>)
    requires RetryRun(source, clock, tradedDate, requestDate, limit, delay, r1, log1)
    requires RetryRun(source, clock, tradedDate, requestDate, limit, delay, r2, log2)
    ensures r1 == r2 && log1 == log2
  {
    FailuresWithinRun(source, clock, tradedDate, requestDate, limit, delay, r1, log1, log2);
    FailuresWithinRun(source, clock, tradedDate, requestDate, limit, delay, r2, log2, log1);
    assert forall i :: 0 <= i < |log1| ==> log1[i] == log2[i];
  }

  /** The source is called only at guards that read a time before the limit. */
  lemma CallsBeforeLimit(source: (int, nat) -> FetchOutcome, clock: Clock, tradedDate: int, requestDate: int,
                         limit: int, delay: nat, r: FetchResult, log: seq<LogEntry>, i: nat)
    requires RetryRun(source, clock, tradedDate, requestDate, limit, delay, r, log)
    requires i < SourceCalls(r, log)
    ensures Reading(clock, i) < limit
  {
    FailedAt(source, clock, tradedDate, limit, delay, log, i);
  }

  /** A limit that has already passed on entry: the source is never called and the fetch times out. */
  lemma ExpiredLimitNoCall(source: (int, nat) -> FetchOutcome, clock: Clock, tradedDate: int, requestDate: int,
                           limit: int, delay: nat, r: FetchResult, log: seq<LogEntry>)
    requires RetryRun(source, clock, tradedDate, requestDate, limit, delay, r, log)
    requires clock.start >= limit
    ensures SourceCalls(r, log) == 0 && log == [] && r == TimedOut(requestDate)
  {
    FailedAt(source, clock, tradedDate, limit, delay, log, 0);
  }

  /** A success the source offers at a guard before the limit is never passed over:
      the fetch returns the first success, and no later one. */
  lemma SuccessNotMissed(source: (int, nat) -> FetchOutcome, clock: Clock, tradedDate: int, requestDate: int,
                         limit: int, delay: nat, r: FetchResult, log: seq<LogEntry>, k: nat)
    requires RetryRun(source, clock, tradedDate, requestDate, limit, delay, r, log)
    requires Reading(clock, k) < limit && source(tradedDate, k).Success?
    ensures |log| <= k && source(tradedDate, |log|).Success? && r == Fetched(source(tradedDate, |log|).trades)
    ensures forall i :: 0 <= i < |log| ==> source(tradedDate, i).Failure?
  {
    FailedAt(source, clock, tradedDate, limit, delay, log, k);
    if |log| <= k {
      ReadingMonotone(clock, |log|, k);
    }
  }

  /** Failed attempts are bounded by the limit: each one is followed by at
      least `delay`, so at most ceil((limit - start) / delay) of them fit. */
  lemma FailureCountBound(source: (int, nat) -> FetchOutcome, clock: Clock, tradedDate: int, requestDate: int,
                          limit: int, delay: nat, r: FetchResult, log: seq<LogEntry>)
    requires Advances(clock, delay)
    requires RetryRun(source, clock, tradedDate, requestDate, limit, delay, r, log)
    ensures |log| == 0 || (|log| - 1) * delay < limit - clock.start
    ensures |log| == 0 || |log| - 1 < limit - clock.start
  {
    if |log| > 0 {
      FailedAt(source, clock, tradedDate, limit, delay, log, |log| - 1);
      ReadingLowerBound(clock, delay, |log| - 1);
    }
  }

  /** A source that always fails: the fetch ends in a timeout, having reached the limit. */
  lemma AllFailuresTimeOut(source: (int, nat) -> FetchOutcome, clock: Clock, tradedDate: int, requestDate: int,
                           limit: int, delay: nat, r: FetchResult, log: seq<LogEntry>)
    requires forall k: nat :: source(tradedDate, k).Failure?
    requires RetryRun(source, clock, tradedDate, requestDate, limit, delay, r, log)
    ensures r == TimedOut(requestDate) && Reading(clock, |log|) >= limit
  {
    assert source(tradedDate, |log|).Failure?;
  }

  lemma {:induction false} ReadingExact(c: Clock, delay: nat, k: nat)
    requires forall j: nat :: c.gap(j) == delay
    ensures Reading(c, k) == c.start + k * delay
  {
    if k > 0 {
      ReadingExact(c, delay, k - 1);
    }
  }

  /** With delays of exactly `delay` and a source that always fails, the
      number of attempts is exactly ceil((limit - start) / delay): the least n
      with start + n * delay at or past the limit. */
  lemma AttemptCountExact(source: (int, nat) -> FetchOutcome, clock: Clock, tradedDate: int, requestDate: int,
                          limit: int, delay: nat, r: FetchResult, log: seq<LogEntry>)
    requires forall j: nat :: clock.gap(j) == delay
    requires forall k: nat :: source(tradedDate, k).Failure?
    requires RetryRun(source, clock, tradedDate, requestDate, limit, delay, r, log)
    requires delay >= 1 && clock.start < limit
    ensures r == TimedOut(requestDate)
    ensures |log| >= 1 && (|log| - 1) * delay < limit - clock.start <= |log| * delay
  {
    AllFailuresTimeOut(source, clock, tradedDate, requestDate, limit, delay, r, log);
    ReadingExact(clock, delay, |log|);
    FailedAt(source, clock, tradedDate, limit, delay, log, 0);
    if |log| > 0 {
      FailedAt(source, clock, tradedDate, limit, delay, log, |log| - 1);
      ReadingExact(clock, delay, |log| - 1);
    }
  }

  /** One failure and then a success before the limit: the second call's
      trades, one warning, two calls. */
  lemma FailOnceThenSucceed(source: (int, nat) -> FetchOutcome, clock: Clock, tradedDate: int, requestDate: int,
                            limit: int, delay: nat, r: FetchResult, log: seq<LogEntry>)
    requires source(tradedDate, 0) == Failure && source(tradedDate, 1).Success?
    requires Reading(clock, 1) < limit && clock.start < limit
    requires RetryRun(source, clock, tradedDate, requestDate, limit, delay, r, log)
    ensures r == Fetched(source(tradedDate, 1).trades)
    ensures log == [RetryWarning(1, delay)] && SourceCalls(r, log) == 2
  {
    SuccessNotMissed(source, clock, tradedDate, requestDate, limit, delay, r, log, 1);
  }

  /** The retry fixture: RetryLimitInSeconds = 300 and RetryDelayInMilliseconds
      = 1000, a source that throws once and then returns no trades, and a
      clock that starts at the request date. */
  lemma RetryFixture(requestDate: int, tradedDate: int, r: FetchResult, log: seq<LogEntry>)
    requires RetryRun((d: int, k: nat) => if k == 0 then Failure else Success([]),
                      Clock(requestDate, (k: nat) => 1000), tradedDate, requestDate,
                      LimitDate(requestDate, 300), 1000, r, log)
    ensures r == Fetched([]) && log == [RetryWarning(1, 1000)]
  {
    var source := (d: int, k: nat) => if k == 0 then Failure else Success([]);
    var clock := Clock(requestDate, (k: nat) => 1000);
    assert Reading(clock, 1) == requestDate + 1000;
    FailOnceThenSucceed(source, clock, tradedDate, requestDate, LimitDate(requestDate, 300), 1000, r, log);
  }

  /** Under the fixture options (a 300-second limit and a 1000 ms delay), with a
      clock that starts at the request date and sleeps of exactly the delay, a
      source that always fails is called exactly 300 times: the guard is a
      strict comparison, so no call is made at the limit itself. */
  lemma FixtureAttemptCount(source: (int, nat) -> FetchOutcome, requestDate: int, tradedDate: int,
                            r: FetchResult, log: seq<LogEntry>)
    requires forall k: nat :: source(tradedDate, k).Failure?
    requires RetryRun(source, Clock(requestDate, (k: nat) => 1000), tradedDate, requestDate,
                      LimitDate(requestDate, 300), 1000, r, log)
    ensures r == TimedOut(requestDate) && |log| == 300
  {
    AttemptCountExact(source, Clock(requestDate, (k: nat) => 1000), tradedDate, requestDate,
                      LimitDate(requestDate, 300), 1000, r, log);
  }
}
