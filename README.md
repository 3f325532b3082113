# PowerPosition in Dafny

A Dafny model of the PowerPosition background service. On a fixed interval the service does four things:

- it fetches the next day's power trades from a trade source, retrying within a time limit;
- it aggregates the trades' hourly periods into net volume positions keyed by UTC instant;
- it writes the positions to a CSV snapshot named after the traded date and the request time;
- it schedules the next run.

The model covers the four parts of `PositionService`, one module each, with a separate module of properties for three of them:

- **`Aggregation`** (`GetPositions`): a method with the source's nested loops over a dictionary (`map<Instant, Volume>`). It is proved against the specification `IsAggregation`:
  - the output is strictly ascending by instant;
  - there is exactly one position per instant that some period lands on;
  - each volume is the sum of the volumes landing there.

  `AggregationProperties` proves these further facts:
  - the aggregation is unique;
  - the position count is bounded;
  - volume is conserved;
  - the two-trade fixture of the service's tests gives 24 positions of 2500.
- **`RetryFetch`** (`GetTradesWithRetry`): a method with the source's clock-guarded loop and a ghost warning log. It is proved against the run predicate `RetryRun`. `RetryProperties` proves:
  - the run is determined by its inputs;
  - the source is called only before the limit;
  - a success is never passed over;
  - failures are bounded;
  - the exact attempt count;
  - the fail-once fixture.
- **`Snapshot`** (the name and lines built in `SavePositionsFile`): pure functions for the name and a row, and a method for the writer loop. Lemmas show that the name and each row can be read back into the fields they encode.
- **`Scheduler`** (`ExecuteAsync`): the cycle (`RunCycle`) and the loop. The loop advances the request date by exactly one interval whatever the cycle did, and sleeps only while the next request date is ahead of the clock. `SchedulerProperties` proves properties of the resulting trace of turns.

Supporting modules:

- **`CivilTime`**: the proleptic Gregorian calendar as `DateTime` keeps it, counted in milliseconds from 0001-01-01. It includes the next-day rollover and the inverse of the day number.
- **`Formatting`**: the zero-padded `yyyyMMdd`, `yyyyMMddHHmm` and `yyyy-MM-ddTHH:mm:ssZ` patterns, with their readers.

Inputs outside the program are parameters of the model:

- Time-zone conversion: `toUtc : Instant -> Instant`, the zone of `Location` resolved once.
- Each cycle's environment: `CycleEnv`, holding:
  - the trade source, as an outcome per attempt;
  - the clock readings at the retry guards;
  - whether the file write succeeds;
  - the clock reading after the cycle.
- Cancellation: `cancelled(k)`, whether cancellation has been requested by guard k.
- Volume rendering: `render : Volume -> string`.

### Behaviour of the code that one might not expect

- **Snapshot name.** The file is named `PowerPosition_<yyyyMMdd>_<yyyyMMddHHmm>.csv` (`PositionService.cs:86`), not after the bare word "Position".
- **Number of attempts.** One might expect `floor(budget / delay) + 1` attempts when every attempt fails, counting an attempt at the limit itself. The loop guard is the strict `now < limit`, so no call is made at the limit. When each failed call and its sleep take exactly the delay, the code makes exactly `ceil((limit - start) / delay)` attempts (`RetryProperties.AttemptCountExact`). Otherwise it makes at most that many (`RetryProperties.FailureCountBound`). With the test options, and a clock that reads the request date at the first guard and moves exactly 1000 ms per failure, this is 300 attempts, not 301 (`RetryProperties.FixtureAttemptCount`).
- **Expired or zero budget.** One might expect one attempt even when the budget is zero. The code makes none if the clock has already reached the limit on entry (`RetryProperties.ExpiredLimitNoCall`).
- **Retry delay.** The `Task.Delay(delay)` in the retry loop takes no cancellation token, so cancellation does not interrupt a retry sleep.

## Model

| member | source | states |
|---|---|---|
| `CivilTime.DaysBeforeYearClosed` | PowerPosition/Services/PositionService.cs:23 | counting the days before a year one year at a time gives the Gregorian closed form 365p + p/4 - p/100 + p/400 |
| `CivilTime.MonthsFillYear` | PowerPosition/Services/PositionService.cs:23 | the twelve months' lengths add up to the length of the year, 365 or 366 |
| `CivilTime.NextDay` | PowerPosition/Services/PositionService.cs:23 | the day after a valid date is a valid date, one day number later, rolling over month and year ends and leap days |
| `CivilTime.DateOfDayNumber` | PowerPosition/Services/PositionService.cs:23 | every day number is the day number of a valid date |
| `CivilTime.DayNumberInverse` | PowerPosition/Services/PositionService.cs:23 | dates and day numbers correspond one to one |
| `CivilTime.NextDayOfDayNumber` | PowerPosition/Services/PositionService.cs:23 | advancing the day number by one advances the calendar by one day |
| `CivilTime.YearBelow10000` | PowerPosition/Services/PositionService.cs:86 | every day a DateTime holds has a year of at most four digits |
| `CivilTime.FieldsOf` | PowerPosition/Services/PositionService.cs:95 | an instant's year, month, day, hour, minute and second are in range, and the instant lies inside the second they name |
| `CivilTime.TradedDate` | PowerPosition/Services/PositionService.cs:23 | `requestDate.Date.AddDays(1)` lies after the request and at most one day later |
| `CivilTime.TradedDateIsNextDay` | PowerPosition/Services/PositionService.cs:23 | the traded date is midnight of the calendar day after the request's date |
| `Formatting.Pad` | PowerPosition/Services/PositionService.cs:86 | a padded field is all digits and at least as wide as asked |
| `Formatting.FixedField` | PowerPosition/Services/PositionService.cs:86 | a value below 10^width pads to exactly width digits, which read back as the value |
| `Formatting.CompactDateRoundTrip` | PowerPosition/Services/PositionService.cs:86 | `yyyyMMdd` of a valid date is 8 digits that read back as that date |
| `Formatting.CompactMinuteRoundTrip` | PowerPosition/Services/PositionService.cs:86 | `yyyyMMddHHmm` is 12 digits that read back as the fields with the seconds dropped |
| `Formatting.IsoSecondRoundTrip` | PowerPosition/Services/PositionService.cs:95 | `yyyy-MM-ddTHH:mm:ssZ` is 20 characters that read back as all six fields |
| `Formatting.InstantPrintable` | PowerPosition/Services/PositionService.cs:95 | every DateTime's fields fit the pattern widths |
| `Aggregation.PeriodContributions` | PowerPosition/Services/PositionService.cs:68-79 | a trade contributes exactly one entry per period |
| `Aggregation.PeriodContributionsAt` | PowerPosition/Services/PositionService.cs:66-70 | period p of a trade lands at the trade's one UTC midnight plus p - 1 hours, with its own volume |
| `Aggregation.ConsecutivePeriodsOneHourApart` | PowerPosition/Services/PositionService.cs:65-70 | consecutive periods of one trade land exactly one hour apart, with no per-period zone correction |
| `Aggregation.ContributionInAll` | PowerPosition/Services/PositionService.cs:63-70 | every period of every trade is among the contributions aggregated |
| `Aggregation.MinInstant` | PowerPosition/Services/PositionService.cs:81 | a non-empty key set has a least key |
| `Aggregation.Ordered` | PowerPosition/Services/PositionService.cs:81 | the dictionary emitted ordered by date: strictly ascending, one position per key carrying that key's volume |
| `Aggregation.OrderedAccumulation` | PowerPosition/Services/PositionService.cs:81 | ordering a dictionary that has accumulated all contributions yields their aggregation |
| `Aggregation.AccumulateStep` | PowerPosition/Services/PositionService.cs:71-78 | adding to an existing key or inserting a new key keeps every key's value equal to the sum of contributions landing on it |
| `Aggregation.GetPositions` | PowerPosition/Services/PositionService.cs:60-82 | succeeds exactly when every period instant is a DateTime; the result is then the aggregation of all periods; otherwise the error names an out-of-range period instant |
| `AggregationProperties.PositionCountBound` | PowerPosition/Services/PositionService.cs:62-81 | one position per distinct instant, so no more positions than periods |
| `AggregationProperties.DatesUnique` | PowerPosition/Services/PositionService.cs:62-81 | no two positions share an instant |
| `AggregationProperties.VolumeConservation` | PowerPosition/Services/PositionService.cs:62-81 | the positions' total volume equals the trades' total volume |
| `AggregationProperties.SameDates` | PowerPosition/Services/PositionService.cs:81 | two strictly ascending position lists over the same instants list them in the same order |
| `AggregationProperties.AggregationUnique` | PowerPosition/Services/PositionService.cs:60-82 | the aggregation of a set of periods is unique |
| `AggregationProperties.FixtureContributions` | PowerPositionTests/PositionServiceTests.cs:36-45 | the fixture's two trades contribute volumes 100(p+1) and 100(24-p) at the same 24 hourly instants |
| `AggregationProperties.TwoTradesFixture` | PowerPositionTests/PositionServiceTests.cs:36-55 | the two fixture trades aggregate to exactly 24 positions, each of volume 2500 |
| `AggregationProperties.FixtureInRange` | PowerPositionTests/PositionServiceTests.cs:35-47 | when the fixture's 24 hours are DateTime values, GetPositions succeeds on it |
| `RetryFetch.FailedAttemptsStep` | PowerPosition/Services/PositionService.cs:51-54 | a failed call before the limit adds exactly one warning for that attempt |
| `RetryFetch.GetTradesWithRetry` | PowerPosition/Services/PositionService.cs:41-58 | the loop's result and warning log are the run its source, clock and limit determine; returned trades are those of the first call before the limit that succeeds, and a timeout names the request date and happens only when every call before the limit would fail |
| `RetryProperties.ReadingLowerBound` | PowerPosition/Services/PositionService.cs:54 | after k failures the clock has moved on by at least k delays |
| `RetryProperties.RetryRunUnique` | PowerPosition/Services/PositionService.cs:45-57 | the source, the clock and the limit determine the result and the log |
| `RetryProperties.FailuresWithinRun` | PowerPosition/Services/PositionService.cs:45-56 | no run of failures before the limit is longer than a run's failures |
| `RetryProperties.CallsBeforeLimit` | PowerPosition/Services/PositionService.cs:45-49 | the source is called only at guards that read a time before the limit |
| `RetryProperties.ExpiredLimitNoCall` | PowerPosition/Services/PositionService.cs:44-57 | when the limit has passed on entry, the source is never called and the fetch times out |
| `RetryProperties.SuccessNotMissed` | PowerPosition/Services/PositionService.cs:45-49 | the first success before the limit is returned unchanged, and every earlier call failed |
| `RetryProperties.FailureCountBound` | PowerPosition/Services/PositionService.cs:43-56 | at most ceil((limit - start) / delay) failed attempts fit before the limit |
| `RetryProperties.AllFailuresTimeOut` | PowerPosition/Services/PositionService.cs:45-57 | a source that always fails ends in a timeout, at a guard at or after the limit |
| `RetryProperties.AttemptCountExact` | PowerPosition/Services/PositionService.cs:43-56 | with sleeps of exactly the delay and a failing source, the attempts are exactly ceil((limit - start) / delay) |
| `RetryProperties.FailOnceThenSucceed` | PowerPosition/Services/PositionService.cs:45-55 | one failure and then a success: the second call's trades, one warning, two calls |
| `RetryProperties.RetryFixture` | PowerPositionTests/PositionServiceTests.cs:58-83 | the test's fail-once source returns the empty trade list after one warning |
| `RetryProperties.FixtureAttemptCount` | PowerPositionTests/PositionServiceTests.cs:20-22 | with the test options, and a clock that reads the request date at the first guard and moves exactly 1000 ms per failure, a failing source is called exactly 300 times |
| `Snapshot.SavePositionsFile` | PowerPosition/Services/PositionService.cs:84-97 | the file is named after the traded date and request minute, and holds the header and then one row per position, in order |
| `Snapshot.SnapshotNameLayout` | PowerPosition/Services/PositionService.cs:86 | the name is 39 characters: prefix, traded date, `_`, request minute, `.csv`; the digits read back as the traded date and the request minute |
| `Snapshot.MinuteOfFields` | PowerPosition/Services/PositionService.cs:86 | an instant's minute is determined by its fields down to the minute |
| `Snapshot.SnapshotNameDistinguishes` | PowerPosition/Services/PositionService.cs:86 | equal names mean the same traded day and the same request minute |
| `Snapshot.RowLayout` | PowerPosition/Services/PositionService.cs:95 | a row is the 20-character timestamp, `;`, the rendered volume; the timestamp reads back as the instant's fields |
| `Snapshot.SecondOfFields` | PowerPosition/Services/PositionService.cs:95 | an instant's second is determined by its fields |
| `Snapshot.RowsDistinct` | PowerPosition/Services/PositionService.cs:95 | positions in different seconds give different rows |
| `Scheduler.RemainingDelay` | PowerPosition/Services/PositionService.cs:33-37 | a sleep happens exactly when the next request date is ahead of the clock, and ends on it |
| `Scheduler.RunCycle` | PowerPosition/Services/PositionService.cs:21-31 | a cycle asks for the next day's trades; it ends saved, or in the one exception its fetch, aggregation or write raised |
| `Scheduler.TraceRanStep` | PowerPosition/Services/PositionService.cs:19-38 | appending a turn that ran keeps a trace of turns that ran |
| `Scheduler.ExecuteAsync` | PowerPosition/Services/PositionService.cs:16-39 | turns run until the first guard that sees cancellation; turn k serves start + k intervals and sleeps only as long as needed |
| `Scheduler.FirstTurns` | PowerPosition/Services/PositionService.cs:19-39 | a run that is never cancelled has, for every n, a first n turns that each served start + k intervals and ran their cycle |
| `SchedulerProperties.SavedCycle` | PowerPosition/Services/PositionService.cs:23-26 | a saved cycle wrote the snapshot of its positions, and those positions are the aggregation of exactly the trades its fetch run returned |
| `SchedulerProperties.ExpiredCycleTimesOut` | PowerPosition/Services/PositionService.cs:24 | a cycle whose fetch limit has already passed ends in a timeout, and every run of its fetch makes no call and logs nothing |
| `SchedulerProperties.TurnSchedule` | PowerPosition/Services/PositionService.cs:18-37 | turn k's request date, traded date, cycle and sleep |
| `SchedulerProperties.TradedDayFollowsRequest` | PowerPosition/Services/PositionService.cs:23 | each turn asks for the calendar day after its request date |
| `SchedulerProperties.SavedSnapshotName` | PowerPosition/Services/PositionService.cs:26 | a saved snapshot's name reads back as the day after the request and the request minute |
| `SchedulerProperties.RequestDatesProgress` | PowerPosition/Services/PositionService.cs:32 | request dates advance by exactly one interval per turn, whether or not the cycle failed |
| `SchedulerProperties.ScheduleIndependentOfCycles` | PowerPosition/Services/PositionService.cs:21-32 | what the cycles did has no effect on the request dates served |
| `SchedulerProperties.LaterRequest` | PowerPosition/Services/PositionService.cs:32 | a later turn's request date is at least one interval later |
| `SchedulerProperties.SleepsUntilNextRequest` | PowerPosition/Services/PositionService.cs:33-37 | a turn sleeps until the next request date exactly when that date is still ahead |
| `SchedulerProperties.DistinctMinutesDistinctNames` | PowerPosition/Services/PositionService.cs:86 | requests in different minutes get different snapshot names |
| `SchedulerProperties.SnapshotsNeverOverwritten` | PowerPosition/Services/PositionService.cs:32 | with an interval of at least 60 seconds, no two turns save under the same name |
| `SchedulerProperties.FixtureSchedule` | PowerPositionTests/PositionServiceTests.cs:18-25 | under the test options the turns are one minute apart and each fetch may retry for five minutes |

## Left out

- Time-zone lookup and DST rules. `FindSystemTimeZoneById` and `ConvertTimeToUtc` are library calls. Their effect is the parameter `toUtc`, and their exceptions (an unknown zone, an invalid local time) are not modelled.
- I/O:
  - Creating the output directory and opening, writing and flushing the file are not modelled.
  - A failed write is the outcome `SaveFailed`.
  - A partly written file is not modelled.
  - `Path.Combine` with `OutputFilePath` is not modelled; only the file name is.
- Volumes are exact integers, so `double` addition and its rounding are not modelled. How a volume is rendered (culture, float format) is the parameter `render`.
- The timestamp pattern is modelled with `:` as its time separator. This is what the invariant culture prints; other cultures are not modelled.
- Real time, `Task.Delay` and async scheduling are replaced by explicit clock readings. Each retry sleep is assumed to move the clock on by at least the delay and by at least 1 ms (`Advances`). The clock readings of different cycles are not required to be consistent with one another.
- Cancellation during the inter-cycle `Task.Delay` ends the service with a `TaskCanceledException`. The model produces the same trace as cancellation seen at the next guard.
- Logging is modelled only as the ghost warning log of the retry loop. The error log of a failed cycle and the information log of a saved file are not modelled.
- `DateTime` range limits:
  - `requestDate += interval` overflowing past year 9999, outside the `try`, is not modelled; request dates are unbounded.
  - `AddSeconds` overflowing in the fetch limit is not modelled.
  - `AddDays(1)` at the last day is the outcome `TradedDateOutOfRange`.
  - `AddHours` out of range is the error of `GetPositions`.
- Negative option values:
  - `IntervalInSeconds` and `RetryDelayInMilliseconds` are natural numbers in `Options`.
  - A retry delay below −1 makes `Task.Delay` throw inside the `catch`, which fails the cycle. A delay of −1 waits forever, so the first failed call hangs the loop. Neither is modelled.
  - `RetryLimitInSeconds` may be negative.
- Sub-millisecond time: instants are whole milliseconds, while `DateTime` counts 100 ns ticks.
- `Program.cs` (host bootstrapping), `PowerServiceWrapper.cs` (a pass-through to the trade source, modelled as the source parameter) and the constructor's null checks are not part of this model.
- `Scheduler.ExecuteAsync`: a run that is never cancelled, the service's normal case, is covered through its finite prefixes (`Scheduler.FirstTurns`). A loop without a bound cannot be proved to terminate, so the method requires a turn `horizon` by which cancellation has been seen. What a turn does does not depend on cancellation, so the first n turns of any run are the trace of a run cancelled at guard n.
- `Scheduler.RemainingDelay`: `Task.Delay` throws `ArgumentOutOfRangeException` for a remaining delay above 4294967294 ms (about 49.7 days). It throws outside the `try`, so the service ends. This can only happen when `IntervalInSeconds` exceeds about 4.29 million. The model sleeps for any natural number of milliseconds.
- `RetryFetch.GetTradesWithRetry`: the exception that a failed call threw is not recorded. A failure is only `Failure`, and the warning records the attempt number and the delay.
