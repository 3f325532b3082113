/** Hourly position aggregation (PositionService.GetPositions): every period
    of every trade is mapped to the UTC instant midnightUtc + (period - 1)
    hours, where midnightUtc is the trade's local date converted to UTC once;
    volumes landing on the same instant are summed in a dictionary, and the
    dictionary is emitted ordered by instant. */
module Aggregation {
  import opened CivilTime

  /** Volumes are exact integers; the source adds doubles. */
  type Volume = int

  /** PowerPosition.Position: one hour bucket and its net volume. */
  datatype Position = Position(date: Instant, volume: Volume)

  /** A period of a trade: its 1-based index within the trading day and its volume. */
  datatype TradePeriod = TradePeriod(period: int, volume: Volume)

  /** A trade as the trade source returns it; `date` is a local wall-clock value with no zone. */
  datatype Trade = Trade(date: Instant, periods: seq<TradePeriod>)

  /** What one period adds to the dictionary: an instant (not yet checked
      against the DateTime range) and a volume. */
  datatype Contribution = Contribution(at: int, volume: Volume)

  /** DateTime.AddHours throws when the result leaves the DateTime range. */
  datatype AggregationError = InstantOutOfRange(at: int)

  datatype Result<T> = Ok(value: T) | Err(error: AggregationError)

  predicate InRange(t: int) {
    0 <= t < InstantLimit
  }

  /** tradeDateUtc.AddHours(period - 1) */
  function PeriodInstant(midnightUtc: int, period: int): int {
    midnightUtc + (period - 1) * MsPerHour
  }

  /** The contributions of a run of periods, all offset from one resolved midnight. */
  function PeriodContributions(midnightUtc: int, periods: seq<TradePeriod>): (cs: seq<Contribution>)
    ensures |cs| == |periods|
  {
    if periods == [] then []
    else
      var p := periods[|periods| - 1];
      PeriodContributions(midnightUtc, periods[..|periods| - 1])
        + [Contribution(PeriodInstant(midnightUtc, p.period), p.volume)]
  }

  /** The contributions of one trade: its date is converted to UTC once, by `toUtc`. */
  function TradeContributions(t: Trade, toUtc: Instant -> Instant): seq<Contribution> {
    PeriodContributions(toUtc(t.date), t.periods)
  }

  /** The contributions of all trades, in the order the loops visit them. */
  function Contributions(trades: seq<Trade>, toUtc: Instant -> Instant): seq<Contribution> {
    if trades == [] then []
    else Contributions(trades[..|trades| - 1], toUtc) + TradeContributions(trades[|trades| - 1], toUtc)
  }

  /** The sum of the volumes that land on instant t. */
  function SumAt(cs: seq<Contribution>, t: int): Volume {
    if cs == [] then 0
    else SumAt(cs[..|cs| - 1], t) + (if cs[|cs| - 1].at == t then cs[|cs| - 1].volume else 0)
  }

  /** The sum of the volumes that land on any instant of s. */
  function SumIn(cs: seq<Contribution>, s: set<int>): Volume {
    if cs == [] then 0
    else SumIn(cs[..|cs| - 1], s) + (if cs[|cs| - 1].at in s then cs[|cs| - 1].volume else 0)
  }

  function Total(cs: seq<Contribution>): Volume {
    if cs == [] then 0 else Total(cs[..|cs| - 1]) + cs[|cs| - 1].volume
  }

  function TotalVolume(ps: seq<Position>): Volume {
    if ps == [] then 0 else TotalVolume(ps[..|ps| - 1]) + ps[|ps| - 1].volume
  }

  function Instants(cs: seq<Contribution>): set<int> {
    set c | c in cs :: c.at
  }

  function Dates(ps: seq<Position>): set<int> {
    set i | 0 <= i < |ps| :: ps[i].date as int
  }

  predicate AllInRange(cs: seq<Contribution>) {
    forall c :: c in cs ==> InRange(c.at)
  }

  predicate StrictlyAscending(ps: seq<Position>) {
    forall i, j :: 0 <= i < j < |ps| ==> ps[i].date < ps[j].date
  }

  /** ps is the aggregation of cs: ordered by instant, one position per
      instant that some contribution lands on, and each position's volume is
      the sum of the volumes landing there. */
  ghost predicate IsAggregation(cs: seq<Contribution>, ps: seq<Position>) {
    && StrictlyAscending(ps)
    && Dates(ps) == Instants(cs)
    && (forall i :: 0 <= i < |ps| ==> ps[i].volume == SumAt(cs, ps[i].date))
  }

  predicate IsLeast(k: Instant, keys: set<Instant>) {
    k in keys && forall j :: j in keys ==> k <= j
  }

  lemma {:induction false} MinExists(keys: set<Instant>)
    requires keys != {}
    ensures exists k :: IsLeast(k, keys)
    decreases |keys|
  {
    var x :| x in keys;
    if keys == {x} {
      assert IsLeast(x, keys);
    } else {
      var rest := keys - {x};
      MinExists(rest);
      var k :| IsLeast(k, rest);
      assert forall j :: j in keys ==> j == x || j in rest;
      if x < k {
        assert IsLeast(x, keys);
      } else {
        assert IsLeast(k, keys);
      }
    }
  }

  /** The earliest instant of a non-empty set. */
  function MinInstant(keys: set<Instant>): (k: Instant)
    requires keys != {}
    ensures k in keys && forall j :: j in keys ==> k <= j
  {
    MinExists(keys);
    var k :| IsLeast(k, keys);
    k
  }

  lemma MapRemoveOne(m: map<Instant, Volume>, k: Instant)
    requires k in m
    ensures (m - {k}).Keys == m.Keys - {k}
    ensures |m - {k}| == |m| - 1
  {
    assert (m - {k}).Keys == m.Keys - {k};
    assert |m.Keys - {k}| == |m.Keys| - 1;
  }

  /** Putting an earlier position in front of an ascending run keeps it ascending. */
  lemma PrependEarliest(p: Position, tail: seq<Position>)
    requires StrictlyAscending(tail)
    requires forall i :: 0 <= i < |tail| ==> p.date < tail[i].date
    ensures StrictlyAscending([p] + tail)
    ensures Dates([p] + tail) == {p.date as int} + Dates(tail)
  {
    var ps := [p] + tail;
    assert forall i :: 1 <= i < |ps| ==> ps[i] == tail[i - 1];
    forall x | x in Dates(ps) ensures x in {p.date as int} + Dates(tail) {
      var i :| 0 <= i < |ps| && ps[i].date as int == x;
      if i > 0 {
        assert tail[i - 1].date as int == x;
      }
    }
    forall x | x in {p.date as int} + Dates(tail) ensures x in Dates(ps) {
      if x == p.date as int {
        assert ps[0].date as int == x;
      } else {
        var i :| 0 <= i < |tail| && tail[i].date as int == x;
        assert ps[i + 1].date as int == x;
      }
    }
  }

  /** The ordering of a dictionary: its entries as positions, earliest first. */
  ghost predicate OrdersMap(m: map<Instant, Volume>, ps: seq<Position>) {
    && StrictlyAscending(ps)
    && |ps| == |m|
    && Dates(ps) == m.Keys
    && (forall i :: 0 <= i < |ps| ==> ps[i].date in m && ps[i].volume == m[ps[i].date])
  }

  lemma OrderedCons(m: map<Instant, Volume>, k: Instant, tail: seq<Position>)
    requires k in m && forall j :: j in m ==> k <= j
    requires OrdersMap(m - {k}, tail)
    ensures OrdersMap(m, [Position(k, m[k])] + tail)
  {
    MapRemoveOne(m, k);
    var p := Position(k, m[k]);
    var ps := [p] + tail;
    forall i | 0 <= i < |tail| ensures p.date < tail[i].date {
      assert tail[i].date in m - {k};
    }
    PrependEarliest(p, tail);
    assert StrictlyAscending(ps);
    assert |ps| == |m|;
    assert Dates(ps) == m.Keys;
    ConsEntries(m, k, tail);
  }

  /** Putting the least entry in front of an ordering of the rest lists only entries of m. */
  lemma ConsEntries(m: map<Instant, Volume>, k: Instant, tail: seq<Position>)
    requires k in m
    requires OrdersMap(m - {k}, tail)
    ensures var ps := [Position(k, m[k])] + tail;
      forall i :: 0 <= i < |ps| ==> ps[i].date in m && ps[i].volume == m[ps[i].date]
  {
    var ps := [Position(k, m[k])] + tail;
    forall i | 0 <= i < |ps| ensures ps[i].date in m && ps[i].volume == m[ps[i].date] {
      if i > 0 {
        assert ps[i] == tail[i - 1];
      }
    }
  }

  /** positions.Select(v => new Position(v.Key, v.Value)).OrderBy(v => v.Date) */
  function Ordered(m: map<Instant, Volume>): (ps: seq<Position>)
    ensures OrdersMap(m, ps)
    decreases |m|
  {
    if |m| == 0 then
      assert m.Keys == {};
      []
    else
      assert m.Keys != {};
      var k := MinInstant(m.Keys);
      MapRemoveOne(m, k);
      var tail := Ordered(m - {k});
      OrderedCons(m, k, tail);
      [Position(k, m[k])] + tail
  }

  lemma InstantsAppend(cs: seq<Contribution>, c: Contribution)
    ensures Instants(cs + [c]) == Instants(cs) + {c.at}
  {
    assert forall x :: x in cs + [c] <==> x in cs || x == c;
  }

  lemma {:induction false} SumAtAbsent(cs: seq<Contribution>, t: int)
    requires t !in Instants(cs)
    ensures SumAt(cs, t) == 0
  {
    if cs != [] {
      var init := cs[..|cs| - 1];
      assert forall c :: c in init ==> c in cs;
      SumAtAbsent(init, t);
    }
  }

  lemma SumAtAppend(cs: seq<Contribution>, c: Contribution, t: int)
    ensures SumAt(cs + [c], t) == SumAt(cs, t) + (if c.at == t then c.volume else 0)
  {
    assert (cs + [c])[..|cs|] == cs;
  }

  lemma {:induction false} ContributionsOfTrade(trades: seq<Trade>, toUtc: Instant -> Instant, i: nat)
    requires i < |trades|
    ensures Contributions(trades[..i + 1], toUtc) == Contributions(trades[..i], toUtc) + TradeContributions(trades[i], toUtc)
  {
    assert trades[..i + 1][..i] == trades[..i];
  }

  /** Each period's contribution is the trade's one UTC midnight plus a pure
      hour offset, with no per-period zone correction. */
  lemma {:induction false} PeriodContributionsAt(midnightUtc: int, periods: seq<TradePeriod>, j: nat)
    requires j < |periods|
    ensures |PeriodContributions(midnightUtc, periods)| == |periods|
    ensures PeriodContributions(midnightUtc, periods)[j]
            == Contribution(midnightUtc + (periods[j].period - 1) * MsPerHour, periods[j].volume)
    decreases |periods|
  {
    var n := |periods|;
    var init := periods[..n - 1];
    if j < n - 1 {
      PeriodContributionsAt(midnightUtc, init, j);
    } else if n > 1 {
      PeriodContributionsAt(midnightUtc, init, 0);
    }
  }

  /** Periods p and p + 1 of one trade are exactly one hour apart. */
  lemma ConsecutivePeriodsOneHourApart(t: Trade, toUtc: Instant -> Instant, j: nat)
    requires j + 1 < |t.periods| && t.periods[j + 1].period == t.periods[j].period + 1
    ensures var cs := TradeContributions(t, toUtc);
      |cs| == |t.periods| && cs[j + 1].at == cs[j].at + MsPerHour
  {
    PeriodContributionsAt(toUtc(t.date), t.periods, j);
    PeriodContributionsAt(toUtc(t.date), t.periods, j + 1);
  }

  /** The contribution of period j of trade i is among the contributions of all trades. */
  lemma {:induction false} ContributionInAll(trades: seq<Trade>, toUtc: Instant -> Instant, i: nat, j: nat)
    requires i < |trades| && j < |trades[i].periods|
    ensures TradeContributions(trades[i], toUtc)[j] in Contributions(trades, toUtc)
    decreases |trades|
  {
    PeriodContributionsAt(toUtc(trades[i].date), trades[i].periods, j);
    var n := |trades|;
    if i < n - 1 {
      ContributionInAll(trades[..n - 1], toUtc, i, j);
    }
  }

  /** The dictionary holds exactly the instants of the contributions seen so
      far, each with the sum of the volumes that landed on it. */
  ghost predicate Accumulates(positions: map<Instant, Volume>, done: seq<Contribution>) {
    && (forall t: int :: t in positions <==> t in Instants(done))
    && (forall t :: t in positions ==> positions[t] == SumAt(done, t))
  }

  /** One dictionary update: add to an existing key, or insert a new one. */
  function AddVolume(positions: map<Instant, Volume>, at: Instant, volume: Volume): map<Instant, Volume> {
    if at in positions then positions[at := positions[at] + volume]
    else positions[at := volume]
  }

  lemma AccumulateStep(positions: map<Instant, Volume>, done: seq<Contribution>, at: Instant, volume: Volume)
    requires Accumulates(positions, done)
    ensures Accumulates(AddVolume(positions, at, volume), done + [Contribution(at, volume)])
  {
    var c := Contribution(at, volume);
    InstantsAppend(done, c);
    if at !in positions {
      SumAtAbsent(done, at);
    }
    forall t ensures SumAt(done + [c], t) == SumAt(done, t) + (if at == t then volume else 0) {
      SumAtAppend(done, c, t);
    }
  }

  lemma RangeStep(done: seq<Contribution>, c: Contribution)
    requires AllInRange(done) && InRange(c.at)
    ensures AllInRange(done + [c])
  {
  }

  lemma PeriodContributionsStep(midnightUtc: int, periods: seq<TradePeriod>, j: nat)
    requires j < |periods|
    ensures PeriodContributions(midnightUtc, periods[..j + 1])
            == PeriodContributions(midnightUtc, periods[..j])
               + [Contribution(PeriodInstant(midnightUtc, periods[j].period), periods[j].volume)]
  {
    assert periods[..j + 1][..j] == periods[..j];
  }

  /** One turn of the inner loop keeps its invariants. */
  lemma PeriodStep(positions: map<Instant, Volume>, done: seq<Contribution>, before: seq<Contribution>,
                   midnightUtc: int, periods: seq<TradePeriod>, j: nat)
    requires j < |periods| && InRange(PeriodInstant(midnightUtc, periods[j].period))
    requires done == before + PeriodContributions(midnightUtc, periods[..j])
    requires AllInRange(done) && Accumulates(positions, done)
    ensures var at, volume := PeriodInstant(midnightUtc, periods[j].period), periods[j].volume;
      var next := done + [Contribution(at, volume)];
      && next == before + PeriodContributions(midnightUtc, periods[..j + 1])
      && AllInRange(next)
      && Accumulates(AddVolume(positions, at, volume), next)
  {
    var at, volume := PeriodInstant(midnightUtc, periods[j].period), periods[j].volume;
    AccumulateStep(positions, done, at, volume);
    RangeStep(done, Contribution(at, volume));
    PeriodContributionsStep(midnightUtc, periods, j);
  }

  /** A period whose instant leaves the DateTime range makes the whole input out of range. */
  lemma OutOfRangeWitness(trades: seq<Trade>, toUtc: Instant -> Instant, i: nat, j: nat)
    requires i < |trades| && j < |trades[i].periods|
    requires !InRange(PeriodInstant(toUtc(trades[i].date), trades[i].periods[j].period))
    ensures var at := PeriodInstant(toUtc(trades[i].date), trades[i].periods[j].period);
      at in Instants(Contributions(trades, toUtc)) && !AllInRange(Contributions(trades, toUtc))
  {
    PeriodContributionsAt(toUtc(trades[i].date), trades[i].periods, j);
    ContributionInAll(trades, toUtc, i, j);
  }

  /** Ordering a dictionary that accumulates cs yields the aggregation of cs. */
  lemma OrderedAccumulation(positions: map<Instant, Volume>, cs: seq<Contribution>)
    requires Accumulates(positions, cs)
    ensures IsAggregation(cs, Ordered(positions))
  {
    var ps := Ordered(positions);
    assert Dates(ps) == positions.Keys;
    forall t: int ensures t in Dates(ps) <==> t in Instants(cs) {
      assert t in Dates(ps) <==> t in positions;
    }
  }

  /** GetPositions: accumulate every period into a dictionary keyed by its
      UTC instant, summing collisions, then emit it ordered by instant. */
  method GetPositions(trades: seq<Trade>, toUtc: Instant -> Instant) returns (r: Result<seq<Position>>)
    ensures r.Ok? <==> AllInRange(Contributions(trades, toUtc))
    ensures r.Ok? ==> IsAggregation(Contributions(trades, toUtc), r.value)
    ensures r.Err? ==> r.error.at in Instants(Contributions(trades, toUtc)) && !InRange(r.error.at)
  {
    var positions: map<Instant, Volume> := map[];
    ghost var done: seq<Contribution> := [];
    var i := 0;
    while i < |trades|
      invariant 0 <= i <= |trades|
      invariant done == Contributions(trades[..i], toUtc)
      invariant AllInRange(done)
      invariant Accumulates(positions, done)
    {
      var trade := trades[i];
      var tradeDateUtc := toUtc(trade.date);
      ghost var before := done;
      var j := 0;
      while j < |trade.periods|
        invariant 0 <= j <= |trade.periods|
        invariant done == before + PeriodContributions(tradeDateUtc, trade.periods[..j])
        invariant AllInRange(done)
        invariant Accumulates(positions, done)
      {
        var period := trade.periods[j];
        var periodDate := PeriodInstant(tradeDateUtc, period.period);
        if !InRange(periodDate) {
          OutOfRangeWitness(trades, toUtc, i, j);
          return Err(InstantOutOfRange(periodDate));
        }
        PeriodStep(positions, done, before, tradeDateUtc, trade.periods, j);
        positions := AddVolume(positions, periodDate, period.volume);
        done := done + [Contribution(periodDate, period.volume)];
        j := j + 1;
      }
      assert trade.periods[..j] == trade.periods;
      ContributionsOfTrade(trades, toUtc, i);
      i := i + 1;
    }
    assert trades[..i] == trades;
    OrderedAccumulation(positions, done);
    r := Ok(Ordered(positions));
  }
}
