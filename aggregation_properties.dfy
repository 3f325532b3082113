/** What the aggregation promises for every input: the positions are
    determined by the trades, there are at most as many as there are
    periods, and no volume is lost or invented; and the two-trade fixture
    of the service's unit tests. */
module AggregationProperties {
  import opened CivilTime
  import opened Aggregation

  lemma InstantsBoundStep(cs: seq<Contribution>)
    requires cs != []
    ensures Instants(cs) == Instants(cs[..|cs| - 1]) + {cs[|cs| - 1].at}
  {
    assert cs == cs[..|cs| - 1] + [cs[|cs| - 1]];
    InstantsAppend(cs[..|cs| - 1], cs[|cs| - 1]);
  }

  /** Distinct instants never outnumber the periods they come from. */
  lemma {:induction false} InstantsBound(cs: seq<Contribution>)
    ensures |Instants(cs)| <= |cs|
  {
    if cs != [] {
      InstantsBound(cs[..|cs| - 1]);
      InstantsBoundStep(cs);
    }
  }

  lemma DatesAppend(ps: seq<Position>, p: Position)
    ensures Dates(ps + [p]) == Dates(ps) + {p.date as int}
  {
    var qs := ps + [p];
    forall x | x in Dates(qs) ensures x in Dates(ps) + {p.date as int} {
      var i :| 0 <= i < |qs| && qs[i].date as int == x;
      if i < |ps| {
        assert ps[i].date as int == x;
      }
    }
    forall x | x in Dates(ps) + {p.date as int} ensures x in Dates(qs) {
      if x == p.date as int {
        assert qs[|ps|].date as int == x;
      } else {
        var i :| 0 <= i < |ps| && ps[i].date as int == x;
        assert qs[i].date as int == x;
      }
    }
  }

  /** An ascending run has as many distinct dates as positions. */
  lemma {:induction false} DatesCount(ps: seq<Position>)
    requires StrictlyAscending(ps)
    ensures |Dates(ps)| == |ps|
  {
    if ps != [] {
      var n := |ps|;
      var init := ps[..n - 1];
      DatesCount(init);
      assert ps == init + [ps[n - 1]];
      DatesAppend(init, ps[n - 1]);
      assert (ps[n - 1].date as int) !in Dates(init);
    }
  }

  /** One position per distinct instant, so no more positions than periods. */
  lemma PositionCountBound(cs: seq<Contribution>, ps: seq<Position>)
    requires IsAggregation(cs, ps)
    ensures |ps| == |Instants(cs)|
    ensures |ps| <= |cs|
  {
    DatesCount(ps);
    InstantsBound(cs);
  }

  /** No two positions share an instant. */
  lemma DatesUnique(cs: seq<Contribution>, ps: seq<Position>, i: nat, j: nat)
    requires IsAggregation(cs, ps)
    requires i < |ps| && j < |ps| && i != j
    ensures ps[i].date != ps[j].date
  {
    if i > j {
      assert ps[j].date < ps[i].date;
    }
  }

  lemma {:induction false} SumInEmpty(cs: seq<Contribution>)
    ensures SumIn(cs, {}) == 0
  {
    if cs != [] {
      SumInEmpty(cs[..|cs| - 1]);
    }
  }

  lemma {:induction false} SumInAdd(cs: seq<Contribution>, s: set<int>, d: int)
    requires d !in s
    ensures SumIn(cs, s + {d}) == SumIn(cs, s) + SumAt(cs, d)
  {
    if cs != [] {
      SumInAdd(cs[..|cs| - 1], s, d);
    }
  }

  lemma {:induction false} SumInAll(cs: seq<Contribution>, s: set<int>)
    requires Instants(cs) <= s
    ensures SumIn(cs, s) == Total(cs)
  {
    if cs != [] {
      InstantsBoundStep(cs);
      SumInAll(cs[..|cs| - 1], s);
    }
  }

  lemma {:induction false} PositionsTotal(cs: seq<Contribution>, ps: seq<Position>)
    requires StrictlyAscending(ps)
    requires forall i :: 0 <= i < |ps| ==> ps[i].volume == SumAt(cs, ps[i].date)
    ensures TotalVolume(ps) == SumIn(cs, Dates(ps))
  {
    if ps == [] {
      assert Dates(ps) == {};
      SumInEmpty(cs);
    } else {
      var n := |ps|;
      var init := ps[..n - 1];
      PositionsTotal(cs, init);
      assert ps == init + [ps[n - 1]];
      DatesAppend(init, ps[n - 1]);
      assert (ps[n - 1].date as int) !in Dates(init);
      SumInAdd(cs, Dates(init), ps[n - 1].date);
    }
  }

  /** The total volume of the positions equals the total volume of all periods. */
  lemma VolumeConservation(cs: seq<Contribution>, ps: seq<Position>)
    requires IsAggregation(cs, ps)
    ensures TotalVolume(ps) == Total(cs)
  {
    PositionsTotal(cs, ps);
    SumInAll(cs, Dates(ps));
  }

  lemma DatesNonEmpty(ps: seq<Position>)
    requires ps != []
    ensures (ps[0].date as int) in Dates(ps)
  {
  }

  lemma SplitFirst(ps: seq<Position>)
    requires StrictlyAscending(ps) && ps != []
    ensures StrictlyAscending(ps[1..])
    ensures Dates(ps[1..]) == Dates(ps) - {ps[0].date as int}
  {
    assert ps == [ps[0]] + ps[1..];
    PrependEarliest(ps[0], ps[1..]);
    assert (ps[0].date as int) !in Dates(ps[1..]);
  }

  /** Two ascending runs over the same set of dates list the same dates. */
  lemma {:induction false} SameDates(a: seq<Position>, b: seq<Position>)
    requires StrictlyAscending(a) && StrictlyAscending(b) && Dates(a) == Dates(b)
    ensures |a| == |b|
    ensures forall i :: 0 <= i < |a| ==> a[i].date == b[i].date
    decreases |a|
  {
    if a == [] || b == [] {
      if a != [] {
        DatesNonEmpty(a);
      } else if b != [] {
        DatesNonEmpty(b);
      }
    } else {
      assert (a[0].date as int) in Dates(b);
      var j :| 0 <= j < |b| && b[j].date as int == a[0].date as int;
      assert (b[0].date as int) in Dates(a);
      var k :| 0 <= k < |a| && a[k].date as int == b[0].date as int;
      assert a[0].date == b[0].date;
      SplitFirst(a);
      SplitFirst(b);
      SameDates(a[1..], b[1..]);
      forall i | 0 <= i < |a| ensures a[i].date == b[i].date {
        if i > 0 {
          assert a[i] == a[1..][i - 1] && b[i] == b[1..][i - 1];
        }
      }
    }
  }

  /** The aggregation of a set of trades is unique: the result is a function of the input. */
  lemma AggregationUnique(cs: seq<Contribution>, a: seq<Position>, b: seq<Position>)
    requires IsAggregation(cs, a) && IsAggregation(cs, b)
    ensures a == b
  {
    SameDates(a, b);
    assert forall i :: 0 <= i < |a| ==> a[i] == b[i];
  }

  /** Two 24-period trades on one date; the first carries 100 * (p + 1) in
      period p + 1 and the second 100 * (24 - p). */
  function FixtureTrades(date: Instant): seq<Trade> {
    [Trade(date, seq(24, p => TradePeriod(p + 1, 100 * (p + 1)))),
     Trade(date, seq(24, p => TradePeriod(p + 1, 100 * (24 - p))))]
  }

  lemma {:induction false} SumAtConcat(a: seq<Contribution>, b: seq<Contribution>, t: int)
    ensures SumAt(a + b, t) == SumAt(a, t) + SumAt(b, t)
    decreases |b|
  {
    if b != [] {
      var init := b[..|b| - 1];
      assert a + b == (a + init) + [b[|b| - 1]];
      SumAtConcat(a, init, t);
      SumAtAppend(a + init, b[|b| - 1], t);
    } else {
      assert a + b == a;
    }
  }

  /** With pairwise-distinct instants, the sum at an instant is its one volume. */
  lemma {:induction false} SumAtDistinct(cs: seq<Contribution>, k: nat)
    requires k < |cs|
    requires forall i, j :: 0 <= i < j < |cs| ==> cs[i].at != cs[j].at
    ensures SumAt(cs, cs[k].at) == cs[k].volume
  {
    var n := |cs|;
    var init := cs[..n - 1];
    if k < n - 1 {
      SumAtDistinct(init, k);
    } else {
      assert forall c :: c in init ==> c.at != cs[k].at;
      SumAtAbsent(init, cs[k].at);
    }
  }

  /** With pairwise-distinct instants, there are as many instants as contributions. */
  lemma {:induction false} InstantsCount(cs: seq<Contribution>)
    requires forall i, j :: 0 <= i < j < |cs| ==> cs[i].at != cs[j].at
    ensures |Instants(cs)| == |cs|
  {
    if cs != [] {
      var init := cs[..|cs| - 1];
      InstantsCount(init);
      InstantsBoundStep(cs);
      assert cs[|cs| - 1].at !in Instants(init);
    }
  }

  /** The contributions of the fixture, in hour order: the first trade's, then the second's. */
  function FixtureFirst(mid: int): seq<Contribution> {
    seq(24, j => Contribution(mid + j * MsPerHour, 100 * (j + 1)))
  }

  function FixtureSecond(mid: int): seq<Contribution> {
    seq(24, j => Contribution(mid + j * MsPerHour, 100 * (24 - j)))
  }

  lemma FixtureContributions(date: Instant, toUtc: Instant -> Instant)
    ensures Contributions(FixtureTrades(date), toUtc) == FixtureFirst(toUtc(date)) + FixtureSecond(toUtc(date))
  {
    var trades := FixtureTrades(date);
    var mid := toUtc(date);
    var a := TradeContributions(trades[0], toUtc);
    var b := TradeContributions(trades[1], toUtc);
    forall j | 0 <= j < 24 ensures a[j] == FixtureFirst(mid)[j] && b[j] == FixtureSecond(mid)[j] {
      PeriodContributionsAt(mid, trades[0].periods, j);
      PeriodContributionsAt(mid, trades[1].periods, j);
    }
    assert a == FixtureFirst(mid) && b == FixtureSecond(mid);
    assert trades[..1][..0] == [] && trades[..1][0] == trades[0];
    assert Contributions(trades[..1], toUtc) == a;
    assert trades[..|trades| - 1] == trades[..1];
  }

  lemma FixtureSums(mid: int, j: nat)
    requires j < 24
    ensures SumAt(FixtureFirst(mid) + FixtureSecond(mid), mid + j * MsPerHour) == 2500
  {
    var a, b := FixtureFirst(mid), FixtureSecond(mid);
    SumAtConcat(a, b, mid + j * MsPerHour);
    SumAtDistinct(a, j);
    SumAtDistinct(b, j);
  }

  lemma FixtureInstants(mid: int)
    ensures Instants(FixtureFirst(mid) + FixtureSecond(mid)) == Instants(FixtureFirst(mid))
    ensures |Instants(FixtureFirst(mid))| == 24
    ensures forall t :: t in Instants(FixtureFirst(mid)) ==> exists j :: 0 <= j < 24 && t == mid + j * MsPerHour
  {
    var a, b := FixtureFirst(mid), FixtureSecond(mid);
    InstantsCount(a);
    forall c | c in b ensures c.at in Instants(a) {
      var j :| 0 <= j < 24 && b[j] == c;
      assert a[j].at == c.at;
    }
    assert forall c :: c in a + b <==> c in a || c in b;
    forall t | t in Instants(a) ensures exists j :: 0 <= j < 24 && t == mid + j * MsPerHour {
      var c :| c in a && c.at == t;
      var j :| 0 <= j < 24 && a[j] == c;
    }
  }

  /** The two fixture trades aggregate to exactly 24 positions of volume 2500 each. */
  lemma TwoTradesFixture(date: Instant, toUtc: Instant -> Instant, ps: seq<Position>)
    requires IsAggregation(Contributions(FixtureTrades(date), toUtc), ps)
    ensures |ps| == 24
    ensures forall i :: 0 <= i < |ps| ==> ps[i].volume == 2500
  {
    var mid := toUtc(date);
    var cs := Contributions(FixtureTrades(date), toUtc);
    FixtureContributions(date, toUtc);
    FixtureInstants(mid);
    forall i | 0 <= i < |ps| ensures ps[i].volume == 2500 {
      assert (ps[i].date as int) in Dates(ps);
      var j :| 0 <= j < 24 && ps[i].date as int == mid + j * MsPerHour;
      FixtureSums(mid, j);
    }
    PositionCountBound(cs, ps);
  }

  /** When the 24 hours after the fixture's UTC midnight are all DateTime
      values, every period instant is in range, so GetPositions succeeds on it. */
  lemma FixtureInRange(date: Instant, toUtc: Instant -> Instant)
    requires toUtc(date) + 23 * MsPerHour < InstantLimit
    ensures AllInRange(Contributions(FixtureTrades(date), toUtc))
  {
    var mid := toUtc(date);
    FixtureContributions(date, toUtc);
    forall c | c in FixtureFirst(mid) + FixtureSecond(mid) ensures InRange(c.at) {
      var cs := FixtureFirst(mid) + FixtureSecond(mid);
      var i :| 0 <= i < 48 && cs[i] == c;
      if i < 24 {
        assert c.at == mid + i * MsPerHour;
      } else {
        assert c.at == mid + (i - 24) * MsPerHour;
      }
    }
  }
}
