/** Civil (proleptic Gregorian) time as the .NET DateTime type keeps it.
    Instants are counted in milliseconds from 0001-01-01T00:00:00, the
    epoch of DateTime; a day number counts days from that same midnight. */
module CivilTime {

  const MsPerSecond: nat := 1000
  const MsPerMinute: nat := 60_000
  const MsPerHour: nat := 3_600_000
  const MsPerDay: nat := 86_400_000

  /** Days from 0001-01-01 to 10000-01-01, the first day DateTime cannot hold. */
  const DaysTo10000: nat := 3_652_059
  const InstantLimit: nat := DaysTo10000 * MsPerDay

  /** A point in time that a DateTime value can represent. */
  type Instant = t: int | 0 <= t < InstantLimit

  datatype Date = Date(year: nat, month: nat, day: nat)

  /** The fields a DateTime exposes, down to the second. */
  datatype DateTimeFields = DateTimeFields(date: Date, hour: nat, minute: nat, second: nat)

  predicate IsLeapYear(y: int) {
    y % 4 == 0 && (y % 100 != 0 || y % 400 == 0)
  }

  function DaysInYear(y: int): int {
    if IsLeapYear(y) then 366 else 365
  }

  function DaysInMonth(y: int, m: int): int
    requires 1 <= m <= 12
  {
    if m == 2 then (if IsLeapYear(y) then 29 else 28)
    else if m == 4 || m == 6 || m == 9 || m == 11 then 30
    else 31
  }

  predicate ValidDate(d: Date) {
    d.year >= 1 && 1 <= d.month <= 12 && 1 <= d.day <= DaysInMonth(d.year, d.month)
  }

  /** Days from 0001-01-01 to January 1 of year y. */
  function DaysBeforeYear(y: int): (n: nat)
    requires y >= 1
    ensures n >= 365 * (y - 1)
  {
    if y == 1 then 0 else DaysBeforeYear(y - 1) + DaysInYear(y - 1)
  }

  /** Days from January 1 of year y to the first of month m (m == 13 gives the whole year). */
  function DaysBeforeMonth(y: int, m: int): nat
    requires 1 <= m <= 13
  {
    if m == 1 then 0 else DaysBeforeMonth(y, m - 1) + DaysInMonth(y, m - 1)
  }

  /** The twelve months add up to the year. */
  lemma MonthsFillYear(y: int)
    ensures DaysBeforeMonth(y, 13) == DaysInYear(y)
  {
    var feb := DaysInMonth(y, 2);
    assert DaysBeforeMonth(y, 2) == 31;
    assert DaysBeforeMonth(y, 3) == 31 + feb;
    assert DaysBeforeMonth(y, 4) == 62 + feb;
    assert DaysBeforeMonth(y, 5) == 92 + feb;
    assert DaysBeforeMonth(y, 6) == 123 + feb;
    assert DaysBeforeMonth(y, 7) == 153 + feb;
    assert DaysBeforeMonth(y, 8) == 184 + feb;
    assert DaysBeforeMonth(y, 9) == 215 + feb;
    assert DaysBeforeMonth(y, 10) == 245 + feb;
    assert DaysBeforeMonth(y, 11) == 276 + feb;
    assert DaysBeforeMonth(y, 12) == 306 + feb;
  }

  lemma DaysBeforeNextMonth(y: int, m: int)
    requires 1 <= m <= 12
    ensures DaysBeforeMonth(y, m + 1) == DaysBeforeMonth(y, m) + DaysInMonth(y, m)
    ensures DaysBeforeMonth(y, 13) == DaysInYear(y)
  {
    MonthsFillYear(y);
  }

  lemma DaysBeforeNextYear(y: int)
    requires y >= 1
    ensures DaysBeforeYear(y + 1) == DaysBeforeYear(y) + DaysInYear(y)
  {
  }

  /** The count of days before a year, in closed form: 365 a year plus the
      leap days of the Gregorian rule. */
  lemma {:induction false} DaysBeforeYearClosed(y: int)
    requires y >= 1
    ensures var p := y - 1; DaysBeforeYear(y) == 365 * p + p / 4 - p / 100 + p / 400
    decreases y
  {
    if y > 1 {
      DaysBeforeYearClosed(y - 1);
      QuotientStep(y - 2);
      LeapIndicator(y - 1);
    }
  }

  /** The Gregorian rule as a sum of divisibility indicators. */
  lemma LeapIndicator(x: nat)
    ensures (if x % 4 == 0 then 1 else 0) - (if x % 100 == 0 then 1 else 0) + (if x % 400 == 0 then 1 else 0)
            == DaysInYear(x) - 365
  {
    Divides100(x);
    Divides400(x);
  }

  lemma Divides100(x: nat)
    ensures x % 100 == 0 ==> x % 4 == 0
  {
    var q := x / 100;
    if x % 100 == 0 {
      assert x == 100 * q;
      FourDivides(25 * q);
    }
  }

  lemma FourDivides(k: nat)
    ensures (4 * k) % 4 == 0
  {
  }

  lemma HundredDivides(k: nat)
    ensures (100 * k) % 100 == 0
  {
  }

  lemma Divides400(x: nat)
    ensures x % 400 == 0 ==> x % 100 == 0
  {
    var q := x / 400;
    if x % 400 == 0 {
      assert x == 400 * q;
      HundredDivides(4 * q);
    }
  }

  /** How the quotients of the leap-year rule change from p to p + 1. */
  lemma QuotientStep(p: nat)
    ensures (p + 1) / 4 == p / 4 + (if (p + 1) % 4 == 0 then 1 else 0)
    ensures (p + 1) / 100 == p / 100 + (if (p + 1) % 100 == 0 then 1 else 0)
    ensures (p + 1) / 400 == p / 400 + (if (p + 1) % 400 == 0 then 1 else 0)
  {
  }

  lemma {:induction false} DaysBeforeYearGrows(a: int, b: int)
    requires 1 <= a <= b
    ensures DaysBeforeYear(b) - DaysBeforeYear(a) >= 365 * (b - a)
    decreases b - a
  {
    if a < b {
      DaysBeforeYearGrows(a + 1, b);
      DaysBeforeNextYear(a);
    }
  }

  /** The number of days from 0001-01-01 to d. */
  function DayNumber(d: Date): nat
    requires ValidDate(d)
  {
    DaysBeforeYear(d.year) + DaysBeforeMonth(d.year, d.month) + d.day - 1
  }

  /** The calendar day after d, rolling over months and years (DateTime.AddDays(1)). */
  function NextDay(d: Date): (e: Date)
    requires ValidDate(d)
    ensures ValidDate(e)
    ensures DayNumber(e) == DayNumber(d) + 1
  {
    DaysBeforeNextMonth(d.year, d.month);
    DaysBeforeNextYear(d.year);
    if d.day < DaysInMonth(d.year, d.month) then Date(d.year, d.month, d.day + 1)
    else if d.month < 12 then Date(d.year, d.month + 1, 1)
    else Date(d.year + 1, 1, 1)
  }

  /** The date that lies n days after January 1 of year y. */
  function DateFromYear(y: nat, n: nat): (d: Date)
    requires y >= 1
    ensures ValidDate(d) && d.year >= y
    ensures DayNumber(d) == DaysBeforeYear(y) + n
    decreases n
  {
    DaysBeforeNextYear(y);
    MonthsFillYear(y);
    if n < DaysInYear(y) then DateInYear(y, 1, n)
    else DateFromYear(y + 1, n - DaysInYear(y))
  }

  /** The date that lies n days after the first of month m of year y, within that year. */
  function DateInYear(y: nat, m: nat, n: nat): (d: Date)
    requires y >= 1 && 1 <= m <= 12
    requires n < DaysBeforeMonth(y, 13) - DaysBeforeMonth(y, m)
    ensures ValidDate(d) && d.year == y && d.month >= m
    ensures DaysBeforeMonth(y, d.month) + d.day - 1 == DaysBeforeMonth(y, m) + n
    decreases 12 - m
  {
    DaysBeforeNextMonth(y, m);
    if n < DaysInMonth(y, m) then Date(y, m, n + 1)
    else DateInYear(y, m + 1, n - DaysInMonth(y, m))
  }

  /** The date of day number n: the inverse of DayNumber. */
  function DateOfDayNumber(n: nat): (d: Date)
    ensures ValidDate(d)
    ensures DayNumber(d) == n
  {
    DateFromYear(1, n)
  }

  lemma {:induction false} DaysBeforeMonthGrows(y: int, a: int, b: int)
    requires 1 <= a <= b <= 13
    ensures DaysBeforeMonth(y, a) <= DaysBeforeMonth(y, b)
    decreases b - a
  {
    if a < b {
      DaysBeforeMonthGrows(y, a, b - 1);
    }
  }

  /** Skipping past month m, whose days are all used up. */
  lemma DateInYearSkip(y: nat, m: nat, n: nat)
    requires y >= 1 && 1 <= m < 12
    requires DaysInMonth(y, m) <= n < DaysBeforeMonth(y, 13) - DaysBeforeMonth(y, m)
    ensures n - DaysInMonth(y, m) < DaysBeforeMonth(y, 13) - DaysBeforeMonth(y, m + 1)
    ensures DateInYear(y, m, n) == DateInYear(y, m + 1, n - DaysInMonth(y, m))
  {
    DaysBeforeNextMonth(y, m);
  }

  lemma {:induction false} DateInYearOf(d: Date, m: nat)
    requires ValidDate(d) && 1 <= m <= d.month
    ensures DaysBeforeMonth(d.year, m) <= DaysBeforeMonth(d.year, d.month)
    ensures DaysBeforeMonth(d.year, d.month) + d.day - 1 - DaysBeforeMonth(d.year, m)
            < DaysBeforeMonth(d.year, 13) - DaysBeforeMonth(d.year, m)
    ensures DateInYear(d.year, m, DaysBeforeMonth(d.year, d.month) + d.day - 1 - DaysBeforeMonth(d.year, m)) == d
    decreases d.month - m
  {
    DateInYearBounds(d, m);
    if m < d.month {
      DateInYearOf(d, m + 1);
      DateInYearOfStep(d, m);
    }
  }

  /** From month m, the day of d lies within what is left of its year. */
  lemma DateInYearBounds(d: Date, m: nat)
    requires ValidDate(d) && 1 <= m <= d.month
    ensures DaysBeforeMonth(d.year, m) <= DaysBeforeMonth(d.year, d.month)
    ensures DaysBeforeMonth(d.year, d.month) + d.day - 1 - DaysBeforeMonth(d.year, m)
            < DaysBeforeMonth(d.year, 13) - DaysBeforeMonth(d.year, m)
  {
    DaysBeforeMonthGrows(d.year, m, d.month);
    DaysBeforeNextMonth(d.year, d.month);
    DaysBeforeMonthGrows(d.year, d.month + 1, 13);
  }

  /** Stepping back over month m keeps the date found. */
  lemma DateInYearOfStep(d: Date, m: nat)
    requires ValidDate(d) && 1 <= m < d.month
    requires DaysBeforeMonth(d.year, m + 1) <= DaysBeforeMonth(d.year, d.month)
    requires DaysBeforeMonth(d.year, d.month) + d.day - 1 - DaysBeforeMonth(d.year, m + 1)
             < DaysBeforeMonth(d.year, 13) - DaysBeforeMonth(d.year, m + 1)
    requires DateInYear(d.year, m + 1, DaysBeforeMonth(d.year, d.month) + d.day - 1 - DaysBeforeMonth(d.year, m + 1)) == d
    ensures DaysBeforeMonth(d.year, m) <= DaysBeforeMonth(d.year, d.month)
    ensures DaysBeforeMonth(d.year, d.month) + d.day - 1 - DaysBeforeMonth(d.year, m)
            < DaysBeforeMonth(d.year, 13) - DaysBeforeMonth(d.year, m)
    ensures DateInYear(d.year, m, DaysBeforeMonth(d.year, d.month) + d.day - 1 - DaysBeforeMonth(d.year, m)) == d
  {
    var y := d.year;
    DateInYearBounds(d, m);
    DaysBeforeNextMonth(y, m);
    DateInYearSkip(y, m, DaysBeforeMonth(y, d.month) + d.day - 1 - DaysBeforeMonth(y, m));
  }

  /** A valid date lies within its own year: its day of the year is below the year's length. */
  lemma DayOfYearBound(d: Date)
    requires ValidDate(d)
    ensures DayNumber(d) - DaysBeforeYear(d.year) == DaysBeforeMonth(d.year, d.month) + d.day - 1
    ensures DaysBeforeMonth(d.year, d.month) + d.day - 1 < DaysInYear(d.year)
  {
    DaysBeforeNextMonth(d.year, d.month);
    DaysBeforeMonthGrows(d.year, d.month + 1, 13);
  }

  lemma YearStep(d: Date, y: nat)
    requires ValidDate(d) && 1 <= y < d.year
    ensures DayNumber(d) - DaysBeforeYear(y) >= DaysInYear(y)
    ensures DayNumber(d) - DaysBeforeYear(y) - DaysInYear(y) == DayNumber(d) - DaysBeforeYear(y + 1)
    ensures DayNumber(d) >= DaysBeforeYear(y + 1)
  {
    DayOfYearBound(d);
    DaysBeforeNextYear(y);
    DaysBeforeYearGrows(y + 1, d.year);
  }

  lemma {:induction false} DateFromYearOf(d: Date, y: nat)
    requires ValidDate(d) && 1 <= y <= d.year
    ensures DayNumber(d) >= DaysBeforeYear(y)
    ensures DateFromYear(y, DayNumber(d) - DaysBeforeYear(y)) == d
    decreases d.year - y
  {
    if y < d.year {
      DateFromYearOf(d, y + 1);
      DateFromYearOfStep(d, y);
    } else {
      DateFromYearOfLast(d);
    }
  }

  /** Stepping back over year y keeps the date found. */
  lemma DateFromYearOfStep(d: Date, y: nat)
    requires ValidDate(d) && 1 <= y < d.year
    requires DayNumber(d) >= DaysBeforeYear(y + 1)
    requires DateFromYear(y + 1, DayNumber(d) - DaysBeforeYear(y + 1)) == d
    ensures DayNumber(d) >= DaysBeforeYear(y)
    ensures DateFromYear(y, DayNumber(d) - DaysBeforeYear(y)) == d
  {
    YearStep(d, y);
    DateFromYearSkip(y, DayNumber(d) - DaysBeforeYear(y));
  }

  /** Within its own year, a date is found by counting months. */
  lemma DateFromYearOfLast(d: Date)
    requires ValidDate(d)
    ensures DayNumber(d) >= DaysBeforeYear(d.year)
    ensures DateFromYear(d.year, DayNumber(d) - DaysBeforeYear(d.year)) == d
  {
    DayOfYearBound(d);
    DateInYearOf(d, 1);
    DateFromYearWithin(d.year, DayNumber(d) - DaysBeforeYear(d.year));
  }

  lemma DateFromYearSkip(y: nat, n: nat)
    requires y >= 1 && n >= DaysInYear(y)
    ensures DateFromYear(y, n) == DateFromYear(y + 1, n - DaysInYear(y))
  {
  }

  lemma DateFromYearWithin(y: nat, n: nat)
    requires y >= 1 && n < DaysInYear(y)
    ensures DaysBeforeMonth(y, 13) - DaysBeforeMonth(y, 1) == DaysInYear(y)
    ensures DateFromYear(y, n) == DateInYear(y, 1, n)
  {
    DaysBeforeNextMonth(y, 12);
  }

  /** Day numbers and valid dates are in one-to-one correspondence. */
  lemma DayNumberInverse(d: Date)
    requires ValidDate(d)
    ensures DateOfDayNumber(DayNumber(d)) == d
  {
    DateFromYearOf(d, 1);
  }

  /** Stepping the day number by one is stepping the calendar by one day. */
  lemma NextDayOfDayNumber(n: nat)
    ensures DateOfDayNumber(n + 1) == NextDay(DateOfDayNumber(n))
  {
    DayNumberInverse(NextDay(DateOfDayNumber(n)));
  }

  /** Every day number below DaysTo10000 falls in a year of at most four digits. */
  lemma YearBelow10000(n: nat)
    requires n < DaysTo10000
    ensures DateOfDayNumber(n).year <= 9999
  {
    var d := DateOfDayNumber(n);
    DaysBeforeYearClosed(10000);
    if d.year > 9999 {
      DaysBeforeYearGrows(10000, d.year);
    }
  }

  /** The calendar fields of instant t, as DateTime.Year .. DateTime.Second give them. */
  function FieldsOf(t: nat): (f: DateTimeFields)
    ensures ValidDate(f.date) && f.hour < 24 && f.minute < 60 && f.second < 60
    ensures DayNumber(f.date) * MsPerDay + f.hour * MsPerHour + f.minute * MsPerMinute + f.second * MsPerSecond
            <= t < DayNumber(f.date) * MsPerDay + f.hour * MsPerHour + f.minute * MsPerMinute + (f.second + 1) * MsPerSecond
  {
    DaySplit(t);
    var msOfDay := t % MsPerDay;
    TimeOfDaySplit(msOfDay);
    DateTimeFields(DateOfDayNumber(t / MsPerDay), msOfDay / MsPerHour,
                   msOfDay % MsPerHour / MsPerMinute, msOfDay % MsPerMinute / MsPerSecond)
  }

  lemma DaySplit(t: nat)
    ensures t == t / MsPerDay * MsPerDay + t % MsPerDay && t % MsPerDay < MsPerDay
  {
  }

  /** A time of day splits into hours, minutes, seconds and a remainder below a second. */
  lemma TimeOfDaySplit(r: nat)
    requires r < MsPerDay
    ensures r / MsPerHour < 24 && r % MsPerHour / MsPerMinute < 60 && r % MsPerMinute / MsPerSecond < 60
    ensures r / MsPerHour * MsPerHour + r % MsPerHour / MsPerMinute * MsPerMinute + r % MsPerMinute / MsPerSecond * MsPerSecond
            <= r < r / MsPerHour * MsPerHour + r % MsPerHour / MsPerMinute * MsPerMinute + (r % MsPerMinute / MsPerSecond + 1) * MsPerSecond
  {
    var h, rh := r / MsPerHour, r % MsPerHour;
    assert r == h * MsPerHour + rh && rh < MsPerHour;
    var m, rm := rh / MsPerMinute, rh % MsPerMinute;
    assert rh == m * MsPerMinute + rm && rm < MsPerMinute;
    assert r % MsPerMinute == rm;
    var sec, rs := rm / MsPerSecond, rm % MsPerSecond;
    assert rm == sec * MsPerSecond + rs && rs < MsPerSecond;
  }

  /** DateTime.Date: the midnight that starts the day of t. */
  function DayStart(t: nat): nat {
    t - t % MsPerDay
  }

  /** requestDate.Date.AddDays(1): the midnight that starts the day after t. */
  function TradedDate(t: nat): (r: nat)
    ensures t < r <= t + MsPerDay
  {
    DayStart(t) + MsPerDay
  }

  /** The traded date is midnight of the calendar day after the request's date. */
  lemma TradedDateIsNextDay(t: nat)
    ensures FieldsOf(TradedDate(t)) == DateTimeFields(NextDay(FieldsOf(t).date), 0, 0, 0)
  {
    var n := t / MsPerDay;
    assert DayStart(t) == n * MsPerDay;
    assert TradedDate(t) == (n + 1) * MsPerDay;
    assert TradedDate(t) / MsPerDay == n + 1;
    assert TradedDate(t) % MsPerDay == 0;
    NextDayOfDayNumber(n);
  }
}
