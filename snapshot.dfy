/** The snapshot a cycle writes (PositionService.SavePositionsFile): its name
    "PowerPosition_<yyyyMMdd of the traded date>_<yyyyMMddHHmm of the request>.csv"
    and its lines, the header "Datetime;Volume" followed by one
    "<yyyy-MM-ddTHH:mm:ssZ of the instant>;<volume>" line per position, in
    the order the positions are given. */
module Snapshot {
  import opened CivilTime
  import opened Formatting
  import opened Aggregation

  const NamePrefix: string := "PowerPosition_"
  const Extension: string := ".csv"
  const Header: string := "Datetime;Volume"

  /** The file name of the snapshot for a traded date and a request time. */
  function SnapshotName(tradedDate: nat, requestDate: nat): string {
    NamePrefix + CompactDate(FieldsOf(tradedDate).date) + "_" + CompactMinute(FieldsOf(requestDate)) + Extension
  }

  /** The line of one position; `render` is the culture's rendering of a volume. */
  function Row(p: Position, render: Volume -> string): string {
    IsoSecond(FieldsOf(p.date)) + ";" + render(p.volume)
  }

  /** The name of a snapshot file and the lines written to it. */
  datatype SnapshotFile = SnapshotFile(name: string, lines: seq<string>)

  /** f is the snapshot of `positions`: the header, then one row per position in order. */
  predicate IsSnapshot(tradedDate: nat, requestDate: nat, positions: seq<Position>,
                       render: Volume -> string, f: SnapshotFile)
  {
    && f.name == SnapshotName(tradedDate, requestDate)
    && |f.lines| == |positions| + 1
    && f.lines[0] == Header
    && forall i :: 0 <= i < |positions| ==> f.lines[i + 1] == Row(positions[i], render)
  }

  /** Builds the snapshot line by line, as the writer loop does. */
  method SavePositionsFile(tradedDate: nat, requestDate: nat, positions: seq<Position>, render: Volume -> string)
    returns (f: SnapshotFile)
    ensures IsSnapshot(tradedDate, requestDate, positions, render, f)
  {
    var name := SnapshotName(tradedDate, requestDate);
    var lines := [Header];
    for i := 0 to |positions|
      invariant |lines| == i + 1 && lines[0] == Header
      invariant forall j :: 0 <= j < i ==> lines[j + 1] == Row(positions[j], render)
    {
      lines := lines + [Row(positions[i], render)];
    }
    f := SnapshotFile(name, lines);
  }

  /** The name is 39 characters laid out as prefix, 8 date digits, '_',
      12 minute digits and extension, and the digits give back the traded
      date and the request time to the minute. */
  lemma SnapshotNameLayout(tradedDate: Instant, requestDate: Instant)
    ensures var name := SnapshotName(tradedDate, requestDate);
      && |name| == 39
      && name[..14] == NamePrefix && name[22] == '_' && name[35..] == Extension
      && IsDigits(name[14..22]) && IsDigits(name[23..35])
      && ParseCompactDate(name[14..22]) == FieldsOf(tradedDate).date
      && ParseCompactMinute(name[23..35]) == FieldsOf(requestDate).(second := 0)
  {
    InstantPrintable(tradedDate);
    InstantPrintable(requestDate);
    CompactDateRoundTrip(FieldsOf(tradedDate).date);
    CompactMinuteRoundTrip(FieldsOf(requestDate));
    NameSlices(CompactDate(FieldsOf(tradedDate).date), CompactMinute(FieldsOf(requestDate)));
  }

  /** Where the parts of a name sit. */
  lemma NameSlices(date: string, minute: string)
    requires |date| == 8 && |minute| == 12
    ensures var name := NamePrefix + date + "_" + minute + Extension;
      && |name| == 39 && name[..14] == NamePrefix && name[14..22] == date && name[22] == '_'
      && name[23..35] == minute && name[35..] == Extension
  {
    var name := NamePrefix + date + "_" + minute + Extension;
    assert name[..14] == NamePrefix && name[14..22] == date && name[23..35] == minute && name[35..] == Extension;
  }

  /** The minute an instant falls in is determined by its fields down to the minute. */
  lemma MinuteOfFields(t: nat)
    ensures var f := FieldsOf(t);
      t / MsPerMinute == DayNumber(f.date) * 1440 + f.hour * 60 + f.minute
  {
    var f := FieldsOf(t);
    var q := DayNumber(f.date) * 1440 + f.hour * 60 + f.minute;
    assert q * MsPerMinute == DayNumber(f.date) * MsPerDay + f.hour * MsPerHour + f.minute * MsPerMinute;
    assert q * MsPerMinute <= t < q * MsPerMinute + MsPerMinute;
  }

  /** Two snapshots share a name only when their traded dates fall on the same
      day and their request times fall in the same minute. */
  lemma SnapshotNameDistinguishes(traded1: Instant, request1: Instant, traded2: Instant, request2: Instant)
    requires SnapshotName(traded1, request1) == SnapshotName(traded2, request2)
    ensures FieldsOf(traded1).date == FieldsOf(traded2).date
    ensures request1 / MsPerMinute == request2 / MsPerMinute
  {
    SnapshotNameLayout(traded1, request1);
    SnapshotNameLayout(traded2, request2);
    var f1, f2 := FieldsOf(request1), FieldsOf(request2);
    assert f1.(second := 0) == f2.(second := 0);
    assert f1.date == f2.date && f1.hour == f2.hour && f1.minute == f2.minute;
    MinuteOfFields(request1);
    MinuteOfFields(request2);
  }

  /** A row is 20 characters of timestamp, ';' and the rendered volume; the
      timestamp gives back the position's instant to the second. */
  lemma RowLayout(p: Position, render: Volume -> string)
    ensures var row := Row(p, render);
      && |row| == 21 + |render(p.volume)|
      && row[20] == ';' && row[21..] == render(p.volume)
      && ParseIsoSecond(row[..20]) == FieldsOf(p.date)
  {
    InstantPrintable(p.date);
    IsoSecondRoundTrip(FieldsOf(p.date));
    var stamp := IsoSecond(FieldsOf(p.date));
    var row := stamp + ";" + render(p.volume);
    assert row[..20] == stamp && row[21..] == render(p.volume);
  }

  /** The lines of a snapshot of positions in distinct seconds are pairwise
      distinct: their timestamps differ. */
  lemma RowsDistinct(p: Position, q: Position, render: Volume -> string)
    requires p.date / MsPerSecond != q.date / MsPerSecond
    ensures Row(p, render) != Row(q, render)
  {
    RowLayout(p, render);
    RowLayout(q, render);
    SecondOfFields(p.date);
    SecondOfFields(q.date);
  }

  /** The second an instant falls in is determined by its fields. */
  lemma SecondOfFields(t: nat)
    ensures var f := FieldsOf(t);
      t / MsPerSecond == DayNumber(f.date) * 86400 + f.hour * 3600 + f.minute * 60 + f.second
  {
    var f := FieldsOf(t);
    var q := DayNumber(f.date) * 86400 + f.hour * 3600 + f.minute * 60 + f.second;
    assert q * MsPerSecond == DayNumber(f.date) * MsPerDay + f.hour * MsPerHour + f.minute * MsPerMinute + f.second * MsPerSecond;
  }
}
