/** The zero-padded decimal date and time patterns the service writes:
    "yyyyMMdd" and "yyyyMMddHHmm" in snapshot names and
    "yyyy-MM-ddTHH:mm:ssZ" in snapshot rows; each with the reader that
    recovers the fields it encodes. */
module Formatting {
  import opened CivilTime

  predicate IsDigits(s: string) {
    forall i :: 0 <= i < |s| ==> '0' <= s[i] <= '9'
  }

  function Digit(n: nat): char
    requires n < 10
  {
    (('0' as int) + n) as char
  }

  function Pow10(w: nat): nat {
    if w == 0 then 1 else 10 * Pow10(w - 1)
  }

  /** n in decimal, padded on the left with zeros to at least `width` digits. */
  function Pad(n: nat, width: nat): (s: string)
    ensures IsDigits(s) && |s| >= 1 && |s| >= width
    decreases n, width
  {
    if n < 10 && width <= 1 then [Digit(n)]
    else Pad(n / 10, if width == 0 then 0 else width - 1) + [Digit(n % 10)]
  }

  /** The number a string of decimal digits denotes. */
  function DecimalValue(s: string): nat {
    if s == [] then 0
    else DecimalValue(s[..|s| - 1]) * 10 + (if '0' <= s[|s| - 1] <= '9' then s[|s| - 1] as int - '0' as int else 0)
  }

  lemma {:induction false} PadValue(n: nat, width: nat)
    ensures DecimalValue(Pad(n, width)) == n
    decreases n, width
  {
    var s := Pad(n, width);
    if n < 10 && width <= 1 {
      assert s[..0] == [];
    } else {
      var w := if width == 0 then 0 else width - 1;
      PadValue(n / 10, w);
      assert s[..|s| - 1] == Pad(n / 10, w);
    }
  }

  lemma {:induction false} PadWidth(n: nat, width: nat)
    requires 1 <= width && n < Pow10(width)
    ensures |Pad(n, width)| == width
    decreases width
  {
    if !(n < 10 && width <= 1) {
      PadWidth(n / 10, width - 1);
    }
  }

  /** A field of `width` digits: its value is recovered from its text. */
  lemma FixedField(n: nat, width: nat)
    requires 1 <= width && n < Pow10(width)
    ensures |Pad(n, width)| == width && DecimalValue(Pad(n, width)) == n
  {
    PadWidth(n, width);
    PadValue(n, width);
  }

  /** "yyyyMMdd" */
  function CompactDate(d: Date): string {
    Pad(d.year, 4) + Pad(d.month, 2) + Pad(d.day, 2)
  }

  /** "yyyyMMddHHmm" */
  function CompactMinute(f: DateTimeFields): string {
    CompactDate(f.date) + Pad(f.hour, 2) + Pad(f.minute, 2)
  }

  /** "yyyy-MM-dd" */
  function IsoDate(d: Date): string {
    Pad(d.year, 4) + "-" + Pad(d.month, 2) + "-" + Pad(d.day, 2)
  }

  /** "HH:mm:ss" */
  function IsoTime(f: DateTimeFields): string {
    Pad(f.hour, 2) + ":" + Pad(f.minute, 2) + ":" + Pad(f.second, 2)
  }

  /** "yyyy-MM-ddTHH:mm:ssZ" */
  function IsoSecond(f: DateTimeFields): string {
    IsoDate(f.date) + "T" + IsoTime(f) + "Z"
  }

  function ParseCompactDate(s: string): Date
    requires |s| == 8
  {
    Date(DecimalValue(s[..4]), DecimalValue(s[4..6]), DecimalValue(s[6..8]))
  }

  function ParseCompactMinute(s: string): DateTimeFields
    requires |s| == 12
  {
    DateTimeFields(ParseCompactDate(s[..8]), DecimalValue(s[8..10]), DecimalValue(s[10..12]), 0)
  }

  function ParseIsoSecond(s: string): DateTimeFields
    requires |s| == 20
  {
    DateTimeFields(Date(DecimalValue(s[..4]), DecimalValue(s[5..7]), DecimalValue(s[8..10])),
                   DecimalValue(s[11..13]), DecimalValue(s[14..16]), DecimalValue(s[17..19]))
  }

  /** The fields of a DateTime fit their pattern widths (years stop at 9999). */
  predicate Printable(f: DateTimeFields) {
    ValidDate(f.date) && f.date.year <= 9999 && f.hour < 24 && f.minute < 60 && f.second < 60
  }

  lemma CompactDateRoundTrip(d: Date)
    requires ValidDate(d) && d.year <= 9999
    ensures |CompactDate(d)| == 8 && IsDigits(CompactDate(d))
    ensures ParseCompactDate(CompactDate(d)) == d
  {
    var y, m, dd := Pad(d.year, 4), Pad(d.month, 2), Pad(d.day, 2);
    FixedField(d.year, 4);
    FixedField(d.month, 2);
    FixedField(d.day, 2);
    var s := y + m + dd;
    assert s[..4] == y && s[4..6] == m && s[6..8] == dd;
  }

  lemma CompactMinuteRoundTrip(f: DateTimeFields)
    requires Printable(f)
    ensures |CompactMinute(f)| == 12 && IsDigits(CompactMinute(f))
    ensures ParseCompactMinute(CompactMinute(f)) == f.(second := 0)
  {
    CompactDateRoundTrip(f.date);
    var date, h, mi := CompactDate(f.date), Pad(f.hour, 2), Pad(f.minute, 2);
    FixedField(f.hour, 2);
    FixedField(f.minute, 2);
    var s := date + h + mi;
    assert s[..8] == date && s[8..10] == h && s[10..12] == mi;
  }

  lemma IsoDateFields(d: Date)
    requires ValidDate(d) && d.year <= 9999
    ensures var s := IsoDate(d);
      |s| == 10 && DecimalValue(s[..4]) == d.year && DecimalValue(s[5..7]) == d.month
      && DecimalValue(s[8..10]) == d.day
  {
    var y, mo, dd := Pad(d.year, 4), Pad(d.month, 2), Pad(d.day, 2);
    FixedField(d.year, 4);
    FixedField(d.month, 2);
    FixedField(d.day, 2);
    var s := y + "-" + mo + "-" + dd;
    assert s[..4] == y && s[5..7] == mo && s[8..10] == dd;
  }

  lemma IsoTimeFields(f: DateTimeFields)
    requires f.hour < 24 && f.minute < 60 && f.second < 60
    ensures var s := IsoTime(f);
      |s| == 8 && DecimalValue(s[..2]) == f.hour && DecimalValue(s[3..5]) == f.minute
      && DecimalValue(s[6..8]) == f.second
  {
    var h, mi, se := Pad(f.hour, 2), Pad(f.minute, 2), Pad(f.second, 2);
    FixedField(f.hour, 2);
    FixedField(f.minute, 2);
    FixedField(f.second, 2);
    var s := h + ":" + mi + ":" + se;
    assert s[..2] == h && s[3..5] == mi && s[6..8] == se;
  }

  lemma IsoSecondRoundTrip(f: DateTimeFields)
    requires Printable(f)
    ensures |IsoSecond(f)| == 20
    ensures ParseIsoSecond(IsoSecond(f)) == f
  {
    var date, time := IsoDate(f.date), IsoTime(f);
    IsoDateFields(f.date);
    IsoTimeFields(f);
    var s := date + "T" + time + "Z";
    assert s[..4] == date[..4] && s[5..7] == date[5..7] && s[8..10] == date[8..10];
    assert s[11..13] == time[..2] && s[14..16] == time[3..5] && s[17..19] == time[6..8];
  }

  /** An instant DateTime can hold prints within the pattern widths. */
  lemma InstantPrintable(t: Instant)
    ensures Printable(FieldsOf(t))
  {
    assert t / MsPerDay < DaysTo10000;
    YearBelow10000(t / MsPerDay);
  }
}
