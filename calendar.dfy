/** The part of Python's `datetime` the parser and the upsert use: construction of a
    naive datetime from integer fields (with its range checks and ValueError),
    `.date()`, and `strftime("%Y%m%d%H%M")`. */
module Calendar {
  import opened Text
  import opened Wrappers

  datatype DateTime = DateTime(year: nat, month: nat, day: nat, hour: nat, minute: nat)

  datatype Date = Date(year: nat, month: nat, day: nat)

  predicate IsLeapYear(y: nat) {
    y % 4 == 0 && (y % 100 != 0 || y % 400 == 0)
  }

  function DaysInMonth(y: nat, m: nat): (n: nat)
    requires 1 <= m <= 12
    ensures 28 <= n <= 31
  {
    if m == 2 then (if IsLeapYear(y) then 29 else 28)
    else if m == 4 || m == 6 || m == 9 || m == 11 then 30
    else 31
  }

  /** The values datetime(y, mo, d, hh, mm) accepts (MINYEAR = 1, MAXYEAR = 9999). */
  predicate Valid(dt: DateTime) {
    1 <= dt.year <= 9999 && 1 <= dt.month <= 12 &&
    1 <= dt.day <= DaysInMonth(dt.year, dt.month) &&
    dt.hour <= 23 && dt.minute <= 59
  }

  /** datetime(year, month, day, hour, minute): the value, or the ValueError the
      constructor raises for the first field out of range (year, month, day, hour, minute). */
  function Construct(year: nat, month: nat, day: nat, hour: nat, minute: nat): (r: Result<DateTime, Exception>)
    ensures r.Ok? <==> Valid(DateTime(year, month, day, hour, minute))
    ensures r.Ok? ==> r.value == DateTime(year, month, day, hour, minute)
    ensures r.Err? ==> r.error.kind == ValueError
    ensures r.Err? && 1 <= year <= 9999 && 1 <= month <= 12 && 1 <= day <= DaysInMonth(year, month) && hour <= 23
            ==> r.error.message == "minute must be in 0..59"
  {
    if year < 1 || year > 9999 then
      Err(Exception(ValueError, "year " + NatToString(year) + " is out of range"))
    else if month < 1 || month > 12 then
      Err(Exception(ValueError, "month must be in 1..12"))
    else if day < 1 || day > DaysInMonth(year, month) then
      Err(Exception(ValueError, "day is out of range for month"))
    else if hour > 23 then
      Err(Exception(ValueError, "hour must be in 0..23"))
    else if minute > 59 then
      Err(Exception(ValueError, "minute must be in 0..59"))
    else
      Ok(DateTime(year, month, day, hour, minute))
  }

  /** datetime.date() */
  function DateOf(dt: DateTime): Date {
    Date(dt.year, dt.month, dt.day)
  }

  /** strftime("%Y%m%d%H%M"): the fields as zero-padded decimals, year first. */
  function Format(dt: DateTime): string {
    Padded(dt.year, 4) + (Padded(dt.month, 2) + (Padded(dt.day, 2) + (Padded(dt.hour, 2) + Padded(dt.minute, 2))))
  }

  function Pow10(w: nat): nat {
    if w == 0 then 1 else 10 * Pow10(w - 1)
  }

  lemma {:induction false} NatToStringWidth(n: nat, w: nat)
    requires 1 <= w && n < Pow10(w)
    ensures |NatToString(n)| <= w
  {
    if n >= 10 {
      assert Pow10(1) == 10;
      assert w != 1;
      NatToStringWidth(n / 10, w - 1);
    }
  }

  lemma PaddedWidth(n: nat, w: nat)
    requires 1 <= w && n < Pow10(w)
    ensures |Padded(n, w)| == w
  {
    NatToStringWidth(n, w);
  }

  /** Every field of a valid datetime fits its strftime width. */
  lemma FieldWidths(dt: DateTime)
    requires Valid(dt)
    ensures |Padded(dt.year, 4)| == 4 && |Padded(dt.month, 2)| == 2 && |Padded(dt.day, 2)| == 2
    ensures |Padded(dt.hour, 2)| == 2 && |Padded(dt.minute, 2)| == 2
  {
    assert Pow10(2) == 100 && Pow10(4) == 10000 by {
      assert Pow10(1) == 10;
      assert Pow10(3) == 1000;
    }
    PaddedWidth(dt.year, 4);
    PaddedWidth(dt.month, 2);
    PaddedWidth(dt.day, 2);
    PaddedWidth(dt.hour, 2);
    PaddedWidth(dt.minute, 2);
  }

  /** The formatted kickoff of a valid datetime is twelve digits from which every field reads back,
      so two valid datetimes with the same text are the same datetime. */
  lemma FormatRoundTrip(dt: DateTime)
    requires Valid(dt)
    ensures var s := Format(dt);
      |s| == 12 && AllDigits(s) && NoSpace(s) &&
      RunValue(s, 0, 4) == dt.year && RunValue(s, 4, 6) == dt.month &&
      RunValue(s, 6, 8) == dt.day && RunValue(s, 8, 10) == dt.hour &&
      RunValue(s, 10, 12) == dt.minute
  {
    FieldWidths(dt);
    var y, mo, d, h, mi := Padded(dt.year, 4), Padded(dt.month, 2), Padded(dt.day, 2), Padded(dt.hour, 2), Padded(dt.minute, 2);
    var s := Format(dt);
    assert s[0..] == s;
    FieldAt(s, 0, y, mo + (d + (h + mi)));
    FieldAt(s, 4, mo, d + (h + mi));
    FieldAt(s, 6, d, h + mi);
    FieldAt(s, 8, h, mi);
    FieldAt(s, 10, mi, []);
    AllDigitsConcat(h, mi);
    AllDigitsConcat(d, h + mi);
    AllDigitsConcat(mo, d + (h + mi));
    AllDigitsConcat(y, mo + (d + (h + mi)));
  }

  lemma FormatInjective(a: DateTime, b: DateTime)
    requires Valid(a) && Valid(b) && Format(a) == Format(b)
    ensures a == b
  {
    FormatRoundTrip(a);
    FormatRoundTrip(b);
  }
}
