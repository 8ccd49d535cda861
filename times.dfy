/**
  Python's datetime values as the scripts use them: a timedelta in its
  normal form, a calendar date, and a timestamp. Microseconds are not
  modelled.
*/
module Times {
  import opened Wrappers
  import opened Text

  const SecondsPerDay := 86400

  type DaySeconds = s: int | 0 <= s < SecondsPerDay

  /**
    datetime.timedelta normalised as Python stores it: whole days (possibly
    negative) plus 0 <= seconds < 86400.
  */
  datatype Timedelta = Timedelta(days: int, seconds: DaySeconds)

  function TotalSeconds(td: Timedelta): int {
    td.days * SecondsPerDay + td.seconds
  }

  /** timedelta(seconds=total): the normal form with the given total. */
  function FromSeconds(total: int): (td: Timedelta)
    ensures TotalSeconds(td) == total
  {
    Timedelta(total / SecondsPerDay, total % SecondsPerDay)
  }

  /** The normal form is unique: FromSeconds inverts TotalSeconds. */
  lemma FromTotalSeconds(td: Timedelta)
    ensures FromSeconds(TotalSeconds(td)) == td
  {
  }

  /** timedelta(0) */
  const Zero := Timedelta(0, 0)

  predicate IsLeapYear(y: int) {
    y % 4 == 0 && (y % 100 != 0 || y % 400 == 0)
  }

  function DaysInMonth(year: int, month: int): int
    requires 1 <= month <= 12
  {
    if month == 2 then (if IsLeapYear(year) then 29 else 28)
    else if month == 4 || month == 6 || month == 9 || month == 11 then 30
    else 31
  }

  datatype CalendarDate = CalendarDate(year: int, month: int, day: int)

  predicate ValidDate(d: CalendarDate) {
    && 1 <= d.year <= 9999
    && 1 <= d.month <= 12
    && 1 <= d.day <= DaysInMonth(d.year, d.month)
  }

  /** datetime.date: a calendar date Python accepts. */
  type Date = d: CalendarDate | ValidDate(d) witness CalendarDate(1, 1, 1)

  /** d.strftime('%Y-%m-%d') */
  function DateString(d: Date): string {
    PadInt(d.year, 4) + "-" + PadInt(d.month, 2) + "-" + PadInt(d.day, 2)
  }

  /** Reads back a "YYYY-MM-DD" string; the inverse of DateString. */
  function ParseDate(s: string): Option<Date> {
    if |s| == 10 && s[4] == '-' && s[7] == '-'
       && AllDigits(s[..4]) && AllDigits(s[5..7]) && AllDigits(s[8..])
    then
      var d := CalendarDate(DigitsValue(s[..4]), DigitsValue(s[5..7]), DigitsValue(s[8..]));
      if ValidDate(d) then Some(d) else None
    else None
  }

  /** A field below 10^width renders as exactly width digits. */
  lemma PadFieldDigits(n: nat, width: nat)
    requires 1 <= width && n < Pow10(width)
    ensures |PadInt(n, width)| == width && AllDigits(PadInt(n, width))
    ensures DigitsValue(PadInt(n, width)) == n
  {
    NatStringLength(n, width);
    PadIntRoundTrip(n, width);
    assert PadInt(n, width)[0] != '-';
  }

  /** Where the fields of a "YYYY-MM-DD" string sit. */
  lemma DateSlices(y: string, m: string, d: string)
    requires |y| == 4 && |m| == 2 && |d| == 2
    ensures var s := y + "-" + m + "-" + d;
      && |s| == 10 && s[4] == '-' && s[7] == '-'
      && s[..4] == y && s[5..7] == m && s[8..] == d
  {
  }

  lemma DateStringRoundTrip(d: Date)
    ensures |DateString(d)| == 10
    ensures ParseDate(DateString(d)) == Some(d)
  {
    assert Pow10(4) == 10000 && Pow10(2) == 100;
    PadFieldDigits(d.year, 4);
    PadFieldDigits(d.month, 2);
    PadFieldDigits(d.day, 2);
    DateSlices(PadInt(d.year, 4), PadInt(d.month, 2), PadInt(d.day, 2));
  }

  /**
    A datetime as the scripts compare and subtract it: seconds on a common
    clock, paired with the calendar date that datetime.date() gives.
  */
  datatype Timestamp = Timestamp(seconds: int, date: Date)

  /** later - earlier, as a timedelta. */
  function Elapsed(earlier: Timestamp, later: Timestamp): (td: Timedelta)
    ensures TotalSeconds(td) == later.seconds - earlier.seconds
  {
    FromSeconds(later.seconds - earlier.seconds)
  }
}
