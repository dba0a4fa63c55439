/** The proleptic Gregorian calendar of Python's `datetime` module, as far
    as the cron and sqlite3 helpers use it: field ranges, day ordinals,
    weekdays and stepping a wall-clock time forward by one minute. */
module Calendar {

  const MinYear := 1
  const MaxYear := 9999

  /** A naive date and time: the fields of `datetime.datetime`. */
  datatype DateTime = DateTime(year: int, month: int, day: int,
                               hour: int, minute: int, second: int,
                               microsecond: int)

  predicate IsLeap(year: int) {
    year % 4 == 0 && (year % 100 != 0 || year % 400 == 0)
  }

  function DaysInMonth(year: int, month: int): (r: int)
    requires 1 <= month <= 12
    ensures 28 <= r <= 31
    ensures month == 2 ==> (r == 29 <==> IsLeap(year))
  {
    if month == 2 then (if IsLeap(year) then 29 else 28)
    else if month == 4 || month == 6 || month == 9 || month == 11 then 30
    else 31
  }

  /** The date fields `datetime` accepts. */
  predicate ValidDate(year: int, month: int, day: int) {
    MinYear <= year <= MaxYear && 1 <= month <= 12 && 1 <= day <= DaysInMonth(year, month)
  }

  /** The fields the `datetime` constructor accepts. */
  predicate Valid(t: DateTime) {
    ValidDate(t.year, t.month, t.day) &&
    0 <= t.hour < 24 && 0 <= t.minute < 60 && 0 <= t.second < 60 &&
    0 <= t.microsecond < 1000000
  }

  /** Days in the years before `year` (year 1 starts at day 0). */
  function DaysBeforeYear(year: int): int {
    var y := year - 1;
    y * 365 + y / 4 - y / 100 + y / 400
  }

  /** Days in the months of `year` before `month`: the cumulative month
      table plus the leap day once February is past. */
  function DaysBeforeMonth(year: int, month: int): (r: int)
    requires 1 <= month <= 12
    ensures 0 <= r <= 335
  {
    [0, 31, 59, 90, 120, 151, 181, 212, 243, 273, 304, 334][month - 1] +
    (if month > 2 && IsLeap(year) then 1 else 0)
  }

  /** `date.toordinal()`: 0001-01-01 is day 1. */
  function Ordinal(year: int, month: int, day: int): int
    requires 1 <= month <= 12
  {
    DaysBeforeYear(year) + DaysBeforeMonth(year, month) + day
  }

  /** `datetime.isoweekday()`: Monday is 1 and Sunday is 7. */
  function IsoWeekday(t: DateTime): (r: int)
    requires 1 <= t.month <= 12
    ensures 1 <= r <= 7
  {
    (Ordinal(t.year, t.month, t.day) + 6) % 7 + 1
  }

  /** Minutes since the start of the calendar, the measure by which
      `timedelta(minutes=1)` moves a time. */
  function Minutes(t: DateTime): int
    requires 1 <= t.month <= 12
  {
    (Ordinal(t.year, t.month, t.day) * 24 + t.hour) * 60 + t.minute
  }

  /** `t + timedelta(minutes=1)`, carrying into the hour, day, month and
      year; the result may lie past year 9999, where Python raises
      OverflowError (see Representable). */
  function AddMinute(t: DateTime): (r: DateTime)
    requires Valid(t)
    ensures r.second == t.second && r.microsecond == t.microsecond
    ensures Representable(t) ==> Valid(r)
  {
    if t.minute < 59 then t.(minute := t.minute + 1)
    else if t.hour < 23 then t.(hour := t.hour + 1, minute := 0)
    else if t.day < DaysInMonth(t.year, t.month) then t.(day := t.day + 1, hour := 0, minute := 0)
    else if t.month < 12 then t.(month := t.month + 1, day := 1, hour := 0, minute := 0)
    else t.(year := t.year + 1, month := 1, day := 1, hour := 0, minute := 0)
  }

  /** Adding a minute stays inside `datetime`'s range except from the last
      minute of year 9999. */
  predicate Representable(t: DateTime)
    requires Valid(t)
  {
    !(t.year == MaxYear && t.month == 12 && t.day == 31 && t.hour == 23 && t.minute == 59)
  }

  lemma DaysBeforeYearStep(year: int)
    requires year >= 1
    ensures DaysBeforeYear(year + 1) == DaysBeforeYear(year) + (if IsLeap(year) then 366 else 365)
  {
    var y := year - 1;
    assert (y + 1) / 4 == y / 4 + (if year % 4 == 0 then 1 else 0);
    assert (y + 1) / 100 == y / 100 + (if year % 100 == 0 then 1 else 0);
    assert (y + 1) / 400 == y / 400 + (if year % 400 == 0 then 1 else 0);
  }

  lemma DaysBeforeMonthStep(year: int, month: int)
    requires 1 <= month < 12
    ensures DaysBeforeMonth(year, month + 1) == DaysBeforeMonth(year, month) + DaysInMonth(year, month)
  {
  }

  lemma DaysInYear(year: int)
    ensures DaysBeforeMonth(year, 12) + DaysInMonth(year, 12) == if IsLeap(year) then 366 else 365
  {
  }

  /** Adding a minute gives a valid time exactly one minute later, with the
      same seconds and microseconds; from any representable time it stays
      within year 9999. */
  lemma AddMinuteAdvances(t: DateTime)
    requires Valid(t)
    ensures var r := AddMinute(t);
      1 <= r.month <= 12 && Minutes(r) == Minutes(t) + 1 &&
      (Representable(t) ==> Valid(r))
  {
    var r := AddMinute(t);
    if t.minute == 59 && t.hour == 23 && t.day == DaysInMonth(t.year, t.month) {
      if t.month < 12 {
        DaysBeforeMonthStep(t.year, t.month);
      } else {
        DaysBeforeYearStep(t.year);
        DaysInYear(t.year);
      }
    }
  }

  /** 2024-01-01 was a Monday. */
  lemma IsoWeekdayExample()
    ensures IsoWeekday(DateTime(2024, 1, 1, 0, 0, 0, 0)) == 1
    ensures Ordinal(2024, 1, 1) == 738886
  {
    assert 2023 / 4 == 505 && 2023 / 100 == 20 && 2023 / 400 == 5;
    assert DaysBeforeYear(2024) == 2023 * 365 + 505 - 20 + 5 == 738885;
    assert DaysBeforeMonth(2024, 1) == 0;
    assert 738892 % 7 == 0;
  }
}
