/** The proleptic Gregorian calendar of Python's `date`, and pandas timestamps as a calendar
    date plus a time of day. */
module Calendar {
  import opened NumberFormat

  predicate IsLeapYear(y: int) {
    y % 4 == 0 && (y % 100 != 0 || y % 400 == 0)
  }

  function YearLength(y: int): int {
    if IsLeapYear(y) then 366 else 365
  }

  function DaysInMonth(y: int, m: int): int
    requires 1 <= m <= 12
  {
    if m == 2 then (if IsLeapYear(y) then 29 else 28)
    else if m == 4 || m == 6 || m == 9 || m == 11 then 30
    else 31
  }

  /** Days of year `y` before the first day of month `m`; month 13 stands for the next
      year's first day. */
  function DaysBeforeMonth(y: int, m: int): int
    requires 1 <= m <= 13
  {
    [0, 31, 59, 90, 120, 151, 181, 212, 243, 273, 304, 334, 365][m - 1]
      + (if m > 2 && IsLeapYear(y) then 1 else 0)
  }

  /** Days from 0001-01-01 to the first day of year `y`. */
  function DaysBeforeYear(y: int): int
    requires y >= 1
  {
    var p := y - 1;
    365 * p + p / 4 - p / 100 + p / 400
  }

  lemma MonthStep(y: int, m: int)
    requires 1 <= m <= 12
    ensures DaysBeforeMonth(y, m + 1) == DaysBeforeMonth(y, m) + DaysInMonth(y, m)
  {
  }

  lemma DivStep(p: int, k: int)
    requires p >= 0 && (k == 4 || k == 100 || k == 400)
    ensures (p + 1) / k == p / k + (if (p + 1) % k == 0 then 1 else 0)
  {
  }

  /** A multiple of 400 is a multiple of 100 and of 4. */
  lemma MultipleOf400(y: int)
    requires y % 400 == 0
    ensures y % 100 == 0 && y % 4 == 0
  {
    var q := y / 400;
    assert y == 100 * (4 * q);
    assert y == 4 * (100 * q);
  }

  /** A multiple of 100 is a multiple of 4. */
  lemma MultipleOf100(y: int)
    requires y % 100 == 0
    ensures y % 4 == 0
  {
    var q := y / 100;
    assert y == 4 * (25 * q);
  }

  lemma YearStep(y: int)
    requires y >= 1
    ensures DaysBeforeYear(y + 1) == DaysBeforeYear(y) + YearLength(y)
  {
    var p := y - 1;
    DivStep(p, 4);
    DivStep(p, 100);
    DivStep(p, 400);
    if y % 400 == 0 {
      MultipleOf400(y);
    } else if y % 100 == 0 {
      MultipleOf100(y);
    }
    var leap := (if y % 4 == 0 then 1 else 0) - (if y % 100 == 0 then 1 else 0)
                + (if y % 400 == 0 then 1 else 0);
    assert YearLength(y) == 365 + leap;
    assert DaysBeforeYear(y + 1) == 365 * p + 365 + (p + 1) / 4 - (p + 1) / 100 + (p + 1) / 400;
  }

  datatype Date = Date(year: int, month: int, day: int)

  predicate IsValidDate(d: Date) {
    1 <= d.year <= 9999 && 1 <= d.month <= 12 && 1 <= d.day <= DaysInMonth(d.year, d.month)
  }

  /** A date Python's `date` type can hold. */
  type CalendarDate = d: Date | IsValidDate(d) witness Date(1970, 1, 1)

  /** Days since 0001-01-01 (Python's `date.toordinal()` minus one). */
  function DayNumber(d: CalendarDate): int {
    DaysBeforeYear(d.year) + DaysBeforeMonth(d.year, d.month) + d.day - 1
  }

  /** The calendar day before `d`. */
  function PreviousDay(d: CalendarDate): (r: CalendarDate)
    requires DayNumber(d) >= 1
    ensures DayNumber(r) == DayNumber(d) - 1
  {
    if d.day > 1 then Date(d.year, d.month, d.day - 1)
    else if d.month > 1 then
      MonthStep(d.year, d.month - 1);
      Date(d.year, d.month - 1, DaysInMonth(d.year, d.month - 1))
    else
      YearStep(d.year - 1);
      Date(d.year - 1, 12, 31)
  }

  /** `d - timedelta(days=n)`. */
  function MinusDays(d: CalendarDate, n: nat): (r: CalendarDate)
    requires DayNumber(d) >= n
    ensures DayNumber(r) == DayNumber(d) - n
    decreases n
  {
    if n == 0 then d else MinusDays(PreviousDay(d), n - 1)
  }

  lemma {:induction false} DaysBeforeYearMonotone(a: int, b: int)
    requires 1 <= a <= b
    ensures DaysBeforeYear(a) + (b - a) * 365 <= DaysBeforeYear(b)
    decreases b - a
  {
    if a < b {
      YearStep(a);
      DaysBeforeYearMonotone(a + 1, b);
    }
  }

  /** Day numbers follow the order of (year, month, day): comparing day numbers is comparing
      dates. */
  lemma DayNumberOrdersDates(a: CalendarDate, b: CalendarDate)
    requires a.year < b.year
          || (a.year == b.year && a.month < b.month)
          || (a.year == b.year && a.month == b.month && a.day < b.day)
    ensures DayNumber(a) < DayNumber(b)
  {
    if a.year < b.year {
      MonthStep(a.year, a.month);
      YearStep(a.year);
      DaysBeforeYearMonotone(a.year + 1, b.year);
    } else if a.month < b.month {
      MonthStep(a.year, a.month);
    }
  }

  /** `str(date)`: ISO 8601, `YYYY-MM-DD`, zero padded. */
  function IsoDate(d: CalendarDate): (r: string)
    ensures |r| == 10 && r[4] == '-' && r[7] == '-'
    ensures AllDigits(r[..4]) && AllDigits(r[5..7]) && AllDigits(r[8..])
  {
    assert Pow10(4) == 10000 && Pow10(2) == 100;
    var r := Fixed(d.year, 4) + "-" + Fixed(d.month, 2) + "-" + Fixed(d.day, 2);
    assert r[..4] == Fixed(d.year, 4) && r[5..7] == Fixed(d.month, 2) && r[8..] == Fixed(d.day, 2);
    r
  }

  /** Reads the three fields of an ISO date string. */
  function ParseIsoDate(s: string): Date
    requires |s| == 10
  {
    Date(DecValue(s[..4]), DecValue(s[5..7]), DecValue(s[8..]))
  }

  /** The rendered date determines the date. */
  lemma IsoDateReadsBack(d: CalendarDate)
    ensures ParseIsoDate(IsoDate(d)) == d
  {
    assert Pow10(4) == 10000 && Pow10(2) == 100;
    var r := IsoDate(d);
    assert r[..4] == Fixed(d.year, 4);
    assert r[5..7] == Fixed(d.month, 2);
    assert r[8..] == Fixed(d.day, 2);
  }

  /** A point in time: a calendar date and the seconds elapsed since its midnight. */
  datatype Stamp = Stamp(date: CalendarDate, secs: int)

  /** A pandas `Timestamp`: the time of day lies within the day and the year lies in the
      whole years that pandas' nanosecond timestamps cover. */
  type Timestamp = s: Stamp | 0 <= s.secs < 86400 && 1678 <= s.date.year <= 2261
    witness Stamp(Date(1970, 1, 1), 0)

  /** Seconds since 0001-01-01 00:00: the quantity pandas compares timestamps by. */
  function Instant(s: Stamp): int {
    DayNumber(s.date) * 86400 + s.secs
  }

  /** `pd.to_datetime(d)` for a date: its midnight. */
  function Midnight(d: CalendarDate): (r: Stamp)
    ensures r.date == d && Instant(r) == DayNumber(d) * 86400
    ensures forall t: Timestamp :: t.date == d ==> Instant(t) == Instant(r) + t.secs
  {
    Stamp(d, 0)
  }

  /** Every timestamp lies at least a year after 0001-01-01. */
  lemma TimestampAfterFirstYear(t: Timestamp)
    ensures DayNumber(t.date) >= 365
  {
    DaysBeforeYearMonotone(1, t.date.year);
  }

  /** `t - timedelta(days=n)` for a timestamp: same time of day, `n` days earlier. */
  function StampMinusDays(t: Timestamp, n: nat): (r: Stamp)
    requires DayNumber(t.date) >= n
    ensures Instant(r) == Instant(t) - n * 86400
    ensures r.secs == t.secs
  {
    Stamp(MinusDays(t.date, n), t.secs)
  }
}
