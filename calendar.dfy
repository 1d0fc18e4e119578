// Calendar arithmetic used by the habit store: local calendar dates, the
// day count SQLite's julianday() differences and JavaScript's midnight
// timestamps compare, the weekday Date.prototype.getDay() reports, and the
// delay scheduleDailyUpdate waits before the next midnight.

module Calendar {

  /** A (year, month, day) triple as JavaScript's date getters report it. */
  datatype CivilDate = CivilDate(year: int, month: nat, day: nat)

  predicate IsLeapYear(y: int) {
    y % 4 == 0 && (y % 100 != 0 || y % 400 == 0)
  }

  function DaysInMonth(y: int, m: nat): (n: nat)
    requires 1 <= m <= 12
    ensures 28 <= n <= 31
    ensures m == 2 ==> (n == 29 <==> IsLeapYear(y))
  {
    if m == 2 then (if IsLeapYear(y) then 29 else 28)
    else if m == 4 || m == 6 || m == 9 || m == 11 then 30
    else 31
  }

  predicate IsValidDate(d: CivilDate) {
    1 <= d.month <= 12 && 1 <= d.day <= DaysInMonth(d.year, d.month)
  }

  /** A real calendar date: every date the clock supplies is one. */
  type Date = d: CivilDate | IsValidDate(d) witness CivilDate(1970, 1, 1)

  /** A time of day in whole seconds after local midnight (fixed 24-hour day). */
  const SecondsPerDay: nat := 86400
  type Seconds = s: nat | s < SecondsPerDay

  /** Calendar order: the order of the dates, field by field. */
  predicate Before(a: CivilDate, b: CivilDate) {
    a.year < b.year
    || (a.year == b.year && (a.month < b.month || (a.month == b.month && a.day < b.day)))
  }

  /** Days from 0001-01-01 to January 1 of year y (proleptic Gregorian). */
  function DaysBeforeYear(y: int): int {
    365 * (y - 1) + (y - 1) / 4 - (y - 1) / 100 + (y - 1) / 400
  }

  function YearLength(y: int): nat {
    if IsLeapYear(y) then 366 else 365
  }

  /** Days in the months of year y that precede month m. */
  function DaysBeforeMonth(y: int, m: nat): (n: nat)
    requires 1 <= m <= 12
    ensures n + DaysInMonth(y, m) <= YearLength(y)
  {
    var leap := if IsLeapYear(y) then 1 else 0;
    if m == 1 then 0
    else if m == 2 then 31
    else if m == 3 then 59 + leap
    else if m == 4 then 90 + leap
    else if m == 5 then 120 + leap
    else if m == 6 then 151 + leap
    else if m == 7 then 181 + leap
    else if m == 8 then 212 + leap
    else if m == 9 then 243 + leap
    else if m == 10 then 273 + leap
    else if m == 11 then 304 + leap
    else 334 + leap
  }

  /** Days since 1970-01-01: the difference julianday() yields, and the
      number of days between the local midnights JavaScript compares. */
  function DayNumber(d: Date): int {
    DaysBeforeYear(d.year) + DaysBeforeMonth(d.year, d.month) + d.day - 1 - 719162
  }

  /** Date.prototype.getDay(): 0 for Sunday; 1970-01-01 was a Thursday. */
  function DayOfWeek(d: Date): (w: nat)
    ensures w < 7
  {
    (DayNumber(d) + 4) % 7
  }

  /** Between y - 1 and y the quotients by 4, 100 and 400 step up exactly
      when y is a multiple. */
  lemma DivSteps(y: int)
    ensures y / 4 - (y - 1) / 4 == if y % 4 == 0 then 1 else 0
    ensures y / 100 - (y - 1) / 100 == if y % 100 == 0 then 1 else 0
    ensures y / 400 - (y - 1) / 400 == if y % 400 == 0 then 1 else 0
  {
  }

  lemma {:induction false} YearStep(y: int)
    ensures DaysBeforeYear(y + 1) == DaysBeforeYear(y) + YearLength(y)
  {
    DivSteps(y);
    var s4, s100, s400 := y / 4 - (y - 1) / 4, y / 100 - (y - 1) / 100, y / 400 - (y - 1) / 400;
    assert DaysBeforeYear(y + 1) == DaysBeforeYear(y) + 365 + s4 - s100 + s400;
    if y % 400 == 0 {
      MultipleOf400(y);
    } else if y % 100 == 0 {
      MultipleOf100(y);
    }
  }

  lemma MultipleOf400(y: int)
    requires y % 400 == 0
    ensures y % 100 == 0 && y % 4 == 0
  {
    var q, p := y / 400, y / 100;
    assert y == 400 * q;
    assert y == 100 * p + y % 100;
    assert y % 100 == 100 * (4 * q - p);
    MultipleOf100(y);
  }

  lemma MultipleOf100(y: int)
    requires y % 100 == 0
    ensures y % 4 == 0
  {
    var q, p := y / 100, y / 4;
    assert y == 100 * q;
    assert y == 4 * p + y % 4;
    assert y % 4 == 4 * (25 * q - p);
  }

  /** Dates of later years start at later day numbers. */
  lemma {:induction false} YearsAscend(a: int, b: int)
    requires a < b
    ensures DaysBeforeYear(a) + YearLength(a) <= DaysBeforeYear(b)
    decreases b - a
  {
    YearStep(a);
    if a + 1 < b {
      YearsAscend(a + 1, b);
    }
  }

  lemma MonthsAscend(y: int, a: nat, b: nat)
    requires 1 <= a < b <= 12
    ensures DaysBeforeMonth(y, a) + DaysInMonth(y, a) <= DaysBeforeMonth(y, b)
  {
  }

  lemma BeforeDayNumber(x: Date, z: Date)
    requires Before(x, z)
    ensures DayNumber(x) < DayNumber(z)
  {
    if x.year < z.year {
      YearsAscend(x.year, z.year);
    } else if x.month < z.month {
      MonthsAscend(x.year, x.month, z.month);
    }
  }

  /** Comparing day numbers (the midnight timestamps of checkLastUpdate, the
      julianday values of the streak table) is comparing calendar dates. */
  lemma BeforeIffDayNumber(a: Date, b: Date)
    ensures Before(a, b) <==> DayNumber(a) < DayNumber(b)
    ensures a == b <==> DayNumber(a) == DayNumber(b)
  {
    if Before(a, b) {
      BeforeDayNumber(a, b);
    } else if Before(b, a) {
      BeforeDayNumber(b, a);
    } else {
      assert a == b;
    }
  }

  /** The calendar day before d. */
  function PrevDay(d: Date): (r: Date)
    ensures Before(r, d)
  {
    if d.day > 1 then CivilDate(d.year, d.month, d.day - 1)
    else if d.month > 1 then CivilDate(d.year, d.month - 1, DaysInMonth(d.year, d.month - 1))
    else CivilDate(d.year - 1, 12, 31)
  }

  lemma MonthStep(y: int, m: nat)
    requires 1 <= m < 12
    ensures DaysBeforeMonth(y, m + 1) == DaysBeforeMonth(y, m) + DaysInMonth(y, m)
  {
  }

  /** The day before has the day number one less, so `julianday` and the
      midnight timestamps count it one day earlier. */
  lemma PrevDayNumber(d: Date)
    ensures DayNumber(PrevDay(d)) == DayNumber(d) - 1
  {
    if d.day == 1 {
      if d.month > 1 {
        MonthStep(d.year, d.month - 1);
      } else {
        YearStep(d.year - 1);
      }
    }
  }

  const MsPerDay: nat := 86400000

  /** nextMidnight - now in scheduleDailyUpdate, for a time of day given in
      milliseconds within a fixed 24-hour day: the wait is positive, at most
      one day, and ends exactly on a midnight. */
  function MsUntilMidnight(msOfDay: nat): (delay: int)
    requires msOfDay < MsPerDay
    ensures 0 < delay <= MsPerDay
    ensures (msOfDay + delay) % MsPerDay == 0
  {
    MsPerDay - msOfDay
  }
}
