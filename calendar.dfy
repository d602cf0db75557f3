/**
 * Calendar dates without time of day, in the proleptic Gregorian calendar.
 *
 * A `Date` carries the three fields a JavaScript `Date` exposes through
 * `getFullYear`, `getMonth` (here 1-based) and `getDate`.  `DayNumber`
 * counts days from 1 January of year 1, so comparing two dates, or taking
 * `differenceInCalendarDays`, is integer arithmetic on day numbers.
 */
module Calendar {

  datatype Date = Date(year: int, month: int, day: int)

  predicate IsLeapYear(y: int) {
    y % 4 == 0 && (y % 100 != 0 || y % 400 == 0)
  }

  function DaysInMonth(y: int, m: int): (n: int)
    requires 1 <= m <= 12
    ensures 28 <= n <= 31
    ensures n == 31 <==> m in {1, 3, 5, 7, 8, 10, 12}
  {
    if m == 2 then (if IsLeapYear(y) then 29 else 28)
    else if m == 4 || m == 6 || m == 9 || m == 11 then 30
    else 31
  }

  /** A date whose month is 1..12 and whose day exists in that month. */
  predicate Valid(d: Date) {
    1 <= d.month <= 12 && 1 <= d.day <= DaysInMonth(d.year, d.month)
  }

  function DaysInYear(y: int): int {
    if IsLeapYear(y) then 366 else 365
  }

  /** Days from 1 January of year 1 to 1 January of year `y` (negative before year 1). */
  function DaysBeforeYear(y: int): int
    decreases if y >= 1 then y - 1 else 1 - y
  {
    if y == 1 then 0
    else if y > 1 then DaysBeforeYear(y - 1) + DaysInYear(y - 1)
    else DaysBeforeYear(y + 1) - DaysInYear(y)
  }

  /** Days from 1 January to the first day of month `m` of year `y`. */
  function DaysBeforeMonth(y: int, m: int): int
    requires 1 <= m <= 12
  {
    if m == 1 then 0 else DaysBeforeMonth(y, m - 1) + DaysInMonth(y, m - 1)
  }

  /** The usual table of cumulative month lengths, one more from March on in a leap year. */
  lemma {:induction false} DaysBeforeMonthValue(y: int, m: int)
    requires 1 <= m <= 12
    ensures DaysBeforeMonth(y, m) ==
      (if m > 2 && IsLeapYear(y) then 1 else 0) +
      (match m
       case 1 => 0   case 2 => 31  case 3 => 59   case 4 => 90
       case 5 => 120 case 6 => 151 case 7 => 181  case 8 => 212
       case 9 => 243 case 10 => 273 case 11 => 304 case _ => 334)
  {
    if m > 1 {
      DaysBeforeMonthValue(y, m - 1);
    }
  }

  /** The day number of `d`; the `day` field may lie outside its month. */
  function DayNumber(d: Date): int
    requires 1 <= d.month <= 12
  {
    DaysBeforeYear(d.year) + DaysBeforeMonth(d.year, d.month) + d.day - 1
  }

  lemma MonthStep(y: int, m: int)
    requires 1 <= m < 12
    ensures DaysBeforeMonth(y, m + 1) == DaysBeforeMonth(y, m) + DaysInMonth(y, m)
  {
  }

  lemma YearStep(y: int)
    ensures DaysBeforeYear(y + 1) == DaysBeforeYear(y) + DaysBeforeMonth(y, 12) + 31
  {
    DaysBeforeMonthValue(y, 12);
  }

  /** A later year starts no earlier than an earlier one ends. */
  lemma {:induction false} YearsOrdered(y: int, y': int)
    requires y < y'
    ensures DaysBeforeYear(y) + DaysInYear(y) <= DaysBeforeYear(y')
    decreases y' - y
  {
    if y + 1 < y' {
      YearsOrdered(y, y' - 1);
      assert DaysBeforeYear(y') == DaysBeforeYear(y' - 1) + DaysInYear(y' - 1);
    }
  }

  /** A valid date's day number falls inside its own year. */
  lemma DayNumberInYear(d: Date)
    requires Valid(d)
    ensures DaysBeforeYear(d.year) <= DayNumber(d) < DaysBeforeYear(d.year) + DaysInYear(d.year)
  {
    DaysBeforeMonthValue(d.year, d.month);
  }

  /** A month `m'` at or after `m` in the same year starts no earlier than `m` ends. */
  lemma {:induction false} MonthsOrdered(y: int, m: int, m': int)
    requires 1 <= m < m' <= 12
    ensures DaysBeforeMonth(y, m') >= DaysBeforeMonth(y, m) + DaysInMonth(y, m)
    decreases m' - m
  {
    MonthStep(y, m);
    if m + 1 < m' {
      MonthsOrdered(y, m + 1, m');
    }
  }

  /**
   * `a <= b` for dates without time of day, as JavaScript compares two
   * `Date`s by their time value: by year, then month, then day.
   */
  predicate OnOrBefore(a: Date, b: Date) {
    a.year < b.year || (a.year == b.year && (a.month < b.month || (a.month == b.month && a.day <= b.day)))
  }

  /** On valid dates, that order and equality are the order and equality of day numbers. */
  lemma OrderByDayNumber(a: Date, b: Date)
    requires Valid(a) && Valid(b)
    ensures OnOrBefore(a, b) <==> DayNumber(a) <= DayNumber(b)
    ensures a == b <==> DayNumber(a) == DayNumber(b)
  {
    if a.year != b.year {
      var (x, z) := if a.year < b.year then (a, b) else (b, a);
      DayNumberInYear(x);
      DayNumberInYear(z);
      YearsOrdered(x.year, z.year);
    } else if a.month < b.month {
      MonthsOrdered(a.year, a.month, b.month);
    } else if b.month < a.month {
      MonthsOrdered(a.year, b.month, a.month);
    }
  }

  /**
   * JavaScript's `setDate(n)` for `n >= 1` on a date in month `m` of year
   * `y`: day `n` of that month, carried forward into later months (and
   * years) when `n` exceeds the month's length.
   */
  function SetDate(y: int, m: int, n: int): (r: Date)
    requires 1 <= m <= 12 && n >= 1
    ensures Valid(r)
    decreases n
  {
    if n <= DaysInMonth(y, m) then Date(y, m, n)
    else if m == 12 then SetDate(y + 1, 1, n - 31)
    else SetDate(y, m + 1, n - DaysInMonth(y, m))
  }

  /** `setDate(n)` lands `n - 1` days after the first of the month. */
  lemma {:induction false} SetDateDayNumber(y: int, m: int, n: int)
    requires 1 <= m <= 12 && n >= 1
    ensures DayNumber(SetDate(y, m, n)) == DayNumber(Date(y, m, 1)) + n - 1
    decreases n
  {
    if n > DaysInMonth(y, m) {
      if m == 12 {
        YearStep(y);
        SetDateDayNumber(y + 1, 1, n - 31);
      } else {
        MonthStep(y, m);
        SetDateDayNumber(y, m + 1, n - DaysInMonth(y, m));
      }
    }
  }

  /** The date `k >= 0` days after `d`, as `d.setDate(d.getDate() + k)` computes it. */
  function AddDays(d: Date, k: nat): Date
    requires Valid(d)
  {
    SetDate(d.year, d.month, d.day + k)
  }

  /** The last day of month `m` of year `y`: what `setMonth(m, 0)` (0-based `m`) lands on. */
  function LastOfMonth(y: int, m: int): Date
    requires 1 <= m <= 12
  {
    Date(y, m, DaysInMonth(y, m))
  }

  /** First and last (1-based) month of the calendar quarter holding month `m`. */
  function QuarterFirstMonth(m: int): int requires 1 <= m <= 12 { (m - 1) / 3 * 3 + 1 }
  function QuarterLastMonth(m: int): int requires 1 <= m <= 12 { (m - 1) / 3 * 3 + 3 }

  /** JavaScript's `getDay()` of the date with day number `n`: 0 = Sunday .. 6 = Saturday. */
  function WeekdayOfNumber(n: int): int { (n + 1) % 7 }

  function Weekday(d: Date): (w: int)
    requires 1 <= d.month <= 12
    ensures 0 <= w < 7
  {
    WeekdayOfNumber(DayNumber(d))
  }

  const WeekdayNames: seq<string> :=
    ["Sunday", "Monday", "Tuesday", "Wednesday", "Thursday", "Friday", "Saturday"]

  /** The long English weekday name (`toLocaleDateString("en-US", {weekday: "long"})`). */
  function WeekdayName(d: Date): string
    requires 1 <= d.month <= 12
  {
    WeekdayNames[Weekday(d)]
  }

  /** 1-based position of `d` in its calendar quarter (`differenceInCalendarDays(d, startOfQuarter(d)) + 1`). */
  function DayOfQuarter(d: Date): int
    requires 1 <= d.month <= 12
  {
    DayNumber(d) - DayNumber(Date(d.year, QuarterFirstMonth(d.month), 1)) + 1
  }

  /** 1-based position of `d` in its year (`differenceInCalendarDays(d, startOfYear(d)) + 1`). */
  function DayOfYear(d: Date): int
    requires 1 <= d.month <= 12
  {
    DayNumber(d) - DayNumber(Date(d.year, 1, 1)) + 1
  }

  lemma DayOfYearRange(d: Date)
    requires Valid(d)
    ensures 1 <= DayOfYear(d) <= (if IsLeapYear(d.year) then 366 else 365)
    ensures d.month == 12 && d.day == 31 ==> DayOfYear(d) == (if IsLeapYear(d.year) then 366 else 365)
  {
    DaysBeforeMonthValue(d.year, d.month);
  }

  lemma DayOfQuarterRange(d: Date)
    requires Valid(d)
    ensures 1 <= DayOfQuarter(d) <= 92
    ensures d.month == QuarterFirstMonth(d.month) ==> DayOfQuarter(d) == d.day
  {
    DaysBeforeMonthValue(d.year, d.month);
    DaysBeforeMonthValue(d.year, QuarterFirstMonth(d.month));
  }

  /** Adding `k` days moves the day number by `k` and the weekday by `k` modulo 7. */
  lemma AddDaysShift(d: Date, k: nat)
    requires Valid(d)
    ensures Valid(AddDays(d, k))
    ensures DayNumber(AddDays(d, k)) == DayNumber(d) + k
    ensures Weekday(AddDays(d, k)) == (Weekday(d) + k) % 7
  {
    var n := DayNumber(d);
    SetDateDayNumber(d.year, d.month, d.day + k);
    WeekdayShift(n, k);
  }

  lemma WeekdayShift(n: int, k: int)
    ensures WeekdayOfNumber(n + k) == (WeekdayOfNumber(n) + k) % 7
  {
  }
}
