/**
 * Recurrence matching of a change rule (`ruleMatches`): is a calendar date
 * one on which the rule fires?  The recurrence is the `between` label picked
 * in the rule form and the free-text `betweenValue` typed next to it.
 */
module RuleMatch {
  import opened Wrappers
  import opened Calendar
  import opened JsText
  import JsMath

  datatype Recurrence = Recurrence(between: string, betweenValue: string)

  const DayOfWeek := "Day of Week"
  const DateOfMonth := "Date of Month"
  const DateOfQuarter := "Date of Quarter"
  const DateOfYear := "Date of Year"
  const NumberOfDays := "Number of days (from start date of change date range)"

  /**
   * Does `rowDate` match recurrence `r` of a rule starting on `changeStart`?
   * Numeric values go through `Number(betweenValue)`; `None` (NaN) compares
   * unequal to everything.  An unknown label never matches.
   */
  function RuleMatches(r: Recurrence, rowDate: Date, changeStart: Date): (m: bool)
    requires Valid(rowDate) && Valid(changeStart)
    ensures r.between !in {DayOfWeek, DateOfMonth, DateOfQuarter, DateOfYear, NumberOfDays} ==> !m
    ensures m && r.between == DayOfWeek ==> r.betweenValue in WeekdayNames
    ensures m && r.between == NumberOfDays ==> DayNumber(rowDate) >= DayNumber(changeStart)
  {
    if r.between == DayOfWeek then
      WeekdayName(rowDate) == r.betweenValue
    else if r.between == DateOfMonth then
      JsNumber(r.betweenValue) == Some(rowDate.day as real)
    else if r.between == DateOfQuarter then
      JsNumber(r.betweenValue) == Some(DayOfQuarter(rowDate) as real)
    else if r.between == DateOfYear then
      JsNumber(r.betweenValue) == Some(DayOfYear(rowDate) as real)
    else if r.between == NumberOfDays then
      match JsNumber(r.betweenValue)
      case None => false
      case Some(interval) =>
        var diff := Elapsed(rowDate, changeStart);
        if interval <= 0.0 then false
        else if diff < 0 then false
        else if interval == 1.0 then true
        else JsMath.Remainder(diff as real, interval) == interval - 1.0
    else
      false
  }

  /** `differenceInCalendarDays(rowDate, changeStart)`. */
  function Elapsed(rowDate: Date, changeStart: Date): int
    requires Valid(rowDate) && Valid(changeStart)
  {
    DayNumber(rowDate) - DayNumber(changeStart)
  }

  /**
   * With a whole-number interval `n`, "Number of days" fires iff `n >= 1`,
   * the date is on or after the rule start, and either `n == 1` or the
   * distance from the start is `n - 1` modulo `n`.
   */
  lemma NumberOfDaysWhole(v: string, n: int, rowDate: Date, changeStart: Date)
    requires Valid(rowDate) && Valid(changeStart)
    requires JsNumber(v) == Some(n as real)
    ensures var diff := Elapsed(rowDate, changeStart);
      RuleMatches(Recurrence(NumberOfDays, v), rowDate, changeStart) <==>
        n >= 1 && diff >= 0 && (n == 1 || diff % n == n - 1)
  {
    var diff := Elapsed(rowDate, changeStart);
    if n > 1 && diff >= 0 {
      JsMath.IntRemainder(diff, n);
    }
  }

  /**
   * Within the block of `n` days that starts `b * n` days after the rule
   * start, a whole-number interval `n` fires on the last day of the block
   * and on no other: exactly once per block.
   */
  lemma {:induction false} NumberOfDaysOncePerBlock(v: string, n: int, b: nat, j: int,
                                                    rowDate: Date, changeStart: Date)
    requires Valid(rowDate) && Valid(changeStart)
    requires JsNumber(v) == Some(n as real) && n >= 1
    requires 0 <= j < n && Elapsed(rowDate, changeStart) == b * n + j
    ensures RuleMatches(Recurrence(NumberOfDays, v), rowDate, changeStart) <==> j == n - 1
  {
    var diff := Elapsed(rowDate, changeStart);
    ModUnique(diff, n, b, j);
    NonNegProduct(b, n);
    NumberOfDaysWhole(v, n, rowDate, changeStart);
  }

  /** Euclidean division is unique: a quotient/remainder pair with `0 <= r < n` is `x / n`, `x % n`. */
  lemma ModUnique(x: int, n: int, q: int, r: int)
    requires n > 0 && 0 <= r < n && x == q * n + r
    ensures x % n == r
  {
    var q', r' := x / n, x % n;
    assert (q - q') * n == r' - r;
    if q > q' {
      MulAtLeast(q - q', n);
    } else if q < q' {
      MulAtLeast(q' - q, n);
    }
  }

  lemma NonNegProduct(b: nat, n: int)
    requires n >= 1
    ensures b * n >= 0
  {
  }

  lemma MulAtLeast(k: int, n: int)
    requires k >= 1 && n > 0
    ensures k * n >= n
  {
    assert k * n == n + (k - 1) * n;
  }

  /** A "Day of Week" rule matches a date iff it matches the same weekday one week later. */
  lemma DayOfWeekWeekly(v: string, d: Date, changeStart: Date)
    requires Valid(d) && Valid(changeStart)
    ensures Valid(AddDays(d, 7))
    ensures RuleMatches(Recurrence(DayOfWeek, v), d, changeStart) <==>
            RuleMatches(Recurrence(DayOfWeek, v), AddDays(d, 7), changeStart)
  {
    AddDaysShift(d, 7);
  }

  /** `x` is a number with no fractional part lying in `lo..hi`. */
  predicate IsWholeIn(x: Option<real>, lo: int, hi: int) {
    x.Some? && x.value.Floor as real == x.value && lo as real <= x.value <= hi as real
  }

  /**
   * The three calendar-position kinds fire only for whole numbers within the
   * range of the position: 1..31 in a month, 1..92 in a quarter, 1..366 in a year.
   */
  lemma CalendarPositionRanges(v: string, d: Date, changeStart: Date)
    requires Valid(d) && Valid(changeStart)
    ensures RuleMatches(Recurrence(DateOfMonth, v), d, changeStart) ==>
      IsWholeIn(JsNumber(v), 1, 31)
    ensures RuleMatches(Recurrence(DateOfQuarter, v), d, changeStart) ==>
      IsWholeIn(JsNumber(v), 1, 92)
    ensures RuleMatches(Recurrence(DateOfYear, v), d, changeStart) ==>
      IsWholeIn(JsNumber(v), 1, 366)
  {
    DayOfQuarterRange(d);
    DayOfYearRange(d);
  }

  /**
   * A value typed as the decimal numeral of `k` fires exactly on the dates
   * whose day of the month, day of the quarter or day of the year is `k`.
   */
  lemma CalendarPositionNumerals(k: nat, d: Date, changeStart: Date)
    requires Valid(d) && Valid(changeStart)
    ensures RuleMatches(Recurrence(DateOfMonth, NatToString(k)), d, changeStart) <==> d.day == k
    ensures RuleMatches(Recurrence(DateOfQuarter, NatToString(k)), d, changeStart) <==> DayOfQuarter(d) == k
    ensures RuleMatches(Recurrence(DateOfYear, NatToString(k)), d, changeStart) <==> DayOfYear(d) == k
  {
    var v := NatToString(k);
    JsNumberOfNumeral(k);
    assert RuleMatches(Recurrence(DateOfMonth, v), d, changeStart) <==> d.day == k by {
      NumeralEquals(v, k, d.day);
    }
    assert RuleMatches(Recurrence(DateOfQuarter, v), d, changeStart) <==> DayOfQuarter(d) == k by {
      NumeralEquals(v, k, DayOfQuarter(d));
    }
    assert RuleMatches(Recurrence(DateOfYear, v), d, changeStart) <==> DayOfYear(d) == k by {
      NumeralEquals(v, k, DayOfYear(d));
    }
  }

  lemma NumeralEquals(v: string, k: nat, x: int)
    requires JsNumber(v) == Some(k as real)
    ensures JsNumber(v) == Some(x as real) <==> x == k
  {
  }
}
