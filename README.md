# Variables Project: rule engine, period splitting and metrics in Dafny

This project models the three utility modules behind the Variables
Project's projections, and proves properties of the model:

- `src/utils/ruleEngine.js`. `ruleMatches` decides on which calendar dates
  a change rule fires: a weekday name, a day of the month, of the quarter or
  of the year, or every N days from the rule's start. `applyBy` moves a
  variable's previous value by a "BY" expression. `applyByIndependent`
  computes a value from a row of the master table. Both take a numeric
  shorthand (`+10`, `*1.1`, `col / 2`) or hand the text to `_safeEval`.
  `_safeEval` evaluates with the helpers `rem`, `trunc`, `round`, `roundUp`,
  `roundDown`, `AND`, `OR`, `NOT` and `IF`, and it fails closed.
- `src/utils/dateMath.js`. `splitIntoPeriods` walks a cursor date from
  `from` to `to`. It emits Daily, Weekly, Monthly, Quarterly or Annual
  periods, each clipped to `to`.
- `src/utils/metrics.js`. `calcMetric` keeps the numeric entries of a
  list. It reduces them to their Average, Median, Mode, Max or Min, or
  returns `""`.

Modules, one per file:

- `Wrappers` (`wrappers.dfy`): `Option`, `Result`, and one sequence fact.
- `Calendar` (`calendar.dfy`): proleptic Gregorian dates.
  - A `Date` has year, month and day fields.
  - A day number counts from 1 January of year 1.
  - `SetDate` is JavaScript's `setDate`, including its carry into later
    months.
  - Also: weekdays, day of quarter and day of year.
- `JsText` (`js_text.dfy`): `String.prototype.trim`, and `Number(s)` on
  decimal strings.
- `JsMath` (`js_math.dfy`): `Math.trunc`, `floor`, `ceil`, `round`, `abs`,
  and the `%` operator, over exact reals.
- `Expressions` (`expressions.dfy`): the helpers and `_safeEval`.
  - The expression language is an abstract syntax tree with an evaluator.
  - Parsing, which the source does with a regex normaliser and the
    JavaScript `Function` constructor, is a parameter: `Host.parse` is a
    partial function from text to a tree.
- `RuleMatch` (`rule_match.dfy`): `ruleMatches`.
- `RuleEngine` (`rule_engine.dfy`): `applyBy` and `applyByIndependent`.
  - Includes the column-shorthand regular expression as a matcher.
- `DateMath` (`date_math.dfy`): `splitIntoPeriods`.
  - An imperative method whose loop is proved against a recursive walk.
  - The evidently intended contiguous walk, for comparison.
- `Metrics` (`metrics.dfy`): `calcMetric`, `average`, `median`, and `mode`.
  - `mode` is a method with the frequency map and scan loops of the source.

The `trunc` helper's second argument defaults to 2 decimals, as `trunc` is
declared at `src/utils/ruleEngine.js:113`.

## Model

| member | source | states |
|---|---|---|
| RuleMatch.RuleMatches | src/utils/ruleEngine.js:12-49 | An unknown `between` label never matches. A "Day of Week" match means the value is one of the seven English weekday names. A "Number of days" match means the date is on or after the rule's start. |
| RuleMatch.NumberOfDaysWhole | src/utils/ruleEngine.js:34-44 | For a whole-number interval `n`, "Number of days" fires iff `n >= 1`, the date is not before the start, and either `n == 1` or (date − start) mod n == n − 1. |
| RuleMatch.NumberOfDaysOncePerBlock | src/utils/ruleEngine.js:42-43 | Within each block of `n` days from the start, the rule fires on the block's last day and on no other. |
| RuleMatch.DayOfWeekWeekly | src/utils/ruleEngine.js:14-18 | A "Day of Week" rule matches a date iff it matches the date one week later. |
| RuleMatch.CalendarPositionRanges | src/utils/ruleEngine.js:20-32 | Date of Month, Date of Quarter and Date of Year fire only for a whole-number value. The value lies in 1..31, 1..92 and 1..366 respectively. |
| RuleMatch.CalendarPositionNumerals | src/utils/ruleEngine.js:20-32 | A value typed as the numeral `k` fires exactly on dates whose day of month, 1-based day of quarter or 1-based day of year is `k`. |
| Calendar.OrderByDayNumber | src/utils/dateMath.js:12 | On valid dates, comparing year, month and day agrees with comparing day numbers. The same holds for equality. |
| Calendar.SetDateDayNumber | src/utils/dateMath.js:18 | `setDate(n)` lands `n − 1` days after the first of the cursor's month, carrying into later months. |
| Calendar.AddDaysShift | src/utils/dateMath.js:23-26 | Adding `k` days moves the day number by `k` and the weekday by `k` mod 7. |
| Calendar.DayOfYearRange | src/utils/ruleEngine.js:30 | The 1-based day of year is in 1..365, or 1..366 in a leap year, and 31 December is the last. |
| Calendar.DayOfQuarterRange | src/utils/ruleEngine.js:24-25 | The 1-based day of quarter is in 1..92, and it is the day of month in the quarter's first month. |
| JsText.TrimSlice | src/utils/ruleEngine.js:55-56 | `trim()` returns a middle slice of the text, with only white space cut from either side. |
| JsText.TrimEnds | src/utils/ruleEngine.js:83 | A trimmed text has no white space at either end, and trimming again changes nothing. |
| JsText.JsNumberOfNumeral | src/utils/ruleEngine.js:21 | `Number` of the decimal numeral of `k` is `k`. |
| JsText.DecimalNumeralValue | src/utils/ruleEngine.js:60 | `Number` of a decimal numeral `w.f` is `DecimalValue(w, f)`, that is `w + f / 10^|f|` with `w` and `f` read as digit strings. |
| JsText.SignPrefix | src/utils/ruleEngine.js:88 | A `+` in front of an unsigned numeral leaves its `Number` unchanged, and a `-` negates it. |
| JsText.SignedNumeralConverts | src/utils/ruleEngine.js:88 | Every numeral that `[-+]?\d*\.?\d+` matches converts to a number, never NaN. |
| JsMath.Remainder | src/utils/ruleEngine.js:43 | `a % b` with `b != 0` is smaller than `b` in magnitude and has the sign of `a`. |
| Expressions.EvalSucceeds | src/utils/ruleEngine.js:140-158 | Evaluation throws exactly when the expression reads a name that is neither a variable, `prev`, another parameter of the evaluated function (a helper, `Math`, `vars`) nor `NaN`/`Infinity`/`undefined`, or calls a helper that a variable of the same name hides. |
| Expressions.TruncHundredthsSpec | src/utils/ruleEngine.js:113-116 | `trunc(x, 2)` is a whole number of hundredths, less than 0.01 from `x`, no larger than `x` in magnitude, with `x`'s sign. Truncating it again changes nothing. |
| Expressions.TruncHelperDefault | src/utils/ruleEngine.js:147 | The `trunc` helper without a second argument cuts to two decimals, as it does with 2. |
| Expressions.SafeEvalOutcome | src/utils/ruleEngine.js:137-163 | Text that does not parse, or fails to evaluate, yields `prev ?? 0`. A result that is not a finite number yields 0. A finite result `x` yields `x` cut toward zero to whole hundredths (`TruncatedFrom`: less than 0.01 from `x`, no larger in magnitude, same sign). |
| Expressions.TruncatedFromUnique | src/utils/ruleEngine.js:113-116 | At most one value is `x` cut toward zero to whole hundredths, so `TruncatedFrom` pins the evaluator's result. |
| Expressions.RemDivision | src/utils/ruleEngine.js:146 | For `b != 0`, `rem(a, b)` is a number and `a - rem(a, b)` is a whole multiple of `b`. |
| Expressions.RemMatchesMod | src/utils/ruleEngine.js:146 | For `b != 0`, `rem(a, b)` equals `a % b`, is smaller than `b` in magnitude, and has the sign of `a`. |
| Expressions.RoundSpec | src/utils/ruleEngine.js:148 | `round(x, d)` is `Math.round(x·10^d)/10^d`, within half of 10^-d of `x`; a half goes up. |
| Expressions.RoundUpSpec | src/utils/ruleEngine.js:149 | `roundUp(x, d)` is `Math.ceil(x·10^d)/10^d`: at least `x` and less than 10^-d above it. |
| Expressions.RoundDownSpec | src/utils/ruleEngine.js:150 | `roundDown(x, d)` is `Math.floor(x·10^d)/10^d`: at most `x` and less than 10^-d below it. |
| Expressions.RescaleExact | src/utils/ruleEngine.js:148-150 | The three rounding helpers return a whole multiple of 10^-d. |
| Expressions.LogicHelpers | src/utils/ruleEngine.js:151-153 | `NOT(AND(..))` holds iff some argument is falsy. `OR` is `NOT` of "every argument falsy". `AND()` is true and `OR()` is false. |
| Expressions.IfNegated | src/utils/ruleEngine.js:154 | `IF(NOT(c), f, t)` is `IF(c, t, f)`, and `IF(c, t, t)` is `t` whatever `c` is. |
| Expressions.PowerAdd | src/utils/ruleEngine.js:67 | At whole exponents `m, n >= 0`, `x ** (m + n)` is `x ** m * x ** n`, and `x ** 1` is `x`. |
| RuleEngine.ApplyShorthand | src/utils/ruleEngine.js:62-68 | The shorthand never yields a boolean. `/0` gives 0, `^0` gives 1, and every operator but `^` gives a number. |
| RuleEngine.ShorthandInverse | src/utils/ruleEngine.js:63-66 | `-n` undoes `+n`, and `/n` undoes `*n` for `n != 0`. |
| RuleEngine.ApplyBy | src/utils/ruleEngine.js:54-79 | `applyBy` never yields a boolean. Only a `^` shorthand can give a non-finite value. |
| RuleEngine.ApplyByBlank | src/utils/ruleEngine.js:55 | A blank or white-space-only expression returns `prev` unchanged. |
| RuleEngine.ApplyByNumeral | src/utils/ruleEngine.js:58-69 | An operator followed by any text `s` with `Number(s) = x` (decimals, sign, exponent, white space) gives `prev op x`, untruncated; `/0` gives 0. |
| RuleEngine.ApplyByDecimal | src/utils/ruleEngine.js:58-69 | `op w.f` gives `prev op (w + f / 10^|f|)`, so `*1.1` multiplies by 1.1. |
| RuleEngine.ApplyByGeneral | src/utils/ruleEngine.js:71-78 | Any other text is evaluated, with `prev` put in front when it starts with an operator. Text that does not parse or resolve leaves `prev`. Text evaluating to no finite number gives 0. Text evaluating to `x` gives `x` cut toward zero to whole hundredths. |
| RuleEngine.ApplyByRoundExample | src/utils/ruleEngine.js:78 | Text that parses to `Round(prev/3, 2)` turns 100 into 33.33. |
| RuleEngine.MatchColumnFormRoundTrip | src/utils/ruleEngine.js:87-89 | The pattern reads `col`, any white space, an operator, any white space and a numeral back into that column, operator and numeral. |
| RuleEngine.MatchColumnFormShape | src/utils/ruleEngine.js:87-89 | Conversely, whatever the pattern accepts is an identifier alone, or an identifier, white space, an operator, white space and a numeral the pattern's numeral group accepts. |
| RuleEngine.MatchColumnAlone | src/utils/ruleEngine.js:87-89 | An identifier alone matches as a column with no operator. |
| RuleEngine.ApplyByIndependent | src/utils/ruleEngine.js:82-109 | It throws exactly when the text is blank, or when it matches the column pattern with a column the row lacks. |
| RuleEngine.IndependentBlank | src/utils/ruleEngine.js:83-84 | A blank expression throws. |
| RuleEngine.IndependentColumn | src/utils/ruleEngine.js:90-96 | A column name alone returns that column's value, or throws when the row has no such column. |
| RuleEngine.IndependentShorthand | src/utils/ruleEngine.js:97-104 | `col op num`, for any numeral `num` the pattern accepts and any white space around `op`, returns `row[col] op Number(num)` with `/0` giving 0, or throws when the row has no such column. |
| RuleEngine.IndependentGeneral | src/utils/ruleEngine.js:108 | Any other text never throws. Text that does not parse, or evaluates to no finite number, gives 0. Text evaluating to `x` gives `x` cut toward zero to whole hundredths. |
| DateMath.SplitIntoPeriods | src/utils/dateMath.js:4-50 | The loop's periods, and whether it runs forever, are those of the recursive walk `Walk`. |
| DateMath.Iteration | src/utils/dateMath.js:13-47 | One pass pushes the cursor's period and moves the cursor forward. The rest of the walk, appended to what was pushed, is unchanged. |
| DateMath.WalkFacts | src/utils/dateMath.js:5-49 | Every period lies within `from..to`, with start <= end <= to. `from > to` gives no periods. Only Quarterly and an unrecognised periodicity can run forever. Daily, Weekly and Monthly tile `from..to` with no gap or overlap. |
| DateMath.WalkPeriodEnds | src/utils/dateMath.js:25-44 | Each period ends at the end of its start's day, week, month, quarter or year, clipped to `to`. The first period starts at `from`. |
| DateMath.DailyPeriods | src/utils/dateMath.js:16-19 | Daily periods start and end on the same date. |
| DateMath.PeriodEndSpec | src/utils/dateMath.js:21-25 | A period's end is not before its start. A week ends on the first Saturday on or after the cursor. |
| DateMath.Clip | src/utils/dateMath.js:25 | `d > end ? end : d` is the earlier of the two dates. |
| DateMath.AdvanceSpec | src/utils/dateMath.js:18-45 | The cursor never moves back. It always moves forward for every periodicity but Quarterly and an unrecognised one. |
| DateMath.WalkHalts | src/utils/dateMath.js:12-48 | A Quarterly walk runs forever only when it reaches 31 May, 31 July or 31 August. |
| DateMath.QuarterlyStuck | src/utils/dateMath.js:35-40 | The Quarterly cursor stays put exactly at 31 May, 31 July and 31 August. |
| DateMath.QuarterlyHangs | src/utils/dateMath.js:39 | Quarterly from 1 April to 30 June emits three periods and then repeats the last one forever. |
| DateMath.AnnualOverlap | src/utils/dateMath.js:45 | An Annual walk from 1 January starts its second period on 1 February of the same year, overlapping the first. |
| DateMath.NextStartSpec | src/utils/dateMath.js:32 | The intended next cursor is the day after the period ends, with no date between the two. |
| DateMath.ContiguousTiles | src/utils/dateMath.js:35-46 | With the intended cursor move, every periodicity tiles `from..to`. |
| DateMath.WalkAsIntended | src/utils/dateMath.js:16-33 | For Daily, Weekly and Monthly, the walk as written is the contiguous walk. |
| DateMath.WeeklyPeriods | src/utils/dateMath.js:21-27 | Weekly periods end on a Saturday or on `to`. Every period after the first starts on a Sunday. |
| DateMath.MonthlyPeriods | src/utils/dateMath.js:29-33 | Monthly periods lie within one month and end on its last day or on `to`. Every period after the first starts on the 1st. |
| Metrics.Numbers | src/utils/metrics.js:5 | The filter keeps each number exactly as often as it occurs among the entries, and nothing else. |
| Metrics.NumbersAppend | src/utils/metrics.js:5 | Filtering keeps the input order: filtering a concatenation concatenates the filtered parts. |
| Metrics.NumbersMembers | src/utils/metrics.js:5 | A number is kept iff it is an entry. |
| Metrics.CalcMetric | src/utils/metrics.js:3-22 | The result is `""` iff no entry is a number or the metric name is unknown. Max returns an entry no entry exceeds; Min returns one that exceeds no entry. |
| Metrics.CalcMetricAverageMedian | src/utils/metrics.js:8-12 | Average of a list holding numbers is whole hundredths within 0.005 of the mean `Sum(nums) / |nums|` of its numbers. Average and Median lie between its least and greatest number, within the half hundredth of `toFixed`. |
| Metrics.CalcMetricMode | src/utils/metrics.js:13-14 | Mode returns an entry that no other number outnumbers. An equally frequent different number first occurs later in the list. |
| Metrics.ToFixed2Spec | src/utils/metrics.js:24 | `+x.toFixed(2)` is a whole number of hundredths, at most 0.005 from `x`, on the same side of zero. It is exactly 0.005 from `x` only away from zero, so a tie goes away from zero. |
| Metrics.ToFixed2Odd | src/utils/metrics.js:24 | `toFixed` is symmetric in the sign: `-x` rounds to the negation of what `x` rounds to. |
| Metrics.ToFixed2Exact | src/utils/metrics.js:24 | A whole number of hundredths is unchanged. |
| Metrics.AverageSpec | src/utils/metrics.js:24 | The average is whole hundredths within 0.005 of the mean `Sum(s) / |s|`, and so between the least and greatest entry within 0.005. |
| Metrics.AverageOfEqual | src/utils/metrics.js:24 | The average of copies of one value is that value to two decimals. |
| Metrics.MaxOf | src/utils/metrics.js:16 | `Math.max(...nums)` is an entry no entry exceeds. |
| Metrics.MinOf | src/utils/metrics.js:18 | `Math.min(...nums)` is an entry that exceeds no entry. |
| Metrics.SortAscending | src/utils/metrics.js:27 | The ascending copy is sorted and a permutation of the input. |
| Metrics.SortedUnique | src/utils/metrics.js:27 | Two sorted permutations of the same list are equal, so the median does not depend on the sort algorithm. |
| Metrics.MedianOfSorted | src/utils/metrics.js:26-30 | For any ascending arrangement of the entries, an odd count gives the middle entry. An even count gives the two-decimal average of the two middle entries. |
| Metrics.MedianBounds | src/utils/metrics.js:26-30 | An odd count gives an entry. The median lies between the least and greatest entry, within 0.005. |
| Metrics.Mode | src/utils/metrics.js:32-44 | The frequency-map and scan loops return `ModeOf(arr)`. |
| Metrics.FirstMostSpec | src/utils/metrics.js:37-42 | After `n` steps the scan holds an entry of greatest count among the first `n`, and every entry before it has a smaller count. |
| Metrics.ModeOfSpec | src/utils/metrics.js:32-44 | The mode is an entry and no value occurs more often. Any other value that occurs as often first occurs after it. |

## Left out

- Floating point. All numbers are exact reals.
  - No claim is made about the bit-level results of `toFixed`, `10 ** d` scaling or the arithmetic operators.
  - JavaScript's `-0` is not distinguished from 0.
- Non-finite values. `NaN`, the infinities and `undefined` collapse into one non-finite value, which is falsy, equals nothing and compares with nothing. Where JavaScript tells them apart, the model differs:
  - `Infinity` is truthy in JavaScript, so `IF(1/0, 5, 7)` gives 5 there and 7 in the model.
  - A comparison with an infinity can hold in JavaScript (`1/0 > 100` is true); in the model it never does.
  - An explicit `undefined` argument takes the parameter's default in JavaScript (`trunc(5.678, undefined)` is 5.67); in the model it gives a non-finite result.
  - `undefined == undefined` and `Infinity == Infinity` are true in JavaScript and false in the model.
  - `Math.pow` at a fractional exponent is the parameter `Host.pow`.
- Functions and objects as values: the helpers, `Math` and `vars` are opaque values. Arithmetic on them is not finite, and `==` holds only between a value and itself.
  - JavaScript instead turns a function into its source text. So `prev + rem` is a truthy string there, and `<` between two functions compares their texts.
- Metrics.Numbers: infinite entries are not modelled. An entry is a finite number, `NaN`, or a non-number.
- Parsing. `_normalise` and the dynamic `Function`/`with` evaluation are the parameter `Host.parse`.
  - So the case-insensitive keyword rewriting, the `=`/`<>` rewriting and operator precedence are not modelled.
- Global names. `with(vars)` resolves a name through the variables, then `prev` and the evaluated function's other parameters (the helpers, `Math`, `vars`), then `NaN`/`Infinity`/`undefined`.
- Expressions.EvalSucceeds: every other JavaScript global (`Object`, `Date`, `parseInt`, the members of `Object.prototype`) is unbound in the model. Text that names one fails there, while JavaScript resolves it.
  - Member access such as `Math.max(...)` is not part of the expression language; only `Math.abs`, reached through `ABS(`, is.
- Logging. The `console.error` call of the catch branch is output only and is not modelled.
- `Number(s)` is modelled on decimal text with an optional sign, fraction and exponent.
  - Hexadecimal, binary and octal literals, `"Infinity"` and numeric separators are NaN in the model.
- Master-table rows are maps from column names to numbers.
  - A column holding a string or other non-number, which `Number(row[col])` would convert, is not modelled.
  - Only a missing column raises the "not found" error.
- Dates carry no time of day or timezone.
  - `toLocaleDateString` is the fixed English weekday table.
  - `formatDMY` (`src/utils/dateMath.js:52-53`) is display formatting and is not modelled.
  - date-fns is replaced by day-number arithmetic.
- DateMath.SplitIntoPeriods: a loop that never ends cannot return. The model stops at the first iteration that leaves the state unchanged and reports `hangs`; the source repeats it forever.
- Metrics.SortAscending: the engine's sort algorithm is not modelled. An insertion sort stands in, and `SortedUnique` shows any correct ascending sort gives the same list.
- Metrics.Mode: the frequency object's keys are numbers rather than the strings JavaScript makes of them.
  - This differs only for `0` and `-0`, which the model does not distinguish.
- Everything outside the three modules: the React pages and components, local storage and Dexie persistence, and the state hooks. This includes the Dashboard code that combines `calcMetric` results.

## Findings

| source | as written | input that shows it | evidently intended | confidence | as-written member | corrected member |
|---|---|---|---|---|---|---|
| src/utils/dateMath.js:39 | The Quarterly cursor moves by `cur.setDate(d.getDate() + 1)` in the cursor's own month, not to the day after the quarter. At 31 May, 31 July or 31 August this sets the cursor to itself. | `splitIntoPeriods(1 Apr, 30 Jun, "Quarterly")` emits [1 Apr–30 Jun], [1 May–30 Jun], [31 May–30 Jun], and then the last period forever. | The next period starts the day after the quarter ends, and the loop ends after one period per quarter. | not executed | DateMath.QuarterlyHangs | DateMath.ContiguousTiles |
| src/utils/dateMath.js:45 | The Annual cursor moves by `setDate(32)` in its own month, not to 1 January of the next year. | `splitIntoPeriods(1 Jan, 31 Dec, "Annual")` emits [1 Jan–31 Dec] and then [1 Feb–31 Dec], which overlaps it. | The next period starts on 1 January of the next year, and the periods tile the range. | not executed | DateMath.AnnualOverlap | DateMath.ContiguousTiles |
