# Calendar month arithmetic

A Dafny model of the calendar arithmetic in the Calendar app's
`Calendar/ContentView.swift`:

- the day-of-week congruence inside `Date_.get_day_num` (0 = Sunday to
  6 = Saturday, the order of the grid's column headings);
- the `Month` object: its days-per-month table with the leap-year test as the
  code writes it, the day count of the chosen month, its `start` and `end`
  dates, and the day label and day date lists;
- the `MonthView` grid: as many blank cells as the weekday of the 1st, then
  one button per day, recomputed when the bound month changes;
- the `CalendarView` navigation: the previous and next buttons step the
  (year, month) pair with a wrap and a year carry, the pickers set it, and
  each change rebuilds the `Month`.

`Date_` is reduced to a `(year, month, day)` triple of integers. The weekday
code converts to `Double` and back with `Int(...)`, which truncates toward
zero. This is modelled as `SwiftInt.TruncDiv`, and Swift's `%`, whose result
takes the sign of the dividend, as `SwiftInt.Rem`. So `DateModel.Weekday` is
defined for every integer input, and its properties are proved for years from
1 on, where every term is non-negative.

Modules, in dependency order:

| file | module | models |
|---|---|---|
| SwiftInt.dfy | `SwiftInt` | truncating division and Swift's remainder |
| Decimal.dfy | `Decimal` | `"\(n)"` for a day number, and reading it back |
| DateModel.dfy | `DateModel` | `Date_` as a triple, `weekday(y:m:d:)`, weekend tests |
| Gregorian.dfy | `Gregorian` | an independent Gregorian calendar (month lengths, next day) against which the congruence is proved |
| MonthModel.dfy | `MonthModel` | `Month` and its tables, as a class |
| MonthGrid.dfy | `MonthGrid` | `MonthView`'s blank count and cell layout, as a class |
| Navigation.dfy | `Navigation` | `CalendarView`'s year/month state and buttons, as a class |

Two behaviours of the code are kept as written:

- The leap-year test `(year % 4 == 0 && year % 100 == 0) || year % 400 == 0`
  is true exactly when `year % 100 == 0`. It is not the Gregorian rule: 2024
  gets a 28-day February and 1900 a 29-day one. `Month` uses it unchanged. See
  "## Findings".
- `end` is built with the year in the month position,
  `Date(year, year, days_num)`. `Month.Valid` records it that way.

The `- Int(Y / 100) + Int(Y / 400)` terms make the weekday computation the
Gregorian congruence: `Gregorian.WeekdayOfNextDay` proves that it advances one
weekday per Gregorian day.

## Model

| member | source | states |
|---|---|---|
| SwiftInt.TruncDiv | Calendar/ContentView.swift:404-407 | `Int(Double(a) / b)` rounds toward zero: the quotient has the sign of the dividend, never exceeds it in magnitude, and is zero exactly when the dividend is smaller than the divisor in magnitude |
| SwiftInt.Rem | Calendar/ContentView.swift:407 | Swift's `%`: the remainder of the magnitudes with the sign of the dividend, below the divisor in magnitude |
| SwiftInt.DivisionUnique | Calendar/ContentView.swift:404-407 | quotient and remainder are fixed by `a == q * b + r`, `0 <= r < b` |
| Decimal.DecimalString | Calendar/ContentView.swift:433 | `"\(n)"` is a non-empty string of decimal digits with no leading zero for n > 0 |
| Decimal.ParseDecimalString | Calendar/ContentView.swift:433 | reading the rendered digits back gives the number |
| Decimal.DecimalStringInjective | Calendar/ContentView.swift:433 | different day numbers get different labels |
| DateModel.Shift | Calendar/ContentView.swift:404 | definition, no contract: `f = Int(Double(14 - m) / 12)`; its values are stated by `ShiftCases` |
| DateModel.ShiftedYear | Calendar/ContentView.swift:405 | definition, no contract: `Y = y - f`; its values are stated by `ShiftCases` |
| DateModel.ShiftedMonth | Calendar/ContentView.swift:406 | definition, no contract: `M = m + 12 * f - 2`; its values are stated by `ShiftCases` |
| DateModel.MonthTerm | Calendar/ContentView.swift:407 | definition, no contract: `Int(31 * M / 12)`; its values are stated by `MonthTermTable` |
| DateModel.YearTerms | Calendar/ContentView.swift:407 | definition, no contract: `Int(Y) + Int(Y / 4) - Int(Y / 100) + Int(Y / 400)`; its growth is stated by `Gregorian.YearTermsStep` and `CongruenceFourHundredYears` |
| DateModel.Congruence | Calendar/ContentView.swift:407 | definition, no contract: the sum before `% 7`; its sign is stated by `CongruencePositive` and its steps by `CongruenceDayOffset` and `Gregorian.CongruenceOfNextDay` |
| DateModel.Weekday | Calendar/ContentView.swift:403-408 | on any integers the result lies strictly between -7 and 7, and is non-negative when the congruence sum is |
| DateModel.ShiftCases | Calendar/ContentView.swift:404-406 | `f` is 1 exactly for months 1 and 2; then `M = m + 10`, `Y = y - 1`, otherwise `M = m - 2`, `Y = y`; `M` is in 1..12 |
| DateModel.MonthTermTable | Calendar/ContentView.swift:406-407 | the value of `Int(31 * M / 12)` for each month January to December |
| DateModel.CongruencePositive | Calendar/ContentView.swift:403-408 | for y >= 1, 1 <= m <= 12, d >= 1 the sum before `% 7` is positive |
| DateModel.WeekdayRange | Calendar/ContentView.swift:403-408 | for y >= 1, 1 <= m <= 12, d >= 1 the weekday is in 0..6 and equals the sum's Euclidean remainder by 7 |
| DateModel.WeekdayIs | Calendar/ContentView.swift:403-408 | a date whose sum is c has weekday c % 7 |
| DateModel.CongruenceDayOffset | Calendar/ContentView.swift:407 | k days on within a month, the sum grows by k |
| DateModel.RemainderOfSum | Calendar/ContentView.swift:407 | adding k after or before the remainder by 7 gives the same weekday |
| DateModel.RemainderAfterWeeks | Calendar/ContentView.swift:407 | adding whole weeks leaves the weekday unchanged |
| DateModel.WeekdayNextDayInMonth | Calendar/ContentView.swift:407 | `weekday(y, m, d + 1) == (weekday(y, m, d) + 1) % 7` |
| DateModel.WeekdayWeekLater | Calendar/ContentView.swift:407 | `weekday(y, m, d + 7) == weekday(y, m, d)` |
| DateModel.WeekdayFromFirst | Calendar/ContentView.swift:407 | day d falls `d - 1` weekdays after the 1st |
| DateModel.CongruenceFourHundredYears | Calendar/ContentView.swift:405-407 | 400 years on, the sum grows by 497 = 7 * 71 |
| DateModel.WeekdayFourHundredYears | Calendar/ContentView.swift:405-407 | the weekday repeats every 400 years |
| DateModel.DayLabels | Calendar/ContentView.swift:56 | `days_name` has seven distinct headings, and the heading test of line 75 greys exactly the first and the last |
| DateModel.IsWeekendLabel | Calendar/ContentView.swift:75 | definition, no contract: a heading is greyed when it is "Sun" or "Sat"; which columns that picks is stated by `DayLabels` |
| DateModel.DayNum | Calendar/ContentView.swift:402-410 | `get_day_num` is the weekday of the date's own triple; for y >= 1, 1 <= m <= 12, d >= 1 it indexes one of the seven columns |
| DateModel.IsWeekend | Calendar/ContentView.swift:113 | a day is greyed (weekday 0 or 6) exactly when the heading of its column at line 56 is greyed by the test at line 75 |
| Gregorian.GregorianMonthDays | Calendar/ContentView.swift:429 | the corrected table: 12 lengths in 28..31, February 29 exactly in Gregorian leap years |
| Gregorian.NextDay | Calendar/ContentView.swift:403-408 | the successor of a valid Gregorian date is valid, in the same year or on 1 January of the next |
| Gregorian.QuotientStep | Calendar/ContentView.swift:407 | from Y to Y + 1 the quotient by b grows by one exactly when b divides Y + 1 |
| Gregorian.CenturyDivisibility | Calendar/ContentView.swift:429 | divisible by 400 implies by 100, and by 100 implies by 4 |
| Gregorian.YearTermsStep | Calendar/ContentView.swift:407 | from shifted year Y to Y + 1 the year terms grow by 1, plus 1 if Y + 1 is a Gregorian leap year |
| Gregorian.MonthTermAdvance | Calendar/ContentView.swift:406-407 | outside February the month term grows by the month's length less 28 |
| Gregorian.CongruenceAtFebruaryEnd | Calendar/ContentView.swift:403-408 | from February's last day to 1 March the sum moves by 1 less 8 weeks |
| Gregorian.CongruenceAtOtherMonthEnd | Calendar/ContentView.swift:403-408 | from any other month's last day to the next 1st the sum moves by 1 less 4 weeks |
| Gregorian.CongruenceAtMonthEnd | Calendar/ContentView.swift:403-408 | from a month's last day to the next 1st the sum moves by 1 less whole weeks |
| Gregorian.CongruenceOfNextDay | Calendar/ContentView.swift:403-408 | from any valid date to the next the sum moves by 1 less whole weeks |
| Gregorian.WeekdayOfNextDay | Calendar/ContentView.swift:403-408 | from every valid Gregorian date with year >= 1, the next day (across month and year ends) falls on the next weekday |
| Gregorian.NextRemainder | Calendar/ContentView.swift:407 | one more less whole weeks is one weekday later |
| Gregorian.MarchFollowsFebruary | Calendar/ContentView.swift:403-408 | 1 March is one weekday after February's Gregorian last day |
| Gregorian.KnownSunday | Calendar/ContentView.swift:403-408 | 25 December 2022 gets weekday 0; with WeekdayOfNextDay this fixes every weekday to the real calendar |
| MonthModel.IsLeapAsWritten | Calendar/ContentView.swift:429 | definition, no contract: the coded leap test; `LeapAsWrittenIsCentury` states what it means |
| MonthModel.MonthDays | Calendar/ContentView.swift:429 | `month_days` has 12 entries, each in 28..31; February is 29 exactly when the coded test holds, else 28 |
| MonthModel.DayNames | Calendar/ContentView.swift:433 | `month_days_name` has one label per day |
| MonthModel.DayDates | Calendar/ContentView.swift:434 | `month_days_date` has one date per day |
| MonthModel.LeapAsWrittenIsCentury | Calendar/ContentView.swift:429 | the coded leap test holds exactly when `year % 100 == 0` |
| MonthModel.OnlyFebruaryVaries | Calendar/ContentView.swift:429 | every month but February has the same length in every year |
| MonthModel.DayNamesReadBack | Calendar/ContentView.swift:433 | label i is the decimal rendering of i + 1 and reads back as i + 1 |
| MonthModel.DayNamesDistinct | Calendar/ContentView.swift:433 | no two labels of a month are equal |
| MonthModel.Month.constructor | Calendar/ContentView.swift:426-435 | needs 1 <= month <= 12 (the code indexes `month_days[month - 1]`); sets every field as `init` does, `days_num == month_days[month - 1]` in 28..31, date i is `(year, month, i + 1)`, `end` with the year as month |
| MonthModel.AsWrittenLeapDisagreements | Calendar/ContentView.swift:429 | the coded table gives 2024 28 February days and 1900 29, the Gregorian one 29 and 28 |
| MonthModel.AsWrittenFebruaryBreaksWeekdays | Calendar/ContentView.swift:429 | in every year where the two tables disagree, 1 March is not one weekday after the coded table's last day of February |
| MonthModel.LeapDayDropped | Calendar/ContentView.swift:429 | a Gregorian leap year with a 28-day coded February: 1 March follows the missing 29th |
| MonthModel.LeapDayAdded | Calendar/ContentView.swift:429 | a Gregorian common year with a 29-day coded February: 1 March shares the coded 29th's weekday |
| MonthModel.NoWeekdayIsItsOwnSuccessor | Calendar/ContentView.swift:407 | stepping a day number on by one changes it |
| MonthGrid.GridCells | Calendar/ContentView.swift:84-88 | the grid has `blanks` Blank cells first, then the cell of day i + 1 at position blanks + i, and nothing else |
| MonthGrid.GridFits | Calendar/ContentView.swift:85-88 | the blank count is the weekday of the 1st, in 0..6, and blanks plus days is at most 37 cells |
| MonthGrid.DayColumn | Calendar/ContentView.swift:84-88 | the cell of day i + 1, at blanks + i, is in column `(blanks + i) % 7`, its own weekday |
| MonthGrid.AllDayColumns | Calendar/ContentView.swift:84-88 | for every day of the month, its cell after the blanks falls in the column of its own weekday |
| MonthGrid.MonthView.constructor | Calendar/ContentView.swift:65-69 | the blank count starts as the weekday of the month's 1st |
| MonthGrid.MonthView.MonthChanged | Calendar/ContentView.swift:132-136 | after the bound month changes the blank count is the weekday of the new month's 1st, whether or not the handlers fired |
| MonthGrid.MonthView.Cells | Calendar/ContentView.swift:84-88 | the drawn cells fit 37, start with the weekday of the 1st many blanks, and each day sits under the heading of its weekday |
| Navigation.FromIndex | Calendar/ContentView.swift:177-202 | a month index names a month in 1..12 |
| Navigation.IndexRoundTrip | Calendar/ContentView.swift:177-202 | counting months and naming them are inverse |
| Navigation.PreviousMonth | Calendar/ContentView.swift:177-182 | the month before stays in 1..12 |
| Navigation.NextMonth | Calendar/ContentView.swift:197-202 | the month after stays in 1..12 |
| Navigation.PreviousMonthCases | Calendar/ContentView.swift:177-182 | `(y, 1)` steps back to `(y - 1, 12)`, `(y, m)` to `(y, m - 1)` otherwise |
| Navigation.NextMonthCases | Calendar/ContentView.swift:197-202 | `(y, 12)` steps on to `(y + 1, 1)`, `(y, m)` to `(y, m + 1)` otherwise |
| Navigation.NextAfterPrevious | Calendar/ContentView.swift:177-202 | next undoes previous |
| Navigation.PreviousAfterNext | Calendar/ContentView.swift:177-202 | previous undoes next |
| Navigation.CalendarView.constructor | Calendar/ContentView.swift:171-174 | after appearing, the view shows today's year and month with a matching `Month` and grid |
| Navigation.CalendarView.Rebuild | Calendar/ContentView.swift:167-171 | a change of either number rebuilds `Month(year: year_num, month: month_num)` and the grid's blank count |
| Navigation.CalendarView.Previous | Calendar/ContentView.swift:177-182 | the left button decrements with the wrap to 12 and year borrow, giving `PreviousMonth` of the old pair, and keeps the view consistent |
| Navigation.CalendarView.Next | Calendar/ContentView.swift:197-202 | the right button increments with the wrap to 1 and year carry, giving `NextMonth` of the old pair, and keeps the view consistent |
| Navigation.CalendarView.PickYear | Calendar/ContentView.swift:153-168 | choosing one of the 61 offered years keeps the month; a different year rebuilds the month, the shown year keeps the same `Month` object and grid |
| Navigation.CalendarView.PickMonth | Calendar/ContentView.swift:159-170 | choosing a month 1..12 keeps the year; a different month rebuilds the month, the shown month keeps the same `Month` object and grid |

## Findings

| source | as written | input that shows it | evidently intended | confidence | as-written member | corrected member |
|---|---|---|---|---|---|---|
| Calendar/ContentView.swift:429 | `(year % 4 == 0 && year % 100 == 0) \|\| year % 400 == 0`, true exactly when `year % 100 == 0` | year 2024: February gets 28 days, so the grid ends on Wednesday the 28th and March starts on Friday; year 1900: a 29th on the same weekday as 1 March | the Gregorian rule `year % 4 == 0 && (year % 100 != 0 \|\| year % 400 == 0)`, which the weekday formula at lines 403-408 already counts in | high; not executed | MonthModel.AsWrittenFebruaryBreaksWeekdays | Gregorian.WeekdayOfNextDay |

`Month` keeps the coded rule so that it models the code. `Gregorian.GregorianMonthDays` is the corrected table. `Gregorian.WeekdayOfNextDay` proves that with it, consecutive days always fall on consecutive weekdays.

## Left out

- `DateFormatter` getters and renderers (`get_year`, `get_month`, `get_date`, `get_day`, `get_string`, `get_string_human`, `Month.get_string`, `init(from:)`, lines 363-400 and 438-441): foreign library calls. Years, months and days are plain integer inputs. The code reads the year with the week-based pattern `"YYYY"`, which can differ from the calendar year near 1 January. The model does not capture that.
- `NSCalendar` date construction (`Date_.init(year:month:day:)`, `get_date_from_ymd`, lines 337-361): a platform calendar call. A `Date_` is its triple. The model assumes the getters read back the triple it was built from. That fails at least in these places:
  - `end`, built with the year as its month, which the platform rolls over to another date;
  - the coded 29 February of a Gregorian common year such as 1900, which the platform turns into 1 March (`MonthModel.LeapDayAdded` shows that the two get the same weekday);
  - the platform's Gregorian calendar switches from the Julian calendar after 4 October 1582 and has no 5 to 14 October 1582, so the days the code builds for those numbers read back as later dates, and their greying at line 113 follows those dates' weekdays, not their columns. `MonthGrid.MonthView.Cells` describes the grid as if the proleptic Gregorian calendar held for every year from 1 on;
  - the week-based year `"YYYY"` of the bullet above: near 1 January `get_year` can return the neighbouring year, so `get_day_num` (line 409) computes the weekday of a date a year away. For example, 31 December 2023 would be read as 31 December 2024, a Tuesday, in a locale whose first week contains 1 January; the same can shift the blank count of a January grid (lines 68 and 133).
- `Date` subtraction, `difference_between` and the "Today" reminder filter (lines 21-23, 236-239, 252-254): they depend on the wall clock and floating-point intervals.
- `@AppStorage` persistence, the JSON `RawRepresentable` extension and the reminder lists (lines 31-49, 220-233): a wrapper over the platform's encoders and user defaults.
- The "jump to today" button (lines 188-195) and the default arguments of `Month.init`: they read the current date. `CalendarView`'s constructor takes today's year and month as parameters instead.
- `CalendarView` starts with `year_num = 0` and `month_num = 0` until `onAppear` sets them. The model starts from the values `onAppear` sets.
- When a button changes both numbers, the code runs both `onChange` handlers, and each builds `Month` from the already-updated pair. The model rebuilds once from the final pair, which gives the same `Month`.
- View code: `DateButton`, the day-button highlighting, fonts, frames, `ReminderView` and `ContentView` layouts (lines 11-17, 71-139, 241-327), and `Calendar/CalendarApp.swift`. It is UI only.
- DateModel.Weekday: models the `Double` round trips as exact truncating integer division. This holds while every operand is below 2^53 in magnitude. Swift's trap on `Int` overflow is not modelled, because Dafny integers are unbounded.
- MonthGrid.MonthView.Cells: requires year >= 1. For earlier years the weekday of the 1st can be negative, and the code's `0..<days_before_month` would trap. The model does not follow that path.
