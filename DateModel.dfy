/** The `Date_` class reduced to what the calendar grid needs from it: a
    (year, month, day) triple and the day-of-week congruence behind
    `get_day_num`. */
module DateModel {
  import opened SwiftInt

  /** A calendar date as the three integers `Date_` is built from. */
  datatype Date = Date(year: int, month: int, day: int)

  /** `days_name`: the column headings of the month grid, indexed by day
      number; seven distinct headings, greyed in the first and last column. */
  function DayLabels(): (r: seq<string>)
    ensures |r| == 7
    ensures forall i, j :: 0 <= i < j < |r| ==> r[i] != r[j]
    ensures forall i :: 0 <= i < |r| ==> (IsWeekendLabel(r[i]) <==> i == 0 || i == 6)
  {
    ["Sun", "Mon", "Tue", "Wed", "Thu", "Fri", "Sat"]
  }

  /** The inputs for which every term of the congruence is non-negative. */
  predicate InFormulaDomain(y: int, m: int, d: int) {
    y >= 1 && 1 <= m <= 12 && d >= 1
  }

  /** `f`: 1 for January and February, which the congruence counts as the last
      two months of the previous year, 0 for March to December. */
  function Shift(m: int): int {
    TruncDiv(14 - m, 12)
  }

  /** `Y`: the year the congruence counts the month in. */
  function ShiftedYear(y: int, m: int): int {
    y - Shift(m)
  }

  /** `M`: the month counted from March = 1 to February = 12. */
  function ShiftedMonth(m: int): int {
    m + 12 * Shift(m) - 2
  }

  /** `Int(31 * M / 12)`: the days of the shifted months before month `m`,
      up to a multiple of 7. */
  function MonthTerm(m: int): int {
    TruncDiv(31 * ShiftedMonth(m), 12)
  }

  /** `Y + Int(Y / 4) - Int(Y / 100) + Int(Y / 400)`: one weekday per year plus
      one per leap day of the shifted year `Y`. */
  function YearTerms(Y: int): int {
    Y + TruncDiv(Y, 4) - TruncDiv(Y, 100) + TruncDiv(Y, 400)
  }

  /** The sum whose remainder modulo 7 is the weekday. */
  function Congruence(y: int, m: int, d: int): int {
    d + MonthTerm(m) + YearTerms(ShiftedYear(y, m))
  }

  /** The nested `weekday(y:m:d:)`: Swift's `%` keeps the sign of the sum, so on
      arbitrary integers the result lies strictly between -7 and 7. */
  function Weekday(y: int, m: int, d: int): (w: int)
    ensures -7 < w < 7
    ensures Congruence(y, m, d) >= 0 ==> w >= 0
  {
    Rem(Congruence(y, m, d), 7)
  }

  /** `get_day_num` on a date: on the formula's domain, a column of the grid. */
  function DayNum(dt: Date): (w: int)
    ensures InFormulaDomain(dt.year, dt.month, dt.day) ==> 0 <= w < |DayLabels()|
  {
    if InFormulaDomain(dt.year, dt.month, dt.day) then
      WeekdayRange(dt.year, dt.month, dt.day);
      Weekday(dt.year, dt.month, dt.day)
    else
      Weekday(dt.year, dt.month, dt.day)
  }

  /** The test that greys a day's number (weekday 0 or 6): on the formula's
      domain it greys exactly the days under a greyed heading. */
  predicate IsWeekend(dt: Date): (r: bool)
    ensures InFormulaDomain(dt.year, dt.month, dt.day) ==>
      (r <==> IsWeekendLabel(DayLabels()[DayNum(dt)]))
  {
    DayNum(dt) == 0 || DayNum(dt) == 6
  }

  /** The test that greys a column heading. */
  predicate IsWeekendLabel(heading: string) {
    heading == "Sun" || heading == "Sat"
  }

  /** For months 1 to 12 the shift is 1 exactly for January and February, and
      the shifted month runs from 1 (March) to 12 (February). */
  lemma ShiftCases(y: int, m: int)
    requires 1 <= m <= 12
    ensures Shift(m) == 1 <==> m <= 2
    ensures m <= 2 ==> Shift(m) == 1 && ShiftedMonth(m) == m + 10 && ShiftedYear(y, m) == y - 1
    ensures m > 2 ==> Shift(m) == 0 && ShiftedMonth(m) == m - 2 && ShiftedYear(y, m) == y
    ensures 1 <= ShiftedMonth(m) <= 12
  {
  }

  /** The month term for January to December. */
  lemma MonthTermTable(m: int)
    requires 1 <= m <= 12
    ensures MonthTerm(m) == [28, 31, 2, 5, 7, 10, 12, 15, 18, 20, 23, 25][m - 1]
  {
    ShiftCases(0, m);
  }

  /** Every term of the congruence is non-negative on the domain. */
  lemma CongruencePositive(y: int, m: int, d: int)
    requires InFormulaDomain(y, m, d)
    ensures Congruence(y, m, d) >= 1
  {
    ShiftCases(y, m);
  }

  /** On the domain the weekday is a day number 0 (Sunday) to 6 (Saturday),
      the Euclidean remainder of the congruence. */
  lemma WeekdayRange(y: int, m: int, d: int)
    requires InFormulaDomain(y, m, d)
    ensures 0 <= Weekday(y, m, d) <= 6
    ensures Weekday(y, m, d) == Congruence(y, m, d) % 7
  {
    CongruencePositive(y, m, d);
  }

  /** Within a month the next day falls on the next weekday. */
  lemma WeekdayNextDayInMonth(y: int, m: int, d: int)
    requires InFormulaDomain(y, m, d)
    ensures Weekday(y, m, d + 1) == (Weekday(y, m, d) + 1) % 7
  {
    WeekdayRange(y, m, d);
    WeekdayRange(y, m, d + 1);
    CongruenceDayOffset(y, m, d, 1);
    RemainderOfSum(Congruence(y, m, d), 1);
  }

  /** Moving `k` days on within a month moves the congruence by `k`. */
  lemma CongruenceDayOffset(y: int, m: int, d: int, k: int)
    ensures Congruence(y, m, d + k) == Congruence(y, m, d) + k
  {
  }

  /** Adding a non-negative amount commutes with taking the remainder by 7. */
  lemma RemainderOfSum(a: int, k: int)
    requires a >= 0 && k >= 0
    ensures (a % 7 + k) % 7 == (a + k) % 7
  {
    var r := a % 7 + k;
    DivisionUnique(a + k, 7, a / 7 + r / 7, r % 7);
  }

  /** Adding whole weeks leaves the remainder by 7 alone. */
  lemma RemainderAfterWeeks(c: int, weeks: int)
    requires c >= 0 && weeks >= 0
    ensures (c + 7 * weeks) % 7 == c % 7
  {
    DivisionUnique(c + 7 * weeks, 7, c / 7 + weeks, c % 7);
  }

  /** The weekday of a date whose congruence is known. */
  lemma WeekdayIs(y: int, m: int, d: int, c: int)
    requires InFormulaDomain(y, m, d) && Congruence(y, m, d) == c
    ensures Weekday(y, m, d) == c % 7
  {
    WeekdayRange(y, m, d);
  }

  /** Within a month the weekday repeats every seven days. */
  lemma WeekdayWeekLater(y: int, m: int, d: int)
    requires InFormulaDomain(y, m, d)
    ensures Weekday(y, m, d + 7) == Weekday(y, m, d)
  {
    var c := Congruence(y, m, d);
    CongruenceDayOffset(y, m, d, 7);
    CongruencePositive(y, m, d);
    WeekdayIs(y, m, d, c);
    WeekdayIs(y, m, d + 7, c + 7);
    RemainderAfterWeeks(c, 1);
  }

  /** Day `d` of a month is `d - 1` weekdays after the 1st. */
  lemma WeekdayFromFirst(y: int, m: int, d: int)
    requires InFormulaDomain(y, m, d)
    ensures Weekday(y, m, d) == (Weekday(y, m, 1) + d - 1) % 7
  {
    WeekdayRange(y, m, 1);
    WeekdayRange(y, m, d);
    CongruenceDayOffset(y, m, 1, d - 1);
    RemainderOfSum(Congruence(y, m, 1), d - 1);
  }

  /** 400 years on, the year terms of the congruence grow by
      400 + 100 - 4 + 1 = 497 = 7 * 71 days. */
  lemma CongruenceFourHundredYears(y: int, m: int, d: int)
    requires InFormulaDomain(y, m, d)
    ensures Congruence(y + 400, m, d) == Congruence(y, m, d) + 7 * 71
  {
    ShiftCases(y, m);
    ShiftCases(y + 400, m);
    var Y := ShiftedYear(y, m);
    assert ShiftedYear(y + 400, m) == Y + 400;
    assert Congruence(y + 400, m, d) - Congruence(y, m, d) == YearTerms(Y + 400) - YearTerms(Y);
    TruncDivOfNonNegative(Y, 4);
    TruncDivOfNonNegative(Y + 400, 4);
    assert TruncDiv(Y + 400, 4) == TruncDiv(Y, 4) + 100;
    TruncDivOfNonNegative(Y, 100);
    TruncDivOfNonNegative(Y + 400, 100);
    assert TruncDiv(Y + 400, 100) == TruncDiv(Y, 100) + 4;
    TruncDivOfNonNegative(Y, 400);
    TruncDivOfNonNegative(Y + 400, 400);
    assert TruncDiv(Y + 400, 400) == TruncDiv(Y, 400) + 1;
  }

  /** The weekday repeats every 400 years. */
  lemma WeekdayFourHundredYears(y: int, m: int, d: int)
    requires InFormulaDomain(y, m, d)
    ensures Weekday(y + 400, m, d) == Weekday(y, m, d)
  {
    var c := Congruence(y, m, d);
    CongruenceFourHundredYears(y, m, d);
    CongruencePositive(y, m, d);
    WeekdayIs(y, m, d, c);
    WeekdayIs(y + 400, m, d, c + 7 * 71);
    RemainderAfterWeeks(c, 71);
  }
}
