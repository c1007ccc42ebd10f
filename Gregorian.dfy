/** The proleptic Gregorian calendar, written independently of the weekday
    congruence: month lengths with the Gregorian leap-year rule and the
    successor of a date. The congruence is proved to advance by one weekday
    from every valid date to the next, which with one known date pins it to
    the real calendar. */
module Gregorian {
  import opened SwiftInt
  import opened DateModel

  /** Divisible by 4, and not by 100 unless also by 400. */
  predicate IsGregorianLeap(y: int) {
    y % 4 == 0 && (y % 100 != 0 || y % 400 == 0)
  }

  /** Days of January to December in year `y`. */
  function GregorianMonthDays(y: int): (r: seq<int>)
    ensures |r| == 12
    ensures r[1] == if IsGregorianLeap(y) then 29 else 28
    ensures forall i :: 0 <= i < 12 ==> 28 <= r[i] <= 31
  {
    [31, if IsGregorianLeap(y) then 29 else 28, 31, 30, 31, 30, 31, 31, 30, 31, 30, 31]
  }

  predicate IsValidDate(dt: Date) {
    1 <= dt.month <= 12 && 1 <= dt.day <= GregorianMonthDays(dt.year)[dt.month - 1]
  }

  /** The day after `dt`: the next day of the month, else the 1st of the next
      month, else New Year's Day. */
  function NextDay(dt: Date): (r: Date)
    requires IsValidDate(dt)
    ensures IsValidDate(r)
    ensures r.year == dt.year || (r.year == dt.year + 1 && r.month == 1 && r.day == 1)
  {
    if dt.day < GregorianMonthDays(dt.year)[dt.month - 1] then Date(dt.year, dt.month, dt.day + 1)
    else if dt.month < 12 then Date(dt.year, dt.month + 1, 1)
    else Date(dt.year + 1, 1, 1)
  }

  /** Going from year `Y` to `Y + 1` adds one to the quotient by `b` exactly
      when `b` divides `Y + 1`. */
  lemma QuotientStep(Y: int, b: int)
    requires Y >= 0 && b > 0
    ensures TruncDiv(Y + 1, b) == TruncDiv(Y, b) + if (Y + 1) % b == 0 then 1 else 0
  {
    TruncDivOfNonNegative(Y, b);
    TruncDivOfNonNegative(Y + 1, b);
    var q, r := Y / b, Y % b;
    assert Y == q * b + r && 0 <= r < b;
    if r + 1 < b {
      DivisionUnique(Y + 1, b, q, r + 1);
    } else {
      DivisionUnique(Y + 1, b, q + 1, 0);
    }
  }

  /** From year `Y` to `Y + 1` the year terms grow by one, plus one more when
      `Y + 1` is a Gregorian leap year. */
  lemma YearTermsStep(Y: int)
    requires Y >= 0
    ensures YearTerms(Y + 1) == YearTerms(Y) + 1 + if IsGregorianLeap(Y + 1) then 1 else 0
  {
    var y := Y + 1;
    QuotientStep(Y, 4);
    QuotientStep(Y, 100);
    QuotientStep(Y, 400);
    CenturyDivisibility(y);
    var a, b, c := TruncDiv(Y, 4), TruncDiv(Y, 100), TruncDiv(Y, 400);
    assert YearTerms(Y) == Y + a - b + c;
    assert YearTerms(y) == y + TruncDiv(y, 4) - TruncDiv(y, 100) + TruncDiv(y, 400);
  }

  /** A year divisible by 400 is divisible by 100, and one divisible by 100 is
      divisible by 4. */
  lemma CenturyDivisibility(y: int)
    ensures y % 400 == 0 ==> y % 100 == 0
    ensures y % 100 == 0 ==> y % 4 == 0
  {
    if y % 400 == 0 {
      DivisionUnique(y, 100, 4 * (y / 400), 0);
    }
    if y % 100 == 0 {
      DivisionUnique(y, 4, 25 * (y / 100), 0);
    }
  }

  /** Except in February, the month term of the next month exceeds this
      month's by the month's length less four whole weeks. */
  lemma MonthTermAdvance(y: int, m: int)
    requires 1 <= m <= 12 && m != 2
    ensures MonthTerm(if m < 12 then m + 1 else 1) == MonthTerm(m) + GregorianMonthDays(y)[m - 1] - 28
  {
    MonthTermTable(m);
    MonthTermTable(if m < 12 then m + 1 else 1);
  }

  /** From the last day of a month to the 1st of the next the congruence
      moves on by one day less a whole number of weeks: the month term makes
      up the month's length, and the year terms make up February's leap
      day. */
  lemma CongruenceAtMonthEnd(dt: Date)
    requires IsValidDate(dt) && dt.year >= 1
    requires dt.day == GregorianMonthDays(dt.year)[dt.month - 1]
    ensures Congruence(NextDay(dt).year, NextDay(dt).month, NextDay(dt).day)
         == Congruence(dt.year, dt.month, dt.day) + 1 - 7 * (if dt.month == 2 then 8 else 4)
  {
    if dt.month == 2 {
      assert NextDay(dt) == Date(dt.year, 3, 1);
      CongruenceAtFebruaryEnd(dt.year);
    } else {
      CongruenceAtOtherMonthEnd(dt.year, dt.month);
    }
  }

  /** February's last day, 28th or 29th, to the 1st of March: the year
      terms grow by the leap day and the shifted year's one day. */
  lemma CongruenceAtFebruaryEnd(y: int)
    requires y >= 1
    ensures Congruence(y, 3, 1) == Congruence(y, 2, GregorianMonthDays(y)[1]) + 1 - 7 * 8
  {
    assert ShiftedYear(y, 2) == y - 1 && ShiftedYear(y, 3) == y by {
      ShiftCases(y, 2);
      ShiftCases(y, 3);
    }
    assert MonthTerm(2) == 31 && MonthTerm(3) == 2 by {
      MonthTermTable(2);
      MonthTermTable(3);
    }
    YearTermsStep(y - 1);
  }

  /** The last day of any other month to the 1st of the next: same shifted
      year, and the month term makes up the month's length. */
  lemma CongruenceAtOtherMonthEnd(y: int, m: int)
    requires y >= 1 && 1 <= m <= 12 && m != 2
    ensures var next := if m < 12 then Date(y, m + 1, 1) else Date(y + 1, 1, 1);
      Congruence(next.year, next.month, next.day) == Congruence(y, m, GregorianMonthDays(y)[m - 1]) + 1 - 7 * 4
  {
    var next := if m < 12 then Date(y, m + 1, 1) else Date(y + 1, 1, 1);
    assert ShiftedYear(next.year, next.month) == ShiftedYear(y, m) by {
      ShiftCases(y, m);
      ShiftCases(next.year, next.month);
    }
    MonthTermAdvance(y, m);
  }

  /** The next day falls on the next weekday, across month and year ends. */
  lemma WeekdayOfNextDay(dt: Date)
    requires IsValidDate(dt) && dt.year >= 1
    ensures DayNum(NextDay(dt)) == (DayNum(dt) + 1) % 7
  {
    var n := NextDay(dt);
    var c := Congruence(dt.year, dt.month, dt.day);
    var c' := Congruence(n.year, n.month, n.day);
    var weeks := CongruenceOfNextDay(dt);
    CongruencePositive(dt.year, dt.month, dt.day);
    CongruencePositive(n.year, n.month, n.day);
    WeekdayIs(dt.year, dt.month, dt.day, c);
    WeekdayIs(n.year, n.month, n.day, c');
    NextRemainder(c, c', weeks);
  }

  /** The congruence of the next day is one more, less whole weeks. */
  lemma CongruenceOfNextDay(dt: Date) returns (weeks: int)
    requires IsValidDate(dt) && dt.year >= 1
    ensures Congruence(NextDay(dt).year, NextDay(dt).month, NextDay(dt).day)
         == Congruence(dt.year, dt.month, dt.day) + 1 - 7 * weeks
  {
    if dt.day < GregorianMonthDays(dt.year)[dt.month - 1] {
      weeks := 0;
      CongruenceDayOffset(dt.year, dt.month, dt.day, 1);
    } else {
      weeks := if dt.month == 2 then 8 else 4;
      CongruenceAtMonthEnd(dt);
    }
  }

  /** The 1st of March follows the last day of February, 28th or 29th. */
  lemma MarchFollowsFebruary(y: int)
    requires y >= 1
    ensures Weekday(y, 3, 1) == (Weekday(y, 2, GregorianMonthDays(y)[1]) + 1) % 7
  {
    var dt := Date(y, 2, GregorianMonthDays(y)[1]);
    assert NextDay(dt) == Date(y, 3, 1);
    WeekdayOfNextDay(dt);
  }

  /** One more than `c`, less whole weeks, is one weekday later. */
  lemma NextRemainder(c: int, c': int, weeks: int)
    requires c >= 0 && c' >= 0 && c' == c + 1 - 7 * weeks
    ensures c' % 7 == (c % 7 + 1) % 7
  {
    DivisionUnique(c', 7, c / 7 - weeks + (c % 7 + 1) / 7, (c % 7 + 1) % 7);
  }

  /** The code's own creation date, 25 December 2022, was a Sunday. */
  lemma KnownSunday()
    ensures DayNum(Date(2022, 12, 25)) == 0
  {
    ShiftCases(2022, 12);
    MonthTermTable(12);
    assert YearTerms(2022) == 2022 + 505 - 20 + 5;
    WeekdayIs(2022, 12, 25, 2562);
  }
}
