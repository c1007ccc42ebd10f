/** The `CalendarView` state: the year and month shown, stepped by the
    previous and next buttons or set by the two pickers, and the `Month` and
    `MonthView` rebuilt from them. */
module Navigation {
  import opened SwiftInt
  import opened DateModel
  import opened MonthModel
  import opened MonthGrid

  /** Months counted from January of year 0: consecutive months have
      consecutive indices. */
  function MonthIndex(year: int, month: int): int {
    12 * year + month - 1
  }

  /** The (year, month) pair with index `k`. */
  function FromIndex(k: int): (r: (int, int))
    ensures 1 <= r.1 <= 12
  {
    (k / 12, k % 12 + 1)
  }

  /** Counting months and naming them are inverse on months 1 to 12. */
  lemma IndexRoundTrip(year: int, month: int, k: int)
    ensures MonthIndex(FromIndex(k).0, FromIndex(k).1) == k
    ensures 1 <= month <= 12 ==> FromIndex(MonthIndex(year, month)) == (year, month)
  {
    if 1 <= month <= 12 {
      DivisionUnique(MonthIndex(year, month), 12, year, month - 1);
    }
  }

  /** The month before (year, month). */
  function PreviousMonth(year: int, month: int): (r: (int, int))
    ensures 1 <= r.1 <= 12
  {
    FromIndex(MonthIndex(year, month) - 1)
  }

  /** The month after (year, month). */
  function NextMonth(year: int, month: int): (r: (int, int))
    ensures 1 <= r.1 <= 12
  {
    FromIndex(MonthIndex(year, month) + 1)
  }

  /** Stepping back wraps January to December of the year before and
      otherwise keeps the year. */
  lemma PreviousMonthCases(year: int, month: int)
    requires 1 <= month <= 12
    ensures month == 1 ==> PreviousMonth(year, month) == (year - 1, 12)
    ensures month > 1 ==> PreviousMonth(year, month) == (year, month - 1)
  {
    if month == 1 {
      IndexRoundTrip(year - 1, 12, 0);
    } else {
      IndexRoundTrip(year, month - 1, 0);
    }
  }

  /** Stepping on wraps December to January of the year after and otherwise
      keeps the year. */
  lemma NextMonthCases(year: int, month: int)
    requires 1 <= month <= 12
    ensures month == 12 ==> NextMonth(year, month) == (year + 1, 1)
    ensures month < 12 ==> NextMonth(year, month) == (year, month + 1)
  {
    if month == 12 {
      IndexRoundTrip(year + 1, 1, 0);
    } else {
      IndexRoundTrip(year, month + 1, 0);
    }
  }

  /** Next undoes previous. */
  lemma NextAfterPrevious(year: int, month: int)
    requires 1 <= month <= 12
    ensures NextMonth(PreviousMonth(year, month).0, PreviousMonth(year, month).1) == (year, month)
  {
    var k := MonthIndex(year, month);
    IndexRoundTrip(year, month, k - 1);
    IndexRoundTrip(year, month, k);
  }

  /** Previous undoes next. */
  lemma PreviousAfterNext(year: int, month: int)
    requires 1 <= month <= 12
    ensures PreviousMonth(NextMonth(year, month).0, NextMonth(year, month).1) == (year, month)
  {
    var k := MonthIndex(year, month);
    IndexRoundTrip(year, month, k + 1);
    IndexRoundTrip(year, month, k);
  }

  class CalendarView {
    var yearNum: int
    var monthNum: int
    var month: Month
    var grid: MonthView

    /** The shown month and its grid always match the two numbers. */
    ghost predicate Valid()
      reads this, month, grid, grid.month
    {
      1 <= monthNum <= 12 &&
      month.Valid() && month.year == yearNum && month.month == monthNum &&
      grid.Valid() && grid.month == month
    }

    /** The view once it has appeared: both numbers are today's, passed in
        because the code reads them from the clock. */
    constructor (todayYear: int, todayMonth: int)
      requires 1 <= todayMonth <= 12
      ensures Valid() && fresh(month) && fresh(grid)
      ensures yearNum == todayYear && monthNum == todayMonth
    {
      yearNum := todayYear;
      monthNum := todayMonth;
      var m := new Month(todayYear, todayMonth);
      month := m;
      grid := new MonthView(m);
    }

    /** Rebuilds the month from the two numbers, as the `onChange` handlers
        do, and hands it to the grid. */
    method Rebuild()
      requires 1 <= monthNum <= 12 && grid.Valid()
      modifies this, grid
      ensures Valid() && fresh(month)
      ensures yearNum == old(yearNum) && monthNum == old(monthNum) && grid == old(grid)
      ensures grid.daysBeforeMonth == DayNum(Date(yearNum, monthNum, 1))
    {
      var m := new Month(yearNum, monthNum);
      month := m;
      grid.MonthChanged(m);
    }

    /** The left chevron: decrement, wrapping month 0 to 12 of the year
        before. */
    method Previous()
      requires Valid()
      modifies this, grid
      ensures Valid() && fresh(month) && grid == old(grid)
      ensures (yearNum, monthNum) == PreviousMonth(old(yearNum), old(monthNum))
    {
      PreviousMonthCases(yearNum, monthNum);
      monthNum := monthNum - 1;
      if monthNum == 0 {
        monthNum := 12;
        yearNum := yearNum - 1;
      }
      Rebuild();
    }

    /** The right chevron: increment, wrapping month 13 to 1 of the year
        after. */
    method Next()
      requires Valid()
      modifies this, grid
      ensures Valid() && fresh(month) && grid == old(grid)
      ensures (yearNum, monthNum) == NextMonth(old(yearNum), old(monthNum))
    {
      NextMonthCases(yearNum, monthNum);
      monthNum := monthNum + 1;
      if monthNum == 13 {
        monthNum := 1;
        yearNum := yearNum + 1;
      }
      Rebuild();
    }

    /** The year picker offers the thirty years either side of the shown one;
        only a different year fires `onChange` and rebuilds the month. */
    method PickYear(year: int)
      requires Valid() && yearNum - 30 <= year <= yearNum + 30
      modifies this, grid
      ensures Valid() && grid == old(grid)
      ensures yearNum == year && monthNum == old(monthNum)
      ensures year != old(yearNum) ==> fresh(month)
      ensures year == old(yearNum) ==> month == old(month) && unchanged(grid)
    {
      if year != yearNum {
        yearNum := year;
        Rebuild();
      }
    }

    /** The month picker offers months 1 to 12; only a different month fires
        `onChange` and rebuilds the month. */
    method PickMonth(month: int)
      requires Valid() && 1 <= month <= 12
      modifies this, grid
      ensures Valid() && grid == old(grid)
      ensures yearNum == old(yearNum) && monthNum == month
      ensures month != old(monthNum) ==> fresh(this.month)
      ensures month == old(monthNum) ==> this.month == old(this.month) && unchanged(grid)
    {
      if month != monthNum {
        monthNum := month;
        Rebuild();
      }
    }
  }
}
