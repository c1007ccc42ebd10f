/** The `MonthView` layout: a row of blank cells as long as the weekday of the
    1st, then one button per day, seven columns headed Sun to Sat. */
module MonthGrid {
  import opened DateModel
  import opened MonthModel

  /** One cell of the day grid: a spacer, or the button of day `index + 1`. */
  datatype Cell = Blank | Day(index: nat)

  /** `blanks` spacers followed by the buttons of `n` days. */
  function GridCells(blanks: nat, n: nat): (r: seq<Cell>)
    ensures |r| == blanks + n
    ensures forall k :: 0 <= k < blanks ==> r[k] == Blank
    ensures forall i :: 0 <= i < n ==> r[blanks + i] == Day(i)
  {
    seq(blanks, _ => Blank) + seq(n, (i: nat) requires i < n => Day(i))
  }

  /** The blanks before the 1st fill less than one row, and with them the
      month needs at most 37 cells, so at most six rows of seven. */
  lemma GridFits(year: int, month: int)
    requires year >= 1 && 1 <= month <= 12
    ensures 0 <= DayNum(Date(year, month, 1)) <= 6
    ensures DayNum(Date(year, month, 1)) + MonthDays(year)[month - 1] <= 37
  {
    WeekdayRange(year, month, 1);
  }

  /** The button of day `i + 1`, which `GridCells` puts right after the
      blanks plus `i`, is in the column whose heading is its weekday. */
  lemma DayColumn(year: int, month: int, n: nat, i: int)
    requires year >= 1 && 1 <= month <= 12 && 0 <= i < n
    ensures 0 <= DayNum(Date(year, month, 1))
    ensures (DayNum(Date(year, month, 1)) + i) % 7 == DayNum(DayDates(year, month, n)[i])
  {
    var b := DayNum(Date(year, month, 1));
    WeekdayRange(year, month, 1);
    assert DayDates(year, month, n)[i] == Date(year, month, i + 1);
    WeekdayFromFirst(year, month, i + 1);
    assert (b + i) % 7 == Weekday(year, month, i + 1);
  }

  /** `DayColumn` for every day of the month at once: each day's cell, after
      the blanks, is in the column of its own weekday. */
  lemma AllDayColumns(year: int, month: int, n: nat)
    requires year >= 1 && 1 <= month <= 12
    ensures 0 <= DayNum(Date(year, month, 1))
    ensures forall i :: 0 <= i < n ==>
      (DayNum(Date(year, month, 1)) + i) % 7 == DayNum(DayDates(year, month, n)[i])
  {
    WeekdayRange(year, month, 1);
    forall i | 0 <= i < n
      ensures (DayNum(Date(year, month, 1)) + i) % 7 == DayNum(DayDates(year, month, n)[i])
    {
      DayColumn(year, month, n, i);
    }
  }

  class MonthView {
    var month: Month
    var daysBeforeMonth: int

    /** The blank count is the weekday of the month's 1st. */
    ghost predicate Valid()
      reads this, month
    {
      month.Valid() && daysBeforeMonth == DayNum(month.start)
    }

    /** `MonthView(month:selectedDate:)` takes the blank count from the 1st. */
    constructor (month: Month)
      requires month.Valid()
      ensures Valid() && this.month == month
      ensures daysBeforeMonth == DayNum(Date(month.year, month.month, 1))
    {
      this.month := month;
      daysBeforeMonth := DayNum(month.start);
    }

    /** The bound month is replaced; the `onChange` handlers on its year and
        month recompute the blank count when either differs. */
    method MonthChanged(newMonth: Month)
      requires Valid() && newMonth.Valid()
      modifies this
      ensures Valid() && month == newMonth
      ensures daysBeforeMonth == DayNum(Date(newMonth.year, newMonth.month, 1))
    {
      var changed := newMonth.year != month.year || newMonth.month != month.month;
      month := newMonth;
      if changed {
        daysBeforeMonth := DayNum(month.start);
      }
    }

    /** The cells the grid draws, each day under its weekday's heading. */
    function Cells(): (r: seq<Cell>)
      reads this, month
      requires Valid() && month.year >= 1
      ensures 0 <= daysBeforeMonth <= 6 && |r| == daysBeforeMonth + month.daysNum <= 37
      ensures forall k :: 0 <= k < daysBeforeMonth ==> r[k] == Blank
      ensures forall i :: 0 <= i < month.daysNum ==>
        r[daysBeforeMonth + i] == Day(i) && (daysBeforeMonth + i) % 7 == DayNum(month.monthDaysDate[i])
    {
      GridFits(month.year, month.month);
      var cells := GridCells(daysBeforeMonth, month.daysNum);
      AllDayColumns(month.year, month.month, month.daysNum);
      cells
    }
  }
}
