/** The `Month` object: a days-per-month table with the leap-year test as the
    code writes it, the number of days in the chosen month, its first and
    "last" dates, and the label and date lists the grid draws. */
module MonthModel {
  import opened Decimal
  import opened DateModel
  import Gregorian

  /** `(year % 4 == 0 && year % 100 == 0) || year % 400 == 0`, as written.
      A zero remainder means the same under Swift's `%` and Dafny's. */
  predicate IsLeapAsWritten(year: int) {
    (year % 4 == 0 && year % 100 == 0) || year % 400 == 0
  }

  /** The `month_days` table: days of January to December. */
  function MonthDays(year: int): (r: seq<int>)
    ensures |r| == 12
    ensures forall i :: 0 <= i < 12 ==> 28 <= r[i] <= 31
    ensures r[1] == 29 <==> IsLeapAsWritten(year)
    ensures r[1] == 28 <==> !IsLeapAsWritten(year)
  {
    [31, if IsLeapAsWritten(year) then 29 else 28, 31, 30, 31, 30, 31, 31, 30, 31, 30, 31]
  }

  /** `month_days_name`: "1", "2", ..., one label per day. */
  function DayNames(n: nat): (r: seq<string>)
    ensures |r| == n
  {
    seq(n, i requires 0 <= i < n => DecimalString(i + 1))
  }

  /** `month_days_date`: the dates of days 1 to `n` of the month. */
  function DayDates(year: int, month: int, n: nat): (r: seq<Date>)
    ensures |r| == n
  {
    seq(n, i requires 0 <= i < n => Date(year, month, i + 1))
  }

  /** The coded test reduces to "divisible by 100": it makes 1900 a leap year
      and 2024 a common one. */
  lemma LeapAsWrittenIsCentury(year: int)
    ensures IsLeapAsWritten(year) <==> year % 100 == 0
  {
    Gregorian.CenturyDivisibility(year);
  }

  /** Only February's length depends on the year. */
  lemma OnlyFebruaryVaries(y1: int, y2: int, i: int)
    requires 0 <= i < 12 && i != 1
    ensures MonthDays(y1)[i] == MonthDays(y2)[i]
  {
  }

  /** Each label is the decimal rendering of its day, and reads back as it. */
  lemma DayNamesReadBack(n: nat, i: int)
    requires 0 <= i < n
    ensures DayNames(n)[i] == DecimalString(i + 1)
    ensures ParseDecimal(DayNames(n)[i]) == i + 1
  {
    ParseDecimalString(i + 1);
  }

  /** The labels are pairwise distinct, so each identifies its day. */
  lemma DayNamesDistinct(n: nat, i: int, j: int)
    requires 0 <= i < n && 0 <= j < n && DayNames(n)[i] == DayNames(n)[j]
    ensures i == j
  {
    DecimalStringInjective(i + 1, j + 1);
  }

  class Month {
    var year: int
    var month: int
    var monthDays: seq<int>
    var daysNum: int
    var start: Date
    var end: Date
    var monthDaysName: seq<string>
    var monthDaysDate: seq<Date>

    /** What `init` leaves behind. The `end` date is built with the year in
        the month position, exactly as the code does. */
    ghost predicate Valid()
      reads this
    {
      1 <= month <= 12 &&
      monthDays == MonthDays(year) &&
      daysNum == monthDays[month - 1] &&
      start == Date(year, month, 1) &&
      end == Date(year, year, daysNum) &&
      monthDaysName == DayNames(daysNum) &&
      monthDaysDate == DayDates(year, month, daysNum)
    }

    /** `Month(year:month:)`. The month must be 1 to 12: the code indexes
        `month_days[month - 1]`, which traps otherwise. */
    constructor (year: int, month: int)
      requires 1 <= month <= 12
      ensures Valid()
      ensures this.year == year && this.month == month
      ensures 28 <= daysNum <= 31 && daysNum == MonthDays(year)[month - 1]
      ensures |monthDaysName| == daysNum && |monthDaysDate| == daysNum
      ensures forall i :: 0 <= i < daysNum ==> monthDaysDate[i] == Date(year, month, i + 1)
    {
      this.year := year;
      this.month := month;
      var table := MonthDays(year);
      monthDays := table;
      daysNum := table[month - 1];
      start := Date(year, month, 1);
      end := Date(year, year, table[month - 1]);
      monthDaysName := DayNames(table[month - 1]);
      monthDaysDate := DayDates(year, month, table[month - 1]);
    }
  }

  /** The coded leap test disagrees with the Gregorian calendar in which the
      weekday formula counts, for 2024 and for 1900 among others. */
  lemma AsWrittenLeapDisagreements()
    ensures MonthDays(2024)[1] == 28 && Gregorian.GregorianMonthDays(2024)[1] == 29
    ensures MonthDays(1900)[1] == 29 && Gregorian.GregorianMonthDays(1900)[1] == 28
  {
  }

  /** Wherever the two leap rules disagree, the grid's last day of February
      and the 1st of March are not on consecutive weekdays: in 2024 the table
      stops at Wednesday the 28th and March opens on Friday, and in 1900 it
      adds a 29th that shares its weekday with the 1st of March. */
  lemma AsWrittenFebruaryBreaksWeekdays(year: int)
    requires year >= 1 && MonthDays(year)[1] != Gregorian.GregorianMonthDays(year)[1]
    ensures Weekday(year, 3, 1) != (Weekday(year, 2, MonthDays(year)[1]) + 1) % 7
  {
    if Gregorian.GregorianMonthDays(year)[1] == 29 {
      LeapDayDropped(year);
    } else {
      LeapDayAdded(year);
    }
  }

  /** A Gregorian leap year the table gives 28 days: the 1st of March is two
      weekdays after the table's last day of February. */
  lemma LeapDayDropped(year: int)
    requires year >= 1 && Gregorian.GregorianMonthDays(year)[1] == 29
    ensures Weekday(year, 3, 1) == (Weekday(year, 2, 29) + 1) % 7
    ensures Weekday(year, 3, 1) != (Weekday(year, 2, 28) + 1) % 7
  {
    Gregorian.MarchFollowsFebruary(year);
    WeekdayRange(year, 2, 28);
    WeekdayNextDayInMonth(year, 2, 28);
    NoWeekdayIsItsOwnSuccessor((Weekday(year, 2, 28) + 1) % 7);
  }

  /** A Gregorian common year the table gives 29 days: the 1st of March
      falls on the same weekday as the table's 29th. */
  lemma LeapDayAdded(year: int)
    requires year >= 1 && Gregorian.GregorianMonthDays(year)[1] == 28
    ensures Weekday(year, 3, 1) == Weekday(year, 2, 29)
    ensures Weekday(year, 3, 1) != (Weekday(year, 2, 29) + 1) % 7
  {
    Gregorian.MarchFollowsFebruary(year);
    WeekdayRange(year, 2, 29);
    WeekdayNextDayInMonth(year, 2, 28);
    NoWeekdayIsItsOwnSuccessor(Weekday(year, 2, 29));
  }

  /** Stepping a day number on by one always changes it. */
  lemma NoWeekdayIsItsOwnSuccessor(w: int)
    requires 0 <= w <= 6
    ensures (w + 1) % 7 != w
  {
  }
}
