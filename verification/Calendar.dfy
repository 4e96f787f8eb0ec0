/** The month pages of the date picker. */
module Calendar {
  import opened Gregorian

  predicate IsLeapYear(year: int) {
    (year % 4 == 0 && year % 100 != 0) || year % 400 == 0
  }

  function GetDaysInMonth(month: int, year: int): (days: int)
    ensures 28 <= days <= 31
  {
    if month == 1 || month == 3 || month == 5 || month == 7 || month == 8 || month == 10 || month == 12 then 31
    else if month == 4 || month == 6 || month == 9 || month == 11 then 30
    else if month == 2 && IsLeapYear(year) then 29
    else 28
  }

  /** The program's month lengths are the calendar's. */
  lemma DaysAreRight(month: int, year: int)
    requires 1 <= month <= 12
    ensures GetDaysInMonth(month, year) == MonthLength(month, year)
  {
    YearLength(year);
  }

  /** The `Date` constructor takes the years 0 to 99 for 1900 to 1999. */
  function DateYear(year: int): int {
    if 0 <= year <= 99 then 1900 + year else year
  }

  /** `new Date(year, month - 1, 1 - firstDayOfWeek).getDay()`. */
  function StartingPos(month: int, year: int, firstDayOfWeek: int): (start: int)
    requires 1 <= month <= 12
    ensures 0 <= start < 7
  {
    WeekdayOf(Day(DateYear(year), month, 1 - firstDayOfWeek))
  }

  datatype Cell = Blank | Number(day: int)

  /** The cell in position `k` of a month of `days` days that starts in column `start`. */
  function CellAt(start: int, days: int, k: int): Cell {
    if start <= k < start + days then Number(k - start + 1) else Blank
  }

  /** A page: seven headings, and rows of seven cells that hold the days in order, with blanks only around them. */
  predicate IsPage(header: seq<int>, rows: seq<seq<Cell>>, month: int, year: int, firstDayOfWeek: int)
    requires 1 <= month <= 12
  {
    var start, days := StartingPos(month, year, firstDayOfWeek), GetDaysInMonth(month, year);
    && |header| == 7 && (forall c :: 0 <= c < 7 ==> header[c] == (c + firstDayOfWeek) % 7)
    && 7 * (|rows| - 1) < start + days <= 7 * |rows|
    && (forall r :: 0 <= r < |rows| ==> |rows[r]| == 7)
    && (forall r, c :: 0 <= r < |rows| && 0 <= c < 7 ==> rows[r][c] == CellAt(start, days, 7 * r + c))
  }

  /** `draw`, as the table it builds. */
  method Draw(month: int, year: int, firstDayOfWeek: int) returns (header: seq<int>, rows: seq<seq<Cell>>)
    requires 1 <= month <= 12 && 0 <= firstDayOfWeek < 7
    ensures IsPage(header, rows, month, year, firstDayOfWeek)
  {
    hide GetDaysInMonth, StartingPos;
    header := [];
    for c := 0 to 7
      invariant |header| == c && forall k :: 0 <= k < c ==> header[k] == (k + firstDayOfWeek) % 7
    {
      header := header + [(c + firstDayOfWeek) % 7];
    }
    var startingPos := StartingPos(month, year, firstDayOfWeek);
    var days := GetDaysInMonth(month, year);
    var row: seq<Cell> := [];
    for c := 0 to startingPos
      invariant |row| == c && forall k :: 0 <= k < c ==> row[k] == Blank
    {
      row := row + [Blank];
    }
    rows := [];
    var i, currentDay := startingPos, 1;
    while currentDay <= days
      invariant 1 <= currentDay <= days + 1 && i == startingPos + currentDay - 1
      invariant i == 7 * |rows| + |row| && |row| <= 7
      invariant (currentDay > 1 ==> |row| > 0) && (currentDay == 1 ==> rows == [])
      invariant forall r :: 0 <= r < |rows| ==> |rows[r]| == 7
      invariant forall r, c :: 0 <= r < |rows| && 0 <= c < 7 ==> rows[r][c] == CellAt(startingPos, days, 7 * r + c)
      invariant forall c :: 0 <= c < |row| ==> row[c] == CellAt(startingPos, days, 7 * |rows| + c)
    {
      if i % 7 == 0 && currentDay != 1 {
        FullRow(i, |rows|, |row|);
        rows := rows + [row];
        row := [];
      } else if currentDay != 1 {
        NotFullRow(i, |rows|, |row|);
      }
      row := row + [Number(currentDay)];
      currentDay := currentDay + 1;
      i := i + 1;
    }
    while |row| < 7
      invariant |row| <= 7 && i <= 7 * |rows| + |row|
      invariant forall c :: 0 <= c < |row| ==> row[c] == CellAt(startingPos, days, 7 * |rows| + c)
    {
      row := row + [Blank];
    }
    rows := rows + [row];
  }

  lemma FullRow(i: int, q: int, n: int)
    requires i == 7 * q + n && 0 < n <= 7 && i % 7 == 0
    ensures n == 7
  {
  }

  lemma NotFullRow(i: int, q: int, n: int)
    requires i == 7 * q + n && 0 <= n <= 7 && i % 7 != 0
    ensures n < 7
  {
  }

  /**
   * Every day stands under the heading of its weekday exactly when the year is not one of 0 to 99, although the
   * years from 1 on are admitted.
   */
  lemma DaysStandUnderTheirWeekday(month: int, year: int, firstDayOfWeek: int)
    requires 1 <= month <= 12 && 0 <= firstDayOfWeek < 7
    ensures (forall day :: 1 <= day <= GetDaysInMonth(month, year) ==>
               (StartingPos(month, year, firstDayOfWeek) + day - 1 + firstDayOfWeek) % 7 ==
               WeekdayOf(Day(year, month, day)))
            <==> !(0 <= year <= 99)
  {
    hide GetDaysInMonth, DayFromYear, LongYear, DaysBefore;
    var start := StartingPos(month, year, firstDayOfWeek);
    var first := Day(DateYear(year), month, 1);
    if 0 <= year <= 99 {
      CenturiesApart(month, year);
      FirstDay(first, firstDayOfWeek);
      WeeksApart(first + 4, Day(year, month, 1) + 4);
      var day := 1;
      assert (start + day - 1 + firstDayOfWeek) % 7 != WeekdayOf(Day(year, month, day));
    } else {
      forall day | 1 <= day <= GetDaysInMonth(month, year)
        ensures (start + day - 1 + firstDayOfWeek) % 7 == WeekdayOf(Day(year, month, day))
      {
        Shift(first - firstDayOfWeek + 4, day - 1 + firstDayOfWeek);
      }
    }
  }

  lemma FirstDay(first: int, firstDayOfWeek: int)
    ensures (WeekdayOf(first - firstDayOfWeek) + firstDayOfWeek) % 7 == (first + 4) % 7
  {
    Shift(first - firstDayOfWeek + 4, firstDayOfWeek);
  }

  lemma WeeksApart(a: int, b: int)
    requires (a - b) % 7 != 0
    ensures a % 7 != b % 7
  {
  }

  lemma Shift(a: int, b: int)
    ensures (a % 7 + b) % 7 == (a + b) % 7
  {
  }

  /** Nineteen centuries are no whole number of weeks. */
  lemma CenturiesApart(month: int, year: int)
    requires 1 <= month <= 12 && 0 <= year <= 99
    ensures (Day(1900 + year, month, 1) - Day(year, month, 1)) % 7 != 0
  {
    hide DayFromYear, LongYear, DaysBefore;
    YearLength(year);
    YearLength(1900 + year);
    MonthsApart(month, year, 1900 + year);
    NineteenCenturies(year);
    SameLeap(year);
  }

  lemma SameLeap(year: int)
    requires 0 <= year <= 99
    ensures year == 0 || IsLeapYear(year) == IsLeapYear(1900 + year)
    ensures !IsLeapYear(1900) && IsLeapYear(0)
  {
  }

  lemma NineteenCenturies(year: int)
    requires 0 <= year <= 99
    ensures DayFromYear(1900 + year) - DayFromYear(year) == if year == 0 then 693961 else 693960
  {
    Periods(year - 1969, 4, 475);
    Periods(year - 1901, 100, 19);
    assert (year + 299) / 400 == 0;
    assert (year - 1601) / 400 == if year == 0 then -5 else -4;
  }

  lemma {:induction false} MonthsApart(month: int, a: int, b: int)
    requires 1 <= month <= 12
    ensures DaysBefore(month, b) - DaysBefore(month, a) ==
            if month <= 2 || (LongYear(a) <==> LongYear(b)) then 0 else if LongYear(b) then 1 else -1
  {
    hide LongYear;
    if month > 1 {
      MonthsApart(month - 1, a, b);
    }
  }

  // ---------------------------------------------------------------- page after page

  function NextMonth(month: int, year: int): (int, int) {
    if month == 12 then (1, year + 1) else (month + 1, year)
  }

  /** Months after which, for the sake of the years 0 to 99, the calendar does not go on where it was. */
  predicate Breaks(month: int, year: int) {
    (month == 12 && (year == -1 || year == 99)) || (month == 2 && year == 0)
  }

  /** The next page starts in the column after the one where this page's days end, but for three months. */
  lemma PagesTile(month: int, year: int, firstDayOfWeek: int)
    requires 1 <= month <= 12
    ensures var (m, y) := NextMonth(month, year);
            StartingPos(m, y, firstDayOfWeek) ==
            (StartingPos(month, year, firstDayOfWeek) + GetDaysInMonth(month, year)) % 7
            <==> !Breaks(month, year)
  {
    hide DayFromYear, LongYear;
    var (m, y) := NextMonth(month, year);
    var days := GetDaysInMonth(month, year);
    var first := Day(DateYear(year), month, 1 - firstDayOfWeek);
    var next := Day(DateYear(y), m, 1 - firstDayOfWeek);
    Shift(first + 4, days);
    SameDay(next + 4, first + days + 4);
    NextFirst(DateYear(year), month, 1 - firstDayOfWeek);
    if month == 12 && (year == -1 || year == 99) {
      NewYears();
    } else {
      MonthLengths(month, year);
    }
  }

  lemma SameDay(a: int, b: int)
    ensures a % 7 == b % 7 <==> (a - b) % 7 == 0
  {
  }

  lemma NextFirst(year: int, month: int, day: int)
    requires 1 <= month <= 12
    ensures var (m, y) := NextMonth(month, year); Day(y, m, day) == Day(year, month, day) + GetDaysInMonth(month, year)
  {
    hide DayFromYear, LongYear;
    DaysAreRight(month, year);
    YearLength(year);
    TwelveMonths(year);
  }

  /** The years 0 and 100 do not begin on the weekdays that 1900 and 2000 begin on. */
  lemma NewYears()
    ensures (DayFromYear(1900) - DayFromYear(0)) % 7 != 0 && (DayFromYear(100) - DayFromYear(2000)) % 7 != 0
  {
  }

  lemma MonthLengths(month: int, year: int)
    requires 1 <= month <= 12
    ensures GetDaysInMonth(month, DateYear(year)) ==
            GetDaysInMonth(month, year) - if month == 2 && year == 0 then 1 else 0
  {
    if 0 <= year <= 99 {
      SameLeap(year);
    }
  }

  /** Pages repeat every 400 years, but for those of the years 0 to 99. */
  lemma PagesRepeat(month: int, year: int, firstDayOfWeek: int)
    requires 1 <= month <= 12
    ensures GetDaysInMonth(month, year + 400) == GetDaysInMonth(month, year)
    ensures StartingPos(month, year + 400, firstDayOfWeek) == StartingPos(month, year, firstDayOfWeek) <==>
            !(0 <= year <= 99) && !(0 <= year + 400 <= 99)
  {
    hide DayFromYear, LongYear, DaysBefore, DateYear;
    var day := 1 - firstDayOfWeek;
    SamePlace(month, year, day);
    FourCenturies(year);
    SameDay(Day(DateYear(year + 400), month, day) + 4, Day(DateYear(year), month, day) + 4);
    DateYears(year);
    if 0 <= year <= 99 {
      CenturiesApart(month, year);
    } else if 0 <= year + 400 <= 99 {
      CenturiesApart(month, year + 400);
    }
  }

  lemma DateYears(year: int)
    ensures DateYear(year) == if 0 <= year <= 99 then 1900 + year else year
    ensures DateYear(year + 400) == if 0 <= year + 400 <= 99 then 1900 + (year + 400) else year + 400
  {
  }

  /** A day stands where it did 400 years before. */
  lemma SamePlace(month: int, year: int, day: int)
    requires 1 <= month <= 12
    ensures Day(year + 400, month, day) == Day(year, month, day) + 7 * 20871
  {
    hide DayFromYear, LongYear, DaysBefore;
    YearLength(year);
    YearLength(year + 400);
    MonthsApart(month, year, year + 400);
    FourCenturies(year);
  }

  lemma FourCenturies(year: int)
    ensures DayFromYear(year + 400) == DayFromYear(year) + 7 * 20871
    ensures IsLeapYear(year + 400) == IsLeapYear(year)
  {
    Periods(year - 1969, 4, 100);
    Periods(year - 1901, 100, 4);
    Periods(year - 1601, 400, 1);
    Periods(year, 4, 100);
    Periods(year, 100, 4);
    Periods(year, 400, 1);
  }

  // ---------------------------------------------------------------- the object

  class Picker {
    const firstDayOfWeek: int
    var currentMonth: int
    var currentYear: int

    ghost predicate Valid()
      reads this
    {
      1 <= currentMonth <= 12 && 0 <= firstDayOfWeek < 7
    }

    /** Months counted through all years. */
    ghost function Count(): int
      reads this
    {
      12 * currentYear + currentMonth
    }

    constructor (month: int, year: int, firstDayOfWeek: int)
      requires 1 <= month <= 12 && 0 <= firstDayOfWeek < 7
      ensures Valid() && currentMonth == month && currentYear == year && this.firstDayOfWeek == firstDayOfWeek
    {
      currentMonth, currentYear, this.firstDayOfWeek := month, year, firstDayOfWeek;
    }

    method DrawCurrent() returns (header: seq<int>, rows: seq<seq<Cell>>)
      requires Valid()
      ensures IsPage(header, rows, currentMonth, currentYear, firstDayOfWeek)
    {
      header, rows := Draw(currentMonth, currentYear, firstDayOfWeek);
    }

    method DrawNextMonth() returns (header: seq<int>, rows: seq<seq<Cell>>)
      requires Valid()
      modifies this
      ensures Valid() && Count() == old(Count()) + 1
      ensures IsPage(header, rows, currentMonth, currentYear, firstDayOfWeek)
      ensures StartingPos(currentMonth, currentYear, firstDayOfWeek) ==
              (old(StartingPos(currentMonth, currentYear, firstDayOfWeek)) +
               old(GetDaysInMonth(currentMonth, currentYear))) % 7
              <==> !Breaks(old(currentMonth), old(currentYear))
    {
      hide StartingPos, GetDaysInMonth, IsPage, Breaks;
      PagesTile(currentMonth, currentYear, firstDayOfWeek);
      if currentMonth == 12 {
        currentMonth := 1;
        currentYear := currentYear + 1;
      } else {
        currentMonth := currentMonth + 1;
      }
      header, rows := DrawCurrent();
    }

    method DrawPreviousMonth() returns (header: seq<int>, rows: seq<seq<Cell>>)
      requires Valid()
      modifies this
      ensures Valid() && Count() == old(Count()) - 1
      ensures IsPage(header, rows, currentMonth, currentYear, firstDayOfWeek)
    {
      if currentMonth == 1 {
        currentMonth := 12;
        currentYear := currentYear - 1;
      } else {
        currentMonth := currentMonth - 1;
      }
      header, rows := DrawCurrent();
    }

    method DrawNextYear() returns (header: seq<int>, rows: seq<seq<Cell>>)
      requires Valid()
      modifies this
      ensures Valid() && Count() == old(Count()) + 12
      ensures IsPage(header, rows, currentMonth, currentYear, firstDayOfWeek)
    {
      currentYear := currentYear + 1;
      header, rows := DrawCurrent();
    }

    method DrawPreviousYear() returns (header: seq<int>, rows: seq<seq<Cell>>)
      requires Valid()
      modifies this
      ensures Valid() && Count() == old(Count()) - 12
      ensures IsPage(header, rows, currentMonth, currentYear, firstDayOfWeek)
    {
      currentYear := currentYear - 1;
      header, rows := DrawCurrent();
    }
  }
}
