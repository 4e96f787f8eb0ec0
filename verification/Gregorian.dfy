/** The proleptic Gregorian calendar as ECMAScript dates count it, and as one day follows another. */
module Gregorian {

  /** The day number, from 1 January 1970, on which a year begins (ECMAScript, "Year Number"). */
  function DayFromYear(year: int): int {
    365 * (year - 1970) + (year - 1969) / 4 - (year - 1901) / 100 + (year - 1601) / 400
  }

  predicate LongYear(year: int) {
    DayFromYear(year + 1) - DayFromYear(year) == 366
  }

  function MonthLength(month: int, year: int): int
    requires 1 <= month <= 12
  {
    [31, if LongYear(year) then 29 else 28, 31, 30, 31, 30, 31, 31, 30, 31, 30, 31][month - 1]
  }

  function DaysBefore(month: int, year: int): int
    requires 1 <= month <= 12
  {
    if month == 1 then 0 else DaysBefore(month - 1, year) + MonthLength(month - 1, year)
  }

  /** The day number of a date; the day of the month may lie outside the month. */
  function Day(year: int, month: int, day: int): int
    requires 1 <= month <= 12
  {
    DayFromYear(year) + DaysBefore(month, year) + day - 1
  }

  /** 0 is Sunday; day 0 was a Thursday. */
  function WeekdayOf(day: int): int {
    (day + 4) % 7
  }

  datatype Date = Date(year: int, month: int, day: int) {
    predicate Valid() {
      1 <= month <= 12 && 1 <= day <= MonthLength(month, year)
    }

    function Tomorrow(): Date
      requires Valid()
    {
      if day < MonthLength(month, year) then Date(year, month, day + 1)
      else if month < 12 then Date(year, month + 1, 1)
      else Date(year + 1, 1, 1)
    }

    function Number(): int
      requires Valid()
    {
      Day(year, month, day)
    }
  }

  /** Going on by whole periods. */
  lemma Periods(n: int, k: int, c: int)
    requires k == 4 || k == 100 || k == 400
    ensures (n + k * c) / k == n / k + c && (n + k * c) % k == n % k
  {
  }

  lemma Steps(n: int, k: int)
    requires k == 4 || k == 100 || k == 400
    ensures (n + 1) / k - n / k == if (n + 1) % k == 0 then 1 else 0
  {
  }

  lemma Multiples(year: int)
    ensures year % 400 == 0 ==> year % 100 == 0
    ensures year % 100 == 0 ==> year % 4 == 0
  {
  }

  lemma YearLength(year: int)
    ensures DayFromYear(year + 1) - DayFromYear(year) == if LongYear(year) then 366 else 365
    ensures LongYear(year) <==> (year % 4 == 0 && year % 100 != 0) || year % 400 == 0
  {
    YearStep(year);
    Multiples(year);
  }

  lemma YearStep(year: int)
    ensures DayFromYear(year + 1) - DayFromYear(year) ==
            365 + (if year % 4 == 0 then 1 else 0) - (if year % 100 == 0 then 1 else 0)
            + (if year % 400 == 0 then 1 else 0)
  {
    Steps(year - 1969, 4);
    Steps(year - 1901, 100);
    Steps(year - 1601, 400);
    Periods(year, 4, -492);
    Periods(year, 100, -19);
    Periods(year, 400, -4);
    var a, b, c := (year - 1968) / 4, (year - 1900) / 100, (year - 1600) / 400;
    assert DayFromYear(year + 1) == 365 * (year - 1969) + a - b + c;
  }

  lemma TwelveMonths(year: int)
    ensures DaysBefore(12, year) + 31 == if LongYear(year) then 366 else 365
  {
    hide LongYear;
    assert DaysBefore(2, year) == 31;
    assert DaysBefore(3, year) == 31 + MonthLength(2, year);
    assert DaysBefore(4, year) == DaysBefore(3, year) + 31;
    assert DaysBefore(5, year) == DaysBefore(3, year) + 61;
    assert DaysBefore(6, year) == DaysBefore(3, year) + 92;
    assert DaysBefore(7, year) == DaysBefore(3, year) + 122;
    assert DaysBefore(8, year) == DaysBefore(3, year) + 153;
    assert DaysBefore(9, year) == DaysBefore(3, year) + 184;
    assert DaysBefore(10, year) == DaysBefore(3, year) + 214;
    assert DaysBefore(11, year) == DaysBefore(3, year) + 245;
  }

  /** Day numbers count days: each date is one after the date before it, across months and years. */
  lemma TomorrowIsNext(d: Date)
    requires d.Valid()
    ensures d.Tomorrow().Valid() && d.Tomorrow().Number() == d.Number() + 1
    ensures WeekdayOf(d.Tomorrow().Number()) == (WeekdayOf(d.Number()) + 1) % 7
  {
    hide DayFromYear, LongYear, DaysBefore, WeekdayOf;
    YearLength(d.year);
    TwelveMonths(d.year);
    NextWeekday(d.Number());
    if d.month < 12 {
      MonthEnd(d.month, d.year);
    }
    assert DaysBefore(1, d.year + 1) == 0 by {
      FirstMonth(d.year + 1);
    }
  }

  lemma MonthEnd(month: int, year: int)
    requires 1 <= month < 12
    ensures DaysBefore(month + 1, year) == DaysBefore(month, year) + MonthLength(month, year)
  {
  }

  lemma FirstMonth(year: int)
    ensures DaysBefore(1, year) == 0
  {
  }

  lemma NextWeekday(n: int)
    ensures WeekdayOf(n + 1) == (WeekdayOf(n) + 1) % 7
  {
  }
}
