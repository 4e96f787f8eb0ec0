/** Printing dates with a format and reading them back. */
module Dates {
  import opened Basics
  import opened Strings
  import opened Numerals
  import opened Gregorian
  import Calendar

  // ---------------------------------------------------------------- printing

  /** The last characters of the year that `%y` stands for: `substr(2, 4)`. */
  function ShortYear(year: string): (r: string)
    ensures 2 <= |year| <= 6 ==> year[..2] + r == year
    ensures |year| < 2 ==> r == ""
  {
    if |year| <= 2 then "" else if |year| <= 6 then year[2..] else year[2..6]
  }

  /**
   * The text of the field named by the characters after a percent sign. Fields that depend on the time of day or the
   * locale, and the text for names that are no fields, come from `other`.
   */
  function Field(d: Date, name: string, other: string -> string): string
    requires d.month >= 1 && d.day >= 1
  {
    if name == "Y" then Signed(d.year)
    else if name == "y" then ShortYear(Signed(d.year))
    else if name == "m" then TwoDigits(d.month)
    else if name == "d" then TwoDigits(d.day)
    else if name == "%" then "%"
    else other(name)
  }

  function CharAt(s: string, i: nat): string {
    if i < |s| then [s[i]] else ""
  }

  /** The printed form of a format. */
  function Printed(d: Date, format: string, other: string -> string): string
    requires d.month >= 1 && d.day >= 1
    decreases |format|
  {
    if format == "" then ""
    else if format[0] == '%' then
      Field(d, CharAt(format, 1), other) + Printed(d, if |format| > 1 then format[2..] else "", other)
    else [format[0]] + Printed(d, format[1..], other)
  }

  /** `strftime`. */
  method Strftime(d: Date, format: string, other: string -> string) returns (result: string)
    requires d.month >= 1 && d.day >= 1
    ensures result == Printed(d, format, other)
  {
    hide Field, Printed;
    result := "";
    var i := 0;
    assert From(format, 0) == format;
    while i < |format|
      invariant 0 <= i
      invariant Printed(d, format, other) == result + Printed(d, From(format, i), other)
    {
      PrintedStep(d, format, i, other);
      if format[i] == '%' {
        Assoc(result, Field(d, CharAt(format, i + 1), other), Printed(d, From(format, i + 2), other));
        result := result + Field(d, CharAt(format, i + 1), other);
        i := i + 1;
      } else {
        Assoc(result, [format[i]], Printed(d, From(format, i + 1), other));
        result := result + [format[i]];
      }
      i := i + 1;
    }
    PrintedNothing(d, other);
    Nothing(result);
  }

  function From(s: string, i: nat): string {
    if i < |s| then s[i..] else ""
  }

  lemma PrintedStep(d: Date, format: string, i: nat, other: string -> string)
    requires d.month >= 1 && d.day >= 1 && i < |format|
    ensures Printed(d, From(format, i), other) ==
            if format[i] == '%' then Field(d, CharAt(format, i + 1), other) + Printed(d, From(format, i + 2), other)
            else [format[i]] + Printed(d, From(format, i + 1), other)
  {
    hide Field;
    var s := From(format, i);
    assert s[0] == format[i] && s[1..] == From(format, i + 1) && CharAt(s, 1) == CharAt(format, i + 1);
    assert (if |s| > 1 then s[2..] else "") == From(format, i + 2);
  }

  lemma PrintedNothing(d: Date, other: string -> string)
    requires d.month >= 1 && d.day >= 1
    ensures Printed(d, "", other) == ""
  {
  }

  // ---------------------------------------------------------------- reading

  /** The separators of `split(/[.\-/]/)`. */
  const SEPARATORS := {'.', '-', '/'}

  /** What a scan has found; a part that the text does not have is none. */
  datatype Found = Found(year: Option<string>, month: Option<string>, day: Option<string>)

  function PartAt(parts: seq<string>, i: nat): Option<string> {
    if i < |parts| then Some(parts[i]) else None
  }

  /** The effect of the first `n` parts of the format. */
  function Scanned(format: seq<string>, date: seq<string>, n: nat): Found
    requires n <= |format|
  {
    if n == 0 then Found(None, None, None)
    else
      var f, name := Scanned(format, date, n - 1), format[n - 1];
      if name == "%d" then f.(day := PartAt(date, n - 1))
      else if name == "%m" then f.(month := PartAt(date, n - 1))
      else if name == "%Y" || name == "%y" then f.(year := PartAt(date, n - 1))
      else f
  }

  /** The day number of `Date.UTC(year, month - 1, day)`: months and days out of range are carried over. */
  function UtcDay(year: int, month: int, day: int): int {
    Day(Calendar.DateYear(year) + (month - 1) / 12, (month - 1) % 12 + 1, day)
  }

  /** A month or a day out of range is carried over. */
  lemma Carries(year: int, month: int, day: int, more: int)
    requires 1 <= month <= 12 && !(0 <= year <= 99) && !(0 <= year + 1 <= 99)
    ensures UtcDay(year, month + 12, day) == UtcDay(year + 1, month, day)
    ensures UtcDay(year, month, day + more) == UtcDay(year, month, day) + more
    ensures UtcDay(year, month, day) == Day(year, month, day)
  {
    hide DayFromYear, DaysBefore;
  }

  /** Dates reach a hundred million days either way from 1 January 1970. */
  predicate InReach(day: int) {
    -100_000_000 <= day <= 100_000_000
  }

  /** That is 8.64e15 milliseconds (ECMAScript, "TimeClip"). */
  lemma ReachInMilliseconds(day: int)
    ensures InReach(day) <==> -8_640_000_000_000_000 <= 24 * 60 * 60 * 1000 * day <= 8_640_000_000_000_000
  {
  }

  /** A part as a number; a part that is missing is none. */
  function NumberAt(part: Option<string>): Option<nat> {
    match part
    case None => None
    case Some(s) => ToNumber(s)
  }

  /** The date that three parts name, as its day number; none when one of them is no number. */
  function DateOf(f: Found): Option<int> {
    match (NumberAt(f.year), NumberAt(f.month), NumberAt(f.day))
    case (Some(year), Some(month), Some(day)) =>
      var n := UtcDay(year, month, day);
      if InReach(n) then Some(n) else None
    case _ => None
  }

  /** What is read from a text: what stands in it where each directive stands in the format. */
  function Parsed(text: string, format: string): Option<int> {
    var parts := Split(format, SEPARATORS);
    DateOf(Scanned(parts, Split(text, SEPARATORS), |parts|))
  }

  /** `strptime`. */
  method Strptime(text: string, format: string) returns (result: Option<int>)
    ensures result == Parsed(text, format)
  {
    var splitFormat, date := Split(format, SEPARATORS), Split(text, SEPARATORS);
    var day, month, year := None, None, None;
    for i := 0 to |splitFormat|
      invariant Found(year, month, day) == Scanned(splitFormat, date, i)
    {
      if splitFormat[i] == "%d" {
        day := PartAt(date, i);
      } else if splitFormat[i] == "%m" {
        month := PartAt(date, i);
      } else if splitFormat[i] == "%Y" {
        year := PartAt(date, i);
      } else if splitFormat[i] == "%y" {
        year := PartAt(date, i);
      }
    }
    result := DateOf(Found(year, month, day));
  }

  // ---------------------------------------------------------------- round trip

  /** Parts with a separator between each two. */
  function Weave(parts: seq<string>, seps: seq<char>): string
    requires |parts| == |seps| + 1
  {
    if seps == [] then parts[0] else parts[0] + [seps[0]] + Weave(parts[1..], seps[1..])
  }

  predicate IsField(c: char) {
    c == 'Y' || c == 'y' || c == 'm' || c == 'd'
  }

  /** The last of the fields that are years, a space if none is. */
  function YearField(fields: seq<char>): char {
    if fields == [] then ' '
    else
      var c := fields[|fields| - 1];
      if c == 'Y' || c == 'y' then c else YearField(fields[..|fields| - 1])
  }

  /** Which dates a format brings back: those from the year 100 on, or, with two digits, of the twentieth century. */
  predicate Returns(d: Date, fields: seq<char>) {
    if YearField(fields) == 'Y' then d.year >= 100 else 1900 <= d.year <= 1999
  }

  predicate IsFormat(fields: seq<char>, seps: seq<char>) {
    && |fields| == |seps| + 1
    && (forall i :: 0 <= i < |fields| ==> IsField(fields[i]))
    && (forall i :: 0 <= i < |seps| ==> seps[i] in SEPARATORS)
  }

  /** A text is split at points, hyphens and slashes, and nowhere else. */
  lemma SplitsAt(part: string, c: char, rest: string)
    requires forall i :: 0 <= i < |part| ==> part[i] !in ".-/"
    ensures Split(part, SEPARATORS) == [part]
    ensures c in ".-/" ==> Split(part + [c] + rest, SEPARATORS) == [part] + Split(rest, SEPARATORS)
  {
    assert forall x :: x in SEPARATORS <==> x in ".-/";
    SplitPart(part, '.', "", SEPARATORS);
    if c in ".-/" {
      SplitPart(part, c, rest, SEPARATORS);
    }
  }

  function Names(fields: seq<char>): (r: seq<string>)
    ensures |r| == |fields| && forall i :: 0 <= i < |fields| ==> r[i] == ['%', fields[i]]
  {
    if fields == [] then [] else [['%', fields[0]]] + Names(fields[1..])
  }

  function Values(d: Date, fields: seq<char>, other: string -> string): (r: seq<string>)
    requires d.month >= 1 && d.day >= 1
    ensures |r| == |fields| && forall i :: 0 <= i < |fields| ==> r[i] == Field(d, [fields[i]], other)
  {
    if fields == [] then [] else [Field(d, [fields[0]], other)] + Values(d, fields[1..], other)
  }

  predicate NoSeparators(s: string) {
    forall i :: 0 <= i < |s| ==> s[i] !in SEPARATORS
  }

  lemma {:induction false} SplitWeave(parts: seq<string>, seps: seq<char>)
    requires |parts| == |seps| + 1
    requires forall i :: 0 <= i < |parts| ==> NoSeparators(parts[i])
    requires forall i :: 0 <= i < |seps| ==> seps[i] in SEPARATORS
    ensures Split(Weave(parts, seps), SEPARATORS) == parts
    decreases |seps|
  {
    if seps == [] {
      SplitPart(parts[0], '.', "", SEPARATORS);
      assert parts == [parts[0]];
    } else {
      SplitWeave(parts[1..], seps[1..]);
      SplitPart(parts[0], seps[0], Weave(parts[1..], seps[1..]), SEPARATORS);
      assert parts == [parts[0]] + parts[1..];
    }
  }

  /** Printing a format of fields and separators prints each field between the same separators. */
  lemma {:induction false} PrintedWeave(d: Date, fields: seq<char>, seps: seq<char>, other: string -> string)
    requires d.month >= 1 && d.day >= 1 && IsFormat(fields, seps)
    ensures Printed(d, Weave(Names(fields), seps), other) == Weave(Values(d, fields, other), seps)
    decreases |seps|
  {
    hide Field;
    var name, value := ['%', fields[0]], Field(d, [fields[0]], other);
    if seps == [] {
      assert CharAt(name, 1) == [fields[0]] && name[2..] == "";
      Nothing(value);
    } else {
      PrintedWeave(d, fields[1..], seps[1..], other);
      assert Names(fields)[1..] == Names(fields[1..]);
      assert Values(d, fields, other)[1..] == Values(d, fields[1..], other);
      var rest := Weave(Names(fields[1..]), seps[1..]);
      var format := name + [seps[0]] + rest;
      assert format[0] == '%' && CharAt(format, 1) == [fields[0]] && format[2..] == [seps[0]] + rest;
      Head(seps[0], rest);
      Assoc(value, [seps[0]], Printed(d, rest, other));
    }
  }

  lemma FieldIsDigits(d: Date, c: char, other: string -> string)
    requires d.year >= 0 && d.month >= 1 && d.day >= 1 && IsField(c)
    ensures NoSeparators(Field(d, [c], other))
  {
    hide Decimal, TwoDigits;
  }

  lemma NameIsWhole(c: char)
    requires IsField(c)
    ensures NoSeparators(['%', c])
  {
  }

  /** The scan ends up with the printed value of each field that the format has. */
  lemma {:induction false} ScanFinds(d: Date, fields: seq<char>, other: string -> string, n: nat)
    requires d.month >= 1 && d.day >= 1
    requires n <= |fields| && forall i :: 0 <= i < |fields| ==> IsField(fields[i])
    ensures var f := Scanned(Names(fields), Values(d, fields, other), n);
            && (YearField(fields[..n]) != ' ' ==> f.year == Some(Field(d, [YearField(fields[..n])], other)))
            && ('m' in fields[..n] ==> f.month == Some(TwoDigits(d.month)))
            && ('d' in fields[..n] ==> f.day == Some(TwoDigits(d.day)))
  {
    hide Signed, TwoDigits, Names, Values, Field;
    if n > 0 {
      var c := fields[n - 1];
      ScanFinds(d, fields, other, n - 1);
      assert fields[..n] == fields[..n - 1] + [c] && fields[..n][..n - 1] == fields[..n - 1];
      InSnoc(fields[..n - 1], c);
      NameOf(c);
      FieldValue(d, c, other);
    }
  }

  lemma InSnoc(fields: seq<char>, c: char)
    ensures forall x :: x in fields + [c] <==> x in fields || x == c
  {
  }

  lemma NameOf(c: char)
    ensures ['%', c] == "%d" <==> c == 'd'
    ensures ['%', c] == "%m" <==> c == 'm'
    ensures ['%', c] == "%Y" <==> c == 'Y'
    ensures ['%', c] == "%y" <==> c == 'y'
  {
    assert ['%', c][1] == c && "%d"[1] == 'd' && "%m"[1] == 'm' && "%Y"[1] == 'Y' && "%y"[1] == 'y';
  }

  lemma FieldValue(d: Date, c: char, other: string -> string)
    requires d.month >= 1 && d.day >= 1
    ensures c == 'Y' ==> Field(d, [c], other) == Signed(d.year)
    ensures c == 'y' ==> Field(d, [c], other) == ShortYear(Signed(d.year))
    ensures c == 'm' ==> Field(d, [c], other) == TwoDigits(d.month)
    ensures c == 'd' ==> Field(d, [c], other) == TwoDigits(d.day)
  {
    hide Signed, TwoDigits;
  }

  // ---------------------------------------------------------------- years in order

  lemma {:induction false} LaterYear(a: int, b: int)
    requires a <= b
    ensures DayFromYear(a) + 365 * (b - a) <= DayFromYear(b)
    decreases b - a
  {
    hide DayFromYear, LongYear;
    if a < b {
      LaterYear(a, b - 1);
      YearLength(b - 1);
    }
  }

  lemma {:induction false} MonthsBefore(month: int, year: int)
    requires 1 <= month <= 12
    ensures 0 <= DaysBefore(month, year) <= 31 * (month - 1)
  {
    if month > 1 {
      MonthsBefore(month - 1, year);
    }
  }

  /** Whatever is read lies after all dates before the year 0. */
  lemma ReadIsLate(f: Found)
    ensures DateOf(f).Some? ==> DateOf(f).value >= DayFromYear(99) - 1
  {
    hide UtcDay, ToNumber;
    if NumberAt(f.year).Some? && NumberAt(f.month).Some? && NumberAt(f.day).Some? {
      DaysAreLate(NumberAt(f.year).value, NumberAt(f.month).value, NumberAt(f.day).value);
    }
  }

  lemma DaysAreLate(year: nat, month: nat, day: nat)
    ensures UtcDay(year, month, day) >= DayFromYear(99) - 1
  {
    hide DayFromYear, DaysBefore;
    var y := Calendar.DateYear(year) + (month - 1) / 12;
    LaterYear(99, y);
    MonthsBefore((month - 1) % 12 + 1, y);
  }

  lemma NegativeIsEarly(d: Date)
    requires d.year < 0 && d.Valid()
    ensures d.Number() < DayFromYear(99) - 1
  {
    hide DayFromYear, DaysBefore;
    LaterYear(d.year, 99);
    MonthsBefore(d.month, d.year);
  }

  // ---------------------------------------------------------------- the year of a date

  lemma {:induction false} LeapDayApart(month: int, a: int, b: int)
    requires 1 <= month <= 12
    ensures -1 <= DaysBefore(month, a) - DaysBefore(month, b) <= 1
    ensures month <= 2 ==> DaysBefore(month, a) == DaysBefore(month, b)
  {
    hide LongYear;
    if month > 1 {
      LeapDayApart(month - 1, a, b);
      if month > 3 {
        OtherMonths(month, a, b);
      }
    }
  }

  lemma OtherMonths(month: int, a: int, b: int)
    requires 3 < month <= 12
    ensures DaysBefore(month, a) - DaysBefore(month, b) == DaysBefore(3, a) - DaysBefore(3, b)
    ensures -1 <= DaysBefore(3, a) - DaysBefore(3, b) <= 1
  {
    hide LongYear;
    assert DaysBefore(2, a) == DaysBefore(2, b) == 31;
    if month > 4 {
      OtherMonths(month - 1, a, b);
    }
  }

  /** Two days of the same name are the same day only in the same year. */
  lemma SameYear(a: int, b: int, month: int, day: int)
    requires 1 <= month <= 12
    ensures Day(a, month, day) == Day(b, month, day) <==> a == b
  {
    hide DayFromYear, DaysBefore;
    LeapDayApart(month, a, b);
    if a < b {
      LaterYear(a, b);
    } else if b < a {
      LaterYear(b, a);
    }
  }

  lemma {:induction false} DigitsAre(s: string)
    requires AllDigits(s) && |s| <= 4
    ensures NumberOf(s) < 10000 && (|s| <= 2 ==> NumberOf(s) < 100)
    ensures |s| == 4 ==> NumberOf(s) == 100 * NumberOf(s[..2]) + NumberOf(s[2..])
  {
    if s != "" {
      var k := |s| - 1;
      DigitsAre(s[..k]);
      if k == 3 {
        assert s[..3][..2] == s[..2] && s[2..][..1] == [s[2]] && s[2..][1] == s[3];
        assert s[..3][2] == s[2] && [s[2]][..0] == "" && NumberOf("") == 0;
        assert NumberOf(s[..3]) == 10 * NumberOf(s[..2]) + (s[2] - '0') as nat;
        assert NumberOf([s[2]]) == (s[2] - '0') as nat;
      } else if k == 2 {
        DigitsAre(s[..2]);
      }
    }
  }

  lemma DecimalLength(n: nat)
    ensures n < 100 ==> |Decimal(n)| <= 2
    ensures 100 <= n < 1000 ==> |Decimal(n)| == 3
    ensures 1000 <= n < 10000 ==> |Decimal(n)| == 4
    ensures n >= 10000 ==> |Decimal(n)| > 4
  {
    LengthStep(n);
    LengthStep(n / 10);
    LengthStep(n / 10 / 10);
    LengthStep(n / 10 / 10 / 10);
    LengthStep(n / 10 / 10 / 10 / 10);
  }

  lemma LengthStep(n: nat)
    ensures |Decimal(n)| == if n < 10 then 1 else 1 + |Decimal(n / 10)|
    ensures |Decimal(n)| >= 1
  {
  }

  /** The two digits of a year are those of the twentieth century. */
  lemma ShortYearReads(year: nat)
    ensures var s := ShortYear(Decimal(year));
            AllDigits(s) && (Calendar.DateYear(NumberOf(s)) == year <==> 1900 <= year <= 1999)
  {
    var digits := Decimal(year);
    var s := ShortYear(digits);
    hide Decimal;
    DecimalLength(year);
    hide NumberOf;
    DigitsAre(s);
    if |digits| == 4 {
      DigitsAre(digits);
    }
  }

  lemma ShortDigitsRead(s: string)
    requires AllDigits(s)
    ensures ToNumber(s) == Some(NumberOf(s))
  {
    if s != "" {
      DigitsRead(s);
    }
  }

  lemma SameDay(d: Date, year: nat)
    requires d.Valid()
    ensures UtcDay(year, d.month, d.day) == d.Number() <==> Calendar.DateYear(year) == d.year
  {
    hide DaysBefore, DayFromYear, MonthLength;
    assert (d.month - 1) / 12 == 0 && (d.month - 1) % 12 + 1 == d.month;
    SameYear(Calendar.DateYear(year), d.year, d.month, d.day);
  }

  // ---------------------------------------------------------------- reading back

  lemma {:induction false} YearFieldIs(fields: seq<char>)
    ensures YearField(fields) == ' ' || YearField(fields) == 'Y' || YearField(fields) == 'y'
    ensures YearField(fields) != ' ' <==> 'Y' in fields || 'y' in fields
    decreases |fields|
  {
    if fields != [] {
      var k := |fields| - 1;
      YearFieldIs(fields[..k]);
      SplitLast(fields);
      InSnoc(fields[..k], fields[k]);
    }
  }

  /**
   * A date printed with a format of years, months and days in any order and number, each at least once, is read
   * back as the same date exactly when its year is at least 100 or, where the last year of the format has two
   * digits, one of 1900 to 1999.
   */
  lemma ReadBack(d: Date, fields: seq<char>, seps: seq<char>, other: string -> string)
    requires d.Valid() && InReach(d.Number()) && IsFormat(fields, seps)
    requires ('Y' in fields || 'y' in fields) && 'm' in fields && 'd' in fields
    ensures var format := Weave(Names(fields), seps);
            Parsed(Printed(d, format, other), format) == Some(d.Number()) <==> Returns(d, fields)
  {
    hide Signed, TwoDigits, Printed, Weave, Split, Field, Scanned, Names, Values, DateOf, YearField;
    forall i | 0 <= i < |fields|
      ensures NoSeparators(Names(fields)[i]) && (d.year >= 0 ==> NoSeparators(Values(d, fields, other)[i]))
    {
      NameIsWhole(fields[i]);
      if d.year >= 0 {
        FieldIsDigits(d, fields[i], other);
      }
    }
    SplitWeave(Names(fields), seps);
    YearFieldIs(fields);
    if d.year < 0 {
      var format := Weave(Names(fields), seps);
      ReadIsLate(Scanned(Names(fields), Split(Printed(d, format, other), SEPARATORS), |Names(fields)|));
      NegativeIsEarly(d);
    } else {
      SplitWeave(Values(d, fields, other), seps);
      PrintedWeave(d, fields, seps, other);
      assert fields[..|fields|] == fields;
      ScanFinds(d, fields, other, |fields|);
      FieldValue(d, YearField(fields), other);
      DateRead(d, YearField(fields), Scanned(Names(fields), Values(d, fields, other), |fields|));
    }
  }

  lemma DateRead(d: Date, c: char, f: Found)
    requires d.year >= 0 && d.Valid() && InReach(d.Number()) && (c == 'Y' || c == 'y')
    requires f.year == Some(if c == 'Y' then Signed(d.year) else ShortYear(Signed(d.year)))
    requires f.month == Some(TwoDigits(d.month)) && f.day == Some(TwoDigits(d.day))
    ensures DateOf(f) == Some(d.Number()) <==> if c == 'Y' then d.year >= 100 else 1900 <= d.year <= 1999
  {
    hide Decimal, TwoDigits, ToNumber, UtcDay, MonthLength, DaysBefore, DayFromYear, ShortYear;
    DigitsRead(Decimal(d.year));
    ShortYearReads(d.year);
    ShortDigitsRead(ShortYear(Decimal(d.year)));
    DigitsRead(TwoDigits(d.month));
    DigitsRead(TwoDigits(d.day));
    var year := if c == 'Y' then d.year else NumberOf(ShortYear(Decimal(d.year)));
    assert NumberAt(f.year) == Some(year);
    assert NumberAt(f.month) == Some(d.month);
    assert NumberAt(f.day) == Some(d.day);
    SameDay(d, year);
  }

  // ---------------------------------------------------------------- text between the fields

  /** Text without percent signs is printed as it is, and a doubled sign as one. */
  lemma {:induction false} TextPrinted(d: Date, text: string, rest: string, other: string -> string)
    requires d.month >= 1 && d.day >= 1 && '%' !in text
    ensures Printed(d, text + rest, other) == text + Printed(d, rest, other)
    ensures Printed(d, "%%" + rest, other) == "%" + Printed(d, rest, other)
  {
    var percent := "%%" + rest;
    assert percent[0] == '%' && CharAt(percent, 1) == "%" && percent[2..] == rest;
    if text == "" {
      Nothing(rest);
      Nothing(Printed(d, rest, other));
    } else {
      assert text[0] in text && '%' !in text[1..];
      assert (text + rest)[0] == text[0] && (text + rest)[1..] == text[1..] + rest;
      TextPrinted(d, text[1..], rest, other);
      Assoc([text[0]], text[1..], Printed(d, rest, other));
    }
  }
}
