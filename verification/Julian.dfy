/**
  From a day number to a calendar date (lib/src/vartime.rs). A variant date counts days from
  30 December 1899; it is turned into a Julian day number and that into day, month and year.
*/
module Julian {

  const DATE_MIN: int := -657434
  const DATE_MAX: int := 2958465

  /** Numbers of the width the code computes with. Results outside it are overflows. */
  newtype I32 = x: int | -0x8000_0000 <= x < 0x8000_0000

  // ----- the calendar -----

  predicate IsLeapYear(y: int) {
    y % 4 == 0 && (y % 100 != 0 || y % 400 == 0)
  }

  function DaysInMonth(y: int, m: int): int {
    if m == 2 then if IsLeapYear(y) then 29 else 28
    else if m == 4 || m == 6 || m == 9 || m == 11 then 30
    else 31
  }

  datatype Date = Date(year: int, month: int, day: int)

  /** A date of the Gregorian calendar. */
  predicate Valid(d: Date) {
    d.year >= 1 && 1 <= d.month <= 12 && 1 <= d.day <= DaysInMonth(d.year, d.month)
  }

  /** The days of a year before a month. */
  function DaysBefore(y: int, m: int): int
    requires 1 <= m <= 13
    decreases m
  {
    if m == 1 then 0 else DaysBefore(y, m - 1) + DaysInMonth(y, m - 1)
  }

  /** The days from 1 January of the year 1 to 1 January of a year. */
  function YearStart(y: int): int
    requires y >= 1
    decreases y
  {
    if y == 1 then 0 else YearStart(y - 1) + DaysBefore(y - 1, 13)
  }

  /** The count of days up to a date, 1 January of the year 1 being day 1. */
  function DayCount(d: Date): int
    requires Valid(d)
  {
    YearStart(d.year) + DaysBefore(d.year, d.month) + d.day
  }

  /** The day after. */
  function NextDay(d: Date): Date {
    if d.day < DaysInMonth(d.year, d.month) then d.(day := d.day + 1)
    else if d.month < 12 then Date(d.year, d.month + 1, 1)
    else Date(d.year + 1, 1, 1)
  }

  lemma MonthTable(y: int)
    ensures var b := if IsLeapYear(y) then 1 else 0;
            && DaysBefore(y, 1) == 0 && DaysBefore(y, 2) == 31 && DaysBefore(y, 3) == 59 + b
            && DaysBefore(y, 4) == 90 + b && DaysBefore(y, 5) == 120 + b && DaysBefore(y, 6) == 151 + b
            && DaysBefore(y, 7) == 181 + b && DaysBefore(y, 8) == 212 + b && DaysBefore(y, 9) == 243 + b
            && DaysBefore(y, 10) == 273 + b && DaysBefore(y, 11) == 304 + b && DaysBefore(y, 12) == 334 + b
            && DaysBefore(y, 13) == 365 + b
  {
    assert DaysBefore(y, 3) == DaysBefore(y, 2) + DaysInMonth(y, 2);
    assert DaysBefore(y, 5) == DaysBefore(y, 4) + 30 == DaysBefore(y, 3) + 61;
    assert DaysBefore(y, 7) == DaysBefore(y, 6) + 30 == DaysBefore(y, 5) + 61;
    assert DaysBefore(y, 9) == DaysBefore(y, 8) + 31 == DaysBefore(y, 7) + 62;
    assert DaysBefore(y, 11) == DaysBefore(y, 10) + 31 == DaysBefore(y, 9) + 61;
    assert DaysBefore(y, 13) == DaysBefore(y, 12) + 31 == DaysBefore(y, 11) + 61;
  }

  lemma DivStep(y: int, p: int)
    requires y >= 1 && (p == 4 || p == 100 || p == 400)
    ensures y / p == (y - 1) / p + if y % p == 0 then 1 else 0
  {}

  lemma LeapSteps(y: int)
    requires y >= 1
    ensures (y / 4 - y / 100 + y / 400) - ((y - 1) / 4 - (y - 1) / 100 + (y - 1) / 400)
            == if IsLeapYear(y) then 1 else 0
  {
    DivStep(y, 4);
    DivStep(y, 100);
    DivStep(y, 400);
  }

  lemma YearStartStep(y: int)
    requires y >= 1
    ensures YearStart(y + 1) == YearStart(y) + DaysBefore(y, 13)
  {
    hide DaysBefore;
  }

  /** Years in closed form. */
  lemma {:induction false} YearStartClosed(y: int)
    requires y >= 1
    ensures YearStart(y) == 365 * (y - 1) + (y - 1) / 4 - (y - 1) / 100 + (y - 1) / 400
    decreases y
  {
    hide DaysBefore, IsLeapYear;
    if y == 1 {
    } else {
      YearStartClosed(y - 1);
      YearStartStep(y - 1);
      MonthTable(y - 1);
      LeapSteps(y - 1);
    }
  }

  /** The next day has the next number. */
  lemma NextDayCounts(d: Date)
    requires Valid(d)
    ensures Valid(NextDay(d)) && DayCount(NextDay(d)) == DayCount(d) + 1
  {
    hide YearStart, IsLeapYear;
    YearStartStep(d.year);
  }

  lemma {:induction false} DaysBeforeGrows(y: int, m: int, m': int)
    requires 1 <= m < m' <= 13
    ensures DaysBefore(y, m) + DaysInMonth(y, m) <= DaysBefore(y, m')
    decreases m'
  {
    if m >= m' - 1 {
    } else {
      DaysBeforeGrows(y, m, m' - 1);
    }
  }

  lemma MonthsApart(a: Date, b: Date)
    requires Valid(a) && Valid(b) && a.year == b.year && a.month < b.month
    ensures DayCount(a) < DayCount(b)
  {
    DaysBeforeGrows(a.year, a.month, b.month);
  }

  lemma YearHasDays(y: int)
    ensures DaysBefore(y, 13) >= 365
  {
    MonthTable(y);
  }

  lemma {:induction false} YearStartGrows(y: int, y': int)
    requires 1 <= y < y'
    ensures YearStart(y) + DaysBefore(y, 13) <= YearStart(y')
    decreases y'
  {
    hide DaysBefore;
    YearHasDays(y' - 1);
    if y >= y' - 1 {
    } else {
      YearStartGrows(y, y' - 1);
    }
  }

  lemma YearsApart(a: Date, b: Date)
    requires Valid(a) && Valid(b) && a.year < b.year
    ensures DayCount(a) < DayCount(b)
  {
    YearStartGrows(a.year, b.year);
    DaysBeforeGrows(a.year, a.month, 13);
    MonthTable(b.year);
    if b.month > 1 {
      DaysBeforeGrows(b.year, 1, b.month);
    }
  }

  /** A day number has one date. */
  lemma DateIsUnique(a: Date, b: Date)
    requires Valid(a) && Valid(b) && DayCount(a) == DayCount(b)
    ensures a == b
  {
    if a.year < b.year {
      YearsApart(a, b);
    } else if b.year < a.year {
      YearsApart(b, a);
    } else if a.month < b.month {
      MonthsApart(a, b);
    } else if b.month < a.month {
      MonthsApart(b, a);
    }
  }

  /** Consecutive numbers are consecutive days of the calendar. */
  lemma ConsecutiveDays(a: Date, b: Date)
    requires Valid(a) && Valid(b) && DayCount(b) == DayCount(a) + 1
    ensures b == NextDay(a)
  {
    hide DayCount, NextDay;
    NextDayCounts(a);
    DateIsUnique(b, NextDay(a));
  }

  // ----- the conversion -----

  function JulianFromDate(dateIn: I32): (julian: I32)
    requires DATE_MIN <= dateIn as int <= DATE_MAX
    ensures julian as int == dateIn as int + 2415019
  {
    dateIn - (DATE_MIN as I32) + 1757585
  }

  /** The century, counted from 4900 years before the year 0, and the days into it. */
  lemma Century(l0: int, n: int, l1: int)
    requires 0 <= l0 && n == l0 * 4 / 146097 && l1 == l0 - (n * 146097 + 3) / 4
    ensures 0 <= l1 <= 36524
    ensures l1 == 36524 ==> n % 4 == 0
    ensures l0 == 36524 * n + (n + 3) / 4 + l1
  {
    assert 146097 * n <= 4 * l0 < 146097 * (n + 1);
  }

  /** The year of the century, counted from March, and the days into it. */
  lemma YearOfCentury(l1: int, i: int, days: int)
    requires 0 <= l1 <= 36524 && i == 4000 * (l1 + 1) / 1461001 && days == l1 - i * 1461 / 4
    ensures 0 <= i <= 99 && 0 <= days <= 365
    ensures days == 365 ==> i % 4 == 3
    ensures l1 == 365 * i + i / 4 + days
    ensures i == 99 && days == 365 ==> l1 == 36524
  {
    assert 1461001 * i <= 4000 * (l1 + 1) < 1461001 * (i + 1);
  }

  /** The date of a day counted from 1 March of a year. */
  function FromMarch(y: int, days: int): Date {
    var l := days + 31;
    var j := l * 80 / 2447;
    Date(y + j / 11, j + 2 - 12 * (j / 11), l - j * 2447 / 80)
  }

  lemma MonthOf(days: int)
    requires 0 <= days <= 365
    ensures var j := (days + 31) * 80 / 2447;
            var day := days + 31 - j * 2447 / 80;
            && 1 <= j <= 12 && 1 <= day
            && day <= (if j == 12 then if days == 365 then 29 else 28
                       else if j == 2 || j == 4 || j == 7 || j == 9 then 30 else 31)
            && days + 1 == day + (match j case 1 => 0 case 2 => 31 case 3 => 61 case 4 => 92 case 5 => 122 case 6 => 153
                                          case 7 => 184 case 8 => 214
                                          case 9 => 245 case 10 => 275 case 11 => 306 case _ => 337)
  {
    var j := (days + 31) * 80 / 2447;
    assert 2447 * j <= (days + 31) * 80 < 2447 * (j + 1);
  }

  lemma FromMarchValid(y: int, days: int)
    requires y >= 1 && 0 <= days <= 365 && (days == 365 ==> IsLeapYear(y + 1))
    ensures Valid(FromMarch(y, days))
  {
    hide IsLeapYear;
    MonthOf(days);
  }

  /** The date found from 1 March is valid, if the 366th day of a March year falls into a leap year,
      and it is that many days after 1 March. */
  lemma FromMarchCounts(y: int, days: int)
    requires y >= 1 && 0 <= days <= 365 && (days == 365 ==> IsLeapYear(y + 1))
    ensures Valid(FromMarch(y, days))
    ensures DayCount(FromMarch(y, days)) == YearStart(y + 1) - 305 + days
  {
    hide DaysBefore, YearStart, IsLeapYear, Valid;
    FromMarchValid(y, days);
    MonthOf(days);
    MonthTable(y);
    MonthTable(y + 1);
    YearStartStep(y);
  }

  /** Leap days fall where the conversion puts them. */
  lemma LeapDay(c: int, i: int)
    requires c >= 0 && 0 <= i <= 99 && i % 4 == 3 && (i == 99 ==> (c + 1) % 4 == 0)
    ensures IsLeapYear(100 * c + i + 1)
  {
    if i < 99 {
      assert (100 * c + i + 1) % 100 == i + 1;
    } else {
      assert 100 * c + i + 1 == 400 * ((c + 1) / 4);
    }
  }

  lemma MarchYear(c: int, i: int)
    requires c >= 0 && 0 <= i <= 99 && 100 * c + i >= 1
    ensures YearStart(100 * c + i + 1) == 36524 * c + c / 4 + 365 * i + i / 4
  {
    hide YearStart;
    YearStartClosed(100 * c + i + 1);
    assert (100 * c + i) / 100 == c;
    assert (100 * c + i) / 4 == 25 * c + i / 4;
    assert (100 * c + i) / 400 == c / 4;
  }

  lemma FromMarchIs(y: int, days: int, j: int)
    requires j == (days + 31) * 80 / 2447
    ensures FromMarch(y, days) == Date(y + j / 11, j + 2 - 12 * (j / 11), days + 31 - j * 2447 / 80)
  {}

  /** The last part of the conversion: month and day of a March year. */
  method MonthAndDay(y: I32, lIn: I32, ghost days: int) returns (year: I32, month: I32, day: I32)
    requires 0 <= y < 10000 && 0 <= days <= 365 && lIn as int == days + 31
    ensures Date(year as int, month as int, day as int) == FromMarch(y as int, days)
  {
    hide FromMarch;
    var l := lIn;
    var j := (l * 80) / 2447;
    MonthOf(days);
    day := l - (j * 2447) / 80;
    l := j / 11;
    month := (j + 2) - (12 * l);
    year := y + l;
    FromMarchIs(y as int, days, j as int);
  }

  lemma FromJanuary(d: Date)
    requires Valid(d)
    ensures YearStart(d.year) < DayCount(d)
  {
    if d.month > 1 {
      DaysBeforeGrows(d.year, 1, d.month);
    }
  }

  /** Days 36160 to 3652059 are those of the years 100 to 9999. */
  lemma YearBounds(d: Date)
    requires Valid(d) && 36160 <= DayCount(d) <= 3652059
    ensures 100 <= d.year <= 9999
  {
    hide YearStart, DaysBefore, IsLeapYear;
    YearStartClosed(100);
    YearStartClosed(10000);
    DaysBeforeGrows(d.year, d.month, 13);
    if d.year < 100 {
      YearStartGrows(d.year, 100);
    } else if d.year > 10000 {
      YearStartGrows(10000, d.year);
      YearHasDays(10000);
    }
    FromJanuary(d);
  }

  lemma YearRange(l0: int, n: int)
    requires DATE_MIN + 2483588 <= l0 <= DATE_MAX + 2483588
    requires n == l0 * 4 / 146097
    ensures 49 <= n <= 148
  {}

  lemma Assembled(l0: int, n: int, l1: int, i: int, days: int)
    requires DATE_MIN + 2483588 <= l0 <= DATE_MAX + 2483588
    requires n == l0 * 4 / 146097 && l1 == l0 - (n * 146097 + 3) / 4
    requires i == 4000 * (l1 + 1) / 1461001 && days == l1 - i * 1461 / 4
    ensures 49 <= n <= 148 && 0 <= i <= 99 && 0 <= days <= 365
    ensures var d := FromMarch(100 * (n - 49) + i, days);
            Valid(d) && DayCount(d) == l0 - 1789994 && 100 <= d.year <= 9999
  {
    hide Valid, DayCount, FromMarch, YearStart, IsLeapYear;
    var c := n - 49;
    Century(l0, n, l1);
    YearOfCentury(l1, i, days);
    YearRange(l0, n);
    if days == 365 {
      LeapDay(c, i);
    }
    FromMarchCounts(100 * c + i, days);
    MarchYear(c, i);
    YearBounds(FromMarch(100 * c + i, days));
  }

  /** Day, month and year of a Julian day number. No intermediate overflows, and the result is
      the valid date with that day's number. */
  method DMYFromJulian(jd: I32) returns (year: I32, month: I32, day: I32)
    requires DATE_MIN + 2415019 <= jd as int <= DATE_MAX + 2415019
    ensures 100 <= year <= 9999
    ensures var d := Date(year as int, month as int, day as int);
            Valid(d) && DayCount(d) == jd as int - 1721425
  {
    hide Valid, DayCount, FromMarch, YearStart, IsLeapYear;
    var l := jd + 68569;
    var n := l * 4 / 146097;
    ghost var l0 := l as int;
    YearRange(l0, n as int);
    l := l - (n * 146097 + 3) / 4;
    ghost var l1 := l as int;
    Century(l0, n as int, l1);
    var i := (4000 * (l + 1)) / 1461001;
    ghost var days := l1 - i as int * 1461 / 4;
    YearOfCentury(l1, i as int, days);
    l := l + 31 - (i * 1461) / 4;
    year, month, day := MonthAndDay(100 * (n - 49) + i, l, days);
    Assembled(l0, n as int, l1, i as int, days);
  }

  lemma DayZero()
    ensures Valid(Date(1899, 12, 30)) && DayCount(Date(1899, 12, 30)) == 693594
  {
    hide YearStart;
    YearStartClosed(1899);
    MonthTable(1899);
  }

  /** The date of a variant date: of every day in range, the calendar date that many days after
      30 December 1899. */
  method DateOf(dateIn: I32) returns (year: I32, month: I32, day: I32)
    requires DATE_MIN <= dateIn as int <= DATE_MAX
    ensures var d := Date(year as int, month as int, day as int);
            Valid(d) && DayCount(d) == DayCount(Date(1899, 12, 30)) + dateIn as int
  {
    DayZero();
    hide Valid, DayCount;
    var jd := JulianFromDate(dateIn);
    year, month, day := DMYFromJulian(jd);
  }
}
