/** The Gregorian calendar facts the asset valuation takes from wxDateTime:
    year lengths (the leap rule of section 3.2.1 of ISO 8601:2004), month
    lengths, and the ordinal date (day of year, section 4.1.3 of ISO 8601:2004).
    The calendar is proleptic: the leap rule applies to every integer year.

    RataDie numbers every day consecutively (0001-01-01 is day 1). It is
    computed from a year that starts in March, without month tables or the
    day of year, and RataDieCountsOrdinalDays proves that it agrees with
    counting whole years and then the day of year. */
module Calendar {

  predicate IsLeap(year: int) {
    year % 4 == 0 && (year % 100 != 0 || year % 400 == 0)
  }

  function DaysInYear(year: int): (n: int)
    ensures n == 365 || n == 366
    ensures n == 366 <==> IsLeap(year)
  {
    if IsLeap(year) then 366 else 365
  }

  function DaysInMonth(year: int, month: int): (n: int)
    requires 1 <= month <= 12
    ensures 28 <= n <= 31
    ensures n == 29 <==> month == 2 && IsLeap(year)
  {
    if month == 2 then (if IsLeap(year) then 29 else 28)
    else if month == 4 || month == 6 || month == 9 || month == 11 then 30
    else 31
  }

  /** Days of `year` that lie in the months before `month`. */
  function DaysBeforeMonth(year: int, month: int): (n: int)
    requires 1 <= month <= 12
    ensures 0 <= n <= 335
  {
    [0, 31, 59, 90, 120, 151, 181, 212, 243, 273, 304, 334][month - 1]
      + (if month > 2 && IsLeap(year) then 1 else 0)
  }

  /** Each month starts the day after the previous one ends, and December
      ends on the last day of the year. */
  lemma MonthsTileYear(year: int, month: int)
    requires 1 <= month <= 12
    ensures month < 12 ==>
      DaysBeforeMonth(year, month + 1) == DaysBeforeMonth(year, month) + DaysInMonth(year, month)
    ensures month == 12 ==>
      DaysBeforeMonth(year, month) + DaysInMonth(year, month) == DaysInYear(year)
  {
  }

  /** A month that starts later starts after the earlier one has ended. */
  lemma {:induction false} LaterMonthStartsLater(year: int, m1: int, m2: int)
    requires 1 <= m1 < m2 <= 12
    ensures DaysBeforeMonth(year, m1) + DaysInMonth(year, m1) <= DaysBeforeMonth(year, m2)
    decreases m2 - m1
  {
    MonthsTileYear(year, m1);
    if m1 + 1 < m2 {
      MonthsTileYear(year, m1 + 1);
      LaterMonthStartsLater(year, m1 + 1, m2);
    }
  }

  lemma MonthEndsWithinYear(year: int, month: int)
    requires 1 <= month <= 12
    ensures DaysBeforeMonth(year, month) + DaysInMonth(year, month) <= DaysInYear(year)
  {
    MonthsTileYear(year, 12);
    if month < 12 {
      LaterMonthStartsLater(year, month, 12);
    }
  }

  datatype Date = Date(year: int, month: int, day: int) {
    predicate Valid() {
      1 <= month <= 12 && 1 <= day <= DaysInMonth(year, month)
    }
  }

  /** Calendar order: `a` is the same day as `b` or an earlier one. */
  predicate NotAfter(a: Date, b: Date) {
    a.year < b.year
    || (a.year == b.year && (a.month < b.month || (a.month == b.month && a.day <= b.day)))
  }

  /** The ordinal date: 1 on January 1st, 365 or 366 on December 31st. */
  function DayOfYear(date: Date): (n: int)
    requires date.Valid()
    ensures 1 <= n <= DaysInYear(date.year)
  {
    MonthEndsWithinYear(date.year, date.month);
    DaysBeforeMonth(date.year, date.month) + date.day
  }

  /** Within one year, the day of year orders dates exactly as the calendar does. */
  lemma DayOfYearOrder(a: Date, b: Date)
    requires a.Valid() && b.Valid() && a.year == b.year
    ensures NotAfter(a, b) <==> DayOfYear(a) <= DayOfYear(b)
    ensures a == b <==> DayOfYear(a) == DayOfYear(b)
  {
    if a.month < b.month {
      LaterMonthStartsLater(a.year, a.month, b.month);
    } else if b.month < a.month {
      LaterMonthStartsLater(a.year, b.month, a.month);
    }
  }

  /** Days in all years before `year`, counted from 0001-01-01. */
  function DaysBeforeYear(year: int): int {
    var y := year - 1;
    365 * y + y / 4 - y / 100 + y / 400
  }

  lemma QuadrennialStep(x: int)
    ensures x / 4 == (x - 1) / 4 + (if x % 4 == 0 then 1 else 0)
  {
  }

  lemma CenturyStep(x: int)
    ensures x / 100 == (x - 1) / 100 + (if x % 100 == 0 then 1 else 0)
    ensures x % 100 == 0 ==> x % 4 == 0
  {
  }

  lemma QuadricentennialStep(x: int)
    ensures x / 400 == (x - 1) / 400 + (if x % 400 == 0 then 1 else 0)
    ensures x % 400 == 0 ==> x % 100 == 0
  {
  }

  /** The closed form adds exactly one Gregorian year length per year. */
  lemma DaysBeforeYearStep(year: int)
    ensures DaysBeforeYear(year + 1) == DaysBeforeYear(year) + DaysInYear(year)
  {
    QuadrennialStep(year);
    CenturyStep(year);
    QuadricentennialStep(year);
  }

  lemma {:induction false} DaysBeforeYearGrows(y1: int, y2: int)
    requires y1 <= y2
    ensures DaysBeforeYear(y2) - DaysBeforeYear(y1) >= 365 * (y2 - y1)
    decreases y2 - y1
  {
    if y1 < y2 {
      DaysBeforeYearGrows(y1, y2 - 1);
      DaysBeforeYearStep(y2 - 1);
    }
  }

  /** The serial day number of a date; 0001-01-01 is day 1. The year is
      taken to start on March 1st, so that the leap day falls at its end, and
      the days before a month are (153 * m + 2) / 5 for months m counted
      from March. */
  function RataDie(date: Date): int
    requires date.Valid()
  {
    var y := if date.month <= 2 then date.year - 1 else date.year;
    var m := (date.month + 9) % 12;
    365 * y + y / 4 - y / 100 + y / 400 + (153 * m + 2) / 5 + date.day - 306
  }

  /** The serial day number is the days of all earlier years plus the day of
      year: the two ways of counting days agree. */
  lemma RataDieCountsOrdinalDays(date: Date)
    requires date.Valid()
    ensures RataDie(date) == DaysBeforeYear(date.year) + DayOfYear(date)
  {
    DaysBeforeYearStep(date.year);
    var m := date.month;
    if m == 1 { assert (153 * 10 + 2) / 5 == 306; }
    else if m == 2 { assert (153 * 11 + 2) / 5 == 337; }
    else if m == 3 { assert (153 * 0 + 2) / 5 == 0; }
    else if m == 4 { assert (153 * 1 + 2) / 5 == 31; }
    else if m == 5 { assert (153 * 2 + 2) / 5 == 61; }
    else if m == 6 { assert (153 * 3 + 2) / 5 == 92; }
    else if m == 7 { assert (153 * 4 + 2) / 5 == 122; }
    else if m == 8 { assert (153 * 5 + 2) / 5 == 153; }
    else if m == 9 { assert (153 * 6 + 2) / 5 == 184; }
    else if m == 10 { assert (153 * 7 + 2) / 5 == 214; }
    else if m == 11 { assert (153 * 8 + 2) / 5 == 245; }
    else { assert (153 * 9 + 2) / 5 == 275; }
  }

  /** Calendar order is the order of serial day numbers, in both directions. */
  lemma NotAfterIsSerialOrder(a: Date, b: Date)
    requires a.Valid() && b.Valid()
    ensures NotAfter(a, b) <==> RataDie(a) <= RataDie(b)
  {
    RataDieCountsOrdinalDays(a);
    RataDieCountsOrdinalDays(b);
    if a.year == b.year {
      DayOfYearOrder(a, b);
    } else if a.year < b.year {
      DaysBeforeYearStep(a.year);
      DaysBeforeYearGrows(a.year + 1, b.year);
    } else {
      DaysBeforeYearStep(b.year);
      DaysBeforeYearGrows(b.year + 1, a.year);
    }
  }
}
