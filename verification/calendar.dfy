/** Proleptic Gregorian calendar arithmetic as Go's time package performs it
    on midnight values: days in a month, a day count, AddDate by days and by
    one year, weekdays and chronological comparison. */
module Calendar {

  /** A calendar day; time of day and location are not modelled. */
  datatype Date = Date(year: int, month: int, day: int)

  predicate IsLeapYear(y: int) {
    y % 4 == 0 && (y % 100 != 0 || y % 400 == 0)
  }

  function DaysIn(month: int, year: int): int {
    if month == 2 then (if IsLeapYear(year) then 29 else 28)
    else if month == 4 || month == 6 || month == 9 || month == 11 then 30
    else 31
  }

  function YearLength(y: int): int {
    if IsLeapYear(y) then 366 else 365
  }

  /** A real calendar day from year 0 on (the range every date string of the
      program can name). */
  predicate Valid(d: Date) {
    0 <= d.year && 1 <= d.month <= 12 && 1 <= d.day <= DaysIn(d.month, d.year)
  }

  /** Days from 0000-01-01 to January 1 of year y: the lengths of the years
      before it. */
  function DaysBeforeYear(y: int): int
    decreases y
  {
    if y <= 0 then 0 else DaysBeforeYear(y - 1) + YearLength(y - 1)
  }

  /** Days from January 1 of year y to the first of month m. */
  function DaysBeforeMonth(m: int, y: int): int {
    var common :=
      if m <= 1 then 0 else if m == 2 then 31 else if m == 3 then 59
      else if m == 4 then 90 else if m == 5 then 120 else if m == 6 then 151
      else if m == 7 then 181 else if m == 8 then 212 else if m == 9 then 243
      else if m == 10 then 273 else if m == 11 then 304 else 334;
    common + (if m > 2 && IsLeapYear(y) then 1 else 0)
  }

  /** Days elapsed since 0000-01-01; Go's instants at midnight are this count
      times the length of a day, shifted by a constant. */
  function DayNumber(d: Date): int {
    DaysBeforeYear(d.year) + DaysBeforeMonth(d.month, d.year) + d.day - 1
  }

  /** Go's t.Before(u) on midnight instants: on real dates, calendar order. */
  predicate Before(a: Date, b: Date): (r: bool)
    ensures Valid(a) && Valid(b) ==> (r <==> Precedes(a, b))
  {
    DayNumberOrder(a, b);
    DayNumber(a) < DayNumber(b)
  }

  /** Go's t.After(u): u.Before(t). */
  predicate After(a: Date, b: Date): (r: bool)
    ensures r <==> Before(b, a)
    ensures Valid(a) && Valid(b) ==> (r <==> Precedes(b, a))
  {
    DayNumberOrder(b, a);
    DayNumber(a) > DayNumber(b)
  }

  /** The leap-year count in closed form: 365 days per year plus one for
      every fourth year, less the centuries, plus every fourth century. */
  lemma {:induction false} DaysBeforeYearFormula(y: nat)
    ensures DaysBeforeYear(y) == 365 * y + (y + 3) / 4 - (y + 99) / 100 + (y + 399) / 400
    decreases y
  {
    if y > 0 {
      DaysBeforeYearFormula(y - 1);
      Step4(y - 1);
      Step100(y - 1);
      Step400(y - 1);
      if (y - 1) % 400 == 0 {
        FourCenturiesIsCentury(y - 1);
      }
      if (y - 1) % 100 == 0 {
        CenturyIsLeapCandidate(y - 1);
      }
    }
  }

  /** A century year is divisible by four. */
  lemma CenturyIsLeapCandidate(y: int)
    requires y % 100 == 0
    ensures y % 4 == 0
  {
    var q := y / 100;
    assert y == 4 * (25 * q);
  }

  /** A year divisible by 400 is a century year. */
  lemma FourCenturiesIsCentury(y: int)
    requires y % 400 == 0
    ensures y % 100 == 0
  {
    var q := y / 400;
    assert y == 100 * (4 * q);
  }

  lemma Step4(y: int)
    ensures (y + 4) / 4 == (y + 3) / 4 + (if y % 4 == 0 then 1 else 0)
  {
  }

  lemma Step100(y: int)
    ensures (y + 100) / 100 == (y + 99) / 100 + (if y % 100 == 0 then 1 else 0)
  {
  }

  lemma Step400(y: int)
    ensures (y + 400) / 400 == (y + 399) / 400 + (if y % 400 == 0 then 1 else 0)
  {
  }

  /** The next calendar day. */
  function Next(d: Date): (r: Date)
    requires Valid(d)
    ensures Valid(r)
  {
    if d.day < DaysIn(d.month, d.year) then
      Date(d.year, d.month, d.day + 1)
    else if d.month < 12 then
      Date(d.year, d.month + 1, 1)
    else
      Date(d.year + 1, 1, 1)
  }

  /** The next day is one more in the day count. */
  lemma NextNumber(d: Date)
    requires Valid(d)
    ensures DayNumber(Next(d)) == DayNumber(d) + 1
  {
    if d.day == DaysIn(d.month, d.year) {
      if d.month < 12 {
        MonthStep(d.month, d.year);
      } else {
        assert DaysBeforeYear(d.year + 1) == DaysBeforeYear(d.year) + YearLength(d.year);
      }
    }
  }

  /** A month's days take the count to the first of the next month. */
  lemma MonthStep(m: int, y: int)
    requires 1 <= m < 12
    ensures DaysBeforeMonth(m + 1, y) == DaysBeforeMonth(m, y) + DaysIn(m, y)
  {
  }

  /** Go's t.AddDate(0, 0, n) for n >= 0: n steps to the next day. */
  function AddDays(d: Date, n: nat): (r: Date)
    requires Valid(d)
    ensures Valid(r)
    decreases n
  {
    if n == 0 then d else AddDays(Next(d), n - 1)
  }

  /** n days later is n more in the day count. */
  lemma {:induction false} AddDaysNumber(d: Date, n: nat)
    requires Valid(d)
    ensures DayNumber(AddDays(d, n)) == DayNumber(d) + n
    decreases n
  {
    if n > 0 {
      var next := Next(d);
      NextNumber(d);
      AddDaysNumber(next, n - 1);
      assert AddDays(d, n) == AddDays(next, n - 1);
    }
  }

  lemma AddDaysAdd(d: Date, a: nat, b: nat)
    requires Valid(d)
    ensures AddDays(AddDays(d, a), b) == AddDays(d, a + b)
  {
    AddDaysNumber(d, a);
    AddDaysNumber(AddDays(d, a), b);
    AddDaysNumber(d, a + b);
    DayNumberInjective(AddDays(AddDays(d, a), b), AddDays(d, a + b));
  }

  /** Adding days that stay inside the month only moves the day of the month. */
  lemma {:induction false} AddDaysWithinMonth(d: Date, n: nat)
    requires Valid(d) && d.day + n <= DaysIn(d.month, d.year)
    ensures AddDays(d, n) == Date(d.year, d.month, d.day + n)
    decreases n
  {
    if n > 0 {
      AddDaysWithinMonth(Next(d), n - 1);
    }
  }

  /** Go's t.AddDate(1, 0, 0): the same month and day a year later; time.Date
      normalises an overflowing February 29 into March 1. */
  function AddYear(d: Date): (r: Date)
    requires Valid(d)
    ensures Valid(r) && DayNumber(r) > DayNumber(d)
    ensures DayNumber(r) == DaysBeforeYear(d.year + 1) + DaysBeforeMonth(d.month, d.year + 1) + d.day - 1
  {
    if d.month == 2 && d.day == 29 && !IsLeapYear(d.year + 1) then
      Date(d.year + 1, 3, 1)
    else
      Date(d.year + 1, d.month, d.day)
  }

  /** Go's t.Weekday(): 0 is Sunday, 1 Monday, ..., 6 Saturday. */
  function Weekday(d: Date): (w: int)
    ensures 0 <= w < 7
  {
    (DayNumber(d) + 6) % 7
  }

  /** Consecutive days have consecutive weekdays. */
  lemma WeekdayNext(d: Date)
    requires Valid(d)
    ensures Weekday(Next(d)) == (Weekday(d) + 1) % 7
  {
    NextNumber(d);
    Mod7Step(DayNumber(d));
  }

  lemma Mod7Step(n: int)
    ensures (n + 7) % 7 == ((n + 6) % 7 + 1) % 7
  {
  }

  /** January 1, 2024 was a Monday, which pins the weekday count to Go's. */
  lemma WeekdayPinned()
    ensures Weekday(Date(2024, 1, 1)) == 1
  {
    DaysBeforeYearFormula(2024);
  }

  /** Calendar order: year first, then month, then day. */
  predicate Precedes(a: Date, b: Date) {
    || a.year < b.year
    || (a.year == b.year && a.month < b.month)
    || (a.year == b.year && a.month == b.month && a.day < b.day)
  }

  lemma {:induction false} DaysBeforeYearMonotone(a: int, b: int)
    requires a <= b
    ensures DaysBeforeYear(a) <= DaysBeforeYear(b)
    decreases b - a
  {
    if a < b {
      DaysBeforeYearMonotone(a + 1, b);
    }
  }

  lemma WithinYear(d: Date)
    requires Valid(d)
    ensures DaysBeforeYear(d.year) <= DayNumber(d) < DaysBeforeYear(d.year + 1)
  {
  }

  lemma MonthsOrdered(m1: int, m2: int, y: int)
    requires 1 <= m1 < m2 <= 12
    ensures DaysBeforeMonth(m1, y) + DaysIn(m1, y) <= DaysBeforeMonth(m2, y)
  {
  }

  /** The day count orders valid dates exactly as the calendar does. */
  lemma DayNumberOrder(a: Date, b: Date)
    ensures Valid(a) && Valid(b) ==> (DayNumber(a) < DayNumber(b) <==> Precedes(a, b))
  {
    if Valid(a) && Valid(b) {
      WithinYear(a);
      WithinYear(b);
      if a.year < b.year {
        DaysBeforeYearMonotone(a.year + 1, b.year);
      } else if b.year < a.year {
        DaysBeforeYearMonotone(b.year + 1, a.year);
      } else if a.month < b.month {
        MonthsOrdered(a.month, b.month, a.year);
      } else if b.month < a.month {
        MonthsOrdered(b.month, a.month, a.year);
      }
    }
  }

  /** Distinct valid dates have distinct day counts. */
  lemma DayNumberInjective(a: Date, b: Date)
    requires Valid(a) && Valid(b) && DayNumber(a) == DayNumber(b)
    ensures a == b
  {
    DayNumberOrder(a, b);
    DayNumberOrder(b, a);
  }
}
