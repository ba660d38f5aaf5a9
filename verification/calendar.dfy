/** Proleptic Gregorian calendar arithmetic at the granularity of days, as dayjs
    (over the JavaScript Date) performs it in local time for years from 100 on:
    a date is a year, a 0-based month and a 1-based day of the month, and a day
    number counts days from 1970-01-01. */
module Calendar {

  /** A calendar day. `month` is 0-based (0 = January), as dayjs's `month()`;
      `day` is the 1-based day of the month, as dayjs's `date()`. */
  datatype Date = Date(year: int, month: int, day: int) {
    predicate IsValid() {
      0 <= month <= 11 && 1 <= day <= DaysInMonth(year, month)
    }
  }

  /** A date that exists in the calendar. */
  type CalendarDate = d: Date | d.IsValid() witness Date(1970, 0, 1)

  predicate IsLeapYear(y: int) {
    y % 4 == 0 && (y % 100 != 0 || y % 400 == 0)
  }

  function DaysInYear(y: int): (n: int)
    ensures n == 366 <==> IsLeapYear(y)
    ensures n == 365 <==> !IsLeapYear(y)
  {
    if IsLeapYear(y) then 366 else 365
  }

  /** Length of month `m` (0-based) of year `y`. */
  function DaysInMonth(y: int, m: int): (n: int)
    requires 0 <= m <= 11
    ensures 28 <= n <= 31
    ensures n == 29 <==> m == 1 && IsLeapYear(y)
    ensures n == 28 <==> m == 1 && !IsLeapYear(y)
  {
    if m == 1 then (if IsLeapYear(y) then 29 else 28)
    else if m == 3 || m == 5 || m == 8 || m == 10 then 30
    else 31
  }

  /** Days of year `y` that come before the first of month `m`
      (`m == 12` gives the length of the year). */
  function DaysBeforeMonth(y: int, m: int): (n: int)
    requires 0 <= m <= 12
    ensures m == 0 ==> n == 0
    ensures m == 12 ==> n == DaysInYear(y)
  {
    (if m == 0 then 0 else if m == 1 then 31 else if m == 2 then 59
     else if m == 3 then 90 else if m == 4 then 120 else if m == 5 then 151
     else if m == 6 then 181 else if m == 7 then 212 else if m == 8 then 243
     else if m == 9 then 273 else if m == 10 then 304 else if m == 11 then 334
     else 365)
    + (if m >= 2 && IsLeapYear(y) then 1 else 0)
  }

  /** The table above is the running sum of the month lengths. */
  lemma DaysBeforeMonthStep(y: int, m: int)
    requires 0 <= m <= 11
    ensures DaysBeforeMonth(y, m + 1) == DaysBeforeMonth(y, m) + DaysInMonth(y, m)
  {
  }

  /** Number of leap years in [1, y - 1] (negated count for years before 1). */
  function LeapYearsBefore(y: int): int {
    (y - 1) / 4 - (y - 1) / 100 + (y - 1) / 400
  }

  lemma LeapYearsBeforeStep(y: int)
    ensures LeapYearsBefore(y + 1) == LeapYearsBefore(y) + (if IsLeapYear(y) then 1 else 0)
  {
    DivStep(y, 4);
    DivStep(y, 100);
    DivStep(y, 400);
    if y % 100 == 0 {
      assert y % 4 == 0 by { assert y == 100 * (y / 100); assert y == 4 * (25 * (y / 100)); }
    }
    if y % 400 == 0 {
      assert y % 100 == 0 by { assert y == 400 * (y / 400); assert y == 100 * (4 * (y / 400)); }
    }
  }

  /** Stepping the numerator of a floor division by one. */
  lemma DivStep(y: int, k: int)
    requires k == 4 || k == 100 || k == 400
    ensures y / k - (y - 1) / k == if y % k == 0 then 1 else 0
  {
  }

  /** Days from 1970-01-01 to the first of January of year `y`. */
  function DaysBeforeYear(y: int): int {
    365 * (y - 1970) + LeapYearsBefore(y) - LeapYearsBefore(1970)
  }

  lemma DaysBeforeYearStep(y: int)
    ensures DaysBeforeYear(y + 1) == DaysBeforeYear(y) + DaysInYear(y)
  {
    LeapYearsBeforeStep(y);
  }

  /** Whole years take at least 365 days each. */
  lemma {:induction false} DaysBeforeYearGrows(a: int, b: int)
    requires a <= b
    ensures DaysBeforeYear(a) + 365 * (b - a) <= DaysBeforeYear(b)
    decreases b - a
  {
    if a < b {
      DaysBeforeYearGrows(a, b - 1);
      DaysBeforeYearStep(b - 1);
    }
  }

  /** Days since 1970-01-01 (negative before it). */
  function DayNumber(d: Date): int
    requires 0 <= d.month <= 11
  {
    DaysBeforeYear(d.year) + DaysBeforeMonth(d.year, d.month) + d.day - 1
  }

  /** Calendar order: earlier year, or same year and earlier month, or same month and earlier day. */
  predicate Precedes(a: Date, b: Date) {
    a.year < b.year
    || (a.year == b.year && a.month < b.month)
    || (a.year == b.year && a.month == b.month && a.day < b.day)
  }

  /** Comparing day numbers is comparing dates in calendar order. */
  lemma DayNumberOrder(a: CalendarDate, b: CalendarDate)
    ensures DayNumber(a) < DayNumber(b) <==> Precedes(a, b)
    ensures DayNumber(a) == DayNumber(b) <==> a == b
  {
    if a.year < b.year {
      DaysBeforeYearGrows(a.year + 1, b.year);
      DaysBeforeYearStep(a.year);
    } else if b.year < a.year {
      DaysBeforeYearGrows(b.year + 1, a.year);
      DaysBeforeYearStep(b.year);
    }
  }

  /** Day of the week, 0 = Sunday, as dayjs's `day()`; 1970-01-01 was a Thursday. */
  function Weekday(d: Date): (w: int)
    requires 0 <= d.month <= 11
    ensures 0 <= w <= 6
  {
    (DayNumber(d) + 4) % 7
  }

  /** Anchors of the day numbering against the real calendar. */
  lemma WeekdayAnchors()
    ensures DayNumber(Date(1970, 0, 1)) == 0 && Weekday(Date(1970, 0, 1)) == 4
    ensures Weekday(Date(2000, 1, 29)) == 2
    ensures Weekday(Date(2022, 5, 1)) == 3
    ensures Weekday(Date(2022, 11, 1)) == 4
  {
  }

  /** The following day. */
  function Next(d: CalendarDate): CalendarDate {
    if d.day < DaysInMonth(d.year, d.month) then Date(d.year, d.month, d.day + 1)
    else if d.month < 11 then Date(d.year, d.month + 1, 1)
    else Date(d.year + 1, 0, 1)
  }

  /** The preceding day. */
  function Prev(d: CalendarDate): CalendarDate {
    if d.day > 1 then Date(d.year, d.month, d.day - 1)
    else if d.month > 0 then Date(d.year, d.month - 1, DaysInMonth(d.year, d.month - 1))
    else Date(d.year - 1, 11, 31)
  }

  /** The following day is one day number later, across month and year ends. */
  lemma NextDayNumber(d: CalendarDate)
    ensures DayNumber(Next(d)) == DayNumber(d) + 1
  {
    if d.day == DaysInMonth(d.year, d.month) {
      if d.month < 11 {
        DaysBeforeMonthStep(d.year, d.month);
      } else {
        DaysBeforeYearStep(d.year);
      }
    }
  }

  /** The preceding day is one day number earlier, across month and year starts. */
  lemma PrevDayNumber(d: CalendarDate)
    ensures DayNumber(Prev(d)) == DayNumber(d) - 1
  {
    if d.day == 1 {
      if d.month > 0 {
        DaysBeforeMonthStep(d.year, d.month - 1);
      } else {
        DaysBeforeYearStep(d.year - 1);
      }
    }
  }

  lemma NextPrev(d: CalendarDate)
    ensures Next(Prev(d)) == d
    ensures Prev(Next(d)) == d
  {
  }

  /** Moving `n` days forward (backward when `n` is negative) through the
      calendar, as dayjs's `add(n, 'd')` / `subtract(-n, 'd')`. */
  function AddDays(d: CalendarDate, n: int): CalendarDate
    decreases if n < 0 then -n else n
  {
    if n == 0 then d
    else if n > 0 then AddDays(Next(d), n - 1)
    else AddDays(Prev(d), n + 1)
  }

  /** Moving `n` days moves the day number by exactly `n`. */
  lemma {:induction false} AddDaysDayNumber(d: CalendarDate, n: int)
    ensures DayNumber(AddDays(d, n)) == DayNumber(d) + n
    decreases if n < 0 then -n else n
  {
    if n > 0 {
      NextDayNumber(d);
      AddDaysDayNumber(Next(d), n - 1);
    } else if n < 0 {
      PrevDayNumber(d);
      AddDaysDayNumber(Prev(d), n + 1);
    }
  }

  lemma AddDaysNext(d: CalendarDate, n: int)
    ensures AddDays(Next(d), n) == AddDays(d, n + 1)
  {
    if n < 0 {
      NextPrev(d);
    }
  }

  lemma AddDaysPrev(d: CalendarDate, n: int)
    ensures AddDays(Prev(d), n) == AddDays(d, n - 1)
  {
    if n > 0 {
      NextPrev(d);
    }
  }

  /** Moving `a` days and then `b` days is moving `a + b` days. */
  lemma AddDaysAdd(d: CalendarDate, a: int, b: int)
    ensures AddDays(AddDays(d, a), b) == AddDays(d, a + b)
  {
    if a >= 0 {
      AddDaysAddForward(d, a, b);
    } else {
      AddDaysAddBackward(d, -a, b);
    }
  }

  lemma {:induction false} AddDaysAddForward(d: CalendarDate, a: nat, b: int)
    ensures AddDays(AddDays(d, a), b) == AddDays(d, a + b)
    decreases a
  {
    if a > 0 {
      AddDaysAddForward(Next(d), a - 1, b);
      AddDaysNext(d, a - 1 + b);
    }
  }

  lemma {:induction false} AddDaysAddBackward(d: CalendarDate, a: nat, b: int)
    ensures AddDays(AddDays(d, -(a as int)), b) == AddDays(d, b - a)
    decreases a
  {
    if a > 0 {
      var k: int := a - 1;
      assert AddDays(d, -(a as int)) == AddDays(Prev(d), -k);
      AddDaysAddBackward(Prev(d), k, b);
      AddDaysPrev(d, b - k);
    }
  }

  /** Inside one month, moving forward only advances the day of the month. */
  lemma {:induction false} AddDaysWithinMonth(d: CalendarDate, k: nat)
    requires d.day + k <= DaysInMonth(d.year, d.month)
    ensures AddDays(d, k) == Date(d.year, d.month, d.day + k)
    decreases k
  {
    if k > 0 {
      var e: CalendarDate := Date(d.year, d.month, d.day + 1);
      assert Next(d) == e;
      assert AddDays(d, k) == AddDays(e, k - 1);
      AddDaysWithinMonth(e, k - 1);
    }
  }

  /** The days of month `m` of year `y` occupy the day numbers from the first's
      up to the first's plus the length of the month, exclusive. */
  lemma MonthSpan(e: CalendarDate, y: int, m: int)
    requires 0 <= m <= 11
    ensures e.year == y && e.month == m <==>
      DayNumber(Date(y, m, 1)) <= DayNumber(e) < DayNumber(Date(y, m, 1)) + DaysInMonth(y, m)
  {
    var first: CalendarDate := Date(y, m, 1);
    var last: CalendarDate := Date(y, m, DaysInMonth(y, m));
    DayNumberOrder(e, first);
    DayNumberOrder(last, e);
  }
}
