/** Civil (Gregorian) calendar dates as src/services/time.js uses them.

    A date is the triple the code carries around; its 'YYYY-MM-DD' string is compared
    lexicographically there, which on zero-padded strings is the order `Before` below.
    Shifting and weekdays go through the day number, the way Date.UTC does. */
module Civil {

  datatype Date = Date(y: int, mo: int, d: int)

  predicate Leap(y: int) {
    y % 4 == 0 && (y % 100 != 0 || y % 400 == 0)
  }

  function DaysInMonth(y: int, mo: int): (n: int)
    ensures 28 <= n <= 31
  {
    if mo == 2 then (if Leap(y) then 29 else 28)
    else if mo == 4 || mo == 6 || mo == 9 || mo == 11 then 30
    else 31
  }

  predicate Valid(a: Date) {
    1 <= a.mo <= 12 && 1 <= a.d <= DaysInMonth(a.y, a.mo)
  }

  /** Order of month and day inside a year: the tail of the date string. */
  predicate MonthDayBefore(mo1: int, d1: int, mo2: int, d2: int) {
    mo1 < mo2 || (mo1 == mo2 && d1 < d2)
  }

  predicate Before(a: Date, b: Date) {
    a.y < b.y || (a.y == b.y && MonthDayBefore(a.mo, a.d, b.mo, b.d))
  }

  predicate AtMost(a: Date, b: Date) {
    a == b || Before(a, b)
  }

  function Next(a: Date): Date {
    if a.d < DaysInMonth(a.y, a.mo) then Date(a.y, a.mo, a.d + 1)
    else if a.mo < 12 then Date(a.y, a.mo + 1, 1)
    else Date(a.y + 1, 1, 1)
  }

  function Prev(a: Date): Date {
    if a.d > 1 then Date(a.y, a.mo, a.d - 1)
    else if a.mo > 1 then Date(a.y, a.mo - 1, DaysInMonth(a.y, a.mo - 1))
    else Date(a.y - 1, 12, 31)
  }

  /** shiftDate of time.js: `n` days later (earlier when negative). */
  function Shift(a: Date, n: int): Date
    decreases if n < 0 then -n else n
  {
    if n == 0 then a else if n > 0 then Shift(Next(a), n - 1) else Shift(Prev(a), n + 1)
  }

  function YearDays(y: int): int {
    if Leap(y) then 366 else 365
  }

  function DaysBeforeYear(y: int): int
    decreases if y < 1 then 1 - y else y - 1
  {
    if y == 1 then 0
    else if y > 1 then DaysBeforeYear(y - 1) + YearDays(y - 1)
    else DaysBeforeYear(y + 1) - YearDays(y)
  }

  function DaysBeforeMonth(y: int, mo: int): int
    decreases mo
  {
    if mo <= 1 then 0 else DaysBeforeMonth(y, mo - 1) + DaysInMonth(y, mo - 1)
  }

  /** Days since 31 December of the year 0, so 0001-01-01 (a Monday) is day 1. */
  function DayNumber(a: Date): int {
    DaysBeforeYear(a.y) + DaysBeforeMonth(a.y, a.mo) + a.d
  }

  /** dowOfDate of time.js: 1 = Sunday ... 7 = Saturday. */
  function Dow(a: Date): (w: int)
    ensures 1 <= w <= 7
  {
    DayNumber(a) % 7 + 1
  }

  lemma MonthTable(y: int)
    ensures DaysBeforeMonth(y, 2) == 31
    ensures DaysBeforeMonth(y, 3) == 31 + DaysInMonth(y, 2)
    ensures DaysBeforeMonth(y, 6) == DaysBeforeMonth(y, 3) + 92
    ensures DaysBeforeMonth(y, 9) == DaysBeforeMonth(y, 3) + 184
    ensures DaysBeforeMonth(y, 12) + 31 == YearDays(y)
  {
    assert DaysBeforeMonth(y, 1) == 0;
    assert DaysBeforeMonth(y, 4) == DaysBeforeMonth(y, 3) + 31;
    assert DaysBeforeMonth(y, 5) == DaysBeforeMonth(y, 4) + 30;
    assert DaysBeforeMonth(y, 7) == DaysBeforeMonth(y, 6) + 30;
    assert DaysBeforeMonth(y, 8) == DaysBeforeMonth(y, 7) + 31;
    assert DaysBeforeMonth(y, 10) == DaysBeforeMonth(y, 9) + 30;
    assert DaysBeforeMonth(y, 11) == DaysBeforeMonth(y, 10) + 31;
    assert DaysBeforeMonth(y, 12) == DaysBeforeMonth(y, 11) + 30;
  }

  lemma YearLength(y: int)
    ensures DaysBeforeYear(y + 1) == DaysBeforeYear(y) + YearDays(y)
  {
  }

  lemma MonthLength(y: int, mo: int)
    requires mo >= 1
    ensures DaysBeforeMonth(y, mo + 1) == DaysBeforeMonth(y, mo) + DaysInMonth(y, mo)
  {
  }

  lemma NewYear(y: int)
    ensures DayNumber(Date(y + 1, 1, 1)) == DayNumber(Date(y, 12, 31)) + 1
  {
    MonthTable(y);
    YearLength(y);
    assert DaysBeforeMonth(y + 1, 1) == 0;
  }

  lemma NextStep(a: Date)
    requires Valid(a)
    ensures Valid(Next(a)) && DayNumber(Next(a)) == DayNumber(a) + 1
  {
    if a.d < DaysInMonth(a.y, a.mo) {
    } else if a.mo < 12 {
      MonthLength(a.y, a.mo);
    } else {
      NewYear(a.y);
    }
  }

  lemma PrevStep(a: Date)
    requires Valid(a)
    ensures Valid(Prev(a)) && Next(Prev(a)) == a
  {
  }

  lemma {:induction false} MonthsMonotone(y: int, m1: int, m2: int)
    requires 1 <= m1 <= m2
    ensures DaysBeforeMonth(y, m1) + (if m1 < m2 then DaysInMonth(y, m1) else 0) <= DaysBeforeMonth(y, m2)
    decreases m2 - m1
  {
    if m1 < m2 {
      MonthsMonotone(y, m1, m2 - 1);
    }
  }

  lemma {:induction false} YearsMonotone(y1: int, y2: int)
    requires y1 <= y2
    ensures DaysBeforeYear(y1) <= DaysBeforeYear(y2)
    decreases y2 - y1
  {
    if y1 < y2 {
      YearLength(y2 - 1);
      YearsMonotone(y1, y2 - 1);
    }
  }

  lemma BeforeIsFewerDays(a: Date, b: Date)
    requires Valid(a) && Valid(b) && Before(a, b)
    ensures DayNumber(a) < DayNumber(b)
  {
    if a.y == b.y {
      MonthsMonotone(a.y, a.mo, b.mo);
    } else {
      MonthTable(a.y);
      MonthsMonotone(a.y, a.mo, 12);
      YearLength(a.y);
      YearsMonotone(a.y + 1, b.y);
      MonthsMonotone(b.y, 1, b.mo);
    }
  }

  /** Comparing date strings is comparing day numbers; equal numbers are equal dates. */
  lemma StringOrderIsDayOrder(a: Date, b: Date)
    requires Valid(a) && Valid(b)
    ensures Before(a, b) <==> DayNumber(a) < DayNumber(b)
    ensures a == b <==> DayNumber(a) == DayNumber(b)
  {
    if Before(a, b) {
      BeforeIsFewerDays(a, b);
    } else if a != b {
      BeforeIsFewerDays(b, a);
    }
  }

  lemma PrevDay(a: Date)
    requires Valid(a)
    ensures Valid(Prev(a)) && DayNumber(Prev(a)) == DayNumber(a) - 1
  {
    PrevStep(a);
    NextStep(Prev(a));
  }

  /** Valid dates with a day number of their own, so that proofs need not unfold it. */
  predicate HasNumber(a: Date, n: int) {
    Valid(a) && DayNumber(a) == n
  }

  lemma {:induction false} ShiftForward(a: Date, n: nat, number: int)
    requires HasNumber(a, number)
    ensures HasNumber(Shift(a, n), number + n)
    decreases n
  {
    if n > 0 {
      NextStep(a);
      ShiftForward(Next(a), n - 1, number + 1);
    }
  }

  lemma {:induction false} ShiftBack(a: Date, n: int, number: int)
    requires HasNumber(a, number) && n <= 0
    ensures HasNumber(Shift(a, n), number + n)
    decreases -n
  {
    if n < 0 {
      PrevDay(a);
      ShiftBack(Prev(a), n + 1, number - 1);
    }
  }

  /** shiftDate adds to the day number, so weekdays of shifted dates are arithmetic mod 7. */
  lemma ShiftAddsDays(a: Date, n: int)
    requires Valid(a)
    ensures Valid(Shift(a, n)) && DayNumber(Shift(a, n)) == DayNumber(a) + n
  {
    if n >= 0 {
      ShiftForward(a, n, DayNumber(a));
    } else {
      ShiftBack(a, n, DayNumber(a));
    }
  }

  function DaysFrom(a: Date, b: Date): int {
    DayNumber(b) - DayNumber(a)
  }

  lemma SevenDayCycle(n: int, m: int)
    ensures m % 7 == (n % 7 + (m - n)) % 7
  {
  }

  /** Weekdays count on from any reference date. */
  lemma DowCountsOn(a: Date, b: Date)
    ensures Dow(b) - 1 == (Dow(a) - 1 + DaysFrom(a, b)) % 7
  {
    SevenDayCycle(DayNumber(a), DayNumber(b));
  }

  /** Every date is a shift of every other one, by the difference of their day numbers. */
  lemma ShiftReaches(a: Date, b: Date)
    requires Valid(a) && Valid(b)
    ensures Shift(a, DaysFrom(a, b)) == b
  {
    ShiftAddsDays(a, DaysFrom(a, b));
    StringOrderIsDayOrder(Shift(a, DaysFrom(a, b)), b);
  }

  /** isNextAnniversary of time.js: today <= date < today + 1 year, compared as strings;
      the limit keeps today's month and day even when that is 29 February. */
  predicate IsNextAnniversary(date: Date, today: Date) {
    AtMost(today, date) && Before(date, Date(today.y + 1, today.mo, today.d))
  }

  /** Inside the window a month and day name one date: the year-less cron is unambiguous. */
  lemma MonthDayIsUniqueInWindow(a: Date, b: Date, today: Date)
    requires IsNextAnniversary(a, today) && IsNextAnniversary(b, today)
    ensures a == b <==> (a.mo == b.mo && a.d == b.d)
  {
  }

  // ---- The real calendar ----

  /** The day after, in the calendar's own terms: where the months end and where February does. */
  lemma NextInTheCalendar(y: int)
    ensures forall mo, d :: 1 <= mo <= 12 && 1 <= d <= 27 ==> Next(Date(y, mo, d)) == Date(y, mo, d + 1)
    ensures Next(Date(y, 2, 28)) ==
      if y % 400 == 0 || (y % 4 == 0 && y % 100 != 0) then Date(y, 2, 29) else Date(y, 3, 1)
    ensures Next(Date(y, 2, 29)) == Date(y, 3, 1)
    ensures forall mo :: mo in {1, 3, 5, 7, 8, 10} ==>
      Next(Date(y, mo, 30)) == Date(y, mo, 31) && Next(Date(y, mo, 31)) == Date(y, mo + 1, 1)
    ensures forall mo :: mo in {4, 6, 9, 11} ==>
      Next(Date(y, mo, 29)) == Date(y, mo, 30) && Next(Date(y, mo, 30)) == Date(y, mo + 1, 1)
    ensures Next(Date(y, 12, 31)) == Date(y + 1, 1, 1)
  {
  }

  /** Years of 365 days, a leap day every fourth year but three centuries of four. */
  function YearStart(y: int): int {
    365 * (y - 1) + (y - 1) / 4 - (y - 1) / 100 + (y - 1) / 400
  }

  lemma YearStartStep(y: int)
    ensures YearStart(y + 1) - YearStart(y) == if y % 400 == 0 || (y % 4 == 0 && y % 100 != 0) then 366 else 365
  {
    assert y / 4 - (y - 1) / 4 == if y % 4 == 0 then 1 else 0;
    assert y / 100 - (y - 1) / 100 == if y % 100 == 0 then 1 else 0;
    assert y / 400 - (y - 1) / 400 == if y % 400 == 0 then 1 else 0;
  }

  lemma {:induction false} DaysBeforeYearIs(y: int)
    ensures DaysBeforeYear(y) == YearStart(y)
    decreases if y < 1 then 1 - y else y - 1
  {
    if y > 1 {
      DaysBeforeYearIs(y - 1);
      YearAfter(y - 1);
    } else if y < 1 {
      DaysBeforeYearIs(y + 1);
      YearAfter(y);
    }
  }

  lemma YearAfter(y: int)
    ensures DaysBeforeYear(y + 1) - DaysBeforeYear(y) == YearStart(y + 1) - YearStart(y)
  {
    YearLength(y);
    YearDaysStep(y);
  }

  lemma YearDaysStep(y: int)
    ensures YearDays(y) == YearStart(y + 1) - YearStart(y)
  {
    YearStartStep(y);
  }

  lemma FirstOfJanuary(y: int)
    ensures DayNumber(Date(y, 1, 1)) == YearStart(y) + 1
  {
    DaysBeforeYearIs(y);
    assert DaysBeforeMonth(y, 1) == 0;
  }

  lemma JanuariesApart(a: Date, b: Date)
    requires a == Date(a.y, 1, 1) && b == Date(b.y, 1, 1)
    ensures DaysFrom(a, b) == YearStart(b.y) - YearStart(a.y)
  {
    FirstOfJanuary(a.y);
    FirstOfJanuary(b.y);
  }

  /** Four hundred years are 146097 days. */
  lemma FourCenturiesLast(from: Date, to: Date)
    requires from == Date(from.y, 1, 1) && to == Date(from.y + 400, 1, 1)
    ensures DaysFrom(from, to) == 146097
  {
    JanuariesApart(from, to);
    var n := from.y - 1;
    assert to.y - 1 == n + 400;
    assert (n + 400) / 400 == n / 400 + 1 && (n + 400) / 100 == n / 100 + 4 && (n + 400) / 4 == n / 4 + 100;
  }

  /** A century is 36525 days when its last year is a multiple of 400, and 36524 otherwise. */
  lemma CenturyLasts(c: int, from: Date, to: Date)
    requires from == Date(100 * c + 1, 1, 1) && to == Date(100 * c + 101, 1, 1)
    ensures DaysFrom(from, to) == if (c + 1) % 4 == 0 then 36525 else 36524
  {
    JanuariesApart(from, to);
    YearsOfACentury(c, from.y - 1);
    YearsOfACentury(c + 1, to.y - 1);
  }

  lemma YearsOfACentury(c: int, n: int)
    requires n == 100 * c
    ensures n / 4 == 25 * c && n / 100 == c && n / 400 == c / 4
  {
  }

  /** Where the weekdays stand: 1 January 2025 was a Wednesday, and from any date they follow by
      DowCountsOn. */
  lemma FirstOf2025IsAWednesday(date: Date)
    requires date == Date(2025, 1, 1)
    ensures Dow(date) == 4
  {
    FirstOfJanuary(date.y);
  }

  /** The window of a year-less cron is the year that begins today: the days from today until the
      same day of next year, or until 1 March when that year lacks it. */
  lemma WindowIsAYear(date: Date, today: Date)
    requires Valid(date) && Valid(today)
    ensures IsNextAnniversary(date, today) <==>
      DayNumber(today) <= DayNumber(date) &&
      if today.mo == 2 && today.d == 29 then DayNumber(date) < DayNumber(Date(today.y + 1, 3, 1))
      else DayNumber(date) < DayNumber(Date(today.y + 1, today.mo, today.d))
  {
    StringOrderIsDayOrder(today, date);
    if today.mo == 2 && today.d == 29 {
      StringOrderIsDayOrder(date, Date(today.y + 1, 3, 1));
    } else {
      StringOrderIsDayOrder(date, Date(today.y + 1, today.mo, today.d));
    }
  }
}
