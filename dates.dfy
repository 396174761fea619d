/**
 * Calendar-day arithmetic behind the month grid, the month navigation and the
 * "future tasks" cut-off.  A `Date` is a calendar day in the proleptic
 * Gregorian calendar, with a zero-based month as `Date.getMonth()` returns it.
 * Time of day and time zones are not part of the model.
 */
module Dates {

  /** A calendar day; `month` is 0 (January) .. 11 (December), `day` is 1-based. */
  datatype Date = Date(year: int, month: int, day: int)

  predicate IsLeapYear(y: int) {
    (y % 4 == 0 && y % 100 != 0) || y % 400 == 0
  }

  /** Number of days of month `m` (0-based) of year `y`. */
  function DaysInMonth(y: int, m: int): (n: int)
    requires 0 <= m < 12
    ensures 28 <= n <= 31
    ensures m == 1 ==> (n == 29 <==> IsLeapYear(y))
  {
    if m == 1 then (if IsLeapYear(y) then 29 else 28)
    else if m == 3 || m == 5 || m == 8 || m == 10 then 30
    else 31
  }

  /** A day that exists: a month 0..11 and a day number within that month. */
  predicate IsValid(d: Date) {
    0 <= d.month < 12 && 1 <= d.day <= DaysInMonth(d.year, d.month)
  }

  /** Days in the years 0 .. y-1 (negative for negative years). */
  function DaysBeforeYear(y: int): int
    decreases if y < 0 then -y else y
  {
    if y == 0 then 0
    else if y > 0 then DaysBeforeYear(y - 1) + DaysBeforeMonth(y - 1, 12)
    else DaysBeforeYear(y + 1) - DaysBeforeMonth(y, 12)
  }

  /** Days of year `y` before the first of month `m`; `m == 12` gives the year length. */
  function DaysBeforeMonth(y: int, m: int): int
    requires 0 <= m <= 12
  {
    [0, 31, 59, 90, 120, 151, 181, 212, 243, 273, 304, 334, 365][m]
      + (if m >= 2 && IsLeapYear(y) then 1 else 0)
  }

  /**
   * The day count (days since 1 January of year 0) of `new Date(y, m, d)`
   * for a year argument outside 0..99, which the JavaScript constructor
   * would read as 1900 + y.  Like the constructor it accepts any month and
   * day and rolls them over: month 12 is January of the next year, day 0
   * the last day of the month before.
   */
  function DayNumber(y: int, m: int, d: int): int {
    var y' := y + m / 12;
    var m' := m % 12;
    DaysBeforeYear(y') + DaysBeforeMonth(y', m') + d - 1
  }

  function Ordinal(x: Date): int {
    DayNumber(x.year, x.month, x.day)
  }

  /** `Date.getDay()`: 0 is Sunday .. 6 is Saturday. */
  function Weekday(x: Date): (w: int)
    ensures 0 <= w < 7
  {
    (Ordinal(x) + 6) % 7
  }

  /**
   * `new Date(y, m, d)` rolls month and day over (for year arguments
   * outside 0..99): twelve months more are one year more, and one day more
   * is one day count more, so day 0 is the day before the 1st.  Within
   * 0..11 the month needs no carry.
   */
  lemma DayNumberRollOver(y: int, m: int, d: int)
    ensures DayNumber(y, m + 12, d) == DayNumber(y + 1, m, d)
    ensures DayNumber(y, m, d + 1) == DayNumber(y, m, d) + 1
    ensures 0 <= m < 12 ==> DayNumber(y, m, d) == DaysBeforeYear(y) + DaysBeforeMonth(y, m) + d - 1
  {
    assert (m + 12) / 12 == m / 12 + 1 && (m + 12) % 12 == m % 12;
    if 0 <= m < 12 {
      assert m / 12 == 0 && m % 12 == m;
    }
  }

  /**
   * The proleptic Gregorian count of days before year `y`: 365 a year, plus
   * one leap day every fourth year, except centuries not divisible by 400.
   */
  lemma {:induction false} DaysBeforeYearClosedForm(y: int)
    requires y >= 0
    ensures DaysBeforeYear(y) == 365 * y + (y + 3) / 4 - (y + 99) / 100 + (y + 399) / 400
    decreases y
  {
    if y > 0 {
      var z := y - 1;
      DaysBeforeYearClosedForm(z);
      YearLength(z);
      LeapSteps(z);
      LeapCount(z);
      assert y + 3 == z + 4 && y + 99 == z + 100 && y + 399 == z + 400;
    }
  }

  /** The three divisibility tests together count the leap day of year `z`. */
  lemma LeapCount(z: int)
    ensures (if z % 4 == 0 then 1 else 0) - (if z % 100 == 0 then 1 else 0) + (if z % 400 == 0 then 1 else 0)
            == if IsLeapYear(z) then 1 else 0
  {
    if z % 400 == 0 {
      assert z == 100 * (4 * (z / 400));
      assert z == 4 * (100 * (z / 400));
    } else if z % 100 == 0 {
      assert z == 4 * (25 * (z / 100));
    }
  }

  /** One more year adds a leap day count exactly at multiples of 4, 100 and 400. */
  lemma LeapSteps(z: int)
    requires z >= 0
    ensures (z + 4) / 4 == (z + 3) / 4 + (if z % 4 == 0 then 1 else 0)
    ensures (z + 100) / 100 == (z + 99) / 100 + (if z % 100 == 0 then 1 else 0)
    ensures (z + 400) / 400 == (z + 399) / 400 + (if z % 400 == 0 then 1 else 0)
  {
    assert z == 4 * (z / 4) + z % 4;
    assert z == 100 * (z / 100) + z % 100;
    assert z == 400 * (z / 400) + z % 400;
  }

  /** The first day of the month after month `m` of year `y`. */
  function FirstOfNextMonth(y: int, m: int): Date {
    if m == 11 then Date(y + 1, 0, 1) else Date(y, m + 1, 1)
  }

  lemma YearLength(y: int)
    ensures DaysBeforeYear(y + 1) == DaysBeforeYear(y) + DaysBeforeMonth(y, 12)
    ensures DaysBeforeMonth(y, 12) == if IsLeapYear(y) then 366 else 365
  {
  }

  /** Month `m` is followed by month `m + 1`, `DaysInMonth` days later. */
  lemma {:induction false} MonthStep(y: int, m: int)
    requires 0 <= m < 12
    ensures DayNumber(y, m + 1, 1) == DayNumber(y, m, 1) + DaysInMonth(y, m)
  {
    if m == 11 {
      YearLength(y);
      assert (m + 1) / 12 == 1 && (m + 1) % 12 == 0;
    } else {
      assert (m + 1) / 12 == 0 && (m + 1) % 12 == m + 1;
    }
    assert m / 12 == 0 && m % 12 == m;
  }

  /**
   * `new Date(year, month + 1, 0)` is the last day of `month` (for years
   * outside 0..99): day 0 of the next month falls on day
   * `DaysInMonth(year, month)` of this one.  This is how the calendar finds
   * the number of days to draw.
   */
  lemma {:induction false} LastDayOfMonth(y: int, m: int)
    requires 0 <= m < 12
    ensures DayNumber(y, m + 1, 0) == DayNumber(y, m, DaysInMonth(y, m))
    ensures IsValid(Date(y, m, DaysInMonth(y, m))) && !IsValid(Date(y, m, DaysInMonth(y, m) + 1))
  {
    MonthStep(y, m);
  }

  /** The first of the next month, as a normalised date, has the day count of `new Date(y, m + 1, 1)`. */
  lemma {:induction false} FirstOfNextMonthOrdinal(y: int, m: int)
    requires 0 <= m < 12
    ensures IsValid(FirstOfNextMonth(y, m))
    ensures Ordinal(FirstOfNextMonth(y, m)) == Ordinal(Date(y, m, 1)) + DaysInMonth(y, m)
  {
    MonthStep(y, m);
    if m == 11 {
      assert Ordinal(Date(y + 1, 0, 1)) == DayNumber(y, 12, 1);
    }
  }

  /**
   * The weekday of the first of the next month is where this month's grid
   * leaves off: consecutive month grids continue the same weekday columns.
   */
  lemma {:induction false} NextMonthWeekday(y: int, m: int)
    requires 0 <= m < 12
    ensures Weekday(FirstOfNextMonth(y, m)) == (Weekday(Date(y, m, 1)) + DaysInMonth(y, m)) % 7
  {
    FirstOfNextMonthOrdinal(y, m);
    WeekShift(Ordinal(Date(y, m, 1)) + 6, DaysInMonth(y, m));
  }

  lemma WeekShift(k: int, d: int)
    ensures (k + d) % 7 == (k % 7 + d) % 7
  {
    assert k == 7 * (k / 7) + k % 7;
    assert k + d == 7 * (k / 7) + (k % 7 + d);
  }

  /** The closed form of the day count of New Year's Day of year `y`. */
  lemma NewYearOrdinal(y: int)
    requires y >= 0
    ensures Ordinal(Date(y, 0, 1)) == 365 * y + (y + 3) / 4 - (y + 99) / 100 + (y + 399) / 400
  {
    DaysBeforeYearClosedForm(y);
    DayNumberRollOver(y, 0, 1);
  }

  /** A day whose count plus six is `7 * q + w` falls on weekday `w`. */
  lemma WeekdayOfOrdinal(x: Date, q: int, w: int)
    requires 0 <= w < 7 && Ordinal(x) + 6 == 7 * q + w
    ensures Weekday(x) == w
  {
  }

  /**
   * The weekday of two known days: 1 January 1970 (`y`) was a Thursday and
   * 1 January 2000 (`y + 30`) a Saturday.  The year is a parameter fixed by
   * the precondition rather than a literal, because a literal year makes the
   * verifier unfold the recursive year count `DaysBeforeYear` year by year.
   */
  lemma WeekdayAnchor(y: int)
    requires y == 1970
    ensures Weekday(Date(y, 0, 1)) == 4
    ensures Weekday(Date(y + 30, 0, 1)) == 6
  {
    NewYearOrdinal(y);
    assert (y + 3) / 4 == 493 && (y + 99) / 100 == 20 && (y + 399) / 400 == 5;
    var a := Ordinal(Date(y, 0, 1));
    assert a == 719528;
    WeekdayOfOrdinal(Date(y, 0, 1), 102790, 4);
    NewYearOrdinal(y + 30);
    assert (y + 33) / 4 == 500 && (y + 129) / 100 == 20 && (y + 429) / 400 == 5;
    var b := Ordinal(Date(y + 30, 0, 1));
    assert b == 730485;
    WeekdayOfOrdinal(Date(y + 30, 0, 1), 104355, 6);
  }

  /** The day after a valid day, with month and year carry. */
  function NextDay(x: Date): (r: Date)
    requires IsValid(x)
    ensures IsValid(r)
    ensures Ordinal(r) == Ordinal(x) + 1
  {
    if x.day < DaysInMonth(x.year, x.month) then
      Date(x.year, x.month, x.day + 1)
    else
      FirstOfNextMonthOrdinal(x.year, x.month);
      FirstOfNextMonth(x.year, x.month)
  }

  /** A day `k` days after another is `k` places later in the week, wrapping after Saturday. */
  lemma WeekdayShift(x: Date, z: Date, k: int)
    requires Ordinal(z) == Ordinal(x) + k
    ensures Weekday(z) == (Weekday(x) + k) % 7
  {
    WeekShift(Ordinal(x) + 6, k);
  }

  /** Each day is one weekday later than the day before it, Saturday followed by Sunday. */
  lemma WeekdayNextDay(x: Date)
    requires IsValid(x)
    ensures Weekday(NextDay(x)) == (Weekday(x) + 1) % 7
  {
    WeekdayShift(x, NextDay(x), 1);
  }

  /**
   * `Date.setMonth(m)` on a valid date: the same day number in month `m`
   * (which may be outside 0..11 and then carries into the year), rolled over
   * into the following month when that month is too short.
   */
  function SetMonth(x: Date, m: int): (r: Date)
    requires IsValid(x)
    ensures IsValid(r)
    ensures Ordinal(r) == DayNumber(x.year, m, x.day)
    ensures x.day <= DaysInMonth(x.year + m / 12, m % 12) ==> r == Date(x.year + m / 12, m % 12, x.day)
    ensures x.day > DaysInMonth(x.year + m / 12, m % 12) ==>
              r == Date(FirstOfNextMonth(x.year + m / 12, m % 12).year,
                        FirstOfNextMonth(x.year + m / 12, m % 12).month,
                        x.day - DaysInMonth(x.year + m / 12, m % 12))
  {
    var y := x.year + m / 12;
    var mo := m % 12;
    var n := DaysInMonth(y, mo);
    if x.day <= n then
      assert mo / 12 == 0 && mo % 12 == mo;
      Date(y, mo, x.day)
    else
      var next := FirstOfNextMonth(y, mo);
      FirstOfNextMonthOrdinal(y, mo);
      assert mo / 12 == 0 && mo % 12 == mo;
      assert DayNumber(y, mo, 1) + x.day - 1 == DayNumber(x.year, m, x.day);
      Date(next.year, next.month, x.day - n)
  }

  /** The calendar's "next month" button. */
  function NextMonth(x: Date): (r: Date)
    requires IsValid(x)
    ensures IsValid(r)
    ensures Ordinal(r) == DayNumber(x.year, x.month + 1, x.day)
    ensures r.day <= x.day
  {
    SetMonth(x, x.month + 1)
  }

  /** The calendar's "previous month" button. */
  function PreviousMonth(x: Date): (r: Date)
    requires IsValid(x)
    ensures IsValid(r)
    ensures Ordinal(r) == DayNumber(x.year, x.month - 1, x.day)
    ensures r.day <= x.day
  {
    SetMonth(x, x.month - 1)
  }

  /** When the day fits every month, "next" moves one month forward, December to January of the next year. */
  lemma NextMonthCarry(x: Date)
    requires IsValid(x) && x.day <= 28
    ensures NextMonth(x) == if x.month == 11 then Date(x.year + 1, 0, x.day) else Date(x.year, x.month + 1, x.day)
  {
    if x.month == 11 {
      assert (x.month + 1) / 12 == 1 && (x.month + 1) % 12 == 0;
    } else {
      assert (x.month + 1) / 12 == 0 && (x.month + 1) % 12 == x.month + 1;
    }
  }

  /** When the day fits every month, "previous" moves one month back, January to December of the year before. */
  lemma PreviousMonthCarry(x: Date)
    requires IsValid(x) && x.day <= 28
    ensures PreviousMonth(x) == if x.month == 0 then Date(x.year - 1, 11, x.day) else Date(x.year, x.month - 1, x.day)
  {
    if x.month == 0 {
      assert (x.month - 1) / 12 == -1 && (x.month - 1) % 12 == 11;
    } else {
      assert (x.month - 1) / 12 == 0 && (x.month - 1) % 12 == x.month - 1;
    }
  }

  /** For days 1..28 the two buttons undo each other. */
  lemma {:induction false} NavigationRoundTrip(x: Date)
    requires IsValid(x) && x.day <= 28
    ensures PreviousMonth(NextMonth(x)) == x
    ensures NextMonth(PreviousMonth(x)) == x
  {
    NextMonthCarry(x);
    PreviousMonthCarry(NextMonth(x));
    PreviousMonthCarry(x);
    NextMonthCarry(PreviousMonth(x));
  }

  /**
   * From 31 January, "next" skips February: `setMonth` rolls 31 February
   * over to 3 March (2 March in a leap year), and "previous" then lands in
   * February, not on the starting day.
   */
  lemma NavigationSkipsShortMonth(y: int)
    ensures NextMonth(Date(y, 0, 31)) == Date(y, 2, if IsLeapYear(y) then 2 else 3)
    ensures PreviousMonth(NextMonth(Date(y, 0, 31))) == Date(y, 1, if IsLeapYear(y) then 2 else 3)
  {
    assert 1 / 12 == 0 && 1 % 12 == 1;
  }

  /**
   * The order of ISO `YYYY-MM-DD` strings: by year, then month, then day.
   * For years 0..9999 this is the string order `Array.prototype.sort` uses.
   */
  predicate DayBefore(a: Date, b: Date) {
    a.year < b.year
    || (a.year == b.year && a.month < b.month)
    || (a.year == b.year && a.month == b.month && a.day < b.day)
  }

  lemma {:induction false} YearsAreOrdered(y: int, k: nat)
    ensures DaysBeforeYear(y + k) >= DaysBeforeYear(y) + 365 * k
    decreases k
  {
    if k > 0 {
      YearsAreOrdered(y, k - 1);
      YearLength(y + k - 1);
    }
  }

  /** A valid day lies inside its own year's range of day counts. */
  lemma OrdinalWithinYear(x: Date)
    requires IsValid(x)
    ensures DaysBeforeYear(x.year) + DaysBeforeMonth(x.year, x.month) <= Ordinal(x)
    ensures Ordinal(x) < DaysBeforeYear(x.year) + DaysBeforeMonth(x.year, x.month) + DaysInMonth(x.year, x.month)
    ensures Ordinal(x) < DaysBeforeYear(x.year + 1)
  {
    YearLength(x.year);
    assert x.month / 12 == 0 && x.month % 12 == x.month;
  }

  /** A valid day of an earlier year comes before every valid day of a later year. */
  lemma {:induction false} EarlierYearFirst(a: Date, b: Date)
    requires IsValid(a) && IsValid(b) && a.year < b.year
    ensures Ordinal(a) < Ordinal(b)
  {
    OrdinalWithinYear(a);
    OrdinalWithinYear(b);
    YearsAreOrdered(a.year + 1, b.year - a.year - 1);
  }

  /** Within one year, a valid day of an earlier month comes first. */
  lemma {:induction false} EarlierMonthFirst(a: Date, b: Date)
    requires IsValid(a) && IsValid(b) && a.year == b.year && a.month < b.month
    ensures Ordinal(a) < Ordinal(b)
  {
    OrdinalWithinYear(a);
    OrdinalWithinYear(b);
    MonthsAreOrdered(a.year, a.month, b.month);
  }

  /**
   * On valid days the ISO string order is the chronological order, so the
   * upcoming-task groups, sorted by key, come out in date order.
   */
  lemma {:induction false} DayBeforeIsChronological(a: Date, b: Date)
    requires IsValid(a) && IsValid(b)
    ensures DayBefore(a, b) <==> Ordinal(a) < Ordinal(b)
  {
    if a.year < b.year {
      EarlierYearFirst(a, b);
    } else if b.year < a.year {
      EarlierYearFirst(b, a);
    } else if a.month < b.month {
      EarlierMonthFirst(a, b);
    } else if b.month < a.month {
      EarlierMonthFirst(b, a);
    } else {
      assert a.month / 12 == 0 && a.month % 12 == a.month;
    }
  }

  lemma MonthsAreOrdered(y: int, m1: int, m2: int)
    requires 0 <= m1 < m2 < 12
    ensures DaysBeforeMonth(y, m1) + DaysInMonth(y, m1) <= DaysBeforeMonth(y, m2)
  {
  }
}
