/**
 * The proleptic Gregorian calendar with a year 0 (ISO 8601:2004, section 3.2.1),
 * defined directly from its rules. This is the reference the packed date-time
 * value and its integer kernel are proved against; nothing here copies the
 * kernel's closed forms.
 */
module Calendar {

  /** Gregorian leap rule, for every integer year (year 0 is a leap year). */
  predicate IsLeap(year: int)
  {
    year % 4 == 0 && (year % 100 != 0 || year % 400 == 0)
  }

  function YearLength(year: int): int
  {
    if IsLeap(year) then 366 else 365
  }

  /** Length of `month` (1..12) in a year with the given leap status; 0 for any other month number. */
  function MonthLength(leap: bool, month: int): int
  {
    if month == 2 then (if leap then 29 else 28)
    else if month == 4 || month == 6 || month == 9 || month == 11 then 30
    else if 1 <= month <= 12 then 31
    else 0
  }

  /** Days in the months before `month` of a year; `MonthStart(leap, 13)` is the year length. */
  function MonthStart(leap: bool, month: int): (days: int)
    requires 1 <= month <= 13
    ensures 0 <= days <= 31 * (month - 1)
  {
    if month == 1 then 0 else MonthStart(leap, month - 1) + MonthLength(leap, month - 1)
  }

  /** Number of days from 0001-01-01 to January 1 of `year`; negative before year 1. */
  function DaysBefore(year: int): int
    decreases if year >= 1 then year - 1 else 1 - year
  {
    if year == 1 then 0
    else if year > 1 then DaysBefore(year - 1) + YearLength(year - 1)
    else DaysBefore(year + 1) - YearLength(year)
  }

  predicate ValidDate(year: int, month: int, day: int)
  {
    1 <= month <= 12 && 1 <= day <= MonthLength(IsLeap(year), month)
  }

  /** Days from 0001-01-01 to the given date (0 for 0001-01-01 itself). */
  function DayNumber(year: int, month: int, day: int): int
    requires 1 <= month <= 13
  {
    DaysBefore(year) + MonthStart(IsLeap(year), month) + day - 1
  }

  /** The calendar day after a valid date. */
  function NextDate(year: int, month: int, day: int): (int, int, int)
    requires ValidDate(year, month, day)
  {
    if day < MonthLength(IsLeap(year), month) then (year, month, day + 1)
    else if month < 12 then (year, month + 1, 1)
    else (year + 1, 1, 1)
  }

  /** Leap-day count in closed form: days in the `k` years that end before year k+1 starts, counted from year 1. */
  function YearsToDays(k: int): int
  {
    365 * k + k / 4 - k / 100 + k / 400
  }

  // ---------------------------------------------------------------------------
  // Lemmas

  lemma MonthStartValues(leap: bool)
    ensures MonthStart(leap, 1) == 0 && MonthStart(leap, 2) == 31
    ensures MonthStart(leap, 3) == 59 + (if leap then 1 else 0)
    ensures MonthStart(leap, 4) == 90 + (if leap then 1 else 0)
    ensures MonthStart(leap, 5) == 120 + (if leap then 1 else 0)
    ensures MonthStart(leap, 6) == 151 + (if leap then 1 else 0)
    ensures MonthStart(leap, 7) == 181 + (if leap then 1 else 0)
    ensures MonthStart(leap, 8) == 212 + (if leap then 1 else 0)
    ensures MonthStart(leap, 9) == 243 + (if leap then 1 else 0)
    ensures MonthStart(leap, 10) == 273 + (if leap then 1 else 0)
    ensures MonthStart(leap, 11) == 304 + (if leap then 1 else 0)
    ensures MonthStart(leap, 12) == 334 + (if leap then 1 else 0)
    ensures MonthStart(leap, 13) == 365 + (if leap then 1 else 0)
  {
  }

  /** Month starts strictly increase, so a day number within a year determines month and day. */
  lemma MonthStartMonotone(leap: bool, a: int, b: int)
    requires 1 <= a < b <= 13
    ensures MonthStart(leap, a) + MonthLength(leap, a) <= MonthStart(leap, b)
    decreases b - a
  {
    if a + 1 < b {
      MonthStartMonotone(leap, a + 1, b);
    }
  }

  /** Adding a day and subtracting `n`'s multiples: `k / n` grows by one exactly when `n` divides `k`. */
  lemma DivStep(k: int, n: int)
    requires n == 4 || n == 100 || n == 400
    ensures k / n - (k - 1) / n == (if k % n == 0 then 1 else 0)
  {
    var q := (k - 1) / n;
    var r := (k - 1) % n;
    assert k - 1 == n * q + r && 0 <= r < n;
    if r + 1 < n {
      assert k == n * q + (r + 1);
    } else {
      assert k == n * (q + 1) + 0;
    }
  }

  /** The closed form grows by the length of year k from k-1 to k. */
  lemma YearsToDaysStep(k: int)
    ensures YearsToDays(k) - YearsToDays(k - 1) == YearLength(k)
  {
    DivStep(k, 4);
    DivStep(k, 100);
    DivStep(k, 400);
    DivisorChain(k);
  }

  /** A multiple of 400 is a multiple of 100, and a multiple of 100 a multiple of 4. */
  lemma DivisorChain(k: int)
    ensures k % 400 == 0 ==> k % 100 == 0
    ensures k % 100 == 0 ==> k % 4 == 0
  {
    if k % 400 == 0 {
      assert k == 400 * (k / 400);
      RemainderOf(k, 100, 4 * (k / 400), 0);
    }
    if k % 100 == 0 {
      assert k == 100 * (k / 100);
      RemainderOf(k, 4, 25 * (k / 100), 0);
    }
  }

  /** The recursive count from 0001-01-01 agrees with the closed form. */
  lemma {:induction false} DaysBeforeClosedForm(year: int)
    ensures DaysBefore(year) == YearsToDays(year - 1)
    decreases if year >= 1 then year - 1 else 1 - year
  {
    if year == 1 {
    } else if year > 1 {
      DaysBeforeClosedForm(year - 1);
      YearsToDaysStep(year - 1);
    } else {
      DaysBeforeClosedForm(year + 1);
      YearsToDaysStep(year);
    }
  }

  /** 400 Gregorian years are exactly 146097 days. */
  lemma YearsToDaysPeriod(k: int, j: int)
    ensures YearsToDays(k + 400 * j) == YearsToDays(k) + 146097 * j
  {
    assert (k + 400 * j) / 4 == k / 4 + 100 * j;
    assert (k + 400 * j) / 100 == k / 100 + 4 * j;
    assert (k + 400 * j) / 400 == k / 400 + j;
  }

  /** 400 times the closed form, written with the remainders of k modulo 4, 100 and 400. */
  lemma YearsToDaysScaled(k: int)
    ensures 400 * YearsToDays(k) == 146097 * k - 100 * (k % 4) + 4 * (k % 100) - k % 400
  {
    assert k == 4 * (k / 4) + k % 4;
    assert k == 100 * (k / 100) + k % 100;
    assert k == 400 * (k / 400) + k % 400;
  }

  /** 400 times the closed form stays within a fixed distance of 146097 * k (the mean year is 146097/400 days). */
  lemma YearsToDaysBounds(k: int)
    ensures 146097 * k - 591 <= 400 * YearsToDays(k) <= 146097 * k + 288
  {
    YearsToDaysScaled(k);
    var c := k % 400;
    var h := c / 100;
    var b := c % 100;
    var q := b / 4;
    var a := b % 4;
    RemainderOf(k, 100, 4 * (k / 400) + h, b);
    RemainderOf(k, 4, 100 * (k / 400) + 25 * h + q, a);
    assert -100 * a + 4 * b - c == 12 * q - 97 * a - 100 * h;
  }

  /** The remainder of k = n * q + r modulo n is r, for the divisors the leap rule uses. */
  lemma RemainderOf(k: int, n: int, q: int, r: int)
    requires n == 4 || n == 100 || n == 400
    requires 0 <= r < n && k == n * q + r
    ensures k % n == r
  {
  }

  /** Day numbers of valid dates advance by one from each date to the next. */
  lemma NextDateNumber(year: int, month: int, day: int)
    requires ValidDate(year, month, day)
    ensures var (y2, m2, d2) := NextDate(year, month, day);
      ValidDate(y2, m2, d2) && DayNumber(y2, m2, d2) == DayNumber(year, month, day) + 1
  {
    MonthStartValues(IsLeap(year));
    if day == MonthLength(IsLeap(year), month) && month == 12 {
      DaysBeforeClosedForm(year + 1);
      DaysBeforeClosedForm(year);
      YearsToDaysStep(year);
    }
  }

  /** A valid date's day number lies within its year. */
  lemma DayNumberWithinYear(year: int, month: int, day: int)
    requires ValidDate(year, month, day)
    ensures DaysBefore(year) <= DayNumber(year, month, day) < DaysBefore(year) + YearLength(year)
  {
    MonthStartValues(IsLeap(year));
    MonthStartMonotone(IsLeap(year), month, 13);
  }

  /** Years start in increasing order. */
  lemma {:induction false} DaysBeforeMonotone(a: int, b: int)
    requires a <= b
    ensures DaysBefore(a) + 365 * (b - a) <= DaysBefore(b)
    decreases b - a
  {
    if a < b {
      DaysBeforeMonotone(a, b - 1);
      DaysBeforeStep(b - 1);
    }
  }

  /** Distinct valid dates have distinct day numbers. */
  lemma DayNumberInjective(y1: int, m1: int, d1: int, y2: int, m2: int, d2: int)
    requires ValidDate(y1, m1, d1) && ValidDate(y2, m2, d2)
    requires DayNumber(y1, m1, d1) == DayNumber(y2, m2, d2)
    ensures y1 == y2 && m1 == m2 && d1 == d2
  {
    DayNumberWithinYear(y1, m1, d1);
    DayNumberWithinYear(y2, m2, d2);
    if y1 < y2 {
      DaysBeforeMonotone(y1 + 1, y2);
      DaysBeforeStep(y1);
    } else if y2 < y1 {
      DaysBeforeMonotone(y2 + 1, y1);
      DaysBeforeStep(y2);
    }
    assert y1 == y2;
    if m1 < m2 {
      MonthStartMonotone(IsLeap(y1), m1, m2);
    } else if m2 < m1 {
      MonthStartMonotone(IsLeap(y1), m2, m1);
    }
  }

  lemma DaysBeforeStep(year: int)
    ensures DaysBefore(year + 1) == DaysBefore(year) + YearLength(year)
  {
    DaysBeforeClosedForm(year + 1);
    DaysBeforeClosedForm(year);
    YearsToDaysStep(year);
  }
}
