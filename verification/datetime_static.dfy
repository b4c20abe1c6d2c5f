/**
 * The static calendar functions of class DateTime
 * (src/UtilLib/DateTime.h): `isLeapYear`, `yearLength`, `monthLength` and
 * `dayOffset(Y, M, D)`. They accept every 32-bit year, also outside the range
 * a DateTime value can store.
 */
module DateTimeStatic {
  import opened CInt
  import Calendar
  import opened DateTimeBase
  import opened DateTimeLimits

  /** `isLeapYear(Y)`: the kernel's bitmask test on Y shifted by `floor400(INT_MIN)`. */
  function IsLeapYear(Y: Int): (b: bool)
    ensures b <==> Calendar.IsLeap(Y)
  {
    IsLeapYearGregorian(Y);
    IsLeapYear_(Y - Y0)
  }

  /** `yearLength(Y)` as written: 366 for leap years, 355 (not 365) otherwise. */
  function YearLength(Y: Int): (n: UShort)
    ensures Calendar.IsLeap(Y) ==> n == Calendar.YearLength(Y)
    ensures !Calendar.IsLeap(Y) ==> n == Calendar.YearLength(Y) - 10
  {
    IsLeapYearGregorian(Y);
    if IsLeapYear(Y) then 366 else 355
  }

  /** `monthLength(Y, M)`: the switch over the month number, 0 outside 1..12. */
  function MonthLength(Y: Int, M: UChar): (n: UChar)
    ensures n == Calendar.MonthLength(Calendar.IsLeap(Y), M)
    ensures 1 <= M <= 12 <==> n > 0
  {
    IsLeapYearGregorian(Y);
    if M == 1 || M == 3 || M == 5 || M == 7 || M == 8 || M == 10 || M == 12 then 31
    else if M == 4 || M == 6 || M == 9 || M == 11 then 30
    else if M == 2 then (if IsLeapYear(Y) then 29 else 28)
    else 0
  }

  /**
   * `dayOffset(Y, M, D)`: days from 0001-01-01, or NODAYOFFSET when D exceeds
   * the month length (which also catches every month outside 1..12 when D > 0).
   * D == 0 passes the range test and the `--D` of an `unsigned char` makes it 255.
   */
  function DayOffset(Y: Int, M: UChar, D: UChar): (r: int)
    ensures Calendar.ValidDate(Y, M, D) ==> r == Calendar.DayNumber(Y, M, D)
    ensures D > Calendar.MonthLength(Calendar.IsLeap(Y), M) ==> r == NODAYOFFSET
  {
    if D > MonthLength(Y, M) then NODAYOFFSET
    else
      var r := DayOffset_(Y0, Y - Y0, Wrap(M - 1, TWO_8), Wrap(D - 1, TWO_8));
      if Calendar.ValidDate(Y, M, D) then
        DayOffset_Counts(Y0, Y - Y0, M - 1, D - 1);
        r
      else r
  }

  // ---------------------------------------------------------------------------
  // Lemmas

  /** The shifted bitmask test is the Gregorian rule for every 32-bit year, negative ones included. */
  lemma IsLeapYearGregorian(Y: Int)
    ensures IsLeapYear_(Y - Y0) <==> Calendar.IsLeap(Y)
  {
    assert Y - Y0 == Y + 400 * 5368710;
    LeapPeriodic(Y, 5368710);
  }

  /** The header's documented examples: 2000 and 2024 are leap years, 1900 is not; February 2020 has 29 days, February 2021 has 28, month 13 has none. */
  lemma LeapAndMonthExamples()
    ensures IsLeapYear(2000) && IsLeapYear(2024) && !IsLeapYear(1900)
    ensures MonthLength(2020, 2) == 29 && MonthLength(2021, 2) == 28 && MonthLength(2021, 13) == 0
  {
    IsLeapYearGregorian(2000);
    IsLeapYearGregorian(2024);
    IsLeapYearGregorian(1900);
  }

  /** `dayOffset(1, 1, 1) == 0`: offset 0 is 0001-01-01. */
  lemma DayOffsetEpoch()
    ensures DayOffset(1, 1, 1) == 0
  {
    Calendar.MonthStartValues(false);
  }

  /** Within the 32-bit year range a day number never reaches NODAYOFFSET. */
  lemma DayNumberBelowSentinel(Y: Int, M: int, D: int)
    requires Calendar.ValidDate(Y, M, D)
    ensures -NODAYOFFSET < Calendar.DayNumber(Y, M, D) < NODAYOFFSET
  {
    Calendar.DaysBeforeClosedForm(Y);
    Calendar.YearsToDaysBounds(Y - 1);
    Calendar.MonthStartMonotone(Calendar.IsLeap(Y), M, 13);
    Calendar.MonthStartValues(Calendar.IsLeap(Y));
  }

  /** A valid date and the day numbers around it: the static offset advances by one from each date to the next. */
  lemma DayOffsetNextDate(Y: Int, M: UChar, D: UChar)
    requires Calendar.ValidDate(Y, M, D)
    requires Y < 0x7FFF_FFFF
    ensures var (y2, m2, d2) := Calendar.NextDate(Y, M, D);
      DayOffset(y2, m2, d2) == DayOffset(Y, M, D) + 1
  {
    Calendar.NextDateNumber(Y, M, D);
  }
}
