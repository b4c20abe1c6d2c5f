/**
 * The range constants and sentinels of class DateTime (src/UtilLib/DateTime.h),
 * written as literals and checked against the expressions that define them.
 */
module DateTimeLimits {
  import opened CInt
  import Calendar
  import opened DateTimeBase

  /** `NOYEAR = (1 << 28) - 1`, the year sentinel as stored in the 28-bit year field. */
  const NOYEAR: int := 0xFFF_FFFF
  /** `NOTIME`, the largest `unsigned int`. */
  const NOTIME: UInt := UINT_MAX
  /** `NODAYOFFSET`, the largest `int64_t`. */
  const NODAYOFFSET: Int64 := INT64_MAX

  /** All values of the 28-bit year field but the one reserved for NOYEAR, minus one. */
  const yearRange: int := 0xFFF_FFFE
  /** `minYear = -floor400(1 << 27)`. */
  const minYear: int := -134217600
  const maxYear: int := minYear + yearRange
  /** 30 hours in milliseconds. */
  const maxTime: int := 108000000
  /** `dayOffset_<minYear>(1, 0, 0)`: the offset of January 1 of year minYear + 1. */
  const minDayOffset: int := -49021971768
  /** `dayOffset_<minYear>(yearRange + 1, 11, 30)`: the offset of December 31 of year maxYear + 1. */
  const maxDayOffset: int := 49022064903
  /** `floor400(INT_MIN)`, the shift that makes every 32-bit year nonnegative. */
  const Y0: int := -2147484000

  // ---------------------------------------------------------------------------
  // Lemmas

  /** The literal constants are the values the header computes, and they meet its static_asserts. */
  lemma ConstantsAsDefined()
    ensures minYear == -Floor400(TWO_27)
    ensures Y0 == Floor400(INT_MIN)
    ensures minYear % 400 == 0 && minYear < 1 && maxYear >= 1 && maxYear - minYear <= yearRange
    ensures maxYear == 134217854
    ensures maxTime == 30 * 3600000
    ensures minDayOffset == DayOffset_(minYear, 1, 0, 0)
    ensures maxDayOffset == DayOffset_(minYear, yearRange + 1, 11, 30)
  {
    DayOffset_Counts(minYear, 1, 0, 0);
    DayOffset_Counts(minYear, yearRange + 1, 11, 30);
    Calendar.DaysBeforeClosedForm(minYear + 1);
    Calendar.DaysBeforeClosedForm(minYear + yearRange + 1);
    Calendar.MonthStartValues(Calendar.IsLeap(minYear + yearRange + 1));
  }
}
