/**
 * The packed DateTime value (src/UtilLib/DateTimeBase.h:22-28 and
 * src/UtilLib/DateTime.h:25-242): four raw bit fields in the little-endian
 * layout, the 64-bit word they form, the masks DateTime.cpp applies to that
 * word, the accessors, the validity tests and the members that read the
 * calendar out of the fields.
 *
 * The fields hold raw stored values: `y` is the year minus minYear, `m` the
 * month minus one, `d` the day minus one, and `t` the time of day in
 * milliseconds plus one. The sentinels are y == NOYEAR, m == 15, d == 31 and
 * t == 0.
 */
module DateTimeFields {
  import opened CInt
  import Calendar
  import opened DateTimeBase
  import opened DateTimeLimits
  import Static = DateTimeStatic

  type Bits28 = x: int | 0 <= x < 0x1000_0000
  type Bits4 = x: int | 0 <= x < 0x10
  type Bits5 = x: int | 0 <= x < 0x20
  type Bits27 = x: int | 0 <= x < 0x800_0000

  /** `t : 27, d : 5` in the low 32-bit word and `m : 4, y : 28` in the high one. */
  datatype DateTime = DateTime(y: Bits28, m: Bits4, d: Bits5, t: Bits27)

  /** The stored month sentinel `NOMONTH - 1`. */
  const NA_MONTH: Bits4 := 15
  /** The stored day sentinel `NODAY - 1`. */
  const NA_DAY: Bits5 := 31
  /** Every date unit n/a and the time unset: the word `NO_Y`. */
  const AllNA: DateTime := DateTime(NOYEAR, NA_MONTH, NA_DAY, 0)

  // ---------------------------------------------------------------------------
  // The 64-bit word

  /** The object read as an unsigned 64-bit integer: t in bits 0-26, d in 27-31, m in 32-35, y in 36-63. */
  function Word(x: DateTime): nat
  {
    x.y * 0x10_0000_0000 + x.m * 0x1_0000_0000 + x.d * 0x800_0000 + x.t
  }

  /** The same word as a bit vector, for the mask arithmetic of DateTime.cpp. */
  function Bits(x: DateTime): bv64
  {
    (((x.y as bv28) as bv64) << 36) | (((x.m as bv4) as bv64) << 32)
      | (((x.d as bv5) as bv64) << 27) | ((x.t as bv27) as bv64)
  }

  const NO_Y: bv64 := 0xFFFF_FFFF_F800_0000
  const NO_M: bv64 := 0x0000_000F_F800_0000
  const NO_D: bv64 := 0x0000_0000_F800_0000
  /** `INVALID`, the same word as NO_Y. */
  const INVALID: bv64 := 0xFFFF_FFFF_F800_0000

  /** Lexicographic order on the raw fields (y, m, d, t). */
  predicate LexLess(a: DateTime, b: DateTime)
  {
    || a.y < b.y
    || (a.y == b.y && a.m < b.m)
    || (a.y == b.y && a.m == b.m && a.d < b.d)
    || (a.y == b.y && a.m == b.m && a.d == b.d && a.t < b.t)
  }

  // ---------------------------------------------------------------------------
  // Field updates the masks perform

  /** `|= NO_Y`: year, month and day n/a, time kept. */
  function WithNoYear(x: DateTime): (r: DateTime)
    ensures r.t == x.t && r.y == NOYEAR && r.m == NA_MONTH && r.d == NA_DAY
  {
    x.(y := NOYEAR, m := NA_MONTH, d := NA_DAY)
  }

  /** `|= NO_M`: month and day n/a, year and time kept. */
  function WithNoMonth(x: DateTime): (r: DateTime)
    ensures r.y == x.y && r.t == x.t && r.m == NA_MONTH && r.d == NA_DAY
  {
    x.(m := NA_MONTH, d := NA_DAY)
  }

  /** `|= NO_D`: day n/a, everything else kept. */
  function WithNoDay(x: DateTime): (r: DateTime)
    ensures r.y == x.y && r.m == x.m && r.t == x.t && r.d == NA_DAY
  {
    x.(d := NA_DAY)
  }

  // ---------------------------------------------------------------------------
  // Accessors and validity tests

  /** `year()`: the stored offset plus minYear, also for an n/a year (which reads back as maxYear + 1, not NOYEAR). */
  function Year(x: DateTime): (r: Int)
    ensures HasYear(x) ==> minYear <= r <= maxYear
    ensures !HasYear(x) ==> r == maxYear + 1 && r != NOYEAR
  {
    x.y + minYear
  }

  /** `month()`: 1..12 for a stored month 0..11, NOMONTH when the month is n/a. */
  function Month(x: DateTime): (r: UChar)
    ensures r == NOMONTH <==> !HasMonth(x)
    ensures 1 <= r <= NOMONTH
  {
    x.m + 1
  }

  /** `day()`: 1..31 for a stored day 0..30, NODAY when the day is n/a. */
  function Day(x: DateTime): (r: UChar)
    ensures r == NODAY <==> !HasDay(x)
    ensures 1 <= r <= NODAY
  {
    x.d + 1
  }

  /** `time()`: the time of day in milliseconds, NOTIME when unset. */
  function Time(x: DateTime): (r: UInt)
    ensures r == NOTIME <==> !HasTime(x)
    ensures HasTime(x) ==> r + 1 == x.t
  {
    if x.t != 0 then x.t - 1 else NOTIME
  }

  predicate HasYear(x: DateTime) { x.y != NOYEAR }
  predicate HasMonth(x: DateTime) { x.m != NA_MONTH }
  predicate HasDay(x: DateTime) { x.d != NA_DAY }
  predicate HasTime(x: DateTime) { x.t != 0 }
  /** `fullDateTime()`: a day and a time of day. */
  predicate FullDateTime(x: DateTime) { HasDay(x) && HasTime(x) }

  /** The class invariant of DateTime.h:21-23: an n/a unit makes every shorter date unit n/a. */
  predicate Cascade(x: DateTime)
  {
    (!HasYear(x) ==> !HasMonth(x)) && (!HasMonth(x) ==> !HasDay(x))
  }

  /** A value the public interface can produce: the cascade, a real month, a day within that month, a time below maxTime. */
  predicate Proper(x: DateTime)
  {
    && Cascade(x)
    && (HasMonth(x) ==> x.m <= 11)
    && (HasDay(x) ==> x.d < Calendar.MonthLength(Calendar.IsLeap(Year(x)), Month(x)))
    && x.t <= maxTime
  }

  // ---------------------------------------------------------------------------
  // Calendar members

  /** Member `isLeapYear()`: the kernel test on the stored year offset. */
  function IsLeapYear(x: DateTime): (b: bool)
    ensures b <==> Calendar.IsLeap(Year(x))
  {
    IsLeapYearMember(x);
    IsLeapYear_(x.y)
  }

  /** Member `yearLength()`: 365 or 366, 0 when the year is n/a. */
  function YearLength(x: DateTime): (n: UShort)
    ensures HasYear(x) ==> n == Calendar.YearLength(Year(x))
    ensures !HasYear(x) ==> n == 0
  {
    IsLeapYearMember(x);
    if x.y != NOYEAR then (if IsLeapYear_(x.y) then 366 else 365) else 0
  }

  /**
   * Member `monthLength()` as written: the static `monthLength(y + 1, m + 1)`
   * with the stored offset y, so February takes the leap status of the year
   * after Year(x). 0 when the month is n/a.
   */
  function MonthLength(x: DateTime): (n: UChar)
    ensures n == Calendar.MonthLength(Calendar.IsLeap(Year(x) + 1), Month(x))
    ensures !HasMonth(x) ==> n == 0
  {
    var M := Wrap(x.m + 1, TWO_8);
    assert M == Month(x);
    LeapPeriodic(Year(x) + 1, -minYear / 400);
    Static.MonthLength(x.y + 1, M)
  }

  /** Member `dayOffset()`: days from 0001-01-01, NODAYOFFSET when the day is n/a. */
  function DayOffset(x: DateTime): (r: int)
    ensures !HasDay(x) ==> r == NODAYOFFSET
    ensures HasDay(x) && x.m <= 12 ==>
      r == Calendar.DaysBefore(Year(x)) + Calendar.MonthStart(Calendar.IsLeap(Year(x)), Month(x)) + x.d
    ensures HasDay(x) && x.m >= 12 ==> r == Calendar.DaysBefore(Year(x) + 1) + [0, 30, 61, 91][x.m - 12] + x.d
  {
    if x.d != NA_DAY then
      if x.m < 12 then
        DayOffset_Counts(minYear, x.y, x.m, x.d);
        DayOffset_(minYear, x.y, x.m, x.d)
      else
        DayOffset_PastDecember(minYear, x.y, x.m, x.d);
        DayOffset_Counts(minYear, x.y + 1, 0, x.d);
        if x.m == 12 then
          DayOffset_Counts(minYear, x.y, x.m, x.d);
          DayOffset_(minYear, x.y, x.m, x.d)
        else DayOffset_(minYear, x.y, x.m, x.d)
    else NODAYOFFSET
  }

  /**
   * Member `dayInYear()`: `30 * M + ((M + (M >> 3)) >> 1) - (M > 2 ? 31 - leap : 29) + d`
   * with M = m + 1. For a real month this is the one-based day of the year;
   * for an n/a month it is 489 or 490, not the documented 0.
   */
  function DayInYear(x: DateTime): (r: UShort)
    ensures x.m <= 11 ==> r == Calendar.MonthStart(Calendar.IsLeap(Year(x)), Month(x)) + x.d + 1
    ensures !HasMonth(x) && !HasDay(x) ==> r == 489 + (if IsLeapYear(x) then 1 else 0)
  {
    var M := x.m + 1;
    var leap := if IsLeapYear_(x.y) then 1 else 0;
    IsLeapYearMember(x);
    Calendar.MonthStartValues(Calendar.IsLeap(Year(x)));
    Wrap(30 * M + Shr(M + Shr(M, 8), 2) - (if M > 2 then 31 - leap else 29) + x.d, TWO_16)
  }

  // ---------------------------------------------------------------------------
  // Lemmas

  /** A larger high digit outweighs any low digit. */
  lemma DigitStep(a: int, b: int, n: int)
    requires a < b && n > 0
    ensures a * n + n <= b * n
  {
    var k := b - a - 1;
    assert b * n == a * n + n + k * n;
  }

  /** Two digits of a mixed-radix number compare lexicographically. */
  lemma Lex2(h1: int, l1: int, h2: int, l2: int, n: int)
    requires n > 0 && 0 <= l1 < n && 0 <= l2 < n
    ensures h1 * n + l1 < h2 * n + l2 <==> h1 < h2 || (h1 == h2 && l1 < l2)
    ensures h1 * n + l1 == h2 * n + l2 <==> h1 == h2 && l1 == l2
  {
    if h1 < h2 {
      DigitStep(h1, h2, n);
    } else if h2 < h1 {
      DigitStep(h2, h1, n);
    }
  }

  /** The numeric order of the packed word is the lexicographic order of (y, m, d, t), and the word determines the fields. */
  lemma WordOrder(a: DateTime, b: DateTime)
    ensures Word(a) < Word(b) <==> LexLess(a, b)
    ensures Word(a) == Word(b) <==> a == b
  {
    Lex2(a.d, a.t, b.d, b.t, 0x800_0000);
    var la := a.d * 0x800_0000 + a.t;
    var lb := b.d * 0x800_0000 + b.t;
    Lex2(a.m, la, b.m, lb, 0x1_0000_0000);
    var ma := a.m * 0x1_0000_0000 + la;
    var mb := b.m * 0x1_0000_0000 + lb;
    Lex2(a.y, ma, b.y, mb, 0x10_0000_0000);
  }

  /** DateTime.h:205 builds NO_Y from `NODAY - 1 == 0x1F`, `NOMONTH - 1 == 0xF` and `NOYEAR == 0xFFFFFFF`. */
  lemma ConstructorMaskYear()
    ensures (0x1F as bv64 << 27) + (0xF as bv64 << 32) + (0xFFF_FFFF as bv64 << 36) == NO_Y
    ensures NODAY - 1 == 0x1F && NOMONTH - 1 == 0xF && NOYEAR == 0xFFF_FFFF && INVALID == NO_Y
  {
  }

  /** DateTime.h:206-207 build NO_M and NO_D the same way. */
  lemma ConstructorMaskMonthDay()
    ensures (0x1F as bv64 << 27) + (0xF as bv64 << 32) == NO_M
    ensures 0x1F as bv64 << 27 == NO_D
  {
  }

  /** `|= NO_Y` sets year, month and day n/a and keeps the time. */
  lemma NoYearMask(x: DateTime)
    ensures Bits(x) | NO_Y == Bits(WithNoYear(x))
  {
  }

  /** `|= NO_M` sets month and day n/a. */
  lemma NoMonthMask(x: DateTime)
    ensures Bits(x) | NO_M == Bits(WithNoMonth(x))
  {
  }

  /** `|= NO_D` sets the day n/a. */
  lemma NoDayMask(x: DateTime)
    ensures Bits(x) | NO_D == Bits(WithNoDay(x))
  {
  }

  /** `= NO_Y` (DateTime.cpp:264) stores the n/a date with the time unset. */
  lemma InvalidWord()
    ensures Bits(AllNA) == NO_Y
  {
  }

  /** `& 0xFFFFFFF007FFFFFF` (DateTime.cpp:151, :176) sets month and day to January 1. */
  lemma ClearMonthDayMask(x: DateTime)
    ensures Bits(x) & 0xFFFF_FFF0_07FF_FFFF == Bits(x.(m := 0, d := 0))
  {
  }

  /** `& 0xFFFFFFFF07FFFFFF` (DateTime.cpp:159, :181) sets the day to the first. */
  lemma ClearDayMask(x: DateTime)
    ensures Bits(x) & 0xFFFF_FFFF_07FF_FFFF == Bits(x.(d := 0))
  {
  }

  /** `& 0xFFFFFFFF00000000` (DateTime.cpp:215-216) sets the day to the first and unsets the time. */
  lemma ClearDayTimeMask(x: DateTime)
    ensures Bits(x) & 0xFFFF_FFFF_0000_0000 == Bits(x.(d := 0, t := 0))
  {
  }

  /** `& 0xFFFFFFF000000000` (DateTime.cpp:217-218) sets January 1 and unsets the time. */
  lemma ClearMonthDayTimeMask(x: DateTime)
    ensures Bits(x) & 0xFFFF_FFF0_0000_0000 == Bits(x.(m := 0, d := 0, t := 0))
  {
  }

  /** `& INVALID` (DateTime.cpp:215-218, the n/a branches) only unsets the time. */
  lemma ClearTimeMask(x: DateTime)
    ensures Bits(x) & INVALID == Bits(x.(t := 0))
  {
  }

  /** `| 0x0000000BF0000000` (DateTime.cpp:218) on a word with month and day cleared gives December 31. */
  lemma YearLastMask(x: DateTime)
    ensures (Bits(x) & 0xFFFF_FFF0_0000_0000) | 0x0000_000B_F000_0000 == Bits(x.(m := 11, d := 30, t := 0))
  {
  }

  /** The same OR on a word whose month and day are n/a changes nothing but the cleared time. */
  lemma YearLastMaskNoMonth(x: DateTime)
    requires x.m == NA_MONTH && x.d == NA_DAY
    ensures (Bits(x) & INVALID) | 0x0000_000B_F000_0000 == Bits(x.(t := 0))
  {
  }

  /** `| (_W(monthLength() - 1) << 27)` (DateTime.cpp:216) for a month length 1..31 sets the day. */
  lemma MonthLastMask(x: DateTime, ml: int)
    requires 1 <= ml <= 31
    ensures (Bits(x) & 0xFFFF_FFFF_0000_0000) | ((ml - 1) as bv64 << 27) == Bits(x.(d := ml - 1, t := 0))
  {
  }

  /** For month length 0 the 64-bit `-1` shifted left fills every field above the time with ones: the year is lost too. */
  lemma MonthLastMaskNoMonth(x: DateTime)
    ensures (Bits(x) & INVALID) | (0xFFFF_FFFF_FFFF_FFFF << 27) == Bits(AllNA)
  {
  }

  /** The member leap test on the stored offset is the Gregorian rule for the year it stands for. */
  lemma IsLeapYearMember(x: DateTime)
    ensures IsLeapYear_(x.y) <==> Calendar.IsLeap(Year(x))
  {
    LeapPeriodic(x.y, minYear / 400);
  }

  /** The offset of a date is its year start plus the kernel's month-start table entry plus the day. */
  lemma DayOffsetInYear(x: DateTime)
    requires HasDay(x) && x.m <= 11
    ensures DayOffset(x) == Calendar.DaysBefore(Year(x)) + MonthBegins(IsLeapYear_(x.y))[x.m] + x.d
  {
    IsLeapYearMember(x);
  }

  /** For a valid date `dayOffset()` is the static `dayOffset(year(), month(), day())`. */
  lemma DayOffsetMatchesStatic(x: DateTime)
    requires Proper(x) && HasDay(x)
    ensures DayOffset(x) == Static.DayOffset(Year(x), Month(x), Day(x))
    ensures DayOffset(x) == Calendar.DayNumber(Year(x), Month(x), Day(x))
  {
  }

  /** Replacing the time field keeps the date, and a proper value stays proper with any time up to maxTime. */
  lemma WithTime(x: DateTime, t: Bits27)
    ensures var r := x.(t := t);
      HasDay(r) == HasDay(x) && DayOffset(r) == DayOffset(x) && Year(r) == Year(x) && Month(r) == Month(x)
    ensures Proper(x) && t <= maxTime ==> Proper(x.(t := t))
  {
  }

  /** For a valid date `dayInYear()` is 1..365, or 1..366 in a leap year. */
  lemma DayInYearRange(x: DateTime)
    requires Proper(x) && HasDay(x)
    ensures 1 <= DayInYear(x) <= YearLength(x)
  {
    Calendar.MonthStartMonotone(Calendar.IsLeap(Year(x)), Month(x), 13);
    Calendar.MonthStartValues(Calendar.IsLeap(Year(x)));
  }

  /** The offset of a valid date lies between January 1 of minYear and December 31 of maxYear. */
  lemma DayOffsetRange(x: DateTime)
    requires Proper(x) && HasDay(x)
    ensures Calendar.DaysBefore(minYear) <= DayOffset(x) < Calendar.DaysBefore(maxYear + 1)
  {
    Calendar.DayNumberWithinYear(Year(x), Month(x), Day(x));
    Calendar.DaysBeforeMonotone(minYear, Year(x));
    Calendar.DaysBeforeMonotone(Year(x) + 1, maxYear + 1);
  }
}
