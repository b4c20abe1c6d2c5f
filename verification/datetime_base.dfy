/**
 * The integer calendar kernel of src/UtilLib/DateTimeBase.h: `floor400`,
 * `isLeapYear_`, `dayOffset_<y0>` and `dayInYear_`, with the month-start tables
 * they share with DateTime.cpp. Every function follows the C++ expression it
 * models; the lemmas relate each one to the reference calendar.
 */
module DateTimeBase {
  import opened CInt
  import Calendar

  /** `DateTime::NOMONTH` (enum value 1 << 4); the month field stores it minus one. */
  const NOMONTH: int := 16
  /** `DateTime::NODAY` (enum value 1 << 5); the day field stores it minus one. */
  const NODAY: int := 32

  /** `floor400`: the largest multiple of 400 not above t, for either sign of t. */
  function Floor400(t: int): (r: int)
    ensures r % 400 == 0
    ensures t - 400 < r <= t
  {
    (if t >= 0 then Quot(t, 400) else -Quot(399 - t, 400)) * 400
  }

  /**
   * `isLeapYear_`: `!(Y & 0x03) && ((Y % 100) || !(Y & 0x0F))`, the Gregorian
   * rule for every integer, not only the nonnegative ones its comment asks for.
   */
  function IsLeapYear_(Y: int): (b: bool)
    ensures b <==> Calendar.IsLeap(Y)
  {
    LeapMask(Y);
    LowBits(Y, 4) == 0 && (Rem(Y, 100) != 0 || LowBits(Y, 16) == 0)
  }

  /** Cumulative month starts `monthBegins` / `monthBeginsLY` (13 entries, the last is the year length). */
  function MonthBegins(isLY: bool): (mB: seq<int>)
    ensures |mB| == 13
    ensures forall i :: 0 <= i < 13 ==> mB[i] == Calendar.MonthStart(isLY, i + 1)
  {
    Calendar.MonthStartValues(isLY);
    if isLY then [0, 31, 60, 91, 121, 152, 182, 213, 244, 274, 305, 335, 366]
    else [0, 31, 59, 90, 120, 151, 181, 212, 243, 273, 304, 334, 365]
  }

  /** The whole-year part of `dayOffset_`: `Y * 365 + (Y >> 2) - (3 * (Y / 100 + 1) >> 2)` for Y >= 0. */
  function WholeYears(Y: int): int
    requires Y >= 0
  {
    Y * 365 + Shr(Y, 4) - Shr(3 * (Quot(Y, 100) + 1), 4)
  }

  /** The month part of `dayOffset_` for M >= 2: `30 * M + ((M + 1 + (M >> 3)) >> 1) - 367`. */
  function LateMonths(M: UChar): int
  {
    30 * M + Shr(M + 1 + Shr(M, 8), 2) - 367
  }

  /**
   * `dayOffset_<y0>(Y, M, D)`: days from 0001-01-01 to (y0+Y)-(M+1)-(D+1).
   * January and February count forward from the start of year y0+Y; March to
   * December count back from the start of the next year.
   */
  function DayOffset_(y0: int, Y: int, M: UChar, D: UChar): int
    requires y0 % 400 == 0
    requires Y >= 0
  {
    var offs := (Quot(y0, 400) - 1) * 146097;
    if M <= 1 then offs + D + M * 31 + WholeYears(Y + 399)
    else offs + D + LateMonths(M) + WholeYears(Y + 400)
  }

  /** Month and zero-based day that `dayInYear_` produces. */
  datatype InYear = InYear(month: int, day: int)

  /**
   * `dayInYear_(offs, isLY)`: splits a zero-based day of the year into a
   * zero-based month and day. `offs >> 5` estimates the month and one table
   * comparison corrects it; a day beyond the year yields the stored sentinels
   * month 15 and day 31.
   */
  function DayInYear_(offs: int, isLY: bool): (r: InYear)
    requires offs >= 0
    ensures offs >= MonthBegins(isLY)[12] ==> r == InYear(NOMONTH - 1, NODAY - 1)
    ensures offs < MonthBegins(isLY)[12] ==>
      && 0 <= r.month <= 11
      && Calendar.MonthStart(isLY, r.month + 1) + r.day == offs
      && 0 <= r.day < Calendar.MonthLength(isLY, r.month + 1)
  {
    var M := Wrap(Shr(offs, 32), TWO_8);
    var mB := MonthBegins(isLY);
    if offs >= mB[12] then InYear(NOMONTH - 1, NODAY - 1)
    else
      MonthSearch(offs, isLY);
      var M1 := if offs >= mB[M + 1] then M + 1 else M;
      MonthLengthFromTable(isLY, M1);
      InYear(M1, offs - mB[M1])
  }

  // ---------------------------------------------------------------------------
  // Lemmas

  /** `floor400(INT_MIN)`, the shift the static functions use: -2147484000. */
  lemma Floor400IntMin()
    ensures Floor400(INT_MIN) == -2147484000
  {
  }

  /** C++ `Y % 100` is zero exactly when 100 divides Y, for either sign of Y. */
  lemma RemZero(Y: int)
    ensures Rem(Y, 100) == 0 <==> Y % 100 == 0
  {
    if Y < 0 {
      var p := -Y;
      var q := p / 100;
      var s := p % 100;
      assert p == 100 * q + s;
      assert Rem(Y, 100) == -s;
      if s == 0 {
        assert Y == 100 * (-q);
      } else {
        assert Y == 100 * (-q - 1) + (100 - s);
      }
    } else {
      assert Y == 100 * (Y / 100) + Y % 100;
    }
  }

  /** Division by 16 with a known quotient and remainder. */
  lemma DivMod16(a: int, q: int, r: int)
    requires 0 <= r < 16 && a == 16 * q + r
    ensures a % 16 == r
  {
  }

  /** Division by 400 with a known quotient and remainder. */
  lemma DivMod400(a: int, q: int, r: int)
    requires 0 <= r < 400 && a == 400 * q + r
    ensures a % 400 == r
  {
  }

  /** Among multiples of 100, divisibility by 16 and by 400 coincide. */
  lemma Century16(k: int)
    ensures (100 * k) % 16 == 0 <==> k % 4 == 0
    ensures (100 * k) % 400 == 0 <==> k % 4 == 0
  {
    var q := k / 4;
    var s := k % 4;
    assert k == 4 * q + s;
    DivMod16(100 * k, 25 * q + 6 * s, 4 * s);
    DivMod400(100 * k, q, 100 * s);
  }

  /** The bitmask form is the Gregorian rule: 4 | Y, and 100 divides Y only if 16 does (with 4, 400 | Y). */
  lemma LeapMask(Y: int)
    ensures (LowBits(Y, 4) == 0 && (Rem(Y, 100) != 0 || LowBits(Y, 16) == 0)) <==> Calendar.IsLeap(Y)
  {
    RemZero(Y);
    if Y % 100 == 0 {
      var k := Y / 100;
      assert Y == 100 * k;
      Century16(k);
    }
  }

  /** Adding a multiple of n leaves the remainder modulo n unchanged. */
  lemma ModShift(a: int, k: int, n: int)
    requires n == 4 || n == 100 || n == 400
    ensures (a + n * k) % n == a % n
  {
    var q := a / n;
    var r := a % n;
    assert a == n * q + r;
    assert a + n * k == n * (q + k) + r;
    Calendar.RemainderOf(a + n * k, n, q + k, r);
  }

  /** Shifting a year by a multiple of 400 keeps its leap status. */
  lemma LeapPeriodic(Y: int, j: int)
    ensures Calendar.IsLeap(Y + 400 * j) <==> Calendar.IsLeap(Y)
  {
    ModShift(Y, 100 * j, 4);
    ModShift(Y, 4 * j, 100);
    ModShift(Y, j, 400);
  }

  /** The shifted whole-year term is the closed-form count of days in Y years. */
  lemma WholeYearsClosedForm(Y: int)
    requires Y >= 0
    ensures WholeYears(Y) == Calendar.YearsToDays(Y)
  {
    var c := Y / 100;
    assert Shr(3 * (c + 1), 4) == c - c / 4 by {
      assert c == 4 * (c / 4) + c % 4;
    }
    assert c / 4 == Y / 400 by {
      assert Y == 100 * c + Y % 100;
      assert Y == 400 * (c / 4) + (100 * (c % 4) + Y % 100);
    }
  }

  /** For March..December (and M == 12, January of the next year) the backward count is the common-year month start. */
  lemma LateMonthsValues(M: UChar)
    requires 2 <= M <= 12
    ensures LateMonths(M) + 365 == Calendar.MonthStart(false, M + 1)
  {
    Calendar.MonthStartValues(false);
  }

  /** The constant `offs` of `dayOffset_<y0>` moves the shifted year count back to the years before y0+Y. */
  lemma ShiftedYears(y0: int, Y1: int)
    requires y0 % 400 == 0 && Y1 >= 0
    ensures (Quot(y0, 400) - 1) * 146097 + WholeYears(Y1) == Calendar.YearsToDays(Y1 + y0 - 400)
  {
    var j := y0 / 400 - 1;
    assert Quot(y0, 400) == y0 / 400;
    WholeYearsClosedForm(Y1);
    Calendar.YearsToDaysPeriod(Y1, j);
    assert Y1 + 400 * j == Y1 + y0 - 400;
  }

  /** January and February: counted forward from the start of year y0+Y. */
  lemma DayOffset_CountsEarly(y0: int, Y: int, M: UChar, D: UChar)
    requires y0 % 400 == 0 && Y >= 0 && M <= 1
    ensures DayOffset_(y0, Y, M, D) == Calendar.DaysBefore(y0 + Y) + 31 * M + D
  {
    var offs := (Quot(y0, 400) - 1) * 146097;
    assert DayOffset_(y0, Y, M, D) == offs + WholeYears(Y + 399) + D + M * 31;
    ShiftedYears(y0, Y + 399);
    Calendar.DaysBeforeClosedForm(y0 + Y);
  }

  /** March to December (and month 12, the next January): counted back from the start of year y0+Y+1. */
  lemma DayOffset_CountsLate(y0: int, Y: int, M: UChar, D: UChar)
    requires y0 % 400 == 0 && Y >= 0 && 2 <= M
    ensures DayOffset_(y0, Y, M, D)
      == Calendar.DaysBefore(y0 + Y) + Calendar.YearLength(y0 + Y) + LateMonths(M) + D
  {
    var offs := (Quot(y0, 400) - 1) * 146097;
    assert DayOffset_(y0, Y, M, D) == offs + WholeYears(Y + 400) + D + LateMonths(M);
    ShiftedYears(y0, Y + 400);
    Calendar.DaysBeforeStep(y0 + Y);
    Calendar.DaysBeforeClosedForm(y0 + Y + 1);
  }

  /**
   * `dayOffset_<y0>(Y, M, D)` is the number of days from 0001-01-01 to
   * (y0+Y)-(M+1)-(D+1), for every zero-based month 0..12 and any day count D.
   */
  lemma DayOffset_Counts(y0: int, Y: int, M: UChar, D: UChar)
    requires y0 % 400 == 0 && Y >= 0 && M <= 12
    ensures DayOffset_(y0, Y, M, D)
      == Calendar.DaysBefore(y0 + Y) + Calendar.MonthStart(Calendar.IsLeap(y0 + Y), M + 1) + D
  {
    var leap := Calendar.IsLeap(y0 + Y);
    if M <= 1 {
      DayOffset_CountsEarly(y0, Y, M, D);
      assert Calendar.MonthStart(leap, M + 1) == 31 * M;
    } else {
      DayOffset_CountsLate(y0, Y, M, D);
      LateMonthsValues(M);
      assert Calendar.MonthStart(leap, M + 1) == Calendar.MonthStart(false, M + 1) + (if leap then 1 else 0) by {
        Calendar.MonthStartValues(leap);
        Calendar.MonthStartValues(false);
      }
    }
  }

  /** The day count anchor: `dayOffset_<0>(1, 0, 0) == 0`, i.e. 0001-01-01 is day 0. */
  lemma DayOffset_Epoch()
    ensures DayOffset_(0, 1, 0, 0) == 0
  {
    DayOffset_Counts(0, 1, 0, 0);
  }

  /** `dayOffset_<y0>(Y, 0, 0)` is the start of year y0+Y counted from 0001-01-01. */
  lemma DayOffset_YearStart(y0: int, Y: int)
    requires y0 % 400 == 0 && Y >= 0
    ensures DayOffset_(y0, Y, 0, 0) == Calendar.DaysBefore(y0 + Y)
  {
    DayOffset_Counts(y0, Y, 0, 0);
  }

  /** Consecutive year starts are one year length apart. */
  lemma DayOffset_YearStep(y0: int, Y: int)
    requires y0 % 400 == 0 && Y >= 0
    ensures DayOffset_(y0, Y + 1, 0, 0) - DayOffset_(y0, Y, 0, 0) == Calendar.YearLength(y0 + Y)
  {
    DayOffset_YearStart(y0, Y);
    DayOffset_YearStart(y0, Y + 1);
    Calendar.DaysBeforeStep(y0 + Y);
  }

  /** Within a year the offset is the year start plus the table's month start plus the day: no leap branch is needed. */
  lemma DayOffset_WithinYear(y0: int, Y: int, M: UChar, D: UChar)
    requires y0 % 400 == 0 && Y >= 0 && M <= 12
    ensures DayOffset_(y0, Y, M, D)
      == DayOffset_(y0, Y, 0, 0) + MonthBegins(IsLeapYear_(y0 + Y))[M] + D
  {
    DayOffset_Counts(y0, Y, M, D);
    DayOffset_Counts(y0, Y, 0, 0);
  }

  /**
   * A month argument past December counts on into the next year: M = 12..15
   * lands 0, 30, 61 or 91 days after January 1 of year y0 + Y + 1, so the
   * three extra months are 30, 31 and 30 days long.
   */
  lemma DayOffset_PastDecember(y0: int, Y: int, M: UChar, D: UChar)
    requires y0 % 400 == 0 && Y >= 0 && 12 <= M <= 15
    ensures DayOffset_(y0, Y, M, D) == DayOffset_(y0, Y + 1, 0, D) + [0, 30, 61, 91][M - 12]
  {
  }

  /** 400 years later is exactly 146097 days later, whatever the month and day arguments. */
  lemma DayOffset_Period(y0: int, Y: int, M: UChar, D: UChar)
    requires y0 % 400 == 0 && Y >= 0
    ensures DayOffset_(y0, Y + 400, M, D) == DayOffset_(y0, Y, M, D) + 146097
  {
    var Y1 := if M <= 1 then Y + 399 else Y + 400;
    WholeYearsClosedForm(Y1);
    WholeYearsClosedForm(Y1 + 400);
    Calendar.YearsToDaysPeriod(Y1, 1);
  }

  /** Within the year, `offs >> 5` is a month whose start is not after offs, and the month after it ends after offs. */
  lemma MonthSearch(offs: int, isLY: bool)
    requires 0 <= offs < MonthBegins(isLY)[12]
    ensures var M := offs / 32; var mB := MonthBegins(isLY);
      0 <= M <= 11 && mB[M] <= offs && (M <= 10 ==> offs < mB[M + 2])
  {
    Calendar.MonthStartValues(isLY);
  }

  /** Consecutive table entries are a month length apart. */
  lemma MonthLengthFromTable(isLY: bool, M: int)
    requires 0 <= M <= 11
    ensures MonthBegins(isLY)[M + 1] - MonthBegins(isLY)[M] == Calendar.MonthLength(isLY, M + 1)
  {
  }

  /** A day of the year has one month and day: month starts never overlap. */
  lemma InYearUnique(isLY: bool, M1: int, D1: int, M2: int, D2: int)
    requires 0 <= M1 <= 11 && 0 <= D1 < Calendar.MonthLength(isLY, M1 + 1)
    requires 0 <= M2 <= 11 && 0 <= D2 < Calendar.MonthLength(isLY, M2 + 1)
    requires Calendar.MonthStart(isLY, M1 + 1) + D1 == Calendar.MonthStart(isLY, M2 + 1) + D2
    ensures M1 == M2 && D1 == D2
  {
    if M1 < M2 {
      Calendar.MonthStartMonotone(isLY, M1 + 1, M2 + 1);
    } else if M2 < M1 {
      Calendar.MonthStartMonotone(isLY, M2 + 1, M1 + 1);
    }
  }

  /** A split that satisfies the contract of `dayInYear_` for the day of (M, D) is (M, D). */
  lemma SplitUnique(isLY: bool, r: InYear, M: int, D: int)
    requires 0 <= r.month <= 11 && 0 <= r.day < Calendar.MonthLength(isLY, r.month + 1)
    requires 0 <= M <= 11 && 0 <= D < Calendar.MonthLength(isLY, M + 1)
    requires Calendar.MonthStart(isLY, r.month + 1) + r.day == Calendar.MonthStart(isLY, M + 1) + D
    ensures r == InYear(M, D)
  {
    InYearUnique(isLY, r.month, r.day, M, D);
  }

  /** `dayInYear_` inverts the month-start table: it recovers the month and day a day-in-year was built from. */
  lemma DayInYear_RoundTrip(isLY: bool, M: int, D: int)
    requires 0 <= M <= 11 && 0 <= D < Calendar.MonthLength(isLY, M + 1)
    ensures var r := DayInYear_(Calendar.MonthStart(isLY, M + 1) + D, isLY); r.month == M && r.day == D
  {
    var offs := Calendar.MonthStart(isLY, M + 1) + D;
    assert offs < MonthBegins(isLY)[12] by { Calendar.MonthStartMonotone(isLY, M + 1, 13); }
    var r := DayInYear_(offs, isLY);
    assert 0 <= r.month <= 11 && Calendar.MonthStart(isLY, r.month + 1) + r.day == offs
      && 0 <= r.day < Calendar.MonthLength(isLY, r.month + 1);
    SplitUnique(isLY, r, M, D);
  }
}
