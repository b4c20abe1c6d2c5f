/**
 * Corrected calendar members of DateTime: the definitions the documentation
 * and the class invariant call for where src/UtilLib/DateTime.h and
 * src/UtilLib/DateTime.cpp compute something else. Each corrected member
 * carries the intended property, and a counterexample lemma next to it shows
 * the as-written member on an input where the two differ.
 */
module Corrected {
  import opened CInt
  import Calendar
  import opened DateTimeBase
  import opened DateTimeLimits
  import opened DateTimeFields
  import opened DateTimeCtor
  import Setters = DateTimeSetters
  import Static = DateTimeStatic
  import Q = DateTimeQueries

  // ---------------------------------------------------------------------------
  // Lengths

  /** Static `yearLength(Y)` as intended: the sum of the twelve month lengths, 365 or 366. */
  function YearLength(Y: Int): (n: UShort)
    ensures n == Calendar.MonthStart(Calendar.IsLeap(Y), 13)
  {
    Static.IsLeapYearGregorian(Y);
    Calendar.MonthStartValues(Calendar.IsLeap(Y));
    if Static.IsLeapYear(Y) then 366 else 365
  }

  /** The corrected year length is the distance between consecutive New Year's days. */
  lemma YearLengthSpansYear(Y: Int)
    requires Y < 0x7FFF_FFFF
    ensures Static.DayOffset(Y + 1, 1, 1) - Static.DayOffset(Y, 1, 1) == YearLength(Y)
  {
    Calendar.DaysBeforeStep(Y);
    Calendar.MonthStartValues(Calendar.IsLeap(Y));
  }

  /** As written, a common year is 355 days long although 2019 and 2020 begin 365 days apart. */
  lemma YearLengthAsWritten()
    ensures Static.YearLength(2019) == 355 && YearLength(2019) == 365
    ensures Static.DayOffset(2020, 1, 1) - Static.DayOffset(2019, 1, 1) == 365
  {
    YearLengthSpansYear(2019);
  }

  /** Member `monthLength()` as intended: the static `monthLength(year(), month())`. */
  function MonthLength(x: DateTime): (n: UChar)
    ensures n == Calendar.MonthLength(Calendar.IsLeap(Year(x)), Month(x))
    ensures Proper(x) && HasDay(x) ==> x.d < n
  {
    Static.MonthLength(Year(x), Month(x))
  }

  /** Outside February, and in February when Year(x) and the next year agree on leap status, the as-written member is right. */
  lemma MonthLengthAgrees(x: DateTime)
    requires Month(x) != 2 || (Calendar.IsLeap(Year(x)) <==> Calendar.IsLeap(Year(x) + 1))
    ensures DateTimeFields.MonthLength(x) == MonthLength(x)
  {
  }

  /** As written, February 2020 has 28 days and February 2019 has 29. */
  lemma MonthLengthAsWritten()
    ensures DateTimeFields.MonthLength(Make(2020, 2, 1, NOTIME)) == 28 && MonthLength(Make(2020, 2, 1, NOTIME)) == 29
    ensures DateTimeFields.MonthLength(Make(2019, 2, 1, NOTIME)) == 29 && MonthLength(Make(2019, 2, 1, NOTIME)) == 28
  {
  }

  // ---------------------------------------------------------------------------
  // Setters

  /** `set(Y, M, D)` as intended: the constructor's cascade applied to the date, the time kept. */
  function SetYMD(x: DateTime, Y: Int, M: UChar, D: UChar): (r: Setters.Updated)
    ensures r.ok <==> minYear <= Y <= maxYear && Calendar.ValidDate(Y, M, D)
    ensures r.x == Make(Y, M, D, NOTIME).(t := x.t)
  {
    if Y < minYear || Y > maxYear then Setters.Updated(WithNoYear(x), false)
    else
      var x1 := x.(y := Setters.StoredYear(Y));
      if Wrap(M - 1, TWO_8) >= 12 then Setters.Updated(WithNoMonth(x1), false)
      else
        var x2 := x1.(m := M - 1);
        if Wrap(D - 1, TWO_8) >= MonthLength(x2) then Setters.Updated(WithNoDay(x2), false)
        else Setters.Updated(x2.(d := D - 1), true)
  }

  /** As written, `set(2020, 2, 29)` fails and `set(2019, 2, 29)` succeeds. */
  lemma SetYMDAsWritten(x: DateTime)
    ensures !Setters.SetYMD(x, 2020, 2, 29).ok && SetYMD(x, 2020, 2, 29).ok
    ensures Setters.SetYMD(x, 2019, 2, 29).ok && !SetYMD(x, 2019, 2, 29).ok
  {
  }

  /** `day(D)` as intended: D must lie in the month of the stored year and month. */
  function SetDay(x: DateTime, D: UChar): (r: Setters.Updated)
    ensures r.ok <==> HasMonth(x) && 1 <= D <= Calendar.MonthLength(Calendar.IsLeap(Year(x)), Month(x))
    ensures r.x.y == x.y && r.x.m == x.m && r.x.t == x.t
    ensures r.ok ==> Day(r.x) == D
    ensures !r.ok ==> !HasDay(r.x)
  {
    if x.m == NA_MONTH || Wrap(D - 1, TWO_8) >= MonthLength(x) then Setters.Updated(WithNoDay(x), false)
    else Setters.Updated(x.(d := D - 1), true)
  }

  /** With year and month set, `day(D)` is `set(year(), month(), D)`. */
  lemma SetDayLikeSet(x: DateTime, D: UChar)
    requires HasYear(x) && x.m <= 11
    ensures SetDay(x, D) == SetYMD(x, Year(x), Month(x), D)
  {
  }

  /** As written, `day(29)` fails in February 2020. */
  lemma SetDayAsWritten()
    ensures !Setters.SetDay(Make(2020, 2, 1, NOTIME), 29).ok && SetDay(Make(2020, 2, 1, NOTIME), 29).ok
  {
  }

  /** `dayInYear()` as intended: the one-based day of the year, 0 when the day is n/a. */
  function DayInYear(x: DateTime): (r: UShort)
    ensures !HasDay(x) ==> r == 0
    ensures HasDay(x) && x.m <= 11 ==> r == DateTimeFields.DayInYear(x)
    ensures Proper(x) && HasDay(x) ==> (1 <= r <= DateTimeFields.YearLength(x)
      && DateTimeFields.DayOffset(x) == Calendar.DaysBefore(Year(x)) + r - 1)
  {
    if x.d == NA_DAY then 0
    else if Proper(x) then
      DayInYearRange(x);
      DateTimeFields.DayInYear(x)
    else DateTimeFields.DayInYear(x)
  }

  /** As written, the default-constructed value reports day 489 of its year. */
  lemma DayInYearAsWritten()
    ensures DateTimeFields.DayInYear(DateTimeCtor.Empty()) == 489 && DayInYear(DateTimeCtor.Empty()) == 0
  {
  }

  /** `dayInYear(dY)` as intended: dY is one-based like the getter. */
  function SetDayInYear(x: DateTime, dY: UShort): (r: Setters.Updated)
    ensures !HasYear(x) ==> r == Setters.Updated(x, false)
    ensures HasYear(x) ==> (r.ok <==> 1 <= dY <= DateTimeFields.YearLength(x))
    ensures r.x.y == x.y && r.x.t == x.t
    ensures Proper(x) ==> Proper(r.x)
  {
    if x.y == NOYEAR then Setters.Updated(x, false)
    else if dY == 0 then Setters.Updated(WithNoMonth(x), false)
    else Setters.SetDayInYear(x, dY - 1)
  }

  /** Reading back the day of the year just set gives the day that was set. */
  lemma SetThenGetDayInYear(x: DateTime, dY: UShort)
    requires Proper(x)
    ensures SetDayInYear(x, dY).ok ==> DayInYear(SetDayInYear(x, dY).x) == dY
  {
    if HasYear(x) && dY != 0 {
      Setters.SetDayInYearReads(x, dY - 1);
    }
  }

  /** Setting the day of the year that the getter reports gives back the same value. */
  lemma DayInYearRoundTrip(x: DateTime)
    requires Proper(x) && HasDay(x)
    ensures SetDayInYear(x, DayInYear(x)) == Setters.Updated(x, true)
  {
    IsLeapYearMember(x);
    SetDayInYearOf(x, DayInYear(x));
  }

  /** The intended setter given the one-based day of month x.m, x.d: the as-written setter one day earlier. */
  lemma SetDayInYearOf(x: DateTime, dY: UShort)
    requires HasYear(x) && HasDay(x) && x.m <= 11
    requires x.d < Calendar.MonthLength(IsLeapYear_(x.y), x.m + 1)
    requires dY == Calendar.MonthStart(IsLeapYear_(x.y), x.m + 1) + x.d + 1
    ensures SetDayInYear(x, dY) == Setters.Updated(x, true)
  {
    assert SetDayInYear(x, dY) == Setters.SetDayInYear(x, dY - 1);
    SetDayInYearSplit(x, dY - 1);
  }

  /** The as-written setter, given the zero-based day of month x.m, x.d, stores that month and day. */
  lemma SetDayInYearSplit(x: DateTime, offs: UShort)
    requires HasYear(x) && HasDay(x) && x.m <= 11
    requires x.d < Calendar.MonthLength(IsLeapYear_(x.y), x.m + 1)
    requires offs == Calendar.MonthStart(IsLeapYear_(x.y), x.m + 1) + x.d
    ensures Setters.SetDayInYear(x, offs) == Setters.Updated(x, true)
  {
    DayInYear_RoundTrip(IsLeapYear_(x.y), x.m, x.d);
    var split := DayInYear_(offs, IsLeapYear_(x.y));
    assert split == InYear(x.m, x.d);
    assert x.(m := split.month, d := split.day) == x;
  }

  /** As written, storing the day the getter reports moves January 1 to January 2. */
  lemma SetDayInYearAsWritten()
    ensures var x := DateTime(0, 0, 0, 0);
      DayInYear(x) == 1 && Setters.SetDayInYear(x, 1).x == x.(d := 1) && SetDayInYear(x, 1).x == x
  {
    DayInYearRoundTrip(DateTime(0, 0, 0, 0));
  }

  /** `DateTime()` as intended: every date unit n/a. */
  function Empty(): (r: DateTime)
    ensures !HasYear(r) && !HasMonth(r) && !HasDay(r) && !HasTime(r)
    ensures Proper(r)
  {
    AllNA
  }

  /** The intended empty value sorts after every value that has a year. */
  lemma EmptySortsLast(x: DateTime)
    requires HasYear(x)
    ensures Q.Less(x, Empty())
  {
    WordOrder(x, Empty());
  }

  /** As written, the default value is year 255 and sorts before January 1, 256. */
  lemma EmptyAsWritten()
    ensures HasYear(DateTimeCtor.Empty()) && Year(DateTimeCtor.Empty()) == 255
    ensures Q.Less(DateTimeCtor.Empty(), Make(256, 1, 1, NOTIME))
  {
    WordOrder(DateTimeCtor.Empty(), Make(256, 1, 1, NOTIME));
  }

  // ---------------------------------------------------------------------------
  // Queries

  /** `isMonthFirst()` as intended: the day is the first of its month. */
  function IsMonthFirst(x: DateTime): (b: bool)
    ensures b <==> HasDay(x) && Day(x) == 1
  {
    x.d == 0
  }

  /** A date is the first of its month exactly when `monthFirst()` leaves it unchanged apart from the time. */
  lemma IsMonthFirstMeansFixed(x: DateTime)
    requires Cascade(x) && HasDay(x)
    ensures IsMonthFirst(x) <==> MonthFirst(x) == x.(t := 0)
  {
  }

  /** As written, every day of January counts as the first of a month. */
  lemma IsMonthFirstAsWritten()
    ensures Q.IsMonthFirst(Make(2020, 1, 15, NOTIME)) && !IsMonthFirst(Make(2020, 1, 15, NOTIME))
  {
  }

  /** `isMonthLast()` as intended, with the month length of the stored year. */
  function IsMonthLast(x: DateTime): (b: bool)
    ensures b <==> (HasDay(x) && HasMonth(x)
      && Day(x) == Calendar.MonthLength(Calendar.IsLeap(Year(x)), Month(x)))
  {
    x.d + 1 == MonthLength(x)
  }

  /** `monthLast()` as intended: the last day of the month with the time unset; an n/a month only unsets the time. */
  function MonthLast(x: DateTime): (r: DateTime)
    ensures !HasTime(r)
    ensures HasMonth(x) && x.m <= 11 ==> (r.y == x.y && r.m == x.m
      && Day(r) == Calendar.MonthLength(Calendar.IsLeap(Year(x)), Month(x)))
    ensures !HasMonth(x) ==> r == x.(t := 0)
    ensures Proper(x) ==> Proper(r)
  {
    var ml := MonthLength(x);
    if ml == 0 then x.(t := 0) else x.(d := ml - 1, t := 0)
  }

  /** A date is the last of its month exactly when `monthLast()` leaves it unchanged apart from the time. */
  lemma IsMonthLastMeansFixed(x: DateTime)
    requires Proper(x) && HasDay(x)
    ensures IsMonthLast(x) <==> MonthLast(x) == x.(t := 0)
  {
  }

  /**
   * As written, February 29, 2020 is not the last of its month, and
   * `monthLast()` of an n/a month yields May 6 of year -367475 instead of the
   * value itself.
   */
  lemma MonthLastAsWritten()
    ensures !Q.IsMonthLast(Make(2020, 2, 29, NOTIME)) && IsMonthLast(Make(2020, 2, 29, NOTIME))
    ensures var x := Make(2020, 13, 1, NOTIME);
      HasYear(x) && Q.MonthLast(x) == Make(-367475, 5, 6, NOTIME) && MonthLast(x) == x
  {
  }

  /**
   * `monthFirst()` as documented (DateTime.h:108-113): the masked word kept as
   * the value, which is day 1 of the month with the time unset; an n/a month
   * only unsets the time.
   */
  function MonthFirst(x: DateTime): (r: DateTime)
    ensures !HasTime(r)
    ensures HasMonth(x) ==> r.y == x.y && r.m == x.m && Day(r) == 1
    ensures !HasMonth(x) ==> r == x.(t := 0)
    ensures Proper(x) ==> Proper(r)
  {
    Q.MonthFirstWord(x)
  }

  /** `yearFirst()` as documented: January 1 of the year with the time unset; an n/a year only unsets the time. */
  function YearFirst(x: DateTime): (r: DateTime)
    ensures HasYear(x) ==> Year(r) == Year(x) && Month(r) == 1 && Day(r) == 1 && !HasTime(r)
    ensures !HasYear(x) ==> r == x.(t := 0)
    ensures Proper(x) ==> Proper(r)
  {
    Q.YearFirstWord(x)
  }

  /** `yearLast()` as documented: December 31 of the year with the time unset; an n/a year only unsets the time. */
  function YearLast(x: DateTime): (r: DateTime)
    ensures HasYear(x) ==> Year(r) == Year(x) && Month(r) == 12 && Day(r) == 31 && !HasTime(r)
    ensures !HasYear(x) ==> r == x.(t := 0)
    ensures Proper(x) ==> Proper(r)
  {
    if x.y != NOYEAR then Q.YearLastWord(x) else x.(t := 0)
  }

  /** The derived dates of a valid date stay in its month or year and are ordered by day. */
  lemma FirstLastInRange(x: DateTime)
    requires Proper(x) && HasDay(x)
    ensures Proper(MonthFirst(x)) && Proper(MonthLast(x)) && Proper(YearFirst(x)) && Proper(YearLast(x))
    ensures var f, l := MonthFirst(x), MonthLast(x);
      && DateTimeFields.DayOffset(YearFirst(x)) <= DateTimeFields.DayOffset(f) <= DateTimeFields.DayOffset(x)
      && DateTimeFields.DayOffset(x) <= DateTimeFields.DayOffset(l) <= DateTimeFields.DayOffset(YearLast(x))
  {
    var isLY := Calendar.IsLeap(Year(x));
    Calendar.MonthStartValues(isLY);
    Calendar.MonthStartMonotone(isLY, Month(x), 13);
    if Month(x) < 12 {
      Calendar.MonthStartMonotone(isLY, Month(x) + 1, 13);
    }
  }

  /**
   * The as-written members are the offset constructor applied to the words of
   * the intended results; under the cascade, n/a units included.
   */
  lemma FirstLastDecodeIntended(x: DateTime)
    requires Cascade(x)
    ensures Q.MonthFirst(x) == Q.FromWord(MonthFirst(x))
    ensures Q.YearFirst(x) == Q.FromWord(YearFirst(x))
    ensures Q.YearLast(x) == Q.FromWord(YearLast(x))
  {
  }

  /**
   * As written, every valid date from stored year 1 on has all four derived
   * dates equal to the default value, which has no day.
   */
  lemma FirstLastAsWritten(x: DateTime)
    requires Proper(x) && HasDay(x) && x.y >= 1
    ensures Q.MonthFirst(x) == DateTimeCtor.Empty() && HasDay(MonthFirst(x))
    ensures Q.MonthLast(x) == DateTimeCtor.Empty() && HasDay(MonthLast(x))
    ensures Q.YearFirst(x) == DateTimeCtor.Empty() && HasDay(YearFirst(x))
    ensures Q.YearLast(x) == DateTimeCtor.Empty() && HasDay(YearLast(x))
  {
  }

  /** As written, `yearFirst()` of a date in minYear is 0001-01-01 instead of minDate(). */
  lemma YearFirstOfMinYearAsWritten(x: DateTime)
    requires Proper(x) && HasDay(x) && Year(x) == minYear
    ensures Q.YearFirst(x) == Make(1, 1, 1, NOTIME) && YearFirst(x) == MinDate()
  {
    assert x.y == 0;
    WordOrder(YearFirst(x), MinDate());
  }

  /** As written, all four derived dates of a value with every date unit n/a are May 6 of year -367475. */
  lemma FirstLastOfNoDateAsWritten(x: DateTime)
    requires x.y == NOYEAR && x.m == NA_MONTH && x.d == NA_DAY
    ensures Q.MonthFirst(x) == Q.MonthLast(x) == Make(-367475, 5, 6, NOTIME)
    ensures Q.YearFirst(x) == Q.YearLast(x) == Make(-367475, 5, 6, NOTIME)
    ensures MonthFirst(x) == MonthLast(x) == YearFirst(x) == YearLast(x) == x.(t := 0)
  {
  }

  /** `year()` as the header documents the getters (DateTime.h:72): NOYEAR for an n/a year. */
  function YearOrNoYear(x: DateTime): (r: Int)
    ensures HasYear(x) ==> r == Year(x)
    ensures r == NOYEAR <==> !HasYear(x)
  {
    if x.y == NOYEAR then NOYEAR else Year(x)
  }

  /** As written, `year()` of an n/a year is maxYear + 1, which is not NOYEAR. */
  lemma YearAsWritten()
    ensures Year(AllNA) == maxYear + 1 && maxYear + 1 != NOYEAR
    ensures YearOrNoYear(AllNA) == NOYEAR
  {
  }

  /** `weekday()` as intended: Sunday == 1 .. Saturday == 7, from the Euclidean remainder of the day offset. */
  function Weekday(x: DateTime): (r: UChar)
    ensures !HasDay(x) ==> r == NODAY
    ensures HasDay(x) ==> 1 <= r <= 7
  {
    if x.d == NA_DAY then NODAY else (DateTimeFields.DayOffset(x) + 1) % 7 + 1
  }

  /** From stored year 1 on the as-written weekday is the intended one. */
  lemma WeekdayAgrees(x: DateTime)
    requires HasDay(x) && x.y >= 1
    ensures Q.Weekday(x) == Weekday(x)
  {
  }

  /** January 1, 2000 was a Saturday and 0001-01-01 a Monday. */
  lemma WeekdayAnchors()
    ensures Weekday(Make(2000, 1, 1, NOTIME)) == 7 && Weekday(Make(1, 1, 1, NOTIME)) == 2
  {
    Q.WeekdayExamples();
  }

  /** As written, December 30 of minYear yields weekday 0, which names no day; it was a Saturday. */
  lemma WeekdayAsWritten()
    ensures Q.Weekday(Make(minYear, 12, 30, NOTIME)) == 0
    ensures Weekday(Make(minYear, 12, 30, NOTIME)) == 7
  {
    var x := Make(minYear, 12, 30, NOTIME);
    Q.WeekdayShift(x);
    assert DayOffset_(0, 0, 11, 29) == -2;
  }

  // ---------------------------------------------------------------------------
  // Static day offset

  /** Static `dayOffset(Y, M, D)` as intended: NODAYOFFSET for every invalid date, day 0 included. */
  function DayOffset(Y: Int, M: UChar, D: UChar): (r: Int64)
    ensures r != NODAYOFFSET <==> Calendar.ValidDate(Y, M, D)
    ensures Calendar.ValidDate(Y, M, D) ==> r == Calendar.DayNumber(Y, M, D)
  {
    if D == 0 || D > Static.MonthLength(Y, M) then NODAYOFFSET
    else
      Static.DayNumberBelowSentinel(Y, M, D);
      Static.DayOffset(Y, M, D)
  }

  /** As written, day 0 of March 2020 is accepted and names the day 255 days after March 1. */
  lemma DayOffsetAsWritten()
    ensures Static.DayOffset(2020, 3, 0) == Static.DayOffset(2020, 3, 1) + 255
    ensures DayOffset(2020, 3, 0) == NODAYOFFSET
  {
  }
}
