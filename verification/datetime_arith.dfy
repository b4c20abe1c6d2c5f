/**
 * Day arithmetic of DateTime (src/UtilLib/DateTime.cpp:243-307): `+=` and
 * `-=` by a number of days, prefix `++` and `--`, and the difference of two
 * dates. The copying operators `+`, `-` and postfix `++`, `--` apply these to
 * a copy. Where the C++ code has undefined behaviour (a table read out of
 * bounds, signed overflow) the result is `Undefined`.
 */
module DateTimeArith {
  import opened CInt
  import Calendar
  import opened DateTimeBase
  import opened DateTimeLimits
  import opened DateTimeFields
  import opened DateTimeCtor
  import opened DateTimeSetters

  /** The result of a computation that may reach undefined behaviour in C++. */
  datatype Outcome<T> = Defined(value: T) | Undefined

  /** The member `monthLength()` is right for x: its month is not February, or Year(x) and Year(x) + 1 agree on leap status. */
  predicate LengthAgrees(x: DateTime)
  {
    Month(x) != 2 || (Calendar.IsLeap(Year(x)) <==> Calendar.IsLeap(Year(x) + 1))
  }

  /** The stored fields of x name the calendar date (Y, M, D). */
  predicate IsDate(x: DateTime, Y: int, M: int, D: int)
  {
    HasDay(x) && Year(x) == Y && Month(x) == M && Day(x) == D
  }

  // ---------------------------------------------------------------------------
  // ++ and --

  /**
   * Prefix `++` as written. The guard `D == NODAY` compares with 32 and never
   * holds. The day advances while `D < 27` or `D < monthLength() - 1`, the
   * latter converted to `unsigned int`, so for an n/a month (length 0) the
   * bound is UINT_MAX and the day field wraps from 31 to 0. Past December the
   * year advances; reaching NOYEAR ORs in `INVALID`, after which the month is
   * still set to January.
   */
  function Increment(x: DateTime): (r: DateTime)
    ensures r.t == x.t
    ensures !HasMonth(x) && !HasDay(x) ==> r == x.(d := 0)
    ensures HasYear(x) && !HasYear(r) ==> r.m == 0 && r.d == NA_DAY
  {
    var D := x.d;
    if D == NODAY then x
    else if D < 27 || D < Wrap(MonthLength(x) - 1, TWO_32) then x.(d := Wrap(D + 1, TWO_5))
    else
      var m := Wrap(x.m + 1, TWO_4);
      if m < 12 then x.(d := 0, m := m)
      else
        var y := Wrap(x.y + 1, TWO_28);
        var z := x.(y := y, m := m, d := 0);
        (if y == NOYEAR then WithNoYear(z) else z).(m := 0)
  }

  /**
   * Prefix `--` as written. The guard `D == NODAY` never holds, so an n/a day
   * becomes day 31 (field 30). On the first of a month the month steps back
   * and the day becomes `monthLength() - 1` of the new month, through
   * `unsigned char` into the 5-bit field. On January 1 of the first stored
   * year every date unit becomes n/a.
   */
  function Decrement(x: DateTime): (r: DateTime)
    ensures r.t == x.t
    ensures !HasDay(x) ==> r == x.(d := 30)
    ensures x.y == 0 && x.m == 0 && x.d == 0 ==> r == WithNoYear(x)
    ensures Cascade(x) && HasDay(x) ==> Cascade(r)
  {
    var D := x.d;
    if D == NODAY then x
    else if D != 0 then x.(d := D - 1)
    else if x.m != 0 then
      var z := x.(m := x.m - 1);
      z.(d := Wrap(Wrap(MonthLength(z) - 1, TWO_8), TWO_5))
    else if x.y == 0 then WithNoYear(x)
    else x.(y := x.y - 1, m := 11, d := 30)
  }

  // ---------------------------------------------------------------------------
  // += and -=

  /** `operator-=(dt)` as written: it returns `*this` unchanged. */
  function SubAssign(x: DateTime, dt: Int64): (r: DateTime)
    ensures r == x
  {
    x
  }

  /**
   * The in-year shortcut of `+=` (DateTime.cpp:247-262): the day of the year
   * `dt + d + monthBegins[m]` is split with `dt2 >> 5` and one table
   * comparison, the same split `dayInYear_` performs.
   */
  function AddWithinYear(x: DateTime, dt2: int): (r: DateTime)
    requires 0 <= dt2 < MonthBegins(IsLeapYear_(x.y))[12]
    ensures r.y == x.y && r.t == x.t && HasMonth(r) && HasDay(r)
    ensures r.m <= 11 && MonthBegins(IsLeapYear_(x.y))[r.m] + r.d == dt2
    ensures Proper(x) && HasYear(x) ==> Proper(r)
  {
    var split := DayInYear_(dt2, IsLeapYear_(x.y));
    var r := x.(m := split.month, d := split.day);
    IsLeapYearMember(r);
    r
  }

  /**
   * `operator+=(dt)` as written. A negative dt goes to the no-op `-=`, except
   * INT64_MIN, whose negation overflows. The guard `d == NODAY` never holds.
   * For dt < 366 the shortcut reads `monthBegins[m]`, out of bounds for
   * m >= 13, and is taken when the sum stays in the year; otherwise the date is
   * rebuilt from `dayOffset() + dt`, which overflows for an n/a day
   * (NODAYOFFSET), is the n/a date beyond maxDayOffset, and goes through the
   * setter `dayOffset(dt)`, which unsets the time.
   */
  function AddAssign(x: DateTime, dt: Int64): (r: Outcome<DateTime>)
    ensures dt < 0 && dt != -TWO_63 ==> r == Defined(x)
    ensures dt == -TWO_63 ==> r == Undefined
    ensures r.Defined? && r.value.y != x.y ==> !HasTime(r.value)
    ensures dt >= 0 && !HasMonth(x) && !HasDay(x) && dt <= maxDayOffset - minDayOffset ==> r == Undefined
    ensures 0 <= dt < 366 && x.m > 12 ==> r == Undefined
    ensures dt > maxDayOffset - minDayOffset ==> r == Defined(AllNA)
    ensures dt >= 366 && r.Defined? ==> !HasTime(r.value)
  {
    if dt < 0 then (if dt == -TWO_63 then Undefined else Defined(SubAssign(x, -dt)))
    else if x.d == NODAY then Defined(x)
    else if dt < 366 && x.m > 12 then Undefined
    else
      var isLY := IsLeapYear_(x.y);
      var mB := MonthBegins(isLY);
      if dt < 366 && dt + x.d + mB[x.m] < mB[12] then Defined(AddWithinYear(x, dt + x.d + mB[x.m]))
      else Rebuild(x, dt)
  }

  /**
   * The long path of `+=` (DateTime.cpp:263-265): the n/a date when dt alone
   * passes the offset range, otherwise the setter `dayOffset(dayOffset() + dt)`,
   * whose sum overflows for an n/a day (NODAYOFFSET) and which gives the n/a
   * date beyond maxDayOffset. Either way the time ends up unset.
   */
  function Rebuild(x: DateTime, dt: Int64): (r: Outcome<DateTime>)
    requires dt >= 0
    ensures dt > maxDayOffset - minDayOffset ==> r == Defined(AllNA)
    ensures HasDay(x) ==> r.Defined?
    ensures HasDay(x) && DayOffset(x) + dt > maxDayOffset ==> r == Defined(AllNA)
    ensures r.Defined? ==> !HasTime(r.value) && (HasDay(r.value) || !HasMonth(r.value))
    ensures r.Defined? && HasDay(r.value) ==>
      HasDay(x) && r.value.m <= 11
      && r.value.d < Calendar.MonthLength(Calendar.IsLeap(Year(r.value)), Month(r.value))
      && DayOffset(r.value) == DayOffset(x) + dt
  {
    DayOffsetBounds(x);
    if dt > maxDayOffset - minDayOffset then Defined(AllNA)
    else if dt + DayOffset(x) > INT64_MAX then Undefined
    else if dt + DayOffset(x) > maxDayOffset then Defined(AllNA)
    else Defined(SetDayOffset(x, dt + DayOffset(x)).x)
  }

  /**
   * `operator-(const DateTime&)`: `dayOffset() - DT.dayOffset()`, undefined
   * when the int64 subtraction overflows (an n/a day on one side only).
   */
  function Difference(a: DateTime, b: DateTime): (r: Outcome<Int64>)
    ensures HasDay(a) && HasDay(b) ==> r == Defined(DayOffset(a) - DayOffset(b))
    ensures !HasDay(a) && !HasDay(b) ==> r == Defined(0)
    ensures !HasDay(a) && HasDay(b) ==> (r == Undefined <==> DayOffset(b) < 0)
    ensures !HasDay(a) && HasDay(b) && DayOffset(b) >= 0 ==> r == Defined(NODAYOFFSET - DayOffset(b))
    ensures HasDay(a) && !HasDay(b) ==> (r == Undefined <==> DayOffset(a) < -1)
    ensures HasDay(a) && !HasDay(b) && DayOffset(a) >= -1 ==> r == Defined(DayOffset(a) - NODAYOFFSET)
  {
    DayOffsetBounds(a);
    DayOffsetBounds(b);
    var diff := DayOffset(a) - DayOffset(b);
    if -TWO_63 <= diff < TWO_63 then Defined(diff) else Undefined
  }

  // ---------------------------------------------------------------------------
  // Lemmas

  /** The difference of two dates whose offsets are k apart is k. */
  lemma DifferenceOfOffsets(a: DateTime, b: DateTime, k: int)
    requires HasDay(a) && HasDay(b)
    requires DayOffset(a) == DayOffset(b) + k
    ensures Difference(a, b) == Defined(k)
  {
  }

  /** Every day offset, n/a or not, fits in int64. */
  lemma DayOffsetBounds(x: DateTime)
    ensures -TWO_63 <= DayOffset(x) < TWO_63
    ensures HasDay(x) ==> -TWO_63 / 2 < DayOffset(x) < TWO_63 / 2
  {
    if HasDay(x) {
      var s: int := x.y;
      var k := Quot(minYear, 400) - 1;
      WholeYearsClosedForm(s + 400);
      WholeYearsClosedForm(s + 399);
      Calendar.YearsToDaysBounds(s + 400);
      Calendar.YearsToDaysBounds(s + 399);
      LateMonthsBounds(x.m);
    }
  }

  /** The month part of `dayOffset_` stays small for any 4-bit month. */
  lemma LateMonthsBounds(M: int)
    requires 0 <= M < 16
    ensures -400 <= LateMonths(M) <= 400
  {
  }

  /** The stored fields `++` produces on a valid date below maxYear whose member month length is right. */
  lemma IncrementFields(x: DateTime)
    requires Proper(x) && HasDay(x) && LengthAgrees(x) && Year(x) < maxYear
    ensures var L := Calendar.MonthLength(Calendar.IsLeap(Year(x)), Month(x));
      Increment(x) ==
        if Day(x) < L then x.(d := x.d + 1)
        else if Month(x) < 12 then x.(d := 0, m := x.m + 1)
        else x.(y := x.y + 1, m := 0, d := 0)
  {
    assert MonthLength(x) == Calendar.MonthLength(Calendar.IsLeap(Year(x)), Month(x));
  }

  /** On a valid date whose member month length is right, `++` yields the next calendar day, one day offset later. */
  lemma IncrementIsNextDay(x: DateTime)
    requires Proper(x) && HasDay(x) && LengthAgrees(x) && Year(x) < maxYear
    ensures var (Y, M, D) := Calendar.NextDate(Year(x), Month(x), Day(x));
      IsDate(Increment(x), Y, M, D)
    ensures Proper(Increment(x))
    ensures DayOffset(Increment(x)) == DayOffset(x) + 1
  {
    var Y, M, D := Year(x), Month(x), Day(x);
    IncrementFields(x);
    Calendar.NextDateNumber(Y, M, D);
    DayOffsetMatchesStatic(x);
    DayOffsetMatchesStatic(Increment(x));
  }

  /** `--` undoes `++` on every valid date where `++` is right. */
  lemma DecrementUndoesIncrement(x: DateTime)
    requires Proper(x) && HasDay(x) && LengthAgrees(x) && Year(x) < maxYear
    ensures Decrement(Increment(x)) == x
  {
    IncrementIsNextDay(x);
    var r := Increment(x);
    var L := Calendar.MonthLength(Calendar.IsLeap(Year(x)), Month(x));
    if Day(x) == L && Month(x) < 12 {
      assert Decrement(r) == r.(m := x.m, d := x.d);
    }
  }

  /** At the last valid date `++` stores an n/a year but month January: the cascade breaks. */
  lemma IncrementPastMaxDate()
    ensures var r := Increment(MaxDate());
      !HasYear(r) && HasMonth(r) && !HasDay(r) && !Cascade(r)
  {
  }

  /**
   * `--` walks the month field down from an n/a month. Thirty-one steps take
   * `DateTime()` to day field 0 under month field 15; two more give a real day
   * under stored month 14, a month past December that the offset still counts.
   */
  lemma DecrementBelowNoMonth(y: Bits28, t: Bits27)
    ensures Decrement(Decrement(DateTime(y, NA_MONTH, 0, t))) == DateTime(y, 14, 30, t)
    ensures var r := DateTime(y, 14, 30, t);
      HasDay(r) && Month(r) == 15 && DayOffset(r) == Calendar.DaysBefore(Year(r) + 1) + 91
  {
  }

  /** Where the member month length is wrong, `++` skips February 29 of 2020 and invents February 29 of 2019. */
  lemma IncrementFebruaryExamples()
    ensures Increment(Make(2020, 2, 28, NOTIME)) == Make(2020, 3, 1, NOTIME)
    ensures var r := Increment(Make(2019, 2, 28, NOTIME));
      IsDate(r, 2019, 2, 29) && !Proper(r)
  {
  }

  /** Where the member month length is wrong, `--` skips February 29 of 2020 and invents February 29 of 2019. */
  lemma DecrementFebruaryExamples()
    ensures Decrement(Make(2020, 3, 1, NOTIME)) == Make(2020, 2, 28, NOTIME)
    ensures var r := Decrement(Make(2019, 3, 1, NOTIME));
      IsDate(r, 2019, 2, 29) && !Proper(r)
  {
  }

  /** Within the year, `+=` keeps the year and time and adds dt to the day offset. */
  lemma AddWithinYearOffset(x: DateTime, dt: int)
    requires Proper(x) && HasDay(x) && dt >= 0
    requires dt + x.d + MonthBegins(IsLeapYear_(x.y))[x.m] < MonthBegins(IsLeapYear_(x.y))[12]
    ensures var r := AddWithinYear(x, dt + x.d + MonthBegins(IsLeapYear_(x.y))[x.m]);
      Proper(r) && DayOffset(r) == DayOffset(x) + dt
  {
    var mb := MonthBegins(IsLeapYear_(x.y));
    var r := AddWithinYear(x, dt + x.d + mb[x.m]);
    assert r.y == x.y && Year(r) == Year(x);
    DayOffsetInYear(x);
    DayOffsetInYear(r);
    assert mb[r.m] + r.d == dt + x.d + mb[x.m];
  }

  /** `+=` on a valid date is defined, and any date it produces lies dt days later. */
  lemma AddAssignSound(x: DateTime, dt: Int64)
    requires Proper(x) && HasDay(x) && dt >= 0
    ensures AddAssign(x, dt).Defined?
    ensures var r := AddAssign(x, dt).value;
      HasDay(r) ==> (r.m <= 11 && r.d < Calendar.MonthLength(Calendar.IsLeap(Year(r)), Month(r))
        && DayOffset(r) == DayOffset(x) + dt)
    ensures var r := AddAssign(x, dt).value;
      !HasDay(r) ==> !HasMonth(r)
    ensures AddAssign(x, dt).value.t in {x.t, 0}
  {
    var mB := MonthBegins(IsLeapYear_(x.y));
    if dt < 366 && dt + x.d + mB[x.m] < mB[12] {
      AddAssignWithinYear(x, dt);
      AddWithinYearOffset(x, dt);
    } else {
      AddAssignRebuilds(x, dt);
    }
  }

  /** The shortcut branch of `+=`. */
  lemma AddAssignWithinYear(x: DateTime, dt: Int64)
    requires Proper(x) && HasDay(x) && dt >= 0
    requires dt < 366 && dt + x.d + MonthBegins(IsLeapYear_(x.y))[x.m] < MonthBegins(IsLeapYear_(x.y))[12]
    ensures AddAssign(x, dt) == Defined(AddWithinYear(x, dt + x.d + MonthBegins(IsLeapYear_(x.y))[x.m]))
  {
  }

  /** Past the shortcut, `+=` on a valid date takes the long path. */
  lemma AddAssignRebuilds(x: DateTime, dt: Int64)
    requires Proper(x) && HasDay(x) && dt >= 0
    requires !(dt < 366 && dt + x.d + MonthBegins(IsLeapYear_(x.y))[x.m] < MonthBegins(IsLeapYear_(x.y))[12])
    ensures AddAssign(x, dt) == Rebuild(x, dt)
  {
  }

  /** `+=` then the difference gives back the day count, whenever the result has a day. */
  lemma AddThenDifference(x: DateTime, dt: Int64)
    requires Proper(x) && HasDay(x) && dt >= 0
    requires HasDay(AddAssign(x, dt).value)
    ensures Difference(AddAssign(x, dt).value, x) == Defined(dt)
  {
    AddAssignSound(x, dt);
  }

  /** `+= 0` on a value whose day alone is n/a turns it into a real date: February 30, 2012 is stored n/a, and `+= 0` makes it March 3. */
  lemma AddZeroOnNoDay()
    ensures var x := SetYMD(Make(2000, 1, 1, NOTIME), 2012, 2, 30).x;
      !HasDay(x) && HasMonth(x) && AddAssign(x, 0) == Defined(Make(2012, 3, 3, NOTIME))
  {
  }
}
