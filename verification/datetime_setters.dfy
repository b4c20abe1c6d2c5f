/**
 * The date setters of DateTime (src/UtilLib/DateTime.cpp:148-187, :221-231).
 * Each returns the updated value together with the `bool` the C++ member
 * returns. Except for `dayOffset(dt)`, they leave the time of day alone.
 */
module DateTimeSetters {
  import opened CInt
  import Calendar
  import opened DateTimeBase
  import opened DateTimeLimits
  import opened DateTimeFields
  import opened DateTimeCtor

  /** A setter's result: the value after the call and the returned flag. */
  datatype Updated = Updated(x: DateTime, ok: bool)

  /** The stored year for a year in range. */
  function StoredYear(Y: Int): (s: Bits28)
    requires minYear <= Y <= maxYear
    ensures s + minYear == Y && s != NOYEAR
  {
    Y - minYear
  }

  /** `set(Y)`: January 1 of Y; a year out of range sets every date unit n/a. */
  function SetY(x: DateTime, Y: Int): (r: Updated)
    ensures r.ok <==> minYear <= Y <= maxYear
    ensures r.ok ==> Year(r.x) == Y && Month(r.x) == 1 && Day(r.x) == 1
    ensures !r.ok ==> !HasYear(r.x) && !HasMonth(r.x) && !HasDay(r.x)
    ensures r.x.t == x.t
    ensures Proper(x) ==> Proper(r.x)
  {
    if Y < minYear || Y > maxYear then Updated(WithNoYear(x), false)
    else Updated(x.(y := StoredYear(Y)).(m := 0, d := 0), true)
  }

  /** `set(Y, M)`: day 1 of month M of year Y, with the cascade for illegal units. */
  function SetYM(x: DateTime, Y: Int, M: UChar): (r: Updated)
    ensures r.ok <==> minYear <= Y <= maxYear && 1 <= M <= 12
    ensures r.ok ==> Year(r.x) == Y && Month(r.x) == M && Day(r.x) == 1
    ensures Y < minYear || Y > maxYear ==> !HasYear(r.x) && !HasMonth(r.x) && !HasDay(r.x)
    ensures minYear <= Y <= maxYear ==> Year(r.x) == Y
    ensures minYear <= Y <= maxYear && !(1 <= M <= 12) ==> !HasMonth(r.x) && !HasDay(r.x)
    ensures r.x.t == x.t
    ensures Proper(x) ==> Proper(r.x)
  {
    if Y < minYear || Y > maxYear then Updated(WithNoYear(x), false)
    else
      var x1 := x.(y := StoredYear(Y));
      if Wrap(M - 1, TWO_8) >= 12 then Updated(WithNoMonth(x1), false)
      else Updated(x1.(m := M - 1).(d := 0), true)
  }

  /**
   * `set(Y, M, D)` as written: the day is checked against the member
   * `monthLength()`, which for February uses the leap status of Y + 1.
   */
  function SetYMD(x: DateTime, Y: Int, M: UChar, D: UChar): (r: Updated)
    ensures r.ok <==> (minYear <= Y <= maxYear && 1 <= M <= 12
      && 1 <= D <= Calendar.MonthLength(Calendar.IsLeap(Y + 1), M))
    ensures r.ok ==> Year(r.x) == Y && Month(r.x) == M && Day(r.x) == D
    ensures Y < minYear || Y > maxYear ==> !HasYear(r.x) && !HasMonth(r.x) && !HasDay(r.x)
    ensures minYear <= Y <= maxYear ==> Year(r.x) == Y
    ensures minYear <= Y <= maxYear && !(1 <= M <= 12) ==> !HasMonth(r.x) && !HasDay(r.x)
    ensures minYear <= Y <= maxYear && 1 <= M <= 12 ==> Month(r.x) == M && (HasDay(r.x) <==> r.ok)
    ensures r.x.t == x.t
    ensures Cascade(r.x)
  {
    if Y < minYear || Y > maxYear then Updated(WithNoYear(x), false)
    else
      var x1 := x.(y := StoredYear(Y));
      if Wrap(M - 1, TWO_8) >= 12 then Updated(WithNoMonth(x1), false)
      else
        var x2 := x1.(m := M - 1);
        if Wrap(D - 1, TWO_8) >= MonthLength(x2) then Updated(WithNoDay(x2), false)
        else Updated(x2.(d := D - 1), true)
  }

  /** `year(Y)`: the same effect as `set(Y)`, with the mask applied before the year is stored. */
  function SetYear(x: DateTime, Y: Int): (r: Updated)
    ensures r == SetY(x, Y)
  {
    if Y < minYear || Y > maxYear then Updated(WithNoYear(x), false)
    else Updated(x.(m := 0, d := 0).(y := StoredYear(Y)), true)
  }

  /** `month(M)`: day 1 of month M of the stored year; fails, with month and day n/a, when the year is n/a or M is illegal. */
  function SetMonth(x: DateTime, M: UChar): (r: Updated)
    ensures r.ok <==> HasYear(x) && 1 <= M <= 12
    ensures r.ok ==> Month(r.x) == M && Day(r.x) == 1
    ensures !r.ok ==> !HasMonth(r.x) && !HasDay(r.x)
    ensures r.x.y == x.y && r.x.t == x.t
    ensures Cascade(r.x)
    ensures Proper(x) ==> Proper(r.x)
  {
    if x.y == NOYEAR || Wrap(M - 1, TWO_8) >= 12 then Updated(WithNoMonth(x), false)
    else Updated(x.(d := 0).(m := M - 1), true)
  }

  /**
   * `day(D)` as written. Its guard `m == NOMONTH` compares the 4-bit field with
   * 16 and never holds; an n/a month still fails, because its month length is 0.
   */
  function SetDay(x: DateTime, D: UChar): (r: Updated)
    ensures r.ok <==> 1 <= D <= MonthLength(x)
    ensures r.ok ==> Day(r.x) == D
    ensures !r.ok ==> !HasDay(r.x)
    ensures r.x.y == x.y && r.x.m == x.m && r.x.t == x.t
    ensures Cascade(x) ==> Cascade(r.x)
  {
    if x.m == NOMONTH || Wrap(D - 1, TWO_8) >= MonthLength(x) then Updated(WithNoDay(x), false)
    else Updated(x.(d := D - 1), true)
  }

  /**
   * `dayInYear(dY)`: month and day from a day of the stored year through
   * `dayInYear_`. The argument is taken zero-based (0 is January 1), while the
   * getter `dayInYear()` is one-based.
   */
  function SetDayInYear(x: DateTime, dY: UShort): (r: Updated)
    ensures !HasYear(x) ==> r == Updated(x, false)
    ensures HasYear(x) ==> (r.ok <==> dY < YearLength(x))
    ensures HasYear(x) && !r.ok ==> !HasMonth(r.x) && !HasDay(r.x)
    ensures r.x.y == x.y && r.x.t == x.t
    ensures Proper(x) ==> Proper(r.x)
  {
    if x.y == NOYEAR then Updated(x, false)
    else
      var split := DayInYear_(dY, IsLeapYear_(x.y));
      var r := x.(m := split.month, d := split.day);
      DayInYearSplit(x, dY, r);
      Updated(r, split.day != NA_DAY)
  }

  /**
   * `dayOffset(dt)`: assignment from `DateTime{ dt }`, so the time of day is
   * unset (not kept, as the header's comment on the setters says).
   */
  function SetDayOffset(x: DateTime, dt: Int64): (r: Updated)
    ensures !HasTime(r.x)
    ensures r.ok <==> HasDay(r.x)
    ensures r.ok ==> DayOffset(r.x) == dt
    ensures dt < minDayOffset || dt > maxDayOffset ==> !r.ok
  {
    var v := FromDayOffset(dt, NOTIME);
    Updated(v, v.d != NA_DAY)
  }

  // ---------------------------------------------------------------------------
  // Lemmas

  /** What `dayInYear_` stores for a zero-based day dY of the year of x. */
  lemma DayInYearSplit(x: DateTime, dY: UShort, r: DateTime)
    requires HasYear(x)
    requires var split := DayInYear_(dY, IsLeapYear_(x.y)); r == x.(m := split.month, d := split.day)
    ensures HasDay(r) <==> dY < YearLength(x)
    ensures HasDay(r) ==> DayInYear(r) == dY + 1 && DayOffset(r) == Calendar.DaysBefore(Year(x)) + dY
    ensures !HasDay(r) ==> !HasMonth(r)
    ensures HasDay(r) ==> r.m <= 11 && r.d < Calendar.MonthLength(Calendar.IsLeap(Year(r)), Month(r))
  {
    var isLY := IsLeapYear_(x.y);
    IsLeapYearMember(x);
    assert MonthBegins(isLY)[12] == YearLength(x) by { Calendar.MonthStartValues(isLY); }
    if HasDay(r) {
      DayOffsetInYear(r);
    }
  }

  /** A successful `dayInYear(dY)` stores day dY + 1 of the year (one-based, as the getter counts), dY days after January 1. */
  lemma SetDayInYearReads(x: DateTime, dY: UShort)
    ensures var r := SetDayInYear(x, dY);
      r.ok ==> DayInYear(r.x) == dY + 1 && DayOffset(r.x) == Calendar.DaysBefore(Year(x)) + dY
  {
    if HasYear(x) {
      var split := DayInYear_(dY, IsLeapYear_(x.y));
      DayInYearSplit(x, dY, x.(m := split.month, d := split.day));
    }
  }

  /** `set(Y, M)` is `set(Y, M, 1)`, and `set(Y)` is `set(Y, 1, 1)`, as the header states. */
  lemma SetShorthands(x: DateTime, Y: Int, M: UChar)
    ensures SetYM(x, Y, M) == SetYMD(x, Y, M, 1)
    ensures SetY(x, Y) == SetYMD(x, Y, 1, 1)
  {
  }

  /** For a valid date outside February, `set(Y, M, D)` agrees with the constructor. */
  lemma SetYMDLikeConstructor(x: DateTime, Y: Int, M: UChar, D: UChar)
    requires minYear <= Y <= maxYear && Calendar.ValidDate(Y, M, D) && M != 2
    ensures SetYMD(x, Y, M, D) == Updated(Make(Y, M, D, NOTIME).(t := x.t), true)
  {
  }

  /** `month(M)` is `set(year(), M)` when the year is set, as the header states. */
  lemma SetMonthLikeSet(x: DateTime, M: UChar)
    requires HasYear(x)
    ensures SetMonth(x, M) == SetYM(x, Year(x), M)
  {
  }

  /** Every date setter keeps the cascade of a value that has it (the as-written `set(Y, M, D)` keeps it unconditionally). */
  lemma SettersKeepCascade(x: DateTime, Y: Int, M: UChar, D: UChar, dY: UShort)
    requires Proper(x)
    ensures Cascade(SetY(x, Y).x) && Cascade(SetYM(x, Y, M).x) && Cascade(SetYMD(x, Y, M, D).x)
    ensures Cascade(SetMonth(x, M).x) && Cascade(SetDay(x, D).x) && Cascade(SetDayInYear(x, dY).x)
  {
  }
}
