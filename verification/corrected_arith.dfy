/**
 * Corrected day arithmetic of DateTime: the offset constructor, `++`, `--`
 * and `+=`/`-=` as the documentation and the class invariant call for, with
 * the round trips proved, and counterexample lemmas for the as-written
 * members of src/UtilLib/DateTime.h and src/UtilLib/DateTime.cpp.
 */
module CorrectedArith {
  import opened CInt
  import Calendar
  import opened DateTimeBase
  import opened DateTimeLimits
  import opened DateTimeFields
  import opened DateTimeCtor
  import A = DateTimeArith
  import Setters = DateTimeSetters
  import C = Corrected

  /** The offset of January 1 of minYear, the first storable date. */
  const firstOffset: int := -49021972134
  /** The offset of December 31 of maxYear, the last storable date. */
  const lastOffset: int := 49022064538

  /** The storable range starts on January 1 of minYear, one year before the as-written bound minDayOffset. */
  lemma FirstOffset()
    ensures firstOffset == minDayOffset - 366 == Calendar.DaysBefore(minYear)
  {
    StoredYearStart(0);
  }

  /** The storable range ends on December 31 of maxYear, one year before the as-written bound maxDayOffset. */
  lemma LastOffset()
    ensures lastOffset == maxDayOffset - 365 == Calendar.DaysBefore(maxYear + 1) - 1
  {
    StoredYearStart(yearRange + 1);
  }

  // ---------------------------------------------------------------------------
  // Day offset to date

  /**
   * The corrected year estimate for `o = offs - minDayOffset`: one more than the
   * as-written `o * 400 / 146097`, and stored year 0 for the negative offsets of
   * year minYear.
   */
  function Estimate(o: int): (Y: int)
    requires firstOffset - minDayOffset <= o <= lastOffset - minDayOffset
    ensures 0 <= Y < NOYEAR
    ensures Calendar.YearsToDays(Y - 1) <= o < Calendar.YearsToDays(Y + 1)
  {
    if o < 0 then 0
    else
      var E := (o * 400) / 146097;
      EstimateBounds(o, E);
      E + 1
  }

  /** The mean-length estimate is at most one year below the year that holds o. */
  lemma EstimateBounds(o: int, E: int)
    requires 0 <= o <= lastOffset - minDayOffset && E == (o * 400) / 146097
    ensures 0 <= E && E + 1 < NOYEAR
    ensures Calendar.YearsToDays(E) <= o < Calendar.YearsToDays(E + 2)
  {
    assert 146097 * E <= 400 * o < 146097 * E + 146097;
    Calendar.YearsToDaysBounds(E);
    Calendar.YearsToDaysBounds(E + 2);
  }

  /**
   * `DateTime(offs, T)` as intended: every offset from minDate() to maxDate()
   * yields its date, every other offset the empty value.
   */
  function FromOffset(offs: Int64, T: UInt): (r: DateTime)
    ensures r.t == TimeField(T) && Proper(r)
    ensures HasDay(r) <==> firstOffset <= offs <= lastOffset
    ensures HasDay(r) ==> DayOffset(r) == offs
    ensures !HasDay(r) ==> r == C.Empty().(t := TimeField(T))
  {
    if offs < firstOffset || offs > lastOffset then C.Empty().(t := TimeField(T))
    else
      var o := offs - minDayOffset;
      var r := FromEstimate(o, Estimate(o), TimeField(T));
      FromOffsetHasYear(offs, r);
      r
  }

  /** A date found for an offset up to maxDate() lies in a stored year. */
  lemma FromOffsetHasYear(offs: int, r: DateTime)
    requires offs <= lastOffset
    requires HasDay(r) && r.m <= 11 && DayOffset(r) == offs
    ensures HasYear(r)
  {
    FirstOffset();
    LastOffset();
    StoredYearStart(NOYEAR);
    ConstantsAsDefined();
  }

  /** Two valid dates with the same day offset have the same date fields. */
  lemma SameOffsetSameDate(a: DateTime, b: DateTime)
    requires Proper(a) && HasDay(a) && Proper(b) && HasDay(b)
    requires DayOffset(a) == DayOffset(b)
    ensures a.(t := 0) == b.(t := 0)
  {
    DayOffsetMatchesStatic(a);
    DayOffsetMatchesStatic(b);
    Calendar.DayNumberInjective(Year(a), Month(a), Day(a), Year(b), Month(b), Day(b));
  }

  /** The offset constructor inverts `dayOffset()`: a valid value is rebuilt from its offset and time. */
  lemma FromOffsetRoundTrip(x: DateTime)
    requires Proper(x) && HasDay(x)
    ensures FromOffset(DayOffset(x), Time(x)) == x
  {
    DayOffsetRange(x);
    FirstOffset();
    LastOffset();
    Calendar.DaysBeforeStep(maxYear);
    var r := FromOffset(DayOffset(x), Time(x));
    SameOffsetSameDate(r, x);
  }

  /** The time argument only sets the time field. */
  lemma FromOffsetTime(offs: Int64, T: UInt, t: Bits27)
    ensures FromOffset(offs, T).(t := t) == FromOffset(offs, NOTIME).(t := t)
  {
  }

  /** Where the as-written constructor yields a date in a stored year, it is the intended one. */
  lemma FromDayOffsetAgrees(offs: Int64, T: UInt)
    requires HasDay(FromDayOffset(offs, T)) && HasYear(FromDayOffset(offs, T))
    ensures FromDayOffset(offs, T) == FromOffset(offs, T)
  {
    var r := FromDayOffset(offs, T);
    var c := FromOffset(offs, T);
    DayOffsetRange(r);
    FirstOffset();
    LastOffset();
    Calendar.DaysBeforeStep(maxYear);
    SameOffsetSameDate(r, c);
  }

  /**
   * As written, offset 365 (0002-01-01) is estimated two years low and yields
   * n/a month and day, and the first year's dates are rejected.
   */
  lemma FromDayOffsetAsWritten()
    ensures !HasDay(FromDayOffset(365, NOTIME)) && HasDay(FromOffset(365, NOTIME))
    ensures !HasDay(FromDayOffset(firstOffset, NOTIME)) && HasDay(FromOffset(firstOffset, NOTIME))
  {
    var o := 365 - minDayOffset;
    assert Quot(o * 400, 146097) == 134217600;
    StoredYearStart(134217600);
    Calendar.DaysBeforeClosedForm(2);
    FirstOffset();
    LastOffset();
  }

  /** As written, maxDayOffset yields December 31 of year maxYear + 1: a day with an n/a year. */
  lemma FromDayOffsetBeyondMaxYear(offs: Int64)
    requires offs == maxDayOffset
    ensures var r := FromDayOffset(offs, NOTIME);
      HasDay(r) && !HasYear(r) && !Cascade(r)
    ensures !HasDay(FromOffset(offs, NOTIME))
  {
    var o := offs - minDayOffset;
    var E := Quot(o * 400, 146097);
    assert E == NOYEAR - 1;
    assert Calendar.YearsToDays(E - 1) + 729 == o < Calendar.YearsToDays(E + 1);
    var p := AdvanceOnce(o, E);
    assert p.0 == NOYEAR;
    var r := FromDayOffset(offs, NOTIME);
    assert r == FromEstimate(o, E, 0);
    assert r.y == p.0;
  }

  /** The setter `dayOffset(dt)` as the header's comment on the setters describes it: the date at offset dt, the time kept. */
  function SetDayOffset(x: DateTime, dt: Int64): (r: Setters.Updated)
    ensures r.x.t == x.t
    ensures r.ok <==> firstOffset <= dt <= lastOffset
    ensures r.ok ==> HasDay(r.x) && DayOffset(r.x) == dt
    ensures Proper(x) ==> Proper(r.x)
  {
    var v := FromOffset(dt, NOTIME);
    WithTime(v, x.t);
    Setters.Updated(v.(t := x.t), v.d != NA_DAY)
  }

  /** As written, `dayOffset(dt)` unsets the time even when dt is the value's own offset; the intended setter changes nothing. */
  lemma SetDayOffsetAsWritten(x: DateTime, dt: Int64)
    requires Proper(x) && HasDay(x) && HasTime(x) && dt == DayOffset(x)
    ensures !HasTime(Setters.SetDayOffset(x, dt).x)
    ensures SetDayOffset(x, dt) == Setters.Updated(x, true)
  {
    FromOffsetRoundTrip(x);
    FromOffsetTime(dt, Time(x), x.t);
  }

  // ---------------------------------------------------------------------------
  // ++ and --

  /** `++` as intended: the next day by the true month length; past maxDate() every date unit becomes n/a; an n/a day stays n/a. */
  function Succ(x: DateTime): (r: DateTime)
    ensures r.t == x.t
    ensures !HasDay(x) ==> r == x
    ensures Proper(x) ==> Proper(r)
  {
    if x.d == NA_DAY then x
    else if x.d + 1 < C.MonthLength(x) then x.(d := x.d + 1)
    else if x.m < 11 then x.(m := x.m + 1, d := 0)
    else if x.y + 1 >= NOYEAR then WithNoYear(x)
    else x.(y := x.y + 1, m := 0, d := 0)
  }

  /** `--` as intended: the previous day; before minDate() every date unit becomes n/a; an n/a day stays n/a. */
  function Pred(x: DateTime): (r: DateTime)
    ensures r.t == x.t
    ensures !HasDay(x) ==> r == x
    ensures Proper(x) ==> Proper(r)
  {
    if x.d == NA_DAY then x
    else if x.d > 0 then x.(d := x.d - 1)
    else if 0 < x.m <= 11 then
      var z := x.(m := x.m - 1);
      z.(d := C.MonthLength(z) - 1)
    else if x.y == 0 then WithNoYear(x)
    else x.(y := x.y - 1, m := 11, d := 30)
  }

  /** `++` is `+= 1`: one day offset later, or n/a past maxDate(). */
  lemma SuccIsNextDay(x: DateTime)
    requires Proper(x) && HasDay(x)
    ensures HasDay(Succ(x)) <==> DayOffset(x) < lastOffset
    ensures HasDay(Succ(x)) ==> DayOffset(Succ(x)) == DayOffset(x) + 1
  {
    var r := Succ(x);
    SuccIsNextDate(x);
    DayOffsetMatchesStatic(x);
    LastOffset();
    if HasDay(r) {
      DayOffsetMatchesStatic(r);
      Calendar.NextDateNumber(Year(x), Month(x), Day(x));
      DayOffsetRange(r);
      Calendar.DaysBeforeStep(maxYear);
    } else {
      Calendar.DaysBeforeStep(maxYear);
      Calendar.MonthStartValues(Calendar.IsLeap(maxYear));
    }
  }

  /** Succ steps to the next calendar date, and runs out only after December 31 of maxYear. */
  lemma SuccIsNextDate(x: DateTime)
    requires Proper(x) && HasDay(x)
    ensures var r := Succ(x);
      HasDay(r) ==> Proper(r) && var (Y, M, D) := Calendar.NextDate(Year(x), Month(x), Day(x));
        Year(r) == Y && Month(r) == M && Day(r) == D
    ensures !HasDay(Succ(x)) <==> Year(x) == maxYear && Month(x) == 12 && Day(x) == 31
  {
  }

  /** `--` is `-= 1`: one day offset earlier, or n/a before minDate(). */
  lemma PredIsPreviousDay(x: DateTime)
    requires Proper(x) && HasDay(x)
    ensures HasDay(Pred(x)) <==> DayOffset(x) > firstOffset
    ensures HasDay(Pred(x)) ==> DayOffset(Pred(x)) == DayOffset(x) - 1
  {
    FirstOffset();
    var r := Pred(x);
    if HasDay(r) {
      DayOffsetMatchesStatic(x);
      DayOffsetMatchesStatic(r);
      PredIsBefore(x, r);
      Calendar.NextDateNumber(Year(r), Month(r), Day(r));
      DayOffsetRange(r);
    } else {
      assert x.y == 0 && x.m == 0 && x.d == 0;
    }
  }

  /** The day after the result of Pred is x. */
  lemma PredIsBefore(x: DateTime, r: DateTime)
    requires Proper(x) && HasDay(x) && r == Pred(x) && HasDay(r)
    ensures Calendar.NextDate(Year(r), Month(r), Day(r)) == (Year(x), Month(x), Day(x))
  {
    Calendar.MonthStartValues(Calendar.IsLeap(Year(x)));
  }

  /** `--` undoes `++` and `++` undoes `--` away from the ends of the range. */
  lemma SuccPredInverse(x: DateTime)
    requires Proper(x) && HasDay(x)
    ensures DayOffset(x) < lastOffset ==> Pred(Succ(x)) == x
    ensures DayOffset(x) > firstOffset ==> Succ(Pred(x)) == x
  {
    SuccIsNextDay(x);
    PredIsPreviousDay(x);
    if DayOffset(x) < lastOffset {
      PredIsPreviousDay(Succ(x));
      SameOffsetSameDate(Pred(Succ(x)), x);
    }
    if DayOffset(x) > firstOffset {
      SuccIsNextDay(Pred(x));
      SameOffsetSameDate(Succ(Pred(x)), x);
    }
  }

  /** The weekday advances by one, cyclically, from each day to the next. */
  lemma WeekdayCycles(x: DateTime)
    requires Proper(x) && HasDay(x) && DayOffset(x) < lastOffset
    ensures C.Weekday(Succ(x)) == C.Weekday(x) % 7 + 1
  {
    SuccIsNextDay(x);
    WeekdayNext(x, Succ(x));
  }

  /** Of two days one offset apart, the later has the next weekday. */
  lemma WeekdayNext(a: DateTime, b: DateTime)
    requires HasDay(a) && HasDay(b) && DayOffset(b) == DayOffset(a) + 1
    ensures C.Weekday(b) == C.Weekday(a) % 7 + 1
  {
    var k := DayOffset(a) + 1;
    var wa, wb := C.Weekday(a), C.Weekday(b);
    assert wa == k % 7 + 1;
    assert wb == (k + 1) % 7 + 1;
    ModSeven(k);
  }

  /** One more day is one more weekday, Saturday wrapping to Sunday. */
  lemma ModSeven(k: int)
    ensures (k + 1) % 7 == (k % 7 + 1) % 7
  {
    var q := k / 7;
    assert k == 7 * q + k % 7;
    if k % 7 == 6 {
      assert k + 1 == 7 * (q + 1);
    } else {
      assert k + 1 == 7 * q + (k % 7 + 1);
    }
  }

  /** Where the member month length is right and the year is not the last, the as-written `++` is the intended one. */
  lemma IncrementAgrees(x: DateTime)
    requires Proper(x) && HasDay(x) && A.LengthAgrees(x) && Year(x) < maxYear
    ensures A.Increment(x) == Succ(x)
  {
    A.IncrementIsNextDay(x);
    DayOffsetRange(x);
    FirstOffset();
    LastOffset();
    Calendar.DaysBeforeMonotone(maxYear, maxYear + 1);
    Calendar.DaysBeforeStep(maxYear);
    SuccIsNextDay(x);
    SameOffsetSameDate(A.Increment(x), Succ(x));
  }

  /** As written, `++` on an n/a date and `++` at maxDate() break the cascade; the intended `++` keeps it. */
  lemma IncrementAsWritten()
    ensures !Cascade(A.Increment(C.Empty())) && Succ(C.Empty()) == C.Empty()
    ensures !Cascade(A.Increment(MaxDate())) && Cascade(Succ(MaxDate()))
  {
    A.IncrementPastMaxDate();
  }

  /** As written, `--` on an n/a date makes day 31 of an n/a month. */
  lemma DecrementAsWritten()
    ensures !Cascade(A.Decrement(C.Empty())) && Pred(C.Empty()) == C.Empty()
  {
  }

  /** The intended `--` steps from March 1 to February 29 in 2020 and to February 28 in 2019. */
  lemma PredFebruaryExamples()
    ensures Pred(Make(2020, 3, 1, NOTIME)) == Make(2020, 2, 29, NOTIME)
    ensures Pred(Make(2019, 3, 1, NOTIME)) == Make(2019, 2, 28, NOTIME)
  {
  }

  // ---------------------------------------------------------------------------
  // += and -=

  /**
   * `+=` as intended: the date dt days later (earlier for a negative dt) with
   * the time kept; leaving the storable range makes every date unit n/a; an
   * n/a day stays n/a.
   */
  function AddDays(x: DateTime, dt: int): (r: DateTime)
    ensures r.t == x.t
    ensures !HasDay(x) ==> r == x
    ensures HasDay(x) ==> (HasDay(r) <==> firstOffset <= DayOffset(x) + dt <= lastOffset)
    ensures HasDay(r) ==> DayOffset(r) == DayOffset(x) + dt
    ensures Proper(x) ==> Proper(r)
  {
    if x.d == NA_DAY then x
    else
      var target := DayOffset(x) + dt;
      if target < firstOffset || target > lastOffset then WithNoYear(x)
      else
        var v := FromOffset(target, NOTIME);
        WithTime(v, x.t);
        v.(t := x.t)
  }

  /** `-=` as intended: `+=` of the negated count. */
  function SubDays(x: DateTime, dt: int): (r: DateTime)
    ensures HasDay(r) ==> DayOffset(r) == DayOffset(x) - dt
    ensures r.t == x.t
  {
    AddDays(x, -dt)
  }

  /** Adding and then subtracting the same count gives back a valid value, as long as the sum stays in range. */
  lemma AddSubRoundTrip(x: DateTime, k: int)
    requires Proper(x) && HasDay(x)
    requires firstOffset <= DayOffset(x) + k <= lastOffset
    ensures SubDays(AddDays(x, k), k) == x
  {
    var y := AddDays(x, k);
    var z := SubDays(y, k);
    DayOffsetRange(x);
    FirstOffset();
    LastOffset();
    Calendar.DaysBeforeStep(maxYear);
    SameOffsetSameDate(z, x);
  }

  /** The difference operator measures what `+=` added. */
  lemma AddDaysDifference(x: DateTime, k: int)
    requires Proper(x) && HasDay(x)
    requires firstOffset <= DayOffset(x) + k <= lastOffset
    ensures A.Difference(AddDays(x, k), x) == A.Defined(k)
  {
    var r := AddDays(x, k);
    A.DifferenceOfOffsets(r, x, k);
  }

  /** `++` is `+= 1`. */
  lemma SuccIsAddOne(x: DateTime)
    requires Proper(x) && HasDay(x)
    ensures Succ(x) == AddDays(x, 1)
  {
    SuccIsNextDay(x);
    var s := Succ(x);
    if HasDay(s) {
      SameOffsetSameDate(s, AddDays(x, 1));
    } else {
      DayOffsetRange(x);
      FirstOffset();
      LastOffset();
      Calendar.DaysBeforeStep(maxYear);
    }
  }

  /**
   * Where the as-written `+=` yields a date within the range, it is the
   * intended date; only the time may differ, because the long path unsets it.
   */
  lemma AddAssignAgrees(x: DateTime, dt: Int64)
    requires Proper(x) && HasDay(x) && dt >= 0
    requires DayOffset(x) + dt <= lastOffset
    requires HasDay(A.AddAssign(x, dt).value)
    ensures A.AddAssign(x, dt).value.(t := 0) == AddDays(x, dt).(t := 0)
  {
    A.AddAssignSound(x, dt);
    var r := A.AddAssign(x, dt).value;
    var s := AddDays(x, dt);
    DayOffsetRange(x);
    FirstOffset();
    assert HasDay(s) && Proper(s) && DayOffset(s) == DayOffset(x) + dt;
    FromOffsetHasYear(DayOffset(x) + dt, r);
    assert Proper(r);
    SameOffsetSameDate(r, s);
  }

  /** As written, `-=` leaves the date unchanged, and `+=` across a year boundary unsets the time. */
  lemma SubAssignAsWritten(x: DateTime)
    requires Proper(x) && HasDay(x) && DayOffset(x) > firstOffset
    ensures A.SubAssign(x, 1) == x
    ensures HasDay(SubDays(x, 1)) && DayOffset(SubDays(x, 1)) == DayOffset(x) - 1
  {
  }

  /** As written, `+= 366` unsets the time, which the intended `+=` keeps. */
  lemma AddAssignClearsTime(x: DateTime)
    requires Proper(x) && HasDay(x) && HasTime(x)
    ensures A.AddAssign(x, 366).Defined? && !HasTime(A.AddAssign(x, 366).value)
    ensures HasTime(AddDays(x, 366))
  {
    A.AddAssignSound(x, 366);
  }
}
