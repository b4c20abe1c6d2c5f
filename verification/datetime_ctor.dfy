/**
 * The constructors of DateTime (src/UtilLib/DateTime.h:201-229, :168-169):
 * the cascade constructor from year, month, day and time, the default
 * constructor, and the constructor from a day offset, which estimates the year
 * from the mean Gregorian year length and corrects the estimate once.
 */
module DateTimeCtor {
  import opened CInt
  import Calendar
  import opened DateTimeBase
  import opened DateTimeLimits
  import opened DateTimeFields
  import Static = DateTimeStatic

  /** `if(T < maxTime) t = T + 1;`: the stored time field for a time argument, 0 (unset) when T is out of range. */
  function TimeField(T: UInt): (t: Bits27)
    ensures T < maxTime ==> t == T + 1
    ensures T >= maxTime ==> t == 0
  {
    if T < maxTime then T + 1 else 0
  }

  /**
   * `DateTime(Y, M, D, T)`: the raw fields `Y - minYear`, `M - 1`, `D - 1`
   * (each reduced modulo its bit width), then the cascade: a year out of range
   * sets all date units n/a, a month outside 1..12 sets month and day n/a, a
   * day outside the month sets the day n/a.
   */
  function Make(Y: Int, M: UChar, D: UChar, T: UInt): (r: DateTime)
    ensures Y < minYear || Y > maxYear ==> !HasYear(r) && !HasMonth(r) && !HasDay(r)
    ensures minYear <= Y <= maxYear ==> HasYear(r) && Year(r) == Y
    ensures minYear <= Y <= maxYear && !(1 <= M <= 12) ==> !HasMonth(r) && !HasDay(r)
    ensures minYear <= Y <= maxYear && 1 <= M <= 12 ==> Month(r) == M
    ensures minYear <= Y <= maxYear && 1 <= M <= 12 ==>
      (HasDay(r) <==> Calendar.ValidDate(Y, M, D))
    ensures HasDay(r) ==> Day(r) == D
    ensures T < maxTime ==> Time(r) == T
    ensures T >= maxTime ==> !HasTime(r)
    ensures Proper(r)
  {
    var raw := DateTime(Wrap(Y - minYear, TWO_28), Wrap(M - 1, TWO_4), Wrap(D - 1, TWO_5), 0);
    var date :=
      if Y < minYear || Y > maxYear then WithNoYear(raw)
      else if Wrap(M - 1, TWO_8) >= 12 then WithNoMonth(raw)
      else if Wrap(D - 1, TWO_8) >= Static.MonthLength(Y, M) then WithNoDay(raw)
      else raw;
    date.(t := TimeField(T))
  }

  /** `DateTime()`: month and day n/a, but the year field holds `NOYEAR + minYear`, an ordinary stored year (year 255). */
  function Empty(): (r: DateTime)
    ensures !HasMonth(r) && !HasDay(r) && !HasTime(r)
    ensures HasYear(r) && Year(r) == 255
    ensures Proper(r)
  {
    DateTime(NOYEAR + minYear, NA_MONTH, NA_DAY, 0)
  }

  /** `minDate()`: January 1 of minYear, the smallest packed word of all. */
  function MinDate(): (r: DateTime)
    ensures Proper(r) && HasDay(r) && !HasTime(r)
    ensures Year(r) == minYear && Month(r) == 1 && Day(r) == 1
    ensures Word(r) == 0
  {
    Make(minYear, 1, 1, NOTIME)
  }

  /** `maxDate()`: December 31 of maxYear, the largest valid date. */
  function MaxDate(): (r: DateTime)
    ensures Proper(r) && HasDay(r) && !HasTime(r)
    ensures Year(r) == maxYear && Month(r) == 12 && Day(r) == 31
  {
    Make(maxYear, 12, 31, NOTIME)
  }

  /**
   * The part of `DateTime(offs, T)` after the year estimate (DateTime.h:220-228):
   * `o` is the offset counted from January 1 of stored year 1, `Y` the estimated
   * stored year. The start of year Y is subtracted; if the rest is a whole
   * year or more the year is advanced once; `dayInYear_` then splits the rest,
   * which may still be a year too long (month and day n/a).
   */
  function FromEstimate(o: int, Y: int, t: Bits27): (r: DateTime)
    requires 0 <= Y < NOYEAR
    requires Calendar.YearsToDays(Y - 1) <= o
    ensures r.t == t && (r.y == Y || r.y == Y + 1)
    ensures HasDay(r) ==> r.m <= 11 && r.d < Calendar.MonthLength(Calendar.IsLeap(Year(r)), Month(r))
    ensures HasDay(r) ==> DayOffset(r) == o + minDayOffset
    ensures !HasDay(r) <==> !HasMonth(r)
    ensures o < Calendar.YearsToDays(Y + 1) ==> HasDay(r)
  {
    var p := AdvanceOnce(o, Y);
    var split := DayInYear_(p.1, IsLeapYear_(p.0));
    var r := DateTime(p.0, split.month, split.day, t);
    SplitIsDate(o, p.0, p.1, r);
    r
  }

  /**
   * DateTime.h:221-225: subtract the start of the estimated stored year Y and,
   * if a whole year or more remains, advance to Y + 1. Returns the year and the
   * zero-based day within it, which may still be a year too long.
   */
  function AdvanceOnce(o: int, Y: int): (p: (int, int))
    requires 0 <= Y < NOYEAR
    requires Calendar.YearsToDays(Y - 1) <= o
    ensures p.0 == Y || p.0 == Y + 1
    ensures 0 <= p.1 && o == Calendar.YearsToDays(p.0 - 1) + p.1
    ensures o < Calendar.YearsToDays(Y + 1) ==> p.1 < Calendar.YearLength(p.0)
  {
    StoredYearStart(Y);
    Calendar.YearsToDaysStep(Y);
    Calendar.YearsToDaysStep(Y + 1);
    var rest := o - DayOffset_(minYear, Y - minYear, 0, 0);
    var yl := if IsLeapYear_(Y) then 366 else 365;
    if rest >= yl then (Y + 1, rest - yl) else (Y, rest)
  }

  /**
   * `DateTime(offs, T)` as written. Outside [minDayOffset, maxDayOffset] the
   * date stays as the default constructor leaves it. Inside, the estimate
   * `(offs - minDayOffset) * 400 / 146097` goes to FromEstimate. The product
   * stays below 2^46, so the int64 arithmetic does not overflow.
   */
  function FromDayOffset(offs: Int64, T: UInt): (r: DateTime)
    ensures r.t == TimeField(T)
    ensures offs < minDayOffset || offs > maxDayOffset ==> r == Empty().(t := TimeField(T))
    ensures HasDay(r) ==> r.m <= 11 && r.d < Calendar.MonthLength(Calendar.IsLeap(Year(r)), Month(r))
    ensures HasDay(r) ==> DayOffset(r) == offs
    ensures !HasDay(r) <==> !HasMonth(r)
  {
    if offs < minDayOffset || offs > maxDayOffset then Empty().(t := TimeField(T))
    else
      var o := offs - minDayOffset;
      var Y := Quot(o * 400, 146097);
      EstimateAsWritten(o);
      FromEstimate(o, Y, TimeField(T))
  }

  // ---------------------------------------------------------------------------
  // Lemmas

  /** January 1 of stored year s is YearsToDays(s - 1) days after minDayOffset: minYear is a multiple of 400. */
  lemma StoredYearStart(s: int)
    requires s >= 0
    ensures DayOffset_(minYear, s - minYear, 0, 0) == Calendar.YearsToDays(s - 1)
    ensures Calendar.DaysBefore(s + minYear) == Calendar.YearsToDays(s - 1) + minDayOffset
  {
    var j := minYear / 400;
    assert minYear == 400 * j && minDayOffset == 146097 * j;
    DayOffset_YearStart(minYear, s - minYear);
    Calendar.DaysBeforeClosedForm(s);
    Calendar.DaysBeforeClosedForm(s + minYear);
    Calendar.YearsToDaysPeriod(s - 1, j);
  }

  /** The stored fields `dayInYear_` produces for a day within stored year s form the date at that day. */
  lemma SplitIsDate(o: int, s: int, rest: int, r: DateTime)
    requires 0 <= s <= NOYEAR && 0 <= rest && o == Calendar.YearsToDays(s - 1) + rest
    requires var split := DayInYear_(rest, IsLeapYear_(s)); r.y == s && r.m == split.month && r.d == split.day
    ensures HasDay(r) ==> r.m <= 11 && r.d < Calendar.MonthLength(Calendar.IsLeap(Year(r)), Month(r))
    ensures HasDay(r) ==> DayOffset(r) == o + minDayOffset
    ensures !HasDay(r) <==> !HasMonth(r)
    ensures rest < Calendar.YearLength(s) ==> HasDay(r)
  {
    var isLY := IsLeapYear_(s);
    assert MonthBegins(isLY)[12] == Calendar.YearLength(s) by { Calendar.MonthStartValues(isLY); }
    if rest < Calendar.YearLength(s) {
      IsLeapYearMember(r);
      DayOffsetInYear(r);
      StoredYearStart(s);
    }
  }

  /** The as-written estimate never passes the year the offset lies in and stays below the n/a year. */
  lemma EstimateAsWritten(o: int)
    requires 0 <= o <= maxDayOffset - minDayOffset
    ensures 0 <= Quot(o * 400, 146097) < NOYEAR
    ensures Calendar.YearsToDays(Quot(o * 400, 146097) - 1) <= o
  {
    var E := (o * 400) / 146097;
    assert 146097 * E <= 400 * o < 146097 * E + 146097;
    Calendar.YearsToDaysBounds(E - 1);
  }

  /** For a valid date the constructor stores what the accessors read back; the time too when it is below maxTime. */
  lemma MakeReadBack(Y: Int, M: UChar, D: UChar, T: UInt)
    requires minYear <= Y <= maxYear && Calendar.ValidDate(Y, M, D) && T < maxTime
    ensures var r := Make(Y, M, D, T);
      Year(r) == Y && Month(r) == M && Day(r) == D && Time(r) == T && FullDateTime(r)
  {
  }

  /** The constructed date's offset is the static `dayOffset(Y, M, D)`. */
  lemma MakeDayOffset(Y: Int, M: UChar, D: UChar, T: UInt)
    requires minYear <= Y <= maxYear && Calendar.ValidDate(Y, M, D)
    ensures DayOffset(Make(Y, M, D, T)) == Static.DayOffset(Y, M, D)
  {
    DayOffsetMatchesStatic(Make(Y, M, D, T));
  }

  /** Every value with a day is the constructor applied to its own accessors. */
  lemma MakeFromAccessors(x: DateTime)
    requires Proper(x) && HasDay(x)
    ensures Make(Year(x), Month(x), Day(x), Time(x)) == x
  {
  }

  /** A proper date found for an offset is the constructed date of any valid date with that day number. */
  lemma OffsetFixesDate(r: DateTime, Y: Int, M: UChar, D: UChar)
    requires Proper(r) && HasYear(r) && HasDay(r) && r.t == 0
    requires minYear <= Y <= maxYear && Calendar.ValidDate(Y, M, D)
    requires DayOffset(r) == Calendar.DayNumber(Y, M, D)
    ensures r == Make(Y, M, D, NOTIME)
  {
    DayOffsetMatchesStatic(r);
    Calendar.DayNumberInjective(Year(r), Month(r), Day(r), Y, M, D);
    MakeFromAccessors(r);
  }

  /** Offset 0 is 0001-01-01: the estimate lands on year 0 and the one correction step advances it. */
  lemma FromDayOffsetZero()
    ensures FromDayOffset(0, NOTIME) == Make(1, 1, 1, NOTIME)
  {
    var o := -minDayOffset;
    var Y := Quot(o * 400, 146097);
    assert Y == 134217600;
    assert o < Calendar.YearsToDays(Y + 1);
    var r := FromEstimate(o, Y, 0);
    assert FromDayOffset(0, NOTIME) == r;
    assert Calendar.DayNumber(1, 1, 1) == 0;
    OffsetFixesDate(r, 1, 1, 1);
  }

  /** Offset -2^27, the word of an all-n/a date read as a signed integer, is May 6 of year -367475. */
  lemma FromDayOffsetAllNA()
    ensures FromDayOffset(-TWO_27, NOTIME) == Make(-367475, 5, 6, NOTIME)
  {
    var o := -TWO_27 - minDayOffset;
    var Y := Quot(o * 400, 146097);
    assert Y == 133850124;
    assert o < Calendar.YearsToDays(Y + 1);
    var r := FromEstimate(o, Y, 0);
    assert FromDayOffset(-TWO_27, NOTIME) == r;
    DayNumberAllNA();
    OffsetFixesDate(r, -367475, 5, 6);
  }

  /** May 6 of year -367475 lies 2^27 days before 0001-01-01. */
  lemma DayNumberAllNA()
    ensures Calendar.DayNumber(-367475, 5, 6) == -TWO_27
  {
    Calendar.DaysBeforeClosedForm(-367475);
  }
}
