/**
 * Queries and derived dates of DateTime (src/UtilLib/DateTime.cpp:46-50,
 * :209-218, :234-239): `weekday`, `isMonthFirst`, `isMonthLast`, the
 * month/year first/last functions and the comparison operators, which compare
 * the packed 64-bit word.
 */
module DateTimeQueries {
  import opened CInt
  import Calendar
  import opened DateTimeBase
  import opened DateTimeLimits
  import opened DateTimeFields
  import opened DateTimeCtor

  // ---------------------------------------------------------------------------
  // Comparisons

  /** `operator==` compares the words: equal exactly when every field is equal. */
  function Eq(a: DateTime, b: DateTime): (r: bool)
    ensures r <==> a == b
  {
    WordOrder(a, b);
    Word(a) == Word(b)
  }

  /** `operator<` compares the words: lexicographic by year, month, day and time. */
  function Less(a: DateTime, b: DateTime): (r: bool)
    ensures r <==> LexLess(a, b)
  {
    WordOrder(a, b);
    Word(a) < Word(b)
  }

  /** `operator<=`: the lexicographic order or field equality. */
  function LessEq(a: DateTime, b: DateTime): (r: bool)
    ensures r <==> LexLess(a, b) || a == b
  {
    WordOrder(a, b);
    Word(a) <= Word(b)
  }

  /** An n/a year, month or day sorts after every valid value of that unit; an unset time sorts before every set one. */
  lemma SentinelOrder(a: DateTime, b: DateTime)
    ensures HasYear(a) && !HasYear(b) ==> Less(a, b)
    ensures a.y == b.y && HasMonth(a) && !HasMonth(b) ==> Less(a, b)
    ensures a.y == b.y && a.m == b.m && HasDay(a) && !HasDay(b) ==> Less(a, b)
    ensures a.y == b.y && a.m == b.m && a.d == b.d && !HasTime(a) && HasTime(b) ==> Less(a, b)
  {
    WordOrder(a, b);
  }

  /** On valid dates the word order follows the calendar: an earlier day is a smaller word, whatever the times. */
  lemma OrderFollowsDayOffset(a: DateTime, b: DateTime)
    requires Proper(a) && HasDay(a) && Proper(b) && HasDay(b)
    requires DayOffset(a) < DayOffset(b)
    ensures Less(a, b)
  {
    WordOrder(a, b);
    var ya, ma, da := Year(a), Month(a), Day(a);
    var yb, mb, db := Year(b), Month(b), Day(b);
    Calendar.DayNumberWithinYear(ya, ma, da);
    Calendar.DayNumberWithinYear(yb, mb, db);
    if yb < ya {
      Calendar.DaysBeforeMonotone(yb + 1, ya);
      Calendar.DaysBeforeStep(yb);
      assert false;
    } else if ya == yb && mb < ma {
      Calendar.MonthStartMonotone(Calendar.IsLeap(ya), mb, ma);
      assert false;
    }
  }

  // ---------------------------------------------------------------------------
  // Queries

  /** `isMonthFirst()` as written: it tests the month field, so it holds for every day of January. */
  function IsMonthFirst(x: DateTime): (b: bool)
    ensures b <==> HasMonth(x) && Month(x) == 1
  {
    x.m == 0
  }

  /** `isMonthLast()` as written: the day is the member `monthLength()`, false whenever a unit is n/a. */
  function IsMonthLast(x: DateTime): (b: bool)
    ensures b <==> (HasDay(x) && HasMonth(x)
      && Day(x) == Calendar.MonthLength(Calendar.IsLeap(Year(x) + 1), Month(x)))
  {
    x.d + 1 == MonthLength(x)
  }

  /**
   * The word `monthFirst()` masks out of the value: `& 0xFFFFFFFF00000000`
   * clears day and time, which is day 1 of the month; for an n/a month
   * `& INVALID` only clears the time.
   */
  function MonthFirstWord(x: DateTime): (r: DateTime)
    ensures HasMonth(x) ==> r == x.(d := 0, t := 0) && Day(r) == 1
    ensures !HasMonth(x) ==> r == x.(t := 0)
    ensures Cascade(x) ==> Cascade(r)
  {
    if x.m != NA_MONTH then x.(d := 0, t := 0) else x.(t := 0)
  }

  /**
   * The word `monthLast()` builds: the day set to the member `monthLength()`.
   * A month length of 0 (an n/a month) ORs all ones into the date fields, so
   * the year is lost as well.
   */
  function MonthLastWord(x: DateTime): (r: DateTime)
    ensures !HasTime(r)
    ensures HasMonth(x) && x.m <= 11 ==> (r.y == x.y && r.m == x.m
      && Day(r) == Calendar.MonthLength(Calendar.IsLeap(Year(x) + 1), Month(x)))
    ensures DateTimeFields.MonthLength(x) == 0 ==> r == AllNA
  {
    var ml := DateTimeFields.MonthLength(x);
    if ml == 0 then AllNA
    else x.(d := ml - 1, t := 0)
  }

  /** The word `yearFirst()` masks out of the value: January 1 of the year; for an n/a year only the time is cleared. */
  function YearFirstWord(x: DateTime): (r: DateTime)
    ensures HasYear(x) ==> Year(r) == Year(x) && Month(r) == 1 && Day(r) == 1 && !HasTime(r)
    ensures !HasYear(x) ==> r == x.(t := 0)
    ensures Proper(x) ==> Proper(r)
  {
    if x.y != NOYEAR then x.(m := 0, d := 0, t := 0) else x.(t := 0)
  }

  /**
   * The word `yearLast()` builds: December 31 of the year. For an n/a year
   * the OR with `0x0000000BF0000000` lands on the fields as they are: month
   * `| 11`, day `| 30`.
   */
  function YearLastWord(x: DateTime): (r: DateTime)
    ensures HasYear(x) ==> Year(r) == Year(x) && Month(r) == 12 && Day(r) == 31 && !HasTime(r)
    ensures !HasYear(x) && Cascade(x) ==> r == x.(t := 0)
    ensures Proper(x) ==> Proper(r)
  {
    if x.y != NOYEAR then x.(m := 11, d := 30, t := 0)
    else x.(m := ((x.m as bv4) | 11) as int, d := ((x.d as bv5) | 30) as int, t := 0)
  }

  /**
   * `DateTime(word)` with a single `uint64_t` argument, as the four functions
   * below call it. The raw-word constructor `DateTime(void*, uint64_t)`
   * (DateTime.h:174) takes two arguments, so the call resolves to
   * `DateTime(dayOffset_t offs, timeOfDay_t T = NOTIME)`: the word, converted
   * to `int64_t`, is read as a day offset. Every stored year from 1 to
   * NOYEAR - 1 puts the word outside [minDayOffset, maxDayOffset].
   */
  function FromWord(w: DateTime): (r: DateTime)
    ensures !HasTime(r)
    ensures 1 <= w.y < NOYEAR ==> r == Empty()
    ensures HasDay(r) ==> DayOffset(r) == ToInt64(Word(w))
    ensures w == DateTime(0, 0, 0, 0) ==> r == Make(1, 1, 1, NOTIME)
    ensures w == AllNA ==> r == Make(-367475, 5, 6, NOTIME)
  {
    var offs := ToInt64(Word(w));
    WordAsOffset(w);
    FromDayOffsetZero();
    FromDayOffsetAllNA();
    FromDayOffset(offs, NOTIME)
  }

  /** Where the word of a value lies when read as a signed day offset. */
  lemma WordAsOffset(w: DateTime)
    ensures Word(w) < TWO_64
    ensures 1 <= w.y < NOYEAR ==> ToInt64(Word(w)) < minDayOffset || ToInt64(Word(w)) > maxDayOffset
    ensures w == DateTime(0, 0, 0, 0) ==> Word(w) == 0
    ensures w == AllNA ==> Word(w) == TWO_64 - TWO_27
  {
  }

  /** `monthFirst()` as written: the masked word decoded as a day offset. */
  function MonthFirst(x: DateTime): (r: DateTime)
    ensures !HasTime(r)
    ensures 1 <= x.y < NOYEAR ==> r == Empty()
    ensures x.y == 0 && x.m == 0 ==> r == Make(1, 1, 1, NOTIME)
    ensures x.y == NOYEAR && x.m == NA_MONTH && x.d == NA_DAY ==> r == Make(-367475, 5, 6, NOTIME)
  {
    FromWord(MonthFirstWord(x))
  }

  /** `monthLast()` as written: the built word decoded as a day offset. */
  function MonthLast(x: DateTime): (r: DateTime)
    ensures !HasTime(r)
    ensures 1 <= x.y < NOYEAR && DateTimeFields.MonthLength(x) != 0 ==> r == Empty()
    ensures DateTimeFields.MonthLength(x) == 0 ==> r == Make(-367475, 5, 6, NOTIME)
  {
    FromWord(MonthLastWord(x))
  }

  /** `yearFirst()` as written: the masked word decoded as a day offset. */
  function YearFirst(x: DateTime): (r: DateTime)
    ensures !HasTime(r)
    ensures 1 <= x.y < NOYEAR ==> r == Empty()
    ensures x.y == 0 ==> r == Make(1, 1, 1, NOTIME)
    ensures x.y == NOYEAR && x.m == NA_MONTH && x.d == NA_DAY ==> r == Make(-367475, 5, 6, NOTIME)
  {
    FromWord(YearFirstWord(x))
  }

  /** `yearLast()` as written: the built word decoded as a day offset; December 31 of stored year 0 is already past maxDayOffset. */
  function YearLast(x: DateTime): (r: DateTime)
    ensures !HasTime(r)
    ensures HasYear(x) ==> r == Empty()
    ensures x.y == NOYEAR && x.m == NA_MONTH && x.d == NA_DAY ==> r == Make(-367475, 5, 6, NOTIME)
  {
    FromWord(YearLastWord(x))
  }

  /**
   * `weekday()`: Sunday == 1 .. Saturday == 7, NODAY for an n/a day. It adds
   * `offs = (-minDayOffset) % 7 + 1` to `dayOffset_<0>(y, m, d)`, the day count
   * with the stored year read as an absolute year, and reduces with the
   * truncating `%`; the result is converted to the `unsigned char` enum.
   */
  function Weekday(x: DateTime): (r: UChar)
    ensures !HasDay(x) ==> r == NODAY
    ensures HasDay(x) && x.y >= 1 ==> r == (DayOffset(x) + 1) % 7 + 1
  {
    if x.d == NA_DAY then NODAY
    else
      var offs := Rem(-minDayOffset, 7) + 1;
      var r := Wrap(Rem(DayOffset_(0, x.y, x.m, x.d) + offs, 7) + 1, TWO_8);
      if x.y >= 1 then
        WeekdayValue(x, DayOffset_(0, x.y, x.m, x.d));
        r
      else r
  }

  /** For a day of a stored year from 1 on, the C++ remainder in `weekday()` is the weekday of DayOffset. */
  lemma WeekdayValue(x: DateTime, d0: int)
    requires HasDay(x) && x.y >= 1 && d0 == DayOffset_(0, x.y, x.m, x.d)
    ensures Wrap(Rem(d0 + (Rem(-minDayOffset, 7) + 1), 7) + 1, TWO_8) == (DayOffset(x) + 1) % 7 + 1
  {
    WeekdayShift(x);
    var j := minDayOffset / 7;
    assert minDayOffset == 7 * j;
    RemSevenShift(d0 + 1, j, DayOffset(x) + 1);
  }

  /** The C++ remainder of a nonnegative k, plus one, is the weekday number of k shifted by any multiple of 7. */
  lemma RemSevenShift(k: int, j: int, n: int)
    requires k >= 0 && n == k + 7 * j
    ensures Wrap(Rem(k, 7) + 1, TWO_8) == n % 7 + 1
  {
    assert Rem(k, 7) == k % 7;
    assert k == 7 * (k / 7) + k % 7;
    assert n == 7 * (k / 7 + j) + k % 7;
  }

  /** The day count `dayOffset_<0>` on the stored year is the real offset minus minDayOffset, a multiple of 7. */
  lemma WeekdayShift(x: DateTime)
    requires HasDay(x)
    ensures Rem(-minDayOffset, 7) == 0 && minDayOffset % 7 == 0
    ensures DayOffset_(0, x.y, x.m, x.d) == DayOffset(x) - minDayOffset
    ensures x.y >= 1 ==> DayOffset_(0, x.y, x.m, x.d) >= 0
  {
    if x.y >= 1 {
      if x.m <= 12 {
        DayOffset_Counts(0, x.y, x.m, x.d);
        Calendar.YearsToDaysBounds(x.y - 1);
      } else {
        DayOffset_PastDecember(0, x.y, x.m, x.d);
        DayOffset_Counts(0, x.y + 1, 0, x.d);
        Calendar.YearsToDaysBounds(x.y);
      }
      Calendar.DaysBeforeClosedForm(x.y);
      Calendar.DaysBeforeClosedForm(x.y + 1);
    }
  }

  /** 0001-01-01 (offset 0) was a Monday and 2000-01-01 a Saturday. */
  lemma WeekdayExamples()
    ensures Weekday(DateTime(1 - minYear, 0, 0, 0)) == 2
    ensures Weekday(DateTime(2000 - minYear, 0, 0, 0)) == 7
  {
    assert DayOffset_(0, 1 - minYear, 0, 0) == -minDayOffset;
    assert DayOffset_(0, 2000 - minYear, 0, 0) == 730119 - minDayOffset;
  }
}
