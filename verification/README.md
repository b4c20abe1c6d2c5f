# KaefUtil DateTime in Dafny

A model of `DateTime`, the packed 8-byte calendar value of KaefUtil, and of the integer calendar kernel beneath it. The calendar is the proleptic Gregorian calendar with a year 0, as in section 3.2.1 of ISO 8601:2004.

The value has four raw bit fields, in the little-endian layout of `DateTimeBase.h`:

| field | bits | holds | n/a sentinel |
|---|---|---|---|
| `t` | 0-26 | milliseconds + 1 | 0 (unset) |
| `d` | 27-31 | day − 1 | 31 |
| `m` | 32-35 | month − 1 | 15 |
| `y` | 36-63 | year − minYear | `NOYEAR` = 2^28 − 1 |

The model keeps exactly these raw fields in `DateTimeFields.DateTime`. The 64-bit word is `DateTimeFields.Word` for ordering and `DateTimeFields.Bits` for the masks. Every mask that DateTime.cpp applies to the word is proved equal to a field update.

C++ integer behaviour is spelled out in `CInt`:
- conversion to unsigned types and bit fields wraps;
- `/` and `%` truncate toward zero;
- `>>` on a signed value floors;
- `&` with a low-bit mask is the Euclidean remainder.

Where the C++ code has undefined behaviour, the model returns `Undefined`, of the `Outcome` type in `DateTimeArith`. These cases are:
- a read of `monthBegins[m]` past its 13 entries (DateTime.cpp:250, :256), when `+=` with 0 ≤ dt < 366 meets a stored month 13..15, which `--` can reach with a real day;
- signed overflow in `+=`;
- negating `INT64_MIN`;
- the difference of an n/a date and a valid one when the `int64_t` subtraction overflows: `NODAYOFFSET` minus a negative offset, or an offset below −1 minus `NODAYOFFSET`.

One further case is not marked: `Y - minYear` in the constructor overflows `int` for a year above 2013266047. There the model wraps the difference, and the year-range test makes every date unit n/a anyway (see DateTimeCtor.Make under Left out).

## Modules

| module | contents |
|---|---|
| `Calendar` | The reference. Gregorian rules written from their definition (leap rule, month lengths, day numbers from 0001-01-01, next date), not from the kernel's closed forms. |
| `CInt` | C++ integer semantics. |
| `DateTimeBase` | The kernel: `floor400`, `isLeapYear_`, `dayOffset_<y0>`, `dayInYear_`. |
| `DateTimeLimits` | The constants, each checked against the expression that defines it. |
| `DateTimeStatic` | The static `isLeapYear`, `yearLength`, `monthLength`, `dayOffset(Y, M, D)`. |
| `DateTimeFields` | Fields, word, masks, accessors and validity tests. Also the members `yearLength()`, `monthLength()`, `dayOffset()`, `dayInYear()`. |
| `DateTimeCtor` | Both constructors, `minDate`, `maxDate`. |
| `DateTimeSetters` | `set`, `year`, `month`, `day`, `dayInYear(dY)`, `dayOffset(dt)`. |
| `DateTimeTimeOfDay` | The integer time setters, the unit getter, `unsetTime`. |
| `DateTimeQueries` | Comparisons, `isMonthFirst`, `isMonthLast`, `monthFirst`, `monthLast`, `yearFirst`, `yearLast`, `weekday`. |
| `DateTimeArith` | `+=`, `-=`, `++`, `--`, and the difference of two dates. |
| `Corrected`, `CorrectedArith` | The intended definitions where the code departs from its documentation (see Findings), with the intended properties proved. |

Every operation models the code as written. For `monthFirst`, `monthLast`, `yearFirst` and `yearLast` this includes the constructor call: the masked word goes to the one-argument constructor, which reads it as a day offset. Where the code departs from its documentation, both versions are kept:
- the as-written member;
- a corrected member with the property the documentation promises;
- a lemma that shows an input on which the two differ.

The validity tests `hasYear`, `hasMonth`, `hasDay`, `hasTime` and `fullDateTime` are the predicates of the same names in `DateTimeFields`. `isValid()` and `operator bool` are `HasDay`.

## Model

| member | source | states |
|---|---|---|
| DateTimeBase.Floor400 | src/UtilLib/DateTimeBase.h:39 | The result is a multiple of 400 with t − 400 < result ≤ t, for negative and nonnegative t alike. |
| DateTimeBase.Floor400IntMin | src/UtilLib/DateTime.h:181 | Example: the shift the static functions use, `floor400(INT_MIN)`, is −2147484000. |
| DateTimeBase.IsLeapYear_ | src/UtilLib/DateTimeBase.h:40 | The bitmask test holds exactly for Gregorian leap years, for every integer. This goes beyond the nonnegative years its comment requires. |
| DateTimeBase.LeapMask | src/UtilLib/DateTimeBase.h:40 | The mask-and-remainder expression, with the truncating C++ `%` and two's-complement masks, holds exactly when 4 divides Y and either 100 does not or 400 does. |
| DateTimeBase.RemZero | src/UtilLib/DateTimeBase.h:40 | Helper: the truncating C++ `Y % 100` is zero exactly when 100 divides Y, for either sign. |
| DateTimeBase.Century16 | src/UtilLib/DateTimeBase.h:40 | Helper: for a multiple of 100, the low four bits are zero exactly when 400 divides it, which is why `!(Y & 0x0F)` stands in for `Y % 400 == 0`. |
| DateTimeBase.LeapPeriodic | src/UtilLib/DateTime.h:181-182 | Shifting a year by a multiple of 400 keeps its leap status. |
| DateTimeBase.MonthBegins | src/UtilLib/DateTimeBase.h:53-55 | Entry i of either table is the number of days before month i + 1 in the reference calendar. The last entry is the year length. |
| DateTimeBase.WholeYearsClosedForm | src/UtilLib/DateTimeBase.h:48 | For the shifted year count, `Y*365 + (Y>>2) - (3*(Y/100+1)>>2)` equals 365Y + Y/4 − Y/100 + Y/400. |
| DateTimeBase.LateMonthsValues | src/UtilLib/DateTimeBase.h:47 | Counting back from the next year gives the common-year month start of months 3..12, minus 365. |
| DateTimeBase.ShiftedYears | src/UtilLib/DateTimeBase.h:44-45 | The constant `(y0/400 − 1)·146097` takes back the 400 years added to keep the year count nonnegative. |
| DateTimeBase.DayOffset_CountsEarly | src/UtilLib/DateTimeBase.h:46-47 | January and February are counted forward from the start of year y0+Y. |
| DateTimeBase.DayOffset_CountsLate | src/UtilLib/DateTimeBase.h:46-48 | March to December are counted back from the start of the next year, and no leap branch is needed. |
| DateTimeBase.DayOffset_Counts | src/UtilLib/DateTimeBase.h:41-49 | `dayOffset_<y0>(Y, M, D)` is the number of days from 0001-01-01 to (y0+Y)-(M+1)-(D+1), for every y0 divisible by 400, Y ≥ 0 and M ≤ 12. |
| DateTimeBase.DayOffset_Epoch | src/UtilLib/DateTimeBase.h:41 | `dayOffset_<0>(1, 0, 0) == 0`: 0001-01-01 is day 0. |
| DateTimeBase.DayOffset_YearStart | src/UtilLib/DateTimeBase.h:41-49 | `dayOffset_<y0>(Y, 0, 0)` is the start of year y0+Y counted from 0001-01-01. |
| DateTimeBase.DayOffset_YearStep | src/UtilLib/DateTimeBase.h:47-48 | Consecutive year starts are 365 days apart, or 366 when y0+Y is a leap year. |
| DateTimeBase.DayOffset_WithinYear | src/UtilLib/DateTimeBase.h:46-47 | The offset is the year start plus the leap-aware table entry for M plus D. |
| DateTimeBase.DayOffset_PastDecember | src/UtilLib/DateTimeBase.h:46-48 | A month argument 12..15 counts on into the next year: 0, 30, 61 or 91 days after its January 1. |
| DateTimeBase.DayOffset_Period | src/UtilLib/DateTimeBase.h:44-45 | Four hundred years later is exactly 146097 days later, whatever M and D are. |
| DateTimeBase.DayInYear_ | src/UtilLib/DateTimeBase.h:51-61 | For a day inside the year, the result is a month 0..11 and a day inside that month whose month start plus day is the input. A day beyond the year gives month 15 and day 31. |
| DateTimeBase.MonthSearch | src/UtilLib/DateTimeBase.h:52-58 | `offs >> 5` is the true month or the one before it: its table entry is not after offs, and offs lies before the entry two months on. |
| DateTimeBase.MonthLengthFromTable | src/UtilLib/DateTimeBase.h:53-54 | Consecutive table entries are one month length apart. |
| DateTimeBase.InYearUnique | src/UtilLib/DateTimeBase.h:58-60 | A day of the year determines month and day uniquely, so the split is unambiguous. |
| DateTimeBase.SplitUnique | src/UtilLib/DateTimeBase.h:51-61 | Any split that meets the contract of `dayInYear_` for the day of (M, D) is (M, D) itself. |
| DateTimeBase.DayInYear_RoundTrip | src/UtilLib/DateTimeBase.h:51-61 | `dayInYear_` inverts the month-start table: it gives back the month and day that a day-in-year was built from. |
| DateTimeLimits.ConstantsAsDefined | src/UtilLib/DateTime.h:41-54 | The literal constants equal the expressions that define them in the header. These are `minYear`, `maxYear`, `maxTime`, `minDayOffset`, `maxDayOffset` and `floor400(INT_MIN)`. They also satisfy the header's static_asserts. |
| DateTimeStatic.IsLeapYear | src/UtilLib/DateTime.h:180-183 | The static test holds exactly for Gregorian leap years, for every 32-bit year, negative ones included. |
| DateTimeStatic.IsLeapYearGregorian | src/UtilLib/DateTime.h:180-183 | The shift by `floor400(INT_MIN)` keeps leap status, so the kernel test on the shifted year is the rule for Y. |
| DateTimeStatic.YearLength | src/UtilLib/DateTime.h:185 | For a leap year the result is the true year length. For a common year it is 10 days short (355). |
| DateTimeStatic.MonthLength | src/UtilLib/DateTime.h:187-192 | 31, 30, or 28/29 for February by the leap rule. It is 0 exactly for month numbers outside 1..12. |
| DateTimeStatic.DayOffset | src/UtilLib/DateTime.h:195-199 | A valid date gives its day number from 0001-01-01. A day beyond the month length gives NODAYOFFSET; for a month outside 1..12 that is every day from 1 on. |
| DateTimeStatic.LeapAndMonthExamples | src/UtilLib/DateTime.h:187-192 | Example: 2000 and 2024 are leap years and 1900 is not. February 2020 has 29 days and February 2021 has 28. Month 13 has 0 days. |
| DateTimeStatic.DayOffsetEpoch | src/UtilLib/DateTime.h:61 | `dayOffset(1, 1, 1) == 0`. |
| DateTimeStatic.DayNumberBelowSentinel | src/UtilLib/DateTime.h:61-62 | No valid date of a 32-bit year has the offset NODAYOFFSET, so the sentinel is unambiguous. |
| DateTimeStatic.DayOffsetNextDate | src/UtilLib/DateTime.h:195-199 | The static offset of the next calendar date is one more. |
| DateTimeFields.WithNoYear | src/UtilLib/DateTime.cpp:22 | `NO_Y` sets year, month and day n/a and keeps the time. |
| DateTimeFields.WithNoMonth | src/UtilLib/DateTime.cpp:22 | `NO_M` sets month and day n/a and keeps year and time. |
| DateTimeFields.WithNoDay | src/UtilLib/DateTime.cpp:22 | `NO_D` sets the day n/a and keeps the other fields. |
| DateTimeFields.Year | src/UtilLib/DateTime.h:232 | A stored year reads back in minYear..maxYear. The n/a year reads back as maxYear + 1, never as NOYEAR. |
| DateTimeFields.Month | src/UtilLib/DateTime.h:233 | The result is NOMONTH exactly when the month is n/a. Otherwise it is the stored field plus one. |
| DateTimeFields.Day | src/UtilLib/DateTime.h:234 | The result is NODAY exactly when the day is n/a. |
| DateTimeFields.Time | src/UtilLib/DateTime.h:235 | The result is NOTIME exactly when no time is set. Otherwise it is the stored field minus the bias. |
| DateTimeFields.YearLength | src/UtilLib/DateTime.cpp:40-41 | The member gives the true length of the stored year, and 0 for an n/a year. |
| DateTimeFields.MonthLength | src/UtilLib/DateTime.cpp:43-44 | The member gives the month length under the leap status of Year(x) + 1, not of Year(x). It is 0 for an n/a month. |
| DateTimeFields.DayOffset | src/UtilLib/DateTime.h:241-242 | The member gives NODAYOFFSET for an n/a day. Otherwise, for stored months 0..12, it is the year start plus the month start plus the day, in days from 0001-01-01. Stored months 12..15 count 0, 30, 61 or 91 days past January 1 of the next year. |
| DateTimeFields.DayOffsetInYear | src/UtilLib/DateTime.h:241-242 | The offset of a valid date is the start of its year, plus the month-start table entry for its stored month, plus its stored day. |
| DateTimeFields.DayInYear | src/UtilLib/DateTime.h:237-240 | For a stored month 0..11, the closed form is the one-based day of the year. For an n/a month and day it is 489, or 490 in a leap year. |
| DateTimeFields.WordOrder | src/UtilLib/DateTime.cpp:234-239 | Numeric order of the 64-bit word is lexicographic order on (y, m, d, t), and equal words are equal values. |
| DateTimeFields.ConstructorMaskYear | src/UtilLib/DateTime.h:205 | The constructor's year mask, assembled from the sentinels, is `NO_Y`, which is also `INVALID`. |
| DateTimeFields.ConstructorMaskMonthDay | src/UtilLib/DateTime.h:206-207 | The constructor's month and day masks are `NO_M` and `NO_D`. |
| DateTimeFields.NoYearMask | src/UtilLib/DateTime.cpp:149 | `|= NO_Y` on the word is the n/a-year field update. |
| DateTimeFields.NoMonthMask | src/UtilLib/DateTime.cpp:157 | `|= NO_M` on the word is the n/a-month field update. |
| DateTimeFields.NoDayMask | src/UtilLib/DateTime.cpp:167 | `|= NO_D` on the word is the n/a-day field update. |
| DateTimeFields.InvalidWord | src/UtilLib/DateTime.cpp:264 | Assigning `NO_Y` stores every date unit n/a with the time unset. |
| DateTimeFields.ClearMonthDayMask | src/UtilLib/DateTime.cpp:151 | `& 0xFFFFFFF007FFFFFF` sets month and day to January 1 and keeps year and time. |
| DateTimeFields.ClearDayMask | src/UtilLib/DateTime.cpp:159 | `& 0xFFFFFFFF07FFFFFF` sets the day to the first. |
| DateTimeFields.ClearDayTimeMask | src/UtilLib/DateTime.cpp:215 | `& 0xFFFFFFFF00000000` sets day 1 and unsets the time. |
| DateTimeFields.ClearMonthDayTimeMask | src/UtilLib/DateTime.cpp:217 | `& 0xFFFFFFF000000000` sets January 1 and unsets the time. |
| DateTimeFields.ClearTimeMask | src/UtilLib/DateTime.cpp:215-218 | `& INVALID` only unsets the time. |
| DateTimeFields.YearLastMask | src/UtilLib/DateTime.cpp:218 | With month and day cleared, OR-ing `0xBF0000000` gives December 31. |
| DateTimeFields.YearLastMaskNoMonth | src/UtilLib/DateTime.cpp:218 | On n/a month and day, the same OR changes nothing. |
| DateTimeFields.MonthLastMask | src/UtilLib/DateTime.cpp:216 | For a month length 1..31, the OR sets the day to the last of the month. |
| DateTimeFields.MonthLastMaskNoMonth | src/UtilLib/DateTime.cpp:216 | For a month length of 0, the shifted all-ones fills every date field, including the year. |
| DateTimeFields.IsLeapYear | src/UtilLib/DateTime.cpp:38 | The member holds exactly when the year the value reads back is a Gregorian leap year. |
| DateTimeFields.IsLeapYearMember | src/UtilLib/DateTime.cpp:38 | Testing the stored offset gives the leap status of the year it stands for, because minYear is a multiple of 400. |
| DateTimeFields.WithTime | src/UtilLib/DateTime.cpp:206 | Replacing the time field keeps the date and its offset. A proper value stays proper with any time up to maxTime. |
| DateTimeArith.LateMonthsBounds | src/UtilLib/DateTimeBase.h:46-47 | Helper: the month term of `dayOffset_` stays within ±400 days for every 4-bit month. |
| DateTimeFields.DayOffsetMatchesStatic | src/UtilLib/DateTime.h:241-242 | For a valid date, `dayOffset()` equals the static `dayOffset(year(), month(), day())` and the reference day number. |
| DateTimeFields.DayInYearRange | src/UtilLib/DateTime.h:76 | For a valid date, `dayInYear()` lies in 1..365, or 1..366 in a leap year. |
| DateTimeFields.DayOffsetRange | src/UtilLib/DateTime.h:241-242 | The offset of a valid date lies between January 1 of minYear and December 31 of maxYear. |
| DateTimeCtor.TimeField | src/UtilLib/DateTime.h:208 | A time below maxTime is stored with the +1 bias. Any other time is stored unset. |
| DateTimeCtor.Make | src/UtilLib/DateTime.h:201-209 | The cascade: a year out of range makes y, m and d n/a; a month outside 1..12 makes m and d n/a; a day outside the month makes only d n/a. Valid units read back, and the result keeps the class invariant. |
| DateTimeCtor.Empty | src/UtilLib/DateTime.h:211 | The default value has month, day and time n/a, but a real year 255. |
| DateTimeCtor.MinDate | src/UtilLib/DateTime.h:168 | January 1 of minYear, with the all-zero word. |
| DateTimeCtor.MaxDate | src/UtilLib/DateTime.h:169 | December 31 of maxYear. |
| DateTimeCtor.AdvanceOnce | src/UtilLib/DateTime.h:221-225 | After subtracting the estimated year's start, at most one year is skipped. The rest is an in-year offset if the estimate was at most one year low. |
| DateTimeCtor.FromEstimate | src/UtilLib/DateTime.h:220-228 | Any date it produces has the requested offset. Month and day are n/a together, and a good enough estimate always yields a date. |
| DateTimeCtor.FromDayOffset | src/UtilLib/DateTime.h:213-229 | Outside [minDayOffset, maxDayOffset] the result is the default value with the time set. Inside, any date it yields has dayOffset() == offs. |
| DateTimeCtor.StoredYearStart | src/UtilLib/DateTime.h:221 | `dayOffset_<minYear>(Y − minYear, 0, 0)` is the start of stored year Y relative to minDayOffset. |
| DateTimeCtor.SplitIsDate | src/UtilLib/DateTime.h:226-228 | The fields `dayInYear_` stores for a rest inside the year form the date at the given offset. |
| DateTimeCtor.EstimateAsWritten | src/UtilLib/DateTime.h:219 | The estimate `o·400/146097` never passes the year that holds the offset, and stays below NOYEAR. |
| DateTimeCtor.MakeReadBack | src/UtilLib/DateTime.h:232-235 | For a valid in-range date and T < maxTime, the accessors return Y, M, D and T. |
| DateTimeCtor.MakeDayOffset | src/UtilLib/DateTime.h:241-242 | The offset of the constructed date is the static `dayOffset(Y, M, D)`. |
| DateTimeCtor.MakeFromAccessors | src/UtilLib/DateTime.h:201-209 | Any valid value is the constructor applied to its own accessors. |
| DateTimeCtor.OffsetFixesDate | src/UtilLib/DateTime.h:213-229 | A valid value with the day number of a valid date is that date, constructed with the time unset. |
| DateTimeCtor.FromDayOffsetZero | src/UtilLib/DateTime.h:219-228 | Offset 0 decodes to 0001-01-01: the estimate lands on year 0 and the correction step advances it. |
| DateTimeCtor.FromDayOffsetAllNA | src/UtilLib/DateTime.h:219-228 | Offset −2^27 decodes to May 6 of year −367475. |
| DateTimeCtor.DayNumberAllNA | src/UtilLib/DateTime.cpp:216 | Helper: May 6 of year −367475 lies 2^27 days before 0001-01-01, so it is the date the all-n/a word decodes to. |
| DateTimeSetters.StoredYear | src/UtilLib/DateTime.cpp:174-177 | An in-range year is stored as an offset that reads back as that year and is never NOYEAR. |
| DateTimeSetters.SetY | src/UtilLib/DateTime.cpp:148-153 | It succeeds exactly for an in-range year and then gives January 1. Otherwise every date unit is n/a. The time is kept. |
| DateTimeSetters.SetYM | src/UtilLib/DateTime.cpp:154-161 | It succeeds exactly for an in-range year and a month 1..12, and gives day 1. Otherwise the cascade applies per unit. The time is kept. |
| DateTimeSetters.SetYMD | src/UtilLib/DateTime.cpp:162-170 | It succeeds exactly when the day fits the February length of the following year. Otherwise the cascade applies and the class invariant holds. |
| DateTimeSetters.SetYear | src/UtilLib/DateTime.cpp:174-178 | `year(Y)` has the same effect as `set(Y)`. |
| DateTimeSetters.SetMonth | src/UtilLib/DateTime.cpp:179-183 | It succeeds exactly with a stored year and a month 1..12, giving day 1. A failure leaves month and day n/a and the year unchanged. |
| DateTimeSetters.SetDay | src/UtilLib/DateTime.cpp:184-187 | It succeeds exactly for 1 ≤ D ≤ the member `monthLength()`. Failure makes only the day n/a. |
| DateTimeSetters.SetDayInYear | src/UtilLib/DateTime.cpp:221-225 | With a year it succeeds exactly when the zero-based dY lies in the year. Failure makes month and day n/a. Without a year, nothing changes. |
| DateTimeSetters.SetDayOffset | src/UtilLib/DateTime.cpp:228-231 | On success the value has offset dt. Outside the offset range it fails. The time is always left unset. |
| DateTimeSetters.DayInYearSplit | src/UtilLib/DateTime.cpp:223-224 | The month and day `dayInYear_` stores for dY form day dY + 1 of the year, or n/a month and day beyond the year. |
| DateTimeSetters.SetDayInYearReads | src/UtilLib/DateTime.cpp:221-225 | After a successful `dayInYear(dY)`, the getter reads dY + 1 and the offset is dY days after January 1. |
| DateTimeSetters.SetShorthands | src/UtilLib/DateTime.h:121-122 | `set(Y, M)` is `set(Y, M, 1)` and `set(Y)` is `set(Y, 1, 1)`, as documented. |
| DateTimeSetters.SetYMDLikeConstructor | src/UtilLib/DateTime.cpp:162-170 | Outside February, `set(Y, M, D)` on a valid date stores what the constructor stores and keeps the time. |
| DateTimeSetters.SetMonthLikeSet | src/UtilLib/DateTime.h:124 | With a year set, `month(M)` is `set(year(), M)`. |
| DateTimeSetters.SettersKeepCascade | src/UtilLib/DateTime.h:21-23 | Every date setter keeps "n/a unit ⇒ shorter units n/a". |
| DateTimeTimeOfDay.SetTimeMs | src/UtilLib/DateTime.cpp:190-193 | It succeeds exactly for T < maxTime, after which `time() == T`. Otherwise the time is unset. The date is untouched. |
| DateTimeTimeOfDay.SetTimeHMS | src/UtilLib/DateTime.cpp:194-197 | It succeeds exactly when MS < 1000, S < 60, M < 60 and H < 30, and the time is then the sum of the units in milliseconds. |
| DateTimeTimeOfDay.TimeUnits | src/UtilLib/DateTime.cpp:136-144 | It returns nothing exactly when no time is set. Minutes, seconds and milliseconds are in range, and the units add up to `time()`. |
| DateTimeTimeOfDay.UnsetTime | src/UtilLib/DateTime.cpp:206 | Only the time becomes unset. |
| DateTimeTimeOfDay.TimeUnitsRoundTrip | src/UtilLib/DateTime.cpp:136-144 | The getter returns exactly the H, M, S and MS the unit setter accepted. |
| DateTimeTimeOfDay.SetTimeMsUnits | src/UtilLib/DateTime.cpp:190-193 | A time set in milliseconds reads back, in units, as the same number of milliseconds. |
| DateTimeQueries.Eq | src/UtilLib/DateTime.cpp:234 | `==` on the words holds exactly when every field is equal. |
| DateTimeQueries.Less | src/UtilLib/DateTime.cpp:236 | `<` on the words is the lexicographic order on year, month, day and time. |
| DateTimeQueries.LessEq | src/UtilLib/DateTime.cpp:237 | `<=` is the lexicographic order or field equality. |
| DateTimeQueries.SentinelOrder | src/UtilLib/DateTime.h:143-145 | An n/a year, month or day sorts after every valid value of that unit. An unset time sorts before every set time. |
| DateTimeQueries.OrderFollowsDayOffset | src/UtilLib/DateTime.h:143 | Between valid dates, an earlier day is a smaller value whatever the times. |
| DateTimeQueries.IsMonthFirst | src/UtilLib/DateTime.cpp:209 | As written, the test holds exactly for a set month that is January, whatever the day. |
| DateTimeQueries.IsMonthLast | src/UtilLib/DateTime.cpp:211-212 | It holds exactly when day and month are set and the day equals the member month length, which uses the next year's leap status. |
| DateTimeQueries.MonthFirstWord | src/UtilLib/DateTime.cpp:215 | The masked word of `monthFirst()`: day 1 of the same month with the time unset; an n/a month only unsets the time. |
| DateTimeQueries.MonthLastWord | src/UtilLib/DateTime.cpp:216 | The word `monthLast()` builds: the day becomes the member month length. A month length of 0 gives the all-n/a word. |
| DateTimeQueries.YearFirstWord | src/UtilLib/DateTime.cpp:217 | The masked word of `yearFirst()`: January 1 of the same year with the time unset; an n/a year only unsets the time. |
| DateTimeQueries.YearLastWord | src/UtilLib/DateTime.cpp:218 | The word `yearLast()` builds: December 31 of the same year. Under the cascade an n/a year only unsets the time. |
| DateTimeQueries.FromWord | src/UtilLib/DateTime.cpp:215-218 | `DateTime(word)` resolves to the day-offset constructor. Every stored year 1..NOYEAR − 1 gives the default value. Any date it yields has the word, as a signed integer, for its offset. The zero word gives 0001-01-01 and the all-n/a word May 6 of year −367475. |
| DateTimeQueries.WordAsOffset | src/UtilLib/DateTime.cpp:215-218 | Read as a signed offset, a word with stored year 1..NOYEAR − 1 lies outside [minDayOffset, maxDayOffset]. The all-n/a word is −2^27. |
| DateTimeQueries.MonthFirst | src/UtilLib/DateTime.cpp:215 | As written: the default value for stored years 1..NOYEAR − 1. 0001-01-01 for January of minYear. May 6 of year −367475 when every date unit is n/a. The time is unset. |
| DateTimeQueries.MonthLast | src/UtilLib/DateTime.cpp:216 | As written: May 6 of year −367475 for an n/a month. Otherwise the default value for stored years 1..NOYEAR − 1. |
| DateTimeQueries.YearFirst | src/UtilLib/DateTime.cpp:217 | As written: the default value for stored years 1..NOYEAR − 1, and 0001-01-01 for minYear. May 6 of year −367475 when every date unit is n/a. |
| DateTimeQueries.YearLast | src/UtilLib/DateTime.cpp:218 | As written: the default value for every set year. May 6 of year −367475 when every date unit is n/a. |
| DateTimeQueries.Weekday | src/UtilLib/DateTime.cpp:46-50 | NODAY for an n/a day. From stored year 1 on, the result is the weekday of dayOffset(), with Sunday as 1. |
| DateTimeQueries.WeekdayValue | src/UtilLib/DateTime.cpp:48-49 | From stored year 1 on, the truncating remainder with the constant offs gives the weekday of the true offset. |
| DateTimeQueries.RemSevenShift | src/UtilLib/DateTime.cpp:48-49 | The C++ remainder of a nonnegative count, plus one, is the weekday number of that count shifted by any multiple of 7. |
| DateTimeQueries.WeekdayShift | src/UtilLib/DateTime.cpp:48-49 | `offs` is 1 because minDayOffset is a multiple of 7. `dayOffset_<0>` on the stored year is the true offset minus minDayOffset. |
| DateTimeQueries.WeekdayExamples | src/UtilLib/DateTime.cpp:46-50 | Example: 0001-01-01 is a Monday (2) and 2000-01-01 a Saturday (7). |
| DateTimeArith.Increment | src/UtilLib/DateTime.cpp:278-287 | `++` keeps the time. On n/a month and day it wraps the day field to 0. Leaving the last stored year gives an n/a year with month January. |
| DateTimeArith.Decrement | src/UtilLib/DateTime.cpp:288-296 | `--` keeps the time. An n/a day becomes day field 30. January 1 of stored year 0 makes every date unit n/a. The class invariant holds for a date with a day. |
| DateTimeArith.SubAssign | src/UtilLib/DateTime.cpp:269 | `-=` returns the value unchanged. |
| DateTimeArith.AddWithinYear | src/UtilLib/DateTime.cpp:247-261 | The shortcut keeps year and time and always yields a real month and day. |
| DateTimeArith.AddAssign | src/UtilLib/DateTime.cpp:243-267 | A negative dt is a no-op, except `INT64_MIN`, which is undefined. A dt below 366 on any stored month 13..15 is undefined, and so is a value with n/a month and day with a dt inside the offset range. A dt beyond the offset range gives the n/a date. Any change of year unsets the time. |
| DateTimeArith.Difference | src/UtilLib/DateTime.cpp:306-307 | For any two values with a day, the difference of their offsets. Two n/a dates give 0. With one side n/a, `NODAYOFFSET` stands in for its offset, and the result is undefined exactly when that `int64_t` subtraction overflows. |
| DateTimeArith.DifferenceOfOffsets | src/UtilLib/DateTime.cpp:306-307 | Two valid dates whose offsets are k apart have difference k. |
| DateTimeArith.DayOffsetBounds | src/UtilLib/DateTime.cpp:306-307 | Every `dayOffset()` fits in int64, and a real one has room for the difference. |
| DateTimeArith.IncrementIsNextDay | src/UtilLib/DateTime.cpp:278-287 | Where the member month length is right, `++` gives the Gregorian next day, one offset later, below maxYear. |
| DateTimeArith.IncrementFields | src/UtilLib/DateTime.cpp:278-287 | On such a date `++` steps the day, or goes to day 1 of the next month, or to January 1 of the next year, by how the day compares with the month length. |
| DateTimeArith.DecrementBelowNoMonth | src/UtilLib/DateTime.cpp:288-296 | `--` from day field 0 under an n/a month reaches stored month 14 with a real day, whose offset counts 91 days into the next year. |
| DateTimeArith.DecrementUndoesIncrement | src/UtilLib/DateTime.cpp:288-296 | `--` undoes `++` on every valid date where `++` is right. |
| DateTimeArith.IncrementPastMaxDate | src/UtilLib/DateTime.cpp:284-285 | `++` at maxDate() stores an n/a year under month January, which breaks the cascade. |
| DateTimeArith.IncrementFebruaryExamples | src/UtilLib/DateTime.cpp:281 | `++` goes from 2020-02-28 to March 1, and from 2019-02-28 to a 2019-02-29 that is not a date. |
| DateTimeArith.DecrementFebruaryExamples | src/UtilLib/DateTime.cpp:292 | `--` goes from 2020-03-01 to February 28, and from 2019-03-01 to a 2019-02-29 that is not a date. |
| DateTimeArith.AddWithinYearOffset | src/UtilLib/DateTime.cpp:247-261 | The shortcut adds dt to the offset of a valid date and keeps it proper. |
| DateTimeArith.AddAssignSound | src/UtilLib/DateTime.cpp:243-267 | `+=` on a valid date is defined. Any date it produces lies dt days later, and the time is kept or unset. |
| DateTimeArith.AddAssignWithinYear | src/UtilLib/DateTime.cpp:247-261 | When the sum stays in the year, `+=` is the shortcut. |
| DateTimeArith.Rebuild | src/UtilLib/DateTime.cpp:263-265 | The long path through the setter `dayOffset(dayOffset() + dt)`. It is defined for every date with a day, and gives the n/a date beyond maxDayOffset. Any date it produces lies dt days later and has no time. |
| DateTimeArith.AddAssignRebuilds | src/UtilLib/DateTime.cpp:247-265 | When the sum leaves the year, `+=` on a valid date is the long path. |
| DateTimeArith.AddThenDifference | src/UtilLib/DateTime.cpp:306-307 | The difference between the result of `+= dt` and the original is dt, whenever the result is a date. |
| DateTimeArith.AddZeroOnNoDay | src/UtilLib/DateTime.cpp:245 | `+= 0` on February 2012 with an n/a day makes the real date March 3, 2012. |
| Corrected.YearLength | src/UtilLib/DateTime.h:185 | The year length is where a thirteenth month would begin: the twelve month lengths together. |
| Corrected.YearLengthSpansYear | src/UtilLib/DateTime.h:185 | The corrected year length is the distance between consecutive New Year's days. |
| Corrected.YearLengthAsWritten | src/UtilLib/DateTime.h:185 | As written, 2019 is 355 days long, although 2019 and 2020 begin 365 days apart. |
| Corrected.MonthLength | src/UtilLib/DateTime.cpp:43-44 | The month length of the stored year and month. Every valid day lies below it. |
| Corrected.MonthLengthAgrees | src/UtilLib/DateTime.cpp:43-44 | The as-written member is right outside February, and in February when both years agree on leap status. |
| Corrected.MonthLengthAsWritten | src/UtilLib/DateTime.cpp:44 | As written, February 2020 has 28 days and February 2019 has 29. |
| Corrected.SetYMD | src/UtilLib/DateTime.cpp:162-170 | It succeeds exactly for a valid in-range date, and the value is the constructor's cascade with the time kept. |
| Corrected.SetYMDAsWritten | src/UtilLib/DateTime.cpp:167 | As written, `set(2020, 2, 29)` fails and `set(2019, 2, 29)` succeeds. |
| Corrected.SetDay | src/UtilLib/DateTime.cpp:184-187 | It succeeds exactly for a day within the stored month of the stored year. |
| Corrected.SetDayLikeSet | src/UtilLib/DateTime.h:125 | `day(D)` is `set(year(), month(), D)`, as documented. |
| Corrected.SetDayAsWritten | src/UtilLib/DateTime.cpp:185 | As written, `day(29)` fails in February 2020. |
| Corrected.DayInYear | src/UtilLib/DateTime.h:76 | 0 for an n/a day. For a valid date, the one-based day 1..yearLength(), which is the offset from January 1. |
| Corrected.DayInYearAsWritten | src/UtilLib/DateTime.h:237-240 | As written, the default value reports day 489. |
| Corrected.SetDayInYear | src/UtilLib/DateTime.cpp:221-225 | With a year it succeeds exactly for 1 ≤ dY ≤ yearLength(), and the class invariant is kept. |
| Corrected.SetThenGetDayInYear | src/UtilLib/DateTime.cpp:221-225 | After a successful set, the getter returns the day that was set. |
| Corrected.DayInYearRoundTrip | src/UtilLib/DateTime.h:237-240 | Setting the day of the year that the getter reports leaves a valid value unchanged. |
| Corrected.SetDayInYearOf | src/UtilLib/DateTime.cpp:221-225 | The one-based day of the stored month and day, set again, leaves the value unchanged. |
| Corrected.SetDayInYearSplit | src/UtilLib/DateTime.cpp:223-224 | The as-written setter, given the zero-based day of the stored month and day, stores that same month and day. |
| Corrected.SetDayInYearAsWritten | src/UtilLib/DateTime.cpp:221-224 | As written, storing the day the getter reports moves January 1 to January 2. |
| Corrected.Empty | src/UtilLib/DateTime.h:211 | Every date unit is n/a and the time is unset. |
| Corrected.EmptySortsLast | src/UtilLib/DateTime.h:143-145 | The intended empty value sorts after every value that has a year. |
| Corrected.EmptyAsWritten | src/UtilLib/DateTime.h:211 | As written, the default value is year 255 and sorts before January 1, 256. |
| Corrected.IsMonthFirst | src/UtilLib/DateTime.cpp:209 | The intended test holds exactly when the day is set and is the 1st. |
| Corrected.IsMonthFirstMeansFixed | src/UtilLib/DateTime.cpp:209-215 | The intended test holds exactly when the intended `monthFirst()` changes only the time. |
| Corrected.IsMonthFirstAsWritten | src/UtilLib/DateTime.cpp:209 | As written, January 15 counts as the first of a month. |
| Corrected.IsMonthLast | src/UtilLib/DateTime.cpp:211-212 | It holds exactly when the day is the true length of its month. |
| Corrected.MonthLast | src/UtilLib/DateTime.cpp:216 | The last day of the same month with the time unset. An n/a month only unsets the time, and the value stays proper. |
| Corrected.IsMonthLastMeansFixed | src/UtilLib/DateTime.cpp:211-216 | A date is the last of its month exactly when `monthLast()` changes only the time. |
| Corrected.MonthLastAsWritten | src/UtilLib/DateTime.cpp:211-216 | As written, 2020-02-29 is not the last of its month, and `monthLast()` of (2020, month 13) is May 6 of year −367475 instead of the value itself. |
| Corrected.MonthFirst | src/UtilLib/DateTime.h:108-109 | The intended `monthFirst()`: the masked word taken as the value. Day 1 of the same month with the time unset; an n/a month only unsets the time; the value stays proper. |
| Corrected.YearFirst | src/UtilLib/DateTime.h:108-109 | January 1 of the same year with the time unset. An n/a year only unsets the time, and the value stays proper. |
| Corrected.YearLast | src/UtilLib/DateTime.h:108-109 | December 31 of the same year with the time unset. An n/a year only unsets the time, and the value stays proper. |
| Corrected.FirstLastInRange | src/UtilLib/DateTime.h:108-113 | For a valid date the four intended derived dates stay proper and are ordered: year first ≤ month first ≤ date ≤ month last ≤ year last. |
| Corrected.FirstLastDecodeIntended | src/UtilLib/DateTime.cpp:215-218 | Under the cascade, the as-written `monthFirst`, `yearFirst` and `yearLast` are the offset constructor applied to the words of the intended results. |
| Corrected.FirstLastAsWritten | src/UtilLib/DateTime.cpp:215-218 | As written, for every valid date from stored year 1 on, all four derived dates are the default value, which has no day, while the intended ones have a day. |
| Corrected.YearFirstOfMinYearAsWritten | src/UtilLib/DateTime.cpp:217 | As written, `yearFirst()` of a date in minYear is 0001-01-01; the intended result is minDate(). |
| Corrected.FirstLastOfNoDateAsWritten | src/UtilLib/DateTime.cpp:215-218 | As written, all four derived dates of a value with every date unit n/a are May 6 of year −367475; the intended ones are the value with the time unset. |
| Corrected.YearOrNoYear | src/UtilLib/DateTime.h:72-73 | The year getter as documented: the year for a set year, and NOYEAR exactly when the year is n/a. |
| Corrected.YearAsWritten | src/UtilLib/DateTime.h:232 | As written, `year()` of an n/a year is maxYear + 1, not NOYEAR. |
| Corrected.Weekday | src/UtilLib/DateTime.cpp:46-50 | NODAY for an n/a day, and otherwise always 1..7. |
| Corrected.WeekdayAgrees | src/UtilLib/DateTime.cpp:46-50 | From stored year 1 on, the as-written weekday is the intended one. |
| Corrected.WeekdayAnchors | src/UtilLib/DateTime.cpp:46-50 | 2000-01-01 is a Saturday and 0001-01-01 a Monday. |
| Corrected.WeekdayAsWritten | src/UtilLib/DateTime.cpp:49 | As written, December 30 of minYear gets weekday 0. The intended weekday is Saturday. |
| Corrected.DayOffset | src/UtilLib/DateTime.h:195-199 | NODAYOFFSET exactly for invalid dates, day 0 included. Otherwise the day number. |
| Corrected.DayOffsetAsWritten | src/UtilLib/DateTime.h:196-198 | As written, day 0 of March 2020 is accepted and names a day 255 days after March 1. |
| CorrectedArith.FirstOffset | src/UtilLib/DateTime.h:45 | The first storable date is January 1 of minYear, 366 days before minDayOffset. |
| CorrectedArith.LastOffset | src/UtilLib/DateTime.h:46 | The last storable date is December 31 of maxYear, 365 days before maxDayOffset. |
| CorrectedArith.Estimate | src/UtilLib/DateTime.h:218-219 | The corrected estimate is the stored year that holds the offset or the year before it, so one correction step suffices. |
| CorrectedArith.EstimateBounds | src/UtilLib/DateTime.h:219 | The as-written estimate `o·400/146097` lies one or two years below the stored year that holds the offset. One correction step is therefore not always enough. |
| CorrectedArith.FromOffset | src/UtilLib/DateTime.h:213-229 | It yields a date exactly for offsets from minDate() to maxDate(), and the date has that offset. Every other offset gives the empty value. |
| CorrectedArith.FromOffsetHasYear | src/UtilLib/DateTime.h:226 | A date found for an offset up to maxDate() lies in a stored year. |
| CorrectedArith.SameOffsetSameDate | src/UtilLib/DateTime.h:241-242 | Two valid dates with the same offset have the same date fields. |
| CorrectedArith.FromOffsetRoundTrip | src/UtilLib/DateTime.h:213-229 | The offset constructor inverts `dayOffset()`: a valid value is rebuilt from its offset and time. |
| CorrectedArith.FromOffsetTime | src/UtilLib/DateTime.h:216 | The time argument affects only the time field. |
| CorrectedArith.FromDayOffsetAgrees | src/UtilLib/DateTime.h:213-229 | Wherever the as-written constructor yields a date in a stored year, it is the intended one. |
| CorrectedArith.FromDayOffsetAsWritten | src/UtilLib/DateTime.h:219 | As written, offset 365 (0002-01-01) and January 1 of minYear give no date. |
| CorrectedArith.FromDayOffsetBeyondMaxYear | src/UtilLib/DateTime.h:46 | As written, maxDayOffset gives a day with an n/a year. |
| CorrectedArith.SetDayOffset | src/UtilLib/DateTime.cpp:228-231 | It succeeds exactly for offsets from minDate() to maxDate(), and the date has that offset. The time is kept. |
| CorrectedArith.SetDayOffsetAsWritten | src/UtilLib/DateTime.cpp:229 | As written, setting a value's own offset unsets its time. The intended setter changes nothing. |
| CorrectedArith.Succ | src/UtilLib/DateTime.cpp:278-287 | The time is kept, a value with an n/a day is unchanged, and proper values stay proper. |
| CorrectedArith.Pred | src/UtilLib/DateTime.cpp:288-296 | The time is kept, a value with an n/a day is unchanged, and proper values stay proper. |
| CorrectedArith.SuccIsNextDay | src/UtilLib/DateTime.cpp:278-287 | `++` yields a date exactly below the last offset, one offset later. |
| CorrectedArith.SuccIsNextDate | src/UtilLib/DateTime.cpp:278-287 | `++` gives the Gregorian next date, and runs out exactly at December 31 of maxYear. |
| CorrectedArith.PredIsPreviousDay | src/UtilLib/DateTime.cpp:288-296 | `--` yields a date exactly above the first offset, one offset earlier. |
| CorrectedArith.PredIsBefore | src/UtilLib/DateTime.cpp:288-296 | The Gregorian next date of the result of `--` is the original date. |
| CorrectedArith.SuccPredInverse | src/UtilLib/DateTime.cpp:278-296 | `--` undoes `++` and `++` undoes `--`, away from the ends of the range. |
| CorrectedArith.WeekdayCycles | src/UtilLib/DateTime.cpp:46-50 | From each day to the next, the weekday advances by one, with Saturday wrapping to Sunday. |
| CorrectedArith.WeekdayNext | src/UtilLib/DateTime.cpp:46-50 | Of two days one offset apart, the later has the next weekday. |
| CorrectedArith.ModSeven | src/UtilLib/DateTime.cpp:48-49 | Helper: one more day advances the weekday remainder by one, Saturday wrapping to Sunday. |
| CorrectedArith.IncrementAgrees | src/UtilLib/DateTime.cpp:278-287 | Where the member month length is right, below maxYear, the as-written `++` is the intended one. |
| CorrectedArith.IncrementAsWritten | src/UtilLib/DateTime.cpp:280-285 | As written, `++` on an n/a date and at maxDate() breaks the cascade. The intended `++` keeps it. |
| CorrectedArith.PredFebruaryExamples | src/UtilLib/DateTime.cpp:292 | Example: the intended `--` goes from 2020-03-01 to February 29, and from 2019-03-01 to February 28. |
| CorrectedArith.DecrementAsWritten | src/UtilLib/DateTime.cpp:290 | As written, `--` on an n/a date stores day 31 under an n/a month, breaking the cascade. The intended `--` leaves it unchanged. |
| CorrectedArith.AddDays | src/UtilLib/DateTime.cpp:243-267 | It yields a date exactly when the target offset is storable, with that offset. The time is kept, and n/a stays n/a. |
| CorrectedArith.SubDays | src/UtilLib/DateTime.cpp:269 | `-= dt` moves dt days earlier and keeps the time. |
| CorrectedArith.AddSubRoundTrip | src/UtilLib/DateTime.cpp:243-269 | Subtracting what was added gives back the original value, within the range. |
| CorrectedArith.AddDaysDifference | src/UtilLib/DateTime.cpp:306-307 | The difference operator measures what `+=` added. |
| CorrectedArith.SuccIsAddOne | src/UtilLib/DateTime.cpp:278-287 | `++` is `+= 1`. |
| CorrectedArith.AddAssignAgrees | src/UtilLib/DateTime.cpp:243-267 | Wherever the as-written `+=` yields a date in range, it is the intended date. Only the time may differ. |
| CorrectedArith.SubAssignAsWritten | src/UtilLib/DateTime.cpp:269 | As written, `-= 1` changes nothing, while the intended `-= 1` gives the previous day. |
| CorrectedArith.AddAssignClearsTime | src/UtilLib/DateTime.cpp:263-265 | As written, `+= 366` unsets the time. The intended `+=` keeps it. |

## Left out

- `partOf24h()`, `time(H, M, double)` and `partOf24h(double)` (DateTime.cpp:60, :198-205): floating point.
- The two `years` members and `parse` (DateTime.cpp:61-132, :311-333): their bodies are commented out in the source, and `years` is floating point.
- The Boost.Gregorian bridge (DateTime_boost.h, DateTime_boost.cpp): it calls into a foreign library. DateTime_boost.h and DateTime_boost.cpp are not part of this model.
- The big-endian bit-field specialisation (DateTimeBase.h:29-35): one canonical layout is modelled.
- Copy constructor, assignment, and the private raw-word constructor `DateTime(void*, uint64_t)` (DateTime.cpp:53-57): values are immutable Dafny datatypes, so these are the datatype constructor and plain value passing. No member of the source calls the raw-word constructor; Corrected.MonthFirst, Corrected.YearFirst and Corrected.YearLast take the masked word as the value, which is what that constructor would store.
- `operator+(dt)`, `operator-(dt)`, and postfix `++`/`--` (DateTime.cpp:272-275, :298-301): these apply `+=`, `-=`, `++` or `--` to a copy, which is the same function on an immutable value.
- DateTimeTimeOfDay.TimeUnits: only the getter with all four out-parameters given is modelled. The branches for omitted out-parameters, which fold a unit into the next, are left out.
- DateTimeCtor.Make: for a year above 2013266047 the C++ `Y - minYear` (DateTime.h:202) overflows `int`, which is undefined behaviour. The model wraps the difference into the 28-bit field as a two's-complement machine would; the year-range test (DateTime.h:205) then makes every date unit n/a, which is all the contract states for such years.
- DateTimeQueries.Weekday: the contract covers stored years from 1 on. For stored year 0 the C++ remainder goes negative; Corrected.WeekdayAsWritten shows one such input, but the contract does not describe that range in general.
- DateTimeArith.Increment and DateTimeArith.Decrement: the calendar step is proved only where the member `monthLength()` is right (DateTimeArith.IncrementIsNextDay). Elsewhere the contracts state the sentinel cases.

## Findings

| source | as written | input that shows it | evidently intended | confidence | as-written member | corrected member |
|---|---|---|---|---|---|---|
| src/UtilLib/DateTime.h:185 | static `yearLength` returns 355 for common years | `yearLength(2019)` | 365, as the member `yearLength()` returns | high, not executed | Corrected.YearLengthAsWritten | Corrected.YearLength |
| src/UtilLib/DateTime.cpp:44 | member `monthLength()` passes `y + 1`, the stored offset plus one, so February gets the following year's length | February 2020 gives 28, February 2019 gives 29 | `monthLength(year(), month())` | high, not executed | Corrected.MonthLengthAsWritten | Corrected.MonthLength |
| src/UtilLib/DateTime.cpp:167 | `set(Y, M, D)` checks the day against that member `monthLength()` | `set(2020, 2, 29)` fails; `set(2019, 2, 29)` succeeds | the constructor's cascade | high, not executed | Corrected.SetYMDAsWritten | Corrected.SetYMD |
| src/UtilLib/DateTime.cpp:185 | `day(D)` checks against the same member | `day(29)` in February 2020 fails | the true month length | high, not executed | Corrected.SetDayAsWritten | Corrected.SetDay |
| src/UtilLib/DateTime.cpp:212-216 | `isMonthLast` and `monthLast` use the same member; `monthLast` of an n/a month ORs −1 into every date field, and that all-n/a word then decodes as a day offset | 2020-02-29 is not month-last; `monthLast` of (2020, month 13) gives −367475-05-06 | the true month length; the original value with the time unset | high, not executed | Corrected.MonthLastAsWritten | Corrected.MonthLast |
| src/UtilLib/DateTime.cpp:215-218 | `monthFirst`, `monthLast`, `yearFirst` and `yearLast` pass the masked `uint64_t` to `DateTime(...)` with one argument, which is the day-offset constructor, so the word is read as a day offset | `monthFirst()` of 2020-03-15 gives `DateTime()`; `yearFirst(minDate())` gives 0001-01-01 | the masked word itself as the value, and the original value with the time unset for an n/a unit (DateTime.h:108-109) | high, not executed | Corrected.FirstLastAsWritten | Corrected.FirstLastInRange |
| src/UtilLib/DateTime.h:232 | `year()` adds minYear to the stored field, so an n/a year reads as maxYear + 1 | `year()` of the all-n/a value | `NOYEAR` for an n/a year, as DateTime.h:72 says | high, not executed | Corrected.YearAsWritten | Corrected.YearOrNoYear |
| src/UtilLib/DateTime.cpp:281 | `++` steps by the same member month length | 2020-02-28 steps to March 1; 2019-02-28 steps to 2019-02-29 | the Gregorian next day | high, not executed | DateTimeArith.IncrementFebruaryExamples | CorrectedArith.Succ |
| src/UtilLib/DateTime.cpp:280 | the n/a guard compares `d` with 32, but the stored sentinel is 31 | `++` on the default value gives a day under an n/a month | an n/a date stays unchanged | high, not executed | CorrectedArith.IncrementAsWritten | CorrectedArith.Succ |
| src/UtilLib/DateTime.cpp:292 | `--` from the 1st of a month takes the last day from the same member month length | 2020-03-01 steps to February 28; 2019-03-01 steps to 2019-02-29 | the Gregorian previous day | high, not executed | DateTimeArith.DecrementFebruaryExamples | CorrectedArith.Pred |
| src/UtilLib/DateTime.cpp:290 | the same guard in `--` | `--` on the default value gives day 31 under an n/a month | an n/a date stays unchanged | high, not executed | CorrectedArith.DecrementAsWritten | CorrectedArith.Pred |
| src/UtilLib/DateTime.cpp:245 | the same guard in `+=` | `+= 0` on February 2012 with an n/a day gives 2012-03-03 | an n/a date stays unchanged | high, not executed | DateTimeArith.AddZeroOnNoDay | CorrectedArith.AddDays |
| src/UtilLib/DateTime.cpp:284-285 | `++` past the last year sets `INVALID`, then `m = 0` | `++maxDate()` has an n/a year under month January | every date unit n/a | high, not executed | DateTimeArith.IncrementPastMaxDate | CorrectedArith.Succ |
| src/UtilLib/DateTime.cpp:269 | `-=` returns `*this` | `-= 1` on any date | the previous day | high, not executed | CorrectedArith.SubAssignAsWritten | CorrectedArith.SubDays |
| src/UtilLib/DateTime.cpp:263-265 | the long path of `+=` goes through `dayOffset(dt)`, which unsets the time | `+= 366` on a date with a time | the time unchanged, as DateTime.h:154 says | high, not executed | CorrectedArith.AddAssignClearsTime | CorrectedArith.AddDays |
| src/UtilLib/DateTime.cpp:229 | `dayOffset(dt)` assigns `DateTime{ dt }`, which unsets the time | setting a dated value's own offset | the time unchanged, as DateTime.h:115 says for every date setter | medium, not executed | CorrectedArith.SetDayOffsetAsWritten | CorrectedArith.SetDayOffset |
| src/UtilLib/DateTime.cpp:209 | `isMonthFirst` tests `m == 0` | 2020-01-15 | `d == 0` | high, not executed | Corrected.IsMonthFirstAsWritten | Corrected.IsMonthFirst |
| src/UtilLib/DateTime.h:211 | the default constructor stores `NOYEAR + minYear`, an ordinary stored year | `DateTime()` reads as year 255 and sorts before 0256-01-01 | `NOYEAR`, every date unit n/a | high, not executed | Corrected.EmptyAsWritten | Corrected.Empty |
| src/UtilLib/DateTime.h:219 | the year estimate counts from minDayOffset, the start of year minYear + 1, so it can be two years low; the range bounds are a year late | offset 365 (0002-01-01) gives n/a month and day; maxDayOffset gives a day under an n/a year | every offset from minDate() to maxDate() decodes to its date | high, not executed | CorrectedArith.FromDayOffsetAsWritten | CorrectedArith.FromOffset |
| src/UtilLib/DateTime.h:239 | `dayInYear()` has no n/a branch | the default value reports 489 | 0 for an n/a day, as DateTime.h:76 says | high, not executed | Corrected.DayInYearAsWritten | Corrected.DayInYear |
| src/UtilLib/DateTime.cpp:221-224 | `dayInYear(dY)` takes dY zero-based, while the getter is one-based | January 1 set to its own `dayInYear()` (1) becomes January 2 | one-based like the getter | medium, not executed | Corrected.SetDayInYearAsWritten | Corrected.SetDayInYear |
| src/UtilLib/DateTime.h:196-198 | day 0 passes the range test and `--D` wraps to 255 | `dayOffset(2020, 3, 0)` | NODAYOFFSET | high, not executed | Corrected.DayOffsetAsWritten | Corrected.DayOffset |
| src/UtilLib/DateTime.cpp:49 | `weekday()` takes the truncating `%` of `dayOffset_<0>` on the stored year, which is negative in stored year 0 | December 30 of minYear gives 0 | the weekday 1..7 of every date | high, not executed | Corrected.WeekdayAsWritten | Corrected.Weekday |

The guard `m == NOMONTH` of `day(D)` (DateTime.cpp:185) compares the 4-bit field with 16 and never holds. It is harmless: the member `monthLength()` of an n/a month is 0, so the day test fails anyway (DateTimeSetters.SetDay).
