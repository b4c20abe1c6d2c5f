/**
 * Time of day in DateTime (src/UtilLib/DateTime.cpp:136-144, :190-197, :206):
 * the millisecond and hour/minute/second setters, the getter that splits the
 * stored time into units, and `unsetTime`. The stored field is the time in
 * milliseconds plus one; 0 means unset.
 */
module DateTimeTimeOfDay {
  import opened CInt
  import opened DateTimeLimits
  import opened DateTimeFields
  import opened DateTimeSetters

  /** `maxH`: the hour bound of the unit setter, `maxTime / (60 * 60 * 1000)`. */
  const maxH: int := maxTime / (60 * 60 * 1000)

  /** The units the getter `time(&H, &M, &S, &L)` stores, or nothing when no time is set. */
  datatype Clock = NoTime | Clock(hours: UShort, minutes: UShort, seconds: UShort, millis: UShort)

  /** `time(T)`: set the time of day in milliseconds; T at or above maxTime unsets it and fails. */
  function SetTimeMs(x: DateTime, T: UInt): (r: Updated)
    ensures r.ok <==> T < maxTime
    ensures r.ok ==> Time(r.x) == T
    ensures !r.ok ==> !HasTime(r.x)
    ensures r.x.y == x.y && r.x.m == x.m && r.x.d == x.d
    ensures Proper(x) ==> Proper(r.x)
  {
    if T < maxTime then Updated(x.(t := T + 1), true)
    else Updated(x.(t := 0), false)
  }

  /** `time(H, M, S, MS)`: set the time from units; any unit out of range unsets it and fails. */
  function SetTimeHMS(x: DateTime, H: UShort, M: UShort, S: UShort, MS: UShort): (r: Updated)
    ensures r.ok <==> MS < 1000 && S < 60 && M < 60 && H < 30
    ensures r.ok ==> Time(r.x) == ((H * 60 + M) * 60 + S) * 1000 + MS
    ensures !r.ok ==> !HasTime(r.x)
    ensures r.x.y == x.y && r.x.m == x.m && r.x.d == x.d
    ensures Proper(x) ==> Proper(r.x)
  {
    if MS >= 1000 || S >= 60 || M >= 60 || H >= maxH then Updated(x.(t := 0), false)
    else Updated(x.(t := 1 + MS + 1000 * (S + 60 * (M + 60 * H))), true)
  }

  /**
   * The getter `time(&H, &M, &S, &L)` with every out-parameter given: hours, then
   * the remaining minutes, seconds and milliseconds of the stored time.
   */
  function TimeUnits(x: DateTime): (c: Clock)
    ensures c == NoTime <==> !HasTime(x)
    ensures c.Clock? ==> c.millis < 1000 && c.seconds < 60 && c.minutes < 60
    ensures c.Clock? ==> ((c.hours * 60 + c.minutes) * 60 + c.seconds) * 1000 + c.millis == Time(x)
  {
    if x.t == 0 then NoTime
    else
      var T := x.t - 1;
      var H := T / 3600000;
      var T1 := T - 3600000 * H;
      var M := T1 / 60000;
      var T2 := T1 - 60000 * M;
      var S := T2 / 1000;
      var L := T2 - 1000 * S;
      Clock(H, M, S, L)
  }

  /** `unsetTime()`: only the time changes. */
  function UnsetTime(x: DateTime): (r: DateTime)
    ensures !HasTime(r) && Time(r) == NOTIME
    ensures r.y == x.y && r.m == x.m && r.d == x.d
  {
    x.(t := 0)
  }

  // ---------------------------------------------------------------------------
  // Lemmas

  /** The getter returns exactly the units the unit setter accepted. */
  lemma {:induction false} TimeUnitsRoundTrip(x: DateTime, H: UShort, M: UShort, S: UShort, MS: UShort)
    requires MS < 1000 && S < 60 && M < 60 && H < 30
    ensures TimeUnits(SetTimeHMS(x, H, M, S, MS).x) == Clock(H, M, S, MS)
  {
    var c := TimeUnits(SetTimeHMS(x, H, M, S, MS).x);
    var T := ((H * 60 + M) * 60 + S) * 1000 + MS;
    assert T == H * 3600000 + (M * 60000 + S * 1000 + MS);
    assert M * 60000 + S * 1000 + MS < 3600000;
    assert c.hours == H;
    assert M * 60000 + (S * 1000 + MS) == c.minutes * 60000 + (c.seconds * 1000 + c.millis);
    assert S * 1000 + MS < 60000 && c.seconds * 1000 + c.millis < 60000;
    assert c.minutes == M;
    assert c.seconds == S;
  }

  /** Setting a time in milliseconds and reading it back in units gives the same time. */
  lemma SetTimeMsUnits(x: DateTime, T: UInt)
    requires T < maxTime
    ensures var c := TimeUnits(SetTimeMs(x, T).x);
      c.Clock? && ((c.hours * 60 + c.minutes) * 60 + c.seconds) * 1000 + c.millis == T
  {
  }
}
