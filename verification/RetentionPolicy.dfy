// Retention policy arithmetic (internal/retention/policy.go), in the int64
// nanoseconds of time.Duration.

module RetentionPolicy {
  import opened Bytes

  const MILLISECOND: int := 1_000_000
  const FLOOR_YEARS_MINIMUM: int := 7
  const HOT_MAX_CEILING: int := 7_776_000_000_000_000

  datatype Policy = Policy(floorYears: I64, hotMax: I64, sealInterval: I64)

  /** int64 arithmetic wraps. */
  function Int64(x: int): I64 {
    (x + TWO63) % TWO64 - TWO63
  }

  /** Duration.Milliseconds, and division by time.Millisecond: Go's integer
      division truncates toward zero. */
  function Millis(d: I64): I64 {
    var ns: int := d;
    if ns >= 0 then ns / MILLISECOND else -(-ns / MILLISECOND)
  }

  /** Toward zero: never longer than the duration, and short of it by less than a
      millisecond. */
  lemma {:induction false} MillisTruncates(d: I64)
    ensures if d >= 0 then Millis(d) * MILLISECOND <= d < (Millis(d) + 1) * MILLISECOND
      else (Millis(d) - 1) * MILLISECOND < d <= Millis(d) * MILLISECOND
  {}

  /** Within int64, comparing in milliseconds is comparing whole milliseconds. */
  lemma {:induction false} WholeMillis(x: int, d: I64)
    requires -TWO63 <= x < TWO63 && d > 0
    ensures Int64(x) == x && (Int64(x) < Millis(d) <==> (x + 1) * MILLISECOND <= d)
  {}

  predicate ValidPolicy(p: Policy) {
    p.floorYears >= FLOOR_YEARS_MINIMUM && 0 < p.hotMax <= HOT_MAX_CEILING && 0 < p.sealInterval < p.hotMax
  }

  /** NewPolicy refuses, never clamps. */
  function NewPolicy(floorYears: I64, hotMax: I64, sealInterval: I64): (r: Option<Policy>)
    ensures r.Some? <==> ValidPolicy(Policy(floorYears, hotMax, sealInterval))
    ensures r.Some? ==> r.value == Policy(floorYears, hotMax, sealInterval)
  {
    if floorYears < FLOOR_YEARS_MINIMUM then None
    else if hotMax <= 0 || hotMax > HOT_MAX_CEILING then None
    else if sealInterval <= 0 || sealInterval >= hotMax then None
    else Some(Policy(floorYears, hotMax, sealInterval))
  }

  /** time.Duration(now - oldest) * time.Millisecond. */
  function Age(now: I64, oldest: I64): I64 {
    Int64(Int64(now - oldest) * MILLISECOND)
  }

  predicate RotationDue(p: Policy, now: I64, oldest: I64) {
    Age(now, oldest) >= Int64(p.hotMax - p.sealInterval)
  }

  predicate CeilingBreached(p: Policy, now: I64, oldest: I64) {
    Age(now, oldest) > p.hotMax
  }

  /** Ages up to 292 years do not overflow the nanosecond count. */
  const MAX_AGE_MILLIS: int := 9_223_372_036_854

  predicate Datable(now: I64, oldest: I64) {
    -MAX_AGE_MILLIS <= now - oldest <= MAX_AGE_MILLIS
  }

  /** The ceiling less a seal interval has passed since a stamp, by the clock. */
  predicate Ripe(p: Policy, now: I64, stamp: I64) {
    (now - stamp) * MILLISECOND >= p.hotMax - p.sealInterval
  }

  /** The age is right exactly in that range. */
  lemma {:induction false} AgeExact(now: I64, oldest: I64)
    ensures Age(now, oldest) == (now - oldest) * MILLISECOND <==> Datable(now, oldest)
  {}

  /** In that range, due and past the ceiling are what they are in elapsed
      time: neither is early. */
  lemma {:induction false} DueExactly(p: Policy, now: I64, oldest: I64)
    requires ValidPolicy(p) && Datable(now, oldest)
    ensures RotationDue(p, now, oldest) <==> Ripe(p, now, oldest)
    ensures CeilingBreached(p, now, oldest) <==> (now - oldest) * MILLISECOND > p.hotMax
  {
    AgeExact(now, oldest);
  }

  /** Rotation is not early, and not rotating is not late, for stamps the clock
      can date. */
  predicate MayLeave(p: Policy, now: I64, stamp: I64) {
    ValidPolicy(p) && Datable(now, stamp) ==> Ripe(p, now, stamp)
  }

  predicate MayStay(p: Policy, now: I64, stamp: I64) {
    ValidPolicy(p) && Datable(now, stamp) ==> !Ripe(p, now, stamp)
  }

  lemma {:induction false} DueDecides(p: Policy, now: I64, stamp: I64)
    ensures if RotationDue(p, now, stamp) then MayLeave(p, now, stamp) else MayStay(p, now, stamp)
  {
    if ValidPolicy(p) && Datable(now, stamp) { DueExactly(p, now, stamp); }
  }

  /** A segment is due by its oldest record: the youngest can leave the hot tier
      with it a seal interval short of that age. */
  lemma {:induction false} DueByTheOldest()
    ensures var p := Policy(7, HOT_MAX_CEILING, 86_400_000_000_000); var now, youngest := 7_689_600_000, 86_399_999;
      ValidPolicy(p) && RotationDue(p, now, 0) && !Ripe(p, now, youngest)
  {}

  /** Within that range a younger record is never due before an older one,
      which is why rotation may stop at the first segment that is not due. */
  lemma {:induction false} DueInOrder(p: Policy, now: I64, older: I64, younger: I64)
    requires ValidPolicy(p) && Datable(now, older) && Datable(now, younger) && older <= younger
    requires RotationDue(p, now, younger)
    ensures RotationDue(p, now, older)
  {
    AgeExact(now, older);
    AgeExact(now, younger);
  }

  /** A segment whose ceiling is breached was due for rotation already, and had
      been for the whole seal interval. */
  lemma {:induction false} DueBeforeBreach(p: Policy, now: I64, oldest: I64)
    requires ValidPolicy(p) && Datable(now, oldest) && CeilingBreached(p, now, oldest)
    ensures RotationDue(p, now, oldest)
    ensures now - Millis(p.sealInterval) > oldest && RotationDue(p, now - Millis(p.sealInterval), oldest)
  {
    AgeExact(now, oldest);
    AgeExact(now - Millis(p.sealInterval), oldest);
  }

  /** Beyond the range the age wraps: a record 293 years old reads as younger
      than the threshold, and is not due. */
  lemma {:induction false} AgeWraps()
    ensures var p := Policy(7, HOT_MAX_CEILING, 86_400_000_000_000);
      ValidPolicy(p) && !RotationDue(p, 9_246_528_000_000, 0)
  {}
}
