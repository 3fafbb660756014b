// Per-source rate shaping at the fan-in boundary (internal/ingest/fairness.go).

module Fairness {
  import opened Bytes

  datatype Share = Share(burst: int, refillEvery: int)

  predicate Fair(s: Share) { s.burst >= 1 && s.refillEvery >= 1 }

  /** newLimiter raises a non-positive share to one. */
  function Clamped(s: Share): (f: Share)
    ensures Fair(f) && (Fair(s) ==> f == s)
    ensures f.burst == s.burst || (s.burst < 1 && f.burst == 1)
    ensures f.refillEvery == s.refillEvery || (s.refillEvery < 1 && f.refillEvery == 1)
  {
    Share(if s.burst < 1 then 1 else s.burst, if s.refillEvery < 1 then 1 else s.refillEvery)
  }

  datatype Bucket = Bucket(tokens: int, lastRefill: int, overShare: nat, saturated: bool, onsetReported: bool)

  type Buckets = map<Text, Bucket>

  // ---------- one bucket ----------

  function Refill(s: Share, b: Bucket, now: int): Bucket
    requires Fair(s)
  {
    if b.tokens >= s.burst then b.(lastRefill := now)
    else if now - b.lastRefill < s.refillEvery then b
    else
      var gained := (now - b.lastRefill) / s.refillEvery;
      b.(tokens := if b.tokens + gained > s.burst then s.burst else b.tokens + gained,
         lastRefill := b.lastRefill + gained * s.refillEvery)
  }

  /** An admission attempt: the bucket after it, and whether it was admitted. */
  function Take(s: Share, b: Bucket, now: int): (Bucket, bool)
    requires Fair(s)
  {
    var r := Refill(s, b, now);
    if r.tokens > 0 then (r.(tokens := r.tokens - 1, saturated := false, onsetReported := false), true)
    else (r.(overShare := r.overShare + 1, saturated := true), false)
  }

  function Report(b: Bucket): (Bucket, bool) {
    if !b.saturated || b.onsetReported then (b, false) else (b.(onsetReported := true), true)
  }

  // ---------- the limiter ----------

  datatype Call = Admit(source: Text, now: int) | Onset(source: Text)

  function BucketOf(s: Share, bs: Buckets, source: Text, now: int): Bucket {
    if source in bs then bs[source] else Bucket(s.burst, now, 0, false, false)
  }

  function Step(s: Share, bs: Buckets, c: Call): (Buckets, bool)
    requires Fair(s)
  {
    match c
    case Admit(source, now) =>
      var (b, ok) := Take(s, BucketOf(s, bs, source, now), now);
      (bs[source := b], ok)
    case Onset(source) =>
      if source !in bs then (bs, false)
      else
        var (b, first) := Report(bs[source]);
        (bs[source := b], first)
  }

  function After(s: Share, bs: Buckets, cs: seq<Call>): Buckets
    requires Fair(s)
    decreases |cs|
  {
    if cs == [] then bs else After(s, Step(s, bs, cs[0]).0, cs[1..])
  }

  function Admissions(s: Share, bs: Buckets, cs: seq<Call>, source: Text): nat
    requires Fair(s)
    decreases |cs|
  {
    if cs == [] then 0
    else
      var (bs', a) := Step(s, bs, cs[0]);
      (if cs[0].Admit? && cs[0].source == source && a then 1 else 0) + Admissions(s, bs', cs[1..], source)
  }

  function Attempts(cs: seq<Call>, source: Text): nat {
    if cs == [] then 0
    else (if cs[0].Admit? && cs[0].source == source then 1 else 0) + Attempts(cs[1..], source)
  }

  /** The over-share count is the number of shaped events. */
  lemma {:induction false} ShapedAreCounted(s: Share, bs: Buckets, cs: seq<Call>, source: Text)
    requires Fair(s)
    ensures var before := if source in bs then bs[source].overShare else 0; var after := After(s, bs, cs);
      && Admissions(s, bs, cs, source) <= Attempts(cs, source)
      && (source in after <==> source in bs || Attempts(cs, source) > 0)
      && (source in after ==> after[source].overShare == before + Attempts(cs, source) - Admissions(s, bs, cs, source))
    decreases |cs|
  {
    if cs != [] { ShapedAreCounted(s, Step(s, bs, cs[0]).0, cs[1..], source); }
  }

  lemma {:induction false} OneMoreCall(s: Share, bs: Buckets, cs: seq<Call>, c: Call)
    requires Fair(s)
    ensures After(s, bs, cs + [c]) == Step(s, After(s, bs, cs), c).0
    decreases |cs|
  {
    if cs == [] {
      assert [] + [c] == [c] && [c][1..] == [];
    } else {
      assert (cs + [c])[1..] == cs[1..] + [c];
      OneMoreCall(s, Step(s, bs, cs[0]).0, cs[1..], c);
    }
  }

  class Limiter {
    const share: Share
    var buckets: Buckets
    /** Every call so far. */
    ghost var calls: seq<Call>

    ghost predicate Valid()
      reads this
    {
      Fair(share) && buckets == After(share, map[], calls)
    }

    constructor (share: Share)
      ensures Valid() && this.share == Clamped(share) && buckets == map[] && calls == []
    {
      this.share, buckets, calls := Clamped(share), map[], [];
    }

    /** bucketFor reads the clock again, not before the caller did. */
    method BucketFor(source: Text, later: int) returns (b: Bucket)
      modifies this`buckets
      ensures b == BucketOf(share, old(buckets), source, later) && buckets == old(buckets)[source := b]
    {
      if source !in buckets {
        buckets := buckets[source := Bucket(share.burst, later, 0, false, false)];
      }
      b := buckets[source];
    }

    method Refilled(b: Bucket, now: int) returns (r: Bucket)
      requires Fair(share)
      ensures r == Refill(share, b, now)
    {
      r := b;
      if r.tokens >= share.burst { return r.(lastRefill := now); }
      var elapsed := now - r.lastRefill;
      if elapsed < share.refillEvery { return; }
      var gained := elapsed / share.refillEvery;
      r := r.(tokens := r.tokens + gained);
      if r.tokens > share.burst { r := r.(tokens := share.burst); }
      r := r.(lastRefill := r.lastRefill + gained * share.refillEvery);
    }

    /** admit: a token is spent, or the event is shaped and counted. */
    method TryAdmit(source: Text, now: int, later: int) returns (ok: bool)
      requires Valid() && now <= later
      modifies this`buckets, this`calls
      ensures Valid() && calls == old(calls) + [Admit(source, now)]
      ensures (buckets, ok) == Step(share, old(buckets), Admit(source, now))
    {
      OneMoreCall(share, map[], calls, Admit(source, now));
      calls := calls + [Admit(source, now)];
      var b := BucketFor(source, later);
      b := Refilled(b, now);
      if b.tokens > 0 {
        b := b.(tokens := b.tokens - 1, saturated := false, onsetReported := false);
        ok := true;
      } else {
        b := b.(overShare := b.overShare + 1, saturated := true);
        ok := false;
      }
      buckets := buckets[source := b];
      assert buckets == old(buckets)[source := b];
    }

    /** saturationOnset. */
    method SaturationOnset(source: Text) returns (first: bool)
      requires Valid()
      modifies this`buckets, this`calls
      ensures Valid() && calls == old(calls) + [Onset(source)]
      ensures (buckets, first) == Step(share, old(buckets), Onset(source))
    {
      OneMoreCall(share, map[], calls, Onset(source));
      calls := calls + [Onset(source)];
      if source !in buckets || !buckets[source].saturated || buckets[source].onsetReported {
        assert source in buckets ==> buckets == buckets[source := buckets[source]];
        return false;
      }
      buckets := buckets[source := buckets[source].(onsetReported := true)];
      return true;
    }

    /** OverShare: how many of the source's events were shaped since the start. */
    method OverShare(source: Text) returns (n: nat)
      requires Valid()
      ensures n == Attempts(calls, source) - Admissions(share, map[], calls, source)
    {
      ShapedAreCounted(share, map[], calls, source);
      return if source in buckets then buckets[source].overShare else 0;
    }
  }

  // ---------- isolation ----------

  function Own(cs: seq<Call>, source: Text): seq<Call> {
    if cs == [] then []
    else if cs[0].source == source then [cs[0]] + Own(cs[1..], source)
    else Own(cs[1..], source)
  }

  /** What a source's own calls answer within a run of everyone's calls. */
  function Answers(s: Share, bs: Buckets, cs: seq<Call>, source: Text): seq<bool>
    requires Fair(s)
    decreases |cs|
  {
    if cs == [] then []
    else
      var (bs', a) := Step(s, bs, cs[0]);
      if cs[0].source == source then [a] + Answers(s, bs', cs[1..], source)
      else Answers(s, bs', cs[1..], source)
  }

  predicate SameBucket(a: Buckets, b: Buckets, source: Text) {
    (source in a <==> source in b) && (source in a ==> a[source] == b[source])
  }

  /** A source's answers, and its bucket, are those of the run in which it was
      alone. */
  lemma {:induction false} Isolation(s: Share, bs: Buckets, alone: Buckets, cs: seq<Call>, source: Text)
    requires Fair(s) && SameBucket(bs, alone, source)
    ensures Answers(s, bs, cs, source) == Answers(s, alone, Own(cs, source), source)
    ensures SameBucket(After(s, bs, cs), After(s, alone, Own(cs, source)), source)
    decreases |cs|
  {
    if cs != [] {
      var c, bs' := cs[0], Step(s, bs, cs[0]).0;
      if c.source == source {
        var rest := Own(cs[1..], source);
        assert ([c] + rest)[1..] == rest;
        Isolation(s, bs', Step(s, alone, c).0, cs[1..], source);
      } else {
        Isolation(s, bs', alone, cs[1..], source);
      }
    }
  }

  // ---------- the rate bound ----------

  /** The clock does not go back, and ends by `end`. */
  predicate Clocked(cs: seq<Call>, start: int, end: int)
    decreases |cs|
  {
    if cs == [] then start <= end
    else if cs[0].Onset? then Clocked(cs[1..], start, end)
    else start <= cs[0].now && Clocked(cs[1..], cs[0].now, end)
  }

  lemma {:induction false} DivisionSteps(x: int, r: int)
    requires r >= 1 && x >= r
    ensures x / r >= 1 && 0 <= x - (x / r) * r < r
  {}

  /** After a refill less than one interval is unaccounted for. */
  lemma {:induction false} RefillAccounts(s: Share, b: Bucket, now: int)
    requires Fair(s) && b.lastRefill <= now
    ensures var r := Refill(s, b, now); b.lastRefill <= r.lastRefill <= now && now - r.lastRefill < s.refillEvery
    ensures b.tokens <= s.burst ==> Refill(s, b, now).tokens <= s.burst
    ensures b.tokens >= 0 ==> Refill(s, b, now).tokens >= 0
    ensures b.lastRefill + s.refillEvery <= now && b.tokens >= 0 ==> Refill(s, b, now).tokens >= 1
  {
    if now - b.lastRefill >= s.refillEvery { DivisionSteps(now - b.lastRefill, s.refillEvery); }
  }

  /** Time held as tokens. */
  function Held(s: Share, b: Bucket): int {
    b.tokens * s.refillEvery - b.lastRefill
  }

  lemma {:induction false} TimesDistributes(a: int, b: int, r: int)
    ensures (a + b) * r == a * r + b * r
  {}

  lemma {:induction false} TimesMonotone(a: int, b: int, r: int)
    requires a <= b && r >= 0
    ensures a * r <= b * r
  {}

  lemma {:induction false} RefillHolds(s: Share, b: Bucket, now: int)
    requires Fair(s) && b.lastRefill <= now
    ensures Held(s, Refill(s, b, now)) <= Held(s, b)
  {
    if b.tokens < s.burst && now - b.lastRefill >= s.refillEvery {
      var gained := (now - b.lastRefill) / s.refillEvery;
      TimesDistributes(b.tokens, gained, s.refillEvery);
      TimesMonotone(Refill(s, b, now).tokens, b.tokens + gained, s.refillEvery);
    }
  }

  /** Each admission spends one interval of what the bucket holds. */
  lemma {:induction false} TakeSpends(s: Share, b: Bucket, now: int)
    requires Fair(s) && b.lastRefill <= now && b.tokens >= 0
    ensures var (b', ok) := Take(s, b, now);
      && (if ok then s.refillEvery else 0) + Held(s, b') <= Held(s, b)
      && b.lastRefill <= b'.lastRefill <= now && b'.tokens >= 0
  {
    RefillHolds(s, b, now);
    RefillAccounts(s, b, now);
    TimesDistributes(Refill(s, b, now).tokens - 1, 1, s.refillEvery);
  }

  lemma {:induction false} RunSpends(s: Share, bs: Buckets, cs: seq<Call>, source: Text, start: int, end: int)
    requires Fair(s) && source in bs && bs[source].tokens >= 0
        && bs[source].lastRefill <= start && Clocked(cs, start, end)
    ensures var after := After(s, bs, cs);
      && source in after && after[source].tokens >= 0 && after[source].lastRefill <= end
      && Admissions(s, bs, cs, source) * s.refillEvery + Held(s, after[source]) <= Held(s, bs[source])
    decreases |cs|
  {
    if cs != [] {
      var c := cs[0];
      var (bs', a) := Step(s, bs, c);
      if c.Admit? && c.source == source { TakeSpends(s, bs[source], c.now); }
      RunSpends(s, bs', cs[1..], source, if c.Admit? then c.now else start, end);
      var one := if c.Admit? && c.source == source && a then 1 else 0;
      TimesDistributes(one, Admissions(s, bs', cs[1..], source), s.refillEvery);
    }
  }

  predicate Sound(s: Share, bs: Buckets, now: int) {
    forall source :: source in bs ==> 0 <= bs[source].tokens <= s.burst && bs[source].lastRefill <= now
  }

  /** Every run of a new limiter under a clock that does not go back is sound. */
  lemma {:induction false} RunKeepsSound(s: Share, bs: Buckets, cs: seq<Call>, start: int, end: int)
    requires Fair(s) && Sound(s, bs, start) && Clocked(cs, start, end)
    ensures Sound(s, After(s, bs, cs), end)
    decreases |cs|
  {
    if cs != [] {
      var c := cs[0];
      if c.Admit? { RefillAccounts(s, BucketOf(s, bs, c.source, c.now), c.now); }
      RunKeepsSound(s, Step(s, bs, c).0, cs[1..], if c.Admit? then c.now else start, end);
    }
  }

  lemma {:induction false} DivideBound(a: int, burst: int, t: int, r: int)
    requires r >= 1 && a * r <= burst * r + t + r - 1
    ensures a <= burst + (t + r - 1) / r
  {
    var q := (t + r - 1) / r;
    if a > burst + q {
      TimesMonotone(burst + q + 1, a, r);
      TimesDistributes(burst, q + 1, r);
      TimesDistributes(q, 1, r);
    }
  }

  /** From a call at time t on, for any span of time, a source is admitted at
      most Burst + ceil(span / refill) times, that call included, whatever it and
      the others do. */
  lemma {:induction false} RateBound(s: Share, bs: Buckets, cs: seq<Call>, source: Text, t: int, span: nat)
    requires Fair(s) && cs != [] && cs[0] == Admit(source, t) && Clocked(cs, t, t + span)
    requires Sound(s, bs, t)
    ensures Admissions(s, bs, cs, source) <= s.burst + (span + s.refillEvery - 1) / s.refillEvery
  {
    var b := BucketOf(s, bs, source, t);
    var r := Refill(s, b, t);
    RefillAccounts(s, b, t);
    TimesDistributes(r.tokens - 1, 1, s.refillEvery);
    var (bs', ok) := Step(s, bs, cs[0]);
    var rest := Admissions(s, bs', cs[1..], source);
    RunSpends(s, bs', cs[1..], source, t, t + span);
    TimesDistributes(if ok then 1 else 0, rest, s.refillEvery);
    TimesMonotone(r.tokens, s.burst, s.refillEvery);
    TimesMonotone(0, After(s, bs', cs[1..])[source].tokens, s.refillEvery);
    DivideBound(Admissions(s, bs, cs, source), s.burst, span, s.refillEvery);
  }

  lemma {:induction false} DivideFloor(a: int, burst: int, t: int, r: int)
    requires r >= 1 && a * r <= burst * r + t
    ensures a <= burst + t / r
  {
    var q := t / r;
    if a > burst + q {
      TimesMonotone(burst + q + 1, a, r);
      TimesDistributes(burst, q + 1, r);
      TimesDistributes(q, 1, r);
    }
  }

  /** A full bucket has earned nothing towards its next token: from a call that
      finds it full, or is the source's first, the bound is rounded down. */
  lemma {:induction false} FullRateBound(s: Share, bs: Buckets, cs: seq<Call>, source: Text, t: int, span: nat)
    requires Fair(s) && cs != [] && cs[0] == Admit(source, t) && Clocked(cs, t, t + span)
    requires source in bs ==> bs[source].tokens == s.burst && bs[source].lastRefill <= t
    ensures Admissions(s, bs, cs, source) <= s.burst + span / s.refillEvery
  {
    var (bs', ok) := Step(s, bs, cs[0]);
    var rest := Admissions(s, bs', cs[1..], source);
    RunSpends(s, bs', cs[1..], source, t, t + span);
    TimesDistributes(1, rest, s.refillEvery);
    TimesDistributes(s.burst - 1, 1, s.refillEvery);
    TimesMonotone(0, After(s, bs', cs[1..])[source].tokens, s.refillEvery);
    DivideFloor(Admissions(s, bs, cs, source), s.burst, span, s.refillEvery);
  }

  // ---------- a spaced source, and onsets ----------

  /** Calls of one source at least a refill interval apart. */
  predicate Spaced(s: Share, cs: seq<Call>, from: int)
    decreases |cs|
  {
    cs == [] || (cs[0].Admit? && from <= cs[0].now && Spaced(s, cs[1..], cs[0].now + s.refillEvery))
  }

  /** A source that keeps to its refill rate is never shaped, from its first
      call on. */
  lemma {:induction false} SpacedNeverShaped(s: Share, bs: Buckets, cs: seq<Call>, source: Text, from: int)
    requires Fair(s) && Spaced(s, cs, from) && forall c :: c in cs ==> c.source == source
    requires source in bs ==> 0 <= bs[source].tokens && bs[source].lastRefill + s.refillEvery <= from
    ensures Answers(s, bs, cs, source) == seq(|cs|, _ => true)
    decreases |cs|
  {
    if cs != [] {
      var c := cs[0];
      assert c in cs;
      RefillAccounts(s, BucketOf(s, bs, source, c.now), c.now);
      SpacedNeverShaped(s, Step(s, bs, c).0, cs[1..], source, c.now + s.refillEvery);
    }
  }

  lemma {:induction false} DivisionAtLeast(x: int, n: nat, r: int)
    requires r >= 1 && n * r <= x
    ensures x / r >= n
  {
    if x / r < n {
      TimesMonotone(x / r + 1, n, r);
      TimesDistributes(x / r, 1, r);
    }
  }

  /** The tokens a bucket has after n idle intervals. */
  lemma {:induction false} RefillGives(s: Share, b: Bucket, now: int, n: nat)
    requires Fair(s) && b.tokens <= s.burst && n * s.refillEvery <= now - b.lastRefill
    ensures Refill(s, b, now).tokens >= if b.tokens + n > s.burst then s.burst else b.tokens + n
  {
    DivisionAtLeast(now - b.lastRefill, n, s.refillEvery);
  }

  /** What idling earns: after n intervals without a call, as many more attempts
      are admitted, up to the burst, however close together they come and
      whatever the others do. */
  lemma {:induction false} IdleEarns(s: Share, bs: Buckets, cs: seq<Call>, source: Text, n: nat, start: int, end: int)
    requires Fair(s) && Clocked(cs, start, end) && Attempts(cs, source) <= s.burst
    requires source in bs ==>
      && 0 <= bs[source].tokens <= s.burst && Attempts(cs, source) <= bs[source].tokens + n
      && bs[source].lastRefill + n * s.refillEvery <= start
    ensures Admissions(s, bs, cs, source) == Attempts(cs, source)
    decreases |cs|
  {
    if cs != [] {
      var c, bs' := cs[0], Step(s, bs, cs[0]).0;
      if c.Admit? && c.source == source {
        var b := BucketOf(s, bs, source, c.now);
        RefillGives(s, b, c.now, if source in bs then n else 0);
        RefillAccounts(s, b, c.now);
        IdleEarns(s, bs', cs[1..], source, 0, c.now, end);
      } else {
        IdleEarns(s, bs', cs[1..], source, n, if c.Admit? then c.now else start, end);
      }
    }
  }

  function Reports(s: Share, bs: Buckets, cs: seq<Call>, source: Text): nat
    requires Fair(s)
    decreases |cs|
  {
    if cs == [] then 0
    else
      var (bs', a) := Step(s, bs, cs[0]);
      (if cs[0] == Onset(source) && a then 1 else 0) + Reports(s, bs', cs[1..], source)
  }

  /** Whether somebody asks about the source once it is saturated: from the start,
      or since one of these attempts was shaped. */
  predicate Asked(cs: seq<Call>, source: Text, saturated: bool)
    decreases |cs|
  {
    cs != [] &&
    (if cs[0] == Onset(source) && saturated then true
     else Asked(cs[1..], source, saturated || (cs[0].Admit? && cs[0].source == source)))
  }

  /** However often saturation is asked about, and whatever other sources do,
      until the source is admitted again it is reported exactly once if anybody
      asks, and not at all if it was reported before. */
  lemma {:induction false} OnsetOnce(s: Share, bs: Buckets, cs: seq<Call>, source: Text)
    requires Fair(s) && Admissions(s, bs, cs, source) == 0
    ensures var reported := source in bs && bs[source].onsetReported;
      Reports(s, bs, cs, source) ==
        if !reported && Asked(cs, source, source in bs && bs[source].saturated) then 1 else 0
    decreases |cs|
  {
    if cs != [] { OnsetOnce(s, Step(s, bs, cs[0]).0, cs[1..], source); }
  }

  /** An admission ends the episode: the next shaped event starts another. */
  lemma {:induction false} EpisodeEnds(s: Share, bs: Buckets, source: Text, now: int)
    requires Fair(s)
    ensures var (bs', ok) := Step(s, bs, Admit(source, now));
      && source in bs'
      && (ok ==> !bs'[source].saturated && !bs'[source].onsetReported)
      && (!ok ==> bs'[source].saturated && bs'[source].onsetReported == (source in bs && bs[source].onsetReported))
  {}
}
