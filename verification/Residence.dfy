// Ceiling breaches and how long a record stays hot
// (internal/retention/manager.go, policy.go).

module Residence {
  import opened Bytes
  import opened Ocsf
  import opened Chain
  import opened Segments
  import opened Replay
  import opened Store
  import opened RetentionPolicy
  import opened Checkpoint
  import opened Retention
  import opened Inventory
  import opened Ledger

  datatype Evidence = SealFailure(resource: Bytes) | RotationFailure(resource: Bytes) | CeilingBreach(resource: Bytes)

  /** How rotation of one segment, or of all due ones, ended. */
  datatype Step = Rotated | NotDue | CopyFailed | CheckpointFailed

  // ---------- ceiling breaches ----------

  predicate Breached(e: SegmentEntry, p: Policy, now: I64) {
    e.rotatedAt == 0 && CeilingBreached(p, now, e.firstIngest)
  }

  function BreachedNames(es: seq<SegmentEntry>, p: Policy, now: I64): set<Bytes> {
    set i | 0 <= i < |es| && Breached(es[i], p, now) :: es[i].name
  }

  function NewBreaches(es: seq<SegmentEntry>, p: Policy, now: I64, emitted: set<Bytes>): seq<Evidence> {
    if es == [] then []
    else NewBreaches(Init(es), p, now, emitted)
         + if Breached(Last(es), p, now) && Last(es).name !in emitted then [CeilingBreach(Last(es).name)] else []
  }

  lemma {:induction false} NameIsNew(es: seq<SegmentEntry>, segs: SegmentList, i: nat, p: Policy, now: I64)
    requires Inventoried(es, segs) && i < |es|
    ensures es[i].name !in BreachedNames(es[..i], p, now)
    ensures BreachedNames(es[..i + 1], p, now) ==
      BreachedNames(es[..i], p, now) + if Breached(es[i], p, now) then {es[i].name} else {}
  {
    assert EntryFor(es[i], segs, i);
    forall j: nat | j < i ensures es[j].name != es[i].name {
      assert EntryFor(es[j], segs, j);
      NamesApart(i, j);
    }
  }

  lemma {:induction false} LastBreach(es: seq<SegmentEntry>, p: Policy, now: I64)
    requires es != []
    ensures BreachedNames(es, p, now) ==
      BreachedNames(Init(es), p, now) + if Breached(Last(es), p, now) then {Last(es).name} else {}
  {
    var n := |es| - 1;
    forall i | 0 <= i < n ensures Init(es)[i] == es[i] {}
    forall name | name in BreachedNames(es, p, now)
      ensures name in BreachedNames(Init(es), p, now) || (Breached(es[n], p, now) && name == es[n].name)
    {
      var i :| 0 <= i < |es| && Breached(es[i], p, now) && es[i].name == name;
      if i < n { assert Breached(Init(es)[i], p, now); }
    }
    forall name | name in BreachedNames(Init(es), p, now) ensures name in BreachedNames(es, p, now) {
      var i :| 0 <= i < n && Breached(Init(es)[i], p, now) && Init(es)[i].name == name;
      assert Breached(es[i], p, now);
    }
  }

  /** What is reported: the segments past the ceiling and not reported since they
      last rotated, whatever else is new, and nothing else. */
  lemma {:induction false} BreachOnce(es: seq<SegmentEntry>, p: Policy, now: I64, emitted: set<Bytes>)
    ensures forall e :: e in NewBreaches(es, p, now, emitted) <==>
      e.CeilingBreach? && e.resource in BreachedNames(es, p, now) && e.resource !in emitted
    decreases |es|
  {
    if es != [] {
      LastBreach(es, p, now);
      BreachOnce(Init(es), p, now, emitted);
    }
  }

  /** By the clock: every segment not rotated whose oldest record is past the
      ceiling is reported, unless it was. */
  lemma {:induction false} BreachByTheClock(es: seq<SegmentEntry>, p: Policy, now: I64, emitted: set<Bytes>, i: nat)
    requires ValidPolicy(p) && i < |es| && Datable(now, es[i].firstIngest)
    requires es[i].rotatedAt == 0 && (now - es[i].firstIngest) * MILLISECOND > p.hotMax
    ensures CeilingBreach(es[i].name) in NewBreaches(es, p, now, emitted) <==> es[i].name !in emitted
  {
    BreachOnce(es, p, now, emitted);
    DueExactly(p, now, es[i].firstIngest);
    assert Breached(es[i], p, now);
  }

  predicate Distinct(es: seq<Evidence>) {
    forall i, j :: 0 <= i < j < |es| ==> es[i] != es[j]
  }

  lemma {:induction false} DistinctUpto(es: seq<SegmentEntry>, segs: SegmentList, n: nat, p: Policy, now: I64,
        emitted: set<Bytes>)
    requires Inventoried(es, segs) && n <= |es|
    ensures Distinct(NewBreaches(es[..n], p, now, emitted))
  {
    if n > 0 {
      DistinctUpto(es, segs, n - 1, p, now, emitted);
      NameIsNew(es, segs, n - 1, p, now);
      BreachOnce(es[..n - 1], p, now, emitted);
      assert Init(es[..n]) == es[..n - 1] && Last(es[..n]) == es[n - 1];
    }
  }

  /** And each once. */
  lemma {:induction false} BreachesDistinct(es: seq<SegmentEntry>, segs: SegmentList, p: Policy, now: I64,
        emitted: set<Bytes>)
    requires Inventoried(es, segs)
    ensures Distinct(NewBreaches(es, p, now, emitted))
  {
    DistinctUpto(es, segs, |es|, p, now, emitted);
    assert es[..|es|] == es;
  }

  /** A rotated segment whose hot copy could not be removed is no breach, however
      long it lies there. */
  lemma {:induction false} LeftoverSilent(c: Checkpoint, segs: SegmentList, k: nat, j: nat, p: Policy, now: I64,
        emitted: set<Bytes>)
    requires Tracked(c, segs, k) && j < k
    ensures CeilingBreach(FileName(j)) !in NewBreaches(c.segments, p, now, emitted)
  {
    var es := c.segments;
    BreachOnce(es, p, now, emitted);
    forall i: nat | i < |es| && Breached(es[i], p, now) ensures es[i].name != FileName(j) {
      assert EntryFor(es[i], segs[..|es|], i);
      NamesApart(i, j);
    }
  }

  // ---------- how long records stay hot ----------

  ghost predicate Dated(log: seq<Record>, now: I64) {
    forall r :: r in log ==> Datable(now, r.ingestTime)
  }

  /** No segment from the first of these numbers up to the second was young when
      it was rotated at this time. */
  predicate NoneEarly(es: seq<SegmentEntry>, from: nat, to: nat, p: Policy, now: I64) {
    forall j :: from <= j < to && j < |es| ==> MayLeave(p, now, es[j].firstIngest)
  }

  lemma {:induction false} NoneYet(es: seq<SegmentEntry>, k: nat, p: Policy, now: I64)
    ensures NoneEarly(es, k, k, p, now)
  {}

  /** Promoting or rolling back changes no stamp. */
  lemma {:induction false} NoneEarlyNext(c: Checkpoint, c': Checkpoint, r: Step, from: nat, i: nat, p: Policy, now: I64)
    requires NoneEarly(c.segments, from, i, p, now) && i < |c.segments|
    requires c' == match r
      case Rotated => Promoted(c, i, now)
      case CheckpointFailed => RolledBack(c, i, now)
      case _ => c
    requires r == Rotated ==> MayLeave(p, now, c.segments[i].firstIngest)
    ensures NoneEarly(c'.segments, from, if r == Rotated then i + 1 else i, p, now)
  {
    assert |c'.segments| == |c.segments|;
    assert forall j :: 0 <= j < |c.segments| ==> c'.segments[j].firstIngest == c.segments[j].firstIngest;
  }

  /** After a round with no failures: the oldest sealed segment still hot is
      not due, and the active log is younger than a seal interval. */
  ghost predicate Quiet(c: Checkpoint, segs: SegmentList, k: nat, active: seq<Record>, p: Policy, now: I64) {
    && (k < |c.segments| ==> !RotationDue(p, now, c.segments[k].firstIngest))
    && (active != [] ==> now - HighestSeal(c.segments) < Millis(p.sealInterval))
  }

  /** The records the cold tier is not relied on for. */
  function Hot(segs: SegmentList, k: nat, active: seq<Record>): seq<Record>
    requires k <= |segs|
  {
    Flatten(segs[k..]) + active
  }

  lemma {:induction false} LogSplits(segs: SegmentList, k: nat, active: seq<Record>)
    requires k <= |segs|
    ensures Flatten(segs) + active == Upto(segs, k) + Hot(segs, k, active)
  {
    FlattenSplits(segs, k);
    ConcatAssociates(Upto(segs, k), Flatten(segs[k..]), active);
  }

  lemma {:induction false} MonotoneFrom(past: seq<Record>, hot: seq<Record>, r: Record)
    requires Monotone(past + hot) && r in hot
    ensures hot[0].ingestTime <= r.ingestTime
  {
    var i :| 0 <= i < |hot| && hot[i] == r;
    assert (past + hot)[|past|] == hot[0] && (past + hot)[|past| + i] == hot[i];
  }

  /** The oldest stamp of the first hot segment bounds every hot record. */
  lemma {:induction false} HotOldest(c: Checkpoint, segs: SegmentList, k: nat, active: seq<Record>, r: Record)
    requires Consistent(c, segs, k) && k < |segs| && Monotone(Flatten(segs) + active)
    requires r in Hot(segs, k, active)
    ensures c.segments[k].firstIngest <= r.ingestTime
  {
    var past, hot := Upto(segs, k), Hot(segs, k, active);
    assert EntryFor(c.segments[k], segs, k);
    LogSplits(segs, k, active);
    FlattenHead(segs[k..]);
    assert hot[0] == segs[k][0] && segs[k][0] in segs[k];
    MonotoneFrom(past, hot, r);
  }

  lemma {:induction false} SegmentIsHot(segs: SegmentList, k: nat, active: seq<Record>, j: nat, r: Record)
    requires k <= j < |segs| && r in segs[j]
    ensures r in Hot(segs, k, active)
    decreases j - k
  {
    if k < j {
      FlattenSplits(segs[k..], 1);
      assert segs[k..][1..] == segs[k + 1..];
      FlattenHead(segs[k..]);
      SegmentIsHot(segs, k + 1, active, j, r);
    } else {
      FlattenHead(segs[k..]);
    }
  }

  lemma {:induction false} OldestIn(c: Checkpoint, segs: SegmentList, k: nat, active: seq<Record>, j: nat)
    returns (oldest: Record)
    requires Consistent(c, segs, k) && k <= j < |segs|
    ensures oldest in Flatten(segs) + active && oldest in Hot(segs, k, active)
    ensures oldest.ingestTime == c.segments[j].firstIngest
  {
    assert EntryFor(c.segments[j], segs, j);
    oldest :| oldest in segs[j] && oldest.ingestTime == c.segments[j].firstIngest;
    SegmentIsHot(segs, k, active, j, oldest);
    LogSplits(segs, k, active);
  }

  lemma {:induction false} InSegment(segs: SegmentList, r: Record) returns (j: nat)
    requires r in Flatten(segs)
    ensures j < |segs| && r in segs[j]
  {
    if r in Last(segs) {
      j := |segs| - 1;
    } else {
      j := InSegment(Init(segs), r);
    }
  }

  /** The first k segments were each ripe, by their oldest record, by time t. */
  ghost predicate LeftRipe(segs: SegmentList, k: nat, p: Policy, t: I64) {
    forall j :: 0 <= j < k && j < |segs| ==> segs[j] != [] && Ripe(p, t, segs[j][0].ingestTime)
  }

  lemma {:induction false} RipeStays(segs: SegmentList, k: nat, p: Policy, t: I64, later: I64)
    requires LeftRipe(segs, k, p, t) && t <= later
    ensures LeftRipe(segs, k, p, later)
  {}

  /** The oldest record of a segment is its first. */
  lemma {:induction false} FirstIsOldest(c: Checkpoint, segs: SegmentList, k: nat, active: seq<Record>, j: nat)
    requires Consistent(c, segs, k) && j < |segs| && Monotone(Flatten(segs) + active)
    ensures segs[j] != [] && segs[j][0].ingestTime == c.segments[j].firstIngest
    ensures segs[j][0] in Flatten(segs) + active && |c.segments| == |segs|
  {
    assert EntryFor(c.segments[j], segs, j);
    var oldest :| oldest in segs[j] && oldest.ingestTime == c.segments[j].firstIngest;
    assert segs[j][0] in segs[j];
    SegmentIsHot(segs, j, active, j, oldest);
    SegmentIsHot(segs, j, active, j, segs[j][0]);
    LogSplits(segs, j, active);
    FlattenHead(segs[j..]);
    MonotoneFrom(Upto(segs, j), Hot(segs, j, active), oldest);
  }

  /** A round adds only ripe ones. */
  lemma {:induction false} LeftMore(c: Checkpoint, was: SegmentList, segs: SegmentList, k0: nat, k: nat,
        active: seq<Record>, p: Policy, t: I64)
    requires LeftRipe(was, k0, p, t) && k0 <= |was| && was <= segs && NoneEarly(c.segments, k0, k, p, t)
    requires Consistent(c, segs, k) && Monotone(Flatten(segs) + active) && Dated(Flatten(segs) + active, t)
    requires ValidPolicy(p)
    ensures LeftRipe(segs, k, p, t)
  {
    hide Consistent, Monotone, Ripe, Datable, Flatten;
    forall j | 0 <= j < k && j < |segs| ensures segs[j] != [] && Ripe(p, t, segs[j][0].ingestTime) {
      FirstIsOldest(c, segs, k, active, j);
      if j < k0 { assert was[j] == segs[j]; } else { assert MayLeave(p, t, c.segments[j].firstIngest); }
    }
  }

  /** When the first hot segment is not due no later one is, so stopping at it
      delays nothing. */
  lemma {:induction false} NoneDueLater(c: Checkpoint, segs: SegmentList, k: nat, active: seq<Record>, p: Policy,
        now: I64, j: nat)
    requires Consistent(c, segs, k) && k <= j < |segs|
        && Monotone(Flatten(segs) + active) && Dated(Flatten(segs) + active, now)
    requires ValidPolicy(p) && !RotationDue(p, now, c.segments[k].firstIngest)
    ensures !RotationDue(p, now, c.segments[j].firstIngest) && Datable(now, c.segments[j].firstIngest)
  {
    var oldest := OldestIn(c, segs, k, active, k);
    var r := OldestIn(c, segs, k, active, j);
    HotOldest(c, segs, k, active, r);
    if RotationDue(p, now, r.ingestTime) { DueInOrder(p, now, oldest.ingestTime, r.ingestTime); }
  }

  /** Nor is any segment then past the ceiling. */
  lemma {:induction false} NotBreached(c: Checkpoint, segs: SegmentList, k: nat, active: seq<Record>, p: Policy,
        now: I64, j: nat)
    requires Consistent(c, segs, k) && j < |segs|
        && Monotone(Flatten(segs) + active) && Dated(Flatten(segs) + active, now)
    requires ValidPolicy(p) && (k < |segs| ==> !RotationDue(p, now, c.segments[k].firstIngest))
    ensures !Breached(c.segments[j], p, now)
  {
    if k <= j {
      NoneDueLater(c, segs, k, active, p, now, j);
      if CeilingBreached(p, now, c.segments[j].firstIngest) { DueBeforeBreach(p, now, c.segments[j].firstIngest); }
    }
  }

  lemma {:induction false} NoBreaches(es: seq<SegmentEntry>, p: Policy, now: I64, emitted: set<Bytes>)
    requires forall j :: 0 <= j < |es| ==> !Breached(es[j], p, now)
    ensures NewBreaches(es, p, now, emitted) == []
    decreases |es|
  {
    if es != [] { NoBreaches(Init(es), p, now, emitted); }
  }

  lemma {:induction false} QuietIsSilent(c: Checkpoint, segs: SegmentList, k: nat, active: seq<Record>, p: Policy,
        now: I64, emitted: set<Bytes>)
    requires Consistent(c, segs, k) && Monotone(Flatten(segs) + active) && Dated(Flatten(segs) + active, now)
    requires ValidPolicy(p) && (k < |segs| ==> !RotationDue(p, now, c.segments[k].firstIngest))
    ensures NewBreaches(c.segments, p, now, emitted) == []
  {
    forall j | 0 <= j < |segs| ensures !Breached(c.segments[j], p, now) {
      NotBreached(c, segs, k, active, p, now, j);
    }
    NoBreaches(c.segments, p, now, emitted);
  }

  lemma {:induction false} SealedStaysYoung(p: Policy, now: I64, d: nat, t: I64, oldest: I64, stamp: I64)
    requires ValidPolicy(p) && !RotationDue(p, now, oldest) && Datable(now, oldest) && Datable(t, stamp)
    requires oldest <= stamp && t <= now + d && d * MILLISECOND <= p.sealInterval
    ensures !CeilingBreached(p, t, stamp)
  {
    AgeExact(now, oldest);
    AgeExact(t, stamp);
  }

  lemma {:induction false} ActiveStaysYoung(p: Policy, now: I64, d: nat, t: I64, lastSeal: I64, stamp: I64)
    requires ValidPolicy(p) && now - lastSeal < Millis(p.sealInterval) && lastSeal <= stamp && Datable(t, stamp)
    requires t <= now + d && p.sealInterval + d * MILLISECOND <= p.hotMax
    ensures !CeilingBreached(p, t, stamp)
  {
    AgeExact(t, stamp);
  }

  /** From the end of one round without failures to the end of the next, at
      most d milliseconds later, no hot record is past the ceiling; nor is one
      admitted meanwhile. */
  lemma {:induction false} ResidenceBound(c: Checkpoint, segs: SegmentList, k: nat, active: seq<Record>, p: Policy,
        now: I64, d: nat, t: I64, r: Record)
    requires Consistent(c, segs, k) && Monotone(Flatten(segs) + active) && Dated(Flatten(segs) + active, now)
    requires ValidPolicy(p) && Quiet(c, segs, k, active, p, now)
    requires forall a :: a in active ==> a.ingestTime >= HighestSeal(c.segments)
    requires d * MILLISECOND <= p.sealInterval && p.sealInterval + d * MILLISECOND <= p.hotMax
    requires now <= t <= now + d && Datable(t, r.ingestTime)
    requires r in Hot(segs, k, active) || r.ingestTime >= now
    ensures !CeilingBreached(p, t, r.ingestTime)
  {
    if r !in Hot(segs, k, active) {
      AgeExact(t, r.ingestTime);
    } else if k < |segs| {
      HotOldest(c, segs, k, active, r);
      var oldest := OldestIn(c, segs, k, active, k);
      SealedStaysYoung(p, now, d, t, oldest.ingestTime, r.ingestTime);
    } else {
      assert segs[k..] == [];
      ActiveStaysYoung(p, now, d, t, HighestSeal(c.segments), r.ingestTime);
    }
  }

  lemma {:induction false} SealsNotNegative(es: seq<SegmentEntry>)
    ensures HighestSeal(es) >= 0
    decreases |es|
  {
    if es != [] { SealsNotNegative(Init(es)); }
  }

  /** What a round without failures leaves. */
  lemma {:induction false} RoundSettles(c: Checkpoint, segs: SegmentList, k: nat, active: seq<Record>, p: Policy,
        now: I64, r: Step, emitted: set<Bytes>)
    requires Consistent(c, segs, k) && Monotone(Flatten(segs) + active)
        && Dated(Flatten(segs) + active, now) && ValidPolicy(p)
    requires r == Rotated ==> k == |segs|
    requires r == NotDue ==> k < |segs| && !RotationDue(p, now, c.segments[k].firstIngest)
    requires r in {Rotated, NotDue} && now > 0
    requires active != [] ==> Int64(now - HighestSeal(c.segments)) < Millis(p.sealInterval)
    ensures Quiet(c, segs, k, active, p, now)
    ensures NewBreaches(c.segments, p, now, emitted) == []
  {
    SealsNotNegative(c.segments);
    QuietIsSilent(c, segs, k, active, p, now, emitted);
  }
}
