// The hot ceiling over a run of the daemon: rounds that come in time and do not
// fail, admissions between them, restarts anywhere (internal/retention/policy.go,
// manager.go).

module Schedule {
  import opened Bytes
  import opened Ocsf
  import opened Chain
  import opened Segments
  import opened Replay
  import opened Disk
  import opened Store
  import opened Rotation
  import opened RetentionPolicy
  import opened Retention
  import opened Inventory
  import opened Ledger
  import opened Residence
  import opened Manager
  import opened Boot
  import Lifetime

  type Event = Lifetime.Event

  // ---------- what lies in the hot directory ----------

  predicate InFileOf(dir: Dir, name: Bytes, r: Record) {
    && name in dir && (name == ACTIVE || IsSegmentName(name))
    && ReadRaw(dir[name]).Some? && r in ReadRaw(dir[name]).value
  }

  /** Some log file in the hot directory has the record. */
  ghost predicate LiesHot(dir: Dir, r: Record) {
    exists name :: InFileOf(dir, name, r)
  }

  /** With no leftovers, the files hold the records not rotated and no others. */
  lemma {:induction false} HotFilesAreHot(t: Tiers, segs: SegmentList, k: nat, active: seq<Record>, r: Record)
    requires Layout(t, segs, k, active) && NoLeftovers(t.hot, k) && LiesHot(t.hot, r)
    ensures r in Hot(segs, k, active)
  {
    var name :| InFileOf(t.hot, name, r);
    if name == ACTIVE {
      LogFileReads(t.hot[ACTIVE], active);
    } else {
      var i: nat :| i < |segs| && name == FileName(i);
      SlotOf(t, segs, k, active, i);
      FileRoundTrip(segs[i]);
      SegmentIsHot(segs, k, active, i, r);
    }
  }

  // ---------- the schedule ----------

  /** When the last round was; the first is at t0. */
  function LastRound(events: seq<Event>, t0: I64): I64 {
    if events == [] then t0
    else if Last(events).Round? then Last(events).now
    else LastRound(Init(events), t0)
  }

  function Clock(events: seq<Event>, t0: I64): I64 {
    if events == [] then t0
    else if Last(events).Restarts? then Clock(Init(events), t0)
    else Last(events).now
  }

  /** The clock does not go back, nothing is later than d after a round, and all
      is over by end. */
  predicate Paced(events: seq<Event>, t0: I64, d: nat, end: I64) {
    if events == [] then t0 <= end
    else
      && Paced(Init(events), t0, d, end)
      && (!Last(events).Restarts? ==>
            Clock(Init(events), t0) <= Last(events).now <= LastRound(Init(events), t0) + d && Last(events).now <= end)
  }

  lemma {:induction false} PacedUpto(events: seq<Event>, n: nat, t0: I64, d: nat, end: I64)
    requires Paced(events, t0, d, end) && n <= |events|
    ensures Paced(events[..n], t0, d, end) && LastRound(events[..n], t0) <= Clock(events[..n], t0) <= end
    ensures t0 <= LastRound(events[..n], t0)
    decreases |events|
  {
    if n < |events| {
      PacedUpto(Init(events), n, t0, d, end);
      assert Init(events)[..n] == events[..n];
    } else if n > 0 {
      PacedUpto(Init(events), n - 1, t0, d, end);
      assert events[..n] == events && Init(events)[..n - 1] == Init(events);
    } else {
      assert events[..0] == [];
    }
  }

  lemma {:induction false} PacedStep(events: seq<Event>, n: nat, t0: I64, d: nat, end: I64)
    requires Paced(events, t0, d, end) && n < |events|
    ensures var e, past := events[n], events[..n]; var last, clock := LastRound(past, t0), Clock(past, t0);
      && t0 <= last <= clock <= end
      && (!e.Restarts? ==> clock <= e.now <= last + d && e.now <= end)
      && LastRound(events[..n + 1], t0) == (if e.Round? then e.now else last)
  {
    PacedUpto(events, n, t0, d, end);
    PacedUpto(events, n + 1, t0, d, end);
    assert Init(events[..n + 1]) == events[..n] && Last(events[..n + 1]) == events[n];
  }

  // ---------- the state between rounds ----------

  /** Stamps and clock stay within the 292 years an age can count. */
  ghost predicate InEra(log: seq<Record>, floor: I64, end: I64) {
    && end <= MAX_AGE_MILLIS && 0 <= floor <= end
    && forall r :: r in log ==> 0 <= r.ingestTime <= end
  }

  lemma {:induction false} EraDated(log: seq<Record>, floor: I64, end: I64, t: I64)
    requires InEra(log, floor, end) && 0 <= t <= end
    ensures Dated(log, t)
  {}

  lemma {:induction false} EraGrows(log: seq<Record>, floor: I64, end: I64, now: I64, r: Record)
    requires InEra(log, floor, end) && 0 <= now <= end && r.ingestTime == Stamp(floor, now)
    ensures InEra(log, Stamp(floor, now), end) && InEra(log + [r], Stamp(floor, now), end)
  {}

  lemma {:induction false} EraBoots(log: seq<Record>, floor: I64, end: I64)
    requires InEra(log, floor, end)
    ensures InEra(log, HighestStamp(0, log), end)
    decreases |log|
  {
    if log != [] {
      EraBoots(Init(log), floor, end);
      assert Last(log) in log;
    }
  }

  /** Everything is where the books say, the file says the same, and nothing of
      an earlier attempt lies about. */
  ghost predicate Ready(m: Manager, now: I64, end: I64)
    reads m, m.disk, m.store, m.store.acc, m.store.wal, m.store.wal.disk
  {
    && m.Valid() && m.store.wal.Live() && m.Saved() && m.Fresh() && m.SealedBy(now)
    && Clean(Now(m.disk), m.segs, m.k) && NoLeftovers(m.disk.hot, m.k)
    && InEra(m.store.log, m.store.ingestFloor, end) && AllWork(m.disk.fates)
    && LeftRipe(m.segs, m.k, m.policy, now)
  }

  /** After the round at `last`, when the active log was `settled`. */
  ghost predicate Settled(m: Manager, last: I64, end: I64, settled: seq<Record>)
    reads m, m.disk, m.store, m.store.acc, m.store.wal, m.store.wal.disk
  {
    && Ready(m, last, end) && Quiet(m.cp, m.segs, m.k, settled, m.policy, last)
    && settled <= m.active && forall i :: |settled| <= i < |m.active| ==> m.active[i].ingestTime >= last
  }

  lemma {:induction false} NothingGarbled(fates: seq<Fate>, segs: SegmentList)
    requires AllWork(fates)
    ensures HonestMedium(fates, segs)
  {}

  lemma {:induction false} LaterStill(m: Manager, last: I64, now: I64)
    requires m.SealedBy(last) && last <= now
    ensures m.SealedBy(now)
  {}

  /** Outside the active file nothing moved. */
  lemma {:induction false} StillThere(t: Tiers, t': Tiers, segs: SegmentList, k: nat)
    requires Elsewhere(t, t', ACTIVE)
    ensures Clean(t, segs, k) ==> Clean(t', segs, k)
    ensures NoLeftovers(t.hot, k) ==> NoLeftovers(t'.hot, k)
  {
    FileNameIsNotActive(k);
    assert SameFile(t.cold, t'.cold, FileName(k));
    forall j: nat | j < k && NoLeftovers(t.hot, k) ensures FileName(j) !in t'.hot {
      FileNameIsNotActive(j);
      assert SameFile(t.hot, t'.hot, FileName(j));
    }
  }

  lemma {:induction false} BooksAre(m: Manager)
    requires m.Valid() && m.store.wal.Live()
    ensures Consistent(m.cp, m.segs, m.k) && Monotone(Flatten(m.segs) + m.active) && ValidPolicy(m.policy)
    ensures m.store.log == Flatten(m.segs) + m.active && m.k <= |m.segs|
  {
    hide Layout, DurableOk, Tracks, LeavesOf, Linked, Monotone, Tidy;
    CompleteIsConsistent(m.cp, m.segs, m.k);
  }

  /** A round that comes in time and does not fail. */
  method RoundInTime(m: Manager, now: I64, end: I64)
    requires Ready(m, now, end) && 0 < now <= end && |m.store.log| < MAX_LOG
    modifies m, m.store.wal, m.disk
    ensures Settled(m, now, end, m.active) && m.evidence == old(m.evidence)
    ensures m.store.log == old(m.store.log)
  {
    hide Clean, NoLeftovers, InEra, AllWork, HonestMedium, Quiet, Dated, FatesFrom, Verdict, Removals;
    hide m.Saved, m.Fresh, m.SealedBy, m.Alive, m.Books, m.SealDue, NoneEarly, LeftRipe, Monotone, Flatten, Tracked;
    ghost var was, k0 := m.segs, m.k;
    BooksAre(m);
    NothingGarbled(m.disk.fates, m.segs + [m.active]);
    EraDated(m.store.log, m.store.ingestFloor, end, now);
    ghost var s, at;
    var missed, step;
    ghost var script := m.disk.fates;
    s, missed, step, at := m.Tick(now);
    AllWorkFrom(script, m.disk.fates);
    BooksAre(m);
    LeftMore(m.cp, was, m.segs, k0, m.k, m.active, m.policy, now);
  }

  lemma {:induction false} SettledMore(settled: seq<Record>, active: seq<Record>, r: Record, last: I64)
    requires settled <= active && forall i :: |settled| <= i < |active| ==> active[i].ingestTime >= last
    requires r.ingestTime >= last
    ensures var active' := active + [r];
      settled <= active' && forall i :: |settled| <= i < |active'| ==> active'[i].ingestTime >= last
  {}

  lemma {:induction false} ReadyIs(m: Manager, now: I64, end: I64)
    requires Ready(m, now, end)
    ensures m.Alive() && m.Bootable() && m.store.log == m.Log() && m.store.wal.disk == m.disk
    ensures m.durable == m.k <= |m.segs| && |m.cp.segments| == |m.segs| && Consistent(m.cp, m.segs, m.k)
    ensures Layout(Now(m.disk), m.segs, m.k, m.active) && !Limbo(Now(m.disk), m.segs, m.k)
    ensures Tidy(m.disk.hot, m.active) && ACTIVE in m.disk.hot && ValidPolicy(m.policy)
  {
    hide Layout, DurableOk, Limbo, Clean, Tracks, LeavesOf, Linked, Monotone, Tidy, InEra, NoLeftovers;
    CompleteIsConsistent(m.cp, m.segs, m.k);
    UnlessLimbo(Now(m.disk), m.segs, m.k, m.active);
    StepIsBootable(m);
  }

  lemma {:induction false} StampIs(log: seq<Record>, source: Text, env: PublishEnvelope, floor: I64, now: I64)
    ensures var r := NextRecord(log, source, env, Stamp(floor, now));
      r.ingestTime == Stamp(floor, now) >= now
  {}

  /** An admission between rounds. */
  method AdmitInTime(m: Manager, source: Text, env: PublishEnvelope, now: I64, ghost last: I64, ghost end: I64,
        ghost settled: seq<Record>)
    returns (res: AdmitResult)
    requires Settled(m, last, end, settled) && 0 <= last <= now <= end
    modifies m.store, m.store.acc, m.store.wal`stuck, m.disk`hot, m.disk`fates, m`active
    ensures Settled(m, last, end, settled) && m.store.log == LogAfter(old(m.store.log), res)
  {
    hide Clean, NoLeftovers, InEra, AllWork, Quiet, FatesFrom, Elsewhere, NextRecord, Outcome, Stamp, Limbo;
    hide HighestSeal, Verdict, Linked, Monotone, LeavesOf, Flatten, Dated, NewBreaches;
    hide m.Saved, m.Fresh, m.SealedBy, m.Books, m.InStep, m.Bootable, m.Durable, m.Alive, m.Valid, m.Log;
    hide Consistent, Layout, Tidy;
    ReadyIs(m, last, end);
    LaterStill(m, last, now);
    ghost var before, log, floor, script := Now(m.disk), m.store.log, m.store.ingestFloor, m.disk.fates;
    ghost var r, active := m.Next(source, env, now), m.active;
    res := m.Admit(source, env, now);
    StillThere(before, Now(m.disk), m.segs, m.k);
    AllWorkFrom(script, m.disk.fates);
    StampIs(log, source, env, floor, now);
    EraGrows(log, floor, end, now, r);
    SettledMore(settled, active, r, last);
    assert active + [] == active;
    if res.Committed? { assert (active + [res.rec])[|active|] == (active + [r])[|active|]; }
  }

  lemma {:induction false} SameBooks(m: Manager, r: Manager, last: I64)
    requires m.cp == r.cp && m.file == r.file && m.policy == r.policy
    ensures m.SealedBy(last) ==> r.SealedBy(last)
    ensures m.Saved() ==> Starting(m.file, m.policy) == m.cp
  {}

  /** A restart between rounds. */
  method RestartInTime(m: Manager, key: Bytes, ghost last: I64, ghost end: I64, ghost settled: seq<Record>)
    returns (r: Manager)
    requires Settled(m, last, end, settled)
    modifies m.disk`hot
    ensures Settled(r, last, end, settled) && r.store.log == m.store.log && r.evidence == []
    ensures fresh(r) && fresh(r.store) && fresh(r.store.acc) && fresh(r.store.wal)
    ensures r.disk == m.disk && r.policy == m.policy
  {
    hide Clean, NoLeftovers, InEra, AllWork, Quiet, HighestStamp, Linked, Monotone, Tidy, Limbo, Upto, Layout;
    hide Consistent;
    hide m.Fresh, m.Durable, m.SealedBy, m.Books, m.Bootable, m.Alive, m.Valid, m.Log, Starting;
    ReadyIs(m, last, end);
    EraBoots(m.store.log, m.store.ingestFloor, end);
    var rebooted := Reboot(m, key);
    r := rebooted.value;
    SameBooks(m, r, last);
  }

  lemma {:induction false} HotOrLater(segs: SegmentList, k: nat, active: seq<Record>, settled: seq<Record>, last: I64,
        r: Record)
    requires k <= |segs| && r in Hot(segs, k, active)
    requires settled <= active && forall i :: |settled| <= i < |active| ==> active[i].ingestTime >= last
    ensures r in Hot(segs, k, settled) || r.ingestTime >= last
  {}

  lemma {:induction false} SettledLog(segs: SegmentList, active: seq<Record>, settled: seq<Record>, last: I64)
    requires settled <= active && Monotone(Flatten(segs) + active) && Dated(Flatten(segs) + active, last)
    ensures Monotone(Flatten(segs) + settled) && Dated(Flatten(segs) + settled, last)
  {
    var log, log' := Flatten(segs) + settled, Flatten(segs) + active;
    assert forall i :: 0 <= i < |log| ==> log[i] == log'[i];
  }

  lemma {:induction false} InLogDated(m: Manager, end: I64, t: I64, r: Record)
    requires InEra(m.store.log, m.store.ingestFloor, end) && 0 <= t <= end && m.store.log == m.Log()
    requires m.k <= |m.segs| && r in Hot(m.segs, m.k, m.active)
    ensures Datable(t, r.ingestTime)
  {
    LogSplits(m.segs, m.k, m.active);
    assert r in m.Log();
  }

  /** So nothing in the hot directory is past the ceiling until the next round is
      late. */
  lemma {:induction false} NothingTooOld(m: Manager, last: I64, end: I64, settled: seq<Record>, d: nat, t: I64,
        r: Record)
    requires Settled(m, last, end, settled) && 0 <= last <= t <= last + d && t <= end
    requires d * MILLISECOND <= m.policy.sealInterval && m.policy.sealInterval + d * MILLISECOND <= m.policy.hotMax
    requires LiesHot(m.disk.hot, r)
    ensures !CeilingBreached(m.policy, t, r.ingestTime)
  {
    hide Quiet, Consistent, Monotone, Dated, HighestSeal, NoLeftovers, LiesHot, Layout, Tidy, Limbo, Flatten, Hot;
    hide m.Valid, m.Alive, m.Saved, m.SealedBy, Clean, CeilingBreached, InEra, AllWork, m.Durable;
    ReadyIs(m, last, end);
    HotFilesAreHot(Now(m.disk), m.segs, m.k, m.active, r);
    HotOrLater(m.segs, m.k, m.active, settled, last, r);
    EraDated(m.store.log, m.store.ingestFloor, end, last);
    SettledLog(m.segs, m.active, settled, last);
    InLogDated(m, end, t, r);
    ResidenceBound(m.cp, m.segs, m.k, settled, m.policy, last, d, t, r);
  }

  /** Whether a segment is in the hot directory is a matter of its age alone. */
  ghost predicate HotByAge(m: Manager, last: I64)
    reads m, m.disk
  {
    forall j: nat :: j < |m.segs| ==>
      m.segs[j] != [] && (FileName(j) in m.disk.hot <==> !Ripe(m.policy, last, m.segs[j][0].ingestTime))
  }

  /** After a round none that is not ripe has left, and none that is stays. */
  lemma {:induction false} LeavesByAge(m: Manager, last: I64, end: I64, settled: seq<Record>)
    requires Settled(m, last, end, settled) && 0 <= last <= end
    ensures HotByAge(m, last)
  {
    hide Consistent, Monotone, Dated, HighestSeal, Layout, Tidy, Flatten, Clean, InEra, AllWork, Ripe, RotationDue;
    hide m.Valid, m.Alive, m.Saved, m.Fresh, m.SealedBy, m.Durable;
    ReadyIs(m, last, end);
    EraDated(m.store.log, m.store.ingestFloor, end, last);
    SettledLog(m.segs, m.active, settled, last);
    forall j: nat | j < |m.segs|
      ensures m.segs[j] != [] && (FileName(j) in m.disk.hot <==> !Ripe(m.policy, last, m.segs[j][0].ingestTime))
    {
      SlotOf(Now(m.disk), m.segs, m.k, m.active, j);
      FirstIsOldest(m.cp, m.segs, m.k, m.active, j);
      if m.k <= j {
        NoneDueLater(m.cp, m.segs, m.k, settled, m.policy, last, j);
        DueExactly(m.policy, last, m.segs[j][0].ingestTime);
      }
    }
  }

  lemma {:induction false} ActiveLies(t: Tiers, segs: SegmentList, k: nat, active: seq<Record>, r: Record)
    requires Layout(t, segs, k, active) && ACTIVE in t.hot && r in active
    ensures LiesHot(t.hot, r)
  {
    LogFileReads(t.hot[ACTIVE], active);
    assert InFileOf(t.hot, ACTIVE, r);
  }

  lemma {:induction false} SegmentLies(t: Tiers, segs: SegmentList, k: nat, active: seq<Record>, j: nat, r: Record)
    requires Layout(t, segs, k, active) && j < |segs| && FileName(j) in t.hot && r in segs[j]
    ensures LiesHot(t.hot, r)
  {
    SlotOf(t, segs, k, active, j);
    FileRoundTrip(segs[j]);
    FileNameIndex(j);
    assert InFileOf(t.hot, FileName(j), r);
  }

  /** The record left with a segment that was ripe. */
  ghost predicate LeftWithRipe(m: Manager, last: I64, r: Record)
    reads m
  {
    exists j :: 0 <= j < |m.segs| && r in m.segs[j] && m.segs[j] != [] && Ripe(m.policy, last, m.segs[j][0].ingestTime)
  }

  /** So a record that lies in no file of the hot directory left with a segment
      that was. */
  lemma {:induction false} GoneWasRipe(m: Manager, last: I64, end: I64, settled: seq<Record>, r: Record)
    requires Settled(m, last, end, settled) && 0 <= last <= end && r in m.store.log && !LiesHot(m.disk.hot, r)
    ensures LeftWithRipe(m, last, r)
  {
    hide Consistent, Monotone, Dated, HighestSeal, Layout, Tidy, Flatten, Clean, InEra, AllWork, Ripe;
    hide m.Valid, m.Alive, m.Saved, m.Fresh, m.SealedBy, m.Durable, Quiet, LiesHot;
    ReadyIs(m, last, end);
    LeavesByAge(m, last, end, settled);
    if r in m.active {
      ActiveLies(Now(m.disk), m.segs, m.k, m.active, r);
    } else {
      var j := InSegment(m.segs, r);
      if FileName(j) in m.disk.hot { SegmentLies(Now(m.disk), m.segs, m.k, m.active, j, r); }
      assert m.segs[j] != [];
    }
  }

  lemma {:induction false} FirstIsReady(m: Manager, now: I64, end: I64)
    requires m.Valid() && m.store.wal.Live() && m.Saved() && m.Fresh() && m.k == 0 && m.cp.segments == []
    requires m.store.log == [] && m.store.ingestFloor == 0 && 0 <= now <= end <= MAX_AGE_MILLIS
    requires Clean(Now(m.disk), m.segs, m.k) && AllWork(m.disk.fates)
    ensures Ready(m, now, end)
  {}

  lemma {:induction false} StartOf(t0: I64)
    ensures LastRound([], t0) == t0
  {}

  lemma {:induction false} ReadyAgain(m: Manager, last: I64, now: I64, end: I64, settled: seq<Record>)
    requires Settled(m, last, end, settled) && last <= now
    ensures Ready(m, now, end)
  {
    LaterStill(m, last, now);
    RipeStays(m.segs, m.k, m.policy, last, now);
  }

  /** A run on schedule, from a first round at t0 on: whenever it is looked at,
      every record in any file of the hot directory is within the ceiling, no
      segment has left it before it was ripe or stayed after, and no evidence has
      been emitted. */
  method KeepCeiling(m0: Manager, t0: I64, events: seq<Event>, d: nat, end: I64, key: Bytes)
    returns (m: Manager, ghost settled: seq<Record>)
    requires Ready(m0, t0, end) && 0 < t0 && Paced(events, t0, d, end) && |m0.store.log| + |events| < MAX_LOG
    requires d * MILLISECOND <= m0.policy.sealInterval && m0.policy.sealInterval + d * MILLISECOND <= m0.policy.hotMax
    modifies m0, m0.disk, m0.store, m0.store.acc, m0.store.wal
    ensures Settled(m, LastRound(events, t0), end, settled) && m.disk == m0.disk && m.policy == m0.policy
    ensures m.evidence in {old(m0.evidence), []} && old(m0.store.log) <= m.store.log
    ensures forall t: I64, r ::
      LastRound(events, t0) <= t <= LastRound(events, t0) + d && t <= end && LiesHot(m.disk.hot, r) ==>
        !CeilingBreached(m.policy, t, r.ingestTime)
    ensures HotByAge(m, LastRound(events, t0))
    ensures forall r :: r in m.store.log ==> LiesHot(m.disk.hot, r) || LeftWithRipe(m, LastRound(events, t0), r)
  {
    hide Ready, Settled, Paced, LastRound, Clock, LiesHot, CeilingBreached, HotByAge, LeftWithRipe;
    PacedUpto(events, 0, t0, d, end);
    m := m0;
    ghost var log0 := m0.store.log;
    var n := 0;
    RoundInTime(m, t0, end);
    settled := m.active;
    assert events[..0] == [];
    StartOf(t0);
    while n < |events|
      invariant n <= |events| && m.disk == m0.disk && m.policy == m0.policy
      invariant m == m0 || (fresh(m) && fresh(m.store) && fresh(m.store.acc) && fresh(m.store.wal))
      invariant Settled(m, LastRound(events[..n], t0), end, settled)
      invariant log0 <= m.store.log && |m.store.log| <= |log0| + n
      invariant m.evidence in {old(m0.evidence), []}
    {
      PacedStep(events, n, t0, d, end);
      ghost var last := LastRound(events[..n], t0);
      match events[n] {
        case Admission(source, env, now) =>
          var res := AdmitInTime(m, source, env, now, last, end, settled);
        case Round(now) =>
          ReadyAgain(m, last, now, end, settled);
          RoundInTime(m, now, end);
          settled := m.active;
        case Restarts =>
          m := RestartInTime(m, key, last, end, settled);
      }
      n := n + 1;
    }
    assert events[..n] == events;
    PacedUpto(events, n, t0, d, end);
    forall t: I64, r |
      LastRound(events, t0) <= t <= LastRound(events, t0) + d && t <= end && LiesHot(m.disk.hot, r)
      ensures !CeilingBreached(m.policy, t, r.ingestTime)
    {
      NothingTooOld(m, LastRound(events, t0), end, settled, d, t, r);
    }
    LeavesByAge(m, LastRound(events, t0), end, settled);
    forall r | r in m.store.log ensures LiesHot(m.disk.hot, r) || LeftWithRipe(m, LastRound(events, t0), r) {
      if !LiesHot(m.disk.hot, r) { GoneWasRipe(m, LastRound(events, t0), end, settled, r); }
    }
  }

  /** From empty directories on. */
  method KeepFromFirstBoot(disk: Disk, configured: Policy, t0: I64, events: seq<Event>, d: nat, end: I64, key: Bytes)
    returns (m: Manager)
    requires disk.hot == map[] && disk.cold == map[] && AllWork(disk.fates) && ValidPolicy(configured)
    requires 0 < t0 && end <= MAX_AGE_MILLIS && Paced(events, t0, d, end) && |events| < MAX_LOG
    requires d * MILLISECOND <= configured.sealInterval
        && configured.sealInterval + d * MILLISECOND <= configured.hotMax
    modifies disk
    ensures m.disk == disk && m.policy == configured && m.evidence == []
    ensures forall t: I64, r ::
      LastRound(events, t0) <= t <= LastRound(events, t0) + d && t <= end && LiesHot(disk.hot, r) ==>
        !CeilingBreached(configured, t, r.ingestTime)
    ensures HotByAge(m, LastRound(events, t0))
    ensures forall r :: r in m.store.log ==> LiesHot(disk.hot, r) || LeftWithRipe(m, LastRound(events, t0), r)
  {
    hide Ready, Settled, LastRound, LiesHot, CeilingBreached, AllWork, HotByAge, LeftWithRipe;
    PacedUpto(events, 0, t0, d, end);
    var first := FirstBoot(disk, key, configured);
    FirstIsReady(first.value, t0, end);
    ghost var settled;
    m, settled := KeepCeiling(first.value, t0, events, d, end, key);
  }
}
