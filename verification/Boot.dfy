// A restart of the daemon (cmd/ocu-audit/main.go): load the checkpoint, recover
// the store from the hot tier alone, and take up retention where it stopped.

module Boot {
  import opened Bytes
  import opened Crypto
  import opened Ocsf
  import opened Chain
  import opened Segments
  import opened Replay
  import opened Disk
  import opened Store
  import opened Rotation
  import opened RetentionPolicy
  import opened Checkpoint
  import opened Retention
  import opened Inventory
  import opened Ledger
  import opened Residence
  import opened Manager
  import MerkleNodes
  import Wal

  /** The checkpoint file as it lies on disk. */
  function OnDisk(key: Bytes, file: Option<Checkpoint>): Option<SignedCheckpoint>
    requires file.Some? ==> Fits(file.value)
  {
    match file
    case None => None
    case Some(c) => Some(SignCheckpoint(key, c))
  }

  /** A checkpoint file boot must not start from. */
  predicate Refusable(signed: Option<SignedCheckpoint>, pinned: Bytes, configured: Policy) {
    match signed
    case None => false
    case Some(sc) =>
      var floor := sc.checkpoint.policy.floorYears;
      floor < 7 || configured.floorYears < floor || |pinned| != 32 || |sc.signature| != 64
      || !ED25519.verify(pinned, CheckpointBytes(sc.checkpoint), sc.signature)
  }

  function Content(signed: Option<SignedCheckpoint>): Option<Checkpoint> {
    match signed
    case None => None
    case Some(sc) => Some(sc.checkpoint)
  }

  /** NewManager's first step: refused exactly for a file that is not the
      signer's, or that pins an unlawful floor or one above the configured.  What
      the manager wrote loads back. */
  method Load(signed: Option<SignedCheckpoint>, pinned: Bytes, configured: Policy) returns (r: Option<Checkpoint>)
    ensures r == (if Refusable(signed, pinned, configured) then None else Some(Starting(Content(signed), configured)))
  {
    if signed.Some? { LoadsExactly(signed.value, pinned, configured); }
    var loaded := LoadCheckpoint(signed, pinned, configured);
    match loaded {
      case Loaded(c) => return Some(c);
      case NotExist => return Some(Starting(None, configured));
      case _ => return None;
    }
  }

  lemma {:induction false} OwnLoads(key: Bytes, file: Option<Checkpoint>, configured: Policy)
    requires (file.Some? ==> Fits(file.value) && Pins(file.value.policy, configured)) && ValidPolicy(configured)
    ensures Content(OnDisk(key, file)) == file && !Refusable(OnDisk(key, file), ED25519.publicKey(key), configured)
  {
    if file.Some? {
      WrittenLoads(key, file.value, configured);
      LoadsExactly(OnDisk(key, file).value, ED25519.publicKey(key), configured);
    }
  }

  /** What the loaded checkpoint says of the log. */
  lemma {:induction false} LoadedSays(file: Option<Checkpoint>, configured: Policy, segs: SegmentList, k: nat)
    requires DurableOk(file, configured, segs, k) && ValidPolicy(configured)
    ensures Pins(Starting(file, configured).policy, configured)
    ensures Tracked(Starting(file, configured), segs, k)
    ensures file.Some? ==> Pins(file.value.policy, configured)
  {
    if file.None? {
      EmptyConsistent(configured);
      assert segs[..0] == [];
    }
  }

  lemma {:induction false} JoinsOnlyOneWay<T>(a: seq<T>, b: seq<T>, c: seq<T>)
    ensures a + b == a + c ==> b == c
  {
    if a + b == a + c {
      assert (a + b)[|a|..] == b && (a + c)[|a|..] == c;
    }
  }

  /** What boot reads, joined to what is rotated, is the log exactly outside
      limbo. */
  lemma {:induction false} HotReads(t: Tiers, segs: SegmentList, k: nat, active: seq<Record>)
    requires Layout(t, segs, k, active)
    ensures var read := HotUnion(t.hot, NamesBelow(k));
      && k <= |segs| && (read.NoLog? || read == Records(ReadBack(read))) && (k > 0 ==> read.Records?)
      && (Upto(segs, k) + ReadBack(read) == Flatten(segs) + active <==> !Limbo(t, segs, k))
      && (!Limbo(t, segs, k) ==> ReadBack(read) == Hot(segs, k, active))
  {
    hide HotUnion;
    BootsExactlyOutsideLimbo(t, segs, k, active);
    LogSplits(segs, k, active);
    JoinsOnlyOneWay(Upto(segs, k), ReadBack(HotUnion(t.hot, NamesBelow(k))), Hot(segs, k, active));
  }

  /** The links continue across the rotation boundary. */
  lemma {:induction false} LinksContinue(segs: SegmentList, k: nat, active: seq<Record>)
    requires k <= |segs| && Linked(map[], Flatten(segs) + active)
    ensures Linked(map[], Upto(segs, k)) && Linked(TipsOf(Upto(segs, k)), Hot(segs, k, active))
    ensures Flatten(segs) + active == Upto(segs, k) + Hot(segs, k, active)
  {
    LogSplits(segs, k, active);
    LinkedSplits(map[], Upto(segs, k), Hot(segs, k, active));
  }

  lemma {:induction false} NothingBelow(segs: SegmentList)
    ensures NamesBelow(0) == {} && Upto(segs, 0) == [] && TipsOf(Upto(segs, 0)) == map[]
  {}

  /** The boot anchor of a checkpoint that may lack the latest seals. */
  lemma {:induction false} AnchorOf(c: Checkpoint, segs: SegmentList, k: nat)
    requires Tracked(c, segs, k)
    ensures HasAnchors(c) <==> k > 0
    ensures var a := BootAnchor(c.chainTips, c.treeSize, c.frontier,
        RotatedNames(c.segments), RotatedFloor(c.segments));
      && Anchors(a, Upto(segs, k)) && a.rotated == NamesBelow(k) && a.ingestFloor == HighestStamp(0, Upto(segs, k))
      && |c.frontier| == MerkleNodes.Ones(c.treeSize)
  {
    var m := |c.segments|;
    HasAnchorsIs(c, segs[..m], k);
    AnchorGenuine(c, segs[..m], k);
    UptoPrefix(segs, m, k);
    FrontierCount(Upto(segs, k));
  }

  /** Recover or RecoverAnchored, as the checkpoint has anchors or not: the
      whole committed log comes back exactly outside limbo. */
  method Recovered(disk: Disk, c: Checkpoint, ghost segs: SegmentList, ghost k: nat, ghost active: seq<Record>)
    returns (r: Option<Store>)
    requires Layout(Now(disk), segs, k, active) && Linked(map[], Flatten(segs) + active) && Tracked(c, segs, k)
    modifies disk`hot
    ensures disk.hot == if r.Some? && ACTIVE !in old(disk.hot) then old(disk.hot)[ACTIVE := []] else old(disk.hot)
    ensures r.Some? ==> Booted(r.value, disk) && fresh(r.value) && fresh(r.value.acc) && fresh(r.value.wal)
    ensures r.Some? && r.value.log == Flatten(segs) + active <==> !Limbo(old(Now(disk)), segs, k)
    ensures !Limbo(old(Now(disk)), segs, k) ==>
              && r.value.globalOffset == |Upto(segs, k)|
              && r.value.ingestFloor == HighestStamp(0, Flatten(segs) + active)
  {
    hide Layout, Limbo, Linked, HotUnion, Tracks, LeavesOf, Tracked;
    TrackedCounts(c, segs, k);
    ghost var past, rest := Upto(segs, k), Hot(segs, k, active);
    HotReads(Now(disk), segs, k, active);
    LinksContinue(segs, k, active);
    NothingBelow(segs);
    AnchorOf(c, segs, k);
    if HasAnchors(c) {
      var anchor := BootAnchorOf(c);
      r := RecoverAnchored(disk, anchor, past);
      HighestStampConcat(0, past, rest);
    } else {
      ghost var read := HotUnion(disk.hot, {});
      assert past + ReadBack(read) == ReadBack(read);
      r := Recover(disk);
    }
  }

  lemma {:induction false} DurableFits(file: Option<Checkpoint>, configured: Policy, segs: SegmentList, k: nat)
    requires DurableOk(file, configured, segs, k) && |Flatten(segs)| < MAX_LOG
    ensures file.Some? ==> Fits(file.value)
  {
    if file.Some? { TrackedFits(file.value, segs, k); }
  }

  /** The daemon's boot from the file the manager wrote.  Outside limbo it comes
      back with the whole log and the saved checkpoint; it can add to them
      exactly when the active file has no torn frame, and its books are in order
      exactly when that checkpoint lists every sealed segment. */
  method Restart(disk: Disk, signed: Option<SignedCheckpoint>, key: Bytes, configured: Policy,
                 ghost file: Option<Checkpoint>, ghost segs: SegmentList, ghost k: nat, ghost active: seq<Record>)
    returns (r: Option<Manager>)
    requires ValidPolicy(configured) && DurableOk(file, configured, segs, k)
    requires (file.Some? ==> Fits(file.value)) && signed == OnDisk(key, file)
    requires Layout(Now(disk), segs, k, active) && |Flatten(segs)| < MAX_LOG
    requires Linked(map[], Flatten(segs) + active) && Monotone(Flatten(segs) + active)
    modifies disk`hot
    ensures disk.hot == if r.Some? && ACTIVE !in old(disk.hot) then old(disk.hot)[ACTIVE := []] else old(disk.hot)
    ensures r.Some? && r.value.store.log == Flatten(segs) + active <==> !Limbo(old(Now(disk)), segs, k)
    ensures r.Some? ==>
              && fresh(r.value) && fresh(r.value.store) && fresh(r.value.store.acc) && fresh(r.value.store.wal)
              && r.value.policy == configured && r.value.disk == disk
              && r.value.cp == Starting(file, configured) && r.value.file == file
              && r.value.segs == segs && r.value.k == r.value.durable == k && r.value.active == active
              && r.value.Saved() && r.value.evidence == []
    ensures !Limbo(old(Now(disk)), segs, k) ==>
              && r.value.InStep() && r.value.store.wal.Live() && (r.value.Alive() <==> old(Tidy(disk.hot, active)))
              && !Limbo(Now(disk), segs, k) && (Clean(Now(disk), segs, k) <==> old(Clean(Now(disk), segs, k)))
              && r.value.store.globalOffset == |Upto(segs, k)|
              && r.value.store.ingestFloor == HighestStamp(0, Flatten(segs) + active)
              && r.value.Books()
              && (r.value.Valid() <==> r.value.Alive() && |Starting(file, configured).segments| == |segs|)
  {
    hide Layout, Limbo, Linked, DurableOk, Monotone, Tracks, Tracked, LeavesOf, Starting, Fits, Tidy, Upto;
    hide HighestStamp, Flatten, Pins;
    LoadedSays(file, configured, segs, k);
    OwnLoads(key, file, configured);
    var cp := Load(signed, ED25519.publicKey(key), configured);
    if cp.None? { return None; }
    ghost var before := Now(disk);
    var s := Recovered(disk, cp.value, segs, k, active);
    if s.None? { return None; }
    OpenKeeps(before, Now(disk), segs, k, active);
    var m := new Manager(configured, s.value, cp.value, Content(signed), segs, k, active);
    return Some(m);
  }

  lemma {:induction false} NothingLogged(t: Tiers)
    requires t.hot == map[] && t.cold == map[]
    ensures Layout(t, [], 0, []) && !Limbo(t, [], 0) && Flatten([]) + [] == []
  {}

  /** The first boot of all, from nothing. */
  method FirstBoot(disk: Disk, key: Bytes, configured: Policy) returns (r: Option<Manager>)
    requires disk.hot == map[] && disk.cold == map[] && ValidPolicy(configured)
    modifies disk`hot
    ensures r.Some? && r.value.Valid() && Clean(Now(disk), [], 0) && r.value.Fresh() && r.value.Saved()
    ensures r.value.disk == disk && r.value.store.log == [] && r.value.store.ingestFloor == 0
    ensures r.value.store.wal.Live() && r.value.policy == configured && r.value.k == 0 && r.value.cp.segments == []
    ensures fresh(r.value) && fresh(r.value.store) && fresh(r.value.store.acc) && fresh(r.value.store.wal)
    ensures r.value.evidence == []
  {
    NothingLogged(Now(disk));
    r := Restart(disk, None, key, configured, None, [], 0, []);
  }

  // ---------- crashes ----------

  /** A restart of a daemon from what it left on disk. */
  method Reboot(m: Manager, key: Bytes) returns (r: Option<Manager>)
    requires m.Bootable()
    modifies m.disk`hot
    ensures m.disk.hot ==
      if r.Some? && ACTIVE !in old(m.disk.hot) then old(m.disk.hot)[ACTIVE := []] else old(m.disk.hot)
    ensures r.Some? && r.value.store.log == m.Log() <==> !Limbo(old(Now(m.disk)), m.segs, m.durable)
    ensures r.Some? ==>
              && fresh(r.value) && fresh(r.value.store) && fresh(r.value.store.acc) && fresh(r.value.store.wal)
              && r.value.policy == m.policy && r.value.disk == m.disk
              && r.value.cp == Starting(m.file, m.policy) && r.value.file == m.file
              && r.value.segs == m.segs && r.value.k == r.value.durable == m.durable && r.value.active == m.active
              && r.value.Saved() && r.value.evidence == [] && (m.Fresh() ==> r.value.Fresh())
    ensures !Limbo(old(Now(m.disk)), m.segs, m.durable) ==>
              && r.value.InStep() && r.value.store.wal.Live()
              && (r.value.Alive() <==> old(Tidy(m.disk.hot, m.active)))
              && !Limbo(Now(m.disk), m.segs, m.durable)
              && (Clean(Now(m.disk), m.segs, m.durable) <==> old(Clean(Now(m.disk), m.segs, m.durable)))
              && r.value.store.globalOffset == |Upto(m.segs, m.durable)|
              && r.value.store.ingestFloor == HighestStamp(0, m.Log())
              && r.value.Books()
              && (r.value.Valid() <==> r.value.Alive() && |Starting(m.file, m.policy).segments| == |m.segs|)
  {
    hide Layout, Limbo, Linked, DurableOk, Monotone, Tracks, Clean, Fits, Starting, LeavesOf, Tidy;
    DurableFits(m.file, m.policy, m.segs, m.durable);
    r := Restart(m.disk, OnDisk(key, m.file), key, m.policy, m.file, m.segs, m.durable, m.active);
  }

  lemma {:induction false} StepIsBootable(m: Manager)
    requires m.InStep()
    ensures m.Bootable()
  {}

  /** An admission cut off at any byte of its record, then a restart.  Nothing
      committed before is lost; the record of the admission may have got in
      whether or not its source was told so, and has if it was. */
  method AdmitThenRestart(m: Manager, source: Text, env: PublishEnvelope, now: I64, key: Bytes)
    returns (res: AdmitResult, r: Option<Manager>)
    requires m.Alive() && !Limbo(Now(m.disk), m.segs, m.durable)
    modifies m.store, m.store.acc, m.store.wal`stuck, m.disk`hot, m.disk`fates, m`active
    ensures r.Some? && r.value.InStep() && r.value.store.wal.Live()
    ensures r.value.store.log == old(m.store.log) +
      if res.Committed? || (res.NotDurable? && old(m.store.wal.Flushes(RECORD_JSON.encode(m.Next(source, env, now)))))
      then [old(m.Next(source, env, now))] else []
    ensures res.Committed? ==> r.value.store.log == old(m.store.log) + [res.rec]
  {
    hide Layout, Limbo, Linked, DurableOk, Monotone, Tracks, HighestStamp, Starting, LeavesOf, Tidy, NextRecord, Clean;
    hide Flatten, Upto, m.Books, m.Sound, m.Valid;
    res := m.Admit(source, env, now);
    r := Reboot(m, key);
  }

  /** A retention round cut off at any filesystem call, inside its seal too, then
      a restart: unless the round began with a cold copy already there, the new
      store has the log of the old one, whatever failed; and retention goes on
      unless the checkpoint file missed a seal. */
  method TickThenRestart(m: Manager, now: I64, key: Bytes) returns (r: Option<Manager>)
    requires m.Valid() && 0 < now && |m.store.log| < MAX_LOG && HonestMedium(m.disk.fates, m.segs + [m.active])
    requires Clean(Now(m.disk), m.segs, m.k)
    modifies m, m.store.wal, m.disk
    ensures r.Some? && r.value.InStep() && r.value.store.log == old(m.store.log)
    ensures old(Tidy(m.disk.hot, m.active)) ==> r.value.Alive()
    ensures r.value.store.ingestFloor == HighestStamp(0, old(m.store.log))
    ensures r.value.segs == m.segs && r.value.cp == Starting(m.file, m.policy) && r.value.k == m.durable
    ensures old(m.Fresh()) ==> r.value.Fresh()
    ensures r.value.Valid() <==> r.value.Alive() && |Starting(m.file, m.policy).segments| == |m.segs|
  {
    hide Limbo, HonestMedium, Clean, Starting, HighestStamp, Tidy, Removals, NoLeftovers, Flatten, Dated, Quiet;
    hide m.Fresh, m.SealedBy, m.SealDue, m.Valid, m.Bootable, m.Saved, m.Books, m.Durable;
    hide Verdict, AllWork, FatesFrom, NewBreaches, Layout, Linked, Monotone, LeavesOf;
    ghost var sealing, removals;
    var missed, step;
    sealing, missed, step, removals := m.Tick(now);
    StepIsBootable(m);
    r := Reboot(m, key);
  }

  lemma {:induction false} FileListsSome(m: Manager)
    requires m.Durable()
    ensures |Starting(m.file, m.policy).segments| <= |m.segs|
  {}

  /** While the inventory is short a seal is due as soon as the interval has
      passed, whether or not there is a new record. */
  lemma {:induction false} LagIsDue(m: Manager)
    requires m.InStep() && m.Books() && |m.cp.segments| < |m.segs|
    ensures |m.store.log| > Boundary(m.cp.segments)
  {
    hide Layout, DurableOk;
    var n := |m.cp.segments|;
    BoundaryIs(m.cp.segments, m.segs[..n]);
    FlattenSplits(m.segs, n);
    FlattenHead(m.segs[n..]);
    SlotOf(Now(m.disk), m.segs, m.durable, m.active, n);
  }

  /** How the checkpoint file comes to miss a seal: death at the write that
      follows one.  The restarted daemon has every record, a live log with
      nothing in its active file, and an inventory that is short, so that it
      will seal again. */
  method SealThenRestart(m: Manager, now: I64, key: Bytes) returns (r: Option<Manager>)
    requires m.Valid() && |m.store.log| < MAX_LOG && m.store.wal.Live() && m.SealDue(now)
    requires Working(m.disk.fates, 8) && !Working(m.disk.fates, 14)
    requires Clean(Now(m.disk), m.segs, m.k)
    modifies m, m.store.wal, m.disk
    ensures r.Some? && r.value.Alive() && r.value.store.log == old(m.store.log)
    ensures r.value.store.wal.Live() && |r.value.cp.segments| < |r.value.segs| && !r.value.Valid()
    ensures r.value.active == [] && !Limbo(Now(m.disk), r.value.segs, r.value.k) && r.value.Books()
    ensures forall later: I64 :: r.value.SealDue(later) <==> !r.value.SealedLately(later)
  {
    hide Layout, DurableOk, Tracked, Tracks, Monotone, LeavesOf, Limbo, Clean, HighestStamp, Working, Left, Starting;
    hide HighestSeal, Boundary, Flatten;
    ghost var script := m.disk.fates;
    VerdictSteps(script);
    FileListsSome(m);
    ghost var sealing;
    var missed;
    sealing, missed := m.MaybeSeal(now);
    UnlessLimbo(Now(m.disk), m.segs, m.durable, m.active);
    StepIsBootable(m);
    r := Reboot(m, key);
    LagIsDue(r.value);
  }

  lemma {:induction false} LayoutCounts(t: Tiers, segs: SegmentList, k: nat, active: seq<Record>)
    requires Layout(t, segs, k, active) && |Flatten(segs)| < MAX_LOG
    ensures |segs| + 1 < TWO64
  {
    forall i | 0 <= i < |segs| ensures segs[i] != [] { SlotOf(t, segs, k, active, i); }
    SegmentsCount(segs, |segs|);
    assert segs[..|segs|] == segs;
  }

  /** The seal that a daemon with a short inventory makes next: the records of a
      sealed segment are gone from what boot reads. */
  method SealsOver(m: Manager) returns (snap: Option<SealSnapshot>)
    requires m.Alive() && m.Books() && m.store.wal.Live() && |m.cp.segments| < |m.segs|
    requires !Limbo(Now(m.disk), m.segs, m.k)
    modifies m.store.wal, m.disk`hot, m.disk`fates
    ensures snap.Some? <==> Working(old(m.disk.fates), 6)
    ensures snap.Some? ==> HotUnion(m.disk.hot, NamesBelow(m.k)) != Records(Hot(m.segs, m.k, m.active))
  {
    hide Layout, DurableOk, Tracked, Tracks, Monotone, LeavesOf, Limbo, HotUnion, Tidy, Working, Linked, FileName;
    ghost var before := Now(m.disk);
    var n := |m.cp.segments|;
    TrackedCounts(m.cp, m.segs, m.k);
    NextNameIs(n);
    LayoutCounts(before, m.segs, m.k, m.active);
    snap := m.store.SealActive(NextName(n));
    if snap.Some? { SealKeepsLogExactly(before, Now(m.disk), m.segs, m.k, m.active, n); }
  }

  /** A record refused by a failed sync, and another committed after it: boot
      finds both, and refuses the log if and only if they are of one source. */
  lemma {:induction false} RefusedThenCommitted(t: Tiers, t': Tiers, segs: SegmentList, k: nat, active: seq<Record>,
        s1: Text, env1: PublishEnvelope, stamp1: I64, s2: Text, env2: PublishEnvelope, stamp2: I64)
    requires Layout(t, segs, k, active) && Tidy(t.hot, active) && ACTIVE in t.hot && !Limbo(t, segs, k)
    requires Linked(map[], Flatten(segs) + active)
    requires var log := Flatten(segs) + active;
      && (s1 in TipsOf(log) ==> env1.sequence > TipsOf(log)[s1].sequence)
      && (s2 in TipsOf(log) ==> env2.sequence > TipsOf(log)[s2].sequence)
      && var r1, r2 := NextRecord(log, s1, env1, stamp1), NextRecord(log, s2, env2, stamp2);
      && Storable(r1) && Storable(r2)
      && t' == Tiers(t.hot[ACTIVE := t.hot[ACTIVE] + Wal.Frame(Encode(r1)) + Wal.Frame(Encode(r2))], t.cold)
    ensures var log := Flatten(segs) + active;
      var r1, r2 := NextRecord(log, s1, env1, stamp1), NextRecord(log, s2, env2, stamp2);
      var read := HotUnion(t'.hot, NamesBelow(k));
      && read == Records(Hot(segs, k, active) + [r1, r2])
      && (Linked(TipsOf(Upto(segs, k)), read.rs)
          <==> s1 != s2 || (r1.chainHash == r1.prevHash && r1.sequence < r2.sequence))
  {
    hide HotUnion, Layout, Limbo, Linked, Tidy, NextRecord;
    var log := Flatten(segs) + active;
    var r1, r2 := NextRecord(log, s1, env1, stamp1), NextRecord(log, s2, env2, stamp2);
    var mid := Tiers(t.hot[ACTIVE := t.hot[ACTIVE] + Wal.Frame(Encode(r1))], t.cold);
    AdmitKeeps(t, mid, segs, k, active, r1);
    AdmitKeeps(mid, t', segs, k, active + [r1], r2);
    assert active + [r1] + [r2] == active + [r1, r2];
    BootReads(t', segs, k, active + [r1, r2]);
    LinksContinue(segs, k, active);
    SecondLinks(log, s1, env1, stamp1, s2, env2, stamp2);
    ConcatAssociates(Flatten(segs[k..]), active, [r1, r2]);
    ConcatAssociates(Upto(segs, k), Hot(segs, k, active), [r1, r2]);
    LinkedSplits(map[], Upto(segs, k), Hot(segs, k, active) + [r1, r2]);
  }

  /** The condition is exact: from an attempt that begins with a cold copy, and
      only from one, a crash can leave the segment in neither place boot looks. */
  lemma {:induction false} LimboExactly(t: Tiers, segs: SegmentList, k: nat, active: seq<Record>)
    requires Layout(t, segs, k, active) && k < |segs| && (ACTIVE in t.hot || k + 1 < |segs|)
    ensures (exists t' :: AttemptEffect(t, t', FileName(k)) && Layout(t', segs, k, active) && Limbo(t', segs, k))
        <==> FileName(k) in t.cold
  {
    var name := FileName(k);
    SlotOf(t, segs, k, active, k);
    if name in t.cold {
      var t' := if name in t.hot then Tiers(t.hot - {name}, t.cold) else t;
      AttemptKeeps(t, t', segs, k, active);
      assert AttemptEffect(t, t', name) && Layout(t', segs, k, active) && Limbo(t', segs, k);
    } else {
      forall t' | AttemptEffect(t, t', name) && Layout(t', segs, k, active) ensures !Limbo(t', segs, k) {
        SlotOf(t', segs, k, active, k);
      }
    }
  }

  /** After a boot from a checkpoint whose inventory lags, the next seal would
      take the name of a segment that exists: its name is free exactly when the
      inventory is complete. */
  lemma {:induction false} NextNameFree(t: Tiers, segs: SegmentList, k: nat, active: seq<Record>, m: nat)
    requires Layout(t, segs, k, active) && k <= m <= |segs|
    ensures NextName(m) !in t.hot && NextName(m) !in t.cold <==> m == |segs|
  {
    if m < |segs| {
      SlotOf(t, segs, k, active, m);
    } else {
      NewestIsNowhere(t, m);
    }
  }

  lemma {:induction false} RolledBackSays(c: Checkpoint, segs: SegmentList, k: nat, now: I64)
    requires Tracked(c, segs, k) && k < |c.segments|
    ensures var c' := RolledBack(c, k, now);
      HasAnchors(c') && RotatedNames(c'.segments) == NamesBelow(k) && c'.chainTips == TipsOf(Upto(segs, k + 1))
  {
    var m, c' := |c.segments|, RolledBack(c, k, now);
    RolledBackIsNot(c, segs[..m], k, now);
    RotatedIs(c'.segments, segs[..m], k);
    assert EntryFor(c.segments[k], segs[..m], k);
    UptoPrefix(segs, m, k + 1);
    UptoSteps(segs[..m], k);
  }

  /** Records do not link onto tips that cover them. */
  lemma {:induction false} LinksNotTwice(segs: SegmentList, k: nat, active: seq<Record>)
    requires k < |segs| && segs[k] != [] && Linked(map[], Upto(segs, k + 1))
    ensures !Linked(TipsOf(Upto(segs, k + 1)), Hot(segs, k, active))
  {
    var tips, hot, first := TipsOf(Upto(segs, k + 1)), Hot(segs, k, active), segs[k][0];
    UptoSteps(segs, k);
    FlattenHead(segs[k..]);
    assert hot[..1] == [first] && Init(hot[..1]) == [] && Last(hot[..1]) == first;
    assert first in Upto(segs, k + 1);
    TipsBound(Upto(segs, k + 1));
    assert hot == hot[..1] + hot[1..];
    LinkedSplits(tips, hot[..1], hot[1..]);
  }

  /** A checkpoint rolled back after a failed write and then saved by a later
      one: boot refuses it exactly while the segment is still hot. */
  lemma {:induction false} RolledBackBoots(t: Tiers, c: Checkpoint, segs: SegmentList, k: nat, active: seq<Record>,
        now: I64)
    requires Layout(t, segs, k, active) && Tracked(c, segs, k) && k < |c.segments|
    requires Linked(map[], Flatten(segs) + active)
    ensures var c' := RolledBack(c, k, now); var read := HotUnion(t.hot, RotatedNames(c'.segments));
      && HasAnchors(c') && read.Records?
      && (Linked(c'.chainTips, read.rs) <==> Limbo(t, segs, k))
  {
    hide HotUnion;
    RolledBackSays(c, segs, k, now);
    HotReads(t, segs, k, active);
    BootsExactlyOutsideLimbo(t, segs, k, active);
    LinksContinue(segs, k + 1, active);
    if Limbo(t, segs, k) {
      LimboReads(t, segs, k, active);
    } else {
      SlotOf(t, segs, k, active, k);
      LinksNotTwice(segs, k, active);
    }
  }
}
