// The retention manager (internal/retention/manager.go).  The ghost fields name
// the log as the files hold it: sealed segments, how many are rotated, and the
// active rest.

module Manager {
  import opened Bytes
  import opened Ocsf
  import opened Chain
  import opened Segments
  import opened Replay
  import opened Disk
  import opened Store
  import opened Rotation
  import opened RetentionPolicy
  import opened Checkpoint
  import opened Retention
  import opened Inventory
  import opened Ledger
  import opened Residence

  /** How the seal half of a round ended: MovedOnly is a seal that failed after
      its rename, NotInventoried one whose file could not be read back. */
  datatype Sealing = NothingToSeal | SealedNow | SealRefused | MovedOnly | NotInventoried

  /** How a seal on a live log ends, by the script: six calls seal, two read the
      file back. */
  function Verdict(live: bool, fates: seq<Fate>): Sealing {
    if !live || !Working(fates, 4) then SealRefused
    else if !Working(fates, 6) then MovedOnly
    else if !Working(fates, 8) then NotInventoried
    else SealedNow
  }

  lemma {:induction false} VerdictSteps(fates: seq<Fate>)
    ensures Working(fates, 8) <==> Working(fates, 6) && Working(Left(fates, 6), 2)
    ensures Working(fates, 14) <==> Working(fates, 6) && Working(Left(fates, 6), 8)
    ensures Working(fates, 15) <==> Working(fates, 6) && Working(Left(fates, 6), 9)
    ensures AllWork(fates) ==> Working(fates, 15)
    ensures Working(fates, 6) ==> Working(fates, 4)
    ensures AllWork(fates) ==> Verdict(true, fates) == SealedNow
    ensures Verdict(true, fates) != NothingToSeal && Verdict(false, fates) == SealRefused
    ensures AllWork(fates) ==> AllWork(Left(fates, 6))
    ensures FatesFrom(fates, Left(fates, 6))
  {
    WorkingSplits(fates, 6, 2);
    WorkingSplits(fates, 6, 8);
    WorkingSplits(fates, 6, 9);
    LeftIsFrom(fates, 8);
    LeftIsFrom(fates, 15);
    LeftIsFrom(fates, 6);
  }

  // ---------- what is reported ----------

  /** One record per episode. */
  function Once(es: seq<Evidence>, e: Evidence, emitted: set<Bytes>): seq<Evidence> {
    if e.resource in emitted then es else es + [e]
  }

  /** A seal that failed is reported once an episode, and one whose checkpoint
      was not written each time. */
  function SealReport(es: seq<Evidence>, s: Sealing, saved: bool, name: Bytes, emitted: set<Bytes>): seq<Evidence> {
    match s
    case NothingToSeal => es
    case SealedNow => if saved then es else es + [SealFailure(name)]
    case _ => Once(es, SealFailure(name), emitted)
  }

  /** The episodes open after it. */
  function SealEpisodes(s: Sealing, name: Bytes, emitted: set<Bytes>): set<Bytes> {
    match s
    case NothingToSeal => emitted
    case SealedNow => emitted - {name}
    case _ => emitted + {name}
  }

  lemma {:induction false} QuietSeal(es: seq<Evidence>, name: Bytes, emitted: set<Bytes>)
    ensures forall saved :: SealReport(es, NothingToSeal, saved, name, emitted) == es
    ensures SealEpisodes(NothingToSeal, name, emitted) == emitted
    ensures SealReport(es, SealedNow, true, name, emitted) == es
  {}

  /** One segment's turn: a failure to rotate it is reported once an episode, and
      a hot copy not removed for good each time.  `rest` is the script when the
      copy was to go. */
  function StepReport(es: seq<Evidence>, cold: Dir, name: Bytes, rest: seq<Fate>, r: Step, emitted: set<Bytes>)
    : seq<Evidence>
  {
    match r
    case NotDue => es
    case Rotated => if name in cold || Working(rest, 2) then es else es + [RotationFailure(name)]
    case _ => Once(es, RotationFailure(name), emitted)
  }

  function StepEpisodes(name: Bytes, r: Step, emitted: set<Bytes>): set<Bytes> {
    match r
    case NotDue => emitted
    case Rotated => emitted - {name}
    case _ => emitted + {name}
  }

  /** One segment's turns in as many rounds, on the same evidence and episodes. */
  function TurnsReport(es: seq<Evidence>, cold: Dir, name: Bytes, rs: seq<Step>, emitted: set<Bytes>): seq<Evidence>
    decreases |rs|
  {
    if rs == [] then es
    else TurnsReport(StepReport(es, cold, name, [], rs[0], emitted), cold, name, rs[1..],
                     StepEpisodes(name, rs[0], emitted))
  }

  /** However many rounds a segment fails to rotate in, it is reported once, and
      again only after a rotation has succeeded. */
  lemma {:induction false} FailureOnce(es: seq<Evidence>, cold: Dir, name: Bytes, rs: seq<Step>, emitted: set<Bytes>)
    requires forall i :: 0 <= i < |rs| ==> rs[i] == CopyFailed || rs[i] == CheckpointFailed
    ensures TurnsReport(es, cold, name, rs, emitted) ==
      if rs == [] || name in emitted then es else es + [RotationFailure(name)]
    ensures name !in StepEpisodes(name, Rotated, emitted)
    decreases |rs|
  {
    if rs != [] {
      FailureOnce(StepReport(es, cold, name, [], rs[0], emitted), cold, name, rs[1..],
                  StepEpisodes(name, rs[0], emitted));
    }
  }

  /** Nor is a seal, until one succeeds. */
  lemma {:induction false} SealFailureOnce(es: seq<Evidence>, s: Sealing, s': Sealing, name: Bytes, emitted: set<Bytes>)
    requires s in {SealRefused, MovedOnly, NotInventoried} && s' in {SealRefused, MovedOnly, NotInventoried}
    ensures var once := SealReport(es, s, false, name, emitted); var open := SealEpisodes(s, name, emitted);
      && once == (if name in emitted then es else es + [SealFailure(name)]) && name in open
      && SealReport(once, s', false, name, open) == once
    ensures name !in SealEpisodes(SealedNow, name, emitted)
  {}

  /** The turns of the segments rotated from number `from` on. */
  function RemovalReport(es: seq<Evidence>, cold: Dir, from: nat, at: seq<seq<Fate>>): seq<Evidence> {
    if at == [] then es
    else StepReport(RemovalReport(es, cold, from, Init(at)), cold, FileName(from + |at| - 1), Last(at), Rotated, {})
  }

  /** And of the one that rotation stopped at. */
  function RotationReport(es: seq<Evidence>, cold: Dir, from: nat, at: seq<seq<Fate>>, r: Step, emitted: set<Bytes>)
    : seq<Evidence>
  {
    if r == Rotated then RemovalReport(es, cold, from, at)
    else StepReport(RemovalReport(es, cold, from, at), cold, FileName(from + |at|), [], r, emitted)
  }

  /** A round, before its breaches: the seal, under `name`, then the rotations. */
  function RoundReport(es: seq<Evidence>, s: Sealing, saved: bool, name: Bytes, cold: Dir, from: nat,
                       at: seq<seq<Fate>>, r: Step, emitted: set<Bytes>): seq<Evidence>
  {
    RotationReport(SealReport(es, s, saved, name, emitted), cold, from, at, r, SealEpisodes(s, name, emitted))
  }

  function NamesFrom(from: nat, k: nat): set<Bytes> {
    set j | from <= j < k :: FileName(j)
  }

  /** Ending the episodes of rotated segments reports nothing again. */
  lemma {:induction false} SilentUpto(es: seq<SegmentEntry>, segs: SegmentList, n: nat, from: nat, k: nat, p: Policy,
        now: I64, emitted: set<Bytes>)
    requires Inventoried(es, segs) && RotatedPrefix(es, k) && n <= |es|
    ensures NewBreaches(es[..n], p, now, emitted - NamesFrom(from, k)) == NewBreaches(es[..n], p, now, emitted)
  {
    if n > 0 {
      SilentUpto(es, segs, n - 1, from, k, p, now, emitted);
      assert Init(es[..n]) == es[..n - 1] && Last(es[..n]) == es[n - 1];
      assert EntryFor(es[n - 1], segs, n - 1);
      forall j: nat | from <= j < k && k <= n - 1 ensures FileName(j) != es[n - 1].name { NamesApart(j, n - 1); }
    }
  }

  lemma {:induction false} RotatedSilent(c: Checkpoint, segs: SegmentList, from: nat, k: nat, p: Policy, now: I64,
        emitted: set<Bytes>)
    requires Listed(c, segs) && RotatedPrefix(c.segments, k)
    ensures NewBreaches(c.segments, p, now, emitted - NamesFrom(from, k)) == NewBreaches(c.segments, p, now, emitted)
  {
    var n := |c.segments|;
    SilentUpto(c.segments, segs[..n], n, from, k, p, now, emitted);
    assert c.segments[..n] == c.segments;
  }

  /** The episodes open after it. */
  function RotationEpisodes(from: nat, k: nat, r: Step, emitted: set<Bytes>): set<Bytes> {
    if r == Rotated then emitted - NamesFrom(from, k) else StepEpisodes(FileName(k), r, emitted - NamesFrom(from, k))
  }

  lemma {:induction false} NamesStep(from: nat, k: nat, emitted: set<Bytes>)
    requires from <= k
    ensures FileName(k) in emitted - NamesFrom(from, k) <==> FileName(k) in emitted
    ensures emitted - NamesFrom(from, k) - {FileName(k)} == emitted - NamesFrom(from, k + 1)
    ensures emitted - NamesFrom(from, from) == emitted
  {
    forall j: nat | from <= j < k ensures FileName(j) != FileName(k) { NamesApart(j, k); }
    assert NamesFrom(from, k + 1) == NamesFrom(from, k) + {FileName(k)};
  }

  lemma {:induction false} NothingReported(es: seq<Evidence>, cold: Dir, k: nat, failed: set<Bytes>,
        breached: set<Bytes>)
    ensures RemovalReport(es, cold, k, []) == es
    ensures failed - NamesFrom(k, k) == failed && breached - NamesFrom(k, k) == breached
  {}

  lemma {:induction false} AllTurns(es: seq<Evidence>, cold: Dir, from: nat, k: nat, at: seq<seq<Fate>>,
        emitted: set<Bytes>)
    ensures RotationReport(es, cold, from, at, Rotated, emitted) == RemovalReport(es, cold, from, at)
    ensures RotationEpisodes(from, k, Rotated, emitted) == emitted - NamesFrom(from, k)
  {}

  /** When every call works there is nothing to report. */
  lemma {:induction false} QuietReport(es: seq<Evidence>, cold: Dir, from: nat, at: seq<seq<Fate>>, first: seq<Fate>,
        last: seq<Fate>)
    requires AllWork(first) && InTurn(first, at, last)
    ensures RemovalReport(es, cold, from, at) == es
    decreases |at|
  {
    if at != [] {
      QuietReport(es, cold, from, Init(at), first, Last(at));
      InTurnIsFrom(first, Init(at), Last(at));
      AllWorkFrom(first, Last(at));
      LeftIsFrom(Last(at), 2);
    }
  }

  lemma {:induction false} QuietRound(es: seq<Evidence>, t: Tiers, t': Tiers, k: nat, k': nat, at: seq<seq<Fate>>,
        first: seq<Fate>, last: seq<Fate>, r: Step, emitted: set<Bytes>)
    requires Removals(t, t', k, k', first, at, last) && r in {Rotated, NotDue}
    ensures AllWork(first) ==> RotationReport(es, t.cold, k, at, r, emitted) == es
  {
    if AllWork(first) { QuietReport(es, t.cold, k, at, first, last); }
  }

  /** The turn of segment k, after those before it. */
  lemma {:induction false} ReportStep(es: seq<Evidence>, cold: Dir, cold': Dir, from: nat, at: seq<seq<Fate>>,
        rest: seq<Fate>, r: Step, emitted: set<Bytes>)
    requires ColdFrom(cold, cold', from + |at|)
    ensures var k, so := from + |at|, RemovalReport(es, cold, from, at); var left := emitted - NamesFrom(from, k);
      var after, episodes := StepReport(so, cold', FileName(k), rest, r, left), StepEpisodes(FileName(k), r, left);
      && (r == Rotated ==>
            && after == RemovalReport(es, cold, from, at + [rest]) && episodes == emitted - NamesFrom(from, k + 1))
      && (r != Rotated ==>
            && after == RotationReport(es, cold, from, at, r, emitted)
            && episodes == RotationEpisodes(from, k, r, emitted))
  {
    assert SameFile(cold, cold', FileName(from + |at|));
    assert Init(at + [rest]) == at && Last(at + [rest]) == rest;
    NamesStep(from, from + |at|, emitted);
  }

  class Manager {
    const policy: Policy
    const store: Store
    const disk: Disk
    var cp: Checkpoint
    /** What the checkpoint file pins, signed. */
    var file: Option<Checkpoint>
    var failureEmitted: set<Bytes>
    var breachEmitted: set<Bytes>
    var evidence: seq<Evidence>
    ghost var segs: SegmentList
    ghost var k: nat
    ghost var active: seq<Record>
    /** The rotated count boot would read: k, except after a crash or fault
        between the checkpoint file and the memory it was written from. */
    ghost var durable: nat

    /** What the files hold. */
    ghost predicate Durable()
      reads `file, `segs, `active, `durable, disk`hot, disk`cold
    {
      && Layout(Now(disk), segs, durable, active) && DurableOk(file, policy, segs, durable)
      && |Flatten(segs)| < MAX_LOG
    }

    /** The committed records in the files. */
    ghost function Log(): seq<Record>
      reads `segs, `active
    {
      Flatten(segs) + active
    }

    /** They are a log a store can be booted from. */
    ghost predicate Bootable()
      reads `file, `segs, `active, `durable, disk`hot, disk`cold
    {
      Durable() && ValidPolicy(policy) && Linked(map[], Log()) && Monotone(Log())
    }

    ghost predicate Sound()
      reads store, store.acc, store.wal, store.wal.disk`hot
    {
      && store.wal.disk == disk && store.Valid() && ValidPolicy(policy)
      && Linked(map[], store.log) && Monotone(store.log)
    }

    /** The store has the log the files hold. */
    ghost predicate InStep()
      reads `file, `segs, `active, `durable, disk`hot, disk`cold, store, store.acc, store.wal, store.wal.disk`hot
    {
      Sound() && Durable() && store.log == Log()
    }

    /** And, if it can add to it, no torn frame stands in the way. */
    ghost predicate Alive()
      reads `file, `segs, `active, `durable, disk`hot, disk`cold, store, store.acc, store.wal, store.wal.disk`hot
    {
      InStep() && (store.wal.Live() ==> Tidy(disk.hot, active))
    }

    /** The checkpoint in memory agrees with the files; it may lack the latest
        seals, and does while the active file is missing. */
    ghost predicate Books()
      reads `file, `segs, `active, `durable, `cp, `k, disk`hot, disk`cold
    {
      && Durable() && durable == k && Tracked(cp, segs, k) && Pins(cp.policy, policy)
      && (ACTIVE in disk.hot || segs == [] || |cp.segments| < |segs|)
    }

    /** And it lacks a seal only if the log is dead, so that none follows. */
    ghost predicate Valid()
      reads `file, `segs, `active, `durable, `cp, `k, disk`hot, disk`cold
      reads store, store.acc, store.wal, store.wal.disk`hot
    {
      Alive() && Books() && (store.wal.Live() ==> |cp.segments| == |segs|)
    }

    /** The checkpoint file is what memory says. */
    ghost predicate Saved()
      reads `cp, `file
    {
      cp == Starting(file, policy)
    }

    /** No seal is later than now, in memory or in the file. */
    ghost predicate SealedBy(now: I64)
      reads `cp, `file
    {
      HighestSeal(cp.segments) <= now && FileSeal() <= now
    }

    /** The latest seal in the checkpoint file. */
    ghost function FileSeal(): I64
      reads `file
    {
      HighestSeal(Starting(file, policy).segments)
    }

    /** Active records were stamped at or after the last seal, as memory and as
        the file have it. */
    ghost predicate Fresh()
      reads `active, `cp, `file
    {
      forall r :: r in active ==> r.ingestTime >= HighestSeal(cp.segments) && r.ingestTime >= FileSeal()
    }

    constructor (policy: Policy, store: Store, cp: Checkpoint, file: Option<Checkpoint>,
                 ghost segs: SegmentList, ghost k: nat, ghost active: seq<Record>)
      ensures this.policy == policy && this.store == store && disk == store.wal.disk
      ensures this.cp == cp && this.file == file
      ensures failureEmitted == breachEmitted == {} && evidence == []
      ensures this.segs == segs && this.k == durable == k && this.active == active
    {
      this.policy, this.store, this.disk, this.cp, this.file := policy, store, store.wal.disk, cp, file;
      failureEmitted, breachEmitted, evidence := {}, {}, [];
      this.segs, this.k, this.active, durable := segs, k, active, k;
    }

    // ---------- rotation ----------

    /** One failure record per episode. */
    method EmitOnce(name: Bytes)
      modifies this`failureEmitted, this`evidence
      ensures failureEmitted == old(failureEmitted) + {name}
      ensures evidence == Once(old(evidence), RotationFailure(name), old(failureEmitted))
    {
      if name !in failureEmitted {
        failureEmitted := failureEmitted + {name};
        evidence := evidence + [RotationFailure(name)];
      }
    }

    /** Segment i, copied, becomes rotated: in memory, then in the file. */
    method Promote(i: nat, now: I64) returns (ok: bool)
      requires Books() && i == k < |cp.segments| && now != 0 && FileName(i) in disk.cold
      modifies this`cp, this`file, this`k, this`durable, disk`fates
      ensures Durable() && (Books() <==> ok) && k <= durable
      ensures Listed(cp, segs) && RotatedPrefix(cp.segments, k) && |cp.segments| == old(|cp.segments|)
      ensures HighestSeal(cp.segments) == old(HighestSeal(cp.segments))
      ensures FileSeal() == old(FileSeal()) || FileSeal() == HighestSeal(cp.segments)
      ensures ok ==> Saved()
      ensures k == if ok then i + 1 else i
      ensures cp == if ok then Promoted(old(cp), i, now) else RolledBack(old(cp), i, now)
      ensures !Limbo(Now(disk), segs, i) ==> !Limbo(Now(disk), segs, durable)
      ensures ok ==> Clean(Now(disk), segs, k)
      ensures FatesFrom(old(disk.fates), disk.fates)
      ensures AllWork(old(disk.fates)) ==> ok
    {
      hide Layout, Tracked, Fits, Limbo, Clean, Listed, HighestSeal, Pins, Working, FatesFrom, AllWork, RotatedPrefix;
      PromotionHolds(Now(disk), cp, segs, i, active, now);
      TrackedCounts(Promoted(cp, i, now), segs, i + 1);
      cp := Promoted(cp, i, now);
      ghost var was := file;
      file, ok := WriteCheckpoint(disk, cp, file);
      if file != was || ok { durable := i + 1; }
      if ok { k := i + 1; } else { cp := WithRotatedAt(cp, i, 0); }
    }

    /** The hot copy goes; a failure is reported and the episodes end. */
    method Finish(i: nat, name: Bytes)
      requires Books() && i < k && name == FileName(i)
      modifies this`failureEmitted, this`breachEmitted, this`evidence, disk`hot, disk`fates
      ensures Books() && (Limbo(Now(disk), segs, k) <==> old(Limbo(Now(disk), segs, k)))
      ensures failureEmitted == old(failureEmitted) - {name} && breachEmitted == old(breachEmitted) - {name}
      ensures SameFile(old(disk.hot), disk.hot, ACTIVE) && Elsewhere(old(Now(disk)), Now(disk), name)
      ensures name in disk.hot <==> name in old(disk.hot) && !Working(old(disk.fates), 1)
      ensures FatesFrom(old(disk.fates), disk.fates)
      ensures evidence ==
                if name !in old(disk.hot) || Working(old(disk.fates), 2) then old(evidence)
                else old(evidence) + [RotationFailure(name)]
    {
      hide Layout, Tracked, Limbo, Pins, FatesFrom, AllWork, Working;
      ghost var copied := Now(disk);
      TrackedCounts(cp, segs, k);
      FileNameIsNotActive(i);
      var ok := FinishRotation(disk, name);
      FinishKeeps(copied, Now(disk), segs, k, active, i);
      if !ok { evidence := evidence + [RotationFailure(name)]; }
      failureEmitted := failureEmitted - {name};
      breachEmitted := breachEmitted - {name};
    }

    /** RotateCopy for segment i; the checkpoint is not touched. */
    method CopyNext(i: nat, name: Bytes) returns (ok: bool)
      requires Books() && i == k < |cp.segments| && name == FileName(i) && HonestMedium(disk.fates, segs)
      modifies this`failureEmitted, this`evidence, disk
      ensures Books() && (ok ==> name in disk.cold && (name in disk.hot <==> name !in old(disk.cold)))
      ensures old(Clean(Now(disk), segs, k)) ==> !Limbo(Now(disk), segs, k)
      ensures SameFile(old(disk.hot), disk.hot, ACTIVE) && Elsewhere(old(Now(disk)), Now(disk), name)
      ensures FatesFrom(old(disk.fates), disk.fates)
      ensures ok <==> WouldCopy(old(Now(disk)), old(disk.temps), old(disk.fates), name)
      ensures AllWork(old(disk.fates)) ==> ok
      ensures evidence == if ok then old(evidence) else Once(old(evidence), RotationFailure(name), old(failureEmitted))
      ensures failureEmitted == if ok then old(failureEmitted) else old(failureEmitted) + {name}
    {
      hide Layout, Tracked, Limbo, Clean, Pins, HonestMedium, FatesFrom, AllWork, WouldCopy;
      TrackedCounts(cp, segs, k);
      var st := CopySegment(disk, name, segs, i, active);
      ok := st == Done;
      if !ok { EmitOnce(name); }
    }

    /** One round of rotateDue at the first unrotated segment. */
    method RotateNext(i: nat, now: I64) returns (r: Step, ghost at: seq<Fate>)
      requires Books() && i == k < |cp.segments| && now != 0 && HonestMedium(disk.fates, segs)
      modifies this`cp, this`file, this`failureEmitted, this`breachEmitted, this`evidence, this`k, this`durable, disk
      ensures Durable() && (Books() <==> r != CheckpointFailed) && k <= durable
      ensures Listed(cp, segs) && RotatedPrefix(cp.segments, k) && |cp.segments| == old(|cp.segments|)
      ensures HighestSeal(cp.segments) == old(HighestSeal(cp.segments))
      ensures FileSeal() == old(FileSeal()) || FileSeal() == HighestSeal(cp.segments)
      ensures r == Rotated ==> Saved()
      ensures r == NotDue ==> file == old(file)
      ensures r == NotDue <==> !RotationDue(policy, now, old(cp.segments[i].firstIngest))
      ensures var oldest := old(cp.segments[i].firstIngest);
        if r == NotDue then MayStay(policy, now, oldest) else MayLeave(policy, now, oldest)
      ensures r == NotDue ==> Now(disk) == old(Now(disk))
      ensures k == if r == Rotated then i + 1 else i
      ensures cp == match r
                case Rotated => Promoted(old(cp), i, now)
                case CheckpointFailed => RolledBack(old(cp), i, now)
                case _ => old(cp)
      ensures old(Clean(Now(disk), segs, k)) ==> !Limbo(Now(disk), segs, durable)
      ensures r == Rotated ==> Clean(Now(disk), segs, k)
      ensures SameFile(old(disk.hot), disk.hot, ACTIVE) && Elsewhere(old(Now(disk)), Now(disk), FileName(i))
      ensures FatesFrom(old(disk.fates), at) && FatesFrom(at, disk.fates)
      ensures r == Rotated ==> RemovedAt(old(disk.cold), disk.hot, FileName(i), at)
      ensures r in {NotDue, CopyFailed}
          || WouldCopy(old(Now(disk)), old(disk.temps), old(disk.fates), FileName(i))
      ensures r == CopyFailed ==> !WouldCopy(old(Now(disk)), old(disk.temps), old(disk.fates), FileName(i))
      ensures AllWork(old(disk.fates)) ==> r in {Rotated, NotDue}
      ensures evidence == StepReport(old(evidence), old(disk.cold), FileName(i), at, r, old(failureEmitted))
      ensures failureEmitted == StepEpisodes(FileName(i), r, old(failureEmitted))
      ensures breachEmitted == if r == Rotated then old(breachEmitted) - {FileName(i)} else old(breachEmitted)
    {
      hide Layout, Tracked, HonestMedium, Limbo, RotationDue, Promoted, RolledBack, Listed, HighestSeal, Pins;
      hide Working, FatesFrom, AllWork, Elsewhere, MayLeave, MayStay, Once, RotatedPrefix, FileSeal, LeavesOf;
      hide WouldCopy;
      ScriptsChain();
      EntryIs(cp, Now(disk), segs, i, active);
      ghost var before := Now(disk);
      var e := cp.segments[i];
      at := disk.fates;
      ElsewhereNothing(before, e.name);
      DueDecides(policy, now, e.firstIngest);
      if !RotationDue(policy, now, e.firstIngest) { return NotDue, at; }
      var ok := CopyNext(i, e.name);
      AllWorkFrom(old(disk.fates), disk.fates);
      if !ok { return CopyFailed, at; }
      ok := Promote(i, now);
      AllWorkFrom(old(disk.fates), disk.fates);
      at := disk.fates;
      ghost var copied := Now(disk);
      if !ok {
        EmitOnce(e.name);
        return CheckpointFailed, at;
      }
      Finish(i, e.name);
      ElsewhereTwice(before, copied, Now(disk), e.name);
      return Rotated, at;
    }

    /** rotateDue: in index order, stopping at the first segment that is not due
        or does not rotate.  No leftover of an earlier round is looked at. */
    method RotateDue(now: I64) returns (r: Step, ghost at: seq<seq<Fate>>)
      requires Books() && now != 0 && HonestMedium(disk.fates, segs)
      modifies this`cp, this`file, this`failureEmitted, this`breachEmitted, this`evidence, this`k, this`durable, disk
      ensures Durable() && (Books() <==> r != CheckpointFailed) && k <= durable
      ensures Listed(cp, segs) && RotatedPrefix(cp.segments, k) && |cp.segments| == old(|cp.segments|) && k >= old(k)
      ensures HighestSeal(cp.segments) == old(HighestSeal(cp.segments))
      ensures FileSeal() == old(FileSeal()) || FileSeal() == HighestSeal(cp.segments)
      ensures r == Rotated ==> k == |cp.segments|
      ensures r == NotDue ==> k < |cp.segments| && !RotationDue(policy, now, cp.segments[k].firstIngest)
      ensures old(Clean(Now(disk), segs, k)) ==> !Limbo(Now(disk), segs, durable)
      ensures old(Clean(Now(disk), segs, k)) && r in {Rotated, NotDue} ==> Clean(Now(disk), segs, k)
      ensures old(Saved()) && r in {Rotated, NotDue} ==> Saved()
      ensures SameFile(old(disk.hot), disk.hot, ACTIVE)
      ensures Removals(old(Now(disk)), Now(disk), old(k), k, old(disk.fates), at, disk.fates)
      ensures NoneEarly(cp.segments, old(k), k, policy, now)
      ensures evidence == RotationReport(old(evidence), old(disk.cold), old(k), at, r, old(failureEmitted))
      ensures failureEmitted == RotationEpisodes(old(k), k, r, old(failureEmitted))
      ensures breachEmitted == old(breachEmitted) - NamesFrom(old(k), k)
      ensures AllWork(old(disk.fates)) ==> r in {Rotated, NotDue}
    {
      hide Layout, Tracked, Clean, Limbo, RotationDue, Promoted, RolledBack, Listed, HonestMedium, HighestSeal, Pins;
      hide Working, FatesFrom, AllWork, Elsewhere, LeftoversStay, RemovedAsCalled, RemovedAt, InTurn, ColdFrom;
      hide RotatedPrefix, FileSeal, DurableOk, LeavesOf, Flatten;
      hide NoneEarly, MayLeave, MayStay, StepReport, StepEpisodes, RemovalReport, RotationReport, NamesFrom;
      hide RotationEpisodes;
      var i := 0;
      at := [];
      TrackedCounts(cp, segs, k);
      UnlessLimbo(Now(disk), segs, k, active);
      NothingYet(Now(disk), k, disk.fates);
      NoneYet(cp.segments, k, policy, now);
      NothingReported(evidence, disk.cold, k, failureEmitted, breachEmitted);
      while i < |cp.segments|
        invariant Books() && i <= k <= |cp.segments| == old(|cp.segments|) && k >= old(k)
        invariant Listed(cp, segs) && RotatedPrefix(cp.segments, k)
        invariant HighestSeal(cp.segments) == old(HighestSeal(cp.segments))
        invariant FileSeal() == old(FileSeal()) || FileSeal() == HighestSeal(cp.segments)
        invariant old(Clean(Now(disk), segs, k)) ==> Clean(Now(disk), segs, k) && !Limbo(Now(disk), segs, durable)
        invariant old(Saved()) ==> Saved()
        invariant SameFile(old(disk.hot), disk.hot, ACTIVE) && ColdFrom(old(disk.cold), disk.cold, k)
        invariant Removals(old(Now(disk)), Now(disk), old(k), k, old(disk.fates), at, disk.fates)
        invariant NoneEarly(cp.segments, old(k), k, policy, now)
        invariant evidence == RemovalReport(old(evidence), old(disk.cold), old(k), at)
        invariant failureEmitted == old(failureEmitted) - NamesFrom(old(k), k)
        invariant breachEmitted == old(breachEmitted) - NamesFrom(old(k), k)
      {
        FirstUnrotated(cp, segs, k, i);
        if cp.segments[i].rotatedAt == 0 {
          ghost var before, script := Now(disk), disk.fates;
          InTurnIsFrom(old(disk.fates), at, script);
          HonestLater(old(disk.fates), script, segs);
          AllWorkFrom(old(disk.fates), script);
          ghost var rest;
          ghost var was := cp;
          r, rest := RotateNext(i, now);
          NoneEarlyNext(was, cp, r, old(k), i, policy, now);
          LeftoversStep(old(disk.hot), before, Now(disk), old(k), i);
          ReportStep(old(evidence), old(disk.cold), before.cold, old(k), at, rest, r, old(failureEmitted));
          NamesStep(old(k), i, old(breachEmitted));
          RemovedBefore(old(disk.cold), before, Now(disk), old(k), at, i);
          InTurnNext(old(disk.fates), at, script, rest, disk.fates);
          if r != Rotated { return; }
          RemovedOneMore(old(disk.cold), before.cold, disk.hot, old(k), at, rest);
          ColdStep(old(disk.cold), before, Now(disk), i);
          at := at + [rest];
        }
        i := i + 1;
      }
      AllTurns(old(evidence), old(disk.cold), old(k), k, at, old(failureEmitted));
      return Rotated, at;
    }

    /** rotateDue leaves the store alone. */
    method RotateAll(now: I64) returns (r: Step, ghost at: seq<seq<Fate>>)
      requires InStep() && Books() && 0 < now && HonestMedium(disk.fates, segs)
      modifies this`cp, this`file, this`failureEmitted, this`breachEmitted, this`evidence, this`k, this`durable, disk
      ensures InStep() && (Books() <==> r != CheckpointFailed) && k <= durable
      ensures Tidy(disk.hot, active) <==> old(Tidy(disk.hot, active))
      ensures Listed(cp, segs) && RotatedPrefix(cp.segments, k) && |cp.segments| == old(|cp.segments|) && k >= old(k)
      ensures old(Fresh()) ==> Fresh()
      ensures (old(SealedLately(now)) ==> SealedLately(now)) && (old(SealedBy(now)) ==> SealedBy(now))
      ensures r == Rotated ==> k == |cp.segments|
      ensures r == NotDue ==> k < |cp.segments| && !RotationDue(policy, now, cp.segments[k].firstIngest)
      ensures old(Clean(Now(disk), segs, k)) ==> !Limbo(Now(disk), segs, durable)
      ensures old(Clean(Now(disk), segs, k)) && r in {Rotated, NotDue} ==> Clean(Now(disk), segs, k)
      ensures old(Saved()) && r in {Rotated, NotDue} ==> Saved()
      ensures Removals(old(Now(disk)), Now(disk), old(k), k, old(disk.fates), at, disk.fates)
      ensures NoneEarly(cp.segments, old(k), k, policy, now)
      ensures evidence == RotationReport(old(evidence), old(disk.cold), old(k), at, r, old(failureEmitted))
      ensures failureEmitted == RotationEpisodes(old(k), k, r, old(failureEmitted))
      ensures breachEmitted == old(breachEmitted) - NamesFrom(old(k), k)
      ensures AllWork(old(disk.fates)) ==> r in {Rotated, NotDue} && evidence == old(evidence)
    {
      hide Layout, Tracked, Tracks, Clean, Limbo, RotationDue, Listed, HonestMedium, HighestSeal, Pins, Monotone;
      hide FatesFrom, AllWork, DurableOk, LeavesOf, Removals, Starting, NoneEarly, RotationReport, RotatedPrefix;
      hide RotationEpisodes, NamesFrom;
      ghost var told, episodes, script := evidence, failureEmitted, disk.fates;
      ghost var before := Now(disk);
      r, at := RotateDue(now);
      if r in {Rotated, NotDue} {
        QuietRound(told, before, Now(disk), old(k), k, at, script, disk.fates, r, episodes);
      }
      assert store.Valid();
    }

    /** emitBreaches: one record per episode and segment still hot past the
        ceiling. */
    method EmitBreaches(now: I64)
      requires Listed(cp, segs)
      modifies this`breachEmitted, this`evidence
      ensures evidence == old(evidence) + NewBreaches(cp.segments, policy, now, old(breachEmitted))
      ensures breachEmitted == old(breachEmitted) + BreachedNames(cp.segments, policy, now)
    {
      hide CeilingBreached, Inventoried;
      var es := cp.segments;
      for i := 0 to |es|
        invariant breachEmitted == old(breachEmitted) + BreachedNames(es[..i], policy, now)
        invariant evidence == old(evidence) + NewBreaches(es[..i], policy, now, old(breachEmitted))
      {
        assert Init(es[..i + 1]) == es[..i] && Last(es[..i + 1]) == es[i];
        NameIsNew(es, segs[..|es|], i, policy, now);
        if es[i].rotatedAt == 0 && CeilingBreached(policy, now, es[i].firstIngest) && es[i].name !in breachEmitted {
          breachEmitted := breachEmitted + {es[i].name};
          evidence := evidence + [CeilingBreach(es[i].name)];
        }
      }
      assert es[..|es|] == es;
    }

    // ---------- sealing ----------

    /** One failure record per episode. */
    method EmitSealFailure(name: Bytes)
      modifies this`failureEmitted, this`evidence
      ensures failureEmitted == old(failureEmitted) + {name}
      ensures evidence == Once(old(evidence), SealFailure(name), old(failureEmitted))
    {
      if name !in failureEmitted {
        failureEmitted := failureEmitted + {name};
        evidence := evidence + [SealFailure(name)];
      }
    }

    method Save() returns (ok: bool)
      requires Books() && Fits(cp)
      modifies this`file, disk`fates
      ensures Books() && (ok <==> Working(old(disk.fates), 7))
      ensures file == if Working(old(disk.fates), 6) then Some(cp) else old(file)
      ensures FatesFrom(old(disk.fates), disk.fates)
      ensures AllWork(old(disk.fates)) ==> ok
    {
      hide Layout, Tracked, Fits, Working, FatesFrom, AllWork, Pins;
      file, ok := WriteCheckpoint(disk, cp, file);
    }

    /** The files after a seal that got as far as its rename: the active log is
        the last segment, which the inventory does not list yet. */
    ghost method NoteMove(before: Tiers)
      requires Layout(before, segs, k, active) && Consistent(cp, segs, k) && DurableOk(file, policy, segs, k)
      requires Pins(cp.policy, policy) && durable == k && ACTIVE in before.hot && Tidy(before.hot, active)
      requires |Flatten(segs) + active| < MAX_LOG && active != []
      requires var moved := Moved(before.hot, NextName(|segs|));
        Now(disk).cold == before.cold && Now(disk).hot in {moved, moved[ACTIVE := []]}
      modifies this`segs, this`active
      ensures Books() && Tidy(disk.hot, active) && Log() == old(Log())
      ensures segs == old(segs) + [old(active)] && active == [] && |cp.segments| == |old(segs)|
      ensures Limbo(Now(disk), segs, k) <==> Limbo(before, old(segs), k)
      ensures Clean(before, old(segs), k) ==> Clean(Now(disk), segs, k)
    {
      hide Layout, Consistent, DurableOk, Tracked, Limbo, Clean, Pins, Tidy, Linked, Monotone, LeavesOf;
      MoveHolds(before, Now(disk), cp, file, policy, segs, k, active);
      segs, active := segs + [active], [];
      assert Flatten(segs) + [] == Flatten(segs);
    }

    /** The state between a seal and its inventory. */
    ghost predicate JustSealed(name: Bytes, snap: SealSnapshot, was: SegmentList, sealed: seq<Record>)
      reads `file, `segs, `active, `durable, `cp, `k, disk`hot, disk`cold
    {
      && Books() && segs == was + [sealed] && active == []
      && Consistent(cp, was, k) && |Flatten(was) + sealed| < MAX_LOG
      && sealed != [] && name == FileName(|was|) && name in disk.hot && ACTIVE in disk.hot
      && AllStorable(sealed) && disk.hot[name] == FileOf(sealed) && ReadRaw(FileOf(sealed)) == Some(sealed)
      && var log := Flatten(was) + sealed; snap == SealSnapshot(|log|, |log|, FrontierOf(log), TipsOf(log))
    }

    /** The file just sealed is inventoried and recorded: in memory, then in the
        checkpoint file, which may stay behind. */
    method RecordSeal(name: Bytes, snap: SealSnapshot, boundary: nat, now: I64, ghost was: SegmentList,
          ghost sealed: seq<Record>)
      returns (ok: bool)
      requires JustSealed(name, snap, was, sealed) && boundary == |Flatten(was)|
      modifies this`cp, this`file, this`failureEmitted, this`evidence, disk`fates
      ensures Books() && (ok <==> Working(old(disk.fates), 2))
      ensures if ok then |cp.segments| == |segs| else cp == old(cp) && file == old(file)
      ensures ok ==> file == if Working(old(disk.fates), 8) then Some(cp) else old(file)
      ensures old(SealedBy(now)) ==> SealedBy(now)
      ensures FatesFrom(old(disk.fates), disk.fates)
      ensures var s := if ok then SealedNow else NotInventoried;
        && evidence == SealReport(old(evidence), s, Working(old(disk.fates), 9), name, old(failureEmitted))
        && failureEmitted == SealEpisodes(s, name, old(failureEmitted))
      ensures AllWork(old(disk.fates)) ==> ok && Saved()
    {
      hide Layout, Consistent, DurableOk, Tracked, FrontierOf, Fits, Pins, FileName, Working, Left, FatesFrom, AllWork;
      hide Describes, ReadRaw, HighestSeal, Flatten;
      LeftIsFrom(disk.fates, 2);
      LeftIsFrom(disk.fates, 8);
      WorkingSplits(disk.fates, 2, 6);
      WorkingSplits(disk.fates, 2, 7);
      ghost var script := disk.fates;
      var entry := InventorySealed(disk, name, disk.hot[name], snap, boundary, now);
      if entry.None? {
        EmitSealFailure(name);
        return false;
      }
      SealHolds(cp, was, k, sealed, entry.value, snap, now);
      cp := cp.(segments := cp.segments + [entry.value]);
      var saved := Save();
      FromTwice(script, Left(script, 2), disk.fates);
      if !saved { evidence := evidence + [SealFailure(name)]; }
      failureEmitted := failureEmitted - {name};
      return true;
    }

    /** SealActive, and what it does to the files. */
    method MoveActive(name: Bytes) returns (snap: Option<SealSnapshot>)
      requires Valid() && |store.log| < MAX_LOG && name == NextName(|cp.segments|)
      requires store.wal.Live() ==> active != []
      modifies this`segs, this`active, store.wal`closed, store.wal`stuck, disk`hot, disk`fates
      ensures Alive() && Books() && Log() == old(Log())
      ensures snap.Some? <==> old(store.wal.Live()) && Working(old(disk.fates), 6)
      ensures snap.Some? ==>
                && store.wal.Live() && disk.fates == Left(old(disk.fates), 6)
                && JustSealed(name, snap.value, old(segs), old(active)) && |cp.segments| == |old(segs)|
      ensures snap.None? ==> !store.wal.Live() || (segs == old(segs) && old(store.wal.Live()))
      ensures if old(store.wal.Live()) && Working(old(disk.fates), 4)
              then segs == old(segs) + [old(active)] && active == []
              else segs == old(segs) && active == old(active) && disk.hot == old(disk.hot)
      ensures old(Tidy(disk.hot, active)) ==> Tidy(disk.hot, active)
      ensures LeftoversStay(old(disk.hot), disk.hot, |old(segs)|)
      ensures Limbo(Now(disk), segs, k) <==> old(Limbo(Now(disk), segs, k))
      ensures old(Clean(Now(disk), segs, k)) ==> Clean(Now(disk), segs, k)
      ensures FatesFrom(old(disk.fates), disk.fates)
    {
      hide Layout, Consistent, DurableOk, Tracked, Limbo, Clean, Tracks, Monotone, LeavesOf, FileName, Pins;
      hide Working, Left, FatesFrom, AllWork, ReadRaw, FileOf, AllStorable, NextName, Linked, Tidy, Flatten;
      hide LeftoversStay;
      VerdictSteps(disk.fates);
      ghost var before, live, moved := Now(disk), store.wal.Live(), Working(disk.fates, 4);
      NextNameIs(|cp.segments|);
      if live {
        CompleteIsConsistent(cp, segs, k);
        SealedApart(before, active);
      }
      snap := store.SealActive(name);
      MoveLeaves(before.hot, disk.hot, |segs|);
      if live && moved { NoteMove(before); }
    }

    /** The active log is sealed, inventoried and recorded, as far as the script
        lets it. */
    method SealNow(boundary: nat, now: I64) returns (ghost s: Sealing, missed: bool)
      requires Valid() && |store.log| < MAX_LOG
      requires store.wal.Live() ==> active != [] && boundary == |Flatten(segs)|
      modifies this`cp, this`file, this`failureEmitted, this`evidence, this`segs, this`active
      modifies store.wal`closed, store.wal`stuck, disk`hot, disk`fates
      ensures Alive() && Books()
      ensures old(Tidy(disk.hot, active)) ==> Tidy(disk.hot, active)
      ensures LeftoversStay(old(disk.hot), disk.hot, |old(segs)|)
      ensures old(SealedBy(now)) ==> SealedBy(now)
      ensures (store.wal.Live() ==> |cp.segments| == |segs|) <==> !missed
      ensures missed <==> s == NotInventoried
      ensures s == Verdict(old(store.wal.Live()), old(disk.fates))
      ensures s == SealRefused ==> segs == old(segs) && active == old(active) && disk.hot == old(disk.hot)
      ensures s != SealRefused ==> segs == old(segs) + [old(active)] && active == []
      ensures s == SealedNow ==> file == if Working(old(disk.fates), 14) then Some(cp) else old(file)
      ensures s in {SealedNow, NotInventoried} ==> store.wal.Live()
      ensures old(Fresh()) ==> Fresh()
      ensures s != SealedNow ==> cp == old(cp) && file == old(file)
      ensures Limbo(Now(disk), segs, k) <==> old(Limbo(Now(disk), segs, k))
      ensures old(Clean(Now(disk), segs, k)) ==> Clean(Now(disk), segs, k)
      ensures FatesFrom(old(disk.fates), disk.fates)
      ensures var name := NextName(|old(cp.segments)|);
        && evidence == SealReport(old(evidence), s, Working(old(disk.fates), 15), name, old(failureEmitted))
        && failureEmitted == SealEpisodes(s, name, old(failureEmitted))
      ensures AllWork(old(disk.fates)) && old(store.wal.Live()) ==> s == SealedNow && Saved()
    {
      hide Layout, DurableOk, Tracked, Limbo, Clean, FileName, Pins, Flatten, Tidy, Sound, Log;
      hide Working, Left, FatesFrom, AllWork, NextName, JustSealed, LeftoversStay, SealedBy, Saved;
      VerdictSteps(disk.fates);
      ghost var was, sealed, script := segs, active, disk.fates;
      s := Verdict(store.wal.Live(), script);
      var name := NextName(|cp.segments|);
      var snap := MoveActive(name);
      if snap.None? {
        EmitSealFailure(name);
        missed := false;
        return;
      }
      var ok := RecordSeal(name, snap.value, boundary, now, was, sealed);
      FromTwice(script, Left(script, 6), disk.fates);
      missed := !ok;
    }

    /** Less than a seal interval has passed since the last seal. */
    ghost predicate SealedLately(now: I64)
      reads `cp
    {
      Int64(now - HighestSeal(cp.segments)) < Millis(policy.sealInterval)
    }

    /** A seal is due and there is something to seal. */
    ghost predicate SealDue(now: I64)
      reads `cp, store`log
    {
      !SealedLately(now) && |store.log| > Boundary(cp.segments)
    }

    /** What is past the boundary is the active log. */
    lemma UnsealedIsActive()
      requires Valid()
      ensures Alive() && Books() && store.Valid() && store.log == Log()
      ensures store.wal.Live() ==> |cp.segments| == |segs| && Boundary(cp.segments) == |Flatten(segs)|
      ensures store.wal.Live() && |store.log| > Boundary(cp.segments) ==> active != []
    {
      hide Layout, DurableOk, Tracked, Tracks, Monotone, LeavesOf, Linked;
      if store.wal.Live() {
        CompleteIsConsistent(cp, segs, k);
        CountsOf(cp, segs, k);
      }
    }

    /** By the clock: a live log is sealed exactly when there is something to seal
        and a whole interval has passed since the last seal. */
    lemma SealDueExactly(now: I64)
      requires Valid() && store.wal.Live()
      requires -TWO63 <= now - HighestSeal(cp.segments) < TWO63
      ensures SealDue(now)
          <==> active != [] && (now - HighestSeal(cp.segments) + 1) * MILLISECOND > policy.sealInterval
    {
      hide Layout, DurableOk, Tracked, Tracks, Monotone, LeavesOf, Linked, HighestSeal, Boundary, Flatten;
      hide Millis, Int64, Books, Tidy, Durable;
      UnsealedIsActive();
      WholeMillis(now - HighestSeal(cp.segments), policy.sealInterval);
    }

    /** maybeSeal. */
    method MaybeSeal(now: I64) returns (ghost s: Sealing, missed: bool)
      requires Valid() && |store.log| < MAX_LOG
      modifies this`cp, this`file, this`failureEmitted, this`evidence, this`segs, this`active
      modifies store.wal`closed, store.wal`stuck, disk`hot, disk`fates
      ensures Alive() && Books()
      ensures old(Tidy(disk.hot, active)) ==> Tidy(disk.hot, active)
      ensures LeftoversStay(old(disk.hot), disk.hot, |old(segs)|)
      ensures old(SealedBy(now)) ==> SealedBy(now)
      ensures (store.wal.Live() ==> |cp.segments| == |segs|) <==> !missed
      ensures missed <==> s == NotInventoried
      ensures s == if old(SealDue(now)) then Verdict(old(store.wal.Live()), old(disk.fates)) else NothingToSeal
      ensures s in {NothingToSeal, SealRefused}
          ==> segs == old(segs) && active == old(active) && disk.hot == old(disk.hot)
      ensures s !in {NothingToSeal, SealRefused} ==> segs == old(segs) + [old(active)] && active == []
      ensures s == SealedNow ==> file == if Working(old(disk.fates), 14) then Some(cp) else old(file)
      ensures s != SealedNow ==> cp == old(cp) && file == old(file)
      ensures Limbo(Now(disk), segs, k) <==> old(Limbo(Now(disk), segs, k))
      ensures old(Clean(Now(disk), segs, k)) ==> Clean(Now(disk), segs, k)
      ensures var name := NextName(|old(cp.segments)|);
        && evidence == SealReport(old(evidence), s, Working(old(disk.fates), 15), name, old(failureEmitted))
        && failureEmitted == SealEpisodes(s, name, old(failureEmitted))
      ensures FatesFrom(old(disk.fates), disk.fates)
      ensures AllWork(old(disk.fates)) ==> AllWork(disk.fates)
      ensures AllWork(old(disk.fates)) && old(store.wal.Live()) ==>
                && evidence == old(evidence) && store.wal.Live() && s != NotInventoried && (old(Saved()) ==> Saved())
                && (active != [] ==> SealedLately(now))
      ensures old(Fresh()) ==> Fresh()
    {
      hide Alive, Books, Durable, Tidy, Limbo, Clean, Working, Left, FatesFrom, AllWork, HighestSeal, Boundary;
      hide Verdict, Flatten, Valid, LeftoversStay, SealedBy, Saved, Fresh, SealReport, SealEpisodes, NextName;
      QuietSeal(evidence, NextName(|cp.segments|), failureEmitted);
      MoveLeaves(disk.hot, disk.hot, |segs|);
      var lastSeal, boundary := LastSealAndBoundary(cp.segments);
      UnsealedIsActive();
      VerdictSteps(disk.fates);
      AllFrom(disk.fates);
      s, missed := NothingToSeal, false;
      if Int64(now - lastSeal) < Millis(policy.sealInterval) { return; }
      var current := store.GlobalCount();
      if current <= boundary { return; }
      ghost var script := disk.fates;
      s, missed := SealNow(boundary, now);
      AllWorkFrom(script, disk.fates);
    }

    // ---------- a round, and the admissions between rounds ----------

    lemma RoundBegins()
      requires Valid()
      ensures Alive() && Books() && k <= |segs|
    {}

    lemma Halfway()
      requires Alive()
      ensures InStep() && (store.wal.Live() ==> Tidy(disk.hot, active))
    {}

    lemma RoundEnds()
      requires InStep() && (store.wal.Live() ==> Tidy(disk.hot, active))
      ensures Alive()
      ensures Valid() <==> Books() && (store.wal.Live() ==> |cp.segments| == |segs|)
    {}

    /** What a round without failures leaves. */
    lemma Settles(now: I64, r: Step)
      requires Alive() && Books() && |cp.segments| == |segs| && Dated(store.log, now) && 0 < now
      requires r in {Rotated, NotDue} && (r == Rotated ==> k == |cp.segments|)
      requires r == NotDue ==> k < |cp.segments| && !RotationDue(policy, now, cp.segments[k].firstIngest)
      requires active != [] ==> SealedLately(now)
      ensures Quiet(cp, segs, k, active, policy, now)
      ensures NewBreaches(cp.segments, policy, now, breachEmitted) == []
    {
      hide Layout, DurableOk, Tracks, Pins, Tracked, Consistent, Dated, Quiet, NewBreaches, Monotone, LeavesOf;
      CompleteIsConsistent(cp, segs, k);
      RoundSettles(cp, segs, k, active, policy, now, r, breachEmitted);
    }

    /** The sealing and rotating of a round.  at[j] is the script as it was when
        the j-th hot copy was to be removed. */
    method SealAndRotate(now: I64) returns (ghost s: Sealing, missed: bool, r: Step, ghost at: seq<seq<Fate>>)
      requires Valid() && 0 < now && |store.log| < MAX_LOG && HonestMedium(disk.fates, segs + [active])
      modifies this`cp, this`file, this`failureEmitted, this`breachEmitted, this`evidence
      modifies this`segs, this`active, this`k, this`durable, store.wal`closed, store.wal`stuck, disk
      ensures Alive() && old(k) <= k <= durable
      ensures old(Tidy(disk.hot, active)) ==> Tidy(disk.hot, active)
      ensures (Valid() <==> !missed && r != CheckpointFailed) && (Books() <==> r != CheckpointFailed)
      ensures old(segs) <= segs
      ensures missed <==> s == NotInventoried
      ensures s == if old(SealDue(now)) then Verdict(old(store.wal.Live()), old(disk.fates)) else NothingToSeal
      ensures old(Clean(Now(disk), segs, k)) ==> !Limbo(Now(disk), segs, durable)
      ensures Removals(old(Now(disk)), Now(disk), old(k), k, old(disk.fates), at, disk.fates)
      ensures NoneEarly(cp.segments, old(k), k, policy, now)
      ensures evidence == RoundReport(old(evidence), s, Working(old(disk.fates), 15), NextName(|old(cp.segments)|),
                                      old(disk.cold), old(k), at, r, old(failureEmitted))
      ensures breachEmitted == old(breachEmitted) - NamesFrom(old(k), k)
      ensures FatesFrom(old(disk.fates), disk.fates)
      ensures (old(Fresh()) ==> Fresh()) && (old(SealedBy(now)) ==> SealedBy(now))
      ensures AllWork(old(disk.fates)) && old(NoLeftovers(disk.hot, k)) ==> NoLeftovers(disk.hot, k)
      ensures Listed(cp, segs) && RotatedPrefix(cp.segments, k)
      ensures AllWork(old(disk.fates)) && old(store.wal.Live()) ==>
                && s != NotInventoried && r in {Rotated, NotDue} && evidence == old(evidence)
                && store.wal.Live() && |cp.segments| == |segs| && (active != [] ==> SealedLately(now))
                && (r == Rotated ==> k == |cp.segments|)
                && (r == NotDue ==> k < |cp.segments| && !RotationDue(policy, now, cp.segments[k].firstIngest))
                && (old(Clean(Now(disk), segs, k)) ==> Clean(Now(disk), segs, k)) && (old(Saved()) ==> Saved())
    {
      hide InStep, Books, Tidy, SealedLately, SealDue, Fresh, Limbo, Clean, Verdict, HonestMedium, FatesFrom;
      hide Quiet, NewBreaches, BreachedNames, Dated, Listed, RotationDue, AllWork, HighestSeal, Boundary;
      hide LeftoversStay, Removals, NoLeftovers, SealedBy, Saved, NoneEarly;
      hide Alive, Valid, Linked, SealReport, SealEpisodes, RotationReport, RotationEpisodes, NamesFrom, NextName;
      hide Working, RotatedPrefix, Flatten, Monotone, DurableOk;
      RoundBegins();
      s, missed := MaybeSeal(now);
      Halfway();
      ghost var between, mid := disk.fates, Now(disk);
      HonestStays(old(disk.fates), between, old(segs), old(active));
      r, at := RotateAll(now);
      RoundEnds();
      RoundRemovals(old(Now(disk)), mid, Now(disk), old(|segs|), old(k), k, old(disk.fates), between, at, disk.fates);
    }

    /** Tick: seal if due, rotate what is due, report breaches. */
    method Tick(now: I64) returns (ghost s: Sealing, missed: bool, r: Step, ghost at: seq<seq<Fate>>)
      requires Valid() && 0 < now && |store.log| < MAX_LOG && HonestMedium(disk.fates, segs + [active])
      modifies this`cp, this`file, this`failureEmitted, this`breachEmitted, this`evidence
      modifies this`segs, this`active, this`k, this`durable, store.wal`closed, store.wal`stuck, disk
      ensures Alive() && old(k) <= k <= durable
      ensures old(Tidy(disk.hot, active)) ==> Tidy(disk.hot, active)
      ensures (Valid() <==> !missed && r != CheckpointFailed) && (Books() <==> r != CheckpointFailed)
      ensures old(segs) <= segs
      ensures missed <==> s == NotInventoried
      ensures s == if old(SealDue(now)) then Verdict(old(store.wal.Live()), old(disk.fates)) else NothingToSeal
      ensures old(Clean(Now(disk), segs, k)) ==> !Limbo(Now(disk), segs, durable)
      ensures Removals(old(Now(disk)), Now(disk), old(k), k, old(disk.fates), at, disk.fates)
      ensures NoneEarly(cp.segments, old(k), k, policy, now)
      ensures evidence == RoundReport(old(evidence), s, Working(old(disk.fates), 15), NextName(|old(cp.segments)|),
                                      old(disk.cold), old(k), at, r, old(failureEmitted))
                          + NewBreaches(cp.segments, policy, now, old(breachEmitted))
      ensures breachEmitted == old(breachEmitted) - NamesFrom(old(k), k) + BreachedNames(cp.segments, policy, now)
      ensures FatesFrom(old(disk.fates), disk.fates)
      ensures (old(Fresh()) ==> Fresh()) && (old(SealedBy(now)) ==> SealedBy(now))
      ensures AllWork(old(disk.fates)) && old(NoLeftovers(disk.hot, k)) ==> NoLeftovers(disk.hot, k)
      ensures AllWork(old(disk.fates)) && old(store.wal.Live()) && Dated(store.log, now) ==>
                && s != NotInventoried && r in {Rotated, NotDue} && evidence == old(evidence)
                && store.wal.Live() && |cp.segments| == |segs| && Quiet(cp, segs, k, active, policy, now)
                && (old(Clean(Now(disk), segs, k)) ==> Clean(Now(disk), segs, k)) && (old(Saved()) ==> Saved())
    {
      hide Alive, Books, Tidy, SealDue, Fresh, Limbo, Clean, Verdict, HonestMedium, FatesFrom, Valid, Boundary;
      hide Quiet, NewBreaches, BreachedNames, Dated, Listed, AllWork, HighestSeal, Removals, NoLeftovers, NoneEarly;
      hide SealedBy, Saved, RoundReport, NamesFrom, NextName, Working, RotatedPrefix;
      ghost var quiet := AllWork(disk.fates) && store.wal.Live() && Dated(store.log, now);
      s, missed, r, at := SealAndRotate(now);
      if quiet { Settles(now, r); }
      RotatedSilent(cp, segs, old(k), k, policy, now, old(breachEmitted));
      EmitBreaches(now);
    }

    /** The record an admission would commit. */
    ghost function Next(source: Text, env: PublishEnvelope, now: I64): Record
      reads store`log, store`ingestFloor
    {
      NextRecord(store.log, source, env, Stamp(store.ingestFloor, now))
    }

    /** An admission, to the store the daemon shares with the manager; it needs
        no order in the books.  Refused by a sync that failed, the record is in
        the file and not in the store; by a flush that failed, the log is dead
        and part of the record may be in the file. */
    method Admit(source: Text, env: PublishEnvelope, now: I64) returns (res: AdmitResult)
      requires Alive()
      modifies store, store.acc, store.wal`stuck, disk`hot, disk`fates, this`active
      ensures res == Outcome(old(store.log), store.globalOffset, source, env, Stamp(old(store.ingestFloor), now),
                             old(store.wal.Accepts(RECORD_JSON.encode(Next(source, env, now)))))
      ensures active == old(active) +
                if res.Committed?
                || (res.NotDurable? && old(store.wal.Flushes(RECORD_JSON.encode(Next(source, env, now)))))
                then [old(Next(source, env, now))] else []
      ensures store.Valid() && store.log == LogAfter(old(store.log), res) && Bootable()
      ensures store.ingestFloor ==
                if res.Duplicate? || res.Regressed? then old(store.ingestFloor) else Stamp(old(store.ingestFloor), now)
      ensures active == LogAfter(old(active), res) <==>
                !(res.NotDurable? && store.wal.Live() && disk.hot != old(disk.hot))
      ensures active == LogAfter(old(active), res) ==>
                && Alive() && (Books() <==> old(Books()))
                && (Valid() <==> if store.wal.Live() then old(Valid()) else Books())
      ensures Limbo(Now(disk), segs, durable) <==> old(Limbo(Now(disk), segs, durable))
      ensures Elsewhere(old(Now(disk)), Now(disk), ACTIVE)
      ensures FatesFrom(old(disk.fates), disk.fates)
      ensures AllWork(old(disk.fates)) ==>
                (store.wal.Live() <==> old(store.wal.Live())) && active == LogAfter(old(active), res)
      ensures old(Fresh()) && SealedBy(now) ==> Fresh()
    {
      hide Layout, Tracked, DurableOk, Limbo, Tracks, HighestSeal, LeavesOf, Pins, FatesFrom, Monotone, Linked;
      hide Outcome, NextRecord, Working, StampedBy, Flushed, Tidy, Stamp, Flatten, AllWork, Elsewhere;
      ElsewhereNothing(Now(disk), ACTIVE);
      LeftIsFrom(disk.fates, 1);
      LeftIsFrom(disk.fates, 2);
      ghost var before, was, floor := Now(disk), store.log, store.ingestFloor;
      ghost var stamp := Stamp(floor, now);
      ghost var r := NextRecord(was, source, env, stamp);
      ghost var payload := RECORD_JSON.encode(r);
      ghost var live := store.wal.Live();
      FloorBounds(store);
      AdmittedIs(was, store.globalOffset, source, env, stamp, store.wal.Accepts(payload));
      FailsStay(disk.fates, 1, 2);
      assert active + [] == active;
      res := store.Admit(source, env, now);
      if res.Committed? || res.NotDurable? {
        active := AppendStays(before, Now(disk), segs, durable, active, was, floor, now, r, live, old(disk.fates));
      }
    }
  }
}
