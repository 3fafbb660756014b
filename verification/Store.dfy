// The chain writer and durable-commit coordinator (internal/store/store.go)
// and its two recoveries (recover.go, recover_anchored.go).

module Store {
  import opened Bytes
  import opened Crypto
  import opened Ocsf
  import opened Chain
  import opened Replay
  import opened Disk
  import opened Rfc6962
  import opened MerkleTree
  import MerkleNodes
  import Wal

  // ---------- the committed log, as one list ----------

  /** Merkle leaves: the chain hashes in commit order. */
  function LeavesOf(log: seq<Record>): (d: Leaves)
    ensures |d| == |log|
  {
    seq(|log|, i requires 0 <= i < |log| => log[i].chainHash)
  }

  function TipsOf(log: seq<Record>): Tips {
    Advance(map[], log)
  }

  predicate StampedBy(log: seq<Record>, floor: I64) {
    forall r :: r in log ==> r.ingestTime <= floor
  }

  /** IngestTime never decreases in commit order. */
  predicate Monotone(log: seq<Record>) {
    forall i, j :: 0 <= i < j < |log| ==> log[i].ingestTime <= log[j].ingestTime
  }

  // ---------- admission, as a function of the log ----------

  datatype AdmitResult = Committed(rec: Record) | Duplicate | Regressed | NotDurable

  /** stampIngest. */
  function Stamp(floor: I64, now: I64): I64 {
    if now < floor then floor else now
  }

  function Draft(source: Text, env: PublishEnvelope, stamp: I64): Record {
    Record(source, env.sequence, env.traceId, env.sessionId, env.actorId, env.resource, env.action,
           env.outcome, env.payload, stamp, [], [])
  }

  function PrevHash(tips: Tips, source: Text): Bytes {
    if source in tips && tips[source].hash != [] then tips[source].hash else GENESIS
  }

  /** The record an admission commits after log. */
  function NextRecord(log: seq<Record>, source: Text, env: PublishEnvelope, stamp: I64): Record {
    Author(Draft(source, env, stamp), PrevHash(TipsOf(log), source))
  }

  /** What Admit answers when the records from `offset` on are hot. */
  function Outcome(log: seq<Record>, offset: nat, source: Text, env: PublishEnvelope, stamp: I64,
        durable: bool): AdmitResult
    requires offset <= |log|
  {
    if (source, env.sequence) in Keys(log[offset..]) then Duplicate
    else if source in TipsOf(log) && env.sequence <= TipsOf(log)[source].sequence then Regressed
    else if !durable then NotDurable
    else Committed(NextRecord(log, source, env, stamp))
  }

  function LogAfter(log: seq<Record>, res: AdmitResult): seq<Record> {
    if res.Committed? then log + [res.rec] else log
  }

  // ---------- what every admission keeps ----------

  lemma {:induction false} AdmitLinks(log: seq<Record>, source: Text, env: PublishEnvelope, stamp: I64)
    requires Linked(map[], log)
    requires source in TipsOf(log) ==> env.sequence > TipsOf(log)[source].sequence
    ensures Linked(map[], log + [NextRecord(log, source, env, stamp)])
  {
    TipsBound(log);
    var r := NextRecord(log, source, env, stamp);
    assert Init(log + [r]) == log && Last(log + [r]) == r;
  }

  /** Two records authored after the same log: the second links behind the first
      if they are of different sources, and otherwise only if the first's hash
      is that of its own predecessor. */
  lemma {:induction false} SecondLinks(log: seq<Record>, s1: Text, env1: PublishEnvelope, stamp1: I64,
        s2: Text, env2: PublishEnvelope, stamp2: I64)
    requires Linked(map[], log)
    requires s1 in TipsOf(log) ==> env1.sequence > TipsOf(log)[s1].sequence
    requires s2 in TipsOf(log) ==> env2.sequence > TipsOf(log)[s2].sequence
    ensures var r1, r2 := NextRecord(log, s1, env1, stamp1), NextRecord(log, s2, env2, stamp2);
      Linked(map[], log + [r1, r2]) <==> s1 != s2 || (r1.chainHash == r1.prevHash && r1.sequence < r2.sequence)
  {
    hide Linked;
    AdmitLinks(log, s1, env1, stamp1);
    AdmitLinks(log, s2, env2, stamp2);
    OneAfterOther(map[], log, NextRecord(log, s1, env1, stamp1), NextRecord(log, s2, env2, stamp2));
  }

  lemma {:induction false} NextStamp(log: seq<Record>, source: Text, env: PublishEnvelope, stamp: I64)
    ensures NextRecord(log, source, env, stamp).ingestTime == stamp
  {}

  lemma {:induction false} AdmitStamps(log: seq<Record>, floor: I64, now: I64, r: Record)
    requires StampedBy(log, floor) && r.ingestTime == Stamp(floor, now)
    ensures StampedBy(log + [r], Stamp(floor, now)) && StampedBy(log, Stamp(floor, now))
    ensures Monotone(log) ==> Monotone(log + [r])
  {
    forall i | 0 <= i < |log| ensures log[i].ingestTime <= floor { assert log[i] in log; }
  }

  /** A record whose key is in the log is never committed again. */
  lemma {:induction false} KnownKeyRefused(log: seq<Record>, offset: nat, source: Text, env: PublishEnvelope,
        stamp: I64, durable: bool)
    requires Linked(map[], log) && offset <= |log|
    requires (source, env.sequence) in Keys(log)
    ensures Outcome(log, offset, source, env, stamp, durable)
        == (if (source, env.sequence) in Keys(log[offset..]) then Duplicate else Regressed)
  {
    TipsBound(log);
  }

  /** Every record of the source in the log came before this sequence. */
  ghost predicate Beyond(log: seq<Record>, source: Text, sequence: U64) {
    forall r :: r in log && r.source == source ==> r.sequence < sequence
  }

  lemma {:induction false} TipIsThere(log: seq<Record>, source: Text)
    requires source in TipsOf(log)
    ensures exists r :: r in log && r.source == source && TipOf(r) == TipsOf(log)[source]
  {
    if Last(log).source == source {
      assert Last(log) in log;
    } else {
      TipIsThere(Init(log), source);
      var r :| r in Init(log) && r.source == source && TipOf(r) == TipsOf(Init(log))[source];
      assert r in log;
    }
  }

  lemma {:induction false} BeyondTip(log: seq<Record>, source: Text, sequence: U64)
    requires Linked(map[], log)
    ensures Beyond(log, source, sequence) <==> source in TipsOf(log) ==> TipsOf(log)[source].sequence < sequence
  {
    TipsBound(log);
    if source in TipsOf(log) { TipIsThere(log, source); }
  }

  /** Who is admitted, from the log alone: a sequence past every one of its
      source, whatever it skips.  Of the others, those of a hot record are
      duplicates. */
  lemma {:induction false} AdmittedExactly(log: seq<Record>, offset: nat, source: Text, env: PublishEnvelope,
        stamp: I64, durable: bool)
    requires Linked(map[], log) && offset <= |log|
    ensures var res := Outcome(log, offset, source, env, stamp, durable);
      && (res.Committed? <==> Beyond(log, source, env.sequence) && durable)
      && (res.NotDurable? <==> Beyond(log, source, env.sequence) && !durable)
      && (res.Duplicate? <==> exists r :: r in log[offset..] && r.source == source && r.sequence == env.sequence)
  {
    BeyondTip(log, source, env.sequence);
    if Outcome(log, offset, source, env, stamp, durable).Duplicate? {
      var r :| r in log[offset..] && Key(r) == (source, env.sequence);
      assert r in log && r.source == source && r.sequence == env.sequence;
    }
    forall r | r in log[offset..] && r.source == source && r.sequence == env.sequence
      ensures (source, env.sequence) in Keys(log[offset..])
    {
      assert Key(r) == (source, env.sequence);
    }
  }

  /** And what is committed for it: what the source said, under the name the
      channel gave it, the stamp, and the hash of the source's last record. */
  lemma {:induction false} CommittedCarries(log: seq<Record>, source: Text, env: PublishEnvelope, stamp: I64)
    requires Linked(map[], log)
    ensures var r := NextRecord(log, source, env, stamp); var past := BySource(log, source);
      && r.source == source && r.sequence == env.sequence && r.ingestTime == stamp
      && r.traceId == env.traceId && r.sessionId == env.sessionId && r.actorId == env.actorId
      && r.resource == env.resource && r.action == env.action && r.outcome == env.outcome && r.payload == env.payload
      && r.prevHash == (if past == [] then GENESIS else Last(past).chainHash)
      && r.chainHash == SHA256(ChainInputOf(r))
  {
    TipsBound(log);
    AdvanceBySource(map[], log, source);
  }

  // ---------- a reboot is invisible to the callers ----------

  /** The one difference a rotated prefix may make: a replay of a record the
      store no longer holds hot is refused as regressed, not as duplicate. */
  predicate SameAnswer(a: AdmitResult, b: AdmitResult) {
    a == b || (a in {Duplicate, Regressed} && b in {Duplicate, Regressed})
  }

  lemma {:induction false} AnswersAgree(log: seq<Record>, o1: nat, o2: nat, source: Text, env: PublishEnvelope,
        stamp: I64, durable: bool)
    requires Linked(map[], log) && o1 <= o2 <= |log|
    ensures var a, b := Outcome(log, o1, source, env, stamp, durable), Outcome(log, o2, source, env, stamp, durable);
      && SameAnswer(a, b) && LogAfter(log, a) == LogAfter(log, b)
      && (a != b <==> (source, env.sequence) in Keys(log[o1..]) && (source, env.sequence) !in Keys(log[o2..]))
  {
    var key := (source, env.sequence);
    assert forall r :: r in log[o2..] ==> r in log[o1..] by {
      assert log[o2..] == log[o1..][o2 - o1..];
    }
    if key in Keys(log[o1..]) {
      assert key in Keys(log);
      KnownKeyRefused(log, o1, source, env, stamp, durable);
      KnownKeyRefused(log, o2, source, env, stamp, durable);
    }
  }

  /** One admission as the outside world drives it. */
  datatype Attempt = Attempt(source: Text, env: PublishEnvelope, stamp: I64, durable: bool)

  function Answer(log: seq<Record>, offset: nat, t: Attempt): AdmitResult
    requires offset <= |log|
  {
    Outcome(log, offset, t.source, t.env, t.stamp, t.durable)
  }

  function Run(log: seq<Record>, offset: nat, ts: seq<Attempt>): (seq<Record>, seq<AdmitResult>)
    requires offset <= |log|
    decreases |ts|
  {
    if ts == [] then (log, [])
    else
      var a := Answer(log, offset, ts[0]);
      var (end, rest) := Run(LogAfter(log, a), offset, ts[1..]);
      (end, [a] + rest)
  }

  lemma {:induction false} AnswerKeepsLinked(log: seq<Record>, offset: nat, t: Attempt)
    requires Linked(map[], log) && offset <= |log|
    ensures Linked(map[], LogAfter(log, Answer(log, offset, t)))
  {
    if Answer(log, offset, t).Committed? { AdmitLinks(log, t.source, t.env, t.stamp); }
  }

  lemma {:induction false} RunSteps(log: seq<Record>, offset: nat, ts: seq<Attempt>)
    requires offset <= |log| && ts != []
    ensures var a := Answer(log, offset, ts[0]);
      Run(log, offset, ts) == (Run(LogAfter(log, a), offset, ts[1..]).0, [a] + Run(LogAfter(log, a), offset, ts[1..]).1)
  {}

  /** Any later run of admissions commits the same records whether or not the
      store was rebooted in between: same log, answer for answer the same but
      for which refusal a cold-prefix replay gets. */
  lemma {:induction false} RunsAgree(log: seq<Record>, o1: nat, o2: nat, ts: seq<Attempt>)
    requires Linked(map[], log) && o1 <= o2 <= |log|
    ensures var (end1, as1) := Run(log, o1, ts); var (end2, as2) := Run(log, o2, ts);
      && end1 == end2 && |as1| == |as2| == |ts|
      && forall i :: 0 <= i < |ts| ==> SameAnswer(as1[i], as2[i])
    decreases |ts|
  {
    if ts != [] {
      hide Outcome, Linked;
      var t := ts[0];
      AnswersAgree(log, o1, o2, t.source, t.env, t.stamp, t.durable);
      AnswerKeepsLinked(log, o1, t);
      var next := LogAfter(log, Answer(log, o1, t));
      RunsAgree(next, o1, o2, ts[1..]);
      RunSteps(log, o1, ts);
      RunSteps(log, o2, ts);
    }
  }

  /** Over every run from a verified log: nothing committed is lost or changed,
      every source chain still verifies from genesis. */
  lemma {:induction false} RunKeepsLog(log: seq<Record>, offset: nat, ts: seq<Attempt>)
    requires Linked(map[], log) && offset <= |log|
    ensures log <= Run(log, offset, ts).0 && Linked(map[], Run(log, offset, ts).0)
    decreases |ts|
  {
    if ts != [] {
      AnswerKeepsLinked(log, offset, ts[0]);
      RunKeepsLog(LogAfter(log, Answer(log, offset, ts[0])), offset, ts[1..]);
    }
  }

  // ---------- the store ----------

  datatype SealSnapshot = SealSnapshot(count: nat, treeSize: nat, frontier: seq<Digest>, tips: Tips)

  datatype BootAnchor = BootAnchor(chainTips: Tips, treeSize: nat, frontier: seq<Digest>, rotated: set<Bytes>,
        ingestFloor: I64)

  /** The anchor is the state of a store that committed exactly `cold`. */
  ghost predicate Anchors(anchor: BootAnchor, cold: seq<Record>) {
    && anchor.chainTips == TipsOf(cold)
    && anchor.treeSize == |cold|
    && anchor.frontier == MerkleNodes.Frontier(LeavesOf(cold), |cold|)
    && StampedBy(cold, anchor.ingestFloor)
  }

  function HashMap(tips: Tips): map<Text, Text> {
    map s | s in tips :: tips[s].hash
  }

  function SeqMap(tips: Tips): map<Text, U64> {
    map s | s in tips :: tips[s].sequence
  }

  /** The store's maps, dedupe set and record list are those of a log whose
      records before `offset` are cold. */
  ghost predicate Tracks(hashes: map<Text, Text>, seqs: map<Text, U64>, seen: set<SourceSeq>, records: seq<Record>,
                         floor: I64, log: seq<Record>, offset: nat)
  {
    && Linked(map[], log) && StampedBy(log, floor)
    && offset <= |log| && records == log[offset..] && seen == Keys(records)
    && hashes == HashMap(TipsOf(log)) && seqs == SeqMap(TipsOf(log))
  }

  lemma {:induction false} OutcomeFromMaps(
        hashes: map<Text, Text>, seqs: map<Text, U64>, seen: set<SourceSeq>, records: seq<Record>,
        floor: I64, log: seq<Record>, offset: nat, source: Text, env: PublishEnvelope)
    requires Tracks(hashes, seqs, seen, records, floor, log, offset)
    ensures seen == Keys(log[offset..])
    ensures source in seqs <==> source in TipsOf(log)
    ensures source in seqs ==> seqs[source] == TipsOf(log)[source].sequence
    ensures PrevHash(TipsOf(log), source) ==
      if source in hashes && hashes[source] != [] then hashes[source] else GENESIS
  {}

  lemma {:induction false} TracksStamp(
        hashes: map<Text, Text>, seqs: map<Text, U64>, seen: set<SourceSeq>, records: seq<Record>,
        floor: I64, log: seq<Record>, offset: nat, now: I64)
    requires Tracks(hashes, seqs, seen, records, floor, log, offset)
    ensures Tracks(hashes, seqs, seen, records, Stamp(floor, now), log, offset)
  {}

  lemma {:induction false} LeavesStep(log: seq<Record>, rec: Record)
    ensures LeavesOf(log + [rec]) == LeavesOf(log) + [rec.chainHash]
  {}

  lemma {:induction false} AdvanceSeen(log: seq<Record>, offset: nat, rec: Record)
    requires offset <= |log|
    ensures (log + [rec])[offset..] == log[offset..] + [rec]
    ensures Keys(log[offset..] + [rec]) == Keys(log[offset..]) + {Key(rec)}
  {
    var hot := log[offset..];
    assert forall r :: r in hot + [rec] <==> r in hot || r == rec;
  }

  lemma {:induction false} StampedStep(log: seq<Record>, floor: I64, rec: Record)
    requires StampedBy(log, floor) && rec.ingestTime <= floor
    ensures StampedBy(log + [rec], floor)
  {}

  lemma {:induction false} TipsStep(log: seq<Record>, rec: Record)
    ensures TipsOf(log + [rec]) == TipsOf(log)[rec.source := TipOf(rec)]
    ensures HashMap(TipsOf(log + [rec])) == HashMap(TipsOf(log))[rec.source := rec.chainHash]
    ensures SeqMap(TipsOf(log + [rec])) == SeqMap(TipsOf(log))[rec.source := rec.sequence]
  {
    assert Init(log + [rec]) == log && Last(log + [rec]) == rec;
  }

  lemma {:induction false} TracksStep(
        hashes: map<Text, Text>, seqs: map<Text, U64>, seen: set<SourceSeq>, records: seq<Record>,
        floor: I64, log: seq<Record>, offset: nat, rec: Record)
    requires Tracks(hashes, seqs, seen, records, floor, log, offset)
    requires Linked(map[], log + [rec]) && rec.ingestTime <= floor
    ensures Tracks(hashes[rec.source := rec.chainHash], seqs[rec.source := rec.sequence], seen + {Key(rec)},
                   records + [rec], floor, log + [rec], offset)
  {
    AdvanceSeen(log, offset, rec);
    TipsStep(log, rec);
    StampedStep(log, floor, rec);
  }

  lemma {:induction false} TracksStart(cold: seq<Record>, floor: I64)
    requires Linked(map[], cold) && StampedBy(cold, floor)
    ensures Tracks(HashMap(TipsOf(cold)), SeqMap(TipsOf(cold)), {}, [], floor, cold, |cold|)
  {
    assert cold[|cold|..] == [];
  }

  class Store {
    const wal: WAL
    var perSourceLastHash: map<Text, Text>
    var perSourceLastSeq: map<Text, U64>
    var seen: set<SourceSeq>
    var records: seq<Record>
    const acc: Accumulator
    const globalOffset: nat
    var ingestFloor: I64
    /** Every record committed since genesis, hot or not. */
    ghost var log: seq<Record>

    ghost predicate Valid()
      reads this, acc, wal, wal.disk`hot
    {
      && wal.Valid() && acc.Valid()
      && acc.leaves == LeavesOf(log) && acc.base == globalOffset
      && Tracks(perSourceLastHash, perSourceLastSeq, seen, records, ingestFloor, log, globalOffset)
    }

    /** A store at a rotation boundary: everything in `cold` is committed and
        none of it is held.  With cold == [] this is New. */
    constructor AtBoundary(wal: WAL, acc: Accumulator, tips: Tips, offset: nat, floor: I64, ghost cold: seq<Record>)
      requires wal.Valid() && acc.Valid()
      requires acc.leaves == LeavesOf(cold) && acc.base == offset == |cold|
      requires Linked(map[], cold) && tips == TipsOf(cold) && StampedBy(cold, floor)
      ensures Valid() && log == cold && ingestFloor == floor
      ensures this.wal == wal && this.acc == acc && globalOffset == offset
    {
      TracksStart(cold, floor);
      this.wal, this.acc, globalOffset, ingestFloor, log := wal, acc, offset, floor, cold;
      perSourceLastHash, perSourceLastSeq := HashMap(tips), SeqMap(tips);
      seen, records := {}, [];
    }

    /** The in-memory half of a commit, shared by Admit and both recoveries. */
    method Commit(rec: Record)
      requires Valid() && Linked(map[], log + [rec])
      requires rec.ingestTime <= ingestFloor
      modifies this, acc
      ensures Valid() && log == old(log) + [rec] && ingestFloor == old(ingestFloor)
    {
      hide Tracks, Linked, LeavesOf;
      TracksStep(perSourceLastHash, perSourceLastSeq, seen, records, ingestFloor, log, globalOffset, rec);
      LeavesStep(log, rec);
      acc.AppendLeaf(rec.chainHash);
      perSourceLastHash := perSourceLastHash[rec.source := rec.chainHash];
      perSourceLastSeq := perSourceLastSeq[rec.source := rec.sequence];
      seen := seen + {Key(rec)};
      records := records + [rec];
      log := log + [rec];
    }

    method RaiseFloor(floor: I64)
      requires Valid() && floor >= ingestFloor
      modifies this`ingestFloor
      ensures Valid() && ingestFloor == floor
    {
      TracksStamp(perSourceLastHash, perSourceLastSeq, seen, records, ingestFloor, log, globalOffset, floor);
      ingestFloor := floor;
    }

    /** One recovered record: the ingest floor rises to it, and it is
        committed in memory. */
    method Restore(rec: Record)
      requires Valid() && Linked(map[], log + [rec])
      modifies this, acc
      ensures Valid() && log == old(log) + [rec]
      ensures ingestFloor == if rec.ingestTime > old(ingestFloor) then rec.ingestTime else old(ingestFloor)
    {
      if rec.ingestTime > ingestFloor { RaiseFloor(rec.ingestTime); }
      Commit(rec);
    }

    /** Admit: exactly the answer the committed log determines.  Refused as not
        durable, the record may be in the file all the same, or part of it. */
    method Admit(source: Text, env: PublishEnvelope, now: I64) returns (res: AdmitResult)
      requires Valid()
      modifies this, acc, wal`stuck, wal.disk`hot, wal.disk`fates
      ensures Valid()
      ensures var stamp := Stamp(old(ingestFloor), now);
        && res == Outcome(old(log), globalOffset, source, env, stamp,
                          old(wal.Accepts(RECORD_JSON.encode(NextRecord(log, source, env, stamp)))))
        && ingestFloor == if res.Duplicate? || res.Regressed? then old(ingestFloor) else stamp
      ensures log == LogAfter(old(log), res)
      ensures res.Duplicate? || res.Regressed? ==>
                wal.disk.hot == old(wal.disk.hot) && (wal.Live() <==> old(wal.Live()))
      ensures res.Committed? || res.NotDurable? ==>
                var payload := RECORD_JSON.encode(NextRecord(old(log), source, env, Stamp(old(ingestFloor), now)));
                && wal.disk.hot == old(wal.Appended(payload))
                && (wal.Live() <==> old(wal.Live()) && (|payload| > Wal.MAX_RECORD || old(wal.Flushes(payload))))
      ensures FatesFrom(old(wal.disk.fates), wal.disk.fates)
    {
      hide Tracks, Linked, LeavesOf, Author, Draft, FatesFrom, Working, Flushed;
      AllFrom(wal.disk.fates);
      OutcomeFromMaps(perSourceLastHash, perSourceLastSeq, seen, records, ingestFloor, log, globalOffset, source, env);
      if (source, env.sequence) in seen { return Duplicate; }
      if source in perSourceLastSeq && env.sequence <= perSourceLastSeq[source] { return Regressed; }
      var prev :=
        if source in perSourceLastHash && perSourceLastHash[source] != [] then perSourceLastHash[source] else GENESIS;
      var stamp := Stamp(ingestFloor, now);
      var rec := Author(Draft(source, env, stamp), prev);
      TracksStamp(perSourceLastHash, perSourceLastSeq, seen, records, ingestFloor, log, globalOffset, now);
      AdmitLinks(log, source, env, stamp);
      NextStamp(log, source, env, stamp);
      ingestFloor := stamp;
      var ok := wal.Append(RECORD_JSON.encode(rec));
      if !ok { return NotDurable; }
      Commit(rec);
      return Committed(rec);
    }

    /** SealActive: the sealed file holds what the active one did, and the
        snapshot is the exact state a rotation of it will promote.  Without a
        snapshot the file may still have moved, and then the log is dead. */
    method SealActive(sealedName: Bytes) returns (snap: Option<SealSnapshot>)
      requires Valid() && sealedName != ACTIVE
      modifies wal`closed, wal`stuck, wal.disk`hot, wal.disk`fates
      ensures Valid()
      ensures snap.Some? <==> old(wal.Live()) && Working(old(wal.disk.fates), 6)
      ensures snap.Some? ==>
                && snap.value == SealSnapshot(|log|, |log|, MerkleNodes.Frontier(LeavesOf(log), |log|), TipsOf(log))
                && wal.Live() && ACTIVE in old(wal.disk.hot)
                && wal.disk.hot == Moved(old(wal.disk.hot), sealedName)[ACTIVE := []]
                && wal.disk.fates == Left(old(wal.disk.fates), 6)
      ensures snap.None? && old(wal.Live()) && Working(old(wal.disk.fates), 4) ==>
                && !wal.Live() && ACTIVE in old(wal.disk.hot)
                && wal.disk.hot == Moved(old(wal.disk.hot), sealedName)
      ensures !(old(wal.Live()) && Working(old(wal.disk.fates), 4)) ==> wal.disk.hot == old(wal.disk.hot)
      ensures wal.Live() ==> old(wal.Live())
      ensures FatesFrom(old(wal.disk.fates), wal.disk.fates)
    {
      hide Linked, Working, Left, FatesFrom;
      var ok := wal.SealTo(sealedName);
      if !ok { return None; }
      var size, frontier := acc.Frontier();
      var tips := map s | s in perSourceLastHash && s in perSourceLastSeq ::
        ChainTip(perSourceLastHash[s], perSourceLastSeq[s]);
      assert tips == TipsOf(log);
      return Some(SealSnapshot(globalOffset + |records|, size, frontier, tips));
    }

    /** Close: later admissions are refused, nothing committed changes. */
    method Close()
      requires Valid()
      modifies wal`closed
      ensures Valid() && !wal.Live()
    {
      wal.Close();
    }

    /** RecordsFrom: the hot records at global indexes from `from` on. */
    method RecordsFrom(from: nat) returns (rs: seq<Record>)
      requires Valid()
      ensures var start := if from < globalOffset then globalOffset else from;
        rs == if start <= |log| then log[start..] else []
    {
      var start := if from < globalOffset then globalOffset else from;
      var local := start - globalOffset;
      if local >= |records| { return []; }
      return records[local..];
    }

    method GlobalCount() returns (n: nat)
      requires Valid()
      ensures n == |log|
    {
      return globalOffset + |records|;
    }

    /** LastSequence: 0 for a source that never committed. */
    method LastSequence(source: Text) returns (q: U64)
      requires Valid()
      ensures q == if source in TipsOf(log) then TipsOf(log)[source].sequence else 0
    {
      return if source in perSourceLastSeq then perSourceLastSeq[source] else 0;
    }

    method Head() returns (root: Digest, size: nat)
      requires Valid()
      modifies acc
      ensures Valid() && root == MTH(LeavesOf(log)) && size == |log|
    {
      root := acc.Head();
      size := acc.size;
    }

    /** InclusionProof: refused for a cold index and past the end; otherwise a
        proof that verifies against the current head. */
    method InclusionProof(index: nat) returns (r: Option<(seq<Digest>, Bytes)>)
      requires Valid()
      modifies acc
      ensures Valid()
      ensures r.Some? <==> globalOffset <= index < |log|
      ensures r.Some? ==>
                && r.value.1 == log[index].chainHash
                && VerifyInclusion(index, |log|, r.value.1, MTH(LeavesOf(log)), r.value.0)
    {
      hide MTH, VerifyInclusion, Linked, StampedBy, HashMap, SeqMap, Keys;
      if index < globalOffset { return None; }
      var local := index - globalOffset;
      if local >= |records| { return None; }
      var proof := acc.InclusionProof(index);
      InclusionComplete(LeavesOf(log), index);
      return Some((proof.value, records[local].chainHash));
    }
  }

  // ---------- recovery ----------

  function HighestStamp(floor: I64, rs: seq<Record>): I64 {
    if rs == [] then floor
    else
      var before := HighestStamp(floor, Init(rs));
      if Last(rs).ingestTime > before then Last(rs).ingestTime else before
  }

  lemma {:induction false} LinkedUpTo(a: seq<Record>, rs: seq<Record>, k: nat)
    requires k <= |rs| && Linked(map[], a + rs)
    ensures Linked(map[], a + rs[..k])
  {
    LinkedSplits(map[], a + rs[..k], rs[k..]);
    assert a + rs == a + rs[..k] + rs[k..];
  }

  lemma {:induction false} ReloadStep(a: seq<Record>, floor: I64, rs: seq<Record>, i: nat)
    requires i < |rs| && Linked(map[], a + rs)
    ensures Linked(map[], a + rs[..i] + [rs[i]]) && a + rs[..i + 1] == a + rs[..i] + [rs[i]]
    ensures var f := HighestStamp(floor, rs[..i]);
      HighestStamp(floor, rs[..i + 1]) == if rs[i].ingestTime > f then rs[i].ingestTime else f
  {
    LinkedUpTo(a, rs, i + 1);
    assert rs[..i + 1] == rs[..i] + [rs[i]];
    ConcatAssociates(a, rs[..i], [rs[i]]);
    assert Init(rs[..i + 1]) == rs[..i];
  }

  /** The loop both recoveries end with. */
  method Reload(s: Store, rs: seq<Record>)
    requires s.Valid() && Linked(map[], s.log + rs)
    modifies s, s.acc
    ensures s.Valid() && s.log == old(s.log) + rs
    ensures s.ingestFloor == HighestStamp(old(s.ingestFloor), rs)
  {
    for i := 0 to |rs|
      invariant s.Valid() && s.log == old(s.log) + rs[..i]
      invariant s.ingestFloor == HighestStamp(old(s.ingestFloor), rs[..i])
    {
      ReloadStep(old(s.log), old(s.ingestFloor), rs, i);
      s.Restore(rs[i]);
    }
    assert rs[..|rs|] == rs;
  }

  ghost predicate Booted(s: Store, disk: Disk)
    reads s, s.acc, s.wal, s.wal.disk
  {
    s.Valid() && s.wal.disk == disk && s.wal.Live()
  }

  /** Recover: rebuilt from the whole hot log, verified from genesis. */
  method Recover(disk: Disk) returns (r: Option<Store>)
    modifies disk`hot
    ensures var read := HotUnion(old(disk.hot), {});
      && (r.Some? <==> read.NoLog? || (read.Records? && Linked(map[], read.rs)))
      && (r.Some? ==>
            && Booted(r.value, disk) && fresh(r.value) && fresh(r.value.acc) && fresh(r.value.wal)
            && r.value.globalOffset == 0 && r.value.log == (if read.NoLog? then [] else read.rs)
            && r.value.ingestFloor == HighestStamp(0, r.value.log))
    ensures disk.hot == if r.Some? && ACTIVE !in old(disk.hot) then old(disk.hot)[ACTIVE := []] else old(disk.hot)
  {
    var read := ReadHotExcluding(disk.hot, {});
    if read.Unreadable? { return None; }
    var rs := if read.NoLog? then [] else read.rs;
    var verified := VerifyChainsFromRaw(rs);
    if verified.None? { return None; }
    var w := new WAL(disk);
    var acc := new Accumulator();
    var s := new Store.AtBoundary(w, acc, map[], 0, 0, []);
    assert [] + rs == rs;
    Reload(s, rs);
    return Some(s);
  }

  /** RecoverAnchored: rebuilt from the hot files less the rotated ones, on top
      of an authenticated anchor; the cold tier is never read.  The result is
      the store that committed the cold prefix and those records and never
      restarted. */
  method RecoverAnchored(disk: Disk, anchor: BootAnchor, ghost cold: seq<Record>) returns (r: Option<Store>)
    requires |anchor.frontier| == MerkleNodes.Ones(anchor.treeSize) ==> Anchors(anchor, cold) && Linked(map[], cold)
    modifies disk`hot
    ensures var read := HotUnion(old(disk.hot), anchor.rotated);
      && (r.Some? <==>
            read.Records? && Linked(anchor.chainTips, read.rs)
            && |anchor.frontier| == MerkleNodes.Ones(anchor.treeSize))
      && (r.Some? ==>
            && Booted(r.value, disk) && fresh(r.value) && fresh(r.value.acc) && fresh(r.value.wal)
            && r.value.globalOffset == |cold| && r.value.log == cold + read.rs
            && r.value.ingestFloor == HighestStamp(anchor.ingestFloor, read.rs))
    ensures disk.hot == if r.Some? && ACTIVE !in old(disk.hot) then old(disk.hot)[ACTIVE := []] else old(disk.hot)
  {
    var read := ReadHotExcluding(disk.hot, anchor.rotated);
    if !read.Records? { return None; }
    var ok := VerifyChainsAnchored(read.rs, anchor.chainTips);
    if !ok { return None; }
    var acc := NewFromFrontier(anchor.treeSize, anchor.frontier, LeavesOf(cold));
    if acc.None? { return None; }
    var w := new WAL(disk);
    var s := new Store.AtBoundary(w, acc.value, anchor.chainTips, anchor.treeSize, anchor.ingestFloor, cold);
    LinkedSplits(map[], cold, read.rs);
    Reload(s, read.rs);
    return Some(s);
  }
}
