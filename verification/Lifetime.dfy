// The daemon over its whole life: any sequence of admissions, retention rounds
// and restarts, over any faults.

module Lifetime {
  import opened Bytes
  import opened Crypto
  import opened Ocsf
  import opened Chain
  import opened Segments
  import opened Replay
  import opened Disk
  import opened Store
  import opened Rotation
  import opened RetentionPolicy
  import opened Checkpoint
  import opened Retention
  import opened Inventory
  import opened Ledger
  import opened Residence
  import opened Manager
  import opened Boot

  datatype Event = Admission(source: Text, env: PublishEnvelope, now: I64) | Round(now: I64) | Restarts

  // ---------- the medium ----------

  lemma {:induction false} HeldSomewhere(t: Tiers, segs: SegmentList, k: nat, active: seq<Record>, i: nat)
    requires Layout(t, segs, k, active) && i < |segs|
    ensures AllStorable(segs[i]) && FileOf(segs[i]) in t.hot.Values + t.cold.Values
  {
    SlotOf(t, segs, k, active, i);
    if FileName(i) in t.hot {
      assert Holds(t.hot, segs, i) && t.hot[FileName(i)] in t.hot.Values;
    } else {
      assert Holds(t.cold, segs, i) && t.cold[FileName(i)] in t.cold.Values;
    }
  }

  lemma {:induction false} NoneCollides(fates: seq<Fate>, files: set<Bytes>, segs: SegmentList)
    requires forall f, c :: f in fates && f.Garbled? && c in files ==> !Collision((f.content, c))
    requires forall i :: 0 <= i < |segs| ==> AllStorable(segs[i]) && FileOf(segs[i]) in files
    ensures HonestMedium(fates, segs)
  {}

  /** The records of the active file, as a reader gets them. */
  method ActiveRecords(m: Manager) returns (rs: seq<Record>)
    requires m.Bootable()
    ensures rs == m.active
  {
    if ACTIVE !in m.disk.hot { return []; }
    LogFileReads(m.disk.hot[ACTIVE], m.active);
    var read := ReadRaw(m.disk.hot[ACTIVE]);
    return read.value;
  }

  /** A write the medium garbles into another file with the digest of a log
      file, if there is one: the two are then in hand. */
  method FindCollision(m: Manager) returns (p: Option<InputPair>)
    requires m.Bootable()
    ensures p.Some? ==> Collision(p.value)
    ensures p.None? ==> HonestMedium(m.disk.fates, m.segs + [m.active])
  {
    var active := ActiveRecords(m);
    var files := m.disk.hot.Values + m.disk.cold.Values + {FileOf(active)};
    var fates := m.disk.fates;
    if f, c :| f in fates && f.Garbled? && c in files && Collision((f.content, c)) {
      return Some((f.content, c));
    }
    ghost var segs := m.segs + [m.active];
    forall i | 0 <= i < |segs| ensures AllStorable(segs[i]) && FileOf(segs[i]) in files {
      if i < |m.segs| { HeldSomewhere(Now(m.disk), m.segs, m.durable, m.active, i); }
    }
    NoneCollides(fates, files, segs);
    return None;
  }

  // ---------- the store that never restarted ----------

  lemma {:induction false} RunExtends(log: seq<Record>, offset: nat, ts: seq<Attempt>, t: Attempt)
    requires offset <= |log| && offset <= |Run(log, offset, ts).0|
    ensures var (end, answers) := Run(log, offset, ts); var a := Answer(end, offset, t);
      Run(log, offset, ts + [t]) == (LogAfter(end, a), answers + [a])
    decreases |ts|
  {
    if ts == [] {
      var a := Answer(log, offset, t);
      assert [] + [t] == [t] && [t][1..] == [] && [] + [a] == [a] + [];
      RunSteps(log, offset, [t]);
    } else {
      var a := Answer(log, offset, ts[0]);
      RunSteps(log, offset, ts);
      RunSteps(log, offset, ts + [t]);
      assert (ts + [t])[1..] == ts[1..] + [t];
      var rest := Run(LogAfter(log, a), offset, ts[1..]);
      ConcatAssociates([a], rest.1, [Answer(rest.0, offset, t)]);
      RunExtends(LogAfter(log, a), offset, ts[1..], t);
    }
  }

  /** The attempts are the admissions among the events, in order, stamped no
      earlier than they came and with whatever luck they had. */
  predicate Admitted(events: seq<Event>, ts: seq<Attempt>) {
    if events == [] then ts == []
    else if Last(events).Admission? then
      && ts != [] && Last(ts).source == Last(events).source && Last(ts).env == Last(events).env
      && Last(ts).stamp >= Last(events).now
      && Admitted(Init(events), Init(ts))
    else Admitted(Init(events), ts)
  }

  /** An answer, against the one of a store that never fails after a record is
      in its file: a source refused for durability may be committed. */
  predicate Told(answer: AdmitResult, ideal: AdmitResult) {
    SameAnswer(answer, ideal) || (answer.NotDurable? && ideal.Committed?)
  }

  /** What callers saw, against a store that keeps every record hot: the same
      answers, but for which refusal a replay of a rotated record gets, and for
      refusals in doubt. */
  ghost predicate Seen(log: seq<Record>, log0: seq<Record>, ts: seq<Attempt>, answers: seq<AdmitResult>) {
    var (end, ideal) := Run(log0, 0, ts);
    log == end && |answers| == |ideal| && forall i :: 0 <= i < |ideal| ==> Told(answers[i], ideal[i])
  }

  lemma {:induction false} SeenOneMore(log: seq<Record>, log0: seq<Record>, ts: seq<Attempt>, answers: seq<AdmitResult>,
                                       offset: nat, t: Attempt, answer: AdmitResult)
    requires Seen(log, log0, ts, answers) && Linked(map[], log) && offset <= |log|
    requires Told(answer, Answer(log, offset, t))
    ensures Seen(LogAfter(log, Answer(log, offset, t)), log0, ts + [t], answers + [answer])
  {
    RunExtends(log0, 0, ts, t);
    AnswersAgree(log, 0, offset, t.source, t.env, t.stamp, t.durable);
  }

  /** A record in the file counts, whatever its source was told. */
  lemma {:induction false} InFile(log: seq<Record>, offset: nat, source: Text, env: PublishEnvelope, stamp: I64,
        accepts: bool, whole: bool)
    requires offset <= |log| && (accepts ==> whole)
    ensures var res := Outcome(log, offset, source, env, stamp, accepts);
      var ideal := Answer(log, offset, Attempt(source, env, stamp, whole));
      && Told(res, ideal)
      && LogAfter(log, ideal) == log +
        if res.Committed? || (res.NotDurable? && whole) then [NextRecord(log, source, env, stamp)] else []
  {
    assert log + [] == log;
  }

  // ---------- the run ----------

  function Rotations(es: seq<SegmentEntry>): nat {
    if es == [] then 0 else Rotations(Init(es)) + if Last(es).rotatedAt != 0 then 1 else 0
  }

  /** How many segments a checkpoint counts as rotated. */
  function RotatedCount(file: Option<Checkpoint>): nat {
    if file.None? then 0 else Rotations(file.value.segments)
  }

  lemma {:induction false} RotationsIs(es: seq<SegmentEntry>, k: nat)
    requires RotatedPrefix(es, k)
    ensures Rotations(es) == k
    decreases |es|
  {
    if es != [] { RotationsIs(Init(es), if k == |es| then k - 1 else k); }
  }

  lemma {:induction false} RotatedCountIs(file: Option<Checkpoint>, configured: Policy, segs: SegmentList, k: nat)
    requires DurableOk(file, configured, segs, k)
    ensures RotatedCount(file) == k
  {
    if file.Some? { RotationsIs(file.value.segments, k); }
  }

  /** Limbo, as the files show it: the segment after the rotated ones is in the
      cold tier only. */
  predicate ColdOnly(t: Tiers, k: nat) {
    FileName(k) in t.cold && FileName(k) !in t.hot
  }

  lemma {:induction false} LimboShows(t: Tiers, segs: SegmentList, k: nat, active: seq<Record>)
    requires Layout(t, segs, k, active)
    ensures Limbo(t, segs, k) <==> ColdOnly(t, k)
  {
    if k < |segs| { SlotOf(t, segs, k, active, k); } else { NewestIsNowhere(t, k); }
  }

  lemma {:induction false} Begins(m: Manager)
    requires m.Valid()
    ensures m.Alive() && m.Bootable() && m.Books() && m.store.log == m.Log() && Seen(m.Log(), m.Log(), [], [])
  {}

  lemma {:induction false} NoneAdmitted(events: seq<Event>)
    ensures Admitted(events[..0], [])
  {}

  lemma {:induction false} AdmittedStep(events: seq<Event>, n: nat, ts: seq<Attempt>)
    requires n < |events| && Admitted(events[..n], ts)
    ensures !events[n].Admission? ==> Admitted(events[..n + 1], ts)
  {
    assert Init(events[..n + 1]) == events[..n] && Last(events[..n + 1]) == events[n];
  }

  lemma {:induction false} AdmittedMore(events: seq<Event>, n: nat, ts: seq<Attempt>, t: Attempt)
    requires n < |events| && Admitted(events[..n], ts)
    requires events[n].Admission? && t.source == events[n].source && t.env == events[n].env
    requires t.stamp >= events[n].now
    ensures Admitted(events[..n + 1], ts + [t])
  {
    assert Init(events[..n + 1]) == events[..n] && Last(events[..n + 1]) == events[n];
    assert Init(ts + [t]) == ts && Last(ts + [t]) == t;
  }

  lemma {:induction false} LeftoversThrough(hot: Dir, t: Tiers, t': Tiers, k: nat)
    requires LeftoversStay(hot, t.hot, k) && Elsewhere(t, t', ACTIVE)
    ensures LeftoversStay(hot, t'.hot, k)
  {
    forall j: nat | j < k ensures SameFile(hot, t'.hot, FileName(j)) {
      FileNameIsNotActive(j);
      assert SameFile(hot, t.hot, FileName(j)) && SameFile(t.hot, t'.hot, FileName(j));
    }
  }

  lemma {:induction false} OpensElsewhere(hot: Dir, t: Tiers, t': Tiers, k: nat)
    requires LeftoversStay(hot, t.hot, k) && t'.cold == t.cold && (t'.hot == t.hot || t'.hot == t.hot[ACTIVE := []])
    ensures LeftoversStay(hot, t'.hot, k)
  {
    LeftoversThrough(hot, t, t', k);
  }

  lemma {:induction false} LeftoversOn(hot: Dir, hot': Dir, hot'': Dir, k: nat, n: nat)
    requires LeftoversStay(hot, hot', k) && LeftoversStay(hot', hot'', n) && k <= n
    ensures LeftoversStay(hot, hot'', k)
  {
    LeftoversTwice(hot, hot', hot'', k, k);
  }

  /** One admission of a run: unless its record is in the file and not in the
      store, the daemon can go on. */
  method AdmitOne(m: Manager, e: Event, ghost log0: seq<Record>, ghost ts: seq<Attempt>,
        ghost answers: seq<AdmitResult>, ghost hot0: Dir, ghost k0: nat)
    returns (res: AdmitResult, steady: bool, ghost t: Attempt)
    requires m.Alive() && e.Admission? && Seen(m.Log(), log0, ts, answers) && LeftoversStay(hot0, m.disk.hot, k0)
    modifies m.store, m.store.acc, m.store.wal`stuck, m.disk`hot, m.disk`fates, m`active
    ensures m.Bootable() && (steady <==> m.Alive())
    ensures t.source == e.source && t.env == e.env && t.stamp >= e.now
    ensures LeftoversStay(hot0, m.disk.hot, k0)
    ensures steady ==> (m.Books() <==> old(m.Books()))
    ensures steady ==> (m.Valid() <==> if m.store.wal.Live() then old(m.Valid()) else m.Books())
    ensures Seen(m.Log(), log0, ts + [t], answers + [res])
    ensures |m.Log()| <= old(|m.Log()|) + 1
    ensures FatesFrom(old(m.disk.fates), m.disk.fates)
  {
    hide m.Books, m.Valid, m.Durable, Seen, Linked, Limbo, FatesFrom, NextRecord, HighestSeal, Tidy, Monotone;
    hide Flatten, Working, Elsewhere, LeftoversStay;
    FloorBounds(m.store);
    ghost var log, offset, stamp := m.store.log, m.store.globalOffset, Stamp(m.store.ingestFloor, e.now);
    ghost var payload := RECORD_JSON.encode(m.Next(e.source, e.env, e.now));
    ghost var accepts, whole := m.store.wal.Accepts(payload), m.store.wal.Flushes(payload);
    FailsStay(m.disk.fates, 1, 2);
    t := Attempt(e.source, e.env, stamp, whole);
    InFile(log, offset, e.source, e.env, stamp, accepts, whole);
    SeenOneMore(log, log0, ts, answers, offset, t, Outcome(log, offset, e.source, e.env, stamp, accepts));
    var before := m.disk.hot;
    ghost var segs, active := m.segs, m.active;
    res := m.Admit(e.source, e.env, e.now);
    ConcatAssociates(Flatten(segs), active, m.active[|active|..]);
    LeftoversThrough(hot0, old(Now(m.disk)), Now(m.disk), k0);
    steady := !(res.NotDurable? && m.store.wal.Live() && m.disk.hot != before);
  }

  lemma {:induction false} ValidIsAlive(m: Manager)
    ensures m.Valid() ==> m.Alive() && m.Books() && m.durable == m.k
  {}

  /** One round of a run, unless its script holds a collision. */
  method RoundOne(m: Manager, now: I64, ghost hot0: Dir, ghost k0: nat)
    returns (found: Option<InputPair>, books: bool, inOrder: bool)
    requires m.Valid() && 0 < now && |m.Log()| < MAX_LOG
    requires k0 <= m.durable && LeftoversStay(hot0, m.disk.hot, k0)
    modifies m, m.store.wal, m.disk
    ensures found.Some? ==> Collision(found.value)
    ensures found.None? ==> m.Alive() && (inOrder <==> m.Valid()) && (books <==> m.Books())
    ensures m.Bootable() && m.Log() == old(m.Log())
    ensures k0 <= m.durable && LeftoversStay(hot0, m.disk.hot, k0)
  {
    hide m.Valid, m.Durable, m.SealDue, m.Fresh, m.SealedBy, FatesFrom, HonestMedium, Limbo, Clean, Verdict, Tidy;
    hide Tracked, LeftoversStay, RemovedAsCalled, InTurn, NoLeftovers, Quiet, Collision;
    ValidIsAlive(m);
    StepIsBootable(m);
    found := FindCollision(m);
    if found.Some? { return found, false, false; }
    ghost var sealing, removals;
    var missed, step;
    sealing, missed, step, removals := m.Tick(now);
    LeftoversOn(hot0, old(m.disk.hot), m.disk.hot, k0, old(m.durable));
    StepIsBootable(m);
    books := step != CheckpointFailed;
    inOrder := !missed && books;
  }

  /** Whether the active file ends on a whole frame, as a reader can tell. */
  method LooksTidy(m: Manager) returns (tidy: bool)
    requires m.Bootable()
    ensures tidy <==> Tidy(m.disk.hot, m.active)
  {
    var rs := ActiveRecords(m);
    return ACTIVE in m.disk.hot ==> m.disk.hot[ACTIVE] == FileOf(rs);
  }

  lemma {:induction false} DiskSays(m: Manager)
    requires m.Bootable()
    ensures Limbo(Now(m.disk), m.segs, m.durable) <==> ColdOnly(Now(m.disk), RotatedCount(m.file))
  {
    RotatedCountIs(m.file, m.policy, m.segs, m.durable);
    LimboShows(Now(m.disk), m.segs, m.durable, m.active);
  }

  /** The next seal's name is free exactly when no seal is missing. */
  lemma {:induction false} NameShowsOrder(m: Manager)
    requires m.InStep() && m.durable == m.k && m.cp == Starting(m.file, m.policy)
    ensures |m.cp.segments| == |m.segs|
        <==> NextName(|m.cp.segments|) !in m.disk.hot && NextName(|m.cp.segments|) !in m.disk.cold
  {
    LoadedSays(m.file, m.policy, m.segs, m.durable);
    TrackedCounts(m.cp, m.segs, m.k);
    NextNameFree(Now(m.disk), m.segs, m.k, m.active, |m.cp.segments|);
  }

  /** A restart of a run, unless it would begin in limbo. */
  method RestartOne(m: Manager, key: Bytes, ghost hot0: Dir, ghost k0: nat)
    returns (r: Option<Manager>, steady: bool, inOrder: bool)
    requires m.Bootable() && LeftoversStay(hot0, m.disk.hot, k0)
    modifies m.disk`hot
    ensures r.None? <==> ColdOnly(old(Now(m.disk)), RotatedCount(m.file))
    ensures r.None? ==> m.disk.hot == old(m.disk.hot)
    ensures r.Some? ==>
              && fresh(r.value) && fresh(r.value.store) && fresh(r.value.store.acc) && fresh(r.value.store.wal)
              && r.value.disk == m.disk && r.value.Bootable() && r.value.Log() == m.Log() && r.value.Books()
              && r.value.durable == m.durable && LeftoversStay(hot0, m.disk.hot, k0)
              && (steady <==> r.value.Alive()) && (inOrder <==> r.value.Valid())
  {
    hide m.Durable, Limbo, Starting, HighestStamp, Clean, Tidy, Linked, Monotone, LeftoversStay, m.Valid, m.Books;
    hide m.Fresh, m.Saved, Upto;
    DiskSays(m);
    if ColdOnly(Now(m.disk), RotatedCount(m.file)) { return None, false, false; }
    steady := LooksTidy(m);
    r := Reboot(m, key);
    StepIsBootable(r.value);
    OpensElsewhere(hot0, old(Now(m.disk)), Now(m.disk), k0);
    var next := NextName(|r.value.cp.segments|);
    inOrder := steady && next !in m.disk.hot && next !in m.disk.cold;
    NameShowsOrder(r.value);
  }

  /** A whole life: admissions, retention rounds and restarts in any order, over
      any script of faults.  What the files hold is what a store that never
      restarted and holds every record hot would have committed, answer for
      answer; and what a segment rotated before the run left hot lies there
      still.  A run stops short only before a restart in limbo; before anything
      but a restart when the file has a torn frame, or a record the store does
      not; before a round that would seal under a used name or work from anchors
      rolled back in part; or with a SHA-256 collision in hand. */
  method LiveThrough(m0: Manager, events: seq<Event>, key: Bytes)
    returns (m: Manager, n: nat, answers: seq<AdmitResult>, found: Option<InputPair>, ghost ts: seq<Attempt>)
    requires m0.Valid()
    requires |m0.store.log| + |events| < MAX_LOG && forall e :: e in events && e.Round? ==> 0 < e.now
    modifies m0, m0.disk, m0.store, m0.store.acc, m0.store.wal
    ensures m.disk == m0.disk && m.Bootable() && n <= |events| && Admitted(events[..n], ts)
    ensures Seen(m.Log(), old(m0.store.log), ts, answers)
    ensures old(m0.durable) <= m.durable && LeftoversStay(old(m0.disk.hot), m.disk.hot, old(m0.durable))
    ensures found.Some? ==> Collision(found.value)
    ensures n < |events| ==>
              match events[n]
              case Restarts => ColdOnly(Now(m.disk), RotatedCount(m.file))
              case Admission(_, _, _) => !m.Alive()
              case Round(_) => !m.Valid() || found.Some?
  {
    hide m0.Alive, m0.Valid, m0.Bootable, m0.Books, m0.Log, Seen, FatesFrom, HonestMedium, Limbo, LeftoversStay;
    hide Clean, ColdOnly, Verdict, Admitted, m0.Durable, m0.InStep, m0.Sound, Tidy, RotatedCount, Collision;
    NoneAdmitted(events);
    var steady, books, inOrder := true, true, true;
    m, n, answers, found, ts := m0, 0, [], None, [];
    ghost var log0, hot0, rotated := m0.store.log, m0.disk.hot, m0.durable;
    Begins(m0);
    MoveLeaves(hot0, hot0, rotated);
    while n < |events|
      invariant m.disk == m0.disk && m.Bootable() && (steady <==> m.Alive())
      invariant steady ==> (books <==> m.Books()) && (inOrder <==> m.Valid())
      invariant m == m0 || (fresh(m) && fresh(m.store) && fresh(m.store.acc) && fresh(m.store.wal))
      invariant n <= |events| && Admitted(events[..n], ts) && Seen(m.Log(), log0, ts, answers)
      invariant |m.Log()| <= |log0| + n && found.None?
      invariant rotated <= m.durable && LeftoversStay(hot0, m.disk.hot, rotated)
    {
      var e := events[n];
      assert e in events;
      AdmittedStep(events, n, ts);
      match e {
        case Admission(_, _, _) =>
          if !steady { return; }
          var res;
          ghost var t;
          res, steady, t := AdmitOne(m, e, log0, ts, answers, hot0, rotated);
          if !m.store.wal.Live() { inOrder := books; }
          AdmittedMore(events, n, ts, t);
          answers, ts := answers + [res], ts + [t];
        case Round(now) =>
          ValidIsAlive(m);
          if !steady || !inOrder { return; }
          found, books, inOrder := RoundOne(m, now, hot0, rotated);
          if found.Some? { return; }
        case Restarts =>
          var r;
          r, steady, inOrder := RestartOne(m, key, hot0, rotated);
          if r.None? { return; }
          m, books := r.value, true;
      }
      n := n + 1;
    }
  }
}
