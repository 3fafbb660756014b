// The retention books, on values: what the checkpoint file and the checkpoint in
// memory say of the tiers, and how a seal and a rotation change both
// (internal/retention/manager.go).

module Ledger {
  import opened Bytes
  import opened Crypto
  import opened Ocsf
  import opened Chain
  import opened Segments
  import opened Replay
  import opened Disk
  import opened Store
  import opened Rotation
  import opened RetentionPolicy
  import opened Checkpoint
  import opened Retention
  import opened Inventory
  import Wal

  // ---------- the checkpoint file ----------

  /** LoadCheckpoint under the configured policy takes a checkpoint pinned at p. */
  predicate Pins(p: Policy, configured: Policy) {
    FLOOR_YEARS_MINIMUM <= p.floorYears <= configured.floorYears
  }

  /** The checkpoint of a log with k segments rotated.  Its inventory may lack
      the latest seals, none of them rotated. */
  ghost predicate Tracked(c: Checkpoint, segs: SegmentList, k: nat) {
    |c.segments| <= |segs| && Consistent(c, segs[..|c.segments|], k)
  }

  /** An absent checkpoint is an empty one at the configured policy. */
  function Starting(file: Option<Checkpoint>, configured: Policy): Checkpoint {
    match file
    case None => Checkpoint(configured, [], map[], 0, [])
    case Some(c) => c
  }

  /** What the checkpoint file pins, if there is one. */
  ghost predicate DurableOk(file: Option<Checkpoint>, configured: Policy, segs: SegmentList, k: nat) {
    match file
    case None => k == 0
    case Some(c) => Pins(c.policy, configured) && Tracked(c, segs, k)
  }

  /** WriteCheckpoint: signed, written to a temporary (create, permissions,
      write, sync, close) and renamed, so the file is the old one or the new
      one; a failed directory sync is an error over the new one. */
  method WriteCheckpoint(disk: Disk, c: Checkpoint, before: Option<Checkpoint>)
    returns (file: Option<Checkpoint>, ok: bool)
    requires Fits(c)
    modifies disk`fates
    ensures file == if Working(old(disk.fates), 6) then Some(c) else before
    ensures ok <==> Working(old(disk.fates), 7)
    ensures ok ==> file == Some(c)
    ensures FatesFrom(old(disk.fates), disk.fates)
    ensures AllWork(old(disk.fates)) ==> ok
  {
    hide Working, Left, FatesFrom, AllWork;
    ghost var script := disk.fates;
    AllFrom(script);
    ScriptStep(script, 0);
    LeftIsFrom(script, 7);
    for i := 0 to 6
      invariant disk.fates == Left(script, i) && Working(script, i) && FatesFrom(script, disk.fates)
    {
      ScriptStep(script, i);
      ok := disk.Call();
      if !ok {
        FailsStay(script, i + 1, 6);
        FailsStay(script, i + 1, 7);
        return before, false;
      }
    }
    ScriptStep(script, 6);
    ok := disk.Call();
    return Some(c), ok;
  }

  lemma {:induction false} ConsistentIsTracked(c: Checkpoint, segs: SegmentList, k: nat)
    requires Consistent(c, segs, k)
    ensures Tracked(c, segs, k)
  {
    assert segs[..|segs|] == segs;
  }

  /** With every seal in the inventory nothing is missing from it. */
  lemma {:induction false} CompleteIsConsistent(c: Checkpoint, segs: SegmentList, k: nat)
    requires Tracked(c, segs, k) && |c.segments| == |segs|
    ensures Consistent(c, segs, k)
  {
    assert segs[..|segs|] == segs;
  }

  lemma {:induction false} TrackedStays(c: Checkpoint, segs: SegmentList, k: nat, more: seq<Record>)
    requires Tracked(c, segs, k)
    ensures Tracked(c, segs + [more], k)
  {
    var m := |c.segments|;
    assert (segs + [more])[..m] == segs[..m];
  }

  lemma {:induction false} DurableStays(file: Option<Checkpoint>, configured: Policy, segs: SegmentList, k: nat,
        more: seq<Record>)
    requires DurableOk(file, configured, segs, k)
    ensures DurableOk(file, configured, segs + [more], k)
  {
    if file.Some? { TrackedStays(file.value, segs, k, more); }
  }

  lemma {:induction false} TrackedFits(c: Checkpoint, segs: SegmentList, k: nat)
    requires Tracked(c, segs, k) && |Flatten(segs)| < MAX_LOG
    ensures Fits(c) && k <= |c.segments| <= |segs|
  {
    var m := |c.segments|;
    UptoBound(segs, m);
    assert Flatten(segs[..m]) == Upto(segs, m);
    ConsistentFits(c, segs[..m], k);
  }

  // ---------- sealing ----------

  function HighestSeal(es: seq<SegmentEntry>): I64 {
    if es == [] then 0
    else if Last(es).sealedAt > HighestSeal(Init(es)) then Last(es).sealedAt
    else HighestSeal(Init(es))
  }

  function Boundary(es: seq<SegmentEntry>): nat {
    if es == [] then 0
    else if Last(es).lastGlobal + 1 > Boundary(Init(es)) then Last(es).lastGlobal + 1
    else Boundary(Init(es))
  }

  method LastSealAndBoundary(es: seq<SegmentEntry>) returns (lastSeal: I64, boundary: nat)
    ensures lastSeal == HighestSeal(es) && boundary == Boundary(es)
  {
    lastSeal, boundary := 0, 0;
    for i := 0 to |es|
      invariant lastSeal == HighestSeal(es[..i]) && boundary == Boundary(es[..i])
    {
      assert Init(es[..i + 1]) == es[..i] && Last(es[..i + 1]) == es[i];
      if es[i].sealedAt > lastSeal { lastSeal := es[i].sealedAt; }
      if es[i].lastGlobal + 1 > boundary { boundary := es[i].lastGlobal + 1; }
    }
    assert es[..|es|] == es;
  }

  /** The boundary is the number of sealed records. */
  lemma {:induction false} BoundaryIs(es: seq<SegmentEntry>, segs: SegmentList)
    requires Inventoried(es, segs)
    ensures Boundary(es) == |Flatten(segs)|
    decreases |es|
  {
    if es != [] {
      var n := |es| - 1;
      InventoryInit(es, segs);
      BoundaryIs(Init(es), segs[..n]);
      EntryCounts(es, segs, n);
      UptoSteps(segs, n);
      assert segs[..n + 1] == segs;
    }
  }

  ghost predicate Describes(e: SegmentEntry, name: Bytes, raw: Bytes, rs: seq<Record>, snap: SealSnapshot,
        firstGlobal: nat, now: I64) {
    && Bounds(e.firstIngest, e.lastIngest, rs) && e.name == name && e.sha256 == SHA256(raw) && e.recordCount == |rs|
    && e.firstGlobal == firstGlobal && e.lastGlobal == firstGlobal + |rs| - 1
    && e.sealedAt == now && e.rotatedAt == 0
    && e.sealTips == snap.tips && e.sealTreeSize == snap.treeSize && e.sealFrontier == snap.frontier
  }

  lemma {:induction false} BoundsStep(first: I64, last: I64, rs: seq<Record>, r: Record)
    requires Bounds(first, last, rs)
    ensures Bounds(if r.ingestTime < first then r.ingestTime else first,
                   if r.ingestTime > last then r.ingestTime else last, rs + [r])
  {
    var f :| f in rs && f.ingestTime == first;
    var l :| l in rs && l.ingestTime == last;
    assert f in rs + [r] && l in rs + [r] && r in rs + [r];
  }

  method IngestBounds(rs: seq<Record>) returns (first: I64, last: I64)
    requires rs != []
    ensures Bounds(first, last, rs)
  {
    first, last := rs[0].ingestTime, rs[0].ingestTime;
    assert rs[..1] == [rs[0]];
    for i := 1 to |rs|
      invariant Bounds(first, last, rs[..i])
    {
      assert rs[..i + 1] == rs[..i] + [rs[i]];
      BoundsStep(first, last, rs[..i], rs[i]);
      if rs[i].ingestTime < first { first := rs[i].ingestTime; }
      if rs[i].ingestTime > last { last := rs[i].ingestTime; }
    }
    assert rs[..|rs|] == rs;
  }

  /** inventorySealed: digest and ingest bounds from the bytes, read twice,
      anchors from the seal snapshot; a segment with no records is refused. */
  method InventorySealed(disk: Disk, name: Bytes, raw: Bytes, snap: SealSnapshot, firstGlobal: nat, now: I64)
    returns (r: Option<SegmentEntry>)
    modifies disk`fates
    ensures var rs := ReadRaw(raw);
      && (r.Some? <==> Working(old(disk.fates), 2) && rs.Some? && rs.value != [])
      && (r.Some? ==> Describes(r.value, name, raw, rs.value, snap, firstGlobal, now))
    ensures r.Some? ==> disk.fates == Left(old(disk.fates), 2)
    ensures FatesFrom(old(disk.fates), disk.fates)
  {
    hide Working, Left, FatesFrom, AllWork, ReadRaw;
    ghost var script := disk.fates;
    ScriptStep(script, 0);
    ScriptStep(script, 1);
    FailsStay(script, 1, 2);
    var ok := disk.Call();
    if !ok { return None; }
    ok := disk.Call();
    if !ok { return None; }
    var recs := ReadRawRecords(raw);
    if recs.None? || recs.value == [] { return None; }
    var first, last := IngestBounds(recs.value);
    var e := SegmentEntry(name, SHA256(raw), |recs.value|, first, last,
                          firstGlobal, firstGlobal + |recs.value| - 1, now, 0,
                          snap.tips, snap.treeSize, snap.frontier);
    return Some(e);
  }

  // ---------- what a garbled write may not do ----------

  /** No write the medium garbles turns a sealed segment's file into another
      with the same SHA-256 digest. */
  ghost predicate HonestMedium(fates: seq<Fate>, segs: SegmentList) {
    forall f, i: nat ::
      f in fates && f.Garbled? && i < |segs| && AllStorable(segs[i]) ==> !Collision((f.content, FileOf(segs[i])))
  }

  lemma {:induction false} HonestStays(fates: seq<Fate>, fates': seq<Fate>, segs: SegmentList, more: seq<Record>)
    requires HonestMedium(fates, segs + [more]) && FatesFrom(fates, fates')
    ensures HonestMedium(fates', segs + [more]) && HonestMedium(fates', segs)
  {
    forall f, i: nat | f in fates' && f.Garbled? && i < |segs| && AllStorable(segs[i])
      ensures !Collision((f.content, FileOf(segs[i])))
    {
      assert (segs + [more])[i] == segs[i];
    }
  }

  /** An attempt with an honest medium keeps the layout. */
  lemma {:induction false} HonestAttempt(t: Tiers, t': Tiers, segs: SegmentList, k: nat, active: seq<Record>,
        fates: seq<Fate>)
    requires Layout(t, segs, k, active) && k < |segs| && AttemptEffect(t, t', FileName(k)) && HonestMedium(fates, segs)
    requires Copied(t, t', FileName(k))
        ==> t'.cold[FileName(k)] == t'.hot[FileName(k)] || Garbled(t'.cold[FileName(k)]) in fates
    requires ACTIVE in t.hot || k + 1 < |segs|
    ensures Layout(t', segs, k, active)
    ensures FileName(k) !in t.cold ==> !Limbo(t', segs, k)
  {
    assert Slot(t, segs, k, k);
    AttemptKeeps(t, t', segs, k, active);
  }

  /** With every call working an attempt at segment k is not refused. */
  lemma {:induction false} NothingHinders(t: Tiers, segs: SegmentList, k: nat, active: seq<Record>)
    requires Layout(t, segs, k, active) && k < |segs|
    ensures Unhindered(t, FileName(k)) == Done
  {
    assert Slot(t, segs, k, k);
    if FileName(k) in t.hot { FileRoundTrip(segs[k]); }
  }

  // ---------- a rotation ----------

  /** No cold copy of the next segment to rotate exists yet. */
  predicate Clean(t: Tiers, segs: SegmentList, k: nat) {
    k < |segs| ==> FileName(k) !in t.cold
  }

  /** wal.SegmentName of the next index. */
  function NextName(sealedSoFar: nat): Bytes {
    SegmentName(sealedSoFar + 1)
  }

  /** Nothing but the file of this name is different. */
  ghost predicate Elsewhere(t: Tiers, t': Tiers, name: Bytes) {
    forall n :: n != name ==> SameFile(t.hot, t'.hot, n) && SameFile(t.cold, t'.cold, n)
  }

  /** The hot copies of the first k segments are there or not, as before. */
  ghost predicate LeftoversStay(hot: Dir, hot': Dir, k: nat) {
    forall j: nat :: j < k ==> SameFile(hot, hot', FileName(j))
  }

  /** The file is still hot exactly if it was copied now and the next call, its
      removal, fails. */
  predicate RemovedAt(cold: Dir, hot: Dir, name: Bytes, rest: seq<Fate>) {
    name in hot <==> name !in cold && !Working(rest, 1)
  }

  /** Of the segments rotated from `from` on, those that were copied now and
      whose removal call fails are still hot, and no others.  at[i] is the script
      as it was when the removal of the i-th came. */
  ghost predicate RemovedAsCalled(cold: Dir, hot: Dir, from: nat, at: seq<seq<Fate>>) {
    forall i: nat :: i < |at| ==> RemovedAt(cold, hot, FileName(from + i), at[i])
  }

  /** No rotated segment has a hot copy left. */
  ghost predicate NoLeftovers(hot: Dir, k: nat) {
    forall j: nat :: j < k ==> FileName(j) !in hot
  }

  /** The cold tier has the segments from k on as it had. */
  ghost predicate ColdFrom(cold: Dir, cold': Dir, k: nat) {
    forall j: nat :: k <= j ==> SameFile(cold, cold', FileName(j))
  }

  /** Each script is what is left of the one before. */
  predicate InTurn(first: seq<Fate>, at: seq<seq<Fate>>, last: seq<Fate>) {
    if at == [] then FatesFrom(first, last)
    else InTurn(first, at[..|at| - 1], at[|at| - 1]) && FatesFrom(at[|at| - 1], last)
  }

  /** What a round did to the hot copies of rotated segments, k of them before
      and k' after: those of earlier rounds stay, and of the ones it rotated
      those go whose removal call works. */
  ghost predicate Removals(t: Tiers, t': Tiers, k: nat, k': nat,
      first: seq<Fate>, at: seq<seq<Fate>>, last: seq<Fate>)
  {
    && k' == k + |at| && InTurn(first, at, last)
    && LeftoversStay(t.hot, t'.hot, k) && RemovedAsCalled(t.cold, t'.hot, k, at)
  }

  lemma {:induction false} InTurnIsFrom(first: seq<Fate>, at: seq<seq<Fate>>, last: seq<Fate>)
    requires InTurn(first, at, last)
    ensures FatesFrom(first, last) && forall i :: 0 <= i < |at| ==> FatesFrom(first, at[i])
    decreases |at|
  {
    if at != [] {
      var n := |at| - 1;
      InTurnIsFrom(first, at[..n], at[n]);
      FromTwice(first, at[n], last);
      forall i | 0 <= i < |at| ensures FatesFrom(first, at[i]) {
        if i < n { assert at[..n][i] == at[i]; }
      }
    }
  }

  lemma {:induction false} InTurnNext(first: seq<Fate>, at: seq<seq<Fate>>, now: seq<Fate>, rest: seq<Fate>,
        last: seq<Fate>)
    requires InTurn(first, at, now) && FatesFrom(now, rest) && FatesFrom(rest, last)
    ensures InTurn(first, at, last) && InTurn(first, at + [rest], last)
  {
    hide FatesFrom;
    ScriptsChain();
    assert (at + [rest])[..|at|] == at;
    if at != [] { assert FatesFrom(at[|at| - 1], rest); }
  }

  lemma {:induction false} NothingYet(t: Tiers, k: nat, fates: seq<Fate>)
    ensures LeftoversStay(t.hot, t.hot, k) && RemovedAsCalled(t.cold, t.hot, k, [])
    ensures ColdFrom(t.cold, t.cold, k) && InTurn(fates, [], fates)
  {
    AllFrom(fates);
  }

  lemma {:induction false} ElsewhereNothing(t: Tiers, name: Bytes)
    ensures Elsewhere(t, t, name)
  {}

  lemma {:induction false} ElsewhereTwice(t: Tiers, t': Tiers, t'': Tiers, name: Bytes)
    requires Elsewhere(t, t', name) && Elsewhere(t', t'', name)
    ensures Elsewhere(t, t'', name)
  {
    forall n: Bytes | n != name ensures SameFile(t.hot, t''.hot, n) && SameFile(t.cold, t''.cold, n) {
      assert SameFile(t.hot, t'.hot, n) && SameFile(t.cold, t'.cold, n);
      assert SameFile(t'.hot, t''.hot, n) && SameFile(t'.cold, t''.cold, n);
    }
  }

  lemma {:induction false} ColdStep(cold: Dir, t: Tiers, t': Tiers, i: nat)
    requires ColdFrom(cold, t.cold, i) && Elsewhere(t, t', FileName(i))
    ensures ColdFrom(cold, t'.cold, i + 1)
  {
    forall j: nat | i + 1 <= j ensures SameFile(cold, t'.cold, FileName(j)) {
      NamesApart(i, j);
      assert SameFile(cold, t.cold, FileName(j)) && SameFile(t.cold, t'.cold, FileName(j));
    }
  }

  lemma {:induction false} LeftoversStep(hot0: Dir, t: Tiers, t': Tiers, k: nat, i: nat)
    requires LeftoversStay(hot0, t.hot, k) && k <= i && Elsewhere(t, t', FileName(i))
    ensures LeftoversStay(hot0, t'.hot, k)
  {
    forall j: nat | j < k ensures SameFile(hot0, t'.hot, FileName(j)) {
      NamesApart(i, j);
      assert SameFile(hot0, t.hot, FileName(j)) && SameFile(t.hot, t'.hot, FileName(j));
    }
  }

  lemma {:induction false} RemovedBefore(cold: Dir, t: Tiers, t': Tiers, from: nat, at: seq<seq<Fate>>, i: nat)
    requires RemovedAsCalled(cold, t.hot, from, at) && from + |at| <= i && Elsewhere(t, t', FileName(i))
    ensures RemovedAsCalled(cold, t'.hot, from, at)
  {
    forall j: nat | j < |at| ensures RemovedAt(cold, t'.hot, FileName(from + j), at[j]) {
      assert RemovedAt(cold, t.hot, FileName(from + j), at[j]);
      NamesApart(i, from + j);
      assert SameFile(t.hot, t'.hot, FileName(from + j));
    }
  }

  lemma {:induction false} RemovedOneMore(cold: Dir, cold': Dir, hot: Dir, from: nat, at: seq<seq<Fate>>,
        rest: seq<Fate>)
    requires RemovedAsCalled(cold, hot, from, at) && ColdFrom(cold, cold', from + |at|)
    requires RemovedAt(cold', hot, FileName(from + |at|), rest)
    ensures RemovedAsCalled(cold, hot, from, at + [rest])
  {
    assert SameFile(cold, cold', FileName(from + |at|)) && RemovedAt(cold, hot, FileName(from + |at|), rest);
    hide RemovedAt;
    var at' := at + [rest];
    forall j: nat | j < |at'| ensures RemovedAt(cold, hot, FileName(from + j), at'[j]) {
      if j < |at| { assert RemovedAt(cold, hot, FileName(from + j), at[j]); }
    }
  }

  /** Where every removal works nothing is left of what was rotated. */
  lemma {:induction false} NothingLeft(hot0: Dir, cold: Dir, hot: Dir, k: nat, at: seq<seq<Fate>>)
    requires RemovedAsCalled(cold, hot, k, at) && forall i :: 0 <= i < |at| ==> Working(at[i], 1)
    requires LeftoversStay(hot0, hot, k) && NoLeftovers(hot0, k)
    ensures NoLeftovers(hot, k + |at|)
  {
    forall j: nat | j < k + |at| ensures FileName(j) !in hot {
      if j < k {
        assert SameFile(hot0, hot, FileName(j));
      } else {
        assert RemovedAt(cold, hot, FileName(k + (j - k)), at[j - k]);
      }
    }
  }

  lemma {:induction false} InTurnEarlier(first: seq<Fate>, next: seq<Fate>, at: seq<seq<Fate>>, last: seq<Fate>)
    requires FatesFrom(first, next) && InTurn(next, at, last)
    ensures InTurn(first, at, last)
    decreases |at|
  {
    if at == [] {
      FromTwice(first, next, last);
    } else {
      InTurnEarlier(first, next, at[..|at| - 1], at[|at| - 1]);
    }
  }

  lemma {:induction false} LeftoversTwice(hot: Dir, hot': Dir, hot'': Dir, n: nat, k: nat)
    requires LeftoversStay(hot, hot', n) && k <= n && LeftoversStay(hot', hot'', k)
    ensures LeftoversStay(hot, hot'', k)
  {
    forall j: nat | j < k ensures SameFile(hot, hot'', FileName(j)) {
      assert SameFile(hot, hot', FileName(j)) && SameFile(hot', hot'', FileName(j));
    }
  }

  lemma {:induction false} AllGone(hot0: Dir, cold: Dir, hot: Dir, k: nat, fates: seq<Fate>, at: seq<seq<Fate>>)
    requires LeftoversStay(hot0, hot, k) && RemovedAsCalled(cold, hot, k, at)
    requires forall i :: 0 <= i < |at| ==> FatesFrom(fates, at[i])
    ensures AllWork(fates) && NoLeftovers(hot0, k) ==> NoLeftovers(hot, k + |at|)
  {
    hide FatesFrom, LeftoversStay, RemovedAsCalled, NoLeftovers, Working;
    if AllWork(fates) && NoLeftovers(hot0, k) {
      forall i | 0 <= i < |at| ensures Working(at[i], 1) {
        AllWorkFrom(fates, at[i]);
        LeftIsFrom(at[i], 1);
      }
      NothingLeft(hot0, cold, hot, k, at);
    }
  }

  /** What a round does to the hot copies of rotated segments: a seal, then
      rotations. */
  lemma {:induction false} RoundRemovals(t: Tiers, mid: Tiers, t': Tiers, n: nat, k: nat, k': nat,
        first: seq<Fate>, between: seq<Fate>, at: seq<seq<Fate>>, last: seq<Fate>)
    requires LeftoversStay(t.hot, mid.hot, n) && mid.cold == t.cold && k <= n
    requires Removals(mid, t', k, k', between, at, last) && FatesFrom(first, between)
    ensures Removals(t, t', k, k', first, at, last) && FatesFrom(first, last)
    ensures AllWork(first) && NoLeftovers(t.hot, k) ==> NoLeftovers(t'.hot, k')
  {
    hide FatesFrom, LeftoversStay, RemovedAsCalled, NoLeftovers, InTurn, AllWork;
    InTurnEarlier(first, between, at, last);
    InTurnIsFrom(first, at, last);
    LeftoversTwice(t.hot, mid.hot, t'.hot, n, k);
    AllGone(t.hot, t.cold, t'.hot, k, first, at);
  }

  /** A seal moves the active file and no other, to a name no segment has. */
  lemma {:induction false} MoveLeaves(hot: Dir, hot': Dir, n: nat)
    ensures hot' == hot ==> LeftoversStay(hot, hot', n)
    ensures ACTIVE in hot ==>
      var moved := Moved(hot, NextName(n));
      hot' in {moved, moved[ACTIVE := []]} ==> LeftoversStay(hot, hot', n)
  {
    forall j: nat | j < n && ACTIVE in hot && hot' in {Moved(hot, NextName(n)), Moved(hot, NextName(n))[ACTIVE := []]}
      ensures SameFile(hot, hot', FileName(j))
    {
      FileNameIsNotActive(j);
      NamesApart(j, n);
    }
  }

  lemma {:induction false} OneMoreSeal(es: seq<SegmentEntry>, e: SegmentEntry)
    ensures HighestSeal(es + [e]) == if e.sealedAt > HighestSeal(es) then e.sealedAt else HighestSeal(es)
  {
    assert Init(es + [e]) == es && Last(es + [e]) == e;
  }

  /** RotateCopy of segment i, on a medium that never garbles it into a
      SHA-256 collision. */
  method CopySegment(disk: Disk, name: Bytes, ghost segs: SegmentList, ghost i: nat, ghost active: seq<Record>)
    returns (st: Status)
    requires Layout(Now(disk), segs, i, active) && i < |segs| && name == FileName(i) && HonestMedium(disk.fates, segs)
    requires ACTIVE in disk.hot || i + 1 < |segs|
    modifies disk
    ensures Layout(Now(disk), segs, i, active) && Elsewhere(old(Now(disk)), Now(disk), name)
    ensures SameFile(old(disk.hot), disk.hot, ACTIVE)
    ensures st == Done ==> name in disk.cold && (name in disk.hot <==> name !in old(disk.cold))
    ensures old(Clean(Now(disk), segs, i)) ==> !Limbo(Now(disk), segs, i)
    ensures FatesFrom(old(disk.fates), disk.fates)
    ensures st == Done <==> WouldCopy(old(Now(disk)), old(disk.temps), old(disk.fates), name)
    ensures AllWork(old(disk.fates)) ==> st == Done
  {
    hide Layout, HonestMedium, FatesFrom, AllWork, Limbo, AttemptEnd, AttemptTiers, TempsOf, Left;
    ghost var before := Now(disk);
    SlotOf(before, segs, i, active, i);
    st := RotateCopy(disk, name);
    HonestAttempt(before, Now(disk), segs, i, active, old(disk.fates));
    NothingHinders(before, segs, i, active);
    SlotOf(Now(disk), segs, i, active, i);
    FileNameIsNotActive(i);
  }

  lemma {:induction false} SealsStay(es: seq<SegmentEntry>, i: nat, at: I64)
    requires i < |es|
    ensures HighestSeal(es[i := es[i].(rotatedAt := at)]) == HighestSeal(es)
    decreases |es|
  {
    var es' := es[i := es[i].(rotatedAt := at)];
    if i == |es| - 1 {
      assert Init(es') == Init(es);
    } else {
      SealsStay(Init(es), i, at);
      assert Init(es') == Init(es)[i := es[i].(rotatedAt := at)];
    }
  }

  /** The inventory describes the segments it lists. */
  ghost predicate Listed(c: Checkpoint, segs: SegmentList) {
    |c.segments| <= |segs| && Inventoried(c.segments, segs[..|c.segments|])
  }

  /** A copied segment may be recorded as rotated, in memory and in the file. */
  lemma {:induction false} PromotionHolds(t: Tiers, c: Checkpoint, segs: SegmentList, i: nat, active: seq<Record>,
        now: I64)
    requires Layout(t, segs, i, active) && i < |c.segments| && FileName(i) in t.cold && now != 0
    requires Tracked(c, segs, i) && |Flatten(segs)| < MAX_LOG
    ensures i < |segs| && Layout(t, segs, i + 1, active) && !Limbo(t, segs, i + 1) && Clean(t, segs, i + 1)
    ensures Tracked(Promoted(c, i, now), segs, i + 1) && Fits(Promoted(c, i, now))
    ensures !Tracked(RolledBack(c, i, now), segs, i)
    ensures Promoted(c, i, now).policy == RolledBack(c, i, now).policy == c.policy
    ensures Listed(RolledBack(c, i, now), segs) && RotatedPrefix(RolledBack(c, i, now).segments, i)
    ensures HighestSeal(Promoted(c, i, now).segments)
        == HighestSeal(RolledBack(c, i, now).segments) == HighestSeal(c.segments)
  {
    var m := |c.segments|;
    PromoteKeeps(t, segs, i, active);
    PromotedConsistent(c, segs[..m], i, now);
    RolledBackIsNot(c, segs[..m], i, now);
    SealsStay(c.segments, i, now);
    SealsStay(Promoted(c, i, now).segments, i, 0);
    TrackedFits(Promoted(c, i, now), segs, i + 1);
    if i + 1 < |segs| { SlotOf(t, segs, i, active, i + 1); }
  }

  lemma {:induction false} EntryIs(c: Checkpoint, t: Tiers, segs: SegmentList, i: nat, active: seq<Record>)
    requires Tracked(c, segs, i) && i < |c.segments| && Layout(t, segs, i, active)
    ensures c.segments[i].name == FileName(i) && Listed(c, segs) && RotatedPrefix(c.segments, i)
    ensures Clean(t, segs, i) ==> !Limbo(t, segs, i)
  {
    assert EntryFor(c.segments[i], segs[..|c.segments|], i);
    SlotOf(t, segs, i, active, i);
  }

  lemma {:induction false} HonestLater(fates: seq<Fate>, fates': seq<Fate>, segs: SegmentList)
    requires HonestMedium(fates, segs) && FatesFrom(fates, fates')
    ensures HonestMedium(fates', segs)
  {}

  lemma {:induction false} UnlessLimbo(t: Tiers, segs: SegmentList, k: nat, active: seq<Record>)
    requires Layout(t, segs, k, active)
    ensures Clean(t, segs, k) ==> !Limbo(t, segs, k)
  {
    if k < |segs| { SlotOf(t, segs, k, active, k); }
  }

  lemma {:induction false} FirstUnrotated(c: Checkpoint, segs: SegmentList, k: nat, i: nat)
    requires Tracked(c, segs, k) && i <= k && i < |c.segments|
    ensures c.segments[i].rotatedAt == 0 <==> i == k
  {}

  lemma {:induction false} TrackedCounts(c: Checkpoint, segs: SegmentList, k: nat)
    requires Tracked(c, segs, k)
    ensures k <= |c.segments| <= |segs| && Listed(c, segs) && RotatedPrefix(c.segments, k)
  {}

  // ---------- a seal, on values ----------

  lemma {:induction false} EntryMade(segs: SegmentList, active: seq<Record>, e: SegmentEntry)
    requires active != [] && AllStorable(active) && Bounds(e.firstIngest, e.lastIngest, active)
    requires e.name == FileName(|segs|) && e.sha256 == SHA256(FileOf(active)) && e.recordCount == |active|
    requires e.firstGlobal == |Flatten(segs)| && e.lastGlobal == |Flatten(segs)| + |active| - 1
    requires var log := Flatten(segs) + active;
      e.sealTips == TipsOf(log) && e.sealTreeSize == |log| && e.sealFrontier == FrontierOf(log)
    ensures Flatten(segs + [active]) == Flatten(segs) + active
    ensures EntryFor(e, segs + [active], |segs|)
  {
    var segs', n := segs + [active], |segs|;
    assert segs'[..n] == segs && segs'[..n + 1] == segs' && Init(segs') == segs;
  }

  /** A seal that got as far as its rename, inventoried or not: the active log
      is the last segment, and what was said of the others is still so. */
  lemma {:induction false} MoveHolds(t: Tiers, t': Tiers, c: Checkpoint, file: Option<Checkpoint>, configured: Policy,
                                     segs: SegmentList, k: nat, active: seq<Record>)
    requires Layout(t, segs, k, active) && Consistent(c, segs, k) && DurableOk(file, configured, segs, k)
    requires Tidy(t.hot, active) && ACTIVE in t.hot && |Flatten(segs) + active| < MAX_LOG && active != []
    requires var moved := Moved(t.hot, NextName(|segs|)); t'.cold == t.cold && t'.hot in {moved, moved[ACTIVE := []]}
    ensures Flatten(segs + [active]) == Flatten(segs) + active
    ensures Layout(t', segs + [active], k, []) && Tidy(t'.hot, [])
    ensures DurableOk(file, configured, segs + [active], k)
    ensures Tracked(c, segs + [active], k) && |c.segments| == |segs|
    ensures Limbo(t', segs + [active], k) <==> Limbo(t, segs, k)
    ensures Clean(t, segs, k) ==> Clean(t', segs + [active], k)
  {
    assert Init(segs + [active]) == segs;
    ConsistentFits(c, segs, k);
    SealKeeps(t, t', segs, k, active);
    ConsistentIsTracked(c, segs, k);
    TrackedStays(c, segs, k, active);
    DurableStays(file, configured, segs, k, active);
    NewestIsNowhere(t, |segs|);
  }

  /** Inventoried as well, nothing is missing from the checkpoint in memory. */
  lemma {:induction false} SealHolds(c: Checkpoint, segs: SegmentList, k: nat, active: seq<Record>, e: SegmentEntry,
                                     snap: SealSnapshot, now: I64)
    requires Consistent(c, segs, k) && |Flatten(segs) + active| < MAX_LOG && active != [] && AllStorable(active)
    requires Describes(e, FileName(|segs|), FileOf(active), active, snap, |Flatten(segs)|, now)
    requires var log := Flatten(segs) + active; snap == SealSnapshot(|log|, |log|, FrontierOf(log), TipsOf(log))
    ensures var c' := c.(segments := c.segments + [e]);
      && Tracked(c', segs + [active], k) && Fits(c') && |c'.segments| == |segs + [active]|
      && HighestSeal(c'.segments) == if now > HighestSeal(c.segments) then now else HighestSeal(c.segments)
  {
    OneMoreSeal(c.segments, e);
    EntryMade(segs, active, e);
    EntryAdded(c, segs, k, active, e);
    var c' := c.(segments := c.segments + [e]);
    ConsistentFits(c', segs + [active], k);
    ConsistentIsTracked(c', segs + [active], k);
  }

  lemma {:induction false} NextNameIs(n: nat)
    ensures NextName(n) == FileName(n) != ACTIVE
  {
    FileNameIsNotActive(n);
  }

  lemma {:induction false} SealedApart(t: Tiers, active: seq<Record>)
    requires Tidy(t.hot, active)
    ensures AllStorable(active) && ReadRaw(FileOf(active)) == Some(active)
    ensures ACTIVE in t.hot ==> t.hot[ACTIVE] == FileOf(active)
  {
    FileRoundTrip(active);
  }

  lemma {:induction false} CountsOf(c: Checkpoint, segs: SegmentList, k: nat)
    requires Consistent(c, segs, k)
    ensures |c.segments| == |segs| >= k && Boundary(c.segments) == |Flatten(segs)|
  {
    BoundaryIs(c.segments, segs);
  }

  // ---------- an admission, on values ----------

  lemma {:induction false} FloorBounds(s: Store)
    requires s.Valid()
    ensures StampedBy(s.log, s.ingestFloor) && s.globalOffset <= |s.log|
  {}

  /** An admission that is not a replay: its record links, whether or not it is
      durable. */
  lemma {:induction false} AdmittedIs(log: seq<Record>, offset: nat, source: Text, env: PublishEnvelope, stamp: I64,
        durable: bool)
    requires offset <= |log| && Linked(map[], log)
    ensures var res := Outcome(log, offset, source, env, stamp, durable); var r := NextRecord(log, source, env, stamp);
      && (res.Committed? ==> durable && res.rec == r)
      && (res.NotDurable? ==> !durable)
      && (res.Committed? || res.NotDurable? ==> Linked(map[], log + [r]) && r.ingestTime == stamp)
  {
    hide Linked, NextRecord, Keys;
    var res := Outcome(log, offset, source, env, stamp, durable);
    NextStamp(log, source, env, stamp);
    if res.Committed? || res.NotDurable? { AdmitLinks(log, source, env, stamp); }
  }

  lemma {:induction false} AdmittedStays(t: Tiers, t': Tiers, segs: SegmentList, k: nat, active: seq<Record>,
        log: seq<Record>, floor: I64, now: I64, r: Record)
    requires Layout(t, segs, k, active) && log == Flatten(segs) + active && Monotone(log) && StampedBy(log, floor)
    requires Tidy(t.hot, active) && Storable(r) && r.ingestTime == Stamp(floor, now)
    requires ACTIVE in t.hot && t' == Tiers(t.hot[ACTIVE := t.hot[ACTIVE] + Wal.Frame(Encode(r))], t.cold)
    ensures Layout(t', segs, k, active + [r]) && Tidy(t'.hot, active + [r])
    ensures Limbo(t', segs, k) <==> Limbo(t, segs, k)
    ensures log + [r] == Flatten(segs) + (active + [r]) && Monotone(log + [r]) && r.ingestTime >= now
  {
    AdmitKeeps(t, t', segs, k, active, r);
    AdmitStamps(log, floor, now, r);
    ConcatAssociates(Flatten(segs), active, [r]);
  }

  /** What an append does to the log in the files: one more record if its frame
      got in whole, and otherwise none. */
  lemma {:induction false} AppendStays(t: Tiers, t': Tiers, segs: SegmentList, k: nat, active: seq<Record>,
        log: seq<Record>, floor: I64, now: I64, r: Record, live: bool, fates: seq<Fate>) returns (active': seq<Record>)
    requires Layout(t, segs, k, active) && log == Flatten(segs) + active && Monotone(log) && StampedBy(log, floor)
    requires (live ==> Tidy(t.hot, active) && ACTIVE in t.hot) && r.ingestTime == Stamp(floor, now)
    requires t'.cold == t.cold
    requires t'.hot == if !live || !Storable(r) then t.hot
                       else t.hot[ACTIVE := t.hot[ACTIVE] + Flushed(fates, Wal.Frame(Encode(r)))]
    ensures var whole := live && Storable(r) && Working(fates, 1);
      && active' == active + (if whole then [r] else [])
      && Flatten(segs) + active' == (if whole then log + [r] else log)
      && (whole ==> r.ingestTime >= now)
      && (live && (whole || !Storable(r)) ==> Tidy(t'.hot, active') && (whole <==> t'.hot != t.hot))
    ensures Layout(t', segs, k, active') && (Limbo(t', segs, k) <==> Limbo(t, segs, k))
    ensures Monotone(Flatten(segs) + active') && (ACTIVE in t'.hot <==> ACTIVE in t.hot)
    ensures Elsewhere(t, t', ACTIVE)
  {
    hide Layout, Tidy, Limbo, Monotone, StampedBy, Working, Flushed, Stamp;
    active' := active;
    assert active + [] == active;
    if live && Storable(r) {
      var w := Flushed(fates, Wal.Frame(Encode(r)));
      assert Elsewhere(t, t', ACTIVE);
      if Working(fates, 1) {
        assert |w| >= 8 && |t'.hot[ACTIVE]| == |t.hot[ACTIVE]| + |w|;
        AdmittedStays(t, t', segs, k, active, log, floor, now, r);
        active' := active + [r];
      } else {
        TornKeeps(t, t', segs, k, active, Encode(r), w);
      }
    }
  }
}
