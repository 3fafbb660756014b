// The files the store and the retention manager share: two tier directories,
// the rotation temporaries, and a script of what the filesystem does to each
// call, which is how crashes and faults enter the model.

module Disk {
  import opened Bytes
  import opened Replay
  import Wal

  /** What becomes of one filesystem call.  Fails leaves everything as it was,
      except that a temporary being written may hold any torn content; Garbled
      is a write that reports success over other bytes. */
  datatype Fate = Works | Fails(torn: Bytes) | Garbled(content: Bytes)

  /** The script only ever gets used up. */
  predicate FatesFrom(before: seq<Fate>, after: seq<Fate>) {
    |after| <= |before| && after == before[|before| - |after|..]
  }

  /** No call in the script fails or is garbled. */
  predicate AllWork(fates: seq<Fate>) {
    forall f :: f in fates ==> f == Works
  }

  /** What is left of a script after n calls. */
  function Left(fates: seq<Fate>, n: nat): seq<Fate> {
    if n <= |fates| then fates[n..] else []
  }

  /** The next n calls succeed. */
  predicate Working(fates: seq<Fate>, n: nat) {
    forall i :: 0 <= i < n && i < |fates| ==> !fates[i].Fails?
  }

  lemma {:induction false} FromContents(a: seq<Fate>, b: seq<Fate>)
    requires FatesFrom(a, b)
    ensures forall f :: f in b ==> f in a
    ensures AllWork(a) ==> AllWork(b)
  {}

  lemma {:induction false} LeftIsFrom(fates: seq<Fate>, n: nat)
    ensures FatesFrom(fates, Left(fates, n))
    ensures AllWork(fates) ==> Working(fates, n) && AllWork(Left(fates, n))
  {
    FromContents(fates, Left(fates, n));
    forall i | 0 <= i < n && i < |fates| && AllWork(fates) ensures !fates[i].Fails? { assert fates[i] in fates; }
  }

  lemma {:induction false} WorkingSplits(fates: seq<Fate>, a: nat, b: nat)
    ensures Left(Left(fates, a), b) == Left(fates, a + b)
    ensures Working(fates, a + b) <==> Working(fates, a) && Working(Left(fates, a), b)
  {
    if Working(fates, a) && Working(Left(fates, a), b) {
      forall i | 0 <= i < a + b && i < |fates| ensures !fates[i].Fails? {
        if i >= a { assert Left(fates, a)[i - a] == fates[i]; }
      }
    }
  }

  /** A rotation temporary: its segment and an attempt-unique suffix. */
  type TempName = (Bytes, nat)

  class Disk {
    var hot: Dir
    var cold: Dir
    var temps: map<TempName, Bytes>
    var fates: seq<Fate>

    constructor (hot: Dir, cold: Dir, temps: map<TempName, Bytes>, fates: seq<Fate>)
      ensures this.hot == hot && this.cold == cold && this.temps == temps && this.fates == fates
    {
      this.hot, this.cold, this.temps, this.fates := hot, cold, temps, fates;
    }

    /** The fate of the next call; an exhausted script works. */
    function Next(): Fate
      reads this`fates
    {
      if fates == [] then Works else fates[0]
    }

    method Consume() returns (f: Fate)
      modifies this`fates
      ensures f == old(Next()) && fates == Left(old(fates), 1)
    {
      f := Next();
      if fates != [] { fates := fates[1..]; }
    }

    /** A call with no result but success. */
    method Call() returns (ok: bool)
      modifies this`fates
      ensures ok <==> Working(old(fates), 1)
      ensures fates == Left(old(fates), 1)
      ensures FatesFrom(old(fates), fates)
      ensures AllWork(old(fates)) ==> ok
    {
      assert fates != [] ==> fates[0] in fates;
      LeftIsFrom(fates, 1);
      var f := Consume();
      return !f.Fails?;
    }
  }

  /** A directory after the active file was renamed and before a new one is
      opened. */
  function Moved(hot: Dir, sealedName: Bytes): Dir
    requires ACTIVE in hot
  {
    hot[sealedName := hot[ACTIVE]] - {ACTIVE}
  }

  /** How much of a frame a flush gets into the file; dying in it gets out any
      proper prefix. */
  function Flushed(fates: seq<Fate>, frame: Bytes): (w: Bytes)
    requires frame != []
    ensures w <= frame && (w == frame <==> Working(fates, 1))
  {
    if fates == [] || !fates[0].Fails? then frame
    else if fates[0].torn < frame then fates[0].torn
    else []
  }

  lemma {:induction false} FailsStay(fates: seq<Fate>, m: nat, n: nat)
    requires m <= n
    ensures !Working(fates, m) ==> !Working(fates, n)
  {}

  lemma {:induction false} AllFrom(fates: seq<Fate>)
    ensures FatesFrom(fates, fates)
  {}

  lemma {:induction false} FromTwice(a: seq<Fate>, b: seq<Fate>, c: seq<Fate>)
    requires FatesFrom(a, b) && FatesFrom(b, c)
    ensures FatesFrom(a, c)
  {
    SliceSplits(a, 0, |a| - |b|, |a|);
    assert a[|a| - |b|..][|b| - |c|..] == a[|a| - |c|..];
  }

  lemma {:induction false} ScriptsChain()
    ensures forall a: seq<Fate> :: FatesFrom(a, a)
    ensures forall a, b :: FatesFrom(a, b) && AllWork(a) ==> AllWork(b)
    ensures forall a, b, c :: FatesFrom(a, b) && FatesFrom(b, c) ==> FatesFrom(a, c)
  {
    forall a, b, c | FatesFrom(a, b) && FatesFrom(b, c) ensures FatesFrom(a, c) { FromTwice(a, b, c); }
    forall a, b | FatesFrom(a, b) && AllWork(a) ensures AllWork(b) { FromContents(a, b); }
  }

  lemma {:induction false} ScriptStep(fates: seq<Fate>, n: nat)
    ensures Left(fates, 0) == fates && Left(Left(fates, n), 1) == Left(fates, n + 1)
    ensures Working(fates, 0)
    ensures Working(fates, n + 1) <==> Working(fates, n) && Working(Left(fates, n), 1)
    ensures FatesFrom(fates, Left(fates, n + 1))
  {
    WorkingSplits(fates, n, 1);
    LeftIsFrom(fates, n + 1);
  }

  /** The open log file (internal/wal). */
  class WAL {
    const disk: Disk
    var closed: bool
    /** Not closed, but its handle is, or its writer has failed: every append and
        seal fails. */
    var stuck: bool

    predicate Live()
      reads this`closed, this`stuck
    {
      !closed && !stuck
    }

    ghost predicate Valid()
      reads this, disk`hot
    {
      Live() ==> ACTIVE in disk.hot
    }

    /** Open: created if absent, appended to otherwise. */
    constructor (disk: Disk)
      modifies disk`hot
      ensures Valid() && this.disk == disk && Live()
      ensures disk.hot == if ACTIVE in old(disk.hot) then old(disk.hot) else old(disk.hot)[ACTIVE := []]
    {
      this.disk, closed, stuck := disk, false, false;
      new;
      if ACTIVE !in disk.hot { disk.hot := disk.hot[ACTIVE := []]; }
    }

    /** Whether an append of this payload would get its frame into the file. */
    predicate Flushes(payload: Bytes)
      reads this`closed, this`stuck, disk`fates
    {
      Live() && |payload| <= Wal.MAX_RECORD && Working(disk.fates, 1)
    }

    /** Whether it would be durably committed. */
    predicate Accepts(payload: Bytes)
      reads this`closed, this`stuck, disk`fates
    {
      Live() && |payload| <= Wal.MAX_RECORD && Working(disk.fates, 2)
    }

    /** The files after an append of this payload. */
    function Appended(payload: Bytes): Dir
      requires Valid()
      reads this, disk`hot, disk`fates
    {
      if !Live() || |payload| > Wal.MAX_RECORD then disk.hot
      else disk.hot[ACTIVE := disk.hot[ACTIVE] + Flushed(disk.fates, Wal.Frame(payload))]
    }

    /** Append: flush, then sync.  A flush that fails may leave part of the frame,
        and the writer's error sticks; a sync that fails leaves all of it. */
    method Append(payload: Bytes) returns (ok: bool)
      requires Valid()
      modifies this`stuck, disk`hot, disk`fates
      ensures Valid()
      ensures ok <==> old(Accepts(payload))
      ensures disk.hot == old(Appended(payload))
      ensures Live() <==> old(Live()) && (|payload| > Wal.MAX_RECORD || old(Flushes(payload)))
      ensures FatesFrom(old(disk.fates), disk.fates)
    {
      hide FatesFrom, AllWork;
      ScriptsChain();
      if closed || |payload| > Wal.MAX_RECORD || stuck { return false; }
      ghost var script := disk.fates;
      ScriptStep(script, 1);
      disk.hot := disk.hot[ACTIVE := disk.hot[ACTIVE] + Flushed(disk.fates, Wal.Frame(payload))];
      ok := disk.Call();
      if !ok {
        stuck := true;
        return;
      }
      ok := disk.Call();
    }

    /** The outgoing handle is flushed, synced and closed. */
    method Release() returns (ok: bool)
      modifies this`stuck, disk`fates
      ensures ok <==> Working(old(disk.fates), 3)
      ensures ok ==> disk.fates == Left(old(disk.fates), 3) && stuck == old(stuck)
      ensures stuck == old(stuck) || stuck
      ensures FatesFrom(old(disk.fates), disk.fates)
    {
      hide Working, Left, FatesFrom, AllWork;
      ghost var script := disk.fates;
      FailsStay(script, 1, 3);
      FailsStay(script, 2, 3);
      ScriptStep(script, 0);
      ok := disk.Call();
      if !ok { return; }
      ScriptStep(script, 1);
      ok := disk.Call();
      if !ok { return; }
      ScriptStep(script, 2);
      ok := disk.Call();
      if !ok { stuck := true; }
    }

    /** After the rename: the directory is synced and a fresh active file opened. */
    method Reopen() returns (ok: bool)
      requires Live()
      modifies this`closed, this`stuck, disk`hot, disk`fates
      ensures ok <==> Working(old(disk.fates), 2)
      ensures ok ==> Live() && disk.hot == old(disk.hot)[ACTIVE := []] && disk.fates == Left(old(disk.fates), 2)
      ensures !ok ==> !Live() && disk.hot == old(disk.hot)
      ensures FatesFrom(old(disk.fates), disk.fates)
    {
      hide Working, Left, FatesFrom, AllWork;
      ghost var script := disk.fates;
      FailsStay(script, 1, 2);
      ScriptStep(script, 0);
      ok := disk.Call();
      if !ok {
        stuck := true;
        return;
      }
      ScriptStep(script, 1);
      ok := disk.Call();
      if !ok {
        closed := true;
        return;
      }
      disk.hot := disk.hot[ACTIVE := []];
    }

    /** SealTo: flush, sync, close, rename, directory sync, reopen.  Failing up
        to the rename nothing has moved; failing after it the active file is
        the sealed one, no new one is open, and the log is dead until restart. */
    method SealTo(sealedName: Bytes) returns (ok: bool)
      requires Valid() && sealedName != ACTIVE
      modifies this`closed, this`stuck, disk`hot, disk`fates
      ensures Valid()
      ensures ok <==> old(Live()) && Working(old(disk.fates), 6)
      ensures ok ==> Live() && ACTIVE in old(disk.hot) && disk.hot == Moved(old(disk.hot), sealedName)[ACTIVE := []]
      ensures ok ==> disk.fates == Left(old(disk.fates), 6)
      ensures !ok && old(Live()) && Working(old(disk.fates), 4) ==>
                && !Live() && ACTIVE in old(disk.hot) && disk.hot == Moved(old(disk.hot), sealedName)
      ensures !(old(Live()) && Working(old(disk.fates), 4)) ==> disk.hot == old(disk.hot)
      ensures Live() ==> old(Live())
      ensures FatesFrom(old(disk.fates), disk.fates)
    {
      hide Working, Left, FatesFrom, AllWork;
      ghost var script := disk.fates;
      FailsStay(script, 3, 4);
      FailsStay(script, 4, 6);
      WorkingSplits(script, 4, 2);
      AllFrom(script);
      if closed || stuck { return false; }
      ok := Release();
      if !ok { return; }
      ScriptStep(script, 3);
      ok := disk.Call();
      if !ok {
        ok := disk.Call();
        closed := !ok;
        FromTwice(script, Left(script, 4), disk.fates);
        return false;
      }
      disk.hot := Moved(disk.hot, sealedName);
      ok := Reopen();
      FromTwice(script, Left(script, 4), disk.fates);
    }

    method Close()
      modifies this`closed
      ensures !Live()
    {
      closed := true;
    }
  }

  lemma {:induction false} AllWorkFrom(a: seq<Fate>, b: seq<Fate>)
    requires FatesFrom(a, b)
    ensures AllWork(a) ==> AllWork(b)
  {
    FromContents(a, b);
  }

  /** Whatever point the log was sealed at, the sealed file followed by the new
      active one is the frames that were there before. */
  lemma {:induction false} SealSplitsFrames(before: seq<Wal.Payload>, after: seq<Wal.Payload>)
    ensures Wal.Parse(Wal.Frames(before) + Wal.Frames(after)) == Wal.Intact(before + after)
    ensures Wal.Parse(Wal.Frames(before)) == Wal.Intact(before) && Wal.Parse(Wal.Frames(after)) == Wal.Intact(after)
  {
    Wal.RoundTrip(before);
    Wal.RoundTrip(after);
    Wal.FramesRead(before, Wal.Frames(after));
  }
}
