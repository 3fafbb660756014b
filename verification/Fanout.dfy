// At-least-once delivery of committed records to a sink, resumed across
// restarts by a durable cursor (internal/fanout/fanout.go).

module Fanout {
  import opened Bytes
  import opened Ocsf
  import opened Chain
  import opened Store

  /** One delivery: the global index and the record. */
  type Emission = (nat, Record)

  /** A script of calls after n of them. */
  function Rest(calls: seq<bool>, n: nat): seq<bool> {
    if n <= |calls| then calls[n..] else []
  }

  /** The first of the next n calls to fail; an exhausted script works. */
  function FirstFailure(calls: seq<bool>, n: nat): (f: Option<nat>)
    ensures f.Some? ==> f.value < n && f.value < |calls| && !calls[f.value]
    ensures var works := if f.Some? then f.value else n;
      forall i :: 0 <= i < works && i < |calls| ==> calls[i]
  {
    if n == 0 || calls == [] then None
    else if !calls[0] then Some(0)
    else
      var f :- FirstFailure(calls[1..], n - 1);
      Some(f + 1)
  }

  /** What outlives a pump: the cursor file, everything the sink ever received,
      the indexes given up as gaps, and a script of which calls succeed. */
  class Outside {
    var cursor: nat
    var sent: seq<Emission>
    ghost var missed: set<nat>
    var calls: seq<bool>

    constructor (calls: seq<bool>)
      ensures cursor == 0 && sent == [] && missed == {} && this.calls == calls
    {
      cursor, sent, missed, this.calls := 0, [], {}, calls;
    }

    /** The outcome of the next call; an exhausted script works. */
    method Call() returns (ok: bool)
      modifies this`calls
      ensures ok <==> old(calls) == [] || old(calls)[0]
      ensures calls == Rest(old(calls), 1)
    {
      ok := calls == [] || calls[0];
      if calls != [] { calls := calls[1..]; }
    }
  }

  predicate Delivered(sent: seq<Emission>, i: nat) {
    exists j :: 0 <= j < |sent| && sent[j].0 == i
  }

  /** Every index below n was delivered or counted in a gap. */
  ghost predicate Accounted(sent: seq<Emission>, missed: set<nat>, n: nat) {
    forall i: nat :: i < n ==> i in missed || Delivered(sent, i)
  }

  /** What was delivered is what was committed. */
  predicate Faithful(sent: seq<Emission>, log: seq<Record>) {
    forall j :: 0 <= j < |sent| ==> sent[j].0 < |log| && sent[j].1 == log[sent[j].0]
  }

  /** Strictly increasing, and below n. */
  predicate Rising(sent: seq<Emission>, n: nat) {
    && (forall i, j :: 0 <= i < j < |sent| ==> sent[i].0 < sent[j].0)
    && (forall j :: 0 <= j < |sent| ==> sent[j].0 < n)
  }

  /** Nothing delivered would be delivered again after a crash. */
  predicate Settled(sent: seq<Emission>, cursor: nat) {
    forall j :: 0 <= j < |sent| ==> sent[j].0 < cursor
  }

  /** Where delivery goes on, past what is no longer hot. */
  function Past(next: nat, offset: nat): nat {
    if next < offset then offset else next
  }

  /** The indexes a gap loses. */
  ghost function Gap(lo: nat, hi: nat): (g: set<nat>)
    ensures forall i: nat :: i in g <==> lo <= i < hi
    ensures |g| == if lo < hi then hi - lo else 0
  {
    if hi <= lo then {} else Gap(lo, hi - 1) + {hi - 1}
  }

  lemma {:induction false} EmitCounts(sent: seq<Emission>, missed: set<nat>, log: seq<Record>, born: nat, n: nat)
    requires n < |log| && born <= |sent|
    requires Accounted(sent, missed, n) && Faithful(sent, log) && Rising(sent[born..], n)
    ensures var sent' := sent + [(n, log[n])];
      Accounted(sent', missed, n + 1) && Faithful(sent', log) && Rising(sent'[born..], n + 1)
  {
    var sent' := sent + [(n, log[n])];
    assert sent'[born..] == sent[born..] + [(n, log[n])];
    forall i: nat | i < n + 1 ensures i in missed || Delivered(sent', i) {
      if i == n {
        assert sent'[|sent|].0 == n;
      } else if i !in missed {
        var j :| 0 <= j < |sent| && sent[j].0 == i;
        assert sent'[j].0 == i;
      }
    }
  }

  /** Admissions, and a reboot, only ever extend the log. */
  lemma {:induction false} StillFaithful(sent: seq<Emission>, log: seq<Record>, log': seq<Record>)
    requires Faithful(sent, log) && log <= log'
    ensures Faithful(sent, log')
  {}

  datatype Stop = Drained | SinkFailed | CursorFailed

  /** At most the last delivery could be repeated, and only if its cursor was not
      saved. */
  predicate SettledBut(sent: seq<Emission>, cursor: nat, stop: Stop) {
    if stop == CursorFailed then sent != [] && Settled(sent[..|sent| - 1], cursor) else Settled(sent, cursor)
  }

  /** One more delivery is in doubt until the cursor is past it. */
  lemma {:induction false} SettledMore(sent: seq<Emission>, cursor: nat, e: Emission)
    ensures Settled(sent, cursor) ==> SettledBut(sent + [e], cursor, CursorFailed)
    ensures Settled(sent, cursor) && cursor <= e.0 ==> Settled(sent + [e], e.0 + 1)
  {
    assert (sent + [e])[..|sent|] == sent;
  }

  lemma {:induction false} SettledStill(sent: seq<Emission>, cursor: nat)
    ensures Settled(sent, cursor) ==> SettledBut(sent, cursor, SinkFailed) && SettledBut(sent, cursor, Drained)
  {}

  /** How a delivery of n records ends, by the script: for each record one call
      of the sink and one save of the cursor. */
  function EndOf(calls: seq<bool>, n: nat): Stop {
    var f := FirstFailure(calls, 2 * n);
    if f.None? then Drained else if f.value % 2 == 0 then SinkFailed else CursorFailed
  }

  /** How many of them the sink has then taken. */
  function TakenBy(calls: seq<bool>, n: nat): (m: nat)
    ensures m <= n && (EndOf(calls, n) == CursorFailed ==> m > 0)
  {
    var f := FirstFailure(calls, 2 * n);
    if f.None? then n else (f.value + 1) / 2
  }

  /** The first n calls of a script work. */
  predicate Go(calls: seq<bool>, n: nat) {
    forall i :: 0 <= i < n && i < |calls| ==> calls[i]
  }

  /** In words: it is drained if every call works; the sink refused the record
      after those taken, or the save after the last one taken failed, and every
      call before worked. */
  lemma {:induction false} EndsWhere(calls: seq<bool>, n: nat)
    ensures var end, m := EndOf(calls, n), TakenBy(calls, n);
      && m <= n && (end == Drained <==> Go(calls, 2 * n)) && (end == Drained ==> m == n)
      && (end == SinkFailed ==> m < n && Go(calls, 2 * m) && !Go(calls, 2 * m + 1))
      && (end == CursorFailed ==> 0 < m && Go(calls, 2 * m - 1) && !Go(calls, 2 * m))
  {
    var f := FirstFailure(calls, 2 * n);
    if f.Some? { assert !calls[f.value] && f.value == 2 * (f.value / 2) + f.value % 2; }
  }

  lemma {:induction false} GoesOn(calls: seq<bool>, n: nat)
    ensures var rest := Rest(calls, n);
      && (Go(calls, n + 1) <==> Go(calls, n) && Go(rest, 1)) && (Go(calls, n + 2) <==> Go(calls, n) && Go(rest, 2))
      && Rest(rest, 2) == Rest(calls, n + 2)
  {
    var rest := Rest(calls, n);
    assert forall i :: 0 <= i < |rest| ==> rest[i] == calls[n + i];
  }

  /** Record i was refused, or it was taken and the save after it failed. */
  lemma {:induction false} EmitFails(calls: seq<bool>, n: nat, i: nat)
    requires i < n && Go(calls, 2 * i) && !Go(calls, 2 * i + 1)
    ensures EndOf(calls, n) == SinkFailed && TakenBy(calls, n) == i
  {
    assert FirstFailure(calls, 2 * n) == Some(2 * i);
  }

  lemma {:induction false} SaveFails(calls: seq<bool>, n: nat, i: nat)
    requires i < n && Go(calls, 2 * i + 1) && !Go(calls, 2 * i + 2)
    ensures EndOf(calls, n) == CursorFailed && TakenBy(calls, n) == i + 1
  {
    assert FirstFailure(calls, 2 * n) == Some(2 * i + 1);
  }

  lemma {:induction false} GoStart(calls: seq<bool>)
    ensures Go(calls, 0) && Rest(calls, 0) == calls
  {}

  lemma {:induction false} NoneFails(calls: seq<bool>, n: nat)
    requires Go(calls, 2 * n)
    ensures EndOf(calls, n) == Drained && TakenBy(calls, n) == n
  {}

  /** The emissions of n records from index `from` on. */
  function Batch(log: seq<Record>, from: nat, n: nat): seq<Emission>
    requires n > 0 ==> from + n <= |log|
  {
    seq(n, i requires 0 <= i < n => (from + i, log[from + i]))
  }

  lemma {:induction false} BatchStep(log: seq<Record>, from: nat, n: nat)
    requires from + n < |log|
    ensures Batch(log, from, n + 1) == Batch(log, from, n) + [(from + n, log[from + n])]
  {}

  lemma {:induction false} NothingTaken(log: seq<Record>, from: nat, sent: seq<Emission>)
    ensures sent + Batch(log, from, 0) == sent
  {}

  /** How many records there are from an index on. */
  function Due(log: seq<Record>, from: nat): nat {
    if from <= |log| then |log| - from else 0
  }

  /** A delivery from index `from` on, under a script. */
  ghost predicate Ran(log: seq<Record>, from: nat, calls: seq<bool>, stop: Stop, next: nat,
                      sent: seq<Emission>, sent': seq<Emission>)
  {
    var n := Due(log, from);
    && stop == EndOf(calls, n) && next == from + TakenBy(calls, n)
    && sent' == sent + Batch(log, from, TakenBy(calls, n))
  }

  lemma {:induction false} AllGo(calls: seq<bool>, k: nat, n: nat)
    requires forall call :: call in calls ==> call
    ensures EndOf(Rest(calls, k), n) == Drained && TakenBy(Rest(calls, k), n) == n
  {
    var rest := Rest(calls, k);
    forall i | 0 <= i < |rest| ensures rest[i] { assert rest[i] == calls[k + i] && rest[i] in calls; }
    NoneFails(Rest(calls, k), n);
  }

  /** When every call works, everything from there on is delivered, once and in
      order. */
  lemma {:induction false} AllDelivered(log: seq<Record>, from: nat, calls: seq<bool>, k: nat, stop: Stop, next: nat,
        sent: seq<Emission>, sent': seq<Emission>)
    requires Ran(log, from, Rest(calls, k), stop, next, sent, sent') && forall call :: call in calls ==> call
    ensures stop == Drained && next == Past(from, |log|) && sent' == sent + Batch(log, from, Due(log, from))
  {
    AllGo(calls, k, Due(log, from));
  }

  class Pump {
    const store: Store
    const outside: Outside
    var next: nat
    var gapTotal: nat
    /** Evidence: the size of each gap reported. */
    var reported: seq<nat>
    /** Deliveries before this pump existed. */
    ghost const born: nat

    /** Conservation, order and honesty of delivery. */
    ghost predicate Valid()
      reads `next, outside, store, store.acc, store.wal, store.wal.disk`hot
    {
      && store.Valid() && Tally(store.log, store.globalOffset)
    }

    ghost predicate Tally(log: seq<Record>, offset: nat)
      reads `next, outside
    {
      && outside.cursor <= next && born <= |outside.sent|
      && Accounted(outside.sent, outside.missed, next)
      && Faithful(outside.sent, log)
      && Rising(outside.sent[born..], next)
      && forall i :: i in outside.missed ==> i < offset
    }

    /** NewPump: an absent cursor is genesis. */
    constructor (store: Store, outside: Outside)
      requires store.Valid()
      requires Accounted(outside.sent, outside.missed, outside.cursor) && Faithful(outside.sent, store.log)
      requires forall i :: i in outside.missed ==> i < store.globalOffset
      ensures Valid() && this.store == store && this.outside == outside
      ensures next == outside.cursor && gapTotal == 0 && reported == [] && born == |outside.sent|
    {
      this.store, this.outside := store, outside;
      next, gapTotal, reported, born := outside.cursor, 0, [], |outside.sent|;
    }

    /** persistCursor. */
    method PersistCursor() returns (ok: bool)
      modifies outside`cursor, outside`calls
      ensures ok <==> old(outside.calls) == [] || old(outside.calls)[0]
      ensures outside.calls == Rest(old(outside.calls), 1)
      ensures outside.cursor == if ok then next else old(outside.cursor)
    {
      ok := outside.Call();
      if ok { outside.cursor := next; }
    }

    method SkipGap(offset: nat, ghost log: seq<Record>)
      requires Tally(log, offset)
      modifies this`next, this`gapTotal, this`reported, outside`cursor, outside`missed, outside`calls
      ensures Tally(log, offset) && outside.cursor in {old(outside.cursor), next}
      ensures outside.calls == Rest(old(outside.calls), if old(next) < offset then 1 else 0)
      ensures old(Settled(outside.sent, outside.cursor)) ==> Settled(outside.sent, outside.cursor)
      ensures var gap := if old(next) < offset then offset - old(next) else 0;
        && next == old(next) + gap && gapTotal == old(gapTotal) + gap
        && reported == old(reported) + (if gap > 0 then [gap] else [])
        && outside.missed == old(outside.missed) + Gap(old(next), offset)
    {
      if next < offset {
        var gap := offset - next;
        gapTotal := gapTotal + gap;
        outside.missed := outside.missed + Gap(next, offset);
        next := offset;
        var ok := PersistCursor();
        reported := reported + [gap];
      }
    }

    /** RunOnce: skip and report any rotated gap, then deliver the hot records
        in commit order. */
    method RunOnce() returns (stop: Stop)
      requires Valid()
      modifies this`next, this`gapTotal, this`reported, outside
      ensures Valid()
      ensures var was, from := old(next), Past(old(next), store.globalOffset);
        && Ran(store.log, from, Rest(old(outside.calls), if was < from then 1 else 0), stop, next,
               old(outside.sent), outside.sent)
        && gapTotal == old(gapTotal) + (from - was)
        && outside.missed == old(outside.missed) + Gap(was, store.globalOffset)
      ensures old(Settled(outside.sent, outside.cursor)) ==> SettledBut(outside.sent, outside.cursor, stop)
    {
      hide Accounted, Faithful, Rising, LeavesOf, Linked, Tracks, Ran, Settled, SettledBut, Rest, Gap, Tally;
      ghost var log, offset := store.log, store.globalOffset;
      SkipGap(store.globalOffset, log);
      var recs := store.RecordsFrom(next);
      stop := Deliver(recs, log, offset);
    }

    /** One record: the sink takes it if its call works, and then the cursor is
        saved if that call does. */
    method DeliverNext(rec: Record, ghost log: seq<Record>, ghost offset: nat) returns (stop: Option<Stop>)
      requires Tally(log, offset) && offset <= next < |log| && rec == log[next]
      modifies this`next, outside
      ensures Tally(log, offset) && outside.missed == old(outside.missed)
      ensures var calls, taken := old(outside.calls), Go(old(outside.calls), 1);
        && stop == (if !taken then Some(SinkFailed) else if !Go(calls, 2) then Some(CursorFailed) else None)
        && next == old(next) + (if taken then 1 else 0)
        && outside.sent == old(outside.sent) + (if taken then [(old(next), rec)] else [])
        && outside.cursor == (if stop == None then next else old(outside.cursor))
        && (stop == None ==> outside.calls == Rest(calls, 2))
      ensures old(Settled(outside.sent, outside.cursor)) ==>
                if stop == Some(CursorFailed) then SettledBut(outside.sent, outside.cursor, CursorFailed)
                else Settled(outside.sent, outside.cursor)
    {
      hide Accounted, Faithful, Rising, Settled, SettledBut;
      var ok := outside.Call();
      if !ok { return Some(SinkFailed); }
      EmitCounts(outside.sent, outside.missed, log, born, next);
      SettledMore(outside.sent, outside.cursor, (next, rec));
      outside.sent := outside.sent + [(next, rec)];
      next := next + 1;
      ok := PersistCursor();
      return if ok then None else Some(CursorFailed);
    }

    /** The delivery loop. */
    method Deliver(recs: seq<Record>, ghost log: seq<Record>, ghost offset: nat) returns (stop: Stop)
      requires Tally(log, offset) && next >= offset
      requires recs == if next <= |log| then log[next..] else []
      modifies this`next, outside
      ensures Tally(log, offset) && outside.missed == old(outside.missed)
      ensures Ran(log, old(next), old(outside.calls), stop, next, old(outside.sent), outside.sent)
      ensures next >= old(next)
      ensures var saved := if stop == CursorFailed then next - 1 else next;
        outside.cursor == if saved == old(next) then old(outside.cursor) else saved
      ensures old(Settled(outside.sent, outside.cursor)) ==> SettledBut(outside.sent, outside.cursor, stop)
    {
      hide Accounted, Faithful, Rising, Go, Rest, EndOf, TakenBy, Batch, Settled, SettledBut, Tally;
      ghost var from, script, sent := next, outside.calls, outside.sent;
      GoStart(script);
      NothingTaken(log, from, sent);
      for i := 0 to |recs|
        invariant Tally(log, offset) && next == from + i && outside.missed == old(outside.missed)
        invariant outside.sent == sent + Batch(log, from, i)
        invariant Go(script, 2 * i) && outside.calls == Rest(script, 2 * i)
        invariant outside.cursor == if i == 0 then old(outside.cursor) else next
        invariant old(Settled(outside.sent, outside.cursor)) ==> Settled(outside.sent, outside.cursor)
      {
        SettledStill(outside.sent, outside.cursor);
        BatchStep(log, from, i);
        ConcatAssociates(sent, Batch(log, from, i), [(next, recs[i])]);
        GoesOn(script, 2 * i);
        var end := DeliverNext(recs[i], log, offset);
        if end == Some(SinkFailed) {
          EmitFails(script, |recs|, i);
          return SinkFailed;
        }
        if end.Some? {
          SaveFails(script, |recs|, i);
          return CursorFailed;
        }
      }
      NoneFails(script, |recs|);
      SettledStill(outside.sent, outside.cursor);
      return Drained;
    }

    /** Between runs the daemon goes on admitting. */
    method Admit(source: Text, env: PublishEnvelope, now: I64) returns (res: AdmitResult)
      requires Valid()
      modifies store, store.acc, store.wal`stuck, store.wal.disk`hot, store.wal.disk`fates
      ensures Valid() && store.log == LogAfter(old(store.log), res)
    {
      ghost var log := store.log;
      res := store.Admit(source, env, now);
      StillFaithful(outside.sent, log, store.log);
    }

    method Lag() returns (n: nat)
      requires Valid()
      ensures n == if next < |store.log| then |store.log| - next else 0
    {
      var total := store.GlobalCount();
      return if next >= total then 0 else total - next;
    }
  }

  /** The daemon dies and boots anew, perhaps with more of the log rotated: the
      new pump takes over with nothing lost and nothing counted twice. */
  method Restart(p: Pump, rebooted: Store) returns (q: Pump)
    requires p.Valid() && rebooted.Valid()
    requires p.store.log <= rebooted.log && p.store.globalOffset <= rebooted.globalOffset
    ensures q.Valid() && q.store == rebooted && q.outside == p.outside && q.next == p.outside.cursor
  {
    StillFaithful(p.outside.sent, p.store.log, rebooted.log);
    q := new Pump(rebooted, p.outside);
  }
}
