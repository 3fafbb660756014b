// Moving one sealed segment from hot to cold as copy, verify, rename, remove
// (internal/retention/rotate.go).  Any filesystem call may fail, which is also
// how process death at that call looks to the files: nothing after it happens.

module Rotation {
  import opened Bytes
  import opened Crypto
  import opened Replay
  import opened Disk
  import Wal

  datatype Status = Done | Divergent | Failed

  /** Both tiers at one moment. */
  datatype Tiers = Tiers(hot: Dir, cold: Dir)

  // ---------- what an attempt may do to the tiers ----------

  /** Hot and cold hold the segment with the same bytes. */
  predicate Twins(t: Tiers, name: Bytes) {
    name in t.hot && name in t.cold && t.hot[name] == t.cold[name]
  }

  /** The attempt copied: the cold copy appeared, intact and identical unless
      a garbled write happened to be a SHA-256 collision. */
  predicate Copied(t: Tiers, t': Tiers, name: Bytes) {
    && name in t.hot && name !in t.cold && name in t'.cold
    && t'.hot == t.hot && t'.cold == t.cold[name := t'.cold[name]]
    && Wal.Parse(t.hot[name]).Intact?
    && (t'.cold[name] == t.hot[name] || Collision((t'.cold[name], t.hot[name])))
  }

  /** The attempt removed a hot copy that was identical to the cold one. */
  predicate Removed(t: Tiers, t': Tiers, name: Bytes) {
    Twins(t, name) && t'.hot == t.hot - {name} && t'.cold == t.cold
  }

  predicate Differ(t: Tiers, name: Bytes) {
    name in t.hot && name in t.cold && t.hot[name] != t.cold[name]
  }

  /** How an attempt ends when no call fails: refused for a divergence or for a
      hot segment whose frames are bad, done otherwise. */
  function Unhindered(t: Tiers, name: Bytes): Status {
    if Differ(t, name) then Divergent
    else if name in t.hot && name !in t.cold && Wal.Parse(t.hot[name]).Corrupt? then Failed
    else Done
  }

  predicate AttemptEffect(t: Tiers, t': Tiers, name: Bytes) {
    t' == t || Copied(t, t', name) || Removed(t, t', name)
  }

  // ---------- the filesystem calls ----------

  /** A script, call by call. */
  lemma {:induction false} FirstFour(fates: seq<Fate>)
    ensures var one, two, three := Left(fates, 1), Left(fates, 2), Left(fates, 3);
      && Left(one, 1) == two && Left(two, 1) == three
      && (Working(fates, 2) <==> Working(fates, 1) && Working(one, 1))
      && (Working(fates, 3) <==> Working(fates, 2) && Working(two, 1))
      && (Working(fates, 4) <==> Working(fates, 3) && Working(three, 1))
  {
    WorkingSplits(fates, 1, 1);
    WorkingSplits(fates, 2, 1);
    WorkingSplits(fates, 3, 1);
  }

  /** CreateTemp: an attempt number no temporary has. */
  method FreshAttempt(temps: map<TempName, Bytes>) returns (n: nat)
    ensures forall t :: t in temps ==> t.1 < n
  {
    n := 0;
    var left := temps.Keys;
    while left != {}
      invariant left <= temps.Keys
      invariant forall t :: t in temps && t !in left ==> t.1 < n
      decreases left
    {
      var t: TempName :| t in left;
      if t.1 >= n { n := t.1 + 1; }
      left := left - {t};
    }
  }

  /** What a write leaves, as its fate has it. */
  function Written(f: Fate, data: Bytes): Bytes {
    match f
    case Works => data
    case Garbled(content) => content
    case Fails(torn) => torn
  }

  lemma {:induction false} WrittenIs(fates: seq<Fate>, data: Bytes)
    ensures var f := if fates == [] then Works else fates[0]; var content := Written(f, data);
      && (!f.Fails? <==> Working(fates, 1)) && (AllWork(fates) ==> f == Works && content == data)
      && (!f.Fails? ==> content == data || Garbled(content) in fates)
  {
    if fates != [] { assert fates[0] in fates; }
  }

  /** WriteTemp: the data, or other bytes if the medium garbled them, or a torn
      file and an error. */
  method WriteTemp(disk: Disk, name: Bytes, data: Bytes) returns (tmp: TempName, ok: bool)
    modifies disk`temps, disk`fates
    ensures tmp.0 == name && tmp !in old(disk.temps)
    ensures disk.temps == old(disk.temps)[tmp := Written(old(disk.Next()), data)]
    ensures ok <==> Working(old(disk.fates), 1)
    ensures ok ==> disk.temps[tmp] == data || Garbled(disk.temps[tmp]) in old(disk.fates)
    ensures AllWork(old(disk.fates)) ==> ok && disk.temps[tmp] == data
    ensures disk.fates == Left(old(disk.fates), 1) && FatesFrom(old(disk.fates), disk.fates)
  {
    hide FatesFrom, AllWork, Working;
    LeftIsFrom(disk.fates, 1);
    WrittenIs(disk.fates, data);
    var n := FreshAttempt(disk.temps);
    tmp := (name, n);
    var f := disk.Consume();
    match f {
      case Works => disk.temps := disk.temps[tmp := data];
      case Garbled(content) => disk.temps := disk.temps[tmp := content];
      case Fails(torn) => disk.temps := disk.temps[tmp := torn];
    }
    ok := !f.Fails?;
  }

  /** Only temporaries of the segment are gone. */
  predicate Discarded(before: map<TempName, Bytes>, after: map<TempName, Bytes>, name: Bytes) {
    && (forall t :: t in after ==> t in before && after[t] == before[t])
    && (forall t :: t in before && t.0 != name ==> t in after)
  }

  /** The temporaries of a segment. */
  function TempsOf(temps: map<TempName, Bytes>, name: Bytes): set<TempName> {
    set t | t in temps && t.0 == name
  }

  lemma {:induction false} DiscardedNone(temps: map<TempName, Bytes>, name: Bytes)
    ensures Discarded(temps, temps, name)
  {}

  lemma {:induction false} DiscardedMore(before: map<TempName, Bytes>, temps: map<TempName, Bytes>, name: Bytes,
        t: TempName)
    requires Discarded(before, temps, name) && t in TempsOf(temps, name)
    ensures Discarded(before, temps - {t}, name) && TempsOf(temps - {t}, name) == TempsOf(temps, name) - {t}
  {}

  lemma {:induction false} WithoutBoth(a: set<TempName>, b: set<TempName>, t: TempName)
    requires t in b && b <= a
    ensures (a - {t} == b - {t} <==> a == b) && a != b - {t} && b - {t} <= a - {t}
    ensures |b - {t}| == |b| - 1
  {
    assert a == a - {t} + {t} && b == b - {t} + {t};
  }

  /** Temporaries of crashed attempts are discarded, one call each; a removal that
      fails (an object-locked orphan) is ignored. */
  method DiscardTemps(disk: Disk, name: Bytes)
    modifies disk`temps, disk`fates
    ensures Discarded(old(disk.temps), disk.temps, name)
    ensures disk.fates == Left(old(disk.fates), |TempsOf(old(disk.temps), name)|)
    ensures TempsOf(disk.temps, name) == {} <==> Working(old(disk.fates), |TempsOf(old(disk.temps), name)|)
  {
    hide Working, Left, Discarded, TempsOf;
    ghost var script := disk.fates;
    var tmps := TempsOf(disk.temps, name);
    ghost var all := |tmps|;
    var n := 0;
    ScriptStep(script, 0);
    DiscardedNone(disk.temps, name);
    while tmps != {}
      invariant tmps <= TempsOf(disk.temps, name) && n + |tmps| == all
      invariant Discarded(old(disk.temps), disk.temps, name)
      invariant disk.fates == Left(script, n)
      invariant TempsOf(disk.temps, name) == tmps <==> Working(script, n)
      decreases tmps
    {
      var t: TempName :| t in tmps;
      ScriptStep(script, n);
      DiscardedMore(old(disk.temps), disk.temps, name, t);
      WithoutBoth(TempsOf(disk.temps, name), tmps, t);
      var ok := disk.Call();
      if ok { disk.temps := disk.temps - {t}; }
      tmps := tmps - {t};
      n := n + 1;
    }
  }

  function Now(disk: Disk): Tiers
    reads disk`hot, disk`cold
  {
    Tiers(disk.hot, disk.cold)
  }

  /** How reconciling ends, by the script left after the temporaries: the two
      copies are read and compared, and an identical hot one is removed. */
  function ResumeEnd(t: Tiers, name: Bytes, left: seq<Fate>): Status {
    if name !in t.hot || name !in t.cold then Done
    else if !Working(left, 2) then Failed
    else if t.cold[name] != t.hot[name] then Divergent
    else if Working(left, 4) then Done
    else Failed
  }

  function ResumeTiers(t: Tiers, name: Bytes, left: seq<Fate>): Tiers {
    if name in t.hot && name in t.cold && t.cold[name] == t.hot[name] && Working(left, 3)
    then Tiers(t.hot - {name}, t.cold)
    else t
  }

  /** ResumeSegment: reconcile what a crashed attempt left. */
  method ResumeSegment(disk: Disk, name: Bytes) returns (st: Status)
    modifies disk`hot, disk`temps, disk`fates
    ensures var left := Left(old(disk.fates), |TempsOf(old(disk.temps), name)|);
      && st == ResumeEnd(old(Now(disk)), name, left) && Now(disk) == ResumeTiers(old(Now(disk)), name, left)
      && (!(name in old(disk.hot) && name in disk.cold) ==> disk.fates == left)
    ensures Discarded(old(disk.temps), disk.temps, name)
    ensures FatesFrom(old(disk.fates), disk.fates)
  {
    hide Working, Left, FatesFrom, Discarded, TempsOf;
    ScriptsChain();
    ghost var n := |TempsOf(disk.temps, name)|;
    LeftIsFrom(disk.fates, n);
    DiscardTemps(disk, name);
    ghost var left := disk.fates;
    FirstFour(left);
    if name !in disk.cold || name !in disk.hot { return Done; }
    var ok := disk.Call();
    if !ok { return Failed; }
    ok := disk.Call();
    if !ok { return Failed; }
    if disk.cold[name] != disk.hot[name] { return Divergent; }
    ok := disk.Call();
    if !ok { return Failed; }
    disk.hot := disk.hot - {name};
    ok := disk.Call();
    if !ok { return Failed; }
    return Done;
  }

  /** The rename onto the cold name and the directory sync. */
  method RenameTemp(disk: Disk, tmp: TempName) returns (ok: bool)
    requires tmp in disk.temps
    modifies disk`cold, disk`temps, disk`fates
    ensures disk.cold ==
      if Working(old(disk.fates), 1) then old(disk.cold[tmp.0 := disk.temps[tmp]]) else old(disk.cold)
    ensures disk.temps == if Working(old(disk.fates), 1) then old(disk.temps) - {tmp} else old(disk.temps)
    ensures ok <==> Working(old(disk.fates), 1) && Working(Left(old(disk.fates), 1), 1)
    ensures FatesFrom(old(disk.fates), disk.fates)
    ensures AllWork(old(disk.fates)) ==> ok
  {
    hide Working, Left, FatesFrom, AllWork;
    ScriptsChain();
    ok := disk.Call();
    if !ok { return; }
    disk.cold := disk.cold[tmp.0 := disk.temps[tmp]];
    disk.temps := disk.temps - {tmp};
    ok := disk.Call();
  }

  /** The bytes a copy left, the second call of its script. */
  function Stored(left: seq<Fate>, data: Bytes): Bytes {
    Written(if |left| > 1 then left[1] else Works, data)
  }

  /** The segment is read, its frames hold, and what the medium stored has its
      digest. */
  predicate Verifies(data: Bytes, left: seq<Fate>) {
    Working(left, 4) && Wal.Parse(data).Intact? && SHA256(Stored(left, data)) == SHA256(data)
  }

  /** How a copy ends: its calls read, write, sync, read back, rename and sync. */
  function CopyEnd(t: Tiers, name: Bytes, left: seq<Fate>): Status
    requires name in t.hot
  {
    if Verifies(t.hot[name], left) && Working(left, 6) then Done else Failed
  }

  function CopyTiers(t: Tiers, name: Bytes, left: seq<Fate>): Tiers
    requires name in t.hot
  {
    if Verifies(t.hot[name], left) && Working(left, 5)
    then Tiers(t.hot, t.cold[name := Stored(left, t.hot[name])])
    else t
  }

  lemma {:induction false} NextTwo(left: seq<Fate>)
    ensures (Working(left, 5) <==> Working(left, 4) && Working(Left(left, 4), 1))
    ensures (Working(left, 6) <==> Working(left, 5) && Working(Left(Left(left, 4), 1), 1))
    ensures Left(Left(left, 3), 1) == Left(left, 4)
    ensures Left(left, 1) == (if |left| > 1 then left[1..] else [])
  {
    WorkingSplits(left, 4, 1);
    WorkingSplits(left, 5, 1);
    WorkingSplits(left, 3, 1);
  }

  method CopyVerifyRename(disk: Disk, name: Bytes) returns (st: Status)
    requires name in disk.hot && name !in disk.cold
    modifies disk`cold, disk`temps, disk`fates
    ensures Now(disk) == old(Now(disk)) || Copied(old(Now(disk)), Now(disk), name)
    ensures Copied(old(Now(disk)), Now(disk), name)
        ==> disk.cold[name] == disk.hot[name] || Garbled(disk.cold[name]) in old(disk.fates)
    ensures st == CopyEnd(old(Now(disk)), name, old(disk.fates))
    ensures Now(disk) == CopyTiers(old(Now(disk)), name, old(disk.fates)) && st != Divergent
    ensures st == Done ==> Copied(old(Now(disk)), Now(disk), name)
    ensures FatesFrom(old(disk.fates), disk.fates)
    ensures AllWork(old(disk.fates)) ==> st == if Wal.Parse(disk.hot[name]).Intact? then Done else Failed
  {
    hide Working, Left, FatesFrom, AllWork, Wal.Parse;
    ScriptsChain();
    FirstFour(disk.fates);
    NextTwo(disk.fates);
    var ok := disk.Call();
    if !ok { return Failed; }
    var hotBytes := disk.hot[name];
    var frames := Wal.ReadAll(hotBytes);
    if frames.Corrupt? { return Failed; }
    FromContents(old(disk.fates), disk.fates);
    var tmp;
    tmp, ok := WriteTemp(disk, name, hotBytes);
    if !ok { return Failed; }
    ok := disk.Call();
    if !ok { return Failed; }
    ok := disk.Call();
    if !ok { return Failed; }
    var coldBytes := disk.temps[tmp];
    if SHA256(coldBytes) != SHA256(hotBytes) { return Failed; }
    ok := RenameTemp(disk, tmp);
    if !ok { return Failed; }
    return Done;
  }

  /** How an attempt ends, by the script left after the temporaries. */
  function AttemptEnd(t: Tiers, name: Bytes, left: seq<Fate>): Status {
    if name in t.hot && name !in t.cold then CopyEnd(t, name, left) else ResumeEnd(t, name, left)
  }

  function AttemptTiers(t: Tiers, name: Bytes, left: seq<Fate>): Tiers {
    if name in t.hot && name !in t.cold then CopyTiers(t, name, left) else ResumeTiers(t, name, left)
  }

  /** Two copies: differing ones are reported if both can be read, and identical
      ones are done with if the removal and its sync work too. */
  lemma {:induction false} ResumedExactly(t: Tiers, name: Bytes, left: seq<Fate>)
    requires name in t.hot && name in t.cold
    ensures var end, same := AttemptEnd(t, name, left), t.hot[name] == t.cold[name];
      && (end == Divergent <==> !same && Working(left, 2)) && (end == Done <==> same && Working(left, 4))
      && (name !in AttemptTiers(t, name, left).hot <==> same && Working(left, 3))
      && AttemptTiers(t, name, left).cold == t.cold
  {
    FailsStay(left, 2, 4);
  }

  /** A hot one alone: copied if its frames hold, what the medium stored has its
      digest, and no call up to the rename fails; done if the sync works too. */
  lemma {:induction false} CopiedExactly(t: Tiers, name: Bytes, left: seq<Fate>)
    requires name in t.hot && name !in t.cold
    ensures var end, t' := AttemptEnd(t, name, left), AttemptTiers(t, name, left); var data := t.hot[name];
      var stored := Written(if |left| > 1 then left[1] else Works, data);
      var good := Wal.Parse(data).Intact? && SHA256(stored) == SHA256(data);
      && (end == Done <==> good && Working(left, 6)) && end != Divergent
      && (name in t'.cold <==> good && Working(left, 5)) && (name in t'.cold ==> t'.cold[name] == stored)
      && t'.hot == t.hot
  {
    hide Wal.Parse;
    FailsStay(left, 4, 5);
    FailsStay(left, 4, 6);
  }

  /** When nothing fails it is refused only for what the files hold. */
  lemma {:induction false} AttemptUnhindered(t: Tiers, name: Bytes, left: seq<Fate>)
    requires AllWork(left)
    ensures AttemptEnd(t, name, left) == Unhindered(t, name)
    ensures name in t.hot && name !in t.cold && Wal.Parse(t.hot[name]).Intact? ==>
              AttemptTiers(t, name, left) == Tiers(t.hot, t.cold[name := t.hot[name]])
    ensures name in t.hot && name in t.cold && t.hot[name] == t.cold[name] ==>
              AttemptTiers(t, name, left) == Tiers(t.hot - {name}, t.cold)
  {
    hide Wal.Parse;
    forall n: nat ensures Working(left, n) { LeftIsFrom(left, n); }
    if |left| > 1 { assert left[1] in left; }
  }

  /** Whether an attempt comes to a good end, from the files, the temporaries and
      the script. */
  predicate WouldCopy(t: Tiers, temps: map<TempName, Bytes>, fates: seq<Fate>, name: Bytes) {
    AttemptEnd(t, name, Left(fates, |TempsOf(temps, name)|)) == Done
  }

  /** RotateCopy: through the verified rename, leaving the hot copy, unless the
      attempt found both copies and finished an earlier one. */
  method RotateCopy(disk: Disk, name: Bytes) returns (st: Status)
    modifies disk`hot, disk`cold, disk`temps, disk`fates
    ensures var left := Left(old(disk.fates), |TempsOf(old(disk.temps), name)|);
      st == AttemptEnd(old(Now(disk)), name, left) && Now(disk) == AttemptTiers(old(Now(disk)), name, left)
    ensures AttemptEffect(old(Now(disk)), Now(disk), name)
    ensures st == Done && name in disk.hot ==> Copied(old(Now(disk)), Now(disk), name)
    ensures Copied(old(Now(disk)), Now(disk), name)
        ==> disk.cold[name] == disk.hot[name] || Garbled(disk.cold[name]) in old(disk.fates)
    ensures st == Divergent ==> Differ(Now(disk), name) && Now(disk) == old(Now(disk))
    ensures FatesFrom(old(disk.fates), disk.fates)
    ensures AllWork(old(disk.fates)) ==> st == Unhindered(old(Now(disk)), name)
  {
    hide FatesFrom, AllWork, Discarded, TempsOf, Wal.Parse, CopyEnd, CopyTiers;
    ScriptsChain();
    ghost var n := |TempsOf(disk.temps, name)|;
    LeftIsFrom(disk.fates, n);
    if AllWork(disk.fates) { AttemptUnhindered(Now(disk), name, Left(disk.fates, n)); }
    FirstFour(Left(disk.fates, n));
    st := ResumeSegment(disk, name);
    if st != Done { return; }
    if name !in disk.hot { return Done; }
    FromContents(old(disk.fates), disk.fates);
    st := CopyVerifyRename(disk, name);
  }

  /** FinishRotation: remove the hot copy of a segment whose cold copy is
      complete; nothing to do if it is gone. */
  method FinishRotation(disk: Disk, name: Bytes) returns (ok: bool)
    modifies disk`hot, disk`fates
    ensures disk.hot == if Working(old(disk.fates), 1) then old(disk.hot) - {name} else old(disk.hot)
    ensures ok <==> name !in old(disk.hot) || Working(old(disk.fates), 2)
    ensures FatesFrom(old(disk.fates), disk.fates)
    ensures AllWork(old(disk.fates)) ==> ok && Working(old(disk.fates), 1)
  {
    hide Working, Left, FatesFrom;
    ScriptsChain();
    ScriptStep(disk.fates, 1);
    LeftIsFrom(disk.fates, 1);
    if name !in disk.hot {
      assert disk.hot - {name} == disk.hot;
      return true;
    }
    ok := disk.Call();
    if !ok { return false; }
    disk.hot := disk.hot - {name};
    ok := disk.Call();
  }

  /** The cold copy is the hot one, or garbled into a SHA-256 collision. */
  predicate Verified(t: Tiers, name: Bytes) {
    name in t.hot && name in t.cold && (t.cold[name] == t.hot[name] || Collision((t.cold[name], t.hot[name])))
  }

  /** FinishRotation, called where a copy has been verified. */
  predicate FinishEffect(t: Tiers, t': Tiers, name: Bytes) {
    t' == t || (Verified(t, name) && t'.hot == t.hot - {name} && t'.cold == t.cold)
  }

  /** Rotate: copy, then remove. */
  method Rotate(disk: Disk, name: Bytes) returns (st: Status, ghost mid: Tiers)
    modifies disk`hot, disk`cold, disk`temps, disk`fates
    ensures mid == AttemptTiers(old(Now(disk)), name, Left(old(disk.fates), |TempsOf(old(disk.temps), name)|))
    ensures !WouldCopy(old(Now(disk)), old(disk.temps), old(disk.fates), name) ==> st != Done && Now(disk) == mid
    ensures AttemptEffect(old(Now(disk)), mid, name)
    ensures FinishEffect(mid, Now(disk), name)
    ensures st == Done ==> name !in disk.hot
    ensures AllWork(old(disk.fates)) ==> st == Unhindered(old(Now(disk)), name)
  {
    hide FatesFrom, AttemptEnd, AttemptTiers, TempsOf, Left, Wal.Parse;
    ScriptsChain();
    st := RotateCopy(disk, name);
    mid := Now(disk);
    if st != Done { return; }
    var ok := FinishRotation(disk, name);
    if !ok { st := Failed; }
  }

  // ---------- never neither, over any number of attempts ----------

  /** One call on one segment, ending or crashing anywhere. */
  datatype Op = TryCopy(name: Bytes) | Finish(name: Bytes)

  predicate Effect(t: Tiers, t': Tiers, op: Op) {
    match op
    case TryCopy(name) => AttemptEffect(t, t', name)
    case Finish(name) => FinishEffect(t, t', name)
  }

  predicate History(ts: seq<Tiers>, ops: seq<Op>) {
    |ts| == |ops| + 1 && forall i :: 0 <= i < |ops| ==> Effect(ts[i], ts[i + 1], ops[i])
  }

  /** Some tier has the whole segment. */
  predicate Kept(t: Tiers, name: Bytes, content: Bytes) {
    (name in t.hot && t.hot[name] == content) || (name in t.cold && t.cold[name] == content)
  }

  predicate CollidesAt(t: Tiers, name: Bytes) {
    name in t.hot && name in t.cold && Collision((t.cold[name], t.hot[name]))
  }

  /** Over any run of copies and removals, of any segments, each ending or
      crashing anywhere, no segment is ever in neither tier, unless at some
      point its two copies were a SHA-256 collision. */
  lemma {:induction false} NeverNeither(ts: seq<Tiers>, ops: seq<Op>, name: Bytes, content: Bytes)
    requires History(ts, ops) && Kept(ts[0], name, content)
    ensures Kept(ts[|ops|], name, content) || exists i :: 0 <= i < |ops| && CollidesAt(ts[i], name)
    decreases |ops|
  {
    if ops != [] {
      var n := |ops| - 1;
      var before := ts[..n + 1];
      NeverNeither(before, ops[..n], name, content);
      if i :| 0 <= i < n && CollidesAt(before[i], name) {
        assert CollidesAt(ts[i], name);
      } else {
        assert Effect(ts[n], ts[n + 1], ops[n]);
        if ops[n] == Finish(name) && ts[n + 1] != ts[n] && ts[n].cold[name] != ts[n].hot[name] {
          assert CollidesAt(ts[n], name);
        }
      }
    }
  }

  /** Two complete copies that differ are evidence: no run of attempts, however
      many and however they end, alters either. */
  lemma {:induction false} DivergentUntouched(ts: seq<Tiers>, ops: seq<Op>, name: Bytes)
    requires History(ts, ops) && Differ(ts[0], name)
    requires forall i :: 0 <= i < |ops| ==> ops[i] != Finish(name)
    ensures var t := ts[|ops|];
      Differ(t, name) && t.hot[name] == ts[0].hot[name] && t.cold[name] == ts[0].cold[name]
    decreases |ops|
  {
    if ops != [] {
      var n := |ops| - 1;
      DivergentUntouched(ts[..n + 1], ops[..n], name);
      assert Effect(ts[n], ts[n + 1], ops[n]);
    }
  }
}
