// The state the retention manager keeps: how the sealed segments and the
// active log lie on the two tiers, and what the checkpoint says of them.  Each
// step of the protocol is shown here to keep it; Manager takes the steps.

module Retention {
  import opened Bytes
  import opened Ocsf
  import opened Chain
  import opened Segments
  import opened Replay
  import opened Disk
  import opened Rotation
  import Wal

  /** The committed records of sealed segments, segment by segment. */
  type SegmentList = seq<seq<Record>>

  function Upto(segs: SegmentList, k: nat): seq<Record>
    requires k <= |segs|
  {
    Flatten(segs[..k])
  }

  lemma {:induction false} UptoSteps(segs: SegmentList, k: nat)
    requires k < |segs|
    ensures Upto(segs, k + 1) == Upto(segs, k) + segs[k]
  {
    assert Init(segs[..k + 1]) == segs[..k];
  }

  lemma {:induction false} UptoStays(segs: SegmentList, more: seq<Record>, k: nat)
    requires k <= |segs|
    ensures Upto(segs + [more], k) == Upto(segs, k)
  {
    assert (segs + [more])[..k] == segs[..k];
  }

  // ---------- the files ----------

  /** Where sealed segment i lies when the first k are rotated.  Those are cold,
      with at most an identical hot leftover; segment k may be part-way: cold
      too, or even cold only; the later ones are hot alone. */
  predicate Slot(t: Tiers, segs: SegmentList, k: nat, i: nat)
    requires i < |segs|
  {
    && segs[i] != [] && AllStorable(segs[i])
    && (FileName(i) in t.hot ==> Holds(t.hot, segs, i))
    && (FileName(i) in t.cold ==> Holds(t.cold, segs, i))
    && (i < k ==> FileName(i) in t.cold)
    && (i == k ==> FileName(i) in t.hot || FileName(i) in t.cold)
    && (i > k ==> FileName(i) in t.hot && FileName(i) !in t.cold)
  }

  /** A seal interrupted between rename and reopen leaves no active file; the
      segment it made is then still hot. */
  predicate NotBare(t: Tiers, segs: SegmentList) {
    ACTIVE in t.hot || segs == [] || FileName(|segs| - 1) in t.hot
  }

  ghost predicate Layout(t: Tiers, segs: SegmentList, k: nat, active: seq<Record>) {
    && k <= |segs| < TWO64
    && OnlySegments(t.hot, |segs|) && OnlySegments(t.cold, |segs|)
    && (forall i: nat {:trigger Slot(t, segs, k, i)} :: i < |segs| ==> Slot(t, segs, k, i))
    && ActiveFile(t.hot, active) && NotBare(t, segs)
  }

  /** Nothing was ever logged here. */
  predicate Unstarted(t: Tiers, segs: SegmentList) {
    ACTIVE !in t.hot && segs == []
  }

  lemma {:induction false} BareExactlyUnstarted(t: Tiers, segs: SegmentList, k: nat, active: seq<Record>)
    requires Layout(t, segs, k, active)
    ensures Bare(t.hot) <==> Unstarted(t, segs)
  {
    if segs != [] { FileNameIndex(|segs| - 1); }
  }

  /** Segment k has left hot but is not yet recorded as rotated. */
  predicate Limbo(t: Tiers, segs: SegmentList, k: nat) {
    k < |segs| && FileName(k) !in t.hot
  }

  lemma {:induction false} StartsAudit(name: Bytes)
    requires IsSegmentName(name)
    ensures name[5] == PREFIX[5]
  {
    assert name[..|PREFIX|][5] == name[5];
  }

  lemma {:induction false} FileNameIsNotActive(i: nat)
    ensures FileName(i) != ACTIVE && !IsSegmentName(ACTIVE)
  {
    assert ACTIVE[5] != PREFIX[5];
    if IsSegmentName(ACTIVE) { StartsAudit(ACTIVE); }
    FileNameIndex(i);
  }

  lemma {:induction false} NamesApart(i: nat, j: nat)
    requires i != j
    ensures FileName(i) != FileName(j)
  {
    if FileName(i) == FileName(j) { NamesDistinct(i, j); }
  }

  /** How many segments the cold tier holds. */
  function ColdCount(t: Tiers, segs: SegmentList, k: nat): nat {
    if k < |segs| && FileName(k) in t.cold then k + 1 else k
  }

  lemma {:induction false} ColdExactly(t: Tiers, segs: SegmentList, k: nat, active: seq<Record>)
    requires Layout(t, segs, k, active)
    ensures var c := ColdCount(t, segs, k);
      c <= |segs| && OnlySegments(t.cold, c) && HoldsRange(t.cold, segs[..c], 0, c)
  {
    var c := ColdCount(t, segs, k);
    forall i | 0 <= i < c ensures Holds(t.cold, segs[..c], i) {
      assert Slot(t, segs, k, i);
    }
    forall name | name in t.cold && IsSegmentName(name) ensures exists i: nat :: i < c && name == FileName(i) {
      var i: nat :| i < |segs| && name == FileName(i);
      assert Slot(t, segs, k, i);
    }
  }

  lemma {:induction false} HotFrom(t: Tiers, segs: SegmentList, k: nat, active: seq<Record>, c: nat)
    requires Layout(t, segs, k, active) && k <= c <= |segs| && (c == k ==> !Limbo(t, segs, k))
    ensures HoldsRange(t.hot, segs, c, |segs|)
    ensures forall i :: 0 <= i < c && FileName(i) in t.hot ==> Holds(t.hot, segs, i)
  {
    forall i | c <= i < |segs| ensures Holds(t.hot, segs, i) {
      assert Slot(t, segs, k, i);
    }
    forall i | 0 <= i < c && FileName(i) in t.hot ensures Holds(t.hot, segs, i) {
      assert Slot(t, segs, k, i);
    }
  }

  /** Wherever rotation stands, the offline verifier reads every record once,
      in commit order. */
  lemma {:induction false} UnionReadsAll(t: Tiers, segs: SegmentList, k: nat, active: seq<Record>)
    requires Layout(t, segs, k, active)
    ensures Union(t.cold, t.hot) == if Unstarted(t, segs) then NoLog else Records(Flatten(segs) + active)
  {
    BareExactlyUnstarted(t, segs, k, active);
    var c := ColdCount(t, segs, k);
    assert k < |segs| ==> Slot(t, segs, k, k);
    ColdExactly(t, segs, k, active);
    HotFrom(t, segs, k, active, c);
    UnionIs(t.cold, t.hot, segs, c, active);
  }

  /** Outside limbo, boot reads exactly the records after the rotated ones. */
  lemma {:induction false} BootReads(t: Tiers, segs: SegmentList, k: nat, active: seq<Record>)
    requires Layout(t, segs, k, active) && !Limbo(t, segs, k)
    ensures HotUnion(t.hot, NamesBelow(k)) == if Unstarted(t, segs) then NoLog else Records(Flatten(segs[k..]) + active)
  {
    BareExactlyUnstarted(t, segs, k, active);
    HotFrom(t, segs, k, active, k);
    HotUnionIs(t.hot, segs, k, active);
  }

  lemma {:induction false} WithoutSame(names: seq<Bytes>, a: set<Bytes>, b: set<Bytes>)
    requires forall n :: n in names ==> (n in a <==> n in b)
    ensures Without(names, a) == Without(names, b)
  {
    if names != [] {
      WithoutSame(names[..|names| - 1], a, b);
      assert names[|names| - 1] in names;
    }
  }

  lemma {:induction false} BelowNext(k: nat, n: Bytes)
    ensures n in NamesBelow(k + 1) <==> n in NamesBelow(k) || n == FileName(k)
  {
    if n in NamesBelow(k + 1) {
      var i: nat :| i < k + 1 && n == FileName(i);
      assert i < k ==> n in NamesBelow(k);
    }
  }

  /** In limbo it reads them less that whole segment. */
  lemma {:induction false} LimboReads(t: Tiers, segs: SegmentList, k: nat, active: seq<Record>)
    requires Layout(t, segs, k, active) && Limbo(t, segs, k)
    ensures HotUnion(t.hot, NamesBelow(k)) == Records(Flatten(segs[k + 1..]) + active)
  {
    BareExactlyUnstarted(t, segs, k, active);
    HotFrom(t, segs, k, active, k + 1);
    HotUnionIs(t.hot, segs, k + 1, active);
    OnlySegmentsUnambiguous(t.hot, |segs|);
    var names := ListingExists(t.hot.Keys, t.hot.Keys);
    ListingIs(t.hot.Keys, names);
    forall n | n in names ensures n in NamesBelow(k) <==> n in NamesBelow(k + 1) {
      BelowNext(k, n);
    }
    WithoutSame(names, NamesBelow(k), NamesBelow(k + 1));
  }

  /** The records boot starts from; a missing log has none. */
  function ReadBack(r: Read): seq<Record> {
    if r.Records? then r.rs else []
  }

  lemma {:induction false} SlotOf(t: Tiers, segs: SegmentList, k: nat, active: seq<Record>, i: nat)
    requires Layout(t, segs, k, active) && i < |segs|
    ensures Slot(t, segs, k, i)
  {}

  lemma {:induction false} FlattenHead(segs: SegmentList)
    requires segs != []
    ensures Flatten(segs) == segs[0] + Flatten(segs[1..])
  {
    FlattenSplits(segs, 1);
    assert Init(segs[..1]) == [] && Flatten(segs[..1]) == segs[0];
  }

  lemma {:induction false} OneLess(segs: SegmentList, k: nat, active: seq<Record>)
    requires k < |segs| && segs[k] != []
    ensures Flatten(segs[k + 1..]) + active != Flatten(segs[k..]) + active
  {
    FlattenHead(segs[k..]);
    assert segs[k..][1..] == segs[k + 1..];
    assert |Flatten(segs[k..]) + active| > |Flatten(segs[k + 1..]) + active|;
  }

  /** So the durable state boots to the whole log exactly outside limbo. */
  lemma {:induction false} BootsExactlyOutsideLimbo(t: Tiers, segs: SegmentList, k: nat, active: seq<Record>)
    requires Layout(t, segs, k, active)
    ensures var read := HotUnion(t.hot, NamesBelow(k));
      && (read == if Unstarted(t, segs) then NoLog else Records(ReadBack(read)))
      && (ReadBack(read) == Flatten(segs[k..]) + active <==> !Limbo(t, segs, k))
  {
    hide HotUnion, NamesBelow, Bare;
    BareExactlyUnstarted(t, segs, k, active);
    if Limbo(t, segs, k) {
      LimboReads(t, segs, k, active);
      SlotOf(t, segs, k, active, k);
      OneLess(segs, k, active);
    } else {
      BootReads(t, segs, k, active);
      if Unstarted(t, segs) { assert segs[k..] == []; }
    }
  }

  // ---------- the steps ----------

  predicate SameFile(a: Dir, b: Dir, name: Bytes) {
    && (name in a <==> name in b)
    && (name in a ==> a[name] == b[name])
  }

  /** A slot looks at its own file only. */
  lemma {:induction false} SlotStays(t: Tiers, t': Tiers, segs: SegmentList, segs': SegmentList, k: nat, i: nat)
    requires i < |segs| && i < |segs'| && segs[i] == segs'[i]
    requires SameFile(t.hot, t'.hot, FileName(i)) && SameFile(t.cold, t'.cold, FileName(i))
    requires Slot(t, segs, k, i)
    ensures Slot(t', segs', k, i)
  {}

  /** Only the active file changed. */
  lemma {:induction false} ActiveChanges(t: Tiers, t': Tiers, segs: SegmentList, k: nat, active: seq<Record>,
        file: Bytes, active': seq<Record>)
    requires Layout(t, segs, k, active) && AllStorable(active') && LogFile(file, active')
    requires t' == Tiers(t.hot[ACTIVE := file], t.cold)
    ensures Layout(t', segs, k, active') && (Limbo(t', segs, k) <==> Limbo(t, segs, k))
  {
    hide LogFile;
    FileNameIsNotActive(k);
    forall i: nat | i < |segs| ensures Slot(t', segs, k, i) {
      FileNameIsNotActive(i);
      SlotStays(t, t', segs, segs, k, i);
    }
    forall name | name in t'.hot && IsSegmentName(name) ensures exists i: nat :: i < |segs| && name == FileName(i) {
      assert name != ACTIVE ==> name in t.hot;
    }
  }

  /** An admission appends to the active file, which had no torn frame. */
  lemma {:induction false} AdmitKeeps(t: Tiers, t': Tiers, segs: SegmentList, k: nat, active: seq<Record>, rec: Record)
    requires Layout(t, segs, k, active) && Tidy(t.hot, active) && Storable(rec)
    requires ACTIVE in t.hot && t' == Tiers(t.hot[ACTIVE := t.hot[ACTIVE] + Wal.Frame(Encode(rec))], t.cold)
    ensures Layout(t', segs, k, active + [rec]) && Tidy(t'.hot, active + [rec])
    ensures Limbo(t', segs, k) <==> Limbo(t, segs, k)
  {
    FileAppend(active, rec);
    WholeLogFile(active + [rec]);
    ActiveChanges(t, t', segs, k, active, FileOf(active + [rec]), active + [rec]);
  }

  /** One cut short leaves a torn frame there, which nothing reads. */
  lemma {:induction false} TornKeeps(t: Tiers, t': Tiers, segs: SegmentList, k: nat, active: seq<Record>,
        p: Wal.Payload, torn: Bytes)
    requires Layout(t, segs, k, active) && Tidy(t.hot, active) && torn < Wal.Frame(p)
    requires ACTIVE in t.hot && t' == Tiers(t.hot[ACTIVE := t.hot[ACTIVE] + torn], t.cold)
    ensures Layout(t', segs, k, active) && (Limbo(t', segs, k) <==> Limbo(t, segs, k))
  {
    TornLogFile(active, p, torn);
    ActiveChanges(t, t', segs, k, active, t.hot[ACTIVE] + torn, active);
  }

  lemma {:induction false} EmptyFile()
    ensures FileOf([]) == [] && LogFile([], [])
  {
    WholeLogFile([]);
  }

  /** Opening the log creates the active file if it is absent. */
  lemma {:induction false} OpenKeeps(t: Tiers, t': Tiers, segs: SegmentList, k: nat, active: seq<Record>)
    requires Layout(t, segs, k, active)
    requires t' == Tiers(if ACTIVE in t.hot then t.hot else t.hot[ACTIVE := []], t.cold)
    ensures Layout(t', segs, k, active) && (Limbo(t', segs, k) <==> Limbo(t, segs, k))
    ensures Tidy(t'.hot, active) <==> Tidy(t.hot, active)
  {
    if ACTIVE !in t.hot {
      EmptyFile();
      ActiveChanges(t, t', segs, k, active, [], []);
    }
  }

  lemma {:induction false} OnlyOneMore(dir: Dir, dir': Dir, n: nat)
    requires OnlySegments(dir, n) && dir'.Keys <= dir.Keys + {FileName(n), ACTIVE}
    ensures OnlySegments(dir', n + 1)
  {
    FileNameIsNotActive(n);
    forall name | name in dir' && IsSegmentName(name) ensures exists i: nat :: i < n + 1 && name == FileName(i) {
      if name != FileName(n) {
        assert name in dir;
        var i: nat :| i < n && name == FileName(i);
      }
    }
  }

  lemma {:induction false} OnlyFewer(dir: Dir, dir': Dir, n: nat, i: nat)
    requires OnlySegments(dir, n) && i < n && dir'.Keys <= dir.Keys + {FileName(i)}
    ensures OnlySegments(dir', n)
  {
    forall name | name in dir' && IsSegmentName(name) ensures exists j: nat :: j < n && name == FileName(j) {
      if name != FileName(i) { assert name in dir; }
    }
  }

  lemma {:induction false} NewestIsNowhere(t: Tiers, n: nat)
    requires OnlySegments(t.hot, n) && OnlySegments(t.cold, n)
    ensures FileName(n) !in t.hot && FileName(n) !in t.cold
  {
    FileNameIndex(n);
    forall i: nat | i < n ensures FileName(i) != FileName(n) { NamesApart(i, n); }
  }

  /** A seal that got as far as its rename turns the active log into the last
      segment, whether or not a new active file was opened. */
  lemma {:induction false} SealKeeps(t: Tiers, t': Tiers, segs: SegmentList, k: nat, active: seq<Record>)
    requires Layout(t, segs, k, active) && Tidy(t.hot, active) && ACTIVE in t.hot
    requires active != [] && |segs| + 1 < TWO64
    requires var moved := Moved(t.hot, FileName(|segs|)); t'.cold == t.cold && t'.hot in {moved, moved[ACTIVE := []]}
    ensures Layout(t', segs + [active], k, []) && Tidy(t'.hot, [])
    ensures Limbo(t', segs + [active], k) <==> Limbo(t, segs, k)
  {
    var n, segs' := |segs|, segs + [active];
    EmptyFile();
    NewestIsNowhere(t, n);
    OnlyOneMore(t.hot, t'.hot, n);
    OnlyOneMore(t.cold, t'.cold, n);
    FileNameIsNotActive(n);
    FileNameIsNotActive(k);
    if k < n { NamesApart(k, n); }
    forall i: nat | i < n + 1 ensures Slot(t', segs', k, i) {
      if i < n {
        FileNameIsNotActive(i);
        NamesApart(i, n);
        SlotStays(t, t', segs, segs', k, i);
      } else {
        assert Holds(t'.hot, segs', n);
      }
    }
  }

  /** Only segment k's own files changed. */
  lemma {:induction false} OneSlotChanges(t: Tiers, t': Tiers, segs: SegmentList, k: nat, active: seq<Record>, j: nat)
    requires Layout(t, segs, k, active) && j < |segs| && Slot(t', segs, k, j)
    requires t'.hot.Keys <= t.hot.Keys + {FileName(j)} && t'.cold.Keys <= t.cold.Keys + {FileName(j)}
    requires forall name :: name != FileName(j) ==> SameFile(t.hot, t'.hot, name) && SameFile(t.cold, t'.cold, name)
    requires ACTIVE in t.hot || FileName(|segs| - 1) in t'.hot
    ensures Layout(t', segs, k, active)
  {
    OnlyFewer(t.hot, t'.hot, |segs|, j);
    OnlyFewer(t.cold, t'.cold, |segs|, j);
    FileNameIsNotActive(j);
    assert SameFile(t.hot, t'.hot, ACTIVE);
    forall i: nat | i < |segs| ensures Slot(t', segs, k, i) {
      if i != j {
        NamesApart(i, j);
        SlotStays(t, t', segs, segs, k, i);
      }
    }
  }

  lemma {:induction false} LastStays(t: Tiers, t': Tiers, segs: SegmentList, k: nat, active: seq<Record>, j: nat)
    requires Layout(t, segs, k, active) && j < |segs| && (ACTIVE in t.hot || j + 1 < |segs|)
    requires t'.hot == t.hot || t'.hot == t.hot - {FileName(j)}
    ensures ACTIVE in t.hot || FileName(|segs| - 1) in t'.hot
  {
    if j + 1 < |segs| { NamesApart(|segs| - 1, j); }
  }

  /** A copy attempt on segment k, ending or crashing anywhere. */
  lemma {:induction false} AttemptKeeps(t: Tiers, t': Tiers, segs: SegmentList, k: nat, active: seq<Record>)
    requires Layout(t, segs, k, active) && k < |segs|
    requires AttemptEffect(t, t', FileName(k))
    requires Copied(t, t', FileName(k)) ==> t'.cold[FileName(k)] == t.hot[FileName(k)]
    requires ACTIVE in t.hot || k + 1 < |segs|
    ensures Layout(t', segs, k, active)
    ensures Limbo(t', segs, k) <==> Limbo(t, segs, k) || Removed(t, t', FileName(k))
    ensures FileName(k) !in t.cold ==> !Limbo(t', segs, k)
  {
    hide Layout;
    SlotOf(t, segs, k, active, k);
    LastStays(t, t', segs, k, active, k);
    if Removed(t, t', FileName(k)) { assert FileName(k) !in t'.hot; }
    if t' != t {
      assert Slot(t', segs, k, k);
      OneSlotChanges(t, t', segs, k, active, k);
    }
  }

  /** Once segment k is cold, it may be recorded as rotated. */
  lemma {:induction false} PromoteKeeps(t: Tiers, segs: SegmentList, k: nat, active: seq<Record>)
    requires Layout(t, segs, k, active) && k < |segs| && FileName(k) in t.cold
    ensures Layout(t, segs, k + 1, active) && !Limbo(t, segs, k + 1)
  {
    var k' := k + 1;
    forall i: nat | i < |segs| ensures Slot(t, segs, k', i) {
      assert Slot(t, segs, k, i);
    }
    if k + 1 < |segs| { assert Slot(t, segs, k, k + 1); }
  }

  /** Removing the hot copy of a rotated segment. */
  lemma {:induction false} FinishKeeps(t: Tiers, t': Tiers, segs: SegmentList, k: nat, active: seq<Record>, j: nat)
    requires Layout(t, segs, k, active) && j < k
    requires t'.cold == t.cold && (t'.hot == t.hot || t'.hot == t.hot - {FileName(j)})
    requires ACTIVE in t.hot || j + 1 < |segs|
    ensures Layout(t', segs, k, active)
    ensures Limbo(t', segs, k) <==> Limbo(t, segs, k)
  {
    NamesApart(j, k);
    LastStays(t, t', segs, k, active, j);
    hide Layout;
    SlotOf(t, segs, k, active, j);
    if t' != t {
      assert Slot(t', segs, k, j);
      OneSlotChanges(t, t', segs, k, active, j);
    }
  }

  // ---------- a seal under a used name ----------

  lemma {:induction false} FlattenReplaced(segs: SegmentList, m: nat, rs: seq<Record>)
    requires m < |segs|
    ensures |Flatten(segs[m := rs])| == |Flatten(segs)| - |segs[m]| + |rs|
  {
    var segs' := segs[m := rs];
    FlattenSplits(segs, m);
    FlattenSplits(segs', m);
    FlattenHead(segs[m..]);
    FlattenHead(segs'[m..]);
    assert segs'[..m] == segs[..m] && segs'[m..][1..] == segs[m..][1..];
  }

  lemma {:induction false} OverwrittenNames(hot: Dir, hot': Dir, n: nat, m: nat)
    requires OnlySegments(hot, n) && m < n && hot'.Keys <= hot.Keys + {FileName(m), ACTIVE}
    ensures OnlySegments(hot', n)
  {
    FileNameIsNotActive(m);
    forall name | name in hot' && IsSegmentName(name) ensures exists i: nat :: i < n && name == FileName(i) {
      if name != FileName(m) { assert name in hot; }
    }
  }

  lemma {:induction false} OverwrittenHolds(hot: Dir, segs: SegmentList, k: nat, active: seq<Record>, m: nat)
    requires HoldsRange(hot, segs, k, |segs|) && k <= m < |segs|
    requires AllStorable(active) && ACTIVE in hot && hot[ACTIVE] == FileOf(active)
    ensures HoldsRange(Moved(hot, FileName(m))[ACTIVE := []], segs[m := active], k, |segs|)
  {
    FileNameIsNotActive(m);
    var hot', segs' := Moved(hot, FileName(m))[ACTIVE := []], segs[m := active];
    forall i | k <= i < |segs| ensures Holds(hot', segs', i) {
      assert Holds(hot, segs, i);
      FileNameIsNotActive(i);
      if i != m { NamesApart(i, m); }
    }
  }

  /** After a seal under the name of segment m, which has one. */
  lemma {:induction false} OverwrittenReads(t: Tiers, segs: SegmentList, k: nat, active: seq<Record>, m: nat)
    requires Layout(t, segs, k, active) && Tidy(t.hot, active) && !Limbo(t, segs, k)
    requires ACTIVE in t.hot && k <= m < |segs|
    ensures HotUnion(Moved(t.hot, FileName(m))[ACTIVE := []], NamesBelow(k)) == Records(Flatten(segs[m := active][k..]))
  {
    hide HotUnion, HoldsRange, FileOf;
    var hot', segs' := Moved(t.hot, FileName(m))[ACTIVE := []], segs[m := active];
    HotFrom(t, segs, k, active, k);
    OverwrittenNames(t.hot, hot', |segs|, m);
    OverwrittenHolds(t.hot, segs, k, active, m);
    EmptyFile();
    HotUnionIs(hot', segs', k, []);
    assert Flatten(segs'[k..]) + [] == Flatten(segs'[k..]);
  }

  lemma {:induction false} ReplacedDiffers(segs: SegmentList, k: nat, active: seq<Record>, m: nat)
    requires k <= m < |segs| && segs[m] != []
    ensures Flatten(segs[m := active][k..]) != Flatten(segs[k..]) + active
  {
    FlattenReplaced(segs[k..], m - k, active);
    assert segs[m := active][k..] == segs[k..][m - k := active];
    assert |Flatten(segs[k..]) + active| == |Flatten(segs[k..])| + |active|;
  }

  /** That segment's records are lost. */
  lemma {:induction false} OverwriteLoses(t: Tiers, segs: SegmentList, k: nat, active: seq<Record>, m: nat)
    requires Layout(t, segs, k, active) && Tidy(t.hot, active) && !Limbo(t, segs, k)
    requires ACTIVE in t.hot && k <= m < |segs|
    ensures HotUnion(Moved(t.hot, FileName(m))[ACTIVE := []], NamesBelow(k)) != Records(Flatten(segs[k..]) + active)
  {
    hide HotUnion, Layout, Limbo;
    OverwrittenReads(t, segs, k, active, m);
    SlotOf(t, segs, k, active, m);
    ReplacedDiffers(segs, k, active, m);
  }

  lemma {:induction false} NextHolds(hot: Dir, segs: SegmentList, k: nat, active: seq<Record>)
    requires k <= |segs| && HoldsRange(hot, segs, k, |segs|) && Tidy(hot, active) && ACTIVE in hot
    ensures HoldsRange(Moved(hot, FileName(|segs|))[ACTIVE := []], segs + [active], k, |segs| + 1)
  {
    var n := |segs|;
    var hot', segs' := Moved(hot, FileName(n))[ACTIVE := []], segs + [active];
    FileNameIsNotActive(n);
    forall i | k <= i < |segs'| ensures Holds(hot', segs', i) {
      if i < n {
        assert Holds(hot, segs, i);
        FileNameIsNotActive(i);
        NamesApart(i, n);
      }
    }
  }

  lemma {:induction false} OneMoreSegment(segs: SegmentList, k: nat, active: seq<Record>)
    requires k <= |segs|
    ensures Flatten((segs + [active])[k..]) + [] == Flatten(segs[k..]) + active
  {
    assert (segs + [active])[k..] == segs[k..] + [active] && Init(segs[k..] + [active]) == segs[k..];
  }

  /** After a seal under the next name, of whatever the active log holds. */
  lemma {:induction false} NextReads(t: Tiers, segs: SegmentList, k: nat, active: seq<Record>)
    requires Layout(t, segs, k, active) && Tidy(t.hot, active) && !Limbo(t, segs, k)
    requires ACTIVE in t.hot && |segs| + 1 < TWO64
    ensures HotUnion(Moved(t.hot, FileName(|segs|))[ACTIVE := []], NamesBelow(k))
         == Records(Flatten(segs[k..]) + active)
  {
    hide HotUnion, HoldsRange, Flatten, FileOf, Slot, LogFile;
    var hot', segs' := Moved(t.hot, FileName(|segs|))[ACTIVE := []], segs + [active];
    HotFrom(t, segs, k, active, k);
    OnlyOneMore(t.hot, hot', |segs|);
    NextHolds(t.hot, segs, k, active);
    EmptyFile();
    HotUnionIs(hot', segs', k, []);
    OneMoreSegment(segs, k, active);
  }

  /** A seal keeps the committed records readable if and only if its name is
      the next one: under the name of a segment that exists, that segment's
      records are lost, also when there is nothing to seal. */
  lemma {:induction false} SealKeepsLogExactly(t: Tiers, t': Tiers, segs: SegmentList, k: nat, active: seq<Record>,
        m: nat)
    requires Layout(t, segs, k, active) && Tidy(t.hot, active) && !Limbo(t, segs, k) && ACTIVE in t.hot
    requires k <= m <= |segs| && |segs| + 1 < TWO64
    requires t' == Tiers(Moved(t.hot, FileName(m))[ACTIVE := []], t.cold)
    ensures HotUnion(t'.hot, NamesBelow(k)) == Records(Flatten(segs[k..]) + active) <==> m == |segs|
  {
    hide HotUnion, Layout, Limbo, Tidy;
    if m < |segs| {
      OverwriteLoses(t, segs, k, active, m);
    } else {
      NextReads(t, segs, k, active);
    }
  }
}
