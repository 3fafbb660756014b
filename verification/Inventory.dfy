// What a retention checkpoint says of the sealed segments: the inventory, and
// the anchors boot starts from (internal/retention/manager.go, checkpoint.go).

module Inventory {
  import opened Bytes
  import opened Crypto
  import opened Ocsf
  import opened Chain
  import opened Segments
  import opened Replay
  import opened Store
  import opened RetentionPolicy
  import opened Checkpoint
  import opened Retention
  import MerkleNodes

  // ---------- one entry ----------

  /** The ingest bounds are stamps of the segment, and no stamp is outside. */
  ghost predicate Bounds(first: I64, last: I64, rs: seq<Record>) {
    && (exists r :: r in rs && r.ingestTime == first)
    && (exists r :: r in rs && r.ingestTime == last)
    && forall r :: r in rs ==> first <= r.ingestTime <= last
  }

  function FrontierOf(log: seq<Record>): seq<Digest> {
    MerkleNodes.Frontier(LeavesOf(log), |log|)
  }

  /** Entry i describes sealed segment i and the log up to its seal. */
  ghost predicate EntryFor(e: SegmentEntry, segs: SegmentList, i: nat)
    requires i < |segs|
  {
    var before, upto := Upto(segs, i), Upto(segs, i + 1);
    && e.name == FileName(i)
    && AllStorable(segs[i]) && e.sha256 == SHA256(FileOf(segs[i]))
    && e.recordCount == |segs[i]| > 0
    && Bounds(e.firstIngest, e.lastIngest, segs[i])
    && e.firstGlobal == |before| && e.lastGlobal == |upto| - 1
    && e.sealTips == TipsOf(upto) && e.sealTreeSize == |upto| && e.sealFrontier == FrontierOf(upto)
  }

  ghost predicate Inventoried(es: seq<SegmentEntry>, segs: SegmentList) {
    |es| == |segs| && forall i: nat {:trigger EntryFor(es[i], segs, i)} :: i < |segs| ==> EntryFor(es[i], segs, i)
  }

  predicate RotatedPrefix(es: seq<SegmentEntry>, k: nat) {
    k <= |es| && forall i :: 0 <= i < |es| ==> (es[i].rotatedAt != 0 <==> i < k)
  }

  predicate AnchorsAt(c: Checkpoint, cold: seq<Record>) {
    c.chainTips == TipsOf(cold) && c.treeSize == |cold| && c.frontier == FrontierOf(cold)
  }

  /** The checkpoint of a log with these sealed segments, the first k rotated. */
  ghost predicate Consistent(c: Checkpoint, segs: SegmentList, k: nat) {
    && k <= |segs| && Inventoried(c.segments, segs) && RotatedPrefix(c.segments, k)
    && AnchorsAt(c, Upto(segs, k))
  }

  lemma {:induction false} EmptyConsistent(p: Policy)
    ensures Consistent(Checkpoint(p, [], map[], 0, []), [], 0)
  {
    assert Upto([], 0) == [] && LeavesOf([]) == [];
  }

  lemma {:induction false} EntryCounts(es: seq<SegmentEntry>, segs: SegmentList, i: nat)
    requires Inventoried(es, segs) && i < |segs|
    ensures es[i].firstGlobal == |Upto(segs, i)| && es[i].lastGlobal + 1 == |Upto(segs, i + 1)| == es[i].sealTreeSize
    ensures es[i].recordCount == es[i].lastGlobal + 1 - es[i].firstGlobal
  {
    assert EntryFor(es[i], segs, i);
    UptoSteps(segs, i);
  }

  /** Read by itself, a consistent inventory tiles the committed log: each
      segment starts where the one before ended, the counts match the indexes,
      and the top-level anchors are the last rotated segment's seal anchors. */
  lemma {:induction false} InventoryTiles(c: Checkpoint, segs: SegmentList, k: nat)
    requires Consistent(c, segs, k)
    ensures var es := c.segments;
      && (es != [] ==> es[0].firstGlobal == 0 && es[|es| - 1].lastGlobal + 1 == |Flatten(segs)|)
      && (forall i :: 0 <= i < |es| - 1 ==> es[i + 1].firstGlobal == es[i].lastGlobal + 1)
      && (forall i :: 0 <= i < |es| ==> es[i].recordCount == es[i].lastGlobal + 1 - es[i].firstGlobal)
      && (forall i :: 0 <= i < |es| ==> es[i].sealTreeSize == es[i].lastGlobal + 1)
      && (k > 0 ==>
          c.chainTips == es[k - 1].sealTips && c.treeSize == es[k - 1].sealTreeSize
          && c.frontier == es[k - 1].sealFrontier)
      && (k == 0 ==> c.chainTips == map[] && c.treeSize == 0)
  {
    var es := c.segments;
    assert segs[..|es|] == segs && Upto(segs, 0) == [];
    if es != [] {
      EntryCounts(es, segs, 0);
      EntryCounts(es, segs, |es| - 1);
    }
    forall i | 0 <= i < |es| - 1 ensures es[i + 1].firstGlobal == es[i].lastGlobal + 1 {
      EntryCounts(es, segs, i);
      EntryCounts(es, segs, i + 1);
    }
    forall i | 0 <= i < |es|
      ensures es[i].recordCount == es[i].lastGlobal + 1 - es[i].firstGlobal
          && es[i].sealTreeSize == es[i].lastGlobal + 1
    {
      EntryCounts(es, segs, i);
    }
    if k > 0 { assert EntryFor(es[k - 1], segs, k - 1); }
  }

  // ---------- growing the inventory ----------

  lemma {:induction false} EntryStays(e: SegmentEntry, segs: SegmentList, segs': SegmentList, i: nat)
    requires i < |segs| && segs <= segs' && EntryFor(e, segs, i)
    ensures EntryFor(e, segs', i)
  {
    assert segs'[..i] == segs[..i] && segs'[..i + 1] == segs[..i + 1] && segs'[i] == segs[i];
  }

  /** One more sealed segment, one more entry. */
  lemma {:induction false} EntryAdded(c: Checkpoint, segs: SegmentList, k: nat, active: seq<Record>, e: SegmentEntry)
    requires Consistent(c, segs, k) && EntryFor(e, segs + [active], |segs|) && e.rotatedAt == 0
    ensures Consistent(c.(segments := c.segments + [e]), segs + [active], k)
  {
    hide EntryFor;
    var es', segs' := c.segments + [e], segs + [active];
    forall i: nat | i < |segs'| ensures EntryFor(es'[i], segs', i) {
      if i < |segs| {
        assert EntryFor(c.segments[i], segs, i);
        EntryStays(c.segments[i], segs, segs', i);
      }
    }
    UptoStays(segs, active, k);
  }

  function WithRotatedAt(c: Checkpoint, k: nat, at: I64): Checkpoint
    requires k < |c.segments|
  {
    c.(segments := c.segments[k := c.segments[k].(rotatedAt := at)])
  }

  /** Promotion of segment k: its rotation time, and its seal anchors on top. */
  function Promoted(c: Checkpoint, k: nat, now: I64): (c': Checkpoint)
    requires k < |c.segments|
    ensures |c'.segments| == |c.segments|
  {
    var e := c.segments[k];
    WithRotatedAt(c, k, now).(chainTips := e.sealTips, treeSize := e.sealTreeSize, frontier := e.sealFrontier)
  }

  lemma {:induction false} PromotedConsistent(c: Checkpoint, segs: SegmentList, k: nat, now: I64)
    requires Consistent(c, segs, k) && k < |segs| && now != 0
    ensures Consistent(Promoted(c, k, now), segs, k + 1)
  {
    assert EntryFor(c.segments[k], segs, k);
    var es' := Promoted(c, k, now).segments;
    forall i: nat | i < |segs| ensures EntryFor(es'[i], segs, i) {
      assert EntryFor(c.segments[i], segs, i);
    }
  }

  /** The in-memory state after a checkpoint write that failed: the rotation
      time is rolled back, the anchors are not. */
  function RolledBack(c: Checkpoint, k: nat, now: I64): (c': Checkpoint)
    requires k < |c.segments|
    ensures |c'.segments| == |c.segments|
  {
    WithRotatedAt(Promoted(c, k, now), k, 0)
  }

  lemma {:induction false} RolledBackIsNot(c: Checkpoint, segs: SegmentList, k: nat, now: I64)
    requires Consistent(c, segs, k) && k < |segs|
    ensures !Consistent(RolledBack(c, k, now), segs, k)
    ensures Inventoried(RolledBack(c, k, now).segments, segs)
  {
    assert EntryFor(c.segments[k], segs, k);
    UptoSteps(segs, k);
    var es' := RolledBack(c, k, now).segments;
    forall i: nat | i < |segs| ensures EntryFor(es'[i], segs, i) {
      assert EntryFor(c.segments[i], segs, i);
    }
  }

  // ---------- the boot anchor is genuine ----------

  lemma {:induction false} UptoPrefix(segs: SegmentList, m: nat, k: nat)
    requires k <= m <= |segs|
    ensures Upto(segs[..m], k) == Upto(segs, k)
  {
    assert segs[..m][..k] == segs[..k];
  }

  lemma {:induction false} HighestStampConcat(floor: I64, a: seq<Record>, b: seq<Record>)
    ensures HighestStamp(floor, a + b) == HighestStamp(HighestStamp(floor, a), b)
  {
    if b == [] {
      assert a + b == a;
    } else {
      HighestStampConcat(floor, a, Init(b));
      assert Init(a + b) == a + Init(b) && Last(a + b) == Last(b);
    }
  }

  lemma {:induction false} HighestStampBounds(floor: I64, rs: seq<Record>, last: I64)
    requires forall r :: r in rs ==> r.ingestTime <= last
    ensures floor <= HighestStamp(floor, rs) <= (if floor > last then floor else last)
    ensures forall r :: r in rs ==> r.ingestTime <= HighestStamp(floor, rs)
  {
    if rs != [] {
      HighestStampBounds(floor, Init(rs), last);
      assert rs == Init(rs) + [Last(rs)];
    }
  }

  lemma {:induction false} HighestStampIs(floor: I64, rs: seq<Record>, first: I64, last: I64)
    requires Bounds(first, last, rs)
    ensures HighestStamp(floor, rs) == if last > floor then last else floor
  {
    HighestStampBounds(floor, rs, last);
  }

  lemma {:induction false} EntryRestricts(e: SegmentEntry, segs: SegmentList, m: nat, i: nat)
    requires i < m <= |segs| && EntryFor(e, segs, i)
    ensures EntryFor(e, segs[..m], i)
  {
    UptoPrefix(segs, m, i);
    UptoPrefix(segs, m, i + 1);
  }

  lemma {:induction false} InventoryInit(es: seq<SegmentEntry>, segs: SegmentList)
    requires Inventoried(es, segs) && es != []
    ensures Inventoried(Init(es), segs[..|es| - 1])
  {
    var n := |es| - 1;
    forall i: nat | i < n ensures EntryFor(es[i], segs[..n], i) {
      assert EntryFor(es[i], segs, i);
      EntryRestricts(es[i], segs, n, i);
    }
  }

  lemma {:induction false} BelowSteps(k: nat)
    ensures NamesBelow(k + 1) == NamesBelow(k) + {FileName(k)}
  {
    forall n: Bytes ensures n in NamesBelow(k + 1) <==> n in NamesBelow(k) + {FileName(k)} { BelowNext(k, n); }
  }

  lemma {:induction false} RotatedIs(es: seq<SegmentEntry>, segs: SegmentList, k: nat)
    requires Inventoried(es, segs) && RotatedPrefix(es, k)
    ensures RotatedNames(es) == NamesBelow(k)
    ensures RotatedFloor(es) == HighestStamp(0, Upto(segs, k))
    decreases |es|
  {
    if es == [] {
      assert Upto(segs, 0) == [];
    } else {
      var n := |es| - 1;
      InventoryInit(es, segs);
      assert EntryFor(es[n], segs, n);
      if k == n + 1 {
        assert es[n].rotatedAt != 0;
        RotatedIs(Init(es), segs[..n], n);
        UptoPrefix(segs, n, n);
        BelowSteps(n);
        UptoSteps(segs, n);
        HighestStampConcat(0, Upto(segs, n), segs[n]);
        HighestStampIs(HighestStamp(0, Upto(segs, n)), segs[n], es[n].firstIngest, es[n].lastIngest);
      } else {
        RotatedIs(Init(es), segs[..n], k);
        UptoPrefix(segs, n, k);
      }
    }
  }

  lemma {:induction false} StampsBelow(floor: I64, rs: seq<Record>)
    ensures StampedBy(rs, HighestStamp(floor, rs))
  {
    HighestStampBounds(floor, rs, (TWO63 - 1) as I64);
  }

  /** The anchor a consistent checkpoint gives is exactly the state of a store
      that committed the rotated records and nothing else. */
  lemma {:induction false} AnchorGenuine(c: Checkpoint, segs: SegmentList, k: nat)
    requires Consistent(c, segs, k)
    ensures var a := BootAnchor(c.chainTips, c.treeSize, c.frontier,
        RotatedNames(c.segments), RotatedFloor(c.segments));
      && Anchors(a, Upto(segs, k)) && a.rotated == NamesBelow(k) && a.ingestFloor == HighestStamp(0, Upto(segs, k))
  {
    RotatedIs(c.segments, segs, k);
    StampsBelow(0, Upto(segs, k));
  }

  /** A checkpoint has anchors exactly when something is rotated. */
  lemma {:induction false} HasAnchorsIs(c: Checkpoint, segs: SegmentList, k: nat)
    requires Consistent(c, segs, k)
    ensures HasAnchors(c) <==> k > 0
  {
    if k > 0 { assert c.segments[k - 1].rotatedAt != 0; }
    assert Upto(segs, 0) == [];
  }

  // ---------- sizes ----------

  /** Logs short enough that every counter and name fits its field. */
  const MAX_LOG: int := TWO63 - 64

  lemma {:induction false} DigitsShort(n: nat)
    ensures |Digits(n)| <= n + 1
  {
    if n >= 10 { DigitsShort(n / 10); }
  }

  lemma {:induction false} TipsCount(log: seq<Record>)
    ensures |TipsOf(log)| <= |log|
  {
    if log != [] { TipsCount(Init(log)); }
  }

  lemma {:induction false} OnesBound(n: nat)
    ensures MerkleNodes.Ones(n) <= n
  {
    if n > 0 { OnesBound(n / 2); }
  }

  lemma {:induction false} FrontierCount(log: seq<Record>)
    ensures |FrontierOf(log)| == MerkleNodes.Ones(|log|) <= |log|
  {
    MerkleNodes.CompactIsTops(LeavesOf(log), 0, |log|);
    OnesBound(|log|);
  }

  lemma {:induction false} UptoBound(segs: SegmentList, k: nat)
    requires k <= |segs|
    ensures |Upto(segs, k)| <= |Flatten(segs)|
  {
    FlattenSplits(segs, k);
  }

  lemma {:induction false} SegmentsCount(segs: SegmentList, k: nat)
    requires k <= |segs| && forall i :: 0 <= i < |segs| ==> segs[i] != []
    ensures k <= |Upto(segs, k)|
  {
    if k > 0 {
      SegmentsCount(segs, k - 1);
      UptoSteps(segs, k - 1);
    }
  }

  lemma {:induction false} EntrySized(e: SegmentEntry, segs: SegmentList, i: nat)
    requires i < |segs| <= |Flatten(segs)| < MAX_LOG && EntryFor(e, segs, i)
    ensures EntryFits(e)
  {
    UptoBound(segs, i);
    UptoBound(segs, i + 1);
    UptoSteps(segs, i);
    DigitsShort(i + 1);
    TipsCount(Upto(segs, i + 1));
    FrontierCount(Upto(segs, i + 1));
  }

  lemma {:induction false} ConsistentFits(c: Checkpoint, segs: SegmentList, k: nat)
    requires Consistent(c, segs, k) && |Flatten(segs)| < MAX_LOG
    ensures Fits(c) && |segs| <= |Flatten(segs)|
  {
    forall i | 0 <= i < |segs| ensures segs[i] != [] { assert EntryFor(c.segments[i], segs, i); }
    SegmentsCount(segs, |segs|);
    assert segs[..|segs|] == segs;
    forall i | 0 <= i < |segs| ensures EntryFits(c.segments[i]) {
      assert EntryFor(c.segments[i], segs, i);
      EntrySized(c.segments[i], segs, i);
    }
    UptoBound(segs, k);
    TipsCount(Upto(segs, k));
    FrontierCount(Upto(segs, k));
  }
}
