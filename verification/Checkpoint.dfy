// The signed retention checkpoint (internal/retention/checkpoint.go): the
// policy, the segment inventory and the boot anchors, with the canonical bytes
// its signature covers.

module Checkpoint {
  import opened Bytes
  import opened Order
  import opened Crypto
  import opened Chain
  import opened Signer
  import opened Store
  import opened RetentionPolicy

  const CHECKPOINT_TAG: Bytes := Ascii("ocu-audit-retention/v1\0")

  datatype SegmentEntry = SegmentEntry(
    name: Bytes, sha256: Digest, recordCount: nat,
    firstIngest: I64, lastIngest: I64, firstGlobal: nat, lastGlobal: nat,
    sealedAt: I64, rotatedAt: I64,
    sealTips: Tips, sealTreeSize: nat, sealFrontier: seq<Digest>)

  datatype Checkpoint = Checkpoint(
    policy: Policy, segments: seq<SegmentEntry>,
    chainTips: Tips, treeSize: nat, frontier: seq<Digest>)

  // ---------- what fits the encoding ----------

  predicate EntryFits(e: SegmentEntry) {
    |e.name| < TWO63 && e.recordCount < TWO64 && e.firstGlobal < TWO64 && e.lastGlobal < TWO64 && e.sealTreeSize < TWO64
    && |e.sealTips| < TWO63 && |e.sealFrontier| < TWO63
  }

  /** Counters are uint64 and lists have Go lengths. */
  predicate Fits(c: Checkpoint) {
    |c.segments| < TWO63 && |c.chainTips| < TWO63 && |c.frontier| < TWO63 && c.treeSize < TWO64
    && forall i :: 0 <= i < |c.segments| ==> EntryFits(c.segments[i])
  }

  // ---------- the canonical bytes ----------

  function TipThen(k: Text, tip: ChainTip, rest: Bytes): Bytes {
    Field(k) + (Field(tip.hash) + (BE64(tip.sequence) + rest))
  }

  function TipsThen(keys: seq<Text>, tips: Tips, rest: Bytes): Bytes
    requires forall k :: k in keys ==> k in tips
  {
    if keys == [] then rest else TipThen(keys[0], tips[keys[0]], TipsThen(keys[1..], tips, rest))
  }

  function CountedTips(tips: Tips, rest: Bytes): Bytes
    requires |tips| < TWO63
  {
    BE64(|SortedKeys(tips.Keys)|) + TipsThen(SortedKeys(tips.Keys), tips, rest)
  }

  function HashesThen(hs: seq<Digest>, rest: Bytes): Bytes {
    if hs == [] then rest else Field(hs[0]) + HashesThen(hs[1..], rest)
  }

  function CountedHashes(hs: seq<Digest>, rest: Bytes): Bytes
    requires |hs| < TWO63
  {
    BE64(|hs|) + HashesThen(hs, rest)
  }

  /** Tips, tree size, frontier: how a set of anchors is written. */
  function AnchorsThen(tips: Tips, treeSize: U64, frontier: seq<Digest>, rest: Bytes): Bytes
    requires |tips| < TWO63 && |frontier| < TWO63
  {
    CountedTips(tips, BE64(treeSize) + CountedHashes(frontier, rest))
  }

  /** Ingest bounds, global bounds, and the seal and rotation times. */
  datatype Spans = Spans(firstIngest: I64, lastIngest: I64, firstGlobal: U64, lastGlobal: U64, sealedAt: I64,
        rotatedAt: I64)

  function SpansOf(e: SegmentEntry): Spans
    requires EntryFits(e)
  {
    Spans(e.firstIngest, e.lastIngest, e.firstGlobal, e.lastGlobal, e.sealedAt, e.rotatedAt)
  }

  function SpansThen(p: Spans, rest: Bytes): Bytes {
    BE64(Wrap(p.firstIngest)) + (BE64(Wrap(p.lastIngest)) + (BE64(p.firstGlobal) + (BE64(p.lastGlobal)
    + (BE64(Wrap(p.sealedAt)) + (BE64(Wrap(p.rotatedAt)) + rest)))))
  }

  function ScalarsThen(e: SegmentEntry, rest: Bytes): Bytes
    requires EntryFits(e)
  {
    Field(e.name) + (Field(e.sha256) + (BE64(e.recordCount) + SpansThen(SpansOf(e), rest)))
  }

  function EntryThen(e: SegmentEntry, rest: Bytes): Bytes
    requires EntryFits(e)
  {
    ScalarsThen(e, AnchorsThen(e.sealTips, e.sealTreeSize, e.sealFrontier, rest))
  }

  function EntriesThen(es: seq<SegmentEntry>, rest: Bytes): Bytes
    requires forall i :: 0 <= i < |es| ==> EntryFits(es[i])
  {
    if es == [] then rest else EntryThen(es[0], EntriesThen(es[1..], rest))
  }

  function PolicyThen(p: Policy, rest: Bytes): Bytes {
    BE64(Wrap(p.floorYears)) + (BE64(Wrap(Millis(p.hotMax))) + (BE64(Wrap(Millis(p.sealInterval))) + rest))
  }

  function InventoryThen(es: seq<SegmentEntry>, rest: Bytes): Bytes
    requires |es| < TWO63 && forall i :: 0 <= i < |es| ==> EntryFits(es[i])
  {
    BE64(|es|) + EntriesThen(es, rest)
  }

  /** Checkpoint.SignBytes. */
  function CheckpointBytes(c: Checkpoint): Bytes
    requires Fits(c)
  {
    CHECKPOINT_TAG
        + PolicyThen(c.policy, InventoryThen(c.segments, AnchorsThen(c.chainTips, c.treeSize, c.frontier, [])))
  }

  // ---------- and back ----------

  type TipEntry = (Text, ChainTip)

  function TakeTip(s: Bytes): Taken<TipEntry> {
    var (key, s) :- TakeField(s);
    var (hash, s) :- TakeField(s);
    var (sequence, s) :- TakeU64(s);
    Some(((key, ChainTip(hash, sequence)), s))
  }

  function TakeTips(n: nat, s: Bytes): Taken<Tips> {
    if n == 0 then Some((map[], s))
    else
      var (entry, s) :- TakeTip(s);
      var (tips, s) :- TakeTips(n - 1, s);
      Some((tips[entry.0 := entry.1], s))
  }

  function TakeCountedTips(s: Bytes): Taken<Tips> {
    var (n, s) :- TakeU64(s);
    TakeTips(n, s)
  }

  function TakeHashes(n: nat, s: Bytes): Taken<seq<Digest>> {
    if n == 0 then Some(([], s))
    else
      var (h, s) :- TakeField(s);
      var (hs, s) :- TakeHashes(n - 1, s);
      if |h| == 32 then Some(([h] + hs, s)) else None
  }

  function TakeCountedHashes(s: Bytes): Taken<seq<Digest>> {
    var (n, s) :- TakeU64(s);
    TakeHashes(n, s)
  }

  type AnchorSet = (Tips, U64, seq<Digest>)

  function TakeAnchors(s: Bytes): Taken<AnchorSet> {
    var (tips, s) :- TakeCountedTips(s);
    var (treeSize, s) :- TakeU64(s);
    var (frontier, s) :- TakeCountedHashes(s);
    Some(((tips, treeSize, frontier), s))
  }

  function TakeSpans(s: Bytes): Taken<Spans> {
    var (firstIngest, s) :- TakeU64(s);
    var (lastIngest, s) :- TakeU64(s);
    var (firstGlobal, s) :- TakeU64(s);
    var (lastGlobal, s) :- TakeU64(s);
    var (sealedAt, s) :- TakeU64(s);
    var (rotatedAt, s) :- TakeU64(s);
    Some((Spans(Unwrap(firstIngest), Unwrap(lastIngest), firstGlobal, lastGlobal, Unwrap(sealedAt), Unwrap(rotatedAt)),
        s))
  }

  /** An entry with its seal anchors still to be read. */
  function TakeScalars(s: Bytes): Taken<SegmentEntry> {
    var (name, s) :- TakeField(s);
    var (sha256, s) :- TakeField(s);
    var (recordCount, s) :- TakeU64(s);
    var (p, s) :- TakeSpans(s);
    if |sha256| != 32 then None
    else Some((SegmentEntry(name, sha256, recordCount, p.firstIngest, p.lastIngest, p.firstGlobal, p.lastGlobal,
                            p.sealedAt, p.rotatedAt, map[], 0, []), s))
  }

  function Sealed(e: SegmentEntry, seal: AnchorSet): SegmentEntry {
    e.(sealTips := seal.0, sealTreeSize := seal.1, sealFrontier := seal.2)
  }

  function TakeEntry(s: Bytes): Taken<SegmentEntry> {
    var (e, s) :- TakeScalars(s);
    var (seal, s) :- TakeAnchors(s);
    Some((Sealed(e, seal), s))
  }

  function TakeEntries(n: nat, s: Bytes): Taken<seq<SegmentEntry>> {
    if n == 0 then Some(([], s))
    else
      var (e, s) :- TakeEntry(s);
      var (es, s) :- TakeEntries(n - 1, s);
      Some(([e] + es, s))
  }

  /** A checkpoint as its signature pins it: durations in whole milliseconds. */
  datatype Pinned = Pinned(floorYears: I64, hotMaxMillis: I64, sealMillis: I64, segments: seq<SegmentEntry>,
                           chainTips: Tips, treeSize: nat, frontier: seq<Digest>)

  function PinnedBy(c: Checkpoint): Pinned {
    Pinned(c.policy.floorYears, Millis(c.policy.hotMax), Millis(c.policy.sealInterval),
           c.segments, c.chainTips, c.treeSize, c.frontier)
  }

  type PolicyMillis = (I64, I64, I64)

  function TakePolicy(s: Bytes): Taken<PolicyMillis> {
    var (floorYears, s) :- TakeU64(s);
    var (hotMax, s) :- TakeU64(s);
    var (sealInterval, s) :- TakeU64(s);
    Some(((Unwrap(floorYears), Unwrap(hotMax), Unwrap(sealInterval)), s))
  }

  function TakeInventory(s: Bytes): Taken<seq<SegmentEntry>> {
    var (n, s) :- TakeU64(s);
    TakeEntries(n, s)
  }

  function DecodeCheckpoint(s: Bytes): Option<Pinned> {
    var s :- TakeTag(CHECKPOINT_TAG, s);
    var (policy, s) :- TakePolicy(s);
    var (segments, s) :- TakeInventory(s);
    var (anchors, s) :- TakeAnchors(s);
    if s != [] then None
    else Some(Pinned(policy.0, policy.1, policy.2, segments, anchors.0, anchors.1, anchors.2))
  }

  function Restricted(keys: seq<Text>, tips: Tips): Tips
    requires forall k :: k in keys ==> k in tips
  {
    map k | k in keys :: tips[k]
  }

  lemma {:induction false} TipReads(k: Text, tip: ChainTip, rest: Bytes)
    ensures TakeTip(TipThen(k, tip, rest)) == Some(((k, tip), rest))
  {
    TakeFieldInverts(k, Field(tip.hash) + (BE64(tip.sequence) + rest));
    TakeFieldInverts(tip.hash, BE64(tip.sequence) + rest);
    TakeU64Inverts(tip.sequence, rest);
  }

  lemma {:induction false} TipsRead(keys: seq<Text>, tips: Tips, rest: Bytes)
    requires forall k :: k in keys ==> k in tips
    ensures TakeTips(|keys|, TipsThen(keys, tips, rest)) == Some((Restricted(keys, tips), rest))
  {
    if keys != [] {
      var k, more := keys[0], TipsThen(keys[1..], tips, rest);
      hide TakeTip, TipThen;
      TipReads(k, tips[k], more);
      TipsRead(keys[1..], tips, rest);
      HeadAndTail(keys);
      assert Restricted(keys, tips) == Restricted(keys[1..], tips)[k := tips[k]];
    }
  }

  lemma {:induction false} CountedTipsRead(tips: Tips, rest: Bytes)
    requires |tips| < TWO63
    ensures TakeCountedTips(CountedTips(tips, rest)) == Some((tips, rest))
  {
    var keys := SortedKeys(tips.Keys);
    hide TakeTips, TipsThen, SortedKeys;
    TakeU64Inverts(|keys|, TipsThen(keys, tips, rest));
    TipsRead(keys, tips, rest);
    assert Restricted(keys, tips) == tips;
  }

  lemma {:induction false} HashesRead(hs: seq<Digest>, rest: Bytes)
    ensures TakeHashes(|hs|, HashesThen(hs, rest)) == Some((hs, rest))
  {
    if hs != [] {
      TakeFieldInverts(hs[0], HashesThen(hs[1..], rest));
      HashesRead(hs[1..], rest);
      HeadAndTail(hs);
    }
  }

  lemma {:induction false} CountedHashesRead(hs: seq<Digest>, rest: Bytes)
    requires |hs| < TWO63
    ensures TakeCountedHashes(CountedHashes(hs, rest)) == Some((hs, rest))
  {
    TakeU64Inverts(|hs|, HashesThen(hs, rest));
    HashesRead(hs, rest);
  }

  lemma {:induction false} AnchorsRead(tips: Tips, treeSize: U64, frontier: seq<Digest>, rest: Bytes)
    requires |tips| < TWO63 && |frontier| < TWO63
    ensures TakeAnchors(AnchorsThen(tips, treeSize, frontier, rest)) == Some(((tips, treeSize, frontier), rest))
  {
    CountedTipsRead(tips, BE64(treeSize) + CountedHashes(frontier, rest));
    TakeU64Inverts(treeSize, CountedHashes(frontier, rest));
    CountedHashesRead(frontier, rest);
  }

  lemma {:induction false} SpansRead(p: Spans, rest: Bytes)
    ensures TakeSpans(SpansThen(p, rest)) == Some((p, rest))
  {
    var s5 := BE64(Wrap(p.rotatedAt)) + rest;
    var s4 := BE64(Wrap(p.sealedAt)) + s5;
    var s3 := BE64(p.lastGlobal) + s4;
    var s2 := BE64(p.firstGlobal) + s3;
    var s1 := BE64(Wrap(p.lastIngest)) + s2;
    TakeU64Inverts(Wrap(p.firstIngest), s1);
    TakeU64Inverts(Wrap(p.lastIngest), s2);
    TakeU64Inverts(p.firstGlobal, s3);
    TakeU64Inverts(p.lastGlobal, s4);
    TakeU64Inverts(Wrap(p.sealedAt), s5);
    TakeU64Inverts(Wrap(p.rotatedAt), rest);
  }

  lemma {:induction false} ScalarsRead(e: SegmentEntry, rest: Bytes)
    requires EntryFits(e)
    ensures TakeScalars(ScalarsThen(e, rest)) == Some((Sealed(e, (map[], 0, [])), rest))
  {
    var s3 := SpansThen(SpansOf(e), rest);
    var s2 := BE64(e.recordCount) + s3;
    TakeFieldInverts(e.name, Field(e.sha256) + s2);
    TakeFieldInverts(e.sha256, s2);
    TakeU64Inverts(e.recordCount, s3);
    SpansRead(SpansOf(e), rest);
  }

  lemma {:induction false} EntryReads(e: SegmentEntry, rest: Bytes)
    requires EntryFits(e)
    ensures TakeEntry(EntryThen(e, rest)) == Some((e, rest))
  {
    ScalarsRead(e, AnchorsThen(e.sealTips, e.sealTreeSize, e.sealFrontier, rest));
    AnchorsRead(e.sealTips, e.sealTreeSize, e.sealFrontier, rest);
  }

  lemma {:induction false} TakeEntriesStep(n: nat, s: Bytes, e: SegmentEntry, s1: Bytes, es: seq<SegmentEntry>,
        s2: Bytes)
    requires n > 0 && TakeEntry(s) == Some((e, s1)) && TakeEntries(n - 1, s1) == Some((es, s2))
    ensures TakeEntries(n, s) == Some(([e] + es, s2))
  {}

  lemma {:induction false} EntriesRead(es: seq<SegmentEntry>, rest: Bytes)
    requires forall i :: 0 <= i < |es| ==> EntryFits(es[i])
    ensures TakeEntries(|es|, EntriesThen(es, rest)) == Some((es, rest))
  {
    if es != [] {
      var more := EntriesThen(es[1..], rest);
      EntryReads(es[0], more);
      EntriesRead(es[1..], rest);
      TakeEntriesStep(|es|, EntryThen(es[0], more), es[0], more, es[1..], rest);
      HeadAndTail(es);
    }
  }

  lemma {:induction false} PolicyReads(p: Policy, rest: Bytes)
    ensures TakePolicy(PolicyThen(p, rest)) == Some(((p.floorYears, Millis(p.hotMax), Millis(p.sealInterval)), rest))
  {
    var s2 := BE64(Wrap(Millis(p.sealInterval))) + rest;
    var s1 := BE64(Wrap(Millis(p.hotMax))) + s2;
    TakeU64Inverts(Wrap(p.floorYears), s1);
    TakeU64Inverts(Wrap(Millis(p.hotMax)), s2);
    TakeU64Inverts(Wrap(Millis(p.sealInterval)), rest);
  }

  lemma {:induction false} InventoryReads(es: seq<SegmentEntry>, rest: Bytes)
    requires |es| < TWO63 && forall i :: 0 <= i < |es| ==> EntryFits(es[i])
    ensures TakeInventory(InventoryThen(es, rest)) == Some((es, rest))
  {
    TakeU64Inverts(|es|, EntriesThen(es, rest));
    EntriesRead(es, rest);
  }

  /** The signed bytes are uniquely decodable: they pin the policy to the
      millisecond, the whole inventory and every anchor. */
  lemma {:induction false} CheckpointRoundTrip(c: Checkpoint)
    requires Fits(c)
    ensures DecodeCheckpoint(CheckpointBytes(c)) == Some(PinnedBy(c))
  {
    var s2 := AnchorsThen(c.chainTips, c.treeSize, c.frontier, []);
    var s1 := InventoryThen(c.segments, s2);
    TagReads(CHECKPOINT_TAG, PolicyThen(c.policy, s1));
    PolicyReads(c.policy, s1);
    InventoryReads(c.segments, s2);
    AnchorsRead(c.chainTips, c.treeSize, c.frontier, []);
  }

  /** Two checkpoints share signed bytes exactly when they differ, if at all, in
      durations by less than a millisecond. */
  lemma {:induction false} SameBytesExactly(a: Checkpoint, b: Checkpoint)
    requires Fits(a) && Fits(b)
    ensures CheckpointBytes(a) == CheckpointBytes(b) <==> PinnedBy(a) == PinnedBy(b)
  {
    CheckpointRoundTrip(a);
    CheckpointRoundTrip(b);
    if PinnedBy(a) == PinnedBy(b) {
      var rest := InventoryThen(a.segments, AnchorsThen(a.chainTips, a.treeSize, a.frontier, []));
      assert PolicyThen(a.policy, rest) == PolicyThen(b.policy, rest);
    }
  }

  /** So distinct checkpoints can share a signed form, against the promise that
      none do: here the hot ceilings are a nanosecond apart. */
  lemma {:induction false} SignedFormShared()
    ensures var a, b := Checkpoint(Policy(7, 5_000_000, 1), [], map[], 0, []),
        Checkpoint(Policy(7, 5_000_001, 1), [], map[], 0, []);
      a != b && Fits(a) && Fits(b) && CheckpointBytes(a) == CheckpointBytes(b)
  {
    var a, b := Checkpoint(Policy(7, 5_000_000, 1), [], map[], 0, []),
        Checkpoint(Policy(7, 5_000_001, 1), [], map[], 0, []);
    assert Millis(a.policy.hotMax) == Millis(b.policy.hotMax) == 5;
    SameBytesExactly(a, b);
  }

  lemma {:induction false} TagsDiffer()
    ensures |CHECKPOINT_TAG| > 10 && |HEAD_TAG| > 10 && CHECKPOINT_TAG[10] != HEAD_TAG[10]
  {}

  lemma {:induction false} StartsWith(tag: Bytes, rest: Bytes, i: nat)
    requires i < |tag|
    ensures (tag + rest)[i] == tag[i]
  {}

  /** One key signs both artifacts, and no checkpoint shares signed bytes with
      any head. */
  lemma {:induction false} DomainsSeparate(c: Checkpoint, e: HeadEnvelope)
    requires Fits(c)
    ensures CheckpointBytes(c) != HeadBytes(e)
  {
    TagsDiffer();
    StartsWith(CHECKPOINT_TAG,
        PolicyThen(c.policy, InventoryThen(c.segments, AnchorsThen(c.chainTips, c.treeSize, c.frontier, []))), 10);
    StartsWith(HEAD_TAG, Field(e.date) + (BE64(e.treeSize) + (Field(e.head) + [])), 10);
  }

  // ---------- SignBytes as the code builds it ----------

  lemma {:induction false} TipsUnfold(keys: seq<Text>, tips: Tips, rest: Bytes, i: nat)
    requires i < |keys| && forall k :: k in keys ==> k in tips
    ensures TipsThen(keys[i..], tips, rest) == TipThen(keys[i], tips[keys[i]], TipsThen(keys[i + 1..], tips, rest))
  {
    assert keys[i..][1..] == keys[i + 1..];
  }

  lemma {:induction false} NoMoreTips(keys: seq<Text>, tips: Tips, rest: Bytes)
    requires forall k :: k in keys ==> k in tips
    ensures TipsThen(keys[|keys|..], tips, rest) == rest
  {}

  method AppendTip(buf0: Bytes, k: Text, tip: ChainTip, ghost rest: Bytes) returns (buf: Bytes)
    ensures buf + rest == buf0 + TipThen(k, tip, rest)
  {
    ConcatAssociates(buf0, Field(k), Field(tip.hash) + (BE64(tip.sequence) + rest));
    buf := buf0 + Field(k);
    ConcatAssociates(buf, Field(tip.hash), BE64(tip.sequence) + rest);
    buf := buf + Field(tip.hash);
    ConcatAssociates(buf, BE64(tip.sequence), rest);
    buf := buf + BE64(tip.sequence);
  }

  method AppendTips(buf0: Bytes, tips: Tips, ghost rest: Bytes) returns (buf: Bytes)
    requires |tips| < TWO63
    ensures buf + rest == buf0 + CountedTips(tips, rest)
  {
    var keys := SortedKeys(tips.Keys);
    buf := buf0 + BE64(|keys|);
    ConcatAssociates(buf0, BE64(|keys|), TipsThen(keys, tips, rest));
    ghost var whole := buf0 + CountedTips(tips, rest);
    hide CountedTips, SortedKeys, TipsThen;
    for i := 0 to |keys|
      invariant buf + TipsThen(keys[i..], tips, rest) == whole
    {
      TipsUnfold(keys, tips, rest, i);
      buf := AppendTip(buf, keys[i], tips[keys[i]], TipsThen(keys[i + 1..], tips, rest));
    }
    NoMoreTips(keys, tips, rest);
  }

  method AppendHashes(buf0: Bytes, hs: seq<Digest>, ghost rest: Bytes) returns (buf: Bytes)
    requires |hs| < TWO63
    ensures buf + rest == buf0 + CountedHashes(hs, rest)
  {
    buf := buf0 + BE64(|hs|);
    ConcatAssociates(buf0, BE64(|hs|), HashesThen(hs, rest));
    for i := 0 to |hs|
      invariant buf + HashesThen(hs[i..], rest) == buf0 + CountedHashes(hs, rest)
    {
      assert hs[i..][1..] == hs[i + 1..];
      ConcatAssociates(buf, Field(hs[i]), HashesThen(hs[i + 1..], rest));
      buf := buf + Field(hs[i]);
    }
  }

  method AppendAnchors(buf0: Bytes, tips: Tips, treeSize: U64, frontier: seq<Digest>, ghost rest: Bytes)
    returns (buf: Bytes)
    requires |tips| < TWO63 && |frontier| < TWO63
    ensures buf + rest == buf0 + AnchorsThen(tips, treeSize, frontier, rest)
  {
    ghost var hashes := CountedHashes(frontier, rest);
    buf := AppendTips(buf0, tips, BE64(treeSize) + hashes);
    ConcatAssociates(buf, BE64(treeSize), hashes);
    buf := AppendHashes(buf + BE64(treeSize), frontier, rest);
  }

  method AppendSpans(buf0: Bytes, p: Spans, ghost rest: Bytes) returns (buf: Bytes)
    ensures buf + rest == buf0 + SpansThen(p, rest)
  {
    buf := buf0 + BE64(Wrap(p.firstIngest)) + BE64(Wrap(p.lastIngest)) + BE64(p.firstGlobal) + BE64(p.lastGlobal)
           + BE64(Wrap(p.sealedAt)) + BE64(Wrap(p.rotatedAt));
  }

  method AppendEntry(buf0: Bytes, e: SegmentEntry, ghost rest: Bytes) returns (buf: Bytes)
    requires EntryFits(e)
    ensures buf + rest == buf0 + EntryThen(e, rest)
  {
    ghost var anchors := AnchorsThen(e.sealTips, e.sealTreeSize, e.sealFrontier, rest);
    ghost var spans := SpansThen(SpansOf(e), anchors);
    buf := buf0 + Field(e.name);
    ConcatAssociates(buf0, Field(e.name), Field(e.sha256) + (BE64(e.recordCount) + spans));
    ConcatAssociates(buf, Field(e.sha256), BE64(e.recordCount) + spans);
    buf := buf + Field(e.sha256);
    ConcatAssociates(buf, BE64(e.recordCount), spans);
    buf := buf + BE64(e.recordCount);
    buf := AppendSpans(buf, SpansOf(e), anchors);
    buf := AppendAnchors(buf, e.sealTips, e.sealTreeSize, e.sealFrontier, rest);
  }

  method AppendInventory(buf0: Bytes, es: seq<SegmentEntry>, ghost rest: Bytes) returns (buf: Bytes)
    requires |es| < TWO63 && forall i :: 0 <= i < |es| ==> EntryFits(es[i])
    ensures buf + rest == buf0 + InventoryThen(es, rest)
  {
    buf := buf0 + BE64(|es|);
    ConcatAssociates(buf0, BE64(|es|), EntriesThen(es, rest));
    for i := 0 to |es|
      invariant buf + EntriesThen(es[i..], rest) == buf0 + InventoryThen(es, rest)
    {
      assert es[i..][1..] == es[i + 1..];
      buf := AppendEntry(buf, es[i], EntriesThen(es[i + 1..], rest));
    }
  }

  method AppendPolicy(buf0: Bytes, p: Policy, ghost rest: Bytes) returns (buf: Bytes)
    ensures buf + rest == buf0 + PolicyThen(p, rest)
  {
    buf := buf0 + BE64(Wrap(p.floorYears)) + BE64(Wrap(Millis(p.hotMax))) + BE64(Wrap(Millis(p.sealInterval)));
  }

  /** SignBytes, as the code grows its buffer, is the canonical encoding. */
  method SignBytes(c: Checkpoint) returns (buf: Bytes)
    requires Fits(c)
    ensures buf == CheckpointBytes(c)
  {
    ghost var anchors := AnchorsThen(c.chainTips, c.treeSize, c.frontier, []);
    buf := AppendPolicy(CHECKPOINT_TAG, c.policy, InventoryThen(c.segments, anchors));
    buf := AppendInventory(buf, c.segments, anchors);
    buf := AppendAnchors(buf, c.chainTips, c.treeSize, c.frontier, []);
    assert buf + [] == buf;
  }

  // ---------- signing, loading ----------

  type SizedCheckpoint = c: Checkpoint | Fits(c) witness Checkpoint(Policy(0, 0, 0), [], map[], 0, [])

  /** The on-disk form. */
  datatype SignedCheckpoint = SignedCheckpoint(checkpoint: SizedCheckpoint, signature: Bytes, publicKey: Bytes)

  function SignCheckpoint(key: Bytes, c: SizedCheckpoint): SignedCheckpoint {
    SignedCheckpoint(c, ED25519.sign(key, CheckpointBytes(c)), ED25519.publicKey(key))
  }

  datatype LoadResult = Loaded(checkpoint: SizedCheckpoint) | NotExist | BadSignature | BelowFloor | Shrinks

  /** LoadCheckpoint: signature, then the regulatory floor, then the shrink gate. */
  function LoadCheckpoint(file: Option<SignedCheckpoint>, pinned: Bytes, configured: Policy): LoadResult {
    match file
    case None => NotExist
    case Some(sc) =>
      if !VerifyMessage(pinned, CheckpointBytes(sc.checkpoint), sc.signature) then BadSignature
      else if sc.checkpoint.policy.floorYears < FLOOR_YEARS_MINIMUM then BelowFloor
      else if configured.floorYears < sc.checkpoint.policy.floorYears then Shrinks
      else Loaded(sc.checkpoint)
  }

  /** A file is loaded exactly if its signature verifies over it under the pinned
      key and the floor it pins is neither below the legal minimum nor above the
      configured one; otherwise the first of these that fails is the answer. */
  lemma {:induction false} LoadsExactly(sc: SignedCheckpoint, pinned: Bytes, configured: Policy)
    ensures var r, floor := LoadCheckpoint(Some(sc), pinned, configured), sc.checkpoint.policy.floorYears;
      var genuine := |pinned| == 32 && |sc.signature| == 64
        && ED25519.verify(pinned, CheckpointBytes(sc.checkpoint), sc.signature);
      && (r == Loaded(sc.checkpoint) <==> genuine && 7 <= floor <= configured.floorYears)
      && (r == BadSignature <==> !genuine) && (r == BelowFloor <==> genuine && floor < 7)
      && (r == Shrinks <==> genuine && floor >= 7 && configured.floorYears < floor)
  {}

  /** A checkpoint the daemon wrote loads back unchanged, under the policy it
      was written with or any with a longer floor. */
  lemma {:induction false} WrittenLoads(key: Bytes, c: SizedCheckpoint, configured: Policy)
    requires FLOOR_YEARS_MINIMUM <= c.policy.floorYears <= configured.floorYears
    ensures LoadCheckpoint(Some(SignCheckpoint(key, c)), ED25519.publicKey(key), configured) == Loaded(c)
  {
    assert Correct(ED25519);
  }

  /** A file that loads under a signature some other checkpoint was given holds
      that checkpoint's policy (to the millisecond), inventory and anchors, or
      the one signature verifies over two different byte strings. */
  lemma {:induction false} LoadedIsPinned(key: Bytes, signed: SizedCheckpoint, sc: SignedCheckpoint, configured: Policy)
    requires sc.signature == SignCheckpoint(key, signed).signature
    requires LoadCheckpoint(Some(sc), ED25519.publicKey(key), configured).Loaded?
    ensures var forged := CheckpointBytes(sc.checkpoint);
      || PinnedBy(sc.checkpoint) == PinnedBy(signed)
      || (forged != CheckpointBytes(signed) && ED25519.verify(ED25519.publicKey(key), forged, sc.signature))
  {
    CheckpointRoundTrip(sc.checkpoint);
    CheckpointRoundTrip(signed);
  }

  // ---------- the boot anchor a checkpoint gives ----------

  predicate HasAnchors(c: Checkpoint) {
    c.treeSize > 0 || exists i :: 0 <= i < |c.segments| && c.segments[i].rotatedAt != 0
  }

  function RotatedNames(es: seq<SegmentEntry>): set<Bytes> {
    if es == [] then {}
    else RotatedNames(Init(es)) + (if Last(es).rotatedAt != 0 then {Last(es).name} else {})
  }

  /** The highest ingest stamp within the rotated segments, at least zero. */
  function RotatedFloor(es: seq<SegmentEntry>): I64 {
    if es == [] then 0
    else
      var floor := RotatedFloor(Init(es));
      if Last(es).rotatedAt != 0 && Last(es).lastIngest > floor then Last(es).lastIngest else floor
  }

  /** BootAnchor. */
  method BootAnchorOf(c: Checkpoint) returns (a: BootAnchor)
    ensures a == BootAnchor(c.chainTips, c.treeSize, c.frontier, RotatedNames(c.segments), RotatedFloor(c.segments))
  {
    var es := c.segments;
    var rotated, floor: I64 := {}, 0;
    for i := 0 to |es|
      invariant rotated == RotatedNames(es[..i]) && floor == RotatedFloor(es[..i])
    {
      assert Init(es[..i + 1]) == es[..i] && Last(es[..i + 1]) == es[i];
      if es[i].rotatedAt != 0 {
        rotated := rotated + {es[i].name};
        if es[i].lastIngest > floor { floor := es[i].lastIngest; }
      }
    }
    assert es[..|es|] == es;
    return BootAnchor(c.chainTips, c.treeSize, c.frontier, rotated, floor);
  }
}
