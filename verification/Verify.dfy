// The independent verifier (internal/store/verify.go) and what its acceptance
// is evidence of.

module Verify {
  import opened Bytes
  import opened Canonical
  import opened Crypto
  import opened Ocsf
  import opened Chain
  import opened Signer
  import opened Store
  import opened Rfc6962
  import opened MerkleTree

  datatype VerifyResult = VerifyResult(sources: seq<Text>, recordCount: nat, head: Digest)

  /** What VerifyStore demands of a raw record list and a signed head. */
  predicate Accepts(rs: seq<Record>, sh: SignedHead, pinned: Bytes, sample: nat) {
    && Linked(map[], rs)
    && |rs| == sh.envelope.treeSize
    && MTH(LeavesOf(rs)) == sh.envelope.head
    && |pinned| == 32 && sh.publicKey == pinned && |sh.signature| == 64
    && ED25519.verify(pinned, HeadBytes(sh.envelope), sh.signature)
    && (rs != [] ==> sample < |rs|)
  }

  /** The inclusion proof built for the sampled record always verifies. */
  method VerifySample(leaves: Leaves, head: Digest, sample: nat) returns (ok: bool)
    requires sample < |leaves| && head == MTH(leaves)
    ensures ok
  {
    hide MTH, VerifyInclusion;
    var acc := new Accumulator();
    acc.AppendAll(leaves);
    var proof := acc.InclusionProof(sample);
    InclusionComplete(leaves, sample);
    return proof.Some? && VerifyInclusion(sample, |leaves|, leaves[sample], head, proof.value);
  }

  /** VerifyStore accepts exactly those. */
  method VerifyStore(rs: seq<Record>, sh: SignedHead, pinned: Bytes, sample: nat) returns (r: Option<VerifyResult>)
    ensures r.Some? <==> Accepts(rs, sh, pinned, sample)
    ensures r.Some? ==> r.value == VerifyResult(Sources(rs), |rs|, MTH(LeavesOf(rs)))
  {
    var order := VerifyChainsFromRaw(rs);
    if order.None? { return None; }
    var leaves := LeavesOf(rs);
    var head := RootFromLeaves(leaves);
    if |rs| != sh.envelope.treeSize || head != sh.envelope.head || !VerifyHead(sh, pinned) { return None; }
    if rs != [] {
      if sample >= |rs| { return None; }
      var ok := VerifySample(leaves, head, sample);
      if !ok { return None; }
    }
    return Some(VerifyResult(order.value, |rs|, head));
  }

  // ---------- tamper evidence ----------

  /** Every record of a verified log was hashed from a 32-byte predecessor. */
  lemma {:induction false} LinkedRecord(rs: seq<Record>, i: nat)
    requires Linked(map[], rs) && i < |rs|
    ensures |rs[i].prevHash| == 32 && VerifyRecord(rs[i], rs[i].prevHash)
  {
    if i < |rs| - 1 {
      LinkedRecord(Init(rs), i);
    } else {
      TipsBound(Init(rs));
    }
  }

  /** Equality of everything a record's hash covers. */
  predicate SameEvent(a: Record, b: Record) {
    && a.source == b.source && a.sequence == b.sequence && a.ingestTime == b.ingestTime
    && a.traceId == b.traceId && a.sessionId == b.sessionId && a.actorId == b.actorId
    && a.resource == b.resource && a.action == b.action && a.outcome == b.outcome
    && SameValue(a.payload, b.payload)
    && a.prevHash == b.prevHash && a.chainHash == b.chainHash
  }

  /** The two inputs that collide if two different logs verify under one head:
      in the tree if the chain hashes differ, else in the first link that does. */
  function TamperCollision(a: seq<Record>, b: seq<Record>, i: nat): InputPair
    requires |a| == |b| && i < |a|
    decreases |a| - i
  {
    if LeavesOf(a) != LeavesOf(b) then RootCollision(LeavesOf(a), LeavesOf(b), 0, |a|)
    else if !SameEvent(a[i], b[i]) || i + 1 == |a| then (ChainInputOf(a[i]), ChainInputOf(b[i]))
    else TamperCollision(a, b, i + 1)
  }

  lemma {:induction false} StepBinds(a: seq<Record>, b: seq<Record>, i: nat)
    requires Linked(map[], a) && Linked(map[], b) && |a| == |b| && i < |a|
    requires LeavesOf(a) == LeavesOf(b)
    ensures SameEvent(a[i], b[i]) || Collision((ChainInputOf(a[i]), ChainInputOf(b[i])))
  {
    LinkedRecord(a, i);
    LinkedRecord(b, i);
    assert LeavesOf(a)[i] == LeavesOf(b)[i];
    LinkBinds(a[i], b[i]);
  }

  lemma {:induction false} TamperSearch(a: seq<Record>, b: seq<Record>, i: nat)
    requires Linked(map[], a) && Linked(map[], b) && |a| == |b| && i < |a|
    requires LeavesOf(a) == LeavesOf(b)
    ensures (forall k :: i <= k < |a| ==> SameEvent(a[k], b[k])) || Collision(TamperCollision(a, b, i))
    decreases |a| - i
  {
    hide Linked, SameEvent, LeavesOf, RootCollision;
    StepBinds(a, b, i);
    if SameEvent(a[i], b[i]) && i + 1 < |a| { TamperSearch(a, b, i + 1); }
  }

  /** Two logs of one size and one tree hash agree record by record. */
  lemma {:induction false} SameRoot(a: seq<Record>, b: seq<Record>)
    requires Linked(map[], a) && Linked(map[], b) && |a| == |b| && MTH(LeavesOf(a)) == MTH(LeavesOf(b))
    ensures (forall k :: 0 <= k < |a| ==> SameEvent(a[k], b[k])) || Collision(TamperCollision(a, b, 0))
  {
    if a != [] {
      var la, lb := LeavesOf(a), LeavesOf(b);
      WholeRootIsMTH(la);
      WholeRootIsMTH(lb);
      RootBinds(la, lb, 0, |a|);
      if la == lb { TamperSearch(a, b, 0); }
    }
  }

  /** Tamper evidence: two record lists accepted under the same head and tree
      size agree record by record on every hashed field, or the two given
      inputs are a SHA-256 collision.  Mutation, reordering across sources,
      insertion and deletion are all covered. */
  lemma {:induction false} TamperEvident(a: seq<Record>, b: seq<Record>, sa: SignedHead, sb: SignedHead,
        pinned: Bytes, i: nat, j: nat)
    requires Accepts(a, sa, pinned, i) && Accepts(b, sb, pinned, j)
    requires sa.envelope.head == sb.envelope.head && sa.envelope.treeSize == sb.envelope.treeSize
    ensures |a| == |b|
    ensures (forall k :: 0 <= k < |a| ==> SameEvent(a[k], b[k])) || Collision(TamperCollision(a, b, 0))
  {
    SameRoot(a, b);
  }

  /** The head the daemon signs for its log (cmd/ocu-audit/main.go). */
  function HeadOf(log: seq<Record>, date: Text): HeadEnvelope
    requires |log| < TWO64
  {
    HeadEnvelope(date, |log|, MTH(LeavesOf(log)))
  }

  /** Against the signer itself, who may vouch for any head that others hand
      around: what is accepted under a signature the daemon gave its log is that
      log, record by record, or a SHA-256 collision is in hand, or a signature
      over bytes the daemon did not sign. */
  lemma {:induction false} SignatureBinds(key: Bytes, log: seq<Record>, date: Text, rs: seq<Record>, sh: SignedHead,
        sample: nat)
    requires Linked(map[], log) && |log| < TWO64
    requires sh.signature == SignHead(key, HeadOf(log, date)).signature
    requires Accepts(rs, sh, ED25519.publicKey(key), sample)
    ensures
      || (|rs| == |log| && forall k :: 0 <= k < |log| ==> SameEvent(rs[k], log[k]))
      || (|rs| == |log| && Collision(TamperCollision(rs, log, 0)))
      || HeadForged(key, HeadOf(log, date), sh)
  {
    hide SameEvent, MTH, LeavesOf, Linked, TamperCollision, HeadBytes;
    HeadIsPinned(key, HeadOf(log, date), sh);
    if sh.envelope == HeadOf(log, date) { SameRoot(rs, log); }
  }

  /** And it accepts the daemon's own. */
  lemma {:induction false} OwnHeadAccepted(key: Bytes, log: seq<Record>, date: Text, sample: nat)
    requires Linked(map[], log) && |log| < TWO64 && (log != [] ==> sample < |log|)
    ensures Accepts(log, SignHead(key, HeadOf(log, date)), ED25519.publicKey(key), sample)
  {
    SignedHeadVerifies(key, HeadOf(log, date));
  }

  /** Chain checking alone accepts every prefix, so truncation shows only
      against a head: the prefix verifies, but not under the same head. */
  lemma {:induction false} TruncationEvident(a: seq<Record>, k: nat, sh: SignedHead, pinned: Bytes, i: nat, j: nat)
    requires Accepts(a, sh, pinned, i) && k < |a|
    ensures Linked(map[], a[..k]) && !Accepts(a[..k], sh, pinned, j)
  {
    LinkedSplits(map[], a[..k], a[k..]);
    assert a == a[..k] + a[k..];
  }

  /** The consistency check between two heads of one log: it passes for exactly
      the earlier sizes. */
  method VerifyGrowth(rs: seq<Record>, size1: nat) returns (ok: bool)
    ensures ok <==> size1 <= |rs|
  {
    if size1 > |rs| { return false; }
    var leaves := LeavesOf(rs);
    var root1 := RootFromLeaves(LeavesOf(rs[..size1]));
    var root2 := RootFromLeaves(leaves);
    var acc := new Accumulator();
    acc.AppendAll(leaves);
    assert LeavesOf(rs[..size1]) == leaves[..size1];
    var proof := acc.ConsistencyProof(size1);
    ConsistencyComplete(leaves, size1);
    ok := VerifyConsistency(size1, |rs|, root1, root2, proof.value);
  }
}
