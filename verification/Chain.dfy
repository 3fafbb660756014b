// The per-source hash chain (internal/chain) and its two verifications: one
// source at a time, as the code walks it, and in global commit order, as the
// store grows it.

module Chain {
  import opened Bytes
  import opened Canonical
  import opened Crypto
  import opened Ocsf

  const GENESIS: Digest := Zeros(32)

  const CHAIN_TAG: Bytes := Ascii("ocu-audit-chain/v1\0")

  function ChainInput(prev: Bytes, sequence: U64, event: Bytes): Bytes {
    CHAIN_TAG + prev + BE64(sequence) + event
  }

  /** Compute. */
  function ChainHash(prev: Bytes, sequence: U64, event: Bytes): Digest {
    SHA256(ChainInput(prev, sequence, event))
  }

  /** copy into a fresh 32-byte buffer. */
  function Pad32(prev: Bytes): Digest {
    if |prev| >= 32 then prev[..32] else prev + Zeros(32 - |prev|)
  }

  /** Author: the record with its linkage filled in. */
  function Author(r: Record, prev: Bytes): Record {
    var p := Pad32(prev);
    r.(prevHash := p, chainHash := ChainHash(p, r.sequence, CanonicalEventBytes(r)))
  }

  /** Verify: both linkage fields recompute. */
  predicate VerifyRecord(r: Record, prev: Bytes) {
    r.prevHash == prev && r.chainHash == ChainHash(r.prevHash, r.sequence, CanonicalEventBytes(r))
  }

  datatype ChainTip = ChainTip(hash: Text, sequence: U64)
  type Tips = map<Text, ChainTip>

  function TipOf(r: Record): ChainTip {
    ChainTip(r.chainHash, r.sequence)
  }

  /** r continues a chain whose tip is the given one (None: from genesis). */
  predicate LinksOnto(tip: Option<ChainTip>, r: Record) {
    match tip
    case None => VerifyRecord(r, GENESIS)
    case Some(t) => r.sequence > t.sequence && VerifyRecord(r, t.hash)
  }

  function Lookup(tips: Tips, source: Text): Option<ChainTip> {
    if source in tips then Some(tips[source]) else None
  }

  // ---------- one source's walk ----------

  function Last<T>(s: seq<T>): T requires s != [] { s[|s| - 1] }
  function Init<T>(s: seq<T>): seq<T> requires s != [] { s[..|s| - 1] }

  function TipAfter(tip: Option<ChainTip>, rs: seq<Record>): Option<ChainTip> {
    if rs == [] then tip else Some(TipOf(Last(rs)))
  }

  /** Every record carries the source and links onto its predecessor. */
  predicate ChainOk(source: Text, tip: Option<ChainTip>, rs: seq<Record>) {
    rs == [] ||
    (ChainOk(source, tip, Init(rs)) && Last(rs).source == source && LinksOnto(TipAfter(tip, Init(rs)), Last(rs)))
  }

  lemma {:induction false} ChainOkPrefix(source: Text, tip: Option<ChainTip>, rs: seq<Record>, k: nat)
    requires k <= |rs| && ChainOk(source, tip, rs)
    ensures ChainOk(source, tip, rs[..k])
  {
    if k < |rs| {
      ChainOkPrefix(source, tip, Init(rs), k);
      assert Init(rs)[..k] == rs[..k];
    } else {
      assert rs[..k] == rs;
    }
  }

  /** verifyChainFrom. */
  method VerifyChainFrom(source: Text, prev0: Text, lastSeq0: U64, haveSeq0: bool, rs: seq<Record>) returns (ok: bool)
    requires haveSeq0 || prev0 == GENESIS
    ensures ok <==> ChainOk(source, if haveSeq0 then Some(ChainTip(prev0, lastSeq0)) else None, rs)
  {
    ghost var tip := if haveSeq0 then Some(ChainTip(prev0, lastSeq0)) else None;
    var prev, lastSeq, haveSeq := prev0, lastSeq0, haveSeq0;
    for i := 0 to |rs|
      invariant ChainOk(source, tip, rs[..i])
      invariant haveSeq ==> TipAfter(tip, rs[..i]) == Some(ChainTip(prev, lastSeq))
      invariant !haveSeq ==> TipAfter(tip, rs[..i]) == None && prev == GENESIS
    {
      assert Init(rs[..i + 1]) == rs[..i] && Last(rs[..i + 1]) == rs[i];
      if rs[i].source != source || (haveSeq && rs[i].sequence <= lastSeq) || !VerifyRecord(rs[i], prev) {
        assert !ChainOk(source, tip, rs[..i + 1]);
        if ChainOk(source, tip, rs) { ChainOkPrefix(source, tip, rs, i + 1); }
        return false;
      }
      prev, lastSeq, haveSeq := rs[i].chainHash, rs[i].sequence, true;
    }
    assert rs[..|rs|] == rs;
    return true;
  }

  method VerifyChain(source: Text, rs: seq<Record>) returns (ok: bool)
    ensures ok <==> ChainOk(source, None, rs)
  {
    ok := VerifyChainFrom(source, GENESIS, 0, false, rs);
  }

  method VerifyChainAnchored(source: Text, anchorHash: Text, anchorSeq: U64, rs: seq<Record>) returns (ok: bool)
    ensures ok <==> ChainOk(source, Some(ChainTip(anchorHash, anchorSeq)), rs)
  {
    ok := VerifyChainFrom(source, anchorHash, anchorSeq, true, rs);
  }

  // ---------- all sources, in commit order ----------

  function Advance(tips: Tips, rs: seq<Record>): Tips {
    if rs == [] then tips else Advance(tips, Init(rs))[Last(rs).source := TipOf(Last(rs))]
  }

  /** Each record links onto its source's tip at the time it was committed. */
  predicate Linked(tips: Tips, rs: seq<Record>) {
    rs == [] ||
    (Linked(tips, Init(rs)) && LinksOnto(Lookup(Advance(tips, Init(rs)), Last(rs).source), Last(rs)))
  }

  /** Of two records that each link onto a log, the second links behind the first
      if they are of different sources or the first is its predecessor. */
  lemma {:induction false} OneAfterOther(tips: Tips, log: seq<Record>, r: Record, r': Record)
    requires Linked(tips, log + [r]) && Linked(tips, log + [r'])
    ensures Linked(tips, log + [r, r'])
        <==> r.source != r'.source || (r.chainHash == r'.prevHash && r.sequence < r'.sequence)
  {
    hide ChainHash;
    assert Init(log + [r]) == log && Last(log + [r]) == r;
    assert Init(log + [r']) == log && Last(log + [r']) == r';
    assert Init(log + [r, r']) == log + [r] && Last(log + [r, r']) == r';
  }

  lemma {:induction false} AdvanceSplits(tips: Tips, a: seq<Record>, b: seq<Record>)
    ensures Advance(tips, a + b) == Advance(Advance(tips, a), b)
  {
    if b == [] {
      assert a + b == a;
    } else {
      AdvanceSplits(tips, a, Init(b));
      assert Init(a + b) == a + Init(b);
    }
  }

  /** A log verifies from the start exactly when a prefix does and the rest
      verifies from the prefix's tips: what anchoring a boot relies on. */
  lemma {:induction false} LinkedSplits(tips: Tips, a: seq<Record>, b: seq<Record>)
    ensures Linked(tips, a + b) <==> Linked(tips, a) && Linked(Advance(tips, a), b)
  {
    if b == [] {
      assert a + b == a;
    } else {
      LinkedSplits(tips, a, Init(b));
      AdvanceSplits(tips, a, Init(b));
      assert Init(a + b) == a + Init(b);
    }
  }

  /** The records of one source, in commit order. */
  function BySource(rs: seq<Record>, source: Text): seq<Record> {
    if rs == [] then []
    else BySource(Init(rs), source) + (if Last(rs).source == source then [Last(rs)] else [])
  }

  lemma {:induction false} AdvanceBySource(tips: Tips, rs: seq<Record>, source: Text)
    ensures Lookup(Advance(tips, rs), source) == TipAfter(Lookup(tips, source), BySource(rs, source))
  {
    if rs != [] { AdvanceBySource(tips, Init(rs), source); }
  }

  /** Walking each source separately decides the same as the global walk. */
  lemma {:induction false} LinkedBySource(tips: Tips, rs: seq<Record>)
    ensures Linked(tips, rs) <==> forall s :: ChainOk(s, Lookup(tips, s), BySource(rs, s))
  {
    if rs != [] {
      var src := Last(rs).source;
      LinkedBySource(tips, Init(rs));
      AdvanceBySource(tips, Init(rs), src);
      var b := BySource(Init(rs), src);
      assert Init(b + [Last(rs)]) == b;
      assert BySource(rs, src) == b + [Last(rs)];
      forall s: Text | s != src ensures BySource(rs, s) == BySource(Init(rs), s) {}
    }
  }

  lemma {:induction false} BySourceNonempty(rs: seq<Record>, i: nat)
    requires i < |rs|
    ensures BySource(rs, rs[i].source) != []
  {
    if i < |rs| - 1 { BySourceNonempty(Init(rs), i); }
  }

  /** The sources of a log, in order of first appearance. */
  function Sources(rs: seq<Record>): seq<Text> {
    if rs == [] then []
    else
      var before := Sources(Init(rs));
      if Last(rs).source in before then before else before + [Last(rs).source]
  }

  lemma {:induction false} SourcesAreThose(rs: seq<Record>, s: Text)
    ensures s in Sources(rs) <==> BySource(rs, s) != []
  {
    if rs != [] { SourcesAreThose(Init(rs), s); }
  }

  lemma {:induction false} FirstOf(rs: seq<Record>, source: Text) returns (k: nat)
    requires BySource(rs, source) != []
    ensures k < |rs| && rs[k].source == source
  {
    if Last(rs).source == source { k := |rs| - 1; } else { k := FirstOf(Init(rs), source); }
  }

  /** At k source a has been seen, and b has not. */
  predicate SeenFirst(rs: seq<Record>, k: nat, a: Text, b: Text) {
    k < |rs| && rs[k].source == a && forall l :: 0 <= l <= k ==> rs[l].source != b
  }

  /** Each source once, in the order of their first records. */
  lemma {:induction false} SourcesInOrder(rs: seq<Record>, i: nat, j: nat)
    requires i < j < |Sources(rs)|
    ensures exists k :: SeenFirst(rs, k, Sources(rs)[i], Sources(rs)[j])
  {
    var init, before := Init(rs), Sources(Init(rs));
    var k: nat;
    if j < |before| {
      SourcesInOrder(init, i, j);
      k :| SeenFirst(init, k, before[i], before[j]);
    } else {
      SourcesAreThose(init, before[i]);
      k := FirstOf(init, before[i]);
      forall l | 0 <= l <= k ensures init[l].source != Sources(rs)[j] {
        BySourceNonempty(init, l);
        SourcesAreThose(init, init[l].source);
      }
    }
    assert forall l :: 0 <= l <= k ==> rs[l] == init[l];
    assert SeenFirst(rs, k, Sources(rs)[i], Sources(rs)[j]);
  }

  /** The grouping loop both verifiers start with. */
  method GroupBySource(rs: seq<Record>) returns (bySource: map<Text, seq<Record>>, order: seq<Text>)
    ensures order == Sources(rs)
    ensures forall s :: s in order <==> s in bySource
    ensures forall s :: s in bySource ==> bySource[s] == BySource(rs, s)
  {
    bySource, order := map[], [];
    for i := 0 to |rs|
      invariant order == Sources(rs[..i])
      invariant forall s :: s in order <==> s in bySource
      invariant forall s :: s in bySource ==> bySource[s] == BySource(rs[..i], s)
    {
      assert Init(rs[..i + 1]) == rs[..i] && Last(rs[..i + 1]) == rs[i];
      var src := rs[i].source;
      if src !in bySource {
        SourcesAreThose(rs[..i], src);
        order := order + [src];
        bySource := bySource[src := []];
      }
      bySource := bySource[src := bySource[src] + [rs[i]]];
    }
    assert rs[..|rs|] == rs;
  }

  lemma {:induction false} OneSourceFails(tips: Tips, rs: seq<Record>, s: Text)
    requires !ChainOk(s, Lookup(tips, s), BySource(rs, s))
    ensures !Linked(tips, rs)
  {
    LinkedBySource(tips, rs);
  }

  lemma {:induction false} AllSourcesPass(tips: Tips, rs: seq<Record>)
    requires forall k :: 0 <= k < |Sources(rs)| ==>
      ChainOk(Sources(rs)[k], Lookup(tips, Sources(rs)[k]), BySource(rs, Sources(rs)[k]))
    ensures Linked(tips, rs)
  {
    forall s: Text ensures ChainOk(s, Lookup(tips, s), BySource(rs, s)) {
      SourcesAreThose(rs, s);
    }
    LinkedBySource(tips, rs);
  }

  /** VerifyChainsFromRaw: every source chain from genesis; the sources seen. */
  method VerifyChainsFromRaw(rs: seq<Record>) returns (order: Option<seq<Text>>)
    ensures order.Some? <==> Linked(map[], rs)
    ensures order.Some? ==> order.value == Sources(rs)
  {
    hide ChainOk, Linked, BySource, Sources;
    var bySource, seen := GroupBySource(rs);
    for k := 0 to |seen|
      invariant forall j :: 0 <= j < k ==> ChainOk(seen[j], Lookup(map[], seen[j]), BySource(rs, seen[j]))
    {
      var ok := VerifyChain(seen[k], bySource[seen[k]]);
      if !ok {
        OneSourceFails(map[], rs, seen[k]);
        return None;
      }
    }
    AllSourcesPass(map[], rs);
    return Some(seen);
  }

  /** verifyChainsAnchored: every source chain from its anchored tip. */
  method VerifyChainsAnchored(rs: seq<Record>, tips: Tips) returns (ok: bool)
    ensures ok <==> Linked(tips, rs)
  {
    hide ChainOk, Linked, BySource, Sources;
    var bySource, seen := GroupBySource(rs);
    for k := 0 to |seen|
      invariant forall j :: 0 <= j < k ==> ChainOk(seen[j], Lookup(tips, seen[j]), BySource(rs, seen[j]))
    {
      var src := seen[k];
      if src in tips {
        ok := VerifyChainAnchored(src, tips[src].hash, tips[src].sequence, bySource[src]);
      } else {
        ok := VerifyChain(src, bySource[src]);
      }
      if !ok {
        OneSourceFails(tips, rs, src);
        return;
      }
    }
    AllSourcesPass(tips, rs);
    return true;
  }

  // ---------- consequences of a verified log ----------

  type SourceSeq = (Text, U64)

  function Key(r: Record): SourceSeq {
    (r.source, r.sequence)
  }

  function Keys(rs: seq<Record>): set<SourceSeq> {
    set r | r in rs :: Key(r)
  }

  /** In a verified log tips are digests, no committed sequence exceeds its
      source's tip, and every committed source has a tip. */
  lemma {:induction false} TipsBound(rs: seq<Record>)
    requires Linked(map[], rs)
    ensures forall s :: s in Advance(map[], rs) ==> |Advance(map[], rs)[s].hash| == 32
    ensures forall r :: r in rs ==>
      r.source in Advance(map[], rs) && r.sequence <= Advance(map[], rs)[r.source].sequence
  {
    if rs != [] {
      TipsBound(Init(rs));
      assert rs == Init(rs) + [Last(rs)];
    }
  }

  /** Sequences strictly increase along each source, so keys are unique. */
  lemma {:induction false} SequencesIncrease(rs: seq<Record>, i: nat, j: nat)
    requires Linked(map[], rs) && i < j < |rs| && rs[i].source == rs[j].source
    ensures rs[i].sequence < rs[j].sequence
  {
    if j < |rs| - 1 {
      SequencesIncrease(Init(rs), i, j);
    } else {
      TipsBound(Init(rs));
      assert rs[i] == Init(rs)[i] && Init(rs)[i] in Init(rs);
    }
  }

  // ---------- tamper evidence of one link ----------

  lemma {:induction false} ChainInputInjective(p: Digest, q: U64, e: Bytes, p': Digest, q': U64, e': Bytes)
    requires ChainInput(p, q, e) == ChainInput(p', q', e')
    ensures p == p' && e == e'
  {
    var x, y := ChainInput(p, q, e), ChainInput(p', q', e');
    assert x[19..51] == p && x[59..] == e;
    assert y[19..51] == p' && y[59..] == e';
  }

  function ChainInputOf(r: Record): Bytes {
    ChainInput(r.prevHash, r.sequence, CanonicalEventBytes(r))
  }

  /** Two verified records with one chain hash agree on every hashed field and
      on their predecessor, or their hash inputs collide. */
  lemma {:induction false} LinkBinds(a: Record, b: Record)
    requires |a.prevHash| == |b.prevHash| == 32
    requires VerifyRecord(a, a.prevHash) && VerifyRecord(b, b.prevHash)
    requires a.chainHash == b.chainHash
    ensures
      || (EventOf(a) == EventOf(b) && SameValue(a.payload, b.payload) && a.prevHash == b.prevHash)
      || Collision((ChainInputOf(a), ChainInputOf(b)))
  {
    if ChainInputOf(a) == ChainInputOf(b) {
      CanonicalBinds(a.payload, b.payload);
      ChainInputInjective(a.prevHash, a.sequence, CanonicalEventBytes(a),
          b.prevHash, b.sequence, CanonicalEventBytes(b));
      EventRoundTrip(EventOf(a));
      EventRoundTrip(EventOf(b));
    }
  }
}
