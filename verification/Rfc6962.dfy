// The Merkle tree of RFC 6962: tree hash (section 2.1), audit paths (2.1.1)
// and consistency proofs (2.1.2), with the checks a verifier makes of both.
// MTH is the RFC's own recursion on slices; everything else works on index
// ranges of one leaf list, which is what an accumulator's proofs need.

module Rfc6962 {
  import opened Bytes
  import opened Crypto

  /** Leaf data in tree order; the store's leaves are committed chain hashes. */
  type Leaves = seq<Bytes>

  function LeafInput(data: Bytes): Bytes { [0] + data }

  function NodeInput(l: Digest, r: Digest): Bytes { [1] + l + r }

  function HashLeaf(data: Bytes): Digest { SHA256(LeafInput(data)) }

  function HashChildren(l: Digest, r: Digest): Digest { SHA256(NodeInput(l, r)) }

  lemma LeafInputInjective(a: Bytes, b: Bytes)
    requires LeafInput(a) == LeafInput(b)
    ensures a == b
  {
    assert LeafInput(a)[1..] == a && LeafInput(b)[1..] == b;
  }

  lemma NodeInputInjective(l: Digest, r: Digest, l': Digest, r': Digest)
    requires NodeInput(l, r) == NodeInput(l', r')
    ensures l == l' && r == r'
  {
    assert NodeInput(l, r)[1..33] == l && NodeInput(l', r')[1..33] == l';
    assert NodeInput(l, r)[33..] == r && NodeInput(l', r')[33..] == r';
  }

  // ---------- powers of two ----------

  function Pow2(k: nat): (p: nat)
    ensures p > k
  {
    if k == 0 then 1 else 2 * Pow2(k - 1)
  }

  lemma {:induction false} Pow2Monotone(a: nat, b: nat)
    requires a <= b
    ensures Pow2(a) <= Pow2(b)
  {
    if a < b { Pow2Monotone(a, b - 1); }
  }

  predicate PowerOfTwo(k: nat) {
    exists l: nat :: l < k && Pow2(l) == k
  }

  /** k is the largest power of two smaller than n. */
  predicate IsSplit(n: nat, k: nat) {
    1 <= k < n <= 2 * k && PowerOfTwo(k)
  }

  lemma {:induction false} SplitExists(n: nat)
    requires n >= 2
    ensures exists k :: 0 <= k < n && IsSplit(n, k)
  {
    if n == 2 {
      assert Pow2(0) == 1 && IsSplit(2, 1);
    } else {
      SplitExists((n + 1) / 2);
      var k :| 0 <= k < (n + 1) / 2 && IsSplit((n + 1) / 2, k);
      var l: nat :| l < k && Pow2(l) == k;
      assert Pow2(l + 1) == 2 * k && IsSplit(n, 2 * k);
    }
  }

  lemma {:induction false} IsSplitUnique(n: nat, k: nat, j: nat)
    requires IsSplit(n, k) && IsSplit(n, j)
    ensures k == j
  {
    var a: nat :| a < k && Pow2(a) == k;
    var b: nat :| b < j && Pow2(b) == j;
    if a < b { Pow2Monotone(a + 1, b); }
    if b < a { Pow2Monotone(b + 1, a); }
  }

  function Split(n: nat): (k: nat)
    requires n >= 2
    ensures IsSplit(n, k)
  {
    SplitExists(n);
    assert forall k: nat, j: nat :: IsSplit(n, k) && IsSplit(n, j) ==> k == j by {
      forall k: nat, j: nat | IsSplit(n, k) && IsSplit(n, j) ensures k == j { IsSplitUnique(n, k, j); }
    }
    var k :| 0 <= k < n && IsSplit(n, k);
    k
  }

  // ---------- the tree hash ----------

  /** Section 2.1: the Merkle tree hash of an ordered list of inputs. */
  function MTH(d: Leaves): Digest
    decreases |d|
  {
    if |d| == 0 then SHA256([])
    else if |d| == 1 then HashLeaf(d[0])
    else
      var k := Split(|d|);
      HashChildren(MTH(d[..k]), MTH(d[k..]))
  }

  /** The tree hash of d[lo..hi], by index. */
  function Root(d: Leaves, lo: nat, hi: nat): Digest
    requires lo < hi <= |d|
    decreases hi - lo
  {
    if hi - lo == 1 then HashLeaf(d[lo])
    else
      var mid := lo + Split(hi - lo);
      HashChildren(Root(d, lo, mid), Root(d, mid, hi))
  }

  lemma {:induction false} MTHUnfolds(d: Leaves, lo: nat, mid: nat, hi: nat)
    requires lo < hi <= |d| && hi - lo > 1 && mid == lo + Split(hi - lo)
    ensures MTH(d[lo..hi]) == HashChildren(MTH(d[lo..mid]), MTH(d[mid..hi]))
  {
    SliceSplits(d, lo, mid, hi);
  }

  lemma {:induction false} OneLeaf(d: Leaves, lo: nat)
    requires lo < |d|
    ensures Root(d, lo, lo + 1) == MTH(d[lo..lo + 1]) == HashLeaf(d[lo])
  {}

  lemma {:induction false} RootUnfolds(d: Leaves, lo: nat, mid: nat, hi: nat)
    requires lo < hi <= |d| && hi - lo > 1 && mid == lo + Split(hi - lo)
    ensures Root(d, lo, hi) == HashChildren(Root(d, lo, mid), Root(d, mid, hi))
  {}

  lemma {:induction false} RootIsMTH(d: Leaves, lo: nat, hi: nat)
    requires lo < hi <= |d|
    ensures Root(d, lo, hi) == MTH(d[lo..hi])
    decreases hi - lo
  {
    hide Root, MTH, HashLeaf, HashChildren, Split;
    if hi - lo == 1 {
      OneLeaf(d, lo);
    } else {
      var mid := lo + Split(hi - lo);
      RootIsMTH(d, lo, mid);
      RootIsMTH(d, mid, hi);
      MTHUnfolds(d, lo, mid, hi);
      RootUnfolds(d, lo, mid, hi);
    }
  }

  lemma {:induction false} WholeRootIsMTH(d: Leaves)
    requires d != []
    ensures Root(d, 0, |d|) == MTH(d)
  {
    RootIsMTH(d, 0, |d|);
    assert d[0..|d|] == d;
  }

  /** A range hash depends on the leaves of the range only. */
  lemma {:induction false} RootLocal(d: Leaves, e: Leaves, lo: nat, hi: nat)
    requires lo < hi <= |d| && hi <= |e|
    requires forall i :: lo <= i < hi ==> d[i] == e[i]
    ensures Root(d, lo, hi) == Root(e, lo, hi)
    decreases hi - lo
  {
    if hi - lo > 1 {
      var mid := lo + Split(hi - lo);
      RootLocal(d, e, lo, mid);
      RootLocal(d, e, mid, hi);
    }
  }

  // ---------- binding: equal roots mean equal leaves, or a collision ----------

  predicate Agree(a: Leaves, b: Leaves, lo: nat, hi: nat)
    requires hi <= |a| && hi <= |b|
  {
    forall i :: lo <= i < hi ==> a[i] == b[i]
  }

  /** Where two equal-size ranges with one root collide if they differ. */
  function RootCollision(a: Leaves, b: Leaves, lo: nat, hi: nat): InputPair
    requires lo < hi <= |a| && hi <= |b|
    decreases hi - lo
  {
    if hi - lo == 1 then (LeafInput(a[lo]), LeafInput(b[lo]))
    else
      var mid := lo + Split(hi - lo);
      var x := NodeInput(Root(a, lo, mid), Root(a, mid, hi));
      var y := NodeInput(Root(b, lo, mid), Root(b, mid, hi));
      if x != y then (x, y)
      else if !Agree(a, b, lo, mid) then RootCollision(a, b, lo, mid)
      else RootCollision(a, b, mid, hi)
  }

  lemma {:induction false} RootBinds(a: Leaves, b: Leaves, lo: nat, hi: nat)
    requires lo < hi <= |a| && hi <= |b|
    requires Root(a, lo, hi) == Root(b, lo, hi)
    ensures Agree(a, b, lo, hi) || Collision(RootCollision(a, b, lo, hi))
    decreases hi - lo
  {
    if hi - lo == 1 {
      if LeafInput(a[lo]) == LeafInput(b[lo]) { LeafInputInjective(a[lo], b[lo]); }
    } else {
      var mid := lo + Split(hi - lo);
      var x := NodeInput(Root(a, lo, mid), Root(a, mid, hi));
      var y := NodeInput(Root(b, lo, mid), Root(b, mid, hi));
      if x == y {
        NodeInputInjective(Root(a, lo, mid), Root(a, mid, hi), Root(b, lo, mid), Root(b, mid, hi));
        RootBinds(a, b, lo, mid);
        RootBinds(a, b, mid, hi);
      }
    }
  }

  // ---------- audit paths (section 2.1.1) ----------

  /** PATH of leaf i in the subtree over [lo, hi), siblings from the leaf up. */
  function Path(d: Leaves, lo: nat, hi: nat, i: nat): seq<Digest>
    requires lo <= i < hi <= |d|
    decreases hi - lo
  {
    if hi - lo == 1 then []
    else
      var mid := lo + Split(hi - lo);
      if i < mid then Path(d, lo, mid, i) + [Root(d, mid, hi)]
      else Path(d, mid, hi, i) + [Root(d, lo, mid)]
  }

  lemma {:induction false} PathUnfolds(d: Leaves, lo: nat, mid: nat, hi: nat, i: nat)
    requires lo <= i < hi <= |d| && hi - lo > 1 && mid == lo + Split(hi - lo)
    ensures Path(d, lo, hi, i) ==
      if i < mid then Path(d, lo, mid, i) + [Root(d, mid, hi)] else Path(d, mid, hi, i) + [Root(d, lo, mid)]
  {}

  lemma {:induction false} PathOfOne(d: Leaves, i: nat)
    requires i < |d|
    ensures Path(d, i, i + 1, i) == []
  {}

  /** The root a verifier computes over [lo, hi) from a leaf hash and a path. */
  function RootFromPath(lo: nat, hi: nat, i: nat, leaf: Digest, path: seq<Digest>): Option<Digest>
    requires lo <= i < hi
    decreases hi - lo
  {
    if hi - lo == 1 then (if path == [] then Some(leaf) else None)
    else if path == [] then None
    else
      var mid, rest, last := lo + Split(hi - lo), path[..|path| - 1], path[|path| - 1];
      if i < mid then
        var r := RootFromPath(lo, mid, i, leaf, rest);
        if r.None? then None else Some(HashChildren(r.value, last))
      else
        var r := RootFromPath(mid, hi, i, leaf, rest);
        if r.None? then None else Some(HashChildren(last, r.value))
  }

  /** VerifyInclusion: data is leaf i of a tree of n leaves with this root. */
  predicate VerifyInclusion(i: nat, n: nat, data: Bytes, root: Bytes, path: seq<Digest>) {
    i < n && var r := RootFromPath(0, n, i, HashLeaf(data), path); r.Some? && r.value == root
  }

  lemma {:induction false} PathComplete(d: Leaves, lo: nat, hi: nat, i: nat)
    requires lo <= i < hi <= |d|
    ensures RootFromPath(lo, hi, i, HashLeaf(d[i]), Path(d, lo, hi, i)) == Some(Root(d, lo, hi))
    decreases hi - lo
  {
    if hi - lo > 1 {
      var mid := lo + Split(hi - lo);
      var p := Path(d, lo, hi, i);
      if i < mid {
        PathComplete(d, lo, mid, i);
        assert p[..|p| - 1] == Path(d, lo, mid, i);
      } else {
        PathComplete(d, mid, hi, i);
        assert p[..|p| - 1] == Path(d, mid, hi, i);
      }
    }
  }

  /** Every leaf of every tree has an accepted inclusion proof. */
  lemma {:induction false} InclusionComplete(d: Leaves, i: nat)
    requires i < |d|
    ensures VerifyInclusion(i, |d|, d[i], MTH(d), Path(d, 0, |d|, i))
  {
    PathComplete(d, 0, |d|, i);
    WholeRootIsMTH(d);
  }

  /** Where an accepted path for a leaf that is not there collides. */
  function PathCollision(d: Leaves, lo: nat, hi: nat, i: nat, data: Bytes, path: seq<Digest>): InputPair
    requires lo <= i < hi <= |d|
    requires RootFromPath(lo, hi, i, HashLeaf(data), path).Some?
    decreases hi - lo
  {
    if hi - lo == 1 then (LeafInput(data), LeafInput(d[i]))
    else
      var mid, rest, last := lo + Split(hi - lo), path[..|path| - 1], path[|path| - 1];
      var node := NodeInput(Root(d, lo, mid), Root(d, mid, hi));
      if i < mid then
        var x := NodeInput(RootFromPath(lo, mid, i, HashLeaf(data), rest).value, last);
        if x != node then (x, node) else PathCollision(d, lo, mid, i, data, rest)
      else
        var x := NodeInput(last, RootFromPath(mid, hi, i, HashLeaf(data), rest).value);
        if x != node then (x, node) else PathCollision(d, mid, hi, i, data, rest)
  }

  lemma {:induction false} PathSound(d: Leaves, lo: nat, hi: nat, i: nat, data: Bytes, path: seq<Digest>)
    requires lo <= i < hi <= |d|
    requires RootFromPath(lo, hi, i, HashLeaf(data), path) == Some(Root(d, lo, hi))
    ensures data == d[i] || Collision(PathCollision(d, lo, hi, i, data, path))
    decreases hi - lo
  {
    if hi - lo == 1 {
      if LeafInput(data) == LeafInput(d[i]) { LeafInputInjective(data, d[i]); }
    } else {
      var mid, rest, last := lo + Split(hi - lo), path[..|path| - 1], path[|path| - 1];
      var left, right := Root(d, lo, mid), Root(d, mid, hi);
      if i < mid {
        var r := RootFromPath(lo, mid, i, HashLeaf(data), rest).value;
        if NodeInput(r, last) == NodeInput(left, right) {
          NodeInputInjective(r, last, left, right);
          PathSound(d, lo, mid, i, data, rest);
        }
      } else {
        var r := RootFromPath(mid, hi, i, HashLeaf(data), rest).value;
        if NodeInput(last, r) == NodeInput(left, right) {
          NodeInputInjective(last, r, left, right);
          PathSound(d, mid, hi, i, data, rest);
        }
      }
    }
  }

  /** Whatever path is offered, acceptance under the root of d means the leaf
      is d[i], or the verifier and the tree hashed two colliding inputs. */
  lemma {:induction false} InclusionSound(d: Leaves, i: nat, data: Bytes, path: seq<Digest>)
    requires VerifyInclusion(i, |d|, data, MTH(d), path)
    ensures data == d[i] || Collision(PathCollision(d, 0, |d|, i, data, path))
  {
    WholeRootIsMTH(d);
    PathSound(d, 0, |d|, i, data, path);
  }

  // ---------- consistency proofs (section 2.1.2) ----------

  /** SUBPROOF of the tree ending at m within the subtree over [lo, hi). */
  function Subproof(d: Leaves, lo: nat, hi: nat, m: nat, whole: bool): seq<Digest>
    requires lo < m <= hi <= |d|
    decreases hi - lo
  {
    if m == hi then (if whole then [] else [Root(d, lo, hi)])
    else
      var mid := lo + Split(hi - lo);
      if m <= mid then Subproof(d, lo, mid, m, whole) + [Root(d, mid, hi)]
      else Subproof(d, mid, hi, m, false) + [Root(d, lo, mid)]
  }

  type RootPair = (Digest, Digest)

  /** The (old root, new root) a verifier rebuilds over [lo, hi); `prior`
      stands in for the old tree's own root where the proof may omit it. */
  function RootsFromProof(lo: nat, hi: nat, m: nat, whole: bool, prior: Digest, proof: seq<Digest>): Option<RootPair>
    requires lo < m <= hi
    decreases hi - lo
  {
    if m == hi then
      if whole then (if proof == [] then Some((prior, prior)) else None)
      else (if |proof| == 1 then Some((proof[0], proof[0])) else None)
    else if proof == [] then None
    else
      var mid, rest, last := lo + Split(hi - lo), proof[..|proof| - 1], proof[|proof| - 1];
      if m <= mid then
        var r := RootsFromProof(lo, mid, m, whole, prior, rest);
        if r.None? then None else Some((r.value.0, HashChildren(r.value.1, last)))
      else
        var r := RootsFromProof(mid, hi, m, false, prior, rest);
        if r.None? then None else Some((HashChildren(last, r.value.0), HashChildren(last, r.value.1)))
  }

  /** The proof served for an earlier size; from the empty tree it is empty. */
  function ConsistencyProof(d: Leaves, m: nat): seq<Digest>
    requires m <= |d|
  {
    if m == 0 then [] else Subproof(d, 0, |d|, m, true)
  }

  /** VerifyConsistency, for every pair of sizes m <= n.  Every tree continues
      the empty one. */
  predicate VerifyConsistency(m: nat, n: nat, root1: Digest, root2: Digest, proof: seq<Digest>)
    requires m <= n
  {
    if m == 0 then proof == [] && (n == 0 ==> root1 == root2)
    else RootsFromProof(0, n, m, true, root1, proof) == Some((root1, root2))
  }

  lemma {:induction false} SubproofUnfolds(d: Leaves, lo: nat, mid: nat, hi: nat, m: nat, whole: bool)
    requires lo < m < hi <= |d| && mid == lo + Split(hi - lo)
    ensures Subproof(d, lo, hi, m, whole) ==
      if m <= mid then Subproof(d, lo, mid, m, whole) + [Root(d, mid, hi)]
      else Subproof(d, mid, hi, m, false) + [Root(d, lo, mid)]
  {}

  lemma {:induction false} RootsUnfold(lo: nat, mid: nat, hi: nat, m: nat, whole: bool, prior: Digest,
        rest: seq<Digest>, last: Digest)
    requires lo < m < hi && mid == lo + Split(hi - lo)
    ensures var roots := RootsFromProof(lo, hi, m, whole, prior, rest + [last]);
      if m <= mid then
        var r := RootsFromProof(lo, mid, m, whole, prior, rest);
        roots == if r.None? then None else Some((r.value.0, HashChildren(r.value.1, last)))
      else
        var r := RootsFromProof(mid, hi, m, false, prior, rest);
        roots == if r.None? then None else Some((HashChildren(last, r.value.0), HashChildren(last, r.value.1)))
  {
    assert (rest + [last])[..|rest|] == rest;
  }

  /** A range that reaches past the split is split at the same place. */
  lemma {:induction false} SameSplit(lo: nat, mid: nat, hi: nat, m: nat)
    requires lo < mid < m <= hi && mid == lo + Split(hi - lo)
    ensures m - lo > 1 && mid == lo + Split(m - lo)
  {
    IsSplitUnique(m - lo, Split(m - lo), Split(hi - lo));
  }

  lemma {:induction false} SubproofComplete(d: Leaves, lo: nat, hi: nat, m: nat, whole: bool, prior: Digest)
    requires lo < m <= hi <= |d|
    requires whole ==> prior == Root(d, lo, m)
    ensures RootsFromProof(lo, hi, m, whole, prior, Subproof(d, lo, hi, m, whole))
         == Some((Root(d, lo, m), Root(d, lo, hi)))
    decreases hi - lo
  {
    if m < hi {
      hide RootsFromProof, Subproof, Root, HashChildren;
      var mid := lo + Split(hi - lo);
      SubproofUnfolds(d, lo, mid, hi, m, whole);
      RootUnfolds(d, lo, mid, hi);
      if m <= mid {
        SubproofComplete(d, lo, mid, m, whole, prior);
        RootsUnfold(lo, mid, hi, m, whole, prior, Subproof(d, lo, mid, m, whole), Root(d, mid, hi));
      } else {
        SubproofComplete(d, mid, hi, m, false, prior);
        RootsUnfold(lo, mid, hi, m, whole, prior, Subproof(d, mid, hi, m, false), Root(d, lo, mid));
        SameSplit(lo, mid, hi, m);
        RootUnfolds(d, lo, mid, m);
      }
    }
  }

  lemma {:induction false} SubproofEnds(d: Leaves, lo: nat, hi: nat, whole: bool)
    requires lo < hi <= |d|
    ensures Subproof(d, lo, hi, hi, whole) == if whole then [] else [Root(d, lo, hi)]
  {}

  /** Every earlier size of every tree has an accepted consistency proof. */
  lemma {:induction false} ConsistencyComplete(d: Leaves, m: nat)
    requires m <= |d|
    ensures VerifyConsistency(m, |d|, MTH(d[..m]), MTH(d), ConsistencyProof(d, m))
  {
    if m == 0 {
      assert d[..0] == [] && (|d| == 0 ==> d == []);
    } else {
      WholeRootIsMTH(d);
      RootIsMTH(d, 0, m);
      assert d[0..m] == d[..m];
      SubproofComplete(d, 0, |d|, m, true, MTH(d[..m]));
    }
  }

  /** Where an accepted consistency proof between unrelated trees collides. */
  function ConsistencyCollision(a: Leaves, b: Leaves, lo: nat, hi: nat, whole: bool, prior: Digest,
        proof: seq<Digest>): InputPair
    requires lo < |a| <= hi <= |b|
    requires RootsFromProof(lo, hi, |a|, whole, prior, proof).Some?
    decreases hi - lo
  {
    var m := |a|;
    if m == hi then RootCollision(a, b, lo, hi)
    else
      var mid, rest, last := lo + Split(hi - lo), proof[..|proof| - 1], proof[|proof| - 1];
      var node := NodeInput(Root(b, lo, mid), Root(b, mid, hi));
      if m <= mid then
        var x := NodeInput(RootsFromProof(lo, mid, m, whole, prior, rest).value.1, last);
        if x != node then (x, node) else ConsistencyCollision(a, b, lo, mid, whole, prior, rest)
      else
        var r := RootsFromProof(mid, hi, m, false, prior, rest).value;
        var anode := NodeInput(Root(a, lo, mid), Root(a, mid, m));
        if NodeInput(last, r.0) != anode then (NodeInput(last, r.0), anode)
        else if NodeInput(last, r.1) != node then (NodeInput(last, r.1), node)
        else if !Agree(a, b, lo, mid) then RootCollision(a, b, lo, mid)
        else ConsistencyCollision(a, b, mid, hi, false, prior, rest)
  }

  lemma {:induction false} SubproofSound(a: Leaves, b: Leaves, lo: nat, hi: nat, whole: bool, prior: Digest,
        proof: seq<Digest>)
    requires lo < |a| <= hi <= |b|
    requires RootsFromProof(lo, hi, |a|, whole, prior, proof) == Some((Root(a, lo, |a|), Root(b, lo, hi)))
    ensures Agree(a, b, lo, |a|) || Collision(ConsistencyCollision(a, b, lo, hi, whole, prior, proof))
    decreases hi - lo
  {
    var m := |a|;
    if m == hi {
      RootBinds(a, b, lo, hi);
    } else {
      var mid, rest, last := lo + Split(hi - lo), proof[..|proof| - 1], proof[|proof| - 1];
      var left, right := Root(b, lo, mid), Root(b, mid, hi);
      if m <= mid {
        var w := RootsFromProof(lo, mid, m, whole, prior, rest).value.1;
        if NodeInput(w, last) == NodeInput(left, right) {
          NodeInputInjective(w, last, left, right);
          SubproofSound(a, b, lo, mid, whole, prior, rest);
        }
      } else {
        IsSplitUnique(m - lo, Split(m - lo), Split(hi - lo));
        var r := RootsFromProof(mid, hi, m, false, prior, rest).value;
        var aleft, aright := Root(a, lo, mid), Root(a, mid, m);
        if NodeInput(last, r.0) == NodeInput(aleft, aright) && NodeInput(last, r.1) == NodeInput(left, right) {
          NodeInputInjective(last, r.0, aleft, aright);
          NodeInputInjective(last, r.1, left, right);
          RootBinds(a, b, lo, mid);
          SubproofSound(a, b, mid, hi, false, prior, rest);
        }
      }
    }
  }

  /** Append-only: whatever proof is offered, acceptance between the roots of a
      and b means a is a prefix of b, or two hashed inputs collide. */
  lemma {:induction false} ConsistencySound(a: Leaves, b: Leaves, proof: seq<Digest>)
    requires |a| <= |b|
    requires VerifyConsistency(|a|, |b|, MTH(a), MTH(b), proof)
    ensures a <= b || (a != [] && Collision(ConsistencyCollision(a, b, 0, |b|, true, MTH(a), proof)))
  {
    if a != [] {
      WholeRootIsMTH(a);
      WholeRootIsMTH(b);
      SubproofSound(a, b, 0, |b|, true, MTH(a), proof);
    }
  }
}
