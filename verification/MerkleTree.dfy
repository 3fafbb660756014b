// The incremental tree (internal/merkletree): a compact range plus a map of
// every node hash seen, restartable from a frontier.

module MerkleTree {
  import opened Bytes
  import opened Crypto
  import opened Rfc6962
  import opened MerkleNodes

  type NodeMap = map<NodeID, Digest>

  /** What the map owes for one node: a recorded hash of a complete node is
      right (right-border entries, whose leaves are not all there yet, may be
      stale), and a node the accumulator holds is recorded. */
  ghost predicate EntryOk(nodes: NodeMap, base: nat, d: Leaves, id: NodeID) {
    && (id in nodes && id.End() <= |d| ==> nodes[id] == NodeHash(d, id))
    && (Held(base, |d|, id) ==> id in nodes)
  }

  ghost predicate MapOk(nodes: NodeMap, base: nat, d: Leaves) {
    forall id :: EntryOk(nodes, base, d, id)
  }

  /** Part-way through recording the nodes that the last leaf of d closes:
      levels up to j are done. */
  ghost predicate Recording(nodes: NodeMap, base: nat, d: Leaves, j: nat) {
    forall id: NodeID {:trigger EntryOk(nodes, base, d, id)} ::
      (id.End() == |d| ==> id.level <= j) ==> EntryOk(nodes, base, d, id)
  }

  lemma {:induction false} RecordingStarts(nodes: NodeMap, base: nat, d: Leaves, data: Bytes)
    requires MapOk(nodes, base, d) && base <= |d|
    ensures Recording(nodes[NodeID(0, |d|) := HashLeaf(data)], base, d + [data], 0)
  {
    var e, leaf := d + [data], NodeID(0, |d|);
    var nodes' := nodes[leaf := HashLeaf(data)];
    assert NodeHash(e, leaf) == HashLeaf(data);
    forall id: NodeID | id.End() == |e| ==> id.level <= 0 ensures EntryOk(nodes', base, e, id) {
      if id != leaf && id.End() <= |e| {
        assert id.End() <= |d|;
        assert EntryOk(nodes, base, d, id);
        RootLocal(d, e, id.Begin(), id.End());
      }
    }
  }

  lemma {:induction false} RecordingStep(nodes: NodeMap, base: nat, d: Leaves, closed: NodeID, h: Digest, id: NodeID)
    requires closed.level > 0 && closed.End() == |d| && h == NodeHash(d, closed)
    requires Recording(nodes, base, d, closed.level - 1)
    requires id.End() == |d| ==> id.level <= closed.level
    ensures EntryOk(nodes[closed := h], base, d, id)
  {
    if id != closed {
      if id.End() == |d| && id.level == closed.level {
        SpanOrder(closed.level, id.index + 1, closed.index + 1);
        SpanOrder(closed.level, closed.index + 1, id.index + 1);
      }
      assert EntryOk(nodes, base, d, id);
    }
  }

  lemma {:induction false} RecordingSteps(nodes: NodeMap, base: nat, d: Leaves, closed: NodeID, h: Digest)
    requires closed.level > 0 && closed.End() == |d| && h == NodeHash(d, closed)
    requires Recording(nodes, base, d, closed.level - 1)
    ensures Recording(nodes[closed := h], base, d, closed.level)
  {
    forall id: NodeID | id.End() == |d| ==> id.level <= closed.level
      ensures EntryOk(nodes[closed := h], base, d, id)
    {
      RecordingStep(nodes, base, d, closed, h, id);
    }
  }

  /** No node above level j ends where an odd number of level-j nodes end. */
  lemma {:induction false} OddEnds(level: nat, x: nat, j: nat, o: nat)
    requires level > j && Span(level, x) == Span(j, o)
    ensures o % 2 == 0
  {
    if level == j + 1 {
      SpanOrder(j, 2 * x, o);
      SpanOrder(j, o, 2 * x);
    } else {
      OddEnds(level - 1, 2 * x, j, o);
    }
  }

  lemma {:induction false} RecordingEnds(nodes: NodeMap, base: nat, d: Leaves, j: nat, m: nat)
    requires Recording(nodes, base, d, j) && m % 2 == 0 && Span(j, m + 1) == |d|
    ensures MapOk(nodes, base, d)
  {
    forall id: NodeID ensures EntryOk(nodes, base, d, id) {
      if id.End() == |d| && id.level > j { OddEnds(id.level, id.index + 1, j, m + 1); }
    }
  }

  /** One merge of an append: two siblings become their parent. */
  lemma {:induction false} MergeStep(d: Leaves, j: nat, m: nat)
    requires m % 2 == 1 && Span(j, m + 1) <= |d|
    ensures Span(j, m) <= |d| && Span(j + 1, m / 2) <= |d| && Span(j + 1, m / 2 + 1) == Span(j, m + 1)
    ensures Compact(d, j, m + 1) == Compact(d, j + 1, m / 2 + 1)
  {
    SpanOrder(j, m + 1, m);
    Halve(j, m);
    Halve(j, m + 1);
    CompactEven(d, j, m + 1);
    assert (m + 1) / 2 == m / 2 + 1;
  }

  lemma {:induction false} SiblingsJoin(d: Leaves, j: nat, m: nat)
    requires m % 2 == 1 && Span(j, m + 1) <= |d|
    ensures Span(j + 1, m / 2 + 1) <= |d| && Span(j, m) <= |d|
    ensures NodeHash(d, NodeID(j + 1, m / 2)) == HashChildren(NodeHash(d, NodeID(j, m - 1)), NodeHash(d, NodeID(j, m)))
  {
    SpanOrder(j, m + 1, m);
    var parent := NodeID(j + 1, m / 2);
    assert parent.Left() == NodeID(j, m - 1) && parent.Right() == NodeID(j, m);
    NodeHashJoins(d, parent);
  }

  lemma {:induction false} MergeEnds(d: Leaves, j: nat, m: nat)
    requires m % 2 == 0 && Span(j, m + 1) <= |d|
    ensures Span(j, m) <= |d|
    ensures Compact(d, j, m + 1) == Compact(d, j, m) + [NodeHash(d, NodeID(j, m))]
  {
    SpanOrder(j, m + 1, m);
    Halve(j, m);
    Halve(j, m + 1);
    assert (m + 1) / 2 == m / 2;
    CompactOdd(d, j, m + 1);
    CompactEven(d, j, m);
  }

  /** Mid-append: h is the last complete node of level j and hs the compact
      range of the m nodes before it. */
  ghost predicate Merging(d: Leaves, base: nat, j: nat, m: nat, h: Digest, hs: seq<Digest>, nodes: NodeMap) {
    && Span(j, m) <= Span(j, m + 1) == |d|
    && h == NodeHash(d, NodeID(j, m))
    && hs == Compact(d, j, m)
    && MerkleNodes.Frontier(d, |d|) == Compact(d, j, m + 1)
    && Recording(nodes, base, d, j)
  }

  lemma {:induction false} MergingStarts(nodes: NodeMap, base: nat, d: Leaves, data: Bytes)
    requires MapOk(nodes, base, d) && base <= |d|
    ensures Merging(d + [data], base, 0, |d|, HashLeaf(data), MerkleNodes.Frontier(d, |d|),
                    nodes[NodeID(0, |d|) := HashLeaf(data)])
  {
    RecordingStarts(nodes, base, d, data);
    CompactLocal(d, d + [data], 0, |d|);
  }

  lemma {:induction false} MergingSteps(d: Leaves, base: nat, j: nat, m: nat, h: Digest, hs: seq<Digest>,
        nodes: NodeMap)
    requires Merging(d, base, j, m, h, hs, nodes) && m % 2 == 1
    ensures hs != []
    ensures var h' := HashChildren(hs[|hs| - 1], h);
      Merging(d, base, j + 1, m / 2, h', hs[..|hs| - 1], nodes[NodeID(j + 1, m / 2) := h'])
  {
    MergeStep(d, j, m);
    SiblingsJoin(d, j, m);
    CompactOdd(d, j, m);
    Halve(j, m);
    assert hs[..|hs| - 1] == Compact(d, j + 1, m / 2);
    RecordingSteps(nodes, base, d, NodeID(j + 1, m / 2), HashChildren(hs[|hs| - 1], h));
  }

  lemma {:induction false} MergingEnds(d: Leaves, base: nat, j: nat, m: nat, h: Digest, hs: seq<Digest>, nodes: NodeMap)
    requires Merging(d, base, j, m, h, hs, nodes) && m % 2 == 0
    ensures hs + [h] == MerkleNodes.Frontier(d, |d|) && MapOk(nodes, base, d)
  {
    MergeEnds(d, j, m);
    RecordingEnds(nodes, base, d, j, m);
  }

  // ---------- restarting from a frontier ----------

  /** An entry per top node, holding the frontier hash of that node. */
  ghost predicate Seeded(nodes: NodeMap, tops: seq<NodeID>, hs: seq<Digest>, i: nat)
    requires i <= |tops| && |tops| == |hs|
  {
    && (forall k :: 0 <= k < i ==> tops[k] in nodes && nodes[tops[k]] == hs[k])
    && (forall id :: id in nodes ==> id in tops[..i])
  }

  lemma {:induction false} SeededIsOk(nodes: NodeMap, d: Leaves)
    requires |Tops(0, |d|)| == |MerkleNodes.Frontier(d, |d|)|
    requires Seeded(nodes, Tops(0, |d|), MerkleNodes.Frontier(d, |d|), |Tops(0, |d|)|)
    ensures MapOk(nodes, |d|, d)
  {
    var tops := Tops(0, |d|);
    CompactIsTops(d, 0, |d|);
    assert tops[..|tops|] == tops;
    forall id: NodeID ensures EntryOk(nodes, |d|, d, id) {
      TopsAreMaximal(|d|, 0, |d|, id);
    }
  }

  lemma {:induction false} TopsDistinct(j: nat, m: nat)
    ensures forall x :: x in Tops(j, m) ==> x.level >= j
    ensures forall a, b :: 0 <= a < b < |Tops(j, m)| ==> Tops(j, m)[a] != Tops(j, m)[b]
    decreases m
  {
    if m > 0 { TopsDistinct(j + 1, m / 2); }
  }

  lemma {:induction false} SeedSteps(nodes: NodeMap, n: nat, hs: seq<Digest>, i: nat)
    requires i < |hs| == |Tops(0, n)| && Seeded(nodes, Tops(0, n), hs, i)
    ensures Seeded(nodes[Tops(0, n)[i] := hs[i]], Tops(0, n), hs, i + 1)
  {
    TopsDistinct(0, n);
    var tops := Tops(0, n);
    assert tops[..i + 1] == tops[..i] + [tops[i]];
  }

  lemma {:induction false} OnesIsTops(j: nat, m: nat)
    ensures |Tops(j, m)| == Ones(m)
    decreases m
  {
    if m > 0 { OnesIsTops(j + 1, m / 2); }
  }

  lemma {:induction false} DivUnique(a: nat, w: nat, q: nat)
    requires w > 0 && q * w <= a < q * w + w
    ensures a / w == q && a % w == a - q * w
  {
    var p := a / w;
    assert a == p * w + a % w;
    assert p < q ==> (p + 1) * w <= q * w;
    assert q < p ==> (q + 1) * w <= p * w;
  }

  lemma {:induction false} SpanIsProduct(l: nat, x: nat)
    ensures Span(l, x) == x * Pow2(l)
  {
    if x > 0 {
      SpanIsProduct(l, x - 1);
      SpanAdds(l, x - 1, 1);
      SpanOne(l);
      assert x * Pow2(l) == (x - 1) * Pow2(l) + Pow2(l);
    } else {
      assert Span(l, 0) == 0;
    }
  }

  /** The begin of a node is a multiple of its width, and of every smaller one. */
  lemma {:induction false} SpanDivides(l: nat, x: nat, k: nat)
    requires k <= l
    ensures Span(l, x) % Pow2(k) == 0 && (k == l ==> Span(l, x) / Pow2(l) == x)
    decreases l - k
  {
    if k < l {
      SpanDivides(l - 1, 2 * x, k);
    } else {
      SpanIsProduct(l, x);
      DivUnique(Span(l, x), Pow2(l), x);
    }
  }

  /** The largest aligned perfect subtree at a top's begin is that top. */
  lemma {:induction false} AlignedIsTop(n: nat, top: NodeID, level: nat)
    requires Maximal(n, top)
    requires top.Begin() % Pow2(level) == 0 && top.Begin() + Pow2(level) <= n
    requires !(top.Begin() % (2 * Pow2(level)) == 0 && top.Begin() + 2 * Pow2(level) <= n)
    ensures level == top.level && top.Begin() / Pow2(level) == top.index
  {
    MaximalIsLeft(n, top);
    Width(top);
    Width(top.Parent());
    SpanDivides(top.level, top.index, top.level);
    assert 2 * (top.index / 2) == top.index;
    if level < top.level {
      SpanDivides(top.level, top.index, level + 1);
      Pow2Monotone(level + 1, top.level);
    }
    if level > top.level { Pow2Monotone(top.level + 1, level); }
  }

  method LargestAlignedSubtree(begin: nat, end: nat) returns (level: nat, width: nat)
    ensures width == Pow2(level) && begin % width == 0
    ensures begin < end ==> begin + width <= end
    ensures !(begin % (2 * width) == 0 && begin + 2 * width <= end)
  {
    level, width := 0, 1;
    while begin % (width * 2) == 0 && begin + width * 2 <= end
      invariant width == Pow2(level) && begin % width == 0
      invariant begin < end ==> begin + width <= end
      decreases end - width
    {
      level := level + 1;
      width := width * 2;
    }
  }

  /** The node map NewFromFrontier starts with: the frontier's own nodes. */
  method SeedNodes(n: nat, hs: seq<Digest>) returns (nodes: NodeMap)
    requires |hs| == |Tops(0, n)|
    ensures Seeded(nodes, Tops(0, n), hs, |hs|)
  {
    nodes := map[];
    ghost var tops := Tops(0, n);
    TopsTile(0, n);
    var begin: nat := 0;
    for i := 0 to |hs|
      invariant Seeded(nodes, tops, hs, i)
      invariant i < |tops| ==> begin == tops[i].Begin()
    {
      var level, width := LargestAlignedSubtree(begin, n);
      TopsAreMaximal(n, 0, n, tops[i]);
      Width(tops[i]);
      AlignedIsTop(n, tops[i], level);
      SeedSteps(nodes, n, hs, i);
      nodes := nodes[NodeID(level, begin / width) := hs[i]];
      begin := begin + width;
    }
  }

  // ---------- resolving proofs from the map ----------

  ghost predicate Found(nodes: NodeMap, groups: seq<seq<NodeID>>) {
    forall g, x :: 0 <= g < |groups| && x in groups[g] ==> x in nodes
  }

  function Lookups(nodes: NodeMap, ids: seq<NodeID>): (hs: seq<Digest>)
    requires forall x :: x in ids ==> x in nodes
    ensures |hs| == |ids|
  {
    seq(|ids|, k requires 0 <= k < |ids| => nodes[ids[k]])
  }

  /** resolve: the rehashed groups, or None if a node is missing. */
  method Resolve(nodes: NodeMap, groups: seq<seq<NodeID>>) returns (r: Option<seq<Digest>>)
    requires forall g :: 0 <= g < |groups| ==> groups[g] != []
    ensures r.Some? <==> Found(nodes, groups)
    ensures r.Some? ==> |r.value| == |groups| && forall g :: 0 <= g < |groups| ==>
              r.value[g] == Rehash(Lookups(nodes, groups[g]))
  {
    var out: seq<Digest> := [];
    for g := 0 to |groups|
      invariant |out| == g && (forall h, x :: 0 <= h < g && x in groups[h] ==> x in nodes)
      invariant forall h :: 0 <= h < g ==>
        out[h] == Rehash(Lookups(nodes, groups[h]))
    {
      var hs: seq<Digest> := [];
      for k := 0 to |groups[g]|
        invariant |hs| == k
        invariant forall i :: 0 <= i < k ==> groups[g][i] in nodes && hs[i] == nodes[groups[g][i]]
      {
        if groups[g][k] !in nodes { return None; }
        hs := hs + [nodes[groups[g][k]]];
      }
      assert hs == Lookups(nodes, groups[g]);
      out := out + [Rehash(hs)];
    }
    return Some(out);
  }

  /** What the map yields for a proof's groups: that proof; and it yields
      something whenever the accumulator holds the groups' nodes. */
  lemma {:induction false} FoundIsProof(nodes: NodeMap, base: nat, d: Leaves, groups: seq<seq<NodeID>>,
        proof: seq<Digest>)
    requires MapOk(nodes, base, d) && Rehashes(d, groups, proof)
    ensures AllHeld(base, |d|, groups) ==> Found(nodes, groups)
    ensures Found(nodes, groups) ==> forall g :: 0 <= g < |groups| ==>
      proof[g] == Rehash(Lookups(nodes, groups[g]))
  {
    if AllHeld(base, |d|, groups) {
      forall g, x | 0 <= g < |groups| && x in groups[g] ensures x in nodes {
        assert EntryOk(nodes, base, d, x);
      }
    }
    if Found(nodes, groups) {
      forall g | 0 <= g < |groups| ensures proof[g] == Rehash(Lookups(nodes, groups[g])) {
        forall k | 0 <= k < |groups[g]| ensures NodeHash(d, groups[g][k]) == nodes[groups[g][k]] {
          assert groups[g][k] in groups[g];
          assert EntryOk(nodes, base, d, groups[g][k]);
        }
        assert Hashes(d, groups[g]) == Lookups(nodes, groups[g]);
      }
    }
  }

  // ---------- folding the compact range into the root ----------

  /** Mid-fold: acc is the hash of everything after the m nodes of level j. */
  ghost predicate Folding(d: Leaves, j: nat, m: nat, hs: seq<Digest>, acc: Digest) {
    && Span(j, m) < |d| < Span(j, m + 1)
    && hs == Compact(d, j, m)
    && acc == Root(d, Span(j, m), |d|)
  }

  lemma {:induction false} FoldingStarts(d: Leaves, j: nat, m: nat)
    requires m % 2 == 1 && Span(j, m) == |d|
    ensures var c := Compact(d, j, m);
      c != [] && Folding(d, j + 1, m / 2, c[..|c| - 1], c[|c| - 1])
  {
    Halve(j, m);
    SpanOrder(j, m - 1, m);
    SpanOrder(j, m, m + 1);
    CompactOdd(d, j, m);
    var c := Compact(d, j, m);
    assert c[..|c| - 1] == Compact(d, j + 1, m / 2);
  }

  /** A bit of the size: a set one joins a hash into acc, and the parent it
      makes reaches past the last leaf. */
  lemma {:induction false} FoldingSteps(d: Leaves, j: nat, m: nat, hs: seq<Digest>, acc: Digest)
    requires m > 0 && Folding(d, j, m, hs, acc)
    ensures m % 2 == 0 ==> Folding(d, j + 1, m / 2, hs, acc)
    ensures m % 2 == 1 ==>
              && hs != [] && NodeID(j + 1, m / 2).End() > |d|
              && Folding(d, j + 1, m / 2, hs[..|hs| - 1], HashChildren(hs[|hs| - 1], acc))
  {
    Halve(j, m);
    if m % 2 == 1 {
      CompactOdd(d, j, m);
      JoinsOntoRest(d, j, m, |d|);
      assert hs[..|hs| - 1] == Compact(d, j + 1, m / 2);
    } else {
      CompactEven(d, j, m);
    }
  }

  lemma {:induction false} BorderWrite(nodes: NodeMap, base: nat, d: Leaves, id: NodeID, h: Digest)
    requires MapOk(nodes, base, d) && id.End() > |d|
    ensures MapOk(nodes[id := h], base, d)
  {
    var nodes' := nodes[id := h];
    forall x: NodeID ensures EntryOk(nodes', base, d, x) {
      assert EntryOk(nodes, base, d, x);
    }
  }

  /** GetRootHash: fold from the right, recording each parent made. */
  method GetRootHash(size: nat, hashes: seq<Digest>, nodes0: NodeMap, ghost d: Leaves, ghost base: nat)
    returns (root: Digest, nodes: NodeMap)
    requires size == |d| > 0 && hashes == MerkleNodes.Frontier(d, size) && MapOk(nodes0, base, d)
    ensures root == Root(d, 0, size) && MapOk(nodes, base, d)
  {
    nodes := nodes0;
    var j: nat, m: nat := 0, size;
    while m % 2 == 0
      invariant m > 0 && Span(j, m) == size && hashes == Compact(d, j, m)
      decreases m
    {
      Halve(j, m);
      CompactEven(d, j, m);
      j, m := j + 1, m / 2;
    }
    FoldingStarts(d, j, m);
    var hs := hashes[..|hashes| - 1];
    root := hashes[|hashes| - 1];
    j, m := j + 1, m / 2;
    while m > 0
      invariant Folding(d, j, m, hs, root) && MapOk(nodes, base, d)
      decreases m
    {
      FoldingSteps(d, j, m, hs, root);
      if m % 2 == 1 {
        root := HashChildren(hs[|hs| - 1], root);
        hs := hs[..|hs| - 1];
        BorderWrite(nodes, base, d, NodeID(j + 1, m / 2), root);
        nodes := nodes[NodeID(j + 1, m / 2) := root];
      }
      j, m := j + 1, m / 2;
    }
  }

  class Accumulator {
    var hashes: seq<Digest>
    var nodes: NodeMap
    var size: nat
    ghost var leaves: Leaves
    ghost var base: nat

    ghost predicate Valid()
      reads this
    {
      && size == |leaves| && base <= size
      && hashes == MerkleNodes.Frontier(leaves, size)
      && MapOk(nodes, base, leaves)
    }

    constructor ()
      ensures Valid() && leaves == [] && base == 0
    {
      hashes, nodes, size, leaves, base := [], map[], 0, [], 0;
      new;
      assert forall id: NodeID :: EntryOk(nodes, base, leaves, id);
    }

    method AppendLeaf(data: Bytes)
      requires Valid()
      modifies this
      ensures Valid() && leaves == old(leaves) + [data] && base == old(base)
    {
      ghost var d := leaves + [data];
      MergingStarts(nodes, base, leaves, data);
      var h := HashLeaf(data);
      nodes := nodes[NodeID(0, size) := h];
      var j, m := 0, size;
      while m % 2 == 1
        invariant Merging(d, base, j, m, h, hashes, nodes)
        invariant size == old(size) && base == old(base)
        decreases m
      {
        MergingSteps(d, base, j, m, h, hashes, nodes);
        h := HashChildren(hashes[|hashes| - 1], h);
        hashes := hashes[..|hashes| - 1];
        j, m := j + 1, m / 2;
        nodes := nodes[NodeID(j, m) := h];
      }
      MergingEnds(d, base, j, m, h, hashes, nodes);
      hashes := hashes + [h];
      size := size + 1;
      leaves := d;
    }

    /** The loop every rebuild is made of. */
    method AppendAll(d: Leaves)
      requires Valid()
      modifies this
      ensures Valid() && leaves == old(leaves) + d && base == old(base)
      ensures old(leaves) == [] ==> leaves == d
    {
      for i := 0 to |d|
        invariant Valid() && leaves == old(leaves) + d[..i] && base == old(base)
      {
        assert d[..i + 1] == d[..i] + [d[i]];
        ConcatAssociates(old(leaves), d[..i], [d[i]]);
        AppendLeaf(d[i]);
      }
      assert d[..|d|] == d;
    }

    /** Frontier: the size and the compact-range hashes of [0, size). */
    method Frontier() returns (n: nat, hs: seq<Digest>)
      requires Valid()
      ensures n == |leaves| && hs == MerkleNodes.Frontier(leaves, n)
    {
      return size, hashes;
    }

    constructor Restore(n: nat, hs: seq<Digest>, ghost prefix: Leaves)
      requires |hs| == Ones(n)
      ensures size == n && hashes == hs
      ensures |prefix| == n && hs == MerkleNodes.Frontier(prefix, n) ==> Valid() && leaves == prefix && base == n
    {
      OnesIsTops(0, n);
      var seeds := SeedNodes(n, hs);
      hashes, size, leaves, base, nodes := hs, n, prefix, n, seeds;
      new;
      if |prefix| == n && hs == MerkleNodes.Frontier(prefix, n) { SeededIsOk(nodes, prefix); }
    }

    /** Head: the root, with the right-border nodes recorded on the way. */
    method Head() returns (root: Digest)
      requires Valid()
      modifies this
      ensures Valid() && leaves == old(leaves) && base == old(base)
      ensures root == MTH(leaves)
    {
      if size == 0 { return SHA256([]); }
      root, nodes := GetRootHash(size, hashes, nodes, leaves, base);
      WholeRootIsMTH(leaves);
    }

    /** InclusionProof: the RFC 6962 path for every leaf at or above the
        frontier; below it, the path or a refusal, never a wrong proof. */
    method InclusionProof(index: nat) returns (r: Option<seq<Digest>>)
      requires Valid()
      modifies this
      ensures Valid() && leaves == old(leaves) && base == old(base)
      ensures index >= |leaves| ==> r.None?
      ensures base <= index < |leaves| ==> r.Some?
      ensures r.Some? ==> index < |leaves| && r.value == Path(leaves, 0, |leaves|, index)
    {
      if index >= size { return None; }
      var _ := Head();
      var groups := PathNodes(size, TopNode(size), index);
      PathNodesRehash(leaves, size, TopNode(size), index);
      if base <= index { PathNodesHeld(base, size, TopNode(size), index); }
      r := ResolveProof(groups, Path(leaves, 0, size, index));
    }

    /** ConsistencyProof: likewise, from the empty tree and from any size at or
        above the frontier. */
    method ConsistencyProof(size1: nat) returns (r: Option<seq<Digest>>)
      requires Valid()
      modifies this
      ensures Valid() && leaves == old(leaves) && base == old(base)
      ensures size1 > |leaves| ==> r.None?
      ensures base <= size1 <= |leaves| || size1 == 0 ==> r.Some?
      ensures r.Some? ==> size1 <= |leaves| && r.value == Rfc6962.ConsistencyProof(leaves, size1)
    {
      if size1 > size { return None; }
      var _ := Head();
      if size1 == 0 { return Some([]); }
      var groups := SubproofNodes(size, TopNode(size), size1, true);
      SubproofNodesRehash(leaves, size, TopNode(size), size1, true);
      if base <= size1 { SubproofNodesHeld(base, size, TopNode(size), size1, true); }
      r := ResolveProof(groups, Subproof(leaves, 0, size, size1, true));
    }

    method ResolveProof(groups: seq<seq<NodeID>>, ghost proof: seq<Digest>) returns (r: Option<seq<Digest>>)
      requires Valid() && Rehashes(leaves, groups, proof)
      ensures AllHeld(base, size, groups) ==> r.Some?
      ensures r.Some? ==> r.value == proof
    {
      r := Resolve(nodes, groups);
      FoundIsProof(nodes, base, leaves, groups, proof);
    }
  }

  /** NewFromFrontier: refused exactly when the hash count cannot represent
      the size; on a true frontier of `prefix` it is that prefix's tree. */
  method NewFromFrontier(n: nat, hs: seq<Digest>, ghost prefix: Leaves) returns (r: Option<Accumulator>)
    ensures r.Some? <==> |hs| == Ones(n)
    ensures r.Some? && |prefix| == n && hs == MerkleNodes.Frontier(prefix, n) ==>
              r.value.Valid() && r.value.leaves == prefix && r.value.base == n
    ensures r.Some? ==> fresh(r.value) && r.value.size == n && r.value.hashes == hs
  {
    if |hs| != Ones(n) { return None; }
    var a := new Accumulator.Restore(n, hs, prefix);
    return Some(a);
  }

  /** RootFromLeaves: the verifier's head over all leaves. */
  method RootFromLeaves(d: Leaves) returns (root: Digest)
    ensures root == MTH(d)
  {
    var a := new Accumulator();
    a.AppendAll(d);
    root := a.Head();
  }

  /** Frontier continuity, for every leaf list and every split point: restarted
      from the frontier of the prefix and given the rest, an accumulator reaches
      the root and size of the whole list. */
  method RestartedRoot(prefix: Leaves, rest: Leaves) returns (root: Digest, size: nat)
    ensures root == MTH(prefix + rest) && size == |prefix + rest|
  {
    var before := new Accumulator();
    before.AppendAll(prefix);
    var n, hs := before.Frontier();
    CompactIsTops(prefix, 0, n);
    var restarted := NewFromFrontier(n, hs, prefix);
    var after := restarted.value;
    after.AppendAll(rest);
    root := after.Head();
    size := after.size;
  }
}
