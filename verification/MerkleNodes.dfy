// Node coordinates of the tree, the compact range (one perfect subtree per set
// bit of the size) and the perfect nodes a proof is assembled from.

module MerkleNodes {
  import opened Crypto
  import opened Rfc6962

  /** The number of leaves below m nodes of level j: m * 2^j. */
  function Span(j: nat, m: nat): (n: nat)
    ensures m == 0 ==> n == 0
  {
    if j == 0 then m else Span(j - 1, 2 * m)
  }

  lemma {:induction false} SpanOrder(j: nat, a: nat, b: nat)
    ensures a < b <==> Span(j, a) < Span(j, b)
  {
    if j > 0 { SpanOrder(j - 1, 2 * a, 2 * b); }
  }

  /** Node `index` of `level`, counted from the left; leaves are level 0. */
  datatype NodeID = NodeID(level: nat, index: nat) {
    function Begin(): nat { Span(level, index) }
    function End(): (e: nat)
      ensures Begin() < e
    {
      SpanOrder(level, index, index + 1);
      Span(level, index + 1)
    }
    function Parent(): NodeID { NodeID(level + 1, index / 2) }
    function Left(): NodeID requires level > 0 { NodeID(level - 1, 2 * index) }
    function Right(): NodeID requires level > 0 { NodeID(level - 1, 2 * index + 1) }
  }

  lemma {:induction false} SpanAdds(j: nat, a: nat, b: nat)
    ensures Span(j, a + b) == Span(j, a) + Span(j, b)
  {
    if j > 0 { SpanAdds(j - 1, 2 * a, 2 * b); }
  }

  lemma {:induction false} SpanOne(j: nat)
    ensures Span(j, 1) == Pow2(j)
  {
    if j > 0 {
      SpanOne(j - 1);
      SpanAdds(j - 1, 1, 1);
    }
  }

  lemma {:induction false} Width(id: NodeID)
    ensures id.End() == id.Begin() + Pow2(id.level)
  {
    SpanAdds(id.level, id.index, 1);
    SpanOne(id.level);
  }

  lemma {:induction false} ChildSpans(id: NodeID)
    requires id.level > 0
    ensures id.Left().Parent() == id && id.Right().Parent() == id
    ensures id.Left().Begin() == id.Begin() && id.Left().End() == id.Right().Begin() && id.Right().End() == id.End()
    ensures id.Begin() < id.Right().Begin() < id.End()
  {
    assert (2 * id.index) / 2 == id.index && (2 * id.index + 1) / 2 == id.index;
    SpanOrder(id.level - 1, 2 * id.index, 2 * id.index + 1);
    SpanOrder(id.level - 1, 2 * id.index + 1, 2 * id.index + 2);
  }

  /** The hash of a node whose leaves are all present. */
  function NodeHash(d: Leaves, id: NodeID): Digest
    requires id.End() <= |d|
  {
    Root(d, id.Begin(), id.End())
  }

  /** The leaves below a node that lie in the first n end here. */
  function Reach(id: NodeID, n: nat): nat {
    if id.End() <= n then id.End() else n
  }

  /** The hash of the leaves below a node that the first n leaves reach. */
  function Clipped(d: Leaves, id: NodeID, n: nat): Digest
    requires id.Begin() < n <= |d|
  {
    Root(d, id.Begin(), Reach(id, n))
  }

  lemma {:induction false} RootJoins(d: Leaves, lo: nat, mid: nat, hi: nat, level: nat)
    requires mid == lo + Pow2(level) && mid < hi <= mid + Pow2(level) && hi <= |d|
    ensures Split(hi - lo) == mid - lo
    ensures Root(d, lo, hi) == HashChildren(Root(d, lo, mid), Root(d, mid, hi))
  {
    assert PowerOfTwo(Pow2(level));
    IsSplitUnique(hi - lo, Split(hi - lo), Pow2(level));
  }

  /** The children of a node split what it reaches as the RFC does. */
  lemma {:induction false} SplitAtChild(id: NodeID, n: nat)
    requires id.level > 0 && id.Begin() < n
    ensures id.Left().Begin() == id.Begin() < id.Right().Begin()
    ensures id.Right().Begin() < n ==>
              && Reach(id.Left(), n) == id.Right().Begin() && Reach(id.Right(), n) == Reach(id, n)
              && Reach(id, n) - id.Begin() >= 2
              && id.Right().Begin() == id.Begin() + Split(Reach(id, n) - id.Begin())
    ensures id.Right().Begin() >= n ==> Reach(id.Left(), n) == Reach(id, n) == n
  {
    ChildSpans(id);
    if id.Right().Begin() < n {
      var w := Pow2(id.level - 1);
      Width(id.Left());
      Width(id.Right());
      assert PowerOfTwo(w);
      IsSplitUnique(Reach(id, n) - id.Begin(), Split(Reach(id, n) - id.Begin()), w);
    }
  }

  /** A node joins what its children hold of the first n leaves. */
  lemma {:induction false} ClippedJoins(d: Leaves, id: NodeID, n: nat)
    requires id.level > 0 && id.Begin() < n <= |d|
    ensures id.Left().Begin() < n
    ensures id.Right().Begin() < n ==>
              Clipped(d, id, n) == HashChildren(Clipped(d, id.Left(), n), Clipped(d, id.Right(), n))
    ensures id.Right().Begin() >= n ==> Clipped(d, id, n) == Clipped(d, id.Left(), n)
  {
    SplitAtChild(id, n);
  }

  lemma {:induction false} NodeHashJoins(d: Leaves, id: NodeID)
    requires id.level > 0 && id.End() <= |d|
    ensures id.Left().End() <= id.Right().End() <= |d|
    ensures NodeHash(d, id) == HashChildren(NodeHash(d, id.Left()), NodeHash(d, id.Right()))
  {
    ChildSpans(id);
    ClippedJoins(d, id, id.End());
  }

  // ---------- the compact range ----------

  /** The perfect subtrees of the first m nodes of level j, left to right. */
  function Tops(j: nat, m: nat): seq<NodeID>
    decreases m
  {
    if m == 0 then []
    else Tops(j + 1, m / 2) + (if m % 2 == 1 then [NodeID(j, m - 1)] else [])
  }

  lemma {:induction false} Halve(j: nat, m: nat)
    ensures Span(j + 1, m / 2) == Span(j, m - m % 2) <= Span(j, m)
    ensures Span(j, m + 1) <= Span(j + 1, m / 2 + 1)
  {
    SpanOrder(j, m, m - m % 2);
    SpanOrder(j, 2 * (m / 2) + 2, m + 1);
  }

  function Compact(d: Leaves, j: nat, m: nat): seq<Digest>
    requires Span(j, m) <= |d|
    decreases m
  {
    if m == 0 then []
    else
      Halve(j, m);
      Compact(d, j + 1, m / 2) + (if m % 2 == 1 then [NodeHash(d, NodeID(j, m - 1))] else [])
  }

  /** The frontier hashes of the first n leaves (compact.Range.Hashes). */
  function Frontier(d: Leaves, n: nat): seq<Digest>
    requires n <= |d|
  {
    Compact(d, 0, n)
  }

  lemma {:induction false} CompactOdd(d: Leaves, j: nat, m: nat)
    requires m % 2 == 1 && Span(j, m) <= |d|
    ensures Span(j + 1, m / 2) <= |d| && NodeID(j, m - 1).End() <= |d|
    ensures Compact(d, j, m) == Compact(d, j + 1, m / 2) + [NodeHash(d, NodeID(j, m - 1))]
  {
    Halve(j, m);
  }

  lemma {:induction false} CompactEven(d: Leaves, j: nat, m: nat)
    requires m % 2 == 0 && Span(j, m) <= |d|
    ensures Span(j + 1, m / 2) <= |d|
    ensures Compact(d, j, m) == Compact(d, j + 1, m / 2)
  {
    Halve(j, m);
  }

  function Ones(n: nat): nat {
    if n == 0 then 0 else Ones(n / 2) + n % 2
  }

  lemma {:induction false} CompactIsTops(d: Leaves, j: nat, m: nat)
    requires Span(j, m) <= |d|
    ensures |Compact(d, j, m)| == |Tops(j, m)| == Ones(m)
    ensures forall i :: 0 <= i < |Tops(j, m)| ==>
              Tops(j, m)[i].End() <= |d| && Compact(d, j, m)[i] == NodeHash(d, Tops(j, m)[i])
    decreases m
  {
    if m > 0 {
      Halve(j, m);
      CompactIsTops(d, j + 1, m / 2);
    }
  }

  lemma {:induction false} CompactLocal(d: Leaves, e: Leaves, j: nat, m: nat)
    requires Span(j, m) <= |d| && d <= e
    ensures Compact(d, j, m) == Compact(e, j, m)
    decreases m
  {
    if m > 0 {
      Halve(j, m);
      CompactLocal(d, e, j + 1, m / 2);
      var id := NodeID(j, m - 1);
      RootLocal(d, e, id.Begin(), id.End());
    }
  }

  /** Folding a compact range from the right: the hash of an odd node joins
      the hash of everything after it. */
  lemma {:induction false} JoinsOntoRest(d: Leaves, j: nat, m: nat, hi: nat)
    requires m % 2 == 1 && Span(j, m) < hi <= Span(j, m + 1) && hi <= |d|
    ensures Span(j + 1, m / 2) < hi && NodeID(j, m - 1).End() <= |d|
    ensures Root(d, Span(j + 1, m / 2), hi) == HashChildren(NodeHash(d, NodeID(j, m - 1)), Root(d, Span(j, m), hi))
  {
    var id := NodeID(j, m - 1);
    Halve(j, m);
    Width(id);
    Width(NodeID(j, m));
    RootJoins(d, id.Begin(), id.End(), hi, j);
  }

  /** A node whose leaves lie in the first n and whose parent's do not. */
  predicate Maximal(n: nat, id: NodeID) {
    id.End() <= n < id.Parent().End()
  }

  lemma {:induction false} MaximalAtLevel(n: nat, m: nat, id: NodeID)
    requires Span(id.level, m) <= n < Span(id.level, m + 1)
    ensures Maximal(n, id) <==> m % 2 == 1 && id.index == m - 1
  {
    var j, e := id.level, 2 * (id.index / 2 + 1);
    assert id.Parent().End() == Span(j, e);
    SpanOrder(j, m, id.index + 1);
    SpanOrder(j, id.index + 1, m + 1);
    SpanOrder(j, e, m + 1);
    SpanOrder(j, m, e);
  }

  lemma {:induction false} EndGrows(j: nat, id: NodeID)
    requires id.level >= j
    ensures id.End() >= Span(j, 1)
  {
    SpanOrder(id.level, id.index + 1, 1);
    SpanOne(id.level);
    SpanOne(j);
    Pow2Monotone(j, id.level);
  }

  /** The compact range of n leaves lists exactly the maximal nodes. */
  lemma {:induction false} TopsAreMaximal(n: nat, j: nat, m: nat, id: NodeID)
    requires Span(j, m) <= n < Span(j, m + 1)
    ensures id in Tops(j, m) <==> id.level >= j && Maximal(n, id)
    decreases m
  {
    if m == 0 {
      if id.level >= j { EndGrows(j, id); }
    } else {
      Halve(j, m);
      TopsAreMaximal(n, j + 1, m / 2, id);
      if id.level == j { MaximalAtLevel(n, m, id); }
    }
  }

  lemma {:induction false} MaximalIsLeft(n: nat, id: NodeID)
    requires Maximal(n, id)
    ensures id.index % 2 == 0
  {
    assert 2 * (id.index / 2 + 1) == id.index + 2 - id.index % 2;
  }

  lemma {:induction false} TopsTile(j: nat, m: nat)
    ensures m > 0 ==>
              && Tops(j, m) != [] && Tops(j, m)[0].Begin() == 0
              && Tops(j, m)[|Tops(j, m)| - 1].End() == Span(j, m)
    ensures forall i :: 0 < i < |Tops(j, m)| ==> Tops(j, m)[i].Begin() == Tops(j, m)[i - 1].End()
    decreases m
  {
    if m > 0 {
      Halve(j, m);
      TopsTile(j + 1, m / 2);
    }
  }

  // ---------- the perfect nodes of a proof ----------

  /** Perfect nodes covering what the first n leaves reach below id. */
  function Cover(n: nat, id: NodeID): seq<NodeID>
    requires id.Begin() < n
    decreases id.level
  {
    if id.End() <= n then [id]
    else
      ChildSpans(id);
      if id.Right().Begin() >= n then Cover(n, id.Left())
      else [id.Left()] + Cover(n, id.Right())
  }

  /** Nodes.Rehash: one hash out of the hashes of a cover. */
  function Rehash(hs: seq<Digest>): Digest
    requires hs != []
  {
    if |hs| == 1 then hs[0] else HashChildren(hs[0], Rehash(hs[1..]))
  }

  function Hashes(d: Leaves, ids: seq<NodeID>): (hs: seq<Digest>)
    requires forall id :: id in ids ==> id.End() <= |d|
    ensures |hs| == |ids|
  {
    seq(|ids|, i requires 0 <= i < |ids| => NodeHash(d, ids[i]))
  }

  lemma {:induction false} CoverNodes(n: nat, id: NodeID)
    requires id.Begin() < n
    ensures Cover(n, id) != []
    ensures forall x :: x in Cover(n, id) ==>
              x.Begin() >= id.Begin() && x.End() <= n && (x == id || x.Parent().End() > n)
    decreases id.level
  {
    if id.End() > n {
      ChildSpans(id);
      if id.Right().Begin() >= n { CoverNodes(n, id.Left()); } else { CoverNodes(n, id.Right()); }
    }
  }

  lemma {:induction false} RehashStep(d: Leaves, first: NodeID, rest: seq<NodeID>)
    requires first.End() <= |d| && rest != [] && forall x :: x in rest ==> x.End() <= |d|
    ensures Rehash(Hashes(d, [first] + rest)) == HashChildren(NodeHash(d, first), Rehash(Hashes(d, rest)))
  {
    assert Hashes(d, [first] + rest)[1..] == Hashes(d, rest);
  }

  lemma {:induction false} CoverHash(d: Leaves, n: nat, id: NodeID)
    requires id.Begin() < n <= |d|
    ensures forall x :: x in Cover(n, id) ==> x.End() <= |d|
    ensures Cover(n, id) != [] && Rehash(Hashes(d, Cover(n, id))) == Clipped(d, id, n)
    decreases id.level
  {
    CoverNodes(n, id);
    if id.End() <= n {
      assert Hashes(d, Cover(n, id))[0] == NodeHash(d, id);
    } else {
      ChildSpans(id);
      ClippedJoins(d, id, n);
      if id.Right().Begin() >= n {
        CoverHash(d, n, id.Left());
      } else {
        CoverHash(d, n, id.Right());
        RehashStep(d, id.Left(), Cover(n, id.Right()));
      }
    }
  }

  /** One group of perfect nodes per sibling of an inclusion proof. */
  function PathNodes(n: nat, id: NodeID, i: nat): seq<seq<NodeID>>
    requires id.Begin() <= i < n && i < id.End()
    decreases id.level
  {
    if id.level == 0 then []
    else
      ChildSpans(id);
      if id.Right().Begin() >= n then PathNodes(n, id.Left(), i)
      else if i < id.Right().Begin() then PathNodes(n, id.Left(), i) + [Cover(n, id.Right())]
      else PathNodes(n, id.Right(), i) + [Cover(n, id.Left())]
  }

  /** One group of perfect nodes per hash of a consistency proof. */
  function SubproofNodes(n: nat, id: NodeID, m: nat, whole: bool): seq<seq<NodeID>>
    requires id.Begin() < m <= n && m <= id.End()
    decreases id.level
  {
    if m == n || m == id.End() then (if whole then [] else [Cover(n, id)])
    else
      ChildSpans(id);
      if id.Right().Begin() >= n then SubproofNodes(n, id.Left(), m, whole)
      else if m <= id.Right().Begin() then SubproofNodes(n, id.Left(), m, whole) + [Cover(n, id.Right())]
      else SubproofNodes(n, id.Right(), m, false) + [Cover(n, id.Left())]
  }

  /** The groups hold exactly the nodes whose rehash is the given proof. */
  ghost predicate Rehashes(d: Leaves, groups: seq<seq<NodeID>>, proof: seq<Digest>) {
    && |groups| == |proof|
    && forall g :: 0 <= g < |groups| ==>
         && groups[g] != []
         && (forall x :: x in groups[g] ==> x.End() <= |d|)
         && Rehash(Hashes(d, groups[g])) == proof[g]
  }

  lemma {:induction false} CoverRehashes(d: Leaves, n: nat, id: NodeID)
    requires id.Begin() < n <= |d|
    ensures Rehashes(d, [Cover(n, id)], [Clipped(d, id, n)]) && Rehashes(d, [], [])
  {
    CoverHash(d, n, id);
  }

  lemma {:induction false} RehashesExtends(d: Leaves, n: nat, id: NodeID, groups: seq<seq<NodeID>>, proof: seq<Digest>)
    requires id.Begin() < n <= |d| && Rehashes(d, groups, proof)
    ensures Rehashes(d, groups + [Cover(n, id)], proof + [Clipped(d, id, n)])
  {
    CoverHash(d, n, id);
  }

  lemma {:induction false} PathNodesRehash(d: Leaves, n: nat, id: NodeID, i: nat)
    requires id.Begin() <= i < n && i < id.End() && n <= |d|
    ensures Rehashes(d, PathNodes(n, id, i), Path(d, id.Begin(), Reach(id, n), i))
    decreases id.level
  {
    hide Rehashes, NodeHash, Root, Cover, Path;
    if id.level == 0 {
      CoverRehashes(d, n, id);
      Width(id);
      PathOfOne(d, id.Begin());
    } else {
      ChildSpans(id);
      SplitAtChild(id, n);
      var left, right := id.Left(), id.Right();
      if right.Begin() >= n {
        PathNodesRehash(d, n, left, i);
      } else if i < right.Begin() {
        PathNodesRehash(d, n, left, i);
        PathUnfolds(d, id.Begin(), right.Begin(), Reach(id, n), i);
        RehashesExtends(d, n, right, PathNodes(n, left, i), Path(d, left.Begin(), Reach(left, n), i));
      } else {
        PathNodesRehash(d, n, right, i);
        PathUnfolds(d, id.Begin(), right.Begin(), Reach(id, n), i);
        RehashesExtends(d, n, left, PathNodes(n, right, i), Path(d, right.Begin(), Reach(right, n), i));
      }
    }
  }

  lemma {:induction false} SubproofNodesRehash(d: Leaves, n: nat, id: NodeID, m: nat, whole: bool)
    requires id.Begin() < m <= n <= |d| && m <= id.End()
    ensures Rehashes(d, SubproofNodes(n, id, m, whole), Subproof(d, id.Begin(), Reach(id, n), m, whole))
    decreases id.level
  {
    hide Rehashes, NodeHash, Root, Cover, Subproof;
    if m == n || m == id.End() {
      SubproofEnds(d, id.Begin(), m, whole);
      CoverRehashes(d, n, id);
    } else {
      ChildSpans(id);
      SplitAtChild(id, n);
      var left, right := id.Left(), id.Right();
      if right.Begin() >= n {
        SubproofNodesRehash(d, n, left, m, whole);
      } else if m <= right.Begin() {
        SubproofNodesRehash(d, n, left, m, whole);
        SubproofUnfolds(d, id.Begin(), right.Begin(), Reach(id, n), m, whole);
        RehashesExtends(d, n, right, SubproofNodes(n, left, m, whole),
            Subproof(d, left.Begin(), Reach(left, n), m, whole));
      } else {
        SubproofNodesRehash(d, n, right, m, false);
        SubproofUnfolds(d, id.Begin(), right.Begin(), Reach(id, n), m, whole);
        RehashesExtends(d, n, left, SubproofNodes(n, right, m, false),
            Subproof(d, right.Begin(), Reach(right, n), m, false));
      }
    }
  }

  /** The nodes an accumulator started from a frontier of `base` leaves holds
      once it has n: those completed since, and the frontier's own. */
  predicate Held(base: nat, n: nat, id: NodeID) {
    id.End() <= n && base < id.Parent().End()
  }

  ghost predicate AllHeld(base: nat, n: nat, groups: seq<seq<NodeID>>) {
    forall g, x :: 0 <= g < |groups| && x in groups[g] ==> Held(base, n, x)
  }

  lemma {:induction false} CoverHeld(base: nat, n: nat, id: NodeID)
    requires id.Begin() < n && base <= n && base < id.Parent().End()
    ensures AllHeld(base, n, [Cover(n, id)])
  {
    CoverNodes(n, id);
  }

  /** Every node of an inclusion proof at or above the frontier is held. */
  lemma {:induction false} PathNodesHeld(base: nat, n: nat, id: NodeID, i: nat)
    requires id.Begin() <= i < n && i < id.End() && base <= i
    ensures AllHeld(base, n, PathNodes(n, id, i))
    decreases id.level
  {
    if id.level > 0 {
      ChildSpans(id);
      if id.Right().Begin() >= n {
        PathNodesHeld(base, n, id.Left(), i);
      } else if i < id.Right().Begin() {
        PathNodesHeld(base, n, id.Left(), i);
        CoverHeld(base, n, id.Right());
      } else {
        PathNodesHeld(base, n, id.Right(), i);
        CoverHeld(base, n, id.Left());
      }
    }
  }

  /** Every node of a consistency proof from at or above the frontier is held. */
  lemma {:induction false} SubproofNodesHeld(base: nat, n: nat, id: NodeID, m: nat, whole: bool)
    requires id.Begin() < m <= n && m <= id.End() && base <= m
    requires whole || m < id.Parent().End()
    ensures AllHeld(base, n, SubproofNodes(n, id, m, whole))
    decreases id.level
  {
    if m == n || m == id.End() {
      if !whole { CoverHeld(base, n, id); }
    } else {
      ChildSpans(id);
      if id.Right().Begin() >= n {
        SubproofNodesHeld(base, n, id.Left(), m, whole);
      } else if m <= id.Right().Begin() {
        SubproofNodesHeld(base, n, id.Left(), m, whole);
        CoverHeld(base, n, id.Right());
      } else {
        SubproofNodesHeld(base, n, id.Right(), m, false);
        CoverHeld(base, n, id.Left());
      }
    }
  }

  function BitLength(n: nat): (l: nat)
    ensures n < Pow2(l)
  {
    if n == 0 then 0 else BitLength(n / 2) + 1
  }

  /** The leftmost node of the lowest level that spans n leaves. */
  function TopNode(n: nat): (id: NodeID)
    ensures id.Begin() == 0 && n <= id.End()
  {
    SpanOne(BitLength(n));
    NodeID(BitLength(n), 0)
  }
}
