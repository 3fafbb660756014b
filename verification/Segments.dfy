// Sealed-segment file names and the directory listing that fixes commit order
// (internal/wal/segment.go).

module Segments {
  import opened Bytes

  const PREFIX: Bytes := Ascii("audit-")

  const SUFFIX: Bytes := Ascii(".wal")

  predicate IsDigit(c: Byte) { 48 <= c <= 57 }

  predicate AllDigits(s: Bytes) { forall i :: 0 <= i < |s| ==> IsDigit(s[i]) }

  function Digits(n: nat): (s: Bytes)
    ensures s != [] && AllDigits(s)
  {
    if n < 10 then [(48 + n) as Byte] else Digits(n / 10) + [(48 + n % 10) as Byte]
  }

  function Value(s: Bytes): nat
    requires AllDigits(s)
  {
    if s == [] then 0 else Value(s[..|s| - 1]) * 10 + (s[|s| - 1] - 48) as nat
  }

  /** %06d. */
  function Padded(n: nat): (s: Bytes)
    ensures s != [] && AllDigits(s)
  {
    var d := Digits(n);
    if |d| >= 6 then d else seq(6 - |d|, _ => 48) + d
  }

  function SegmentName(index: nat): Bytes {
    PREFIX + Padded(index) + SUFFIX
  }

  /** ^audit-(\d+)\.wal$ */
  predicate IsSegmentName(name: Bytes) {
    && |name| > |PREFIX| + |SUFFIX|
    && name[..|PREFIX|] == PREFIX
    && name[|name| - |SUFFIX|..] == SUFFIX
    && AllDigits(name[|PREFIX|..|name| - |SUFFIX|])
  }

  function SegmentIndex(name: Bytes): nat
    requires IsSegmentName(name)
  {
    Value(name[|PREFIX|..|name| - |SUFFIX|])
  }

  lemma {:induction false} ValueOfDigits(n: nat)
    ensures Value(Digits(n)) == n
  {
    var d := Digits(n);
    if n < 10 {
      assert d[..|d| - 1] == [];
    } else {
      assert d[..|d| - 1] == Digits(n / 10);
      ValueOfDigits(n / 10);
    }
  }

  lemma {:induction false} ValueOfZeros(k: nat, d: Bytes)
    requires AllDigits(d)
    ensures AllDigits(seq(k, _ => 48) + d) && Value(seq(k, _ => 48) + d) == Value(d)
  {
    var z: Bytes := seq(k, _ => 48);
    if d != [] {
      ValueOfZeros(k, d[..|d| - 1]);
      assert (z + d)[..|z + d| - 1] == z + d[..|d| - 1];
    } else if k > 0 {
      ValueOfZeros(k - 1, []);
      assert (z + d)[..k - 1] == seq(k - 1, _ => 48) + [];
    }
  }

  /** Names are read back as the index they were made from. */
  lemma {:induction false} NameRoundTrip(index: nat)
    ensures IsSegmentName(SegmentName(index)) && SegmentIndex(SegmentName(index)) == index
  {
    var n := SegmentName(index);
    assert n[|PREFIX|..|n| - |SUFFIX|] == Padded(index);
    assert n[..|PREFIX|] == PREFIX && n[|n| - |SUFFIX|..] == SUFFIX;
    ValueOfDigits(index);
    var d := Digits(index);
    if |d| < 6 { ValueOfZeros(6 - |d|, d); }
  }

  /** The pattern takes any run of digits, so that a name claiming the index of
      another is seen. */
  lemma {:induction false} NamesExactly(name: Bytes)
    ensures IsSegmentName(name) <==>
      exists d: Bytes :: d != [] && AllDigits(d) && name == Ascii("audit-") + d + Ascii(".wal")
  {
    if IsSegmentName(name) {
      var d := name[|PREFIX|..|name| - |SUFFIX|];
      assert d != [] && AllDigits(d) && name == Ascii("audit-") + d + Ascii(".wal");
    }
    forall d: Bytes | d != [] && AllDigits(d) && name == Ascii("audit-") + d + Ascii(".wal")
        ensures IsSegmentName(name) {
      assert name[|PREFIX|..|name| - |SUFFIX|] == d;
      assert name[..|PREFIX|] == PREFIX && name[|name| - |SUFFIX|..] == SUFFIX;
    }
  }

  lemma {:induction false} OneMoreDigit(n: nat, k: nat)
    requires if k == 0 then n < 10 else |Digits(n / 10)| <= k
    ensures |Digits(n)| <= k + 1
  {}

  /** Below a million every name has six digits. */
  lemma {:induction false} NameWidth(index: nat)
    requires index < 1_000_000
    ensures |SegmentName(index)| == |PREFIX| + 6 + |SUFFIX|
  {
    OneMoreDigit(index / 100_000, 0);
    OneMoreDigit(index / 10_000, 1);
    OneMoreDigit(index / 1_000, 2);
    OneMoreDigit(index / 100, 3);
    OneMoreDigit(index / 10, 4);
    OneMoreDigit(index, 5);
  }

  // ---------- listings ----------

  /** Strictly increasing segment indexes. */
  predicate Ordered(names: seq<Bytes>) {
    && (forall i :: 0 <= i < |names| ==> IsSegmentName(names[i]))
    && (forall i, j :: 0 <= i < j < |names| ==> SegmentIndex(names[i]) < SegmentIndex(names[j]))
  }

  /** Every segment name in the directory, in index order. */
  ghost predicate IsListing(dir: set<Bytes>, names: seq<Bytes>) {
    Ordered(names) && forall n :: n in names <==> n in dir && IsSegmentName(n)
  }

  /** Indexes fit a uint64 and no two names claim the same one. */
  ghost predicate Unambiguous(dir: set<Bytes>) {
    && (forall n :: n in dir && IsSegmentName(n) ==> SegmentIndex(n) < TWO64)
    && (forall m, n ::
      m in dir && n in dir && IsSegmentName(m) && IsSegmentName(n) && SegmentIndex(m) == SegmentIndex(n) ==> m == n)
  }

  lemma {:induction false} LastIsHighest(a: seq<Bytes>, n: Bytes)
    requires Ordered(a) && a != []
    ensures a[|a| - 1] in a
    ensures n in a ==> SegmentIndex(n) <= SegmentIndex(a[|a| - 1])
    ensures n in a[..|a| - 1] <==> n in a && n != a[|a| - 1]
  {
    assert a == a[..|a| - 1] + [a[|a| - 1]];
  }

  lemma {:induction false} OrderedUnique(a: seq<Bytes>, b: seq<Bytes>)
    requires Ordered(a) && Ordered(b)
    requires forall n :: n in a <==> n in b
    ensures a == b
  {
    assert (a != [] ==> a[0] in a) && (b != [] ==> b[0] in b);
    if a != [] {
      var x, y := a[|a| - 1], b[|b| - 1];
      LastIsHighest(a, y);
      LastIsHighest(b, x);
      var a', b' := a[..|a| - 1], b[..|b| - 1];
      forall n ensures n in a' <==> n in b' {
        LastIsHighest(a, n);
        LastIsHighest(b, n);
      }
      OrderedUnique(a', b');
      assert a == a' + [x] && b == b' + [y];
    }
  }

  function InsertByIndex(names: seq<Bytes>, n: Bytes): seq<Bytes>
    requires Ordered(names) && IsSegmentName(n)
  {
    if names == [] || SegmentIndex(names[|names| - 1]) < SegmentIndex(n) then names + [n]
    else InsertByIndex(names[..|names| - 1], n) + [names[|names| - 1]]
  }

  lemma {:induction false} InsertKeepsOrder(names: seq<Bytes>, n: Bytes)
    requires Ordered(names) && IsSegmentName(n)
    requires forall i :: 0 <= i < |names| ==> SegmentIndex(names[i]) != SegmentIndex(n)
    ensures Ordered(InsertByIndex(names, n))
    ensures forall m :: m in InsertByIndex(names, n) <==> m in names || m == n
  {
    if !(names == [] || SegmentIndex(names[|names| - 1]) < SegmentIndex(n)) {
      var init, last := names[..|names| - 1], names[|names| - 1];
      InsertKeepsOrder(init, n);
      assert names == init + [last];
      var r := InsertByIndex(init, n);
      forall i | 0 <= i < |r| ensures SegmentIndex(r[i]) < SegmentIndex(last) {
        assert r[i] in init || r[i] == n;
      }
    }
  }

  /** ListSegments: the listing, refused exactly when the order is ambiguous. */
  method ListSegments(dir: set<Bytes>) returns (r: Option<seq<Bytes>>)
    ensures r.Some? <==> Unambiguous(dir)
    ensures r.Some? ==> IsListing(dir, r.value)
  {
    var out: seq<Bytes> := [];
    var left := dir;
    while left != {}
      invariant left <= dir && IsListing(dir - left, out) && Unambiguous(dir - left)
      decreases left
    {
      var n :| n in left;
      if IsSegmentName(n) {
        if SegmentIndex(n) >= TWO64 { return None; }
        if exists i :: 0 <= i < |out| && SegmentIndex(out[i]) == SegmentIndex(n) {
          var i :| 0 <= i < |out| && SegmentIndex(out[i]) == SegmentIndex(n);
          assert out[i] in out && out[i] in dir - left;
          return None;
        }
        forall m | m in dir - left && IsSegmentName(m) ensures SegmentIndex(m) != SegmentIndex(n) {
          assert m in out;
        }
        InsertKeepsOrder(out, n);
        out := InsertByIndex(out, n);
      }
      left := left - {n};
      assert dir - left == (dir - left - {n}) + {n};
    }
    assert dir - left == dir;
    return Some(out);
  }

  // ---------- runs of consecutive segments ----------

  /** The name of sealed segment i, counting from zero. */
  function FileName(i: nat): Bytes {
    SegmentName(i + 1)
  }

  lemma {:induction false} FileNameIndex(i: nat)
    ensures IsSegmentName(FileName(i)) && SegmentIndex(FileName(i)) == i + 1
  {
    NameRoundTrip(i + 1);
  }

  lemma {:induction false} NamesDistinct(i: nat, j: nat)
    requires FileName(i) == FileName(j)
    ensures i == j
  {
    FileNameIndex(i);
    FileNameIndex(j);
  }

  function NameRange(a: nat, b: nat): (names: seq<Bytes>)
    requires a <= b
    ensures |names| == b - a
  {
    seq(b - a, i requires 0 <= i < b - a => FileName(a + i))
  }

  lemma {:induction false} NameRangeOrdered(a: nat, b: nat)
    requires a <= b
    ensures Ordered(NameRange(a, b))
  {
    forall i | 0 <= i < b - a
      ensures IsSegmentName(NameRange(a, b)[i]) && SegmentIndex(NameRange(a, b)[i]) == a + i + 1
    {
      FileNameIndex(a + i);
    }
  }

  lemma {:induction false} InNameRange(a: nat, b: nat, n: Bytes)
    requires a <= b
    ensures n in NameRange(a, b) <==> exists i: nat :: a <= i < b && n == FileName(i)
  {
    var names := NameRange(a, b);
    if n in names {
      var j :| 0 <= j < b - a && names[j] == n;
      assert n == FileName(a + j);
    }
    if i: nat :| a <= i < b && n == FileName(i) {
      assert names[i - a] == FileName(a + (i - a));
    }
  }

  /** Dropping a set of names from an ordered listing. */
  function Without(names: seq<Bytes>, gone: set<Bytes>): seq<Bytes> {
    if names == [] then []
    else Without(names[..|names| - 1], gone) + (if names[|names| - 1] in gone then [] else [names[|names| - 1]])
  }

  lemma {:induction false} WithoutOrdered(names: seq<Bytes>, gone: set<Bytes>)
    requires Ordered(names)
    ensures Ordered(Without(names, gone))
    ensures forall n :: n in Without(names, gone) <==> n in names && n !in gone
  {
    if names != [] {
      var init, last := names[..|names| - 1], names[|names| - 1];
      WithoutOrdered(init, gone);
      assert names == init + [last];
      forall i | 0 <= i < |Without(init, gone)| ensures SegmentIndex(Without(init, gone)[i]) < SegmentIndex(last) {
        assert Without(init, gone)[i] in init;
      }
    }
  }
}
