// Go's string order, and the keys of a map in that order (sort.Strings).

module Order {
  import opened Bytes

  /** Go's string order: bytewise lexicographic. */
  predicate NotAfter(a: Bytes, b: Bytes) {
    a == [] || (b != [] && (a[0] < b[0] || (a[0] == b[0] && NotAfter(a[1..], b[1..]))))
  }

  lemma {:induction false} OrderTotal(a: Bytes, b: Bytes)
    ensures NotAfter(a, b) || NotAfter(b, a)
    ensures NotAfter(a, b) && NotAfter(b, a) ==> a == b
  {
    if a != [] && b != [] && a[0] == b[0] {
      OrderTotal(a[1..], b[1..]);
      assert a == [a[0]] + a[1..] && b == [b[0]] + b[1..];
    }
  }

  lemma {:induction false} OrderTransitive(a: Bytes, b: Bytes, c: Bytes)
    requires NotAfter(a, b) && NotAfter(b, c)
    ensures NotAfter(a, c)
  {
    if a != [] && a[0] == b[0] && b[0] == c[0] { OrderTransitive(a[1..], b[1..], c[1..]); }
  }

  predicate IsFirst(k: Text, s: set<Text>) {
    k in s && forall x :: x in s ==> NotAfter(k, x)
  }

  lemma {:induction false} FirstExists(s: set<Text>)
    requires s != {}
    ensures exists k: Text :: IsFirst(k, s)
  {
    var x: Text :| x in s;
    if s == {x} {
      OrderTotal(x, x);
      assert IsFirst(x, s);
    } else {
      FirstExists(s - {x});
      var k: Text :| IsFirst(k, s - {x});
      OrderTotal(k, x);
      OrderTotal(x, x);
      if NotAfter(k, x) {
        assert IsFirst(k, s);
      } else {
        forall y: Text | y in s ensures NotAfter(x, y) {
          if y != x {
            assert y in s - {x};
            OrderTransitive(x, k, y);
          }
        }
        assert IsFirst(x, s);
      }
    }
  }

  function SortedKeys(s: set<Text>): (ks: seq<Text>)
    ensures |ks| == |s| && forall k :: k in ks <==> k in s
    ensures forall i, j :: 0 <= i < j < |ks| ==> NotAfter(ks[i], ks[j])
  {
    if s == {} then []
    else
      FirstExists(s);
      assert forall j: Text, k: Text :: IsFirst(j, s) && IsFirst(k, s) ==> j == k by {
        forall j: Text, k: Text | IsFirst(j, s) && IsFirst(k, s) ensures j == k { OrderTotal(j, k); }
      }
      var k: Text :| k in s && IsFirst(k, s);
      [k] + SortedKeys(s - {k})
  }
}
