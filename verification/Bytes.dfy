// Byte strings, fixed-width big-endian integers and length-prefixed fields:
// the vocabulary every on-disk and signed format of the audit log is built of.

module Bytes {

  /** Also the shape of a call that either succeeds or reports an error. */
  datatype Option<+T> = None | Some(value: T) {
    predicate IsFailure() { None? }
    function PropagateFailure<U>(): Option<U> requires None? { None }
    function Extract(): T requires Some? { value }
  }

  newtype Byte = x: int | 0 <= x < 256
  type Bytes = seq<Byte>

  const TWO32: int := 0x1_0000_0000
  const TWO63: int := 0x8000_0000_0000_0000
  const TWO64: int := 0x1_0000_0000_0000_0000

  type U32 = x: int | 0 <= x < TWO32
  type U64 = x: int | 0 <= x < TWO64
  type I64 = x: int | -TWO63 <= x < TWO63

  /** A Go string or byte slice: its length fits an int. */
  type Text = s: Bytes | |s| < TWO63

  /** The bytes of an ASCII literal. */
  function Ascii(s: string): (b: Bytes)
    ensures |b| == |s|
  {
    seq(|s|, i requires 0 <= i < |s| => ((s[i] as int) % 256) as Byte)
  }

  function Zeros(n: nat): (b: Bytes)
    ensures |b| == n
  {
    seq(n, _ => 0)
  }

  // ---------- big-endian integers ----------

  function Pow256(k: nat): (p: nat)
    ensures p >= 1
  {
    if k == 0 then 1 else 256 * Pow256(k - 1)
  }

  /** The low k bytes of v, most significant first (binary.BigEndian). */
  function BigEndian(k: nat, v: nat): (b: Bytes)
    ensures |b| == k
  {
    if k == 0 then [] else BigEndian(k - 1, v / 256) + [(v % 256) as Byte]
  }

  function FromBigEndian(b: Bytes): nat {
    if b == [] then 0 else FromBigEndian(b[..|b| - 1]) * 256 + b[|b| - 1] as nat
  }

  lemma {:induction false} BigEndianRoundTrip(k: nat, v: nat)
    requires v < Pow256(k)
    ensures FromBigEndian(BigEndian(k, v)) == v
  {
    if k > 0 {
      var b := BigEndian(k, v);
      assert b[..k - 1] == BigEndian(k - 1, v / 256);
      BigEndianRoundTrip(k - 1, v / 256);
    }
  }

  lemma Pow256Values()
    ensures Pow256(4) == TWO32 && Pow256(8) == TWO64
  {
    assert Pow256(4) == 256 * (256 * (256 * (256 * 1))) by {
      assert Pow256(1) == 256 && Pow256(2) == 256 * 256 && Pow256(3) == 256 * 256 * 256;
    }
    assert Pow256(5) == 256 * Pow256(4) && Pow256(6) == 256 * Pow256(5);
    assert Pow256(7) == 256 * Pow256(6) && Pow256(8) == 256 * Pow256(7);
  }

  function BE32(v: U32): (b: Bytes)
    ensures |b| == 4
  {
    BigEndian(4, v)
  }

  function BE64(v: U64): (b: Bytes)
    ensures |b| == 8
  {
    BigEndian(8, v)
  }

  /** Go's uint64(int64): two's complement. */
  function Wrap(v: I64): U64 {
    if v < 0 then v + TWO64 else v
  }

  function Unwrap(v: U64): I64 {
    if v >= TWO63 then v - TWO64 else v
  }

  /** A length-prefixed field: eight bytes of length, then the bytes. */
  function Field(v: Text): Bytes {
    BE64(|v|) + v
  }

  // ---------- readers: each consumes one item from the front ----------

  /** An item read, and what is left. */
  type Taken<T> = Option<(T, Bytes)>

  function TakeU64(s: Bytes): Taken<U64> {
    if |s| < 8 then None else
    var v := FromBigEndian(s[..8]);
    if v < TWO64 then Some((v, s[8..])) else None
  }

  function TakeField(s: Bytes): Taken<Text> {
    var (n, rest) :- TakeU64(s);
    if n < TWO63 && n <= |rest| then Some((rest[..n], rest[n..])) else None
  }

  lemma TakeU64Inverts(v: U64, rest: Bytes)
    ensures TakeU64(BE64(v) + rest) == Some((v, rest))
  {
    Pow256Values();
    BigEndianRoundTrip(8, v);
    var s := BE64(v) + rest;
    assert s[..8] == BE64(v) && s[8..] == rest;
  }

  lemma TakeFieldInverts(v: Text, rest: Bytes)
    ensures TakeField(Field(v) + rest) == Some((v, rest))
  {
    assert Field(v) + rest == BE64(|v|) + (v + rest);
    TakeU64Inverts(|v|, v + rest);
    assert (v + rest)[..|v|] == v && (v + rest)[|v|..] == rest;
  }

  lemma WrapInverts(v: I64)
    ensures Unwrap(Wrap(v)) == v
  {}

  // ---------- sequences ----------

  lemma SliceSplits<T>(s: seq<T>, lo: nat, mid: nat, hi: nat)
    requires lo <= mid <= hi <= |s|
    ensures s[lo..hi] == s[lo..mid] + s[mid..hi]
    ensures s[lo..hi][..mid - lo] == s[lo..mid] && s[lo..hi][mid - lo..] == s[mid..hi]
  {}

  lemma ConcatAssociates<T>(a: seq<T>, b: seq<T>, c: seq<T>)
    ensures a + (b + c) == a + b + c
  {}

  lemma HeadAndTail<T>(s: seq<T>)
    requires s != []
    ensures [s[0]] + s[1..] == s
  {}
}
