// The write-ahead log's frame format (internal/wal): uint32-BE length,
// uint32-BE CRC-32 of the payload, payload.

module Wal {
  import opened Bytes
  import opened Crypto

  const MAX_RECORD: nat := 8388608

  type Payload = p: Bytes | |p| <= MAX_RECORD

  function Header(p: Payload): (h: Bytes)
    ensures |h| == 8
  {
    BE32(|p|) + BE32(CRC32(p))
  }

  function Frame(p: Payload): Bytes {
    Header(p) + p
  }

  function Frames(ps: seq<Payload>): Bytes {
    if ps == [] then [] else Frame(ps[0]) + Frames(ps[1..])
  }

  /** ReadAll's answer: the intact frames, or a hard error. */
  datatype ReadResult = Intact(frames: seq<Payload>) | Corrupt {
    function After(p: Payload): ReadResult {
      if Intact? then Intact([p] + frames) else Corrupt
    }
  }

  function FrameLength(s: Bytes): nat
    requires |s| >= 8
  {
    FromBigEndian(s[..4])
  }

  function FrameCrc(s: Bytes): nat
    requires |s| >= 8
  {
    FromBigEndian(s[4..8])
  }

  /** What a log's bytes mean: a trailing torn frame is dropped, an oversize
      length or a bad CRC on a whole frame is an error. */
  function Parse(s: Bytes): ReadResult
    decreases |s|
  {
    if |s| < 8 then Intact([])
    else if FrameLength(s) > MAX_RECORD then Corrupt
    else if |s| < 8 + FrameLength(s) then Intact([])
    else
      var p: Payload := s[8..8 + FrameLength(s)];
      if CRC32(p) != FrameCrc(s) then Corrupt
      else Parse(s[8 + FrameLength(s)..]).After(p)
  }

  function Prepend(ps: seq<Payload>, r: ReadResult): ReadResult {
    if r.Intact? then Intact(ps + r.frames) else Corrupt
  }

  lemma {:induction false} PrependStep(ps: seq<Payload>, p: Payload, r: ReadResult)
    ensures Prepend(ps, r.After(p)) == Prepend(ps + [p], r)
  {
    if r.Intact? { assert ps + ([p] + r.frames) == ps + [p] + r.frames; }
  }

  /** ReadAll. */
  method ReadAll(s: Bytes) returns (r: ReadResult)
    ensures r == Parse(s)
  {
    var out: seq<Payload> := [];
    var at: nat := 0;
    while true
      invariant at <= |s|
      invariant Parse(s) == Prepend(out, Parse(s[at..]))
      decreases |s| - at
    {
      var rest := s[at..];
      if |rest| < 8 { return Intact(out); }
      var length := FrameLength(rest);
      if length > MAX_RECORD { return Corrupt; }
      if |rest| < 8 + length { return Intact(out); }
      var p: Payload := rest[8..8 + length];
      if CRC32(p) != FrameCrc(rest) { return Corrupt; }
      assert s[at + 8 + length..] == rest[8 + length..];
      PrependStep(out, p, Parse(rest[8 + length..]));
      out := out + [p];
      at := at + 8 + length;
    }
  }

  lemma {:induction false} PrependHead(ps: seq<Payload>, r: ReadResult)
    requires ps != []
    ensures Prepend(ps, r) == Prepend(ps[1..], r).After(ps[0])
  {
    if r.Intact? { assert ps + r.frames == [ps[0]] + (ps[1..] + r.frames); }
  }

  // ---------- round trip and torn tails ----------

  lemma {:induction false} HeaderReads(p: Payload, rest: Bytes)
    ensures var s := Header(p) + rest;
      FrameLength(s) == |p| && FrameCrc(s) == CRC32(p)
  {
    Pow256Values();
    BigEndianRoundTrip(4, |p|);
    BigEndianRoundTrip(4, CRC32(p));
    var s := Header(p) + rest;
    assert s[..4] == BE32(|p|) && s[4..8] == BE32(CRC32(p));
  }

  /** A frame at the front is read, whatever follows. */
  lemma {:induction false} FrameReads(p: Payload, rest: Bytes)
    ensures Parse(Frame(p) + rest) == Parse(rest).After(p)
  {
    var s := Frame(p) + rest;
    assert s == Header(p) + (p + rest);
    HeaderReads(p, p + rest);
    assert s[8..8 + |p|] == p && s[8 + |p|..] == rest;
  }

  /** Written frames are read back exactly, then whatever follows them. */
  lemma {:induction false} FramesRead(ps: seq<Payload>, rest: Bytes)
    ensures Parse(Frames(ps) + rest) == Prepend(ps, Parse(rest))
  {
    if ps == [] {
      assert Frames(ps) + rest == rest;
    } else {
      var tail := Frames(ps[1..]) + rest;
      assert Frames(ps) + rest == Frame(ps[0]) + tail;
      FrameReads(ps[0], tail);
      FramesRead(ps[1..], rest);
      PrependHead(ps, Parse(rest));
    }
  }

  lemma {:induction false} RoundTrip(ps: seq<Payload>)
    ensures Parse(Frames(ps)) == Intact(ps)
  {
    FramesRead(ps, []);
    assert Frames(ps) + [] == Frames(ps);
  }

  /** A proper prefix of one frame reads as no frame at all. */
  lemma {:induction false} TornFrame(p: Payload, k: nat)
    requires k < |Frame(p)|
    ensures Parse(Frame(p)[..k]) == Intact([])
  {
    if k >= 8 {
      assert Frame(p)[..k] == Header(p) + p[..k - 8];
      HeaderReads(p, p[..k - 8]);
    }
  }

  /** What a write cut short leaves: less than a frame. */
  ghost predicate Torn(s: Bytes) {
    exists p: Payload :: s < Frame(p)
  }

  lemma {:induction false} TornIgnored(ps: seq<Payload>, s: Bytes)
    requires Torn(s)
    ensures Parse(Frames(ps) + s) == Intact(ps)
  {
    var p: Payload :| s < Frame(p);
    TornFrame(p, |s|);
    assert s == Frame(p)[..|s|];
    FramesRead(ps, s);
  }

  /** The number of frames that lie wholly in the first k bytes. */
  function WholeFrames(ps: seq<Payload>, k: nat): (c: nat)
    ensures c <= |ps|
  {
    if ps == [] || k < |Frame(ps[0])| then 0 else 1 + WholeFrames(ps[1..], k - |Frame(ps[0])|)
  }

  lemma {:induction false} WholeFramesIsMost(ps: seq<Payload>, k: nat)
    ensures var c := WholeFrames(ps, k);
      |Frames(ps[..c])| <= k && (c < |ps| ==> |Frames(ps[..c + 1])| > k)
  {
    if ps != [] && k >= |Frame(ps[0])| {
      var c := WholeFrames(ps, k);
      WholeFramesIsMost(ps[1..], k - |Frame(ps[0])|);
      assert ps[..c][1..] == ps[1..][..c - 1];
      if c < |ps| { assert ps[..c + 1][1..] == ps[1..][..c]; }
    } else if ps != [] {
      assert ps[..1][1..] == [];
      assert Frames(ps[..1]) == Frame(ps[0]) + Frames(ps[..1][1..]);
    }
  }

  lemma {:induction false} CutAfter<T>(a: seq<T>, b: seq<T>, k: nat)
    requires |a| <= k <= |a| + |b|
    ensures (a + b)[..k] == a + b[..k - |a|]
  {}

  /** A crash can cut the log at any byte: the reader returns exactly the whole
      frames before the cut, and never an error. */
  lemma {:induction false} TornTail(ps: seq<Payload>, k: nat)
    requires k <= |Frames(ps)|
    ensures Parse(Frames(ps)[..k]) == Intact(ps[..WholeFrames(ps, k)])
  {
    hide Parse, Header;
    if ps == [] {
      RoundTrip(ps);
    } else {
      var f, rest, c := Frame(ps[0]), Frames(ps[1..]), WholeFrames(ps, k);
      if k < |f| {
        assert Frames(ps)[..k] == f[..k];
        TornFrame(ps[0], k);
      } else {
        CutAfter(f, rest, k);
        FrameReads(ps[0], rest[..k - |f|]);
        TornTail(ps[1..], k - |f|);
        CutAfter([ps[0]], ps[1..], c);
        assert ps == [ps[0]] + ps[1..];
      }
    }
  }

  lemma {:induction false} WholeFrame(s: Bytes, n: nat)
    requires 8 + n <= |s|
    ensures s == s[..8] + s[8..8 + n] + s[8 + n..]
  {}

  lemma {:induction false} BigEndianOfRead(b: Bytes)
    ensures FromBigEndian(b) < Pow256(|b|) && BigEndian(|b|, FromBigEndian(b)) == b
  {
    if b != [] {
      BigEndianOfRead(b[..|b| - 1]);
      assert b == b[..|b| - 1] + [b[|b| - 1]];
    }
  }

  lemma {:induction false} HeaderIs(s: Bytes)
    requires |s| >= 8 && FrameLength(s) <= MAX_RECORD && |s| >= 8 + FrameLength(s)
    requires CRC32(s[8..8 + FrameLength(s)]) == FrameCrc(s)
    ensures s[..8] == Header(s[8..8 + FrameLength(s)])
  {
    BigEndianOfRead(s[..4]);
    BigEndianOfRead(s[4..8]);
    assert s[..8] == s[..4] + s[4..8];
  }

  /** What is accepted with a frame begins with that frame. */
  lemma {:induction false} FirstFrame(s: Bytes) returns (rest: Bytes)
    requires Parse(s).Intact? && Parse(s).frames != []
    ensures var ps := Parse(s).frames;
      s == Frame(ps[0]) + rest && |rest| < |s| && Parse(rest) == Intact(ps[1..])
  {
    var n := FrameLength(s);
    var p: Payload := s[8..8 + n];
    rest := s[8 + n..];
    HeaderIs(s);
    WholeFrame(s, n);
    var more := Parse(rest);
    assert Parse(s) == more.After(p) && ([p] + more.frames)[1..] == more.frames;
  }

  lemma {:induction false} DropTwice(a: Bytes, rest: Bytes, b: Bytes)
    requires b <= rest
    ensures a + b <= a + rest && (a + rest)[|a + b|..] == rest[|b|..]
  {}

  /** Less than a frame: no header, or one whose length is allowed and does not
      fit. */
  predicate Incomplete(s: Bytes) {
    |s| < 8 || (FromBigEndian(s[..4]) <= MAX_RECORD && |s| < 8 + FromBigEndian(s[..4]))
  }

  lemma {:induction false} IncompleteReads(s: Bytes)
    ensures Parse(s) == Intact([]) <==> Incomplete(s)
  {}

  /** The reader invents nothing and hides nothing: it accepts the writings of
      frames followed by less than a frame, each as those frames, and no other
      bytes. */
  lemma {:induction false} ReaderSound(s: Bytes, ps: seq<Payload>)
    ensures Parse(s) == Intact(ps) <==> Frames(ps) <= s && Incomplete(s[|Frames(ps)|..])
    decreases |s|
  {
    if Parse(s) == Intact(ps) && ps != [] {
      var rest := FirstFrame(s);
      hide Parse, Frame;
      ReaderSound(rest, ps[1..]);
      DropTwice(Frame(ps[0]), rest, Frames(ps[1..]));
    } else if Parse(s) == Intact(ps) {
      IncompleteReads(s);
    }
    if Frames(ps) <= s {
      var tail := s[|Frames(ps)|..];
      assert s == Frames(ps) + tail;
      FramesRead(ps, tail);
      IncompleteReads(tail);
      if Incomplete(tail) { assert ps + [] == ps; }
    }
  }

  /** A length beyond the limit refuses the log, wherever it stands. */
  lemma {:induction false} OversizeRefused(ps: seq<Payload>, n: U32, crc: U32, rest: Bytes)
    requires n > MAX_RECORD
    ensures Parse(Frames(ps) + (BE32(n) + BE32(crc) + rest)) == Corrupt
  {
    var s := BE32(n) + BE32(crc) + rest;
    FramesRead(ps, s);
    Pow256Values();
    BigEndianRoundTrip(4, n);
    assert s[..4] == BE32(n);
  }

  // ---------- appending past a torn tail ----------

  /** A header is read, then as many bytes as it says. */
  lemma {:induction false} HeaderThen(q: Payload, s: Bytes)
    ensures Parse(Header(q) + s) ==
      if |s| < |q| then Intact([])
      else if CRC32(s[..|q|]) != CRC32(q) then Corrupt
      else Parse(s[|q|..]).After(s[..|q|])
  {
    hide Header;
    var x := Header(q) + s;
    HeaderReads(q, s);
    if |s| >= |q| { assert x[8..8 + |q|] == s[..|q|] && x[8 + |q|..] == s[|q|..]; }
  }

  /** Past a torn frame of q whose header got out, the reader takes what was
      appended for the rest of q: the new frame is not read, or the whole log is
      refused, or bytes nobody wrote pass for q's checksum. */
  lemma {:induction false} AppendPastTorn(ps: seq<Payload>, q: Payload, k: nat, p: Payload)
    requires 8 <= k < |Frame(q)|
    ensures var s := q[..k - 8] + Frame(p);
      Parse(Frames(ps) + (Frame(q)[..k] + Frame(p))) ==
        if |s| < |q| then Intact(ps)
        else if CRC32(s[..|q|]) != CRC32(q) then Corrupt
        else Prepend(ps, Parse(s[|q|..]).After(s[..|q|]))
  {
    hide Parse, Header, Frames;
    CutAfter(Header(q), q, k);
    var f: Bytes := Frame(p);
    ConcatAssociates(Header(q), q[..k - 8], f);
    HeaderThen(q, q[..k - 8] + f);
    FramesRead(ps, Frame(q)[..k] + f);
    assert ps + [] == ps;
  }

  /** So a log cut in a frame and then appended to can lose what was appended. */
  lemma {:induction false} AppendPastTornLost()
    ensures var q: Payload := Zeros(9); var p: Payload := [];
      Parse(Frame(q)[..8] + Frame(p)) == Intact([])
  {
    var q: Payload := Zeros(9);
    var p: Payload := [];
    AppendPastTorn([], q, 8, p);
    assert q[..0] + Frame(p) == Frame(p);
    assert Frames([]) + (Frame(q)[..8] + Frame(p)) == Frame(q)[..8] + Frame(p);
  }

  lemma {:induction false} OneFrame(p: Payload)
    ensures Frames([p]) == Frame(p)
  {
    assert [p][1..] == [];
  }

  lemma {:induction false} OnlyThese(ps: seq<Payload>, r: ReadResult, p: Payload)
    requires Prepend(ps, r) == Intact(ps + [p])
    ensures r == Intact([p])
  {
    assert (ps + r.frames)[|ps|..] == r.frames && (ps + [p])[|ps|..] == [p];
  }

  /** A frame appended after other bytes is read back if and only if it repeats
      them; after none it does. */
  lemma {:induction false} AppendReadsBack(ps: seq<Payload>, torn: Bytes, p: Payload)
    ensures var s := torn + Frame(p);
      Parse(Frames(ps) + s) == Intact(ps + [p]) <==> Frame(p) <= s && Incomplete(s[|Frame(p)|..])
  {
    var s := torn + Frame(p);
    FramesRead(ps, s);
    if Parse(Frames(ps) + s) == Intact(ps + [p]) {
      OnlyThese(ps, Parse(s), p);
      ReaderSound(s, [p]);
      OneFrame(p);
    }
    if Frame(p) <= s {
      IncompleteReads(s[|Frame(p)|..]);
      FrameReads(p, s[|Frame(p)|..]);
      assert s == Frame(p) + s[|Frame(p)|..];
    }
  }

  /** A whole frame whose stored CRC is not its payload's refuses the log. */
  lemma {:induction false} BadCrcRefused(ps: seq<Payload>, p: Payload, crc: U32, rest: Bytes)
    requires crc != CRC32(p)
    ensures Parse(Frames(ps) + (BE32(|p|) + BE32(crc) + p + rest)) == Corrupt
  {
    var s := BE32(|p|) + BE32(crc) + p + rest;
    FramesRead(ps, s);
    Pow256Values();
    BigEndianRoundTrip(4, |p|);
    BigEndianRoundTrip(4, crc);
    assert s[..4] == BE32(|p|) && s[4..8] == BE32(crc) && s[8..8 + |p|] == p;
  }

  lemma {:induction false} FramesAppend(a: seq<Payload>, b: seq<Payload>)
    ensures Frames(a + b) == Frames(a) + Frames(b)
  {
    if a == [] {
      assert a + b == b;
    } else {
      assert (a + b)[1..] == a[1..] + b;
      FramesAppend(a[1..], b);
    }
  }
}
