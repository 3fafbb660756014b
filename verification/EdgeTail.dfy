// The access-log tailer on the egress-edge channel (internal/edgetail), through
// the ingest server's status mapping, into the store.

module EdgeTail {
  import opened Bytes
  import opened Ocsf
  import opened Chain
  import opened Disk
  import opened Store
  import Wal

  const NEWLINE: Byte := 10

  const EDGE: Text := Ascii("egress-edge")

  // ---------- the log ----------

  predicate Whole(s: Bytes) {
    s == [] || s[|s| - 1] == NEWLINE
  }

  /** Where the first line of s ends, if a writer has ended it. */
  function LineEnd(s: Bytes): (e: Option<nat>)
    ensures e.Some? ==> e.value < |s| && s[e.value] == NEWLINE && forall i :: 0 <= i < e.value ==> s[i] != NEWLINE
    ensures e.None? ==> forall i :: 0 <= i < |s| ==> s[i] != NEWLINE
  {
    if s == [] then None
    else if s[0] == NEWLINE then Some(0)
    else
      var e :- LineEnd(s[1..]);
      Some(e + 1)
  }

  /** The complete lines, without their newlines. */
  function Lines(s: Bytes): seq<Bytes>
    decreases |s|
  {
    var e := LineEnd(s);
    if e.None? then [] else [s[..e.value]] + Lines(s[e.value + 1..])
  }

  lemma {:induction false} LineEndIs(s: Bytes, e: nat)
    requires e < |s| && s[e] == NEWLINE && forall i :: 0 <= i < e ==> s[i] != NEWLINE
    ensures LineEnd(s) == Some(e)
  {
    assert LineEnd(s).Some? && LineEnd(s).value >= e;
  }

  lemma {:induction false} CutInFirst(a: Bytes, b: Bytes, e: nat)
    requires e < |a|
    ensures (a + b)[..e] == a[..e] && (a + b)[e + 1..] == a[e + 1..] + b
    ensures Whole(a) ==> Whole(a[e + 1..])
  {}

  lemma {:induction false} FirstLine(s: Bytes, e: nat)
    requires e < |s| && LineEnd(s) == Some(e)
    ensures Lines(s) == [s[..e]] + Lines(s[e + 1..])
  {}

  lemma {:induction false} NoLine(s: Bytes)
    requires LineEnd(s) == None
    ensures Lines(s) == []
  {}

  /** The first line of a, at the front of more. */
  lemma {:induction false} FirstOfMore(a: Bytes, b: Bytes)
    requires LineEnd(a).Some?
    ensures var e := LineEnd(a).value;
      && Lines(a) == [a[..e]] + Lines(a[e + 1..]) && Lines(a + b) == [a[..e]] + Lines(a[e + 1..] + b)
      && (Whole(a) ==> Whole(a[e + 1..]))
  {
    hide Lines;
    var e := LineEnd(a).value;
    LineEndIs(a + b, e);
    CutInFirst(a, b, e);
    FirstLine(a, e);
    FirstLine(a + b, e);
  }

  lemma {:induction false} WholeHasLine(a: Bytes)
    requires Whole(a) && a != []
    ensures LineEnd(a).Some?
  {
    var e := LineEnd(a);
  }

  /** Cut at a line boundary, the lines divide. */
  lemma {:induction false} LinesSplit(a: Bytes, b: Bytes)
    requires Whole(a)
    ensures Lines(a + b) == Lines(a) + Lines(b)
    decreases |a|
  {
    hide Lines, LineEnd, Whole;
    if a == [] {
      NoLine(a);
      assert a + b == b && [] + Lines(b) == Lines(b);
    } else {
      WholeHasLine(a);
      FirstOfMore(a, b);
      var e := LineEnd(a).value;
      LinesSplit(a[e + 1..], b);
      ConcatAssociates([a[..e]], Lines(a[e + 1..]), Lines(b));
    }
  }

  lemma {:induction false} OneLine(line: Bytes)
    requires NEWLINE !in line
    ensures Lines(line + [NEWLINE]) == [line] && Whole(line + [NEWLINE])
  {
    var s := line + [NEWLINE];
    LineEndIs(s, |line|);
    assert s[..|line|] == line && s[|line| + 1..] == [];
  }

  // ---------- conversion ----------

  /** Convert, a deterministic partial function of the line. */
  const CONVERT: Bytes -> Option<PublishEnvelope>

  function Convert(line: Bytes, sequence: U64): Option<PublishEnvelope> {
    var env :- CONVERT(line);
    Some(env.(sequence := sequence))
  }

  /** The convertible lines, in order. */
  function Kept(lines: seq<Bytes>): seq<Bytes> {
    if lines == [] then []
    else if CONVERT(Last(lines)).Some? then Kept(Init(lines)) + [Last(lines)]
    else Kept(Init(lines))
  }

  lemma {:induction false} KeptConverts(lines: seq<Bytes>)
    ensures |Kept(lines)| <= |lines| && forall i :: 0 <= i < |Kept(lines)| ==> CONVERT(Kept(lines)[i]).Some?
  {
    if lines != [] { KeptConverts(Init(lines)); }
  }

  lemma {:induction false} KeptGrows(a: seq<Bytes>, b: seq<Bytes>)
    ensures Kept(a) <= Kept(a + b)
  {
    if b == [] {
      assert a + b == a;
    } else {
      KeptGrows(a, Init(b));
      assert Init(a + b) == a + Init(b) && Last(a + b) == Last(b);
    }
  }

  /** What the log asks to have committed. */
  function Wanted(file: Bytes): seq<Bytes> {
    Kept(Lines(file))
  }

  /** The lines that do not convert. */
  function Poisoned(s: Bytes): nat {
    KeptConverts(Lines(s));
    |Lines(s)| - |Wanted(s)|
  }

  /** Those before an offset. */
  function Passed(file: Bytes, offset: nat): nat {
    if offset <= |file| then Poisoned(file[..offset]) else 0
  }

  /** And what is asked in all, after the lines taken from earlier logs. */
  function Expected(done: seq<Bytes>, file: Bytes): seq<Bytes> {
    done + Wanted(file)
  }

  // ---------- the cursor ----------

  datatype Cursor = Cursor(offset: nat, sequence: nat)

  /** The cursor stands on a line boundary, and its sequence is base and the
      number of convertible lines before it. */
  predicate Aligned(c: Cursor, base: nat, file: Bytes) {
    c.offset <= |file| && Whole(file[..c.offset]) && c.sequence == base + |Wanted(file[..c.offset])|
  }

  /** So it does, or it is past the end of a shorter file and will be put back
      to the start of it. */
  predicate Stands(c: Cursor, base: nat, file: Bytes) {
    if c.offset <= |file| then Aligned(c, base, file) else c.sequence == base
  }

  /** The lines before a boundary are the first of the file's. */
  lemma {:induction false} WantedPrefix(file: Bytes, k: nat)
    requires k <= |file| && Whole(file[..k])
    ensures Wanted(file[..k]) <= Wanted(file)
  {
    assert file == file[..k] + file[k..];
    LinesSplit(file[..k], file[k..]);
    KeptGrows(Lines(file[..k]), Lines(file[k..]));
  }

  /** Growth moves no cursor, unless it hides a rotation. */
  lemma {:induction false} StandsStill(c: Cursor, base: nat, file: Bytes, file': Bytes)
    requires Stands(c, base, file) && file <= file' && (|file| < c.offset ==> |file'| < c.offset)
    ensures Stands(c, base, file')
  {
    if c.offset <= |file| { assert file'[..c.offset] == file[..c.offset]; }
  }

  lemma {:induction false} LineAt(file: Bytes, from: nat, e: nat)
    requires from <= e < |file| && LineEnd(file[from..]) == Some(e - from)
    ensures NEWLINE !in file[from..e]
        && file[..e + 1] == file[..from] + (file[from..e] + [NEWLINE]) && Whole(file[..e + 1])
  {
    forall i | from <= i < e ensures file[i] != NEWLINE { assert file[from..][i - from] != NEWLINE; }
    assert file[from..][e - from] == file[e];
  }

  lemma {:induction false} KeptStep(lines: seq<Bytes>, line: Bytes)
    ensures Kept(lines + [line]) == if CONVERT(line).Some? then Kept(lines) + [line] else Kept(lines)
  {
    assert Init(lines + [line]) == lines && Last(lines + [line]) == line;
  }

  lemma {:induction false} LineAdds(file: Bytes, from: nat, e: nat)
    requires from <= e < |file| && Whole(file[..from]) && LineEnd(file[from..]) == Some(e - from)
    ensures Whole(file[..e + 1])
    ensures var line := file[from..e];
      Wanted(file[..e + 1]) == if CONVERT(line).Some? then Wanted(file[..from]) + [line] else Wanted(file[..from])
  {
    LineAt(file, from, e);
    OneLine(file[from..e]);
    LinesSplit(file[..from], file[from..e] + [NEWLINE]);
    KeptStep(Lines(file[..from]), file[from..e]);
  }

  /** Past one more line. */
  lemma {:induction false} LineStep(c: Cursor, done: seq<Bytes>, file: Bytes, e: nat)
    requires Aligned(c, |done|, file) && c.offset <= e < |file| && LineEnd(file[c.offset..]) == Some(e - c.offset)
    ensures var line := file[c.offset..e]; var next := e + 1; var wanted := Expected(done, file);
      if CONVERT(line).Some?
      then Aligned(Cursor(next, c.sequence + 1), |done|, file) && c.sequence < |wanted| && wanted[c.sequence] == line
      else Aligned(Cursor(next, c.sequence), |done|, file)
  {
    hide Lines, Kept, Wanted, Whole, LineEnd;
    LineAdds(file, c.offset, e);
    WantedPrefix(file, e + 1);
  }

  lemma {:induction false} PassedStep(c: Cursor, done: seq<Bytes>, file: Bytes, e: nat)
    requires Aligned(c, |done|, file) && c.offset <= e < |file| && LineEnd(file[c.offset..]) == Some(e - c.offset)
    ensures Passed(file, e + 1) == Passed(file, c.offset) + if CONVERT(file[c.offset..e]).Some? then 0 else 1
  {
    LineAt(file, c.offset, e);
    OneLine(file[c.offset..e]);
    LinesSplit(file[..c.offset], file[c.offset..e] + [NEWLINE]);
    KeptStep(Lines(file[..c.offset]), file[c.offset..e]);
  }

  lemma {:induction false} PassedAll(c: Cursor, done: seq<Bytes>, file: Bytes)
    requires Aligned(c, |done|, file) && LineEnd(file[c.offset..]) == None
    ensures Passed(file, c.offset) == Poisoned(file)
  {
    assert file == file[..c.offset] + file[c.offset..];
    LinesSplit(file[..c.offset], file[c.offset..]);
    assert Lines(file[..c.offset]) + [] == Lines(file[..c.offset]);
  }

  // ---------- the committed edge records ----------

  /** The record carries what the envelope said. */
  predicate Carries(r: Record, env: PublishEnvelope) {
    && r.source == EDGE && r.sequence == env.sequence
    && r.traceId == env.traceId && r.sessionId == env.sessionId && r.actorId == env.actorId
    && r.resource == env.resource && r.action == env.action && r.outcome == env.outcome && r.payload == env.payload
  }

  /** The committed edge records are the first convertible lines, in order, each
      once, numbered by rank. */
  predicate ExactlyOnce(edge: seq<Record>, wanted: seq<Bytes>) {
    |edge| <= |wanted| < TWO63 &&
    forall i :: 0 <= i < |edge| ==> CONVERT(wanted[i]).Some? && Carries(edge[i], Convert(wanted[i], i + 1).value)
  }

  lemma {:induction false} OnceStays(edge: seq<Record>, wanted: seq<Bytes>, wanted': seq<Bytes>)
    requires ExactlyOnce(edge, wanted) && wanted <= wanted' && |wanted'| < TWO63
    ensures ExactlyOnce(edge, wanted')
  {}

  lemma {:induction false} PrefixAfter<T>(a: seq<T>, b: seq<T>, c: seq<T>)
    requires b <= c
    ensures a + b <= a + c
  {}

  /** A torn tail waits; growth only adds lines. */
  lemma {:induction false} LinesGrow(a: Bytes, b: Bytes)
    ensures Lines(a) <= Lines(a + b)
    decreases |a|
  {
    hide Lines, LineEnd, Whole;
    if LineEnd(a).None? {
      NoLine(a);
    } else {
      FirstOfMore(a, b);
      var e := LineEnd(a).value;
      LinesGrow(a[e + 1..], b);
      PrefixAfter([a[..e]], Lines(a[e + 1..]), Lines(a[e + 1..] + b));
    }
  }

  lemma {:induction false} WantedGrows(file: Bytes, file': Bytes)
    requires file <= file'
    ensures Wanted(file) <= Wanted(file')
  {
    var more := file'[|file|..];
    assert file' == file + more;
    LinesGrow(file, more);
    assert Lines(file') == Lines(file) + Lines(file')[|Lines(file)|..];
    KeptGrows(Lines(file), Lines(file')[|Lines(file)|..]);
  }

  lemma {:induction false} LinesCount(s: Bytes)
    ensures |Lines(s)| <= |s|
    decreases |s|
  {
    var e := LineEnd(s);
    if e.Some? { LinesCount(s[e.value + 1..]); }
  }

  lemma {:induction false} WantedCount(file: Bytes)
    ensures |Wanted(file)| <= |file|
  {
    LinesCount(file);
    KeptConverts(Lines(file));
  }

  lemma {:induction false} ExpectedGrows(done: seq<Bytes>, file: Bytes, file': Bytes)
    requires file <= file'
    ensures Expected(done, file) <= Expected(done, file') && |Expected(done, file')| <= |done| + |file'|
  {
    WantedGrows(file, file');
    WantedCount(file');
  }

  // ---------- the store's side ----------

  function EdgeOf(log: seq<Record>): seq<Record> {
    BySource(log, EDGE)
  }

  lemma {:induction false} InEdge(log: seq<Record>, r: Record)
    ensures r in EdgeOf(log) <==> r in log && r.source == EDGE
  {
    if log != [] {
      InEdge(Init(log), r);
      assert log == Init(log) + [Last(log)];
    }
  }

  /** The edge sequences in the log are 1, 2, ... up to their count. */
  lemma {:induction false} EdgeKeys(log: seq<Record>, wanted: seq<Bytes>, q: U64)
    requires ExactlyOnce(EdgeOf(log), wanted)
    ensures (EDGE, q) in Keys(log) <==> 1 <= q <= |EdgeOf(log)|
  {
    var edge := EdgeOf(log);
    if (EDGE, q) in Keys(log) {
      var r :| r in log && Key(r) == (EDGE, q);
      InEdge(log, r);
      var i :| 0 <= i < |edge| && edge[i] == r;
    }
    if 1 <= q <= |edge| {
      InEdge(log, edge[q - 1]);
      assert Key(edge[q - 1]) == (EDGE, q);
    }
  }

  lemma {:induction false} EdgeTip(log: seq<Record>, wanted: seq<Bytes>)
    requires ExactlyOnce(EdgeOf(log), wanted)
    ensures EDGE in TipsOf(log) <==> EdgeOf(log) != []
    ensures EDGE in TipsOf(log) ==> TipsOf(log)[EDGE].sequence == |EdgeOf(log)|
  {
    AdvanceBySource(map[], log, EDGE);
  }

  /** The ingest server's answer (internal/ingest/server.go). */
  function Status(res: AdmitResult): nat {
    match res
    case Committed(_) => 200
    case Duplicate => 200
    case Regressed => 409
    case NotDurable => 503
  }

  lemma {:induction false} NextCarries(log: seq<Record>, wanted: seq<Bytes>, env: PublishEnvelope, stamp: I64)
    requires ExactlyOnce(EdgeOf(log), wanted) && |EdgeOf(log)| < |wanted|
    requires Convert(wanted[|EdgeOf(log)|], |EdgeOf(log)| + 1) == Some(env)
    ensures var log' := log + [NextRecord(log, EDGE, env, stamp)];
      ExactlyOnce(EdgeOf(log'), wanted) && |EdgeOf(log')| == |EdgeOf(log)| + 1
  {
    var r := NextRecord(log, EDGE, env, stamp);
    assert Init(log + [r]) == log && Last(log + [r]) == r;
    assert Carries(r, env);
  }

  lemma {:induction false} HotKeys(log: seq<Record>, offset: nat)
    requires offset <= |log|
    ensures Keys(log[offset..]) <= Keys(log)
  {}

  /** One publish of wanted line n, however often it was published before: it is
      committed at its rank if it is the next, refused or acknowledged without
      effect if it is not; and a replay is acknowledged exactly while its record
      is hot. */
  lemma {:induction false} PublishOnce(log: seq<Record>, offset: nat, wanted: seq<Bytes>, n: nat, stamp: I64,
        durable: bool)
    requires Linked(map[], log) && offset <= |log| && ExactlyOnce(EdgeOf(log), wanted)
    requires n <= |EdgeOf(log)| && n < |wanted| && CONVERT(wanted[n]).Some?
    ensures var res := Outcome(log, offset, EDGE, Convert(wanted[n], n + 1).value, stamp, durable);
        var edge, edge' := EdgeOf(log), EdgeOf(LogAfter(log, res));
      && ExactlyOnce(edge', wanted) && |edge| <= |edge'|
      && (Status(res) == 200 ==> n + 1 <= |edge'|)
      && (n < |edge| ==> LogAfter(log, res) == log && (Status(res) == 200 <==> (EDGE, n + 1) in Keys(log[offset..])))
      && (n == |edge| ==> |edge'| == (if durable then n + 1 else n) && (Status(res) == 200 <==> durable))
  {
    hide NextRecord, Linked;
    var env := Convert(wanted[n], n + 1).value;
    EdgeKeys(log, wanted, n + 1);
    EdgeTip(log, wanted);
    if n < |EdgeOf(log)| {
      KnownKeyRefused(log, offset, EDGE, env, stamp, durable);
    } else {
      HotKeys(log, offset);
      NextCarries(log, wanted, env, stamp);
    }
  }

  /** Whatever line it is published for, a sequence already committed commits
      nothing, and while its record is hot it is acknowledged all the same; the
      next sequence is committed whenever the log accepts it. */
  lemma {:induction false} ReusedSequence(
    log: seq<Record>, offset: nat, wanted: seq<Bytes>, env: PublishEnvelope, stamp: I64, durable: bool)
    requires Linked(map[], log) && offset <= |log| && ExactlyOnce(EdgeOf(log), wanted)
    requires 1 <= env.sequence <= |EdgeOf(log)| + 1
    ensures var res := Outcome(log, offset, EDGE, env, stamp, durable);
      && (LogAfter(log, res) == log <==> (env.sequence <= |EdgeOf(log)| || !durable))
      && (env.sequence <= |EdgeOf(log)| ==> (Status(res) == 200 <==> (EDGE, env.sequence) in Keys(log[offset..])))
  {
    hide NextRecord, Linked;
    EdgeKeys(log, wanted, env.sequence);
    EdgeTip(log, wanted);
    if env.sequence <= |EdgeOf(log)| {
      KnownKeyRefused(log, offset, EDGE, env, stamp, durable);
    } else {
      HotKeys(log, offset);
    }
  }

  /** The tailer stands behind a committed record that has left the hot tier. */
  predicate Stranded(log: seq<Record>, offset: nat, sequence: nat)
    requires offset <= |log|
  {
    sequence < |EdgeOf(log)| && (EDGE, sequence + 1) !in Keys(log[offset..])
  }

  lemma {:induction false} KeyAt(rs: seq<Record>, key: SourceSeq) returns (i: nat)
    requires key in Keys(rs)
    ensures i < |rs| && Key(rs[i]) == key
  {
    var r :| r in rs && Key(r) == key;
    i :| 0 <= i < |rs| && rs[i] == r;
  }

  /** Records leave the hot tier in order, so past a hot one it is not stranded. */
  lemma {:induction false} HotOnward(log: seq<Record>, offset: nat, wanted: seq<Bytes>, n: nat)
    requires Linked(map[], log) && offset <= |log| && ExactlyOnce(EdgeOf(log), wanted)
    requires n < |EdgeOf(log)| && !Stranded(log, offset, n)
    ensures !Stranded(log, offset, n + 1)
  {
    if n + 1 < |EdgeOf(log)| {
      EdgeKeys(log, wanted, n + 2);
      var i := KeyAt(log[offset..], (EDGE, n + 1));
      var j := KeyAt(log, (EDGE, n + 2));
      assert log[offset..][i] == log[offset + i];
      if j < offset + i { SequencesIncrease(log, j, offset + i); }
      assert log[offset..][j - offset] == log[j];
    }
  }

  lemma {:induction false} HotNext(log: seq<Record>, offset: nat, wanted: seq<Bytes>, n: nat)
    requires Linked(map[], log) && offset <= |log| && ExactlyOnce(EdgeOf(log), wanted)
    ensures n < |EdgeOf(log)| && !Stranded(log, offset, n) ==> !Stranded(log, offset, n + 1)
    ensures Stranded(log, offset, n) ==> n < |EdgeOf(log)|
  {
    if n < |EdgeOf(log)| && !Stranded(log, offset, n) { HotOnward(log, offset, wanted, n); }
  }

  lemma {:induction false} NotStranded(log: seq<Record>, offset: nat, n: nat)
    requires offset <= |log| && |EdgeOf(log)| <= n
    ensures !Stranded(log, offset, n)
  {}

  /** No record of this envelope is too long for the log. */
  ghost predicate Fits(env: PublishEnvelope) {
    forall log, stamp: I64 :: |RECORD_JSON.encode(NextRecord(log, EDGE, env, stamp))| <= Wal.MAX_RECORD
  }

  ghost predicate AllFit(wanted: seq<Bytes>) {
    forall n: nat :: n < |wanted| && n + 1 < TWO64 && Convert(wanted[n], n + 1).Some? ==>
      Fits(Convert(wanted[n], n + 1).value)
  }

  lemma {:induction false} LogLinked(s: Store)
    requires s.Valid()
    ensures Linked(map[], s.log) && s.globalOffset <= |s.log|
  {}

  lemma {:induction false} ConvertsTo(wanted: seq<Bytes>, n: nat, env: PublishEnvelope)
    requires n < |wanted| && n + 1 < TWO64 && Convert(wanted[n], n + 1) == Some(env)
    ensures CONVERT(wanted[n]).Some? && Convert(wanted[n], n + 1).value == env
  {}

  lemma {:induction false} NoMoreLines(c: Cursor, done: seq<Bytes>, file: Bytes)
    requires Aligned(c, |done|, file) && LineEnd(file[c.offset..]) == None
    ensures c.sequence == |Expected(done, file)|
  {
    assert file == file[..c.offset] + file[c.offset..];
    LinesSplit(file[..c.offset], file[c.offset..]);
    assert Lines(file[..c.offset]) + [] == Lines(file[..c.offset]);
  }

  lemma {:induction false} OnceBound(edge: seq<Record>, wanted: seq<Bytes>)
    requires ExactlyOnce(edge, wanted)
    ensures |edge| <= |wanted| < TWO63
  {}

  lemma {:induction false} SequenceFits(c: Cursor, done: seq<Bytes>, file: Bytes)
    requires Aligned(c, |done|, file) && |Expected(done, file)| < TWO63
    ensures c.offset <= |file| && c.sequence + 1 < TWO64
  {
    WantedPrefix(file, c.offset);
  }

  lemma {:induction false} WithinFile(c: Cursor, base: nat, file: Bytes)
    requires Aligned(c, base, file)
    ensures c.offset <= |file|
  {}

  lemma {:induction false} AlignedStands(c: Cursor, base: nat, file: Bytes)
    requires Aligned(c, base, file)
    ensures Stands(c, base, file)
  {}

  /** The start of a file is a line boundary. */
  lemma {:induction false} StartAligned(sequence: nat, file: Bytes)
    ensures Aligned(Cursor(0, sequence), sequence, file)
  {
    assert Lines(file[..0]) == [];
  }

  /** With nothing in flight, the records committed are the lines taken. */
  lemma {:induction false} OnceRestarts(edge: seq<Record>, wanted: seq<Bytes>, more: seq<Bytes>)
    requires ExactlyOnce(edge, wanted) && |edge| + |more| < TWO63
    ensures ExactlyOnce(edge, wanted[..|edge|] + more)
  {}

  lemma {:induction false} LogExtends(log: seq<Record>, res: AdmitResult)
    ensures log <= LogAfter(log, res)
  {}

  lemma {:induction false} OthersStay(log: seq<Record>, r: Record)
    requires r.source != EDGE
    ensures EdgeOf(log + [r]) == EdgeOf(log)
  {
    assert Init(log + [r]) == log && Last(log + [r]) == r;
  }

  // ---------- the tailer ----------

  /** What becomes of a request: it may not arrive (or be shaped), and an answer
      may not come back. */
  datatype Delivery = Answered | Unreached | AckLost

  datatype Stop = CaughtUp | NotDelivered | NotSaved

  /** What outlives a tailer: the cursor file; and how the world behaves. */
  class Outside {
    var cursor: Cursor
    var deliveries: seq<Delivery>
    var saves: seq<bool>

    function NextDelivery(): Delivery
      reads this`deliveries
    {
      if deliveries == [] then Answered else deliveries[0]
    }

    constructor (deliveries: seq<Delivery>, saves: seq<bool>)
      ensures cursor == Cursor(0, 0) && this.deliveries == deliveries && this.saves == saves
    {
      cursor, this.deliveries, this.saves := Cursor(0, 0), deliveries, saves;
    }

    /** No request and no answer is lost, and no save of the cursor fails. */
    ghost predicate Reliable()
      reads this`deliveries, this`saves
    {
      (forall d :: d in deliveries ==> d == Answered) && (forall ok :: ok in saves ==> ok)
    }

    /** What becomes of the next request. */
    method Deliver() returns (d: Delivery)
      modifies this`deliveries
      ensures d == old(NextDelivery()) && deliveries == old(if deliveries == [] then [] else deliveries[1..])
      ensures old(Reliable()) ==> d == Answered && Reliable()
    {
      d := NextDelivery();
      if deliveries != [] {
        assert deliveries[0] in deliveries && forall later :: later in deliveries[1..] ==> later in deliveries;
        deliveries := deliveries[1..];
      }
    }

    /** Whether the next save works. */
    method Save() returns (ok: bool)
      modifies this`saves
      ensures ok <==> old(saves) == [] || old(saves)[0]
      ensures saves == old(if saves == [] then [] else saves[1..])
      ensures old(Reliable()) ==> ok && Reliable()
    {
      ok := saves == [] || saves[0];
      if saves != [] {
        assert saves[0] in saves && forall later :: later in saves[1..] ==> later in saves;
        saves := saves[1..];
      }
    }
  }

  class Tailer {
    const store: Store
    const outside: Outside
    var cur: Cursor
    var skipped: nat

    /** Both cursors stand on line boundaries of the log, neither ahead of what
        is committed, and what is committed is the lines taken from earlier logs
        and the first convertible ones of this, each once. */
    ghost predicate Valid(done: seq<Bytes>, file: Bytes)
      reads `cur, outside`cursor, store, store.acc, store.wal, store.wal.disk`hot
    {
      && store.Valid() && Coherent(store.log, done, file)
    }

    ghost predicate Coherent(log: seq<Record>, done: seq<Bytes>, file: Bytes)
      reads `cur, outside`cursor
    {
      && ExactlyOnce(EdgeOf(log), Expected(done, file))
      && Stands(cur, |done|, file) && cur.sequence <= |EdgeOf(log)|
      && Stands(outside.cursor, |done|, file) && outside.cursor.sequence <= |EdgeOf(log)|
    }

    /** NewTailer: an absent cursor is genesis. */
    constructor (store: Store, outside: Outside, ghost done: seq<Bytes>, ghost file: Bytes)
      requires store.Valid() && ExactlyOnce(EdgeOf(store.log), Expected(done, file))
      requires Stands(outside.cursor, |done|, file) && outside.cursor.sequence <= |EdgeOf(store.log)|
      ensures Valid(done, file) && this.store == store && this.outside == outside
      ensures cur == outside.cursor && skipped == 0
    {
      this.store, this.outside, cur, skipped := store, outside, outside.cursor, 0;
    }

    /** persist. */
    method Persist() returns (ok: bool)
      modifies outside`cursor, outside`saves
      ensures ok <==> old(outside.saves) == [] || old(outside.saves)[0]
      ensures outside.cursor == if ok then cur else old(outside.cursor)
      ensures old(outside.Reliable()) ==> ok && outside.Reliable()
    {
      ok := outside.Save();
      if ok { outside.cursor := cur; }
    }

    /** The log would commit this line's record now, at whatever time. */
    ghost predicate Accepting(env: PublishEnvelope)
      reads store`log, store.wal`closed, store.wal`stuck, store.wal.disk`fates
    {
      forall stamp: I64 :: store.wal.Accepts(RECORD_JSON.encode(NextRecord(store.log, EDGE, env, stamp)))
    }

    /** The log takes whatever is appended. */
    ghost predicate LogWorks()
      reads store.wal`closed, store.wal`stuck, store.wal.disk`fates
    {
      store.wal.Live() && AllWork(store.wal.disk.fates)
    }

    ghost predicate Behind()
      requires store.Valid()
      reads `cur, store, store.acc, store.wal, store.wal.disk`hot
    {
      Stranded(store.log, store.globalOffset, cur.sequence)
    }

    /** The ingest server's handler, at whatever time the request arrives. */
    method Receive(n: nat, ghost done: seq<Bytes>, ghost file: Bytes, env: PublishEnvelope) returns (status: nat)
      requires Valid(done, file) && n == cur.sequence < |Expected(done, file)|
      requires Convert(Expected(done, file)[n], n + 1) == Some(env)
      modifies store, store.acc, store.wal`stuck, store.wal.disk`hot, store.wal.disk`fates
      ensures Valid(done, file) && old(store.log) <= store.log
      ensures status == 200 ==> n + 1 <= |EdgeOf(store.log)|
      ensures n < old(|EdgeOf(store.log)|) ==> EdgeOf(store.log) == old(EdgeOf(store.log))
      ensures n == old(|EdgeOf(store.log)|) ==> (status == 200 <==> n < |EdgeOf(store.log)|)
      ensures n == old(|EdgeOf(store.log)|) && old(Accepting(env)) ==> status == 200
      ensures n < old(|EdgeOf(store.log)|) ==> store.log == old(store.log) && (status == 200 <==> !old(Behind()))
      ensures old(LogWorks()) && Fits(env) ==> LogWorks() && (n == old(|EdgeOf(store.log)|) ==> status == 200)
      ensures n == old(|EdgeOf(store.log)|) ==> |EdgeOf(store.log)| <= n + 1
    {
      hide Tracks, Linked, ExactlyOnce, Aligned, Wanted, LeavesOf, EdgeOf, Outcome, LogAfter, NextRecord, Working;
      hide AllWork, FatesFrom;
      LeftIsFrom(store.wal.disk.fates, 1);
      LeftIsFrom(store.wal.disk.fates, 2);
      ghost var script := store.wal.disk.fates;
      var now: I64 := *;
      ghost var log, floor := store.log, store.ingestFloor;
      LogLinked(store);
      ghost var stamp := Stamp(floor, now);
      ghost var durable := store.wal.Accepts(RECORD_JSON.encode(NextRecord(log, EDGE, env, stamp)));
      ConvertsTo(Expected(done, file), n, env);
      PublishOnce(log, store.globalOffset, Expected(done, file), n, stamp, durable);
      LogExtends(log, Outcome(log, store.globalOffset, EDGE, env, stamp, durable));
      var res := store.Admit(EDGE, env, now);
      AllWorkFrom(script, store.wal.disk.fates);
      return Status(res);
    }

    /** A publish over the channel. */
    method Publish(n: nat, ghost done: seq<Bytes>, ghost file: Bytes, env: PublishEnvelope) returns (ok: bool)
      requires Valid(done, file) && n == cur.sequence < |Expected(done, file)|
      requires Convert(Expected(done, file)[n], n + 1) == Some(env)
      modifies store, store.acc, store.wal`stuck, store.wal.disk`hot, store.wal.disk`fates, outside`deliveries
      ensures Valid(done, file) && old(store.log) <= store.log
      ensures ok ==> n + 1 <= |EdgeOf(store.log)|
      ensures n < old(|EdgeOf(store.log)|) ==> EdgeOf(store.log) == old(EdgeOf(store.log))
      ensures n == old(|EdgeOf(store.log)|) && old(Accepting(env)) ==>
                match old(outside.NextDelivery())
                case Answered => ok
                case Unreached => !ok && store.log == old(store.log)
                case AckLost => !ok && cur.sequence < |EdgeOf(store.log)|
      ensures old(LogWorks() && outside.Reliable()) && Fits(env) ==>
                && LogWorks() && outside.Reliable() && (ok <==> !old(Behind())) && (!ok ==> store.log == old(store.log))
                && (ok ==> !Stranded(store.log, store.globalOffset, n + 1))
    {
      hide Tracks, Linked, ExactlyOnce, Aligned, Wanted, LeavesOf, EdgeOf, Accepting, Stranded, LogWorks, Fits;
      LogLinked(store);
      ghost var behind, log := Behind(), store.log;
      HotNext(log, store.globalOffset, Expected(done, file), n);
      var d := outside.Deliver();
      if d == Unreached { return false; }
      var status := Receive(n, done, file, env);
      if |EdgeOf(store.log)| <= n + 1 { NotStranded(store.log, store.globalOffset, n + 1); }
      return status == 200 && d != AckLost;
    }

    /** Meanwhile other sources are admitted. */
    method OthersAdmit(source: Text, env: PublishEnvelope, now: I64, ghost done: seq<Bytes>, ghost file: Bytes)
      returns (res: AdmitResult)
      requires Valid(done, file) && source != EDGE
      modifies store, store.acc, store.wal`stuck, store.wal.disk`hot, store.wal.disk`fates
      ensures Valid(done, file)
    {
      hide ExactlyOnce, Aligned, Wanted, EdgeOf, Tracks, LeavesOf;
      ghost var log := store.log;
      res := store.Admit(source, env, now);
      if res.Committed? { OthersStay(log, res.rec); }
    }

    /** And the writer appends to its log. */
    lemma FileGrows(done: seq<Bytes>, file: Bytes, file': Bytes)
      requires Valid(done, file) && file <= file' && |done| + |file'| < TWO63
      requires forall c :: c in {cur, outside.cursor} && |file| < c.offset ==> |file'| < c.offset
      ensures Valid(done, file')
    {
      ExpectedGrows(done, file, file');
      OnceStays(EdgeOf(store.log), Expected(done, file), Expected(done, file'));
      StandsStill(cur, |done|, file, file');
      StandsStill(outside.cursor, |done|, file, file');
    }

    /** Or starts a shorter one, while no publish and no save is outstanding:
        what was taken stays taken. */
    lemma FileRotates(done: seq<Bytes>, file: Bytes, file': Bytes)
      requires Valid(done, file) && cur.sequence == outside.cursor.sequence == |EdgeOf(store.log)|
      requires |file'| < cur.offset && |file'| < outside.cursor.offset && cur.sequence + |file'| < TWO63
      ensures |Expected(done, file)| >= cur.sequence && Valid(Expected(done, file)[..cur.sequence], file')
    {
      OnceBound(EdgeOf(store.log), Expected(done, file));
      WantedCount(file');
      OnceRestarts(EdgeOf(store.log), Expected(done, file), Wanted(file'));
    }

    /** A cursor past the end of the file goes back to its start. */
    method Rewind(ghost done: seq<Bytes>, file: Bytes)
      requires Valid(done, file)
      modifies `cur, outside`cursor, outside`saves
      ensures Valid(done, file) && Aligned(cur, |done|, file)
      ensures cur == Cursor(if |file| < old(cur.offset) then 0 else old(cur.offset), old(cur.sequence))
      ensures old(outside.Reliable()) ==> outside.Reliable()
    {
      hide ExactlyOnce, Aligned, Expected, EdgeOf, LeavesOf, Linked, Tracks;
      if |file| < cur.offset {
        cur := Cursor(0, cur.sequence);
        StartAligned(cur.sequence, file);
        var ignored := Persist();
      }
    }

    /** A line that does not convert is skipped and counted. */
    method Skip(end: nat, ghost done: seq<Bytes>, file: Bytes)
      requires Valid(done, file) && Aligned(Cursor(end + 1, cur.sequence), |done|, file)
      modifies this`cur, this`skipped, outside`cursor, outside`saves
      ensures Valid(done, file) && cur == Cursor(end + 1, old(cur.sequence)) && skipped == old(skipped) + 1
      ensures old(outside.Reliable()) ==> outside.Reliable()
    {
      hide ExactlyOnce, Aligned, Stands, Expected, LeavesOf, Linked, Tracks;
      skipped := skipped + 1;
      cur := Cursor(end + 1, cur.sequence);
      AlignedStands(cur, |done|, file);
      var ignored := Persist();
    }

    /** A line that converts is published, and then the cursor moves past it. */
    method Take(end: nat, ghost done: seq<Bytes>, file: Bytes, env: PublishEnvelope) returns (stop: Option<Stop>)
      requires Valid(done, file) && Aligned(Cursor(end + 1, cur.sequence + 1), |done|, file)
      requires cur.sequence < |Expected(done, file)| && cur.sequence + 1 < TWO64
      requires Convert(Expected(done, file)[cur.sequence], cur.sequence + 1) == Some(env)
      modifies this`cur, outside, store, store.acc, store.wal`stuck, store.wal.disk`hot, store.wal.disk`fates
      ensures Valid(done, file) && old(store.log) <= store.log && stop != Some(CaughtUp)
      ensures cur == if stop == Some(NotDelivered) then old(cur) else Cursor(end + 1, old(cur.sequence) + 1)
      ensures old(LogWorks() && outside.Reliable()) && Fits(env) ==>
                && LogWorks() && outside.Reliable() && stop == (if old(Behind()) then Some(NotDelivered) else None)
                && (Behind() <==> old(Behind())) && (old(Behind()) ==> store.log == old(store.log))
    {
      hide ExactlyOnce, Aligned, Stands, Expected, LeavesOf, Linked, Tracks, LogWorks, Fits, Stranded, EdgeOf;
      var ok := Publish(cur.sequence, done, file, env);
      if !ok { return Some(NotDelivered); }
      cur := Cursor(end + 1, cur.sequence + 1);
      AlignedStands(cur, |done|, file);
      ok := Persist();
      return if ok then None else Some(NotSaved);
    }

    /** One line of the run: published, or poisoned and then skipped. */
    method NextLine(ghost done: seq<Bytes>, file: Bytes) returns (stop: Option<Stop>)
      requires Valid(done, file) && Aligned(cur, |done|, file)
      modifies this`cur, this`skipped, outside
      modifies store, store.acc, store.wal`stuck, store.wal.disk`hot, store.wal.disk`fates
      ensures Valid(done, file) && Aligned(cur, |done|, file) && old(store.log) <= store.log
      ensures stop == None ==> old(cur.offset) < cur.offset
      ensures stop == Some(CaughtUp) ==> |EdgeOf(store.log)| == |Expected(done, file)|
      ensures stop == Some(CaughtUp) ==> Passed(file, cur.offset) == Poisoned(file) && !Behind()
      ensures skipped + Passed(file, old(cur.offset)) == old(skipped) + Passed(file, cur.offset)
      ensures old(LogWorks() && outside.Reliable()) && AllFit(Expected(done, file)) ==>
                && LogWorks() && outside.Reliable() && stop != Some(NotSaved)
                && (stop == Some(NotDelivered) ==> old(Behind()))
                && (Behind() <==> old(Behind())) && (old(Behind()) ==> store.log == old(store.log))
    {
      hide ExactlyOnce, Aligned, Stands, LineEnd, Wanted, Expected, LeavesOf, Linked, Tracks;
      hide LogWorks, Fits, Stranded, Poisoned, Passed;
      OnceBound(EdgeOf(store.log), Expected(done, file));
      SequenceFits(cur, done, file);
      var e := LineEnd(file[cur.offset..]);
      if e.None? {
        NoMoreLines(cur, done, file);
        PassedAll(cur, done, file);
        LogLinked(store);
        NotStranded(store.log, store.globalOffset, cur.sequence);
        return Some(CaughtUp);
      }
      var end := cur.offset + e.value;
      var line := file[cur.offset..end];
      LineStep(cur, done, file, end);
      PassedStep(cur, done, file, end);
      var env := Convert(line, cur.sequence + 1);
      if env.None? {
        Skip(end, done, file);
        return None;
      }
      stop := Take(end, done, file, env.value);
    }

    /** RunOnce over the log as it is now: complete lines from the cursor on, in
        order.  When nothing fails it catches up, whatever lines it has to skip,
        if and only if the cursor is not behind a record that has left the hot
        tier; and then nothing is ever committed. */
    method RunOnce(ghost done: seq<Bytes>, file: Bytes) returns (stop: Stop)
      requires Valid(done, file)
      modifies this`cur, this`skipped, outside
      modifies store, store.acc, store.wal`stuck, store.wal.disk`hot, store.wal.disk`fates
      ensures Valid(done, file) && old(store.log) <= store.log
      ensures stop == CaughtUp ==> |EdgeOf(store.log)| == |Expected(done, file)|
      ensures stop == CaughtUp ==> Passed(file, cur.offset) == Poisoned(file)
      ensures var from := if |file| < old(cur.offset) then 0 else old(cur.offset);
        skipped + Passed(file, from) == old(skipped) + Passed(file, cur.offset)
      ensures old(LogWorks() && outside.Reliable()) && AllFit(Expected(done, file)) ==>
                && LogWorks() && outside.Reliable()
                && (if old(Behind()) then stop == NotDelivered && Behind() && store.log == old(store.log)
                    else stop == CaughtUp)
    {
      hide Coherent, Aligned, Expected, EdgeOf, Stranded, Poisoned, Passed, LogWorks, AllFit, Linked, Tracks, LeavesOf;
      Rewind(done, file);
      ghost var from := cur.offset;
      ghost var works := LogWorks() && outside.Reliable() && AllFit(Expected(done, file));
      while true
        invariant Valid(done, file) && Aligned(cur, |done|, file)
        invariant old(store.log) <= store.log
        invariant skipped + Passed(file, from) == old(skipped) + Passed(file, cur.offset)
        invariant works ==>
          && LogWorks() && outside.Reliable() && (Behind() <==> old(Behind()))
          && (old(Behind()) ==> store.log == old(store.log))
        decreases |file| - cur.offset
      {
        WithinFile(cur, |done|, file);
        var next := NextLine(done, file);
        WithinFile(cur, |done|, file);
        if next.Some? { return next.value; }
      }
    }
  }

  /** A line refused with its record in the log all the same is the next one
      committed, once the daemon has restarted. */
  lemma {:induction false} InDoubtCounts(log: seq<Record>, wanted: seq<Bytes>, n: nat, env: PublishEnvelope, stamp: I64)
    requires ExactlyOnce(EdgeOf(log), wanted) && n == |EdgeOf(log)| < |wanted| && Convert(wanted[n], n + 1) == Some(env)
    ensures ExactlyOnce(EdgeOf(log + [NextRecord(log, EDGE, env, stamp)]), wanted)
    ensures EdgeOf(log) <= EdgeOf(log + [NextRecord(log, EDGE, env, stamp)])
  {
    NextCarries(log, wanted, env, stamp);
  }

  /** A record the log may have gained without the tailer knowing: of another
      source, or of the next line expected, committed or in doubt. */
  predicate MayFollow(log: seq<Record>, r: Record, wanted: seq<Bytes>) {
    r.source != EDGE ||
    var n := |EdgeOf(log)|;
    && n < |wanted| && n + 1 < TWO64 && Convert(wanted[n], n + 1).Some?
    && r == NextRecord(log, EDGE, Convert(wanted[n], n + 1).value, r.ingestTime)
  }

  /** The log was longer when the daemon came back, by any number of those. */
  predicate Gained(log: seq<Record>, log': seq<Record>, wanted: seq<Bytes>)
    decreases |log'|
  {
    log' == log
    || (|log| < |log'| && Gained(log, Init(log'), wanted) && MayFollow(Init(log'), Last(log'), wanted))
  }

  lemma {:induction false} GainedOnce(log: seq<Record>, log': seq<Record>, wanted: seq<Bytes>)
    requires ExactlyOnce(EdgeOf(log), wanted) && Gained(log, log', wanted)
    ensures ExactlyOnce(EdgeOf(log'), wanted) && |EdgeOf(log)| <= |EdgeOf(log')|
    decreases |log'|
  {
    hide ExactlyOnce, NextRecord;
    if log' != log {
      var before, r := Init(log'), Last(log');
      GainedOnce(log, before, wanted);
      assert log' == before + [r];
      if r.source != EDGE {
        OthersStay(before, r);
      } else {
        var n := |EdgeOf(before)|;
        InDoubtCounts(before, wanted, n, Convert(wanted[n], n + 1).value, r.ingestTime);
      }
    }
  }

  /** The tailer dies, the daemon too; both come back from what is durable, which
      may be more than the store had. */
  method Restart(t: Tailer, rebooted: Store, ghost done: seq<Bytes>, ghost file: Bytes) returns (u: Tailer)
    requires t.Valid(done, file) && rebooted.Valid()
    requires Gained(t.store.log, rebooted.log, Expected(done, file))
    ensures u.Valid(done, file) && u.outside == t.outside && u.cur == t.outside.cursor
  {
    hide Expected, Stands;
    GainedOnce(t.store.log, rebooted.log, Expected(done, file));
    u := new Tailer(rebooted, t.outside, done, file);
  }
}
