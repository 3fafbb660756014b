// Rebuilding commit order from the files of the two tiers
// (internal/store/replay.go).

module Replay {
  import opened Bytes
  import opened Ocsf
  import opened Chain
  import opened Segments
  import Wal

  /** A directory: file names and contents. */
  type Dir = map<Bytes, Bytes>

  const ACTIVE: Bytes := Ascii("audit.wal")

  // ---------- one file ----------

  predicate Storable(r: Record) {
    |RECORD_JSON.encode(r)| <= Wal.MAX_RECORD
  }

  function Encode(r: Record): Wal.Payload
    requires Storable(r)
  {
    RECORD_JSON.encode(r)
  }

  predicate AllStorable(rs: seq<Record>) {
    forall r :: r in rs ==> Storable(r)
  }

  function Payloads(rs: seq<Record>): (ps: seq<Wal.Payload>)
    requires AllStorable(rs)
    ensures |ps| == |rs|
  {
    if rs == [] then [] else Payloads(Init(rs)) + [Encode(Last(rs))]
  }

  /** The bytes of a log file that holds exactly rs. */
  function FileOf(rs: seq<Record>): Bytes
    requires AllStorable(rs)
  {
    Wal.Frames(Payloads(rs))
  }

  function DecodeAll(ps: seq<Wal.Payload>): Option<seq<Record>> {
    if ps == [] then Some([])
    else
      var rs :- DecodeAll(Init(ps));
      var r :- RECORD_JSON.decode(Last(ps));
      Some(rs + [r])
  }

  function ReadRaw(file: Bytes): Option<seq<Record>> {
    var parsed := Wal.Parse(file);
    if parsed.Intact? then DecodeAll(parsed.frames) else None
  }

  lemma {:induction false} DecodeInverts(rs: seq<Record>)
    requires AllStorable(rs)
    ensures DecodeAll(Payloads(rs)) == Some(rs)
  {
    if rs != [] {
      DecodeInverts(Init(rs));
      var ps := Payloads(rs);
      assert Init(ps) == Payloads(Init(rs)) && Last(ps) == Encode(Last(rs));
      assert RECORD_JSON.decode(RECORD_JSON.encode(Last(rs))) == Some(Last(rs));
      assert rs == Init(rs) + [Last(rs)];
    }
  }

  lemma {:induction false} PayloadsPrefix(rs: seq<Record>, k: nat)
    requires k <= |rs| && AllStorable(rs)
    ensures Payloads(rs[..k]) == Payloads(rs)[..k]
  {
    if k < |rs| {
      PayloadsPrefix(Init(rs), k);
      assert Init(rs)[..k] == rs[..k];
    } else {
      assert rs[..k] == rs;
    }
  }

  /** A written log reads back as its records. */
  lemma {:induction false} FileRoundTrip(rs: seq<Record>)
    requires AllStorable(rs)
    ensures ReadRaw(FileOf(rs)) == Some(rs)
  {
    Wal.RoundTrip(Payloads(rs));
    DecodeInverts(rs);
  }

  /** A log cut at any byte reads as a prefix of its records: those whose
      frames lie wholly before the cut. */
  lemma {:induction false} TornFileReads(rs: seq<Record>, k: nat)
    requires AllStorable(rs) && k <= |FileOf(rs)|
    ensures ReadRaw(FileOf(rs)[..k]) == Some(rs[..Wal.WholeFrames(Payloads(rs), k)])
  {
    var c := Wal.WholeFrames(Payloads(rs), k);
    Wal.TornTail(Payloads(rs), k);
    PayloadsPrefix(rs, c);
    DecodeInverts(rs[..c]);
  }

  /** Appending one frame appends one record. */
  lemma {:induction false} FileAppend(rs: seq<Record>, r: Record)
    requires AllStorable(rs) && Storable(r)
    ensures AllStorable(rs + [r])
    ensures FileOf(rs + [r]) == FileOf(rs) + Wal.Frame(Encode(r))
  {
    var f: seq<Wal.Payload> := [Encode(r)];
    assert Init(rs + [r]) == rs;
    Wal.FramesAppend(Payloads(rs), f);
    assert Wal.Frames(f) == Wal.Frame(f[0]) + Wal.Frames(f[1..]);
  }

  lemma {:induction false} DecodeFails(ps: seq<Wal.Payload>, k: nat)
    requires k <= |ps| && DecodeAll(ps[..k]) == None
    ensures DecodeAll(ps) == None
  {
    if k < |ps| {
      assert Init(ps)[..k] == ps[..k];
      DecodeFails(Init(ps), k);
    } else {
      assert ps[..k] == ps;
    }
  }

  /** ReadRawRecords. */
  method ReadRawRecords(file: Bytes) returns (r: Option<seq<Record>>)
    ensures r == ReadRaw(file)
  {
    var parsed := Wal.ReadAll(file);
    if parsed.Corrupt? { return None; }
    var frames := parsed.frames;
    var out: seq<Record> := [];
    for i := 0 to |frames|
      invariant DecodeAll(frames[..i]) == Some(out)
    {
      assert Init(frames[..i + 1]) == frames[..i] && Last(frames[..i + 1]) == frames[i];
      var rec := RECORD_JSON.decode(frames[i]);
      if rec.None? {
        DecodeFails(frames, i + 1);
        return None;
      }
      out := out + [rec.value];
    }
    assert frames[..|frames|] == frames;
    return Some(out);
  }

  // ---------- a tier ----------

  datatype Read = Records(rs: seq<Record>) | NoLog | Unreadable

  ghost function Listing(dir: set<Bytes>): Option<seq<Bytes>> {
    if Unambiguous(dir) && exists names :: IsListing(dir, names)
    then var names :| IsListing(dir, names); Some(names)
    else None
  }

  lemma {:induction false} ListingIs(dir: set<Bytes>, names: seq<Bytes>)
    requires Unambiguous(dir) && IsListing(dir, names)
    ensures Listing(dir) == Some(names)
  {
    OrderedUnique(Listing(dir).value, names);
  }

  /** The records of the named files, in that order. */
  ghost function ReadFiles(dir: Dir, names: seq<Bytes>): Option<seq<Record>>
    requires forall n :: n in names ==> n in dir
  {
    if names == [] then Some([])
    else
      var before :- ReadFiles(dir, Init(names));
      var rs :- ReadRaw(dir[Last(names)]);
      Some(before + rs)
  }

  /** readHotRecordsExcluding: sealed segments in index order less the excluded
      ones, then the active file. */
  ghost function HotUnion(dir: Dir, exclude: set<Bytes>): Read {
    var listing := Listing(dir.Keys);
    if listing.None? then Unreadable
    else
      WithoutOrdered(listing.value, exclude);
      var sealed := ReadFiles(dir, Without(listing.value, exclude));
      if sealed.None? then Unreadable
      else if ACTIVE !in dir then (if listing.value == [] then NoLog else Records(sealed.value))
      else
        var active := ReadRaw(dir[ACTIVE]);
        if active.None? then Unreadable else Records(sealed.value + active.value)
  }

  lemma {:induction false} ReadFilesFails(dir: Dir, names: seq<Bytes>, k: nat)
    requires k <= |names| && forall n :: n in names ==> n in dir
    requires ReadFiles(dir, names[..k]) == None
    ensures ReadFiles(dir, names) == None
  {
    if k < |names| {
      assert Init(names)[..k] == names[..k];
      ReadFilesFails(dir, Init(names), k);
    } else {
      assert names[..k] == names;
    }
  }

  method ReadSegments(dir: Dir, names: seq<Bytes>) returns (r: Option<seq<Record>>)
    requires forall n :: n in names ==> n in dir
    ensures r == ReadFiles(dir, names)
  {
    var out: seq<Record> := [];
    for i := 0 to |names|
      invariant ReadFiles(dir, names[..i]) == Some(out)
    {
      assert Init(names[..i + 1]) == names[..i] && Last(names[..i + 1]) == names[i];
      var recs := ReadRawRecords(dir[names[i]]);
      if recs.None? {
        ReadFilesFails(dir, names, i + 1);
        return None;
      }
      out := out + recs.value;
    }
    assert names[..|names|] == names;
    return Some(out);
  }

  method ReadHotExcluding(dir: Dir, exclude: set<Bytes>) returns (r: Read)
    ensures r == HotUnion(dir, exclude)
  {
    var segs := ListSegments(dir.Keys);
    if segs.None? { return Unreadable; }
    ListingIs(dir.Keys, segs.value);
    WithoutOrdered(segs.value, exclude);
    var out := ReadSegments(dir, Without(segs.value, exclude));
    if out.None? { return Unreadable; }
    if ACTIVE !in dir {
      return if segs.value == [] then NoLog else Records(out.value);
    }
    var recs := ReadRawRecords(dir[ACTIVE]);
    if recs.None? { return Unreadable; }
    return Records(out.value + recs.value);
  }

  /** A hot leftover of a cold segment is byte for byte its cold copy. */
  predicate LeftoversMatch(cold: Dir, hot: Dir, names: seq<Bytes>)
    requires forall n :: n in names ==> n in cold
  {
    forall j :: 0 <= j < |names| && names[j] in hot ==> hot[names[j]] == cold[names[j]]
  }

  /** The offline verifier's view: cold segments, then the hot union without
      the segments cold already holds; a differing leftover is refused. */
  ghost function Union(cold: Dir, hot: Dir): Read {
    var listing := Listing(cold.Keys);
    if listing.None? then Unreadable
    else
      var names := listing.value;
      var past := ReadFiles(cold, names);
      if past.None? || !LeftoversMatch(cold, hot, names) then Unreadable
      else
        var rest := HotUnion(hot, set n | n in names);
        if rest.Records? then Records(past.value + rest.rs) else rest
  }

  /** The cold half of ReadUnion: read each segment, compare its leftover. */
  method ReadCold(cold: Dir, hot: Dir, names: seq<Bytes>) returns (r: Option<seq<Record>>)
    requires forall n :: n in names ==> n in cold
    ensures r == if LeftoversMatch(cold, hot, names) then ReadFiles(cold, names) else None
  {
    var out: seq<Record> := [];
    for i := 0 to |names|
      invariant ReadFiles(cold, names[..i]) == Some(out)
      invariant LeftoversMatch(cold, hot, names[..i])
    {
      assert Init(names[..i + 1]) == names[..i] && Last(names[..i + 1]) == names[i];
      var recs := ReadRawRecords(cold[names[i]]);
      if recs.None? {
        ReadFilesFails(cold, names, i + 1);
        return None;
      }
      out := out + recs.value;
      if names[i] in hot && hot[names[i]] != cold[names[i]] { return None; }
    }
    assert names[..|names|] == names;
    return Some(out);
  }

  /** ReadUnion. */
  method ReadUnion(cold: Dir, hot: Dir) returns (r: Read)
    ensures r == Union(cold, hot)
  {
    var segs := ListSegments(cold.Keys);
    if segs.None? { return Unreadable; }
    var names := segs.value;
    ListingIs(cold.Keys, names);
    var past := ReadCold(cold, hot, names);
    if past.None? { return Unreadable; }
    var rest := ReadHotExcluding(hot, set n | n in names);
    return if rest.Records? then Records(past.value + rest.rs) else rest;
  }

  // ---------- the layout the store and the manager keep ----------

  function Flatten(segs: seq<seq<Record>>): seq<Record> {
    if segs == [] then [] else Flatten(Init(segs)) + Last(segs)
  }

  /** The file of sealed segment i holds exactly that segment's records. */
  predicate Holds(dir: Dir, segs: seq<seq<Record>>, i: nat)
    requires i < |segs|
  {
    AllStorable(segs[i]) && FileName(i) in dir && dir[FileName(i)] == FileOf(segs[i])
  }

  predicate HoldsRange(dir: Dir, segs: seq<seq<Record>>, a: nat, b: nat)
    requires b <= |segs|
  {
    forall i :: a <= i < b ==> Holds(dir, segs, i)
  }

  /** Nothing in the directory is named like a segment but the first n. */
  ghost predicate OnlySegments(dir: Dir, n: nat) {
    forall name :: name in dir && IsSegmentName(name) ==> exists i: nat :: i < n && name == FileName(i)
  }

  lemma {:induction false} OnlySegmentsUnambiguous(dir: Dir, n: nat)
    requires OnlySegments(dir, n) && n < TWO64
    ensures Unambiguous(dir.Keys)
  {
    forall i: nat ensures SegmentIndex(FileName(i)) == i + 1 { FileNameIndex(i); }
  }

  lemma {:induction false} NameRangeStep(a: nat, b: nat)
    requires a < b
    ensures Init(NameRange(a, b)) == NameRange(a, b - 1) && Last(NameRange(a, b)) == FileName(b - 1)
    ensures NameRange(a, b) == NameRange(a, b - 1) + [FileName(b - 1)]
  {
    assert FileName(a + (b - 1 - a)) == FileName(b - 1);
  }

  lemma {:induction false} FlattenStep(segs: seq<seq<Record>>, a: nat, b: nat)
    requires a < b <= |segs|
    ensures Flatten(segs[a..b]) == Flatten(segs[a..b - 1]) + segs[b - 1]
  {
    assert Init(segs[a..b]) == segs[a..b - 1];
  }

  lemma {:induction false} ReadRange(dir: Dir, segs: seq<seq<Record>>, a: nat, b: nat)
    requires a <= b <= |segs| && HoldsRange(dir, segs, a, b)
    ensures forall n :: n in NameRange(a, b) ==> n in dir
    ensures ReadFiles(dir, NameRange(a, b)) == Some(Flatten(segs[a..b]))
  {
    if a < b {
      ReadRange(dir, segs, a, b - 1);
      assert Holds(dir, segs, b - 1);
      FileRoundTrip(segs[b - 1]);
      NameRangeStep(a, b);
      FlattenStep(segs, a, b);
    }
  }

  ghost function NamesBelow(k: nat): set<Bytes> {
    set i: nat | i < k :: FileName(i)
  }

  lemma {:induction false} RemainingName(dir: Dir, segs: seq<seq<Record>>, k: nat, name: Bytes)
    requires k <= |segs| && OnlySegments(dir, |segs|) && HoldsRange(dir, segs, k, |segs|)
    ensures (name in dir && IsSegmentName(name) && name !in NamesBelow(k)) <==> name in NameRange(k, |segs|)
  {
    var n := |segs|;
    InNameRange(k, n, name);
    if i: nat :| k <= i < n && name == FileName(i) {
      assert Holds(dir, segs, i);
      FileNameIndex(i);
      if name in NamesBelow(k) {
        var j: nat :| j < k && name == FileName(j);
        NamesDistinct(i, j);
      }
    }
  }

  /** Leaving out the excluded leftovers, the segments from k on are listed. */
  lemma {:induction false} RemainingListing(dir: Dir, segs: seq<seq<Record>>, k: nat, names: seq<Bytes>)
    requires k <= |segs| && OnlySegments(dir, |segs|) && IsListing(dir.Keys, names)
    requires HoldsRange(dir, segs, k, |segs|)
    ensures Without(names, NamesBelow(k)) == NameRange(k, |segs|)
  {
    var n := |segs|;
    WithoutOrdered(names, NamesBelow(k));
    NameRangeOrdered(k, n);
    forall name: Bytes ensures name in Without(names, NamesBelow(k)) <==> name in NameRange(k, n) {
      RemainingName(dir, segs, k, name);
    }
    OrderedUnique(Without(names, NamesBelow(k)), NameRange(k, n));
  }

  /** Every directory has a listing. */
  lemma {:induction false} ListingExists(dir: set<Bytes>, left: set<Bytes>) returns (names: seq<Bytes>)
    requires Unambiguous(dir) && left <= dir
    ensures IsListing(left, names)
    decreases left
  {
    names := [];
    if left != {} {
      var n :| n in left;
      names := ListingExists(dir, left - {n});
      if IsSegmentName(n) {
        InsertKeepsOrder(names, n);
        names := InsertByIndex(names, n);
      }
    }
  }

  lemma {:induction false} ListingOf(dir: Dir, segs: seq<seq<Record>>, k: nat)
    requires k <= |segs| < TWO64 && OnlySegments(dir, |segs|) && HoldsRange(dir, segs, k, |segs|)
    ensures Listing(dir.Keys).Some? && Without(Listing(dir.Keys).value, NamesBelow(k)) == NameRange(k, |segs|)
  {
    OnlySegmentsUnambiguous(dir, |segs|);
    var names := ListingExists(dir.Keys, dir.Keys);
    ListingIs(dir.Keys, names);
    RemainingListing(dir, segs, k, names);
  }

  /** A log file of these records, and perhaps a torn frame. */
  ghost predicate LogFile(file: Bytes, rs: seq<Record>)
    requires AllStorable(rs)
  {
    FileOf(rs) <= file && Wal.Torn(file[|FileOf(rs)|..])
  }

  lemma {:induction false} LogFileReads(file: Bytes, rs: seq<Record>)
    requires AllStorable(rs) && LogFile(file, rs)
    ensures ReadRaw(file) == Some(rs)
  {
    Wal.TornIgnored(Payloads(rs), file[|FileOf(rs)|..]);
    assert file == FileOf(rs) + file[|FileOf(rs)|..];
    DecodeInverts(rs);
  }

  /** The active file holds these records; an absent one holds none. */
  ghost predicate ActiveFile(dir: Dir, active: seq<Record>) {
    AllStorable(active) && if ACTIVE in dir then LogFile(dir[ACTIVE], active) else active == []
  }

  lemma {:induction false} WholeLogFile(rs: seq<Record>)
    requires AllStorable(rs)
    ensures LogFile(FileOf(rs), rs)
  {
    var p: Wal.Payload := [];
    assert [] < Wal.Frame(p);
    assert FileOf(rs)[|FileOf(rs)|..] == [];
  }

  lemma {:induction false} TornLogFile(rs: seq<Record>, p: Wal.Payload, torn: Bytes)
    requires AllStorable(rs) && torn < Wal.Frame(p)
    ensures LogFile(FileOf(rs) + torn, rs)
  {
    assert (FileOf(rs) + torn)[|FileOf(rs)|..] == torn;
  }

  /** It holds no torn frame. */
  ghost predicate Tidy(dir: Dir, active: seq<Record>) {
    AllStorable(active) && (ACTIVE in dir ==> dir[ACTIVE] == FileOf(active))
  }

  /** No log at all: neither a segment nor an active file. */
  ghost predicate Bare(dir: Dir) {
    ACTIVE !in dir && forall name :: name in dir ==> !IsSegmentName(name)
  }

  lemma {:induction false} BareIsUnlisted(dir: Dir)
    requires Listing(dir.Keys).Some?
    ensures Bare(dir) <==> ACTIVE !in dir && Listing(dir.Keys).value == []
  {
    var names := Listing(dir.Keys).value;
    assert forall n :: n in names <==> n in dir.Keys && IsSegmentName(n);
    if names != [] { assert names[0] in names; }
  }

  lemma {:induction false} HotUnionJoins(dir: Dir, exclude: set<Bytes>, names: seq<Bytes>, sealed: seq<Record>,
        active: seq<Record>)
    requires Listing(dir.Keys).Some? && Without(Listing(dir.Keys).value, exclude) == names
    requires (forall n :: n in names ==> n in dir) && ReadFiles(dir, names) == Some(sealed)
    requires ACTIVE in dir && ReadRaw(dir[ACTIVE]) == Some(active)
    ensures HotUnion(dir, exclude) == Records(sealed + active)
  {}

  lemma {:induction false} HotUnionWithoutActive(dir: Dir, exclude: set<Bytes>, names: seq<Bytes>, sealed: seq<Record>)
    requires Listing(dir.Keys).Some? && Without(Listing(dir.Keys).value, exclude) == names
    requires (forall n :: n in names ==> n in dir) && ReadFiles(dir, names) == Some(sealed)
    requires ACTIVE !in dir
    ensures HotUnion(dir, exclude) == if Listing(dir.Keys).value == [] then NoLog else Records(sealed)
  {}

  /** What boot reads: the hot segments from k on, then the active file, which a
      crash in a seal may have left absent. */
  lemma {:induction false} HotUnionIs(dir: Dir, segs: seq<seq<Record>>, k: nat, active: seq<Record>)
    requires k <= |segs| < TWO64 && OnlySegments(dir, |segs|) && HoldsRange(dir, segs, k, |segs|)
    requires ActiveFile(dir, active)
    ensures HotUnion(dir, NamesBelow(k)) == if Bare(dir) then NoLog else Records(Flatten(segs[k..]) + active)
  {
    hide HotUnion, Listing, HoldsRange, OnlySegments, ReadRaw, FileOf, ReadFiles, LogFile;
    ListingOf(dir, segs, k);
    ReadRange(dir, segs, k, |segs|);
    assert segs[k..|segs|] == segs[k..];
    BareIsUnlisted(dir);
    if ACTIVE in dir {
      LogFileReads(dir[ACTIVE], active);
      HotUnionJoins(dir, NamesBelow(k), NameRange(k, |segs|), Flatten(segs[k..]), active);
    } else {
      assert Flatten(segs[k..]) + active == Flatten(segs[k..]);
      HotUnionWithoutActive(dir, NamesBelow(k), NameRange(k, |segs|), Flatten(segs[k..]));
    }
  }

  lemma {:induction false} WithoutNothing(names: seq<Bytes>)
    ensures Without(names, NamesBelow(0)) == names
  {
    if names != [] {
      WithoutNothing(names[..|names| - 1]);
      assert NamesBelow(0) == {};
    }
  }

  lemma {:induction false} ColdListing(cold: Dir, segs: seq<seq<Record>>)
    requires |segs| < TWO64 && OnlySegments(cold, |segs|) && HoldsRange(cold, segs, 0, |segs|)
    ensures Listing(cold.Keys) == Some(NameRange(0, |segs|))
    ensures forall n :: n in NameRange(0, |segs|) ==> n in cold
    ensures ReadFiles(cold, NameRange(0, |segs|)) == Some(Flatten(segs))
  {
    ListingOf(cold, segs, 0);
    WithoutNothing(Listing(cold.Keys).value);
    ReadRange(cold, segs, 0, |segs|);
    assert segs[0..|segs|] == segs;
  }

  lemma {:induction false} NamesOfRange(k: nat)
    ensures (set n | n in NameRange(0, k)) == NamesBelow(k)
  {
    forall n: Bytes ensures n in NameRange(0, k) <==> n in NamesBelow(k) { InNameRange(0, k, n); }
  }

  lemma {:induction false} UnionJoins(cold: Dir, hot: Dir, names: seq<Bytes>, past: seq<Record>, rest: Read)
    requires Listing(cold.Keys) == Some(names) && (forall n :: n in names ==> n in cold)
    requires ReadFiles(cold, names) == Some(past) && LeftoversMatch(cold, hot, names)
    requires HotUnion(hot, set n | n in names) == rest
    ensures Union(cold, hot) == if rest.Records? then Records(past + rest.rs) else rest
  {}

  lemma {:induction false} LeftoversMatchTheir(cold: Dir, hot: Dir, segs: seq<seq<Record>>, k: nat)
    requires k <= |segs| && HoldsRange(cold, segs[..k], 0, k)
    requires forall n :: n in NameRange(0, k) ==> n in cold
    requires forall i :: 0 <= i < k && FileName(i) in hot ==> Holds(hot, segs, i)
    ensures LeftoversMatch(cold, hot, NameRange(0, k))
  {
    forall j | 0 <= j < k && NameRange(0, k)[j] in hot ensures hot[FileName(j)] == cold[FileName(j)] {
      assert Holds(hot, segs, j) && Holds(cold, segs[..k], j);
    }
  }

  lemma {:induction false} FlattenSplits(segs: seq<seq<Record>>, k: nat)
    requires k <= |segs|
    ensures Flatten(segs) == Flatten(segs[..k]) + Flatten(segs[k..])
  {
    if k < |segs| {
      FlattenSplits(Init(segs), k);
      assert Init(segs)[..k] == segs[..k];
      assert Init(segs[k..]) == Init(segs)[k..] && Last(segs[k..]) == Last(segs);
    } else {
      assert segs[..k] == segs && segs[k..] == [];
    }
  }

  /** What the verifier reads: everything, once, in commit order, however many
      rotated leftovers the hot tier still has and wherever rotation stands. */
  lemma {:induction false} UnionIs(cold: Dir, hot: Dir, segs: seq<seq<Record>>, k: nat, active: seq<Record>)
    requires k <= |segs| < TWO64
    requires OnlySegments(cold, k) && HoldsRange(cold, segs[..k], 0, k)
    requires OnlySegments(hot, |segs|) && HoldsRange(hot, segs, k, |segs|)
    requires forall i :: 0 <= i < k && FileName(i) in hot ==> Holds(hot, segs, i)
    requires ActiveFile(hot, active)
    ensures Union(cold, hot) == if Bare(hot) then NoLog else Records(Flatten(segs) + active)
  {
    var past, rest := Flatten(segs[..k]), Flatten(segs[k..]) + active;
    ColdListing(cold, segs[..k]);
    LeftoversMatchTheir(cold, hot, segs, k);
    var read := if Bare(hot) then NoLog else Records(rest);
    assert HotUnion(hot, set n | n in NameRange(0, k)) == read by {
      HotUnionIs(hot, segs, k, active);
      NamesOfRange(k);
    }
    UnionJoins(cold, hot, NameRange(0, k), past, read);
    FlattenSplits(segs, k);
    ConcatAssociates(past, Flatten(segs[k..]), active);
  }
}
