// The publish envelope, the committed record and the canonical event bytes
// that the chain hash covers (internal/ocsf).

module Ocsf {
  import opened Bytes
  import opened Canonical

  datatype PublishEnvelope = PublishEnvelope(
    traceId: Text, sessionId: Text, actorId: Text, resource: Text, action: Text,
    outcome: Text, sequence: U64, payload: Text)

  datatype Record = Record(
    source: Text, sequence: U64,
    traceId: Text, sessionId: Text, actorId: Text, resource: Text, action: Text,
    outcome: Text, payload: Text, ingestTime: I64,
    prevHash: Text, chainHash: Text)

  /** Everything hashed about a record: its fields less the chain linkage. */
  datatype Event = Event(
    source: Text, sequence: U64,
    traceId: Text, sessionId: Text, actorId: Text, resource: Text, action: Text,
    outcome: Text, ingestTime: I64, canonicalPayload: Text)

  function EventOf(r: Record): Event {
    Event(r.source, r.sequence, r.traceId, r.sessionId, r.actorId, r.resource, r.action,
          r.outcome, r.ingestTime, CanonicalJson(r.payload))
  }

  /** The canonical encoding of an event, followed by rest. */
  function EventThen(e: Event, rest: Bytes): Bytes {
    Field(e.source) + (BE64(e.sequence) + (Field(e.traceId) + (Field(e.sessionId) + (Field(e.actorId)
    + (Field(e.resource) + (Field(e.action) + (Field(e.outcome) + (BE64(Wrap(e.ingestTime))
    + (Field(e.canonicalPayload) + rest)))))))))
  }

  function EventBytes(e: Event): Bytes {
    EventThen(e, [])
  }

  function CanonicalEventBytes(r: Record): Bytes {
    EventBytes(EventOf(r))
  }

  function TakeEvent(s: Bytes): Taken<Event> {
    var (source, s) :- TakeField(s);
    var (sequence, s) :- TakeU64(s);
    var (traceId, s) :- TakeField(s);
    var (sessionId, s) :- TakeField(s);
    var (actorId, s) :- TakeField(s);
    var (resource, s) :- TakeField(s);
    var (action, s) :- TakeField(s);
    var (outcome, s) :- TakeField(s);
    var (ingest, s) :- TakeU64(s);
    var (payload, s) :- TakeField(s);
    Some((Event(source, sequence, traceId, sessionId, actorId, resource, action, outcome, Unwrap(ingest), payload), s))
  }

  lemma {:induction false} TakeEventInverts(e: Event, rest: Bytes)
    ensures TakeEvent(EventThen(e, rest)) == Some((e, rest))
  {
    var s9 := Field(e.canonicalPayload) + rest;
    var s8 := BE64(Wrap(e.ingestTime)) + s9;
    var s7 := Field(e.outcome) + s8;
    var s6 := Field(e.action) + s7;
    var s5 := Field(e.resource) + s6;
    var s4 := Field(e.actorId) + s5;
    var s3 := Field(e.sessionId) + s4;
    var s2 := Field(e.traceId) + s3;
    var s1 := BE64(e.sequence) + s2;
    TakeFieldInverts(e.source, s1);
    TakeU64Inverts(e.sequence, s2);
    TakeFieldInverts(e.traceId, s3);
    TakeFieldInverts(e.sessionId, s4);
    TakeFieldInverts(e.actorId, s5);
    TakeFieldInverts(e.resource, s6);
    TakeFieldInverts(e.action, s7);
    TakeFieldInverts(e.outcome, s8);
    TakeU64Inverts(Wrap(e.ingestTime), s9);
    TakeFieldInverts(e.canonicalPayload, rest);
    WrapInverts(e.ingestTime);
  }

  function DecodeEvent(s: Bytes): Option<Event> {
    var (e, rest) :- TakeEvent(s);
    if rest == [] then Some(e) else None
  }

  /** The hash input is uniquely decodable: every hashed field is recovered. */
  lemma {:induction false} EventRoundTrip(e: Event)
    ensures DecodeEvent(EventBytes(e)) == Some(e)
  {
    TakeEventInverts(e, []);
  }

  // ---------- the stored form of a record ----------

  /** Some serialization of records: what is written decodes back. */
  datatype Codec = Codec(encode: Record -> Bytes, decode: Bytes -> Option<Record>)

  function RawEvent(r: Record): Event {
    EventOf(r).(canonicalPayload := r.payload)
  }

  function DecodeFieldwise(s: Bytes): Option<Record> {
    var (e, s) :- TakeEvent(s);
    var (prev, s) :- TakeField(s);
    var (hash, _) :- TakeField(s);
    Some(Record(e.source, e.sequence, e.traceId, e.sessionId, e.actorId, e.resource, e.action,
                e.outcome, e.canonicalPayload, e.ingestTime, prev, hash))
  }

  lemma {:induction false} FieldwiseRoundTrip(r: Record)
    ensures DecodeFieldwise(EventThen(RawEvent(r), Field(r.prevHash) + (Field(r.chainHash) + []))) == Some(r)
  {
    TakeEventInverts(RawEvent(r), Field(r.prevHash) + (Field(r.chainHash) + []));
    TakeFieldInverts(r.prevHash, Field(r.chainHash) + []);
    TakeFieldInverts(r.chainHash, []);
  }

  /** One codec, to show that there are any. */
  function FieldwiseCodec(): (c: Codec)
    ensures forall r: Record :: c.decode(c.encode(r)) == Some(r)
  {
    var c := Codec(r => EventThen(RawEvent(r), Field(r.prevHash) + (Field(r.chainHash) + [])), DecodeFieldwise);
    assert forall r: Record :: c.decode(c.encode(r)) == Some(r) by {
      forall r: Record ensures c.decode(c.encode(r)) == Some(r) { FieldwiseRoundTrip(r); }
    }
    c
  }

  type RecordCodec = c: Codec | forall r: Record :: c.decode(c.encode(r)) == Some(r)
    witness FieldwiseCodec()

  /** The JSON form a record has in the log: any codec at all. */
  const RECORD_JSON: RecordCodec
}
