// The signed daily head (internal/signer).

module Signer {
  import opened Bytes
  import opened Crypto

  const HEAD_TAG: Bytes := Ascii("ocu-audit-head/v1\0")

  datatype HeadEnvelope = HeadEnvelope(date: Text, treeSize: U64, head: Text)

  datatype SignedHead = SignedHead(envelope: HeadEnvelope, signature: Bytes, publicKey: Bytes)

  /** HeadEnvelope.SignBytes. */
  function HeadBytes(e: HeadEnvelope): Bytes {
    HEAD_TAG + (Field(e.date) + (BE64(e.treeSize) + (Field(e.head) + [])))
  }

  function TakeTag(tag: Bytes, s: Bytes): Option<Bytes> {
    if tag <= s then Some(s[|tag|..]) else None
  }

  function DecodeHead(s: Bytes): Option<HeadEnvelope> {
    var s :- TakeTag(HEAD_TAG, s);
    var (date, s) :- TakeField(s);
    var (treeSize, s) :- TakeU64(s);
    var (head, s) :- TakeField(s);
    if s == [] then Some(HeadEnvelope(date, treeSize, head)) else None
  }

  lemma {:induction false} TagReads(tag: Bytes, rest: Bytes)
    ensures TakeTag(tag, tag + rest) == Some(rest)
  {
    assert (tag + rest)[|tag|..] == rest;
  }

  /** What a head signature covers determines the envelope. */
  lemma {:induction false} HeadRoundTrip(e: HeadEnvelope)
    ensures DecodeHead(HeadBytes(e)) == Some(e)
  {
    TagReads(HEAD_TAG, Field(e.date) + (BE64(e.treeSize) + (Field(e.head) + [])));
    TakeFieldInverts(e.date, BE64(e.treeSize) + (Field(e.head) + []));
    TakeU64Inverts(e.treeSize, Field(e.head) + []);
    TakeFieldInverts(e.head, []);
  }

  /** VerifyMessage: a detached signature under a pinned key. */
  predicate VerifyMessage(pinned: Bytes, message: Bytes, signature: Bytes) {
    |pinned| == 32 && |signature| == 64 && ED25519.verify(pinned, message, signature)
  }

  /** Verify: the embedded key is the pin, and the signature covers the envelope. */
  predicate VerifyHead(sh: SignedHead, pinned: Bytes) {
    |pinned| == 32 && sh.publicKey == pinned && |sh.signature| == 64
    && ED25519.verify(pinned, HeadBytes(sh.envelope), sh.signature)
  }

  /** The daemon's signature of one envelope verifies over another one's bytes. */
  predicate HeadForged(key: Bytes, signed: HeadEnvelope, sh: SignedHead) {
    && HeadBytes(sh.envelope) != HeadBytes(signed)
    && sh.signature == ED25519.sign(key, HeadBytes(signed))
    && ED25519.verify(ED25519.publicKey(key), HeadBytes(sh.envelope), sh.signature)
  }

  /** Sign. */
  function SignHead(key: Bytes, e: HeadEnvelope): SignedHead {
    SignedHead(e, ED25519.sign(key, HeadBytes(e)), ED25519.publicKey(key))
  }

  lemma {:induction false} SignedHeadVerifies(key: Bytes, e: HeadEnvelope)
    ensures VerifyHead(SignHead(key, e), ED25519.publicKey(key))
  {
    assert Correct(ED25519);
  }

  /** A head accepted under a signature the daemon gave some envelope carries
      that envelope, or the one signature verifies over two byte strings. */
  lemma {:induction false} HeadIsPinned(key: Bytes, signed: HeadEnvelope, sh: SignedHead)
    requires sh.signature == SignHead(key, signed).signature && VerifyHead(sh, ED25519.publicKey(key))
    ensures sh.envelope == signed || HeadForged(key, signed, sh)
  {
    HeadRoundTrip(sh.envelope);
    HeadRoundTrip(signed);
  }
}
