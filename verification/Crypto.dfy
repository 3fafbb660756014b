// The cryptographic primitives, as fixed but unknown functions.  Nothing is
// assumed of them: no injectivity, no unforgeability.  A result that rests on
// collision resistance hands back the two colliding inputs instead.

module Crypto {
  import opened Bytes

  type Digest = s: Bytes | |s| == 32 witness seq(32, _ => 0)

  const SHA256: Bytes -> Digest

  /** The IEEE CRC-32 of a payload. */
  const CRC32: Bytes -> U32

  /** A signature scheme whose own signatures verify; nothing more is known. */
  datatype Scheme = Scheme(publicKey: Bytes -> Bytes, sign: (Bytes, Bytes) -> Bytes,
        verify: (Bytes, Bytes, Bytes) -> bool)

  ghost predicate Correct(s: Scheme) {
    forall key, message ::
      && |s.publicKey(key)| == 32 && |s.sign(key, message)| == 64
      && s.verify(s.publicKey(key), message, s.sign(key, message))
  }

  type SignatureScheme = s: Scheme | Correct(s)
    witness Scheme(_ => Zeros(32), (_, _) => Zeros(64), (_, _, _) => true)

  const ED25519: SignatureScheme

  type InputPair = (Bytes, Bytes)

  /** Two distinct inputs with the same SHA-256 digest. */
  predicate Collision(p: InputPair) {
    p.0 != p.1 && SHA256(p.0) == SHA256(p.1)
  }
}
