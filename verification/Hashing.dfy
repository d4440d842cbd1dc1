/**
  SHA-256 and Ed25519 as arbitrary functions. Nothing is assumed injective: a
  theorem that needs collision resistance instead names a collision among the
  strings that the two computations it compares really hash.
 */
module Hashing {
  import opened Text

  /** 64 lowercase hexadecimal characters; only the length is used. */
  type Digest = d: Str | |d| == 64 witness seq(64, _ => 0x30)
  type Hash = Str -> Digest

  /** Some string hashed on the left and a different one hashed on the right share a digest. */
  ghost predicate Collides(h: Hash, left: set<Str>, right: set<Str>) {
    exists a, b | a in left && b in right :: a != b && h(a) == h(b)
  }

  lemma {:induction false} CollidesMono(h: Hash, left: set<Str>, right: set<Str>, left': set<Str>, right': set<Str>)
    requires Collides(h, left, right) && left <= left' && right <= right'
    ensures Collides(h, left', right')
  {
    var a, b :| a in left && b in right && a != b && h(a) == h(b);
  }

  /** A hash function together with a signature scheme. */
  datatype Crypto = Crypto(hash: Hash, sign: (Str, Str) -> Str, verify: (Str, Str, Str) -> bool)

  /** `secret` signs for `public`: what it signs verifies, and is never the empty string. */
  ghost predicate KeyPair(c: Crypto, secret: Str, public: Str) {
    forall m :: c.verify(m, c.sign(m, secret), public) && c.sign(m, secret) != []
  }

  /** No signature verifies for two messages under one key. */
  ghost predicate OneMessagePerSignature(c: Crypto) {
    forall m, n, sig, key :: c.verify(m, sig, key) && c.verify(n, sig, key) ==> m == n
  }
}
