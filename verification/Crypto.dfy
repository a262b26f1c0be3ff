/** The cryptographic library as function parameters, with the few ideal properties the proofs rely on. */
module Crypto {
  import opened Octets

  type Iv = s: Bytes | |s| == 12 witness seq(12, _ => 0)
  type Tag = s: Bytes | |s| == 16 witness seq(16, _ => 0)

  datatype Sealed = Sealed(text: Bytes, tag: Tag)

  /**
   * PBKDF2-HMAC-SHA256 with the iteration count both programs use (RFC 8018 section 5.2), AES-256-GCM
   * (NIST SP 800-38D section 7), RSA key generation from a seed, and RSA-PSS signatures
   * (RFC 8017 section 8.1) over PEM keys.
   */
  datatype Suite = Suite(
    pbkdf2: (Bytes, Bytes) -> Digest,
    seal: (Digest, Iv, Bytes, Bytes) -> Sealed,
    open: (Digest, Iv, Bytes, Sealed) -> Option<Bytes>,
    publicPem: nat -> Bytes,
    privatePem: nat -> Bytes,
    sign: (Bytes, Bytes, nat) -> Option<Bytes>,
    verify: (Bytes, Bytes, Bytes) -> bool)

  /** Two passwords the stored hash cannot tell apart. */
  ghost predicate SameVerifier(c: Suite, p: Bytes, q: Bytes, salt: Bytes) {
    c.pbkdf2(p, salt) == c.pbkdf2(q, salt)
  }

  /** Passwords with one hash under some salt have one hash under every salt: no accidental collisions. */
  ghost predicate HashIdeal(c: Suite) {
    forall p, q, s, t {:trigger SameVerifier(c, p, q, s), c.pbkdf2(p, t)} ::
      SameVerifier(c, p, q, s) ==> c.pbkdf2(p, t) == c.pbkdf2(q, t)
  }

  /** What was sealed opens again, and opening keeps the length. */
  ghost predicate AeadIdeal(c: Suite) {
    && (forall k, iv, aad, p {:trigger c.seal(k, iv, aad, p)} ::
         |c.seal(k, iv, aad, p).text| == |p| && c.open(k, iv, aad, c.seal(k, iv, aad, p)) == Some(p))
    && (forall k, iv, aad, s {:trigger c.open(k, iv, aad, s)} ::
         c.open(k, iv, aad, s).Some? ==> |c.open(k, iv, aad, s).value| == |s.text|)
  }

  ghost predicate SignatureIdeal(c: Suite) {
    && (forall seed :: 0 < |c.privatePem(seed)| <= INT_MAX)
    && (forall seed, doc, r {:trigger c.sign(c.privatePem(seed), doc, r)} ::
         var s := c.sign(c.privatePem(seed), doc, r);
         s.Some? && |s.value| <= UINT16_MAX && c.verify(c.publicPem(seed), doc, s.value))
  }

  ghost predicate Ideal(c: Suite) {
    HashIdeal(c) && AeadIdeal(c) && SignatureIdeal(c)
  }

  /**
   * A small concrete suite. It hides nothing, but it has every ideal property (so the properties are
   * consistent) and its tag repeats half the key, so a blob does not open under an unrelated key.
   */
  function Transparent(): Suite {
    Suite(
      (p: Bytes, s: Bytes) => TransparentHash(p),
      (k: Digest, iv: Iv, aad: Bytes, p: Bytes) => Sealed(p, k[..16]),
      (k: Digest, iv: Iv, aad: Bytes, s: Sealed) => if s.tag == k[..16] then Some(s.text) else None,
      (seed: nat) => [],
      (seed: nat) => [1],
      (pem: Bytes, doc: Bytes, r: nat) => Some([]),
      (pem: Bytes, doc: Bytes, sig: Bytes) => true)
  }

  /** A hash that depends on the first byte of the password only. */
  function TransparentHash(p: Bytes): Digest {
    seq(32, _ => if p == [] then 0 else p[0])
  }

  lemma TransparentIsIdeal()
    ensures Ideal(Transparent())
  {
    var c := Transparent();
    forall p, q, s, t | SameVerifier(c, p, q, s) ensures c.pbkdf2(p, t) == c.pbkdf2(q, t) {
      assert c.pbkdf2(p, t) == c.pbkdf2(p, s) && c.pbkdf2(q, t) == c.pbkdf2(q, s);
    }
  }
}
