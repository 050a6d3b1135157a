/**
 The cryptographic primitives, as a record of functions, and the key derivation built on them.

 What the ciphers compute is not modelled: a Suite is any record of functions, and a theorem about
 the protocol says which of the laws below it needs. LawfulSuiteExists shows the laws are consistent.
 */
module Primitives {
  import opened Bytes

  const HASH_SIZE: nat := 32
  const SYMMETRIC_KEY_SIZE: nat := 32
  const GCM_NONCE_SIZE: nat := 12
  const GCM_TAG_SIZE: nat := 16

  datatype Scheme = Gmsm | Curve

  /** PublicKeySizeEx for SM2, PublicKeySize for Curve25519. */
  function PublicKeySize(s: Scheme): nat {
    match s
    case Gmsm => 64
    case Curve => 32
  }

  /** One cipher suite. A hash object is modelled by the bytes written to it so far, its Sum by hash. */
  datatype Suite = Suite(
    scheme: Scheme,
    hash: bytes -> bytes,
    hmac: (bytes, bytes) -> bytes,                  // key, message
    pub: bytes -> bytes,                            // private key to public key
    dh: (bytes, bytes) -> Option<bytes>,            // private key, public key; None for Go's nil
    seal: (bytes, bytes, bytes, bytes) -> bytes,    // key, nonce, plaintext, associated data
    open: (bytes, bytes, bytes, bytes) -> Option<bytes>,
    compress: bytes -> bytes,
    decompress: bytes -> Option<bytes>)

  ghost predicate SizesHold(c: Suite) {
    && (forall m :: |c.hash(m)| == HASH_SIZE)
    && (forall k, m :: |c.hmac(k, m)| == HASH_SIZE)
    && (forall sk :: |c.pub(sk)| == PublicKeySize(c.scheme))
  }

  ghost predicate AgreementHolds(c: Suite) {
    forall a, b {:trigger c.dh(a, c.pub(b))} :: c.dh(a, c.pub(b)) == c.dh(b, c.pub(a))
  }

  ghost predicate SealingHolds(c: Suite) {
    forall k, n, p, ad {:trigger c.seal(k, n, p, ad)} ::
      c.open(k, n, c.seal(k, n, p, ad), ad) == Some(p) && |c.seal(k, n, p, ad)| == |p| + GCM_TAG_SIZE
  }

  ghost predicate CompressionHolds(c: Suite) {
    forall m {:trigger c.compress(m)} :: c.decompress(c.compress(m)) == Some(m)
  }

  ghost predicate Lawful(c: Suite) {
    SizesHold(c) && AgreementHolds(c) && SealingHolds(c) && CompressionHolds(c)
  }

  function Fit(s: bytes, n: nat): (r: bytes)
    ensures |r| == n
  {
    if |s| < n then s + Zeros(n - |s|) else s[..n]
  }

  /** A suite with no secrecy at all that meets every law. */
  function TransparentSuite(s: Scheme): Suite {
    Suite(s,
          m => Fit(m, HASH_SIZE),
          (k, m) => Fit(m, HASH_SIZE),
          sk => Fit(sk, PublicKeySize(s)),
          (sk, pk) => Some(Zeros(HASH_SIZE)),
          (k, n, p, ad) => p + Zeros(GCM_TAG_SIZE),
          (k, n, c, ad) => if |c| < GCM_TAG_SIZE then None else Some(c[..|c| - GCM_TAG_SIZE]),
          m => m,
          m => Some(m))
  }

  lemma LawfulSuiteExists(s: Scheme)
    ensures Lawful(TransparentSuite(s)) && TransparentSuite(s).scheme == s
  {
    var c := TransparentSuite(s);
    forall k, n, p, ad
      ensures c.open(k, n, c.seal(k, n, p, ad), ad) == Some(p)
    {
      assert c.seal(k, n, p, ad)[..|p|] == p;
    }
  }

  // ---- The HKDF of section 4.3 of the Noise Protocol Framework, as NoiseFactory computes it ----

  function Extract(c: Suite, key: bytes, input: bytes): bytes {
    c.hmac(key, input)
  }

  function KeyGen1Value(c: Suite, key: bytes, input: bytes): bytes {
    c.hmac(Extract(c, key, input), [1])
  }

  /** The two outputs of the HKDF. */
  function KeyGen2Value(c: Suite, key: bytes, input: bytes): (bytes, bytes) {
    var prk := Extract(c, key, input);
    var first := c.hmac(prk, [1]);
    (first, c.hmac(prk, first + [2]))
  }

  /** With two outputs asked for, the first is the one that KeyGen1 gives, and the second is chained to it. */
  lemma OutputsAreChained(c: Suite, key: bytes, input: bytes)
    ensures KeyGen2Value(c, key, input).0 == KeyGen1Value(c, key, input) == c.hmac(c.hmac(key, input), [0x01])
    ensures KeyGen2Value(c, key, input).1 == c.hmac(c.hmac(key, input), KeyGen1Value(c, key, input) + [0x02])
  {
  }

  method Hmac(c: Suite, dst: array<byte>, key: array<byte>, message: bytes)
    requires SizesHold(c) && dst.Length == HASH_SIZE
    modifies dst
    ensures dst[..] == c.hmac(old(key[..]), message)
  {
    var mac := c.hmac(key[..], message);
    assert |mac| == HASH_SIZE;
    forall i | 0 <= i < dst.Length {
      dst[i] := mac[i];
    }
  }

  /** key may be dst itself: callers derive the next chain key from the current one in place. */
  method KeyGen1(c: Suite, dst: array<byte>, key: array<byte>, input: bytes)
    requires SizesHold(c) && dst.Length == HASH_SIZE
    modifies dst
    ensures dst[..] == KeyGen1Value(c, old(key[..]), input)
  {
    Hmac(c, dst, key, input);
    Hmac(c, dst, dst, [1]);
  }

  /** key may be dst0. */
  method KeyGen2(c: Suite, dst0: array<byte>, dst1: array<byte>, key: array<byte>, input: bytes)
    requires SizesHold(c) && dst0.Length == dst1.Length == HASH_SIZE && dst0 != dst1
    modifies dst0, dst1
    ensures (dst0[..], dst1[..]) == KeyGen2Value(c, old(key[..]), input)
  {
    var prk := new byte[HASH_SIZE];
    Hmac(c, prk, key, input);
    Hmac(c, dst0, prk, [1]);
    Hmac(c, dst1, prk, dst0[..] + [2]);
    SetZero(prk);
  }

  method SetZero(arr: array<byte>)
    modifies arr
    ensures arr[..] == Zeros(arr.Length)
  {
    var i := 0;
    while i < arr.Length
      invariant 0 <= i <= arr.Length
      invariant forall j :: 0 <= j < i ==> arr[j] == 0
    {
      arr[i] := 0;
      i := i + 1;
    }
  }
}
