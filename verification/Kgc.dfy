/**
 Certificateless keys and ECDSA, endpoints/kgc/kgc.go and endpoints/kgc/user/user.go, over any curve whose
 base point has prime order. Base64 is left out: keys and signatures are the byte strings inside it.
 */
module Kgc {
  import opened Bytes
  import opened Arith
  import opened Curve
  import opened Scalar

  /** The curve parameters that the scheme uses, and its hash. */
  datatype System = System(g: Ops, base: Point, n: nat, byteLen: nat, a: nat, b: nat, hash: bytes -> bytes)

  ghost predicate Lawful(s: System) {
    && Abelian(s.g) && s.g.member(s.base)
    && Prime(s.n) && s.n > 1 && Multiple(s.g, s.n, s.base) == Infinity
    && s.byteLen > 0
    && (forall p {:trigger s.g.member(p)} :: s.g.member(p) ==> 0 <= p.x < Pow256(s.byteLen) && 0 <= p.y < Pow256(s.byteLen))
  }

  lemma LawfulFacts(s: System)
    requires Lawful(s)
    ensures Abelian(s.g) && s.g.member(s.base) && s.n > 1 && s.base.x >= 0 && s.base.y >= 0
  {
  }

  lemma MemberBounds(s: System, p: Point)
    requires Lawful(s) && s.g.member(p)
    ensures 0 <= p.x < Pow256(s.byteLen) && 0 <= p.y < Pow256(s.byteLen)
  {
  }

  /** big.Int.Bytes: big-endian without leading zeros. */
  function Minimal(v: nat): bytes {
    if v == 0 then [] else Minimal(v / 256) + [v % 256]
  }

  lemma {:induction false} MinimalRoundTrip(v: nat)
    ensures FromBigEndian(Minimal(v)) == v
    ensures v > 0 ==> Minimal(v)[0] > 0
  {
    if v > 0 {
      MinimalRoundTrip(v / 256);
      assert Minimal(v)[..|Minimal(v)| - 1] == Minimal(v / 256);
    }
  }

  /** How many bytes a number takes. */
  lemma {:induction false} MinimalLength(v: nat, n: nat)
    ensures |Minimal(v)| <= n <==> v < Pow256(n)
  {
    if v > 0 && n > 0 {
      MinimalLength(v / 256, n - 1);
    }
  }

  function Coordinates(p: Point): bytes
    requires p.x >= 0 && p.y >= 0
  {
    Minimal(p.x) + Minimal(p.y)
  }

  // ---- Keys ----

  /** The user id, its length in two bytes before it, and the public parameters. */
  function InfoInput(s: System, master: Point, userId: bytes): bytes
    requires s.base.x >= 0 && s.base.y >= 0 && master.x >= 0 && master.y >= 0
  {
    [|userId| / 256 % 256, |userId| % 256] + userId + Minimal(s.a) + Minimal(s.b)
      + Coordinates(s.base) + Coordinates(master)
  }

  function LambdaInput(s: System, master: Point, declared: Point, userId: bytes): bytes
    requires declared.x >= 0 && declared.y >= 0
    requires s.base.x >= 0 && s.base.y >= 0 && master.x >= 0 && master.y >= 0
  {
    Coordinates(declared) + s.hash(InfoInput(s, master, userId))
  }

  function Lambda(s: System, master: Point, declared: Point, userId: bytes): nat
    requires s.n > 0 && declared.x >= 0 && declared.y >= 0
    requires s.base.x >= 0 && s.base.y >= 0 && master.x >= 0 && master.y >= 0
  {
    FromBigEndian(s.hash(LambdaInput(s, master, declared, userId))) % s.n
  }

  /** GenerateKGCUserPartialKey with the random w: the user's partial private key T and the declared key. */
  function KgcPartialKey(s: System, ms: nat, userId: bytes, partialPub: Point, w: nat): (r: (nat, Point))
    requires Lawful(s) && s.g.member(partialPub)
    ensures s.g.member(r.1)
  {
    MultipleIsMember(s.g, w, s.base);
    MultipleIsMember(s.g, ms, s.base);
    var declared := s.g.add(Multiple(s.g, w, s.base), partialPub);
    ((w + Lambda(s, Multiple(s.g, ms, s.base), declared, userId) * ms) % s.n, declared)
  }

  /** GenerateUserFullKey: None asks for a new user key. */
  function UserFullKey(s: System, t: nat, userSk: nat): Option<nat>
    requires s.n > 0
  {
    var d := (t + userSk) % s.n;
    if d == 0 then None else Some(d)
  }

  /** The split of a declared key; Go panics on a key that is shorter than one coordinate. */
  function SplitDeclared(s: System, declared: bytes): Option<Point> {
    if |declared| < s.byteLen then None
    else Some(Point(FromBigEndian(declared[..s.byteLen]), FromBigEndian(declared[s.byteLen..])))
  }

  /** CalculateFullPublicKey. */
  function FullPublicKey(s: System, master: Point, declared: bytes, userId: bytes): Option<Point>
    requires s.n > 0 && s.base.x >= 0 && s.base.y >= 0 && master.x >= 0 && master.y >= 0
  {
    match SplitDeclared(s, declared)
    case None => None
    case Some(p) => Some(s.g.add(p, Multiple(s.g, Lambda(s, master, p, userId), master)))
  }

  /** VerifyFullKey: the key that the KGC vouches for is the one that the private key gives. */
  predicate VerifyFullKey(s: System, master: Point, sk: nat, declared: Point, userId: bytes)
    requires s.n > 0 && s.base.x >= 0 && s.base.y >= 0 && master.x >= 0 && master.y >= 0
    requires declared.x >= 0 && declared.y >= 0
  {
    FullPublicKey(s, master, Coordinates(declared), userId) == Some(Multiple(s.g, sk, s.base))
  }

  /** The split recovers a point of the curve exactly when its X takes the full width. */
  lemma DeclaredKeySplitsIffFullWidth(s: System, p: Point)
    requires Lawful(s) && s.g.member(p)
    ensures SplitDeclared(s, Coordinates(p)) == Some(p) <==> |Minimal(p.x)| == s.byteLen
  {
    var x, y, n := Minimal(p.x), Minimal(p.y), s.byteLen;
    MinimalRoundTrip(p.x);
    MinimalRoundTrip(p.y);
    MinimalLength(p.x, n);
    var all := x + y;
    if |x| == n {
      assert all[..n] == x && all[n..] == y;
    } else if |all| >= n {
      SplitTooLate(p.x, p.y, n);
    }
  }

  /** Cutting behind the end of the first number's bytes changes that number. */
  lemma SplitTooLate(a: nat, b: nat, n: nat)
    requires |Minimal(a)| < n <= |Minimal(a) + Minimal(b)|
    ensures FromBigEndian((Minimal(a) + Minimal(b))[..n]) != a
  {
    var all := Minimal(a) + Minimal(b);
    MinimalRoundTrip(a);
    MinimalRoundTrip(b);
    assert all[..n][0] == all[0] && all[0] > 0;
    LeadingByte(all[..n]);
    MinimalLength(a, n - 1);
  }

  lemma {:induction false} LeadingByte(s: bytes)
    requires s != [] && s[0] > 0
    ensures FromBigEndian(s) >= Pow256(|s| - 1)
  {
    if |s| > 1 {
      LeadingByte(s[..|s| - 1]);
    }
  }

  lemma KeyRemainders(n: nat, w: nat, m: nat, u: nat)
    requires n > 0
    ensures ((w + m) % n + u) % n == (w + m + u) % n
  {
    CongMod(w + m, n);
    CongRefl(u, n);
    CongAdd((w + m) % n, w + m, u, u, n);
    CongIffSameMod((w + m) % n + u, w + m + u, n);
  }

  lemma KeyEquation(s: System, ms: nat, u: nat, w: nat, lambda: nat)
    requires Lawful(s)
    ensures Multiple(s.g, ((w + lambda * ms) % s.n + u) % s.n, s.base)
         == s.g.add(s.g.add(Multiple(s.g, w, s.base), Multiple(s.g, u, s.base)),
                    Multiple(s.g, lambda, Multiple(s.g, ms, s.base)))
  {
    hide Prime, Abelian, Multiple;
    KeyRemainders(s.n, w, lambda * ms, u);
    MultipleModOrder(s.g, s.n, w + lambda * ms + u, s.base);
    KeySum(s.g, w, u, lambda * ms, s.base);
    MultipleOfMultiple(s.g, lambda, ms, s.base);
  }

  /** The full private key times the base point is the declared key plus lambda times the master public key. */
  lemma FullKeyEquation(s: System, ms: nat, userSk: nat, userId: bytes, w: nat)
    requires Lawful(s)
    ensures MultipleIsMemberOf(s, userSk) && MultipleIsMemberOf(s, ms)
    ensures var master := Multiple(s.g, ms, s.base);
            var (t, declared) := KgcPartialKey(s, ms, userId, Multiple(s.g, userSk, s.base), w);
            Multiple(s.g, (t + userSk) % s.n, s.base)
            == s.g.add(declared, Multiple(s.g, Lambda(s, master, declared, userId), master))
  {
    LawfulFacts(s);
    MultipleIsMember(s.g, userSk, s.base);
    MultipleIsMember(s.g, ms, s.base);
    MemberBounds(s, Multiple(s.g, ms, s.base));
    hide Lambda, Prime, Abelian, Multiple, Lawful;
    var (t, declared) := KgcPartialKey(s, ms, userId, Multiple(s.g, userSk, s.base), w);
    MemberBounds(s, declared);
    KeyEquation(s, ms, userSk, w, Lambda(s, Multiple(s.g, ms, s.base), declared, userId));
  }

  predicate MultipleIsMemberOf(s: System, k: nat) {
    s.g.member(Multiple(s.g, k, s.base))
  }

  lemma KeySum(g: Ops, a: nat, b: nat, c: nat, p: Point)
    requires Abelian(g) && g.member(p)
    ensures Multiple(g, a + c + b, p) == g.add(g.add(Multiple(g, a, p), Multiple(g, b, p)), Multiple(g, c, p))
  {
    assert a + c + b == a + b + c;
    MultipleOfSum(g, a + b, c, p);
    MultipleOfSum(g, a, b, p);
  }

  /** For all secrets, nonces and user ids, a generated key verifies if its declared X takes the full width. */
  lemma GeneratedKeyVerifies(s: System, ms: nat, userSk: nat, userId: bytes, w: nat)
    requires Lawful(s)
    ensures MultipleIsMemberOf(s, userSk) && MultipleIsMemberOf(s, ms)
    ensures var master := Multiple(s.g, ms, s.base);
            var (t, declared) := KgcPartialKey(s, ms, userId, Multiple(s.g, userSk, s.base), w);
            var sk := UserFullKey(s, t, userSk);
            && (sk.Some? && |Minimal(declared.x)| == s.byteLen
                ==> VerifyFullKey(s, master, sk.value, declared, userId))
  {
    hide Lambda, Prime, Abelian, Multiple, Minimal, FromBigEndian;
    FullKeyEquation(s, ms, userSk, userId, w);
    var (t, declared) := KgcPartialKey(s, ms, userId, Multiple(s.g, userSk, s.base), w);
    DeclaredKeySplitsIffFullWidth(s, declared);
  }

  // ---- ECDSA, section 6.4 of FIPS 186-5 ----

  /** Sign with the nonce k; None where Go reports an error. */
  function Sign(s: System, prk: bytes, message: bytes, k: nat): Option<(nat, nat)>
    requires s.n > 0
  {
    var e := FromBigEndian(s.hash(message));
    var r := Multiple(s.g, k, s.base).x % s.n;
    if k == 0 || r == 0 then None
    else
      match ModInverse(k, s.n)
      case NoInverse => None
      case Inverse(kInv) =>
        var sig := ((r * FromBigEndian(prk) + e) * kInv) % s.n;
        if sig == 0 then None else Some((r, sig))
  }

  /** Verify once the public key has been computed from the declared one. */
  predicate VerifyWith(s: System, publicKey: Point, message: bytes, r: nat, sig: nat)
    requires s.n > 0
  {
    var e := FromBigEndian(s.hash(message));
    && 0 < r < s.n && 0 < sig < s.n
    && (match ModInverse(sig, s.n)
        case NoInverse => false
        case Inverse(w) =>
          var p := s.g.add(Multiple(s.g, (e * w) % s.n, s.base), Multiple(s.g, (r * w) % s.n, publicKey));
          p.x % s.n == r)
  }

  /** The two halves of a signature; the first is the shorter one if the length is odd. */
  function SplitSignature(signature: bytes): (nat, nat) {
    var half := |signature| / 2;
    (FromBigEndian(signature[..half]), FromBigEndian(signature[half..]))
  }

  predicate Verify(s: System, master: Point, declared: bytes, userId: bytes, message: bytes, signature: bytes)
    requires s.n > 0 && s.base.x >= 0 && s.base.y >= 0 && master.x >= 0 && master.y >= 0
  {
    var (r, sig) := SplitSignature(signature);
    var publicKey := FullPublicKey(s, master, declared, userId);
    publicKey.Some? && VerifyWith(s, publicKey.value, message, r, sig)
  }

  lemma NonceTimesInverses(n: nat, f: int, k: int, kInv: int, sig: int, w: int)
    requires n > 0 && Cong(k * kInv, 1, n) && Cong(sig * w, 1, n) && Cong(sig, f * kInv, n)
    ensures Cong(f * w, k, n)
  {
    hide Cong;
    // sig * w * k, computed both ways
    CongRefl(k, n);
    CongRefl(w, n);
    CongRefl(f * w, n);
    CongMul(sig * w, 1, k, k, n);
    CongMul(sig, f * kInv, w, w, n);
    CongMul(sig * w, f * kInv * w, k, k, n);
    CongMul(f * w, f * w, k * kInv, 1, n);
    RegroupProduct(f, kInv, w, k);
    CongTrans(sig * w * k, f * kInv * w * k, f * w, n);
    CongSym(sig * w * k, f * w, n);
    CongTrans(f * w, sig * w * k, k, n);
  }

  /** u1 + u2 * d is the nonce, modulo the order. */
  lemma SignatureEquation(n: nat, e: int, r: int, d: int, k: int, kInv: int, sig: int, w: int)
    requires n > 0 && Cong(k * kInv, 1, n) && Cong(sig * w, 1, n)
    requires Cong(sig, (r * d + e) * kInv, n)
    ensures Cong((e * w) % n + (r * w) % n * d, k, n)
  {
    hide Cong;
    NonceTimesInverses(n, r * d + e, k, kInv, sig, w);
    CongRefl(d, n);
    CongMod(e * w, n);
    CongMod(r * w, n);
    CongMul((r * w) % n, r * w, d, d, n);
    CongAdd((e * w) % n, e * w, (r * w) % n * d, r * w * d, n);
    FactorOut(e, r, d, w);
    CongTrans((e * w) % n + (r * w) % n * d, (r * d + e) * w, k, n);
  }

  lemma FactorOut(e: int, r: int, d: int, w: int)
    ensures e * w + r * w * d == (r * d + e) * w
  {
  }

  lemma RegroupProduct(f: int, i: int, w: int, k: int)
    ensures f * i * w * k == (f * w) * (k * i)
  {
  }

  lemma NoncePoint(s: System, u1: nat, u2: nat, d: nat, k: nat)
    requires Lawful(s) && (u1 + u2 * d) % s.n == k % s.n
    ensures s.g.add(Multiple(s.g, u1, s.base), Multiple(s.g, u2, Multiple(s.g, d, s.base))) == Multiple(s.g, k, s.base)
  {
    hide Prime, Abelian, Multiple;
    MultipleModOrder(s.g, s.n, u1 + u2 * d, s.base);
    MultipleModOrder(s.g, s.n, k, s.base);
    MultipleOfSum(s.g, u1, u2 * d, s.base);
    MultipleOfMultiple(s.g, u2, d, s.base);
  }

  /** A signature that Sign returns verifies under the public key of its private key. */
  lemma SignatureVerifies(s: System, prk: bytes, message: bytes, k: nat)
    requires Lawful(s) && k < s.n && Sign(s, prk, message, k).Some?
    ensures var (r, sig) := Sign(s, prk, message, k).value;
            VerifyWith(s, Multiple(s.g, FromBigEndian(prk), s.base), message, r, sig)
  {
    hide ModInverse, Prime, FromBigEndian, Abelian, Multiple, Cong;
    var (r, sig) := Sign(s, prk, message, k).value;
    var e, d := FromBigEndian(s.hash(message)), FromBigEndian(prk);
    var kInv := ModInverse(k, s.n).value;
    DivModUnique(sig, s.n, 0, sig);
    PrimeInverse(sig, s.n);
    var w := ModInverse(sig, s.n).value;
    CongMod((r * d + e) * kInv, s.n);
    SignatureEquation(s.n, e, r, d, k, kInv, sig, w);
    var u1, u2 := (e * w) % s.n, (r * w) % s.n;
    CongIffSameMod(u1 + u2 * d, k, s.n);
    NoncePoint(s, u1, u2, d, k);
  }

  /** The nonce that a verifying signature was made with. */
  function NonceOf(s: System, message: bytes, prk: bytes, r: nat, w: nat): nat
    requires s.n > 0
  {
    ((FromBigEndian(s.hash(message)) + r * FromBigEndian(prk)) * w) % s.n
  }

  lemma NonceCong(n: nat, e: nat, r: nat, d: nat, w: nat)
    requires n > 0
    ensures ((e * w) % n + (r * w) % n * d) % n == ((e + r * d) * w) % n
  {
    hide Cong;
    CongRefl(d, n);
    CongMod(e * w, n);
    CongMod(r * w, n);
    CongMul((r * w) % n, r * w, d, d, n);
    CongAdd((e * w) % n, e * w, (r * w) % n * d, r * w * d, n);
    FactorOut(e, r, d, w);
    assert r * d + e == e + r * d;
    CongIffSameMod((e * w) % n + (r * w) % n * d, (e + r * d) * w, n);
  }

  /** The inverse of that nonce brings the signature back. */
  lemma NonceInverse(n: nat, f: int, sig: nat, w: nat, k: nat, kInv: nat)
    requires n > 0 && sig < n && Cong(sig * w, 1, n) && Cong(f * w, k, n) && Cong(k * kInv, 1, n)
    ensures (f * kInv) % n == sig
  {
    hide Cong;
    // f * kInv = f * (sig * w) * kInv = sig * (f * w) * kInv = sig * k * kInv = sig
    CongRefl(f * kInv, n);
    CongMul(sig * w, 1, f * kInv, f * kInv, n);
    CongRefl(sig, n);
    CongRefl(kInv, n);
    CongMul(sig, sig, f * w, k, n);
    CongMul(sig * (f * w), sig * k, kInv, kInv, n);
    CongMul(sig, sig, k * kInv, 1, n);
    Reorder(sig, w, f, kInv, k);
    CongSym(sig * w * (f * kInv), 1 * (f * kInv), n);
    CongTrans(f * kInv, sig * w * (f * kInv), sig * k * kInv, n);
    CongTrans(f * kInv, sig * k * kInv, sig, n);
    CongIffSameMod(f * kInv, sig, n);
    DivModUnique(sig, n, 0, sig);
  }

  lemma Reorder(sig: int, w: int, f: int, kInv: int, k: int)
    ensures sig * w * (f * kInv) == sig * (f * w) * kInv && sig * (k * kInv) == sig * k * kInv
    ensures 1 * (f * kInv) == f * kInv && sig * 1 == sig
  {
  }

  /** Nothing else verifies: every signature that does is the one that Sign makes with some nonce. */
  lemma VerifiedWasSigned(s: System, prk: bytes, message: bytes, r: nat, sig: nat) returns (k: nat)
    requires Lawful(s) && VerifyWith(s, Multiple(s.g, FromBigEndian(prk), s.base), message, r, sig)
    ensures 0 < k < s.n && Sign(s, prk, message, k) == Some((r, sig))
  {
    hide ModInverse, FromBigEndian, Abelian, Cong, Prime, Multiple;
    var e, d := FromBigEndian(s.hash(message)), FromBigEndian(prk);
    var w := ModInverse(sig, s.n).value;
    var u1, u2 := (e * w) % s.n, (r * w) % s.n;
    k := NonceOf(s, message, prk, r, w);
    NonceCong(s.n, e, r, d, w);
    DivModUnique(k, s.n, 0, k);
    NoncePoint(s, u1, u2, d, k);
    if k == 0 {
      NoSteps(s);
    }
    InverseExists(s, k);
    var kInv := ModInverse(k, s.n).value;
    CongMod((e + r * d) * w, s.n);
    NonceInverse(s.n, e + r * d, sig, w, k, kInv);
    assert r * d + e == e + r * d;
  }

  lemma NoSteps(s: System)
    requires s.n > 0
    ensures Multiple(s.g, 0, s.base).x % s.n == 0
  {
    assert Multiple(s.g, 0, s.base) == Infinity;
  }

  /** Some nonce gives this signature. */
  ghost predicate WasSigned(s: System, prk: bytes, message: bytes, signature: (nat, nat))
    requires s.n > 0
  {
    exists k :: 0 < k < s.n && Sign(s, prk, message, k) == Some(signature)
  }

  /**
   Verification is exact: under the public key of a private key, a signature verifies if and only if signing the
   message with some nonce gives this very signature.
   */
  lemma VerifiesIffSigned(s: System, prk: bytes, message: bytes, r: nat, sig: nat)
    requires Lawful(s)
    ensures VerifyWith(s, Multiple(s.g, FromBigEndian(prk), s.base), message, r, sig)
       <==> WasSigned(s, prk, message, (r, sig))
  {
    hide VerifyWith, Sign, Lawful, FromBigEndian;
    LawfulFacts(s);
    if VerifyWith(s, Multiple(s.g, FromBigEndian(prk), s.base), message, r, sig) {
      var k := VerifiedWasSigned(s, prk, message, r, sig);
    }
    if k :| 0 < k < s.n && Sign(s, prk, message, k) == Some((r, sig)) {
      SignatureVerifies(s, prk, message, k);
    }
  }

  /** Signing fails exactly for the nonces that give one of the two zeros. */
  lemma SignFailsIff(s: System, prk: bytes, message: bytes, k: nat)
    requires Lawful(s) && 0 < k < s.n
    ensures var r, f := Multiple(s.g, k, s.base).x % s.n,
                        FromBigEndian(s.hash(message)) + Multiple(s.g, k, s.base).x % s.n * FromBigEndian(prk);
            Sign(s, prk, message, k) == None <==> r == 0 || f % s.n == 0
  {
    hide ModInverse, FromBigEndian, Abelian, Multiple, Prime, Cong;
    var r := Multiple(s.g, k, s.base).x % s.n;
    var f := FromBigEndian(s.hash(message)) + r * FromBigEndian(prk);
    InverseExists(s, k);
    var kInv := ModInverse(k, s.n).value;
    assert r * FromBigEndian(prk) + FromBigEndian(s.hash(message)) == f;
    ZeroProduct(s.n, f, k, kInv);
  }

  lemma ZeroProduct(n: nat, f: int, k: nat, kInv: nat)
    requires n > 0 && Cong(k * kInv, 1, n)
    ensures (f * kInv) % n == 0 <==> f % n == 0
  {
    hide Cong;
    if f % n == 0 {
      CongIffSameMod(f, 0, n);
      CongRefl(kInv, n);
      CongMul(f, 0, kInv, kInv, n);
      CongIffSameMod(f * kInv, 0 * kInv, n);
    }
    if (f * kInv) % n == 0 {
      CongIffSameMod(f * kInv, 0, n);
      CongRefl(k, n);
      CongMul(f * kInv, 0, k, k, n);
      CongRefl(f, n);
      CongMul(f, f, k * kInv, 1, n);
      assert f * kInv * k == f * (k * kInv) && 0 * k == 0 && f * 1 == f;
      CongSym(f * (k * kInv), f, n);
      CongTrans(f, f * kInv * k, 0, n);
      CongIffSameMod(f, 0, n);
    }
  }

  // ---- Which private keys a full key has ----

  /**
   VerifyFullKey is exact: under a generated declared key whose X takes the full width, a private key is accepted if
   and only if it is the generated one, modulo the order.
   */
  lemma OnlyTheKeyVerifies(s: System, ms: nat, userSk: nat, userId: bytes, w: nat, sk: nat)
    requires Lawful(s) && s.base != Infinity
    ensures MultipleIsMemberOf(s, userSk) && MultipleIsMemberOf(s, ms)
    ensures var master := Multiple(s.g, ms, s.base);
            var (t, declared) := KgcPartialKey(s, ms, userId, Multiple(s.g, userSk, s.base), w);
            |Minimal(declared.x)| == s.byteLen ==>
              (VerifyFullKey(s, master, sk, declared, userId) <==> sk % s.n == (t + userSk) % s.n)
  {
    hide Lambda, Prime, Abelian, Multiple, Minimal, FromBigEndian;
    FullKeyEquation(s, ms, userSk, userId, w);
    var (t, declared) := KgcPartialKey(s, ms, userId, Multiple(s.g, userSk, s.base), w);
    DeclaredKeySplitsIffFullWidth(s, declared);
    MultipleInjective(s.g, s.n, sk, (t + userSk) % s.n, s.base);
    DivModUnique((t + userSk) % s.n, s.n, 0, (t + userSk) % s.n);
  }

  /** A new user key is asked for exactly if the sum is a multiple of the order. */
  lemma FullKeyMissingIff(s: System, t: nat, userSk: nat)
    requires s.n > 0
    ensures UserFullKey(s, t, userSk) == None <==> exists q: nat :: t + userSk == s.n * q
    ensures UserFullKey(s, t, userSk).Some? ==>
              0 < UserFullKey(s, t, userSk).value < s.n && Cong(UserFullKey(s, t, userSk).value, t + userSk, s.n)
  {
    CongMod(t + userSk, s.n);
    if q: nat :| t + userSk == s.n * q {
      DivModUnique(t + userSk, s.n, q, 0);
    }
    if (t + userSk) % s.n == 0 {
      assert t + userSk == s.n * ((t + userSk) / s.n);
    }
  }

  // ---- Whose key it is ----

  /** What a key is made under besides the user id. */
  function Parameters(s: System, master: Point): bytes
    requires s.base.x >= 0 && s.base.y >= 0 && master.x >= 0 && master.y >= 0
  {
    Minimal(s.a) + Minimal(s.b) + Minimal(s.base.x) + Minimal(s.base.y) + Minimal(master.x) + Minimal(master.y)
  }

  /** The input names the user id, up to 64 KiB, and the parameters: two users never share one. */
  lemma InputNamesUser(s: System, s': System, master: Point, master': Point, a: bytes, b: bytes)
    requires s.base.x >= 0 && s.base.y >= 0 && master.x >= 0 && master.y >= 0
    requires s'.base.x >= 0 && s'.base.y >= 0 && master'.x >= 0 && master'.y >= 0
    requires |a| < 0x1_0000 && |b| < 0x1_0000
    ensures InfoInput(s, master, a) == InfoInput(s', master', b) <==> a == b && Parameters(s, master) == Parameters(s', master')
  {
    InputIs(s, master, a);
    InputIs(s', master', b);
    hide InfoInput, Parameters;
    if InfoInput(s, master, a) == InfoInput(s', master', b) {
      SameParts(a, Parameters(s, master), b, Parameters(s', master'));
    }
  }

  function LengthOf(userId: bytes): bytes {
    [|userId| / 256 % 256, |userId| % 256]
  }

  lemma InputIs(s: System, master: Point, userId: bytes)
    requires s.base.x >= 0 && s.base.y >= 0 && master.x >= 0 && master.y >= 0
    ensures InfoInput(s, master, userId) == LengthOf(userId) + userId + Parameters(s, master)
  {
    hide Minimal;
  }

  lemma SameParts(a: bytes, p: bytes, b: bytes, q: bytes)
    requires |a| < 0x1_0000 && |b| < 0x1_0000 && LengthOf(a) + a + p == LengthOf(b) + b + q
    ensures a == b && p == q
  {
    var x, y := LengthOf(a) + a + p, LengthOf(b) + b + q;
    assert x[0] == LengthOf(a)[0] && x[1] == LengthOf(a)[1] && y[0] == LengthOf(b)[0] && y[1] == LengthOf(b)[1];
    assert |a| == |b|;
    assert a == x[2..2 + |a|] && b == y[2..2 + |b|];
    assert p == x[2 + |a|..] && q == y[2 + |b|..];
  }

  /** For one user under one master key, the lambda input names the declared key's bytes. */
  lemma LambdaInputNamesKey(s: System, master: Point, p: Point, q: Point, userId: bytes)
    requires s.base.x >= 0 && s.base.y >= 0 && master.x >= 0 && master.y >= 0
    requires p.x >= 0 && p.y >= 0 && q.x >= 0 && q.y >= 0
    ensures LambdaInput(s, master, p, userId) == LambdaInput(s, master, q, userId) <==> Coordinates(p) == Coordinates(q)
  {
    hide Coordinates, InfoInput;
    var info, x, y := s.hash(InfoInput(s, master, userId)), Coordinates(p), Coordinates(q);
    if x + info == y + info {
      assert |x| == |y|;
      assert x == (x + info)[..|x|] && y == (y + info)[..|y|];
    }
  }

  /** The hash, reduced modulo the order where it is, does not collide on the inputs of two users' keys. */
  ghost predicate NoCollision(s: System, master: Point, declared: Point, a: bytes, b: bytes)
    requires s.n > 0 && declared.x >= 0 && declared.y >= 0
    requires s.base.x >= 0 && s.base.y >= 0 && master.x >= 0 && master.y >= 0
  {
    var x, y := LambdaInput(s, master, declared, a), LambdaInput(s, master, declared, b);
    && (s.hash(InfoInput(s, master, a)) == s.hash(InfoInput(s, master, b)) ==>
          InfoInput(s, master, a) == InfoInput(s, master, b))
    && (FromBigEndian(s.hash(x)) % s.n == FromBigEndian(s.hash(y)) % s.n ==> x == y)
  }

  /** Then different users have different lambdas for the same declared key. */
  lemma LambdaNamesUser(s: System, master: Point, declared: Point, a: bytes, b: bytes)
    requires s.n > 0 && declared.x >= 0 && declared.y >= 0
    requires s.base.x >= 0 && s.base.y >= 0 && master.x >= 0 && master.y >= 0
    requires |a| < 0x1_0000 && |b| < 0x1_0000 && NoCollision(s, master, declared, a, b)
    ensures Lambda(s, master, declared, a) == Lambda(s, master, declared, b) <==> a == b
  {
    hide Coordinates, InfoInput, FromBigEndian;
    InputNamesUser(s, s, master, master, a, b);
    var d, x, y := Coordinates(declared), s.hash(InfoInput(s, master, a)), s.hash(InfoInput(s, master, b));
    if d + x == d + y {
      assert (d + x)[|d|..] == (d + y)[|d|..];
    }
  }

  lemma SameSumSameLambda(n: nat, v: nat, x: nat, y: nat, ms: nat)
    requires Prime(n) && x < n && y < n && ms % n != 0 && (v + x * ms) % n == (v + y * ms) % n
    ensures x == y
  {
    hide Prime, Cong;
    CongIffSameMod(v + x * ms, v + y * ms, n);
    CongRefl(v, n);
    CongAdd(v + x * ms, v + y * ms, v, v, n);
    CongRefl(y * ms, n);
    CongAdd(x * ms, y * ms, y * ms, y * ms, n);
    assert x * ms - y * ms == (x - y) * ms;
    PrimeProduct(x - y, ms, n);
    SmallDifference(x, y, n);
  }

  /** A generated key, checked under some user id, passes if and only if it is the id that the key was issued for. */
  lemma KeyVerifiesForItsUserOnly(s: System, ms: nat, userSk: nat, a: bytes, b: bytes, w: nat)
    requires Lawful(s) && s.base != Infinity && ms % s.n != 0 && |a| < 0x1_0000 && |b| < 0x1_0000
    ensures MultipleIsMemberOf(s, userSk) && MultipleIsMemberOf(s, ms)
    ensures var master := Multiple(s.g, ms, s.base);
            var (t, declared) := KgcPartialKey(s, ms, a, Multiple(s.g, userSk, s.base), w);
            NoCollision(s, master, declared, a, b) && |Minimal(declared.x)| == s.byteLen ==>
              (VerifyFullKey(s, master, (t + userSk) % s.n, declared, b) <==> a == b)
  {
    hide Lambda, Prime, Abelian, Multiple, Minimal, FromBigEndian, NoCollision;
    FullKeyEquation(s, ms, userSk, a, w);
    var master := Multiple(s.g, ms, s.base);
    var (t, declared) := KgcPartialKey(s, ms, a, Multiple(s.g, userSk, s.base), w);
    DeclaredKeySplitsIffFullWidth(s, declared);
    if NoCollision(s, master, declared, a, b) {
      LambdaNamesUser(s, master, declared, a, b);
      LambdaBound(s, master, declared, a);
      LambdaBound(s, master, declared, b);
      SameKeyIff(s, ms, userSk, w, Lambda(s, master, declared, a), Lambda(s, master, declared, b));
    }
  }

  lemma SameKeyIff(s: System, ms: nat, userSk: nat, w: nat, x: nat, y: nat)
    requires Lawful(s) && s.base != Infinity && ms % s.n != 0 && x < s.n && y < s.n
    ensures var master := Multiple(s.g, ms, s.base);
            var declared := s.g.add(Multiple(s.g, w, s.base), Multiple(s.g, userSk, s.base));
            s.g.add(declared, Multiple(s.g, x, master)) == s.g.add(declared, Multiple(s.g, y, master)) <==> x == y
  {
    hide Prime, Abelian, Multiple;
    KeyOf(s, ms, userSk, w, x);
    KeyOf(s, ms, userSk, w, y);
    MultipleInjective(s.g, s.n, w + userSk + x * ms, w + userSk + y * ms, s.base);
    if (w + userSk + x * ms) % s.n == (w + userSk + y * ms) % s.n {
      SameSumSameLambda(s.n, w + userSk, x, y, ms);
    }
  }

  lemma KeyOf(s: System, ms: nat, userSk: nat, w: nat, lambda: nat)
    requires Lawful(s)
    ensures Multiple(s.g, w + userSk + lambda * ms, s.base)
         == s.g.add(s.g.add(Multiple(s.g, w, s.base), Multiple(s.g, userSk, s.base)),
                    Multiple(s.g, lambda, Multiple(s.g, ms, s.base)))
  {
    hide Prime, Abelian, Multiple;
    KeySum(s.g, w, userSk, lambda * ms, s.base);
    assert w + lambda * ms + userSk == w + userSk + lambda * ms;
    MultipleOfMultiple(s.g, lambda, ms, s.base);
  }

  lemma LambdaBound(s: System, master: Point, declared: Point, userId: bytes)
    requires s.n > 0 && declared.x >= 0 && declared.y >= 0
    requires s.base.x >= 0 && s.base.y >= 0 && master.x >= 0 && master.y >= 0
    ensures Lambda(s, master, declared, userId) < s.n
  {
  }

  /** Cutting inside the first number changes it too. */
  lemma SplitTooEarly(a: nat, b: nat, n: nat)
    requires n < |Minimal(a)|
    ensures FromBigEndian((Minimal(a) + Minimal(b))[..n]) != a
  {
    assert (Minimal(a) + Minimal(b))[..n] == Minimal(a)[..n];
    MinimalLength(a, n);
  }

  /** s takes as many bytes as r, or one more. */
  predicate Balanced(signature: (nat, nat)) {
    |Minimal(signature.1)| == |Minimal(signature.0)| || |Minimal(signature.1)| == |Minimal(signature.0)| + 1
  }

  /** Splitting in the middle recovers the signature exactly when it is balanced. */
  lemma SignatureSplitsIffBalanced(r: nat, sig: nat)
    ensures SplitSignature(Minimal(r) + Minimal(sig)) == (r, sig) <==> Balanced((r, sig))
  {
    hide Minimal, FromBigEndian;
    var x, y := Minimal(r), Minimal(sig);
    var half := |x + y| / 2;
    MinimalRoundTrip(r);
    MinimalRoundTrip(sig);
    if |x| == half {
      assert (x + y)[..half] == x && (x + y)[half..] == y;
    } else if |x| < half {
      SplitTooLate(r, sig, half);
    } else {
      SplitTooEarly(r, sig, half);
    }
  }

  /**
   From key generation to verification: a signature made with a generated key verifies under its declared key,
   if the declared X takes the full width and the two halves of the signature are balanced.
   */
  lemma SignedMessageVerifies(s: System, ms: nat, userSk: nat, userId: bytes, w: nat, message: bytes, k: nat)
    requires Lawful(s) && k < s.n
    ensures MultipleIsMemberOf(s, userSk) && MultipleIsMemberOf(s, ms)
    ensures var master := Multiple(s.g, ms, s.base);
            var (t, declared) := KgcPartialKey(s, ms, userId, Multiple(s.g, userSk, s.base), w);
            var sk := UserFullKey(s, t, userSk);
            sk.Some? && |Minimal(declared.x)| == s.byteLen && Sign(s, Minimal(sk.value), message, k).Some? ==>
              var (r, sig) := Sign(s, Minimal(sk.value), message, k).value;
              Balanced((r, sig)) ==>
                Verify(s, master, Coordinates(declared), userId, message, Minimal(r) + Minimal(sig))
  {
    hide Lambda, Prime, VerifyWith, FullPublicKey, Sign, SplitSignature;
    GeneratedKeyVerifies(s, ms, userSk, userId, w);
    var (t, declared) := KgcPartialKey(s, ms, userId, Multiple(s.g, userSk, s.base), w);
    var sk := UserFullKey(s, t, userSk);
    if sk.Some? && Sign(s, Minimal(sk.value), message, k).Some? {
      var (r, sig) := Sign(s, Minimal(sk.value), message, k).value;
      MinimalRoundTrip(sk.value);
      SignatureVerifies(s, Minimal(sk.value), message, k);
      SignatureSplitsIffBalanced(r, sig);
    }
  }

  /** For instance: with coordinates of two bytes, the point (1, 515) is taken for (258, 3). */
  lemma ShortKeySplitsWrong(s: System)
    requires s.byteLen == 2
    ensures SplitDeclared(s, Coordinates(Point(1, 515))) == Some(Point(258, 3))
  {
    assert Minimal(1) == [] + [1];
    assert Minimal(515) == Minimal(2) + [3] && Minimal(2) == [] + [2];
    var all := Coordinates(Point(1, 515));
    assert all == [1, 2, 3] && all[..2] == [1, 2] && all[2..] == [3];
    assert [1, 2][..1] == [1] && [1][..0] == [] && [3][..0] == [];
  }

  /** For instance: the signature (256, 1) is taken for (1, 1). */
  lemma LopsidedSignatureSplitsWrong()
    ensures SplitSignature(Minimal(256) + Minimal(1)) == (1, 1)
  {
    assert Minimal(1) == [] + [1];
    assert Minimal(256) == Minimal(1) + [0];
    var all: bytes := Minimal(256) + Minimal(1);
    assert all == [1, 0, 1] && all[..1] == [1] && all[1..] == [0, 1];
    assert [0, 1][..1] == [0] && [0][..0] == [] && [1][..0] == [];
  }

  // ---- On the repository's own curves ----

  /** A system over CustomStandardCurve; associativity of its addition is the one law that is assumed. */
  ghost predicate OverCurve(s: System, c: Params) {
    && Prime(c.p) && NoTwoTorsion(c) && AddAssociates(c)
    && s.g == OpsOf(c) && s.g.member(s.base)
    && Prime(s.n) && s.n > 1 && Multiple(s.g, s.n, s.base) == Infinity
    && s.byteLen > 0 && c.p <= Pow256(s.byteLen)
  }

  lemma OverCurveIsLawful(s: System, c: Params)
    requires OverCurve(s, c)
    ensures Lawful(s)
    ensures forall p, q :: s.g.member(p) && s.g.member(q) ==> Add(c, p, q) == Some(s.g.add(p, q))
  {
    hide Add, IsOnCurve, AddAssociates, NoTwoTorsion, Abelian, Prime;
    CurveIsAbelian(c);
  }

  /** ScalarMult on the bytes of a number is the multiple. */
  lemma ScalarMultOfNumber(s: System, c: Params, k: nat, p: Point)
    requires OverCurve(s, c) && s.g.member(p)
    ensures DoubleAndAdd(c, Infinity, p, FromBigEndian(Minimal(k))) == Some(Multiple(s.g, k, p))
    ensures s.g.member(Multiple(s.g, k, p))
  {
    hide Add, IsOnCurve, AddAssociates, NoTwoTorsion, Prime, Multiple, OpsOf, Abelian;
    MinimalRoundTrip(k);
    ScalarMultIsMultiple(c, p, Minimal(k));
    CurveIsAbelian(c);
    MultipleIsMember(s.g, k, p);
  }

  /** ScalarMult with a number's bytes, for any point; None is a panic. */
  function TimesOn(c: Params, p: Point, k: nat): Option<Point>
    requires c.p > 0
  {
    DoubleAndAdd(c, Infinity, p, FromBigEndian(Minimal(k)))
  }

  predicate Defined(s: System, master: Point, c: Params) {
    c.p > 0 && s.n > 0 && s.base.x >= 0 && s.base.y >= 0 && master.x >= 0 && master.y >= 0
  }

  /** CalculateFullPublicKey for any bytes, with the curve's own operations. */
  function PublicKeyOn(c: Params, s: System, master: Point, declared: bytes, userId: bytes): Option<Point>
    requires Defined(s, master, c)
  {
    match SplitDeclared(s, declared)
    case None => None
    case Some(p) =>
      match TimesOn(c, master, Lambda(s, master, p, userId))
      case None => None
      case Some(scaled) => Add(c, p, scaled)
  }

  /** VerifyFullKey likewise. */
  function FullKeyOn(c: Params, s: System, master: Point, sk: nat, declared: Point, userId: bytes): Option<bool>
    requires Defined(s, master, c) && declared.x >= 0 && declared.y >= 0
  {
    var publicKey, fromPrivate := PublicKeyOn(c, s, master, Coordinates(declared), userId), TimesOn(c, s.base, sk);
    if publicKey == None || fromPrivate == None then None else Some(publicKey == fromPrivate)
  }

  predicate InRange(s: System, r: nat, sig: nat) {
    0 < r < s.n && 0 < sig < s.n
  }

  /** Verify likewise. */
  function VerifyOn(c: Params, s: System, master: Point, declared: bytes, userId: bytes, message: bytes,
                    signature: bytes): Option<bool>
    requires Defined(s, master, c)
  {
    var (r, sig) := SplitSignature(signature);
    if !InRange(s, r, sig) then Some(false)
    else
      match ModInverse(sig, s.n)
      case NoInverse => None
      case Inverse(w) =>
        match PublicKeyOn(c, s, master, declared, userId)
        case None => None
        case Some(q) =>
          var p1 := TimesOn(c, s.base, (FromBigEndian(s.hash(message)) * w) % s.n);
          var p2 := TimesOn(c, q, (r * w) % s.n);
          if p1 == None || p2 == None then None
          else
            match Add(c, p1.value, p2.value)
            case None => None
            case Some(p) => Some(p.x % s.n == r)
  }

  /** A declared key shorter than one coordinate makes CalculateFullPublicKey panic, whatever the curve. */
  lemma ShortKeyPanics(c: Params, s: System, master: Point, declared: bytes, userId: bytes, message: bytes,
                       signature: bytes)
    requires Defined(s, master, c) && |declared| < s.byteLen
    ensures PublicKeyOn(c, s, master, declared, userId) == None
    ensures var (r, sig) := SplitSignature(signature);
            VerifyOn(c, s, master, declared, userId, message, signature) == if InRange(s, r, sig) then None else Some(false)
  {
    hide ModInverse;
  }

  /** The declared key splits into a point of the curve. */
  predicate OnCurveKey(s: System, declared: bytes) {
    SplitDeclared(s, declared).Some? && s.g.member(SplitDeclared(s, declared).value)
  }

  lemma PublicKeyAgrees(s: System, c: Params, master: Point, declared: bytes, userId: bytes)
    requires OverCurve(s, c) && Lawful(s) && s.g.member(master) && Defined(s, master, c) && OnCurveKey(s, declared)
    ensures var q := PublicKeyOn(c, s, master, declared, userId);
            q.Some? && s.g.member(q.value) && q == FullPublicKey(s, master, declared, userId)
  {
    hide Multiple, Lambda, Add, DoubleAndAdd, Prime, OverCurve;
    var p := SplitDeclared(s, declared).value;
    var lambda := Lambda(s, master, p, userId);
    ScalarMultOfNumber(s, c, lambda, master);
    OverCurveIsLawful(s, c);
    AbelianClosed(s.g, p, Multiple(s.g, lambda, master));
  }

  /** For keys on the curve nothing panics, and the verdict is the specified one. */
  lemma FullKeyAgrees(s: System, c: Params, master: Point, sk: nat, declared: Point, userId: bytes)
    requires OverCurve(s, c) && Lawful(s) && s.g.member(master) && Defined(s, master, c)
    requires declared.x >= 0 && declared.y >= 0 && OnCurveKey(s, Coordinates(declared))
    ensures FullKeyOn(c, s, master, sk, declared, userId) == Some(VerifyFullKey(s, master, sk, declared, userId))
  {
    hide OverCurve, Multiple, FullPublicKey, PublicKeyOn, DoubleAndAdd, Lawful;
    BaseIsMember(s);
    PublicKeyAgrees(s, c, master, Coordinates(declared), userId);
    ScalarMultOfNumber(s, c, sk, s.base);
  }

  lemma VerifyAgrees(s: System, c: Params, master: Point, declared: bytes, userId: bytes, message: bytes, signature: bytes)
    requires OverCurve(s, c) && Lawful(s) && s.g.member(master) && Defined(s, master, c) && OnCurveKey(s, declared)
    ensures VerifyOn(c, s, master, declared, userId, message, signature)
         == Some(Verify(s, master, declared, userId, message, signature))
  {
    hide OverCurve, Multiple, FullPublicKey, PublicKeyOn, DoubleAndAdd, Add, ModInverse, FromBigEndian, Abelian, Prime, Minimal;
    PublicKeyAgrees(s, c, master, declared, userId);
    var q := PublicKeyOn(c, s, master, declared, userId).value;
    var (r, sig) := SplitSignature(signature);
    if InRange(s, r, sig) {
      InverseExists(s, sig);
      var w := ModInverse(sig, s.n).value;
      var u1, u2 := (FromBigEndian(s.hash(message)) * w) % s.n, (r * w) % s.n;
      BaseIsMember(s);
      ScalarMultOfNumber(s, c, u1, s.base);
      ScalarMultOfNumber(s, c, u2, q);
      OverCurveIsLawful(s, c);
      assert Add(c, Multiple(s.g, u1, s.base), Multiple(s.g, u2, q))
          == Some(s.g.add(Multiple(s.g, u1, s.base), Multiple(s.g, u2, q)));
    }
  }

  lemma InverseExists(s: System, v: nat)
    requires Lawful(s) && 0 < v < s.n
    ensures ModInverse(v, s.n).Inverse?
  {
    hide ModInverse;
    PrimeInverse(v, s.n);
    DivModUnique(v, s.n, 0, v);
  }

  /** UserImpl, with the part of KGCImpl that issues keys, over a curve object. */
  class UserImpl {
    const curve: CustomStandardCurve
    const system: System
    const master: Point

    ghost predicate Valid() {
      OverCurve(system, curve.params) && system.g.member(master)
    }

    constructor (curve: CustomStandardCurve, system: System, master: Point)
      requires OverCurve(system, curve.params) && system.g.member(master)
      ensures Valid() && this.curve == curve && this.system == system && this.master == master
    {
      this.curve, this.system, this.master := curve, system, master;
    }

    /** ScalarMult with a number's bytes never panics on points of the curve. */
    method Times(p: Point, k: nat) returns (r: Point)
      requires Valid() && system.g.member(p)
      ensures r == Multiple(system.g, k, p) && system.g.member(r)
    {
      hide OverCurve, DoubleAndAdd, Multiple;
      ScalarMultOfNumber(system, curve.params, k, p);
      CurveHasField(system, curve.params);
      var sum := curve.ScalarMult(p, Minimal(k));
      r := sum.value;
    }

    method Plus(p: Point, q: Point) returns (r: Point)
      requires Valid() && system.g.member(p) && system.g.member(q)
      ensures r == system.g.add(p, q) && system.g.member(r)
    {
      hide OverCurve, Add, Abelian;
      OverCurveIsLawful(system, curve.params);
      CurveHasField(system, curve.params);
      r := Add(curve.params, p, q).value;
      AbelianClosed(system.g, p, q);
    }

    /** GenerateKGCUserPartialKey with the random w. */
    method GeneratePartialKey(ms: nat, userId: bytes, partialPub: Point, w: nat) returns (t: nat, declared: Point)
      requires Valid() && Lawful(system) && system.g.member(partialPub) && master == Multiple(system.g, ms, system.base)
      ensures (t, declared) == KgcPartialKey(system, ms, userId, partialPub, w) && system.g.member(declared)
    {
      hide OverCurve, Lawful, Multiple, Abelian, Lambda;
      LawfulFacts(system);
      var wG := Times(system.base, w);
      declared := Plus(wG, partialPub);
      MemberBounds(system, declared);
      MemberBounds(system, master);
      t := (w + Lambda(system, master, declared, userId) * ms) % system.n;
    }

    /** For any bytes; None is a panic. */
    method CalculateFullPublicKey(declared: bytes, userId: bytes) returns (q: Option<Point>)
      requires Defined(system, master, curve.params)
      ensures q == PublicKeyOn(curve.params, system, master, declared, userId)
    {
      hide Lambda, Add, DoubleAndAdd, FromBigEndian, Minimal;
      var p := SplitDeclared(system, declared);
      if p == None { return None; }
      var scaled := curve.ScalarMult(master, Minimal(Lambda(system, master, p.value, userId)));
      if scaled == None { return None; }
      q := Add(curve.params, p.value, scaled.value);
    }

    method CheckFullKey(sk: nat, declared: Point, userId: bytes) returns (ok: Option<bool>)
      requires Defined(system, master, curve.params) && declared.x >= 0 && declared.y >= 0
      ensures ok == FullKeyOn(curve.params, system, master, sk, declared, userId)
    {
      hide PublicKeyOn, DoubleAndAdd, FromBigEndian, Minimal;
      var publicKey := CalculateFullPublicKey(Coordinates(declared), userId);
      if publicKey == None { return None; }
      var fromPrivate := curve.ScalarMult(system.base, Minimal(sk));
      if fromPrivate == None { return None; }
      ok := Some(publicKey == fromPrivate);
    }

    method SignMessage(prk: bytes, message: bytes, k: nat) returns (signature: Option<(nat, nat)>)
      requires Valid() && Lawful(system) && 0 < k < system.n
      ensures signature == Sign(system, prk, message, k)
    {
      hide OverCurve, Multiple, Abelian, ModInverse, FromBigEndian;
      var kG := Times(system.base, k);
      var r := kG.x % system.n;
      if r == 0 { return None; }
      match ModInverse(k, system.n) {
        case NoInverse => return None;
        case Inverse(kInv) =>
          var rda := r * FromBigEndian(prk);
          var sig := ((rda + FromBigEndian(system.hash(message))) * kInv) % system.n;
          if sig == 0 { return None; }
          signature := Some((r, sig));
      }
    }

    method VerifyMessage(declared: bytes, userId: bytes, message: bytes, signature: bytes) returns (ok: Option<bool>)
      requires Defined(system, master, curve.params)
      ensures ok == VerifyOn(curve.params, system, master, declared, userId, message, signature)
    {
      hide PublicKeyOn, DoubleAndAdd, FromBigEndian, Minimal, Add, ModInverse, SplitSignature;
      var (r, sig) := SplitSignature(signature);
      if r == 0 || r >= system.n || sig == 0 || sig >= system.n { return Some(false); }
      var e := FromBigEndian(system.hash(message));
      match ModInverse(sig, system.n) {
        case NoInverse => return None;
        case Inverse(w) =>
          var u1, u2 := (e * w) % system.n, (r * w) % system.n;
          var publicKey := CalculateFullPublicKey(declared, userId);
          if publicKey == None { return None; }
          var p1 := curve.ScalarMult(system.base, Minimal(u1));
          if p1 == None { return None; }
          var p2 := curve.ScalarMult(publicKey.value, Minimal(u2));
          if p2 == None { return None; }
          var p := Add(curve.params, p1.value, p2.value);
          ok := if p == None then None else Some(p.value.x % system.n == r);
      }
    }
  }

  /**
   A key is issued, checked and used to sign, and the signature is verified, all through the curve's own Add and
   ScalarMult, with no other test than the program makes. issued is false for an error that asks for new random
   numbers. A key whose declared X takes the full width is recognised, and a balanced signature of its is accepted.
   */
  method IssueSignVerify(user: UserImpl, ms: nat, userSk: nat, userId: bytes, w: nat, message: bytes, k: nat)
    returns (issued: bool, known: Option<bool>, genuine: Option<bool>)
    requires user.Valid() && user.master == Multiple(user.system.g, ms, user.system.base)
    requires Lawful(user.system) && 0 < k < user.system.n
    ensures MultipleIsMemberOf(user.system, userSk)
    ensures var s := user.system;
            var (t, declared) := KgcPartialKey(s, ms, userId, Multiple(s.g, userSk, s.base), w);
            var sk := UserFullKey(s, t, userSk);
            var signature := if sk.Some? then Sign(s, Minimal(sk.value), message, k) else None;
            && (issued <==> signature.Some?)
            && (issued && |Minimal(declared.x)| == s.byteLen ==> known == Some(true))
            && (issued && |Minimal(declared.x)| == s.byteLen && Balanced(signature.value) ==> genuine == Some(true))
  {
    hide OverCurve, Multiple, Abelian, Prime, Verify, VerifyFullKey, Sign, KgcPartialKey, FullKeyOn, VerifyOn, Lawful;
    ghost var s, c := user.system, user.curve.params;
    issued, known, genuine := false, None, None;
    BaseIsMember(s);
    LawfulFacts(s);
    MemberBounds(s, user.master);
    CurveHasField(s, c);
    var u := user.Times(user.system.base, userSk);
    var t, declared := user.GeneratePartialKey(ms, userId, u, w);
    MemberBounds(s, declared);
    var sk := UserFullKey(user.system, t, userSk);
    if sk == None { return; }
    var signature := user.SignMessage(Minimal(sk.value), message, k);
    if signature == None { return; }
    var (r, sig) := signature.value;
    issued := true;
    known := user.CheckFullKey(sk.value, declared, userId);
    genuine := user.VerifyMessage(Coordinates(declared), userId, message, Minimal(r) + Minimal(sig));
    if |Minimal(declared.x)| == s.byteLen {
      DeclaredKeySplitsIffFullWidth(s, declared);
      FullKeyAgrees(s, c, user.master, sk.value, declared, userId);
      GeneratedKeyVerifies(s, ms, userSk, userId, w);
      VerifyAgrees(s, c, user.master, Coordinates(declared), userId, message, Minimal(r) + Minimal(sig));
      SignedMessageVerifies(s, ms, userSk, userId, w, message, k);
    }
  }

  lemma CurveHasField(s: System, c: Params)
    requires OverCurve(s, c)
    ensures c.p > 0
  {
  }

  lemma BaseIsMember(s: System)
    requires Lawful(s)
    ensures s.g.member(s.base)
  {
  }

  lemma AbelianClosed(g: Ops, p: Point, q: Point)
    requires Abelian(g) && g.member(p) && g.member(q)
    ensures g.member(g.add(p, q))
  {
  }

  /**
   Verify is exact for generated keys: whatever the signature's bytes, they verify if and only if their halves are what
   signing the message with some nonce gives.
   */
  lemma SignatureBytesVerifyIffSigned(s: System, ms: nat, userSk: nat, userId: bytes, w: nat, message: bytes,
                                      signature: bytes)
    requires Lawful(s)
    ensures MultipleIsMemberOf(s, userSk) && MultipleIsMemberOf(s, ms)
    ensures var master := Multiple(s.g, ms, s.base);
            var (t, declared) := KgcPartialKey(s, ms, userId, Multiple(s.g, userSk, s.base), w);
            |Minimal(declared.x)| == s.byteLen ==>
              (Verify(s, master, Coordinates(declared), userId, message, signature)
               <==> WasSigned(s, Minimal((t + userSk) % s.n), message, SplitSignature(signature)))
  {
    hide Lambda, Prime, VerifyWith, Sign, SplitSignature, Abelian, Multiple, Minimal, FromBigEndian;
    FullKeyEquation(s, ms, userSk, userId, w);
    var (t, declared) := KgcPartialKey(s, ms, userId, Multiple(s.g, userSk, s.base), w);
    DeclaredKeySplitsIffFullWidth(s, declared);
    var (r, sig) := SplitSignature(signature);
    MinimalRoundTrip((t + userSk) % s.n);
    VerifiesIffSigned(s, Minimal((t + userSk) % s.n), message, r, sig);
  }

  // ---- The laws are consistent ----

  function TwoAdd(p: Point, q: Point): Point {
    if p == Infinity then q else if q == Infinity then p else Infinity
  }

  predicate TwoMember(p: Point) {
    p == Infinity || p == Point(1, 0)
  }

  /** A group of order two: infinity and one more point. */
  const TwoPoints: System := System(
    Ops((p, q) => TwoAdd(p, q), p => TwoMember(p)), Point(1, 0), 2, 1, 0, 0, m => [1])

  lemma TwoPointsOrder()
    ensures Multiple(TwoPoints.g, 2, TwoPoints.base) == Infinity
  {
    var g, base := TwoPoints.g, TwoPoints.base;
    assert Multiple(g, 1, base) == g.add(base, Multiple(g, 0, base));
    assert Multiple(g, 2, base) == g.add(base, Multiple(g, 1, base));
  }

  /** And over a curve: y^2 = x^3 + 4x + 2 over the field of five elements has order three. */
  lemma SystemOverCurveExists()
    ensures OverCurve(System(OpsOf(SmallCurve), Point(3, 1), 3, 1, 4, 2, m => [1]), SmallCurve)
  {
    ThreePointsAssociate();
    TripleIsInfinity();
    SmallPrimes();
    assert Pow256(1) == 256 * Pow256(0);
    hide Add, AddAssociates, NoTwoTorsion, Multiple, Prime, Pow256;
  }

  lemma SmallPrimes()
    ensures Prime(3) && Prime(5)
  {
  }

  lemma TripleIsInfinity()
    ensures Multiple(OpsOf(SmallCurve), 3, Point(3, 1)) == Infinity
  {
    hide Add;
    var g, p := OpsOf(SmallCurve), Point(3, 1);
    SmallDoubles();
    SmallSums(Point(3, 1));
    SmallSums(Point(3, 4));
    assert Multiple(g, 1, p) == g.add(p, Multiple(g, 0, p));
    assert Multiple(g, 2, p) == g.add(p, Multiple(g, 1, p));
    assert Multiple(g, 3, p) == g.add(p, Multiple(g, 2, p));
  }

  lemma LawfulSystemExists()
    ensures Lawful(TwoPoints)
  {
    TwoPointsOrder();
    assert Pow256(1) == 256 * Pow256(0);
    hide Multiple, Pow256;
  }
}
