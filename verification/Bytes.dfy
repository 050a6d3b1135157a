/** Bytes, byte strings, and the integer encodings the repository uses on the wire. */
module Bytes {

  type byte = x: int | 0 <= x < 256

  type bytes = seq<byte>

  datatype Option<+T> = None | Some(value: T)

  function Zeros(n: nat): (s: bytes)
    ensures |s| == n
    ensures forall i :: 0 <= i < n ==> s[i] == 0
  {
    seq(n, _ => 0)
  }

  /** 256 to the n, the number of values that n bytes can hold. */
  function Pow256(n: nat): (p: nat)
    ensures 0 < p
  {
    if n == 0 then 1 else 256 * Pow256(n - 1)
  }

  // ---- Big-endian integers: binary.BigEndian, and SetBytes of math/big ----

  /** The low n bytes of v, most significant first. */
  function BigEndian(v: nat, n: nat): (s: bytes)
    ensures |s| == n
  {
    if n == 0 then [] else BigEndian(v / 256, n - 1) + [v % 256]
  }

  function FromBigEndian(s: bytes): (v: nat)
    ensures v < Pow256(|s|)
  {
    if s == [] then 0 else 256 * FromBigEndian(s[..|s| - 1]) + s[|s| - 1]
  }

  lemma {:induction false} BigEndianRoundTrip(v: nat, n: nat)
    requires v < Pow256(n)
    ensures FromBigEndian(BigEndian(v, n)) == v
  {
    if n > 0 {
      BigEndianRoundTrip(v / 256, n - 1);
      assert BigEndian(v, n)[..n - 1] == BigEndian(v / 256, n - 1);
    }
  }

  lemma {:induction false} FromBigEndianRoundTrip(s: bytes)
    ensures BigEndian(FromBigEndian(s), |s|) == s
  {
    if s != [] {
      FromBigEndianRoundTrip(s[..|s| - 1]);
      var v := FromBigEndian(s);
      assert v / 256 == FromBigEndian(s[..|s| - 1]) && v % 256 == s[|s| - 1];
    }
  }

  lemma {:induction false} FromBigEndianConcat(a: bytes, b: bytes)
    ensures FromBigEndian(a + b) == FromBigEndian(a) * Pow256(|b|) + FromBigEndian(b)
  {
    if b == [] {
      assert a + b == a;
    } else {
      var b' := b[..|b| - 1];
      FromBigEndianConcat(a, b');
      assert (a + b)[..|a + b| - 1] == a + b' && (a + b)[|a + b| - 1] == b[|b| - 1];
      ShiftByte(FromBigEndian(a), Pow256(|b'|), FromBigEndian(b'), b[|b| - 1]);
    }
  }

  lemma ShiftByte(x: nat, p: nat, y: nat, last: byte)
    ensures 256 * (x * p + y) + last == x * (256 * p) + (256 * y + last)
  {
    assert 256 * (x * p) == x * (256 * p);
  }

  // ---- Little-endian integers: binary.LittleEndian ----

  function LittleEndian(v: nat, n: nat): (s: bytes)
    ensures |s| == n
  {
    if n == 0 then [] else [v % 256] + LittleEndian(v / 256, n - 1)
  }

  function FromLittleEndian(s: bytes): (v: nat)
    ensures v < Pow256(|s|)
  {
    if s == [] then 0 else s[0] + 256 * FromLittleEndian(s[1..])
  }

  lemma {:induction false} LittleEndianRoundTrip(v: nat, n: nat)
    requires v < Pow256(n)
    ensures FromLittleEndian(LittleEndian(v, n)) == v
  {
    if n > 0 {
      LittleEndianRoundTrip(v / 256, n - 1);
      assert LittleEndian(v, n)[1..] == LittleEndian(v / 256, n - 1);
    }
  }

  lemma {:induction false} LittleEndianPrefix(v: nat, n: nat)
    ensures LittleEndian(v, n + 1)[..n] == LittleEndian(v, n)
  {
    if n > 0 {
      LittleEndianPrefix(v / 256, n - 1);
      assert LittleEndian(v, n + 1)[..n] == [v % 256] + LittleEndian(v / 256, n)[..n - 1];
    }
  }

  // ---- Go's fixed-width integers ----

  const U16: nat := 0x1_0000
  const U32: nat := 0x1_0000_0000
  const U64: nat := 0x1_0000_0000_0000_0000
  const I64_MIN: int := -0x8000_0000_0000_0000
  const I64_MAX: int := 0x7fff_ffff_ffff_ffff

  type uint64 = x: int | 0 <= x < U64
  type int64 = x: int | I64_MIN <= x <= I64_MAX

  /** The int64 that v wraps to: Go's signed arithmetic overflows silently. */
  function WrapI64(v: int): int64 {
    (v - I64_MIN) % U64 + I64_MIN
  }

  /** uint64(x): the two's complement bit pattern of an int64. */
  function AsUint64(x: int64): uint64 {
    x % U64
  }

  /** The sizes of the words above, for the encodings of 2, 4 and 8 bytes. */
  lemma PowersOfWords()
    ensures Pow256(1) == 256 && Pow256(2) == U16 && Pow256(3) == 0x100_0000
    ensures Pow256(4) == U32 && Pow256(8) == U64
  {
    assert Pow256(0) == 1;
    assert Pow256(1) == 256 * Pow256(0);
    assert Pow256(2) == 256 * Pow256(1);
    assert Pow256(3) == 256 * Pow256(2);
    assert Pow256(4) == 256 * Pow256(3);
    assert Pow256(5) == 256 * Pow256(4);
    assert Pow256(6) == 256 * Pow256(5);
    assert Pow256(7) == 256 * Pow256(6);
    assert Pow256(8) == 256 * Pow256(7);
  }

  // ---- Bitwise operations on naturals, one bit at a time ----

  function Or(a: nat, b: nat): nat {
    if a == 0 then b
    else if b == 0 then a
    else 2 * Or(a / 2, b / 2) + (if a % 2 == 1 || b % 2 == 1 then 1 else 0)
  }

  function Xor(a: nat, b: nat): nat {
    if a == 0 then b
    else if b == 0 then a
    else 2 * Xor(a / 2, b / 2) + (a + b) % 2
  }

  lemma OrHalves(a: nat, b: nat)
    ensures Or(a, b) / 2 == Or(a / 2, b / 2)
    ensures Or(a, b) % 2 == if a % 2 == 1 || b % 2 == 1 then 1 else 0
  {
  }

  function LowBits(x: nat, n: nat): nat {
    if n == 0 then 0 else 2 * LowBits(x / 2, n - 1) + x % 2
  }

  function HighBits(x: nat, n: nat): nat {
    if n == 0 then x else HighBits(x / 2, n - 1)
  }

  lemma OrZero(a: nat, zero: nat)
    requires zero == 0
    ensures Or(a, zero) == a
  {
  }

  /** Or acts separately on the low n bits and on the rest. */
  lemma {:induction false} OrSplits(a: nat, b: nat, n: nat)
    ensures LowBits(Or(a, b), n) == Or(LowBits(a, n), LowBits(b, n))
    ensures HighBits(Or(a, b), n) == Or(HighBits(a, n), HighBits(b, n))
  {
    hide Or;
    if n > 0 {
      OrSplits(a / 2, b / 2, n - 1);
      OrHalves(a, b);
      OrHalves(LowBits(a, n), LowBits(b, n));
    } else {
      OrZero(0, 0);
    }
  }

  lemma TwoBits(x: nat)
    ensures LowBits(x, 2) == x % 4 && HighBits(x, 2) == x / 4
  {
    assert LowBits(x / 2 / 2, 0) == 0 && HighBits(x / 2 / 2, 0) == x / 2 / 2;
    assert LowBits(x / 2, 1) == x / 2 % 2 && HighBits(x / 2, 1) == x / 2 / 2;
  }

  lemma ThreeBits(x: nat)
    ensures LowBits(x, 3) == x % 8 && HighBits(x, 3) == x / 8
  {
    TwoBits(x / 2);
  }

  lemma FourBits(x: nat)
    ensures LowBits(x, 4) == x % 16 && HighBits(x, 4) == x / 16
  {
    ThreeBits(x / 2);
  }

  lemma {:induction false} OrBound(a: nat, b: nat, bound: nat, bits: nat)
    requires bound == Pow2(bits) && a < bound && b < bound
    ensures Or(a, b) < bound
  {
    if a != 0 && b != 0 {
      OrBound(a / 2, b / 2, Pow2(bits - 1), bits - 1);
    }
  }

  lemma Pow2Values()
    ensures Pow2(8) == 256 && Pow2(32) == U32
  {
    Pow2Sum(4, 4);
    Pow2Sum(8, 8);
    Pow2Sum(16, 16);
    assert Pow2(4) == 2 * Pow2(3);
    assert Pow2(3) == 2 * Pow2(2);
  }

  lemma {:induction false} Pow2Sum(m: nat, n: nat)
    ensures Pow2(m + n) == Pow2(m) * Pow2(n)
  {
    if m > 0 {
      Pow2Sum(m - 1, n);
      assert 2 * (Pow2(m - 1) * Pow2(n)) == (2 * Pow2(m - 1)) * Pow2(n);
    }
  }

  function OrByte(a: byte, b: byte): byte {
    Pow2Values();
    OrBound(a, b, 256, 8);
    Or(a, b)
  }

  lemma XorHalves(a: nat, b: nat)
    ensures Xor(a, b) / 2 == Xor(a / 2, b / 2)
    ensures Xor(a, b) % 2 == (a + b) % 2
  {
  }

  lemma {:induction false} XorCancels(a: nat, b: nat)
    ensures Xor(a, Xor(a, b)) == b
  {
    if a != 0 {
      XorCancels(a / 2, b / 2);
      XorHalves(a, b);
      XorHalves(a, Xor(a, b));
    }
  }

  /** Two n-byte words give an n-byte word. */
  lemma {:induction false} XorBound(a: nat, b: nat, bound: nat, bits: nat)
    requires bound == Pow2(bits) && a < bound && b < bound
    ensures Xor(a, b) < bound
  {
    if a != 0 && b != 0 {
      XorBound(a / 2, b / 2, Pow2(bits - 1), bits - 1);
    }
  }

  function Pow2(n: nat): (p: nat)
    ensures 0 < p
  {
    if n == 0 then 1 else 2 * Pow2(n - 1)
  }

  // ---- Writing into a buffer ----

  /** buf with the bytes of s written from offset off. */
  function Splice(buf: bytes, off: nat, s: bytes): (r: bytes)
    requires off + |s| <= |buf|
    ensures |r| == |buf|
  {
    buf[..off] + s + buf[off + |s|..]
  }

  lemma SpliceInside(buf: bytes, off: nat, s: bytes)
    requires off + |s| <= |buf|
    ensures Splice(buf, off, s)[off..off + |s|] == s
  {
  }

  lemma SpliceOutside(buf: bytes, off: nat, s: bytes, lo: nat, hi: nat)
    requires off + |s| <= |buf| && lo <= hi <= |buf|
    requires hi <= off || off + |s| <= lo
    ensures Splice(buf, off, s)[lo..hi] == buf[lo..hi]
  {
  }
}
