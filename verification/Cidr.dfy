/** The address enumeration of endpoints/ac/msghandler.go: incrementIP, and the loop over a CIDR block. */
module Cidr {
  import opened Bytes
  import opened Arith

  // ---- incrementIP ----

  /** The address with one added to its last byte, and a carry for every byte that was 255. */
  function Increment(ip: bytes): (r: bytes)
    ensures |r| == |ip|
  {
    if ip == [] then []
    else
      var front, last := ip[..|ip| - 1], ip[|ip| - 1];
      if last == 255 then Increment(front) + [0] else front + [last + 1]
  }

  /** That is addition of one on the big-endian number, wrapping at the top of the address space. */
  lemma {:induction false} IncrementIsAddition(ip: bytes)
    ensures FromBigEndian(Increment(ip)) == (FromBigEndian(ip) + 1) % Pow256(|ip|)
  {
    if ip != [] {
      var front, last, p := ip[..|ip| - 1], ip[|ip| - 1], Pow256(|ip| - 1);
      var h := FromBigEndian(front);
      if last == 255 {
        IncrementIsAddition(front);
        var r := Increment(front) + [0];
        assert r[..|r| - 1] == Increment(front);
        CarryMod(h, p);
      } else {
        var r := front + [last + 1];
        assert r[..|r| - 1] == front;
        DivModUnique(256 * h + last + 1, 256 * p, 0, 256 * h + last + 1);
      }
    }
  }

  lemma CarryMod(h: nat, p: nat)
    requires h < p
    ensures 256 * ((h + 1) % p) == (256 * h + 255 + 1) % (256 * p)
  {
    if h + 1 < p {
      DivModUnique(h + 1, p, 0, h + 1);
      DivModUnique(256 * (h + 1), 256 * p, 0, 256 * (h + 1));
    } else {
      DivModUnique(p, p, 1, 0);
      DivModUnique(256 * p, 256 * p, 1, 0);
    }
  }

  method IncrementIP(ip: array<byte>)
    modifies ip
    ensures ip[..] == Increment(old(ip[..]))
  {
    ghost var start := ip[..];
    var j := ip.Length - 1;
    assert start[..j + 1] == start;
    while j >= 0
      invariant -1 <= j < ip.Length
      invariant ip[..j + 1] == start[..j + 1] && ip[j + 1..] == Zeros(ip.Length - 1 - j)
      invariant Increment(start) == Increment(start[..j + 1]) + Zeros(ip.Length - 1 - j)
    {
      assert start[..j + 1][..j] == start[..j];
      assert ip[j] == start[..j + 1][j];
      var next: int := ip[j];
      ip[j] := (next + 1) % 256;
      if ip[j] > 0 {
        assert ip[..] == start[..j] + [ip[j]] + ip[j + 1..];
        return;
      }
      assert [0] + Zeros(ip.Length - 1 - j) == Zeros(ip.Length - j);
      j := j - 1;
    }
    assert ip[..] == ip[..j + 1] + ip[j + 1..];
  }

  // ---- The block ----

  /** How many addresses a prefix of the given length leaves free, for addresses of n bytes. */
  function BlockSize(n: nat, prefix: nat): (r: nat)
    requires prefix <= 8 * n
    ensures r > 0
  {
    Pow2(8 * n - prefix)
  }

  /** The number of the block that an address lies in: its prefix bits. */
  function BlockOf(ip: bytes, prefix: nat): nat
    requires prefix <= 8 * |ip|
  {
    Quotient(FromBigEndian(ip), BlockSize(|ip|, prefix))
  }

  /** IP.Mask, as a number. */
  function Network(ip: bytes, prefix: nat): nat
    requires prefix <= 8 * |ip|
  {
    BlockSize(|ip|, prefix) * BlockOf(ip, prefix)
  }

  /** The last 32 bits of ::ffff:0:0/96 hold an IPv4 address: To4 takes such a 16-byte address for one. */
  const MAPPED: nat := 0xffff

  predicate MappedNumber(n: nat, v: nat) {
    n == 16 && Quotient(v, U32) == MAPPED
  }

  /** To4 of a 16-byte address: ten zero bytes and two of 255 before the last four. */
  lemma MappedIffPrefix(ip: bytes)
    requires |ip| == 16
    ensures MappedNumber(16, FromBigEndian(ip)) <==> ip[..12] == Zeros(10) + [255, 255]
  {
    hide FromBigEndian, Pow256;
    assert ip == ip[..12] + ip[12..];
    FromBigEndianConcat(ip[..12], ip[12..]);
    PowersOfWords();
    var high, low := FromBigEndian(ip[..12]), FromBigEndian(ip[12..]);
    DivModUnique(FromBigEndian(ip), U32, high, low);
    MappedPrefix();
    var prefix: bytes := Zeros(10) + [255, 255];
    FromBigEndianRoundTrip(ip[..12]);
    FromBigEndianRoundTrip(prefix);
  }

  lemma MappedPrefix()
    ensures FromBigEndian(Zeros(10) + [255, 255]) == MAPPED
  {
    FromBigEndianConcat(Zeros(10), [255, 255]);
    ZerosAreZero(10);
    assert [255, 255][..1] == [255] && [255][..0] == [];
  }

  lemma {:induction false} ZerosAreZero(n: nat)
    ensures FromBigEndian(Zeros(n)) == 0
  {
    if n > 0 {
      ZerosAreZero(n - 1);
      assert Zeros(n)[..n - 1] == Zeros(n - 1);
    }
  }

  /** IPNet.Contains: the masked bits agree, and the address is of the same kind as the network's. */
  predicate Contains(block: nat, prefix: nat, ip: bytes)
    requires prefix <= 8 * |ip|
  {
    && BlockOf(ip, prefix) == block
    && (MappedNumber(|ip|, FromBigEndian(ip)) <==> MappedNumber(|ip|, BlockSize(|ip|, prefix) * block))
  }

  /** The one block of each shorter IPv6 prefix that the mapped addresses lie in. */
  predicate Straddles(n: nat, prefix: nat, block: nat)
    requires prefix <= 8 * n
  {
    n == 16 && prefix < 96 && Quotient(MAPPED * U32, BlockSize(n, prefix)) == block
  }

  /** How far the enumeration of a block gets: where the mapped addresses begin it stops. */
  function VisitCount(n: nat, prefix: nat, block: nat): nat
    requires prefix <= 8 * n
  {
    if Straddles(n, prefix, block) then (MAPPED * U32) % BlockSize(n, prefix) else BlockSize(n, prefix)
  }

  /** So the whole block is visited unless it straddles the mapped addresses. */
  lemma WholeBlockIff(n: nat, prefix: nat, block: nat)
    requires prefix <= 8 * n
    ensures VisitCount(n, prefix, block) == BlockSize(n, prefix) <==> !Straddles(n, prefix, block)
    ensures VisitCount(n, prefix, block) <= BlockSize(n, prefix)
  {
    hide BlockSize, Straddles;
    Remainder(MAPPED * U32, BlockSize(n, prefix));
  }

  lemma Remainder(v: nat, d: nat)
    requires d > 0
    ensures v % d < d && v == d * Quotient(v, d) + v % d
  {
  }

  lemma QuotientTwice(v: nat, a: nat, b: nat)
    requires a > 0 && b > 0
    ensures a * b > 0 && Quotient(Quotient(v, a), b) == Quotient(v, a * b)
  {
    var q, r := v / a, v % a;
    Remainder(v, a);
    Remainder(q, b);
    var rest := q % b;
    MulMonotone(a, rest + 1, b);
    assert a * (rest + 1) == a * rest + a;
    assert a * (b * (q / b) + rest) == a * b * (q / b) + a * rest;
    DivModUnique(v, a * b, q / b, a * rest + r);
  }

  lemma SameRange(size: nat, m: nat, q: nat, i: nat)
    requires i < size && m > 0 && size * m == U32
    ensures Quotient(size * q + i, U32) == Quotient(size * q, U32)
  {
    QuotientTwice(size * q + i, size, m);
    QuotientTwice(size * q, size, m);
    DivModUnique(size * q + i, size, q, i);
    DivModUnique(size * q, size, q, 0);
  }

  /** From prefix 96 on a block is of one kind. */
  lemma LongPrefixIsOneKind(prefix: nat, q: nat, i: nat)
    requires 96 <= prefix <= 128 && i < BlockSize(16, prefix)
    ensures MappedNumber(16, BlockSize(16, prefix) * q + i) <==> MappedNumber(16, BlockSize(16, prefix) * q)
  {
    Pow2Values();
    Pow2Sum(128 - prefix, prefix - 96);
    SameRange(BlockSize(16, prefix), Pow2(prefix - 96), q, i);
  }

  lemma EvenPower(n: nat)
    requires n > 0
    ensures Pow2(n) % 2 == 0
  {
    assert Pow2(n) == 2 * Pow2(n - 1);
  }

  /** Below, a block has an even number of ranges of 2^32 addresses, and only one block has the mapped range. */
  lemma ShortPrefixSize(prefix: nat) returns (h: nat)
    requires prefix < 96
    ensures h > 0 && h % 2 == 0 && BlockSize(16, prefix) == U32 * h
  {
    h := Pow2(96 - prefix);
    EvenPower(96 - prefix);
    Pow2Values();
    hide Pow2;
    assert 8 * 16 - prefix == 32 + (96 - prefix);
    Pow2Sum(32, 96 - prefix);
  }

  lemma OnlyOneMappedBlock(prefix: nat, q: nat, i: nat)
    requires prefix < 96 && i < BlockSize(16, prefix) && MappedNumber(16, BlockSize(16, prefix) * q + i)
    ensures Straddles(16, prefix, q)
  {
    var h := ShortPrefixSize(prefix);
    var size := BlockSize(16, prefix);
    hide BlockSize;
    QuotientTwice(size * q + i, U32, h);
    QuotientTwice(MAPPED * U32, U32, h);
    DivModUnique(size * q + i, size, q, i);
    DivModUnique(MAPPED * U32, U32, MAPPED, 0);
  }

  lemma OddRemainder(h: nat)
    requires h > 0 && h % 2 == 0
    ensures (MAPPED * U32) % (U32 * h) > 0
  {
    var q, r, k := Quotient(MAPPED, h), MAPPED % h, h / 2;
    Remainder(MAPPED, h);
    assert h * q == 2 * (k * q) by { assert h == 2 * k; }
    assert r != 0;
    assert MAPPED * U32 == U32 * h * q + U32 * r by { assert U32 * (h * q + r) == U32 * h * q + U32 * r; }
    MulMonotone(U32, r + 1, h);
    DivModUnique(MAPPED * U32, U32 * h, q, U32 * r);
  }

  lemma StraddlingBlock(prefix: nat, q: nat, i: nat)
    requires prefix < 96 && Straddles(16, prefix, q)
    ensures 0 < VisitCount(16, prefix, q) < BlockSize(16, prefix)
    ensures i < VisitCount(16, prefix, q) ==> !MappedNumber(16, BlockSize(16, prefix) * q + i)
    ensures i == VisitCount(16, prefix, q) ==> MappedNumber(16, BlockSize(16, prefix) * q + i)
  {
    var h := ShortPrefixSize(prefix);
    var size := BlockSize(16, prefix);
    OddRemainder(h);
    Remainder(MAPPED * U32, size);
    hide BlockSize;
    var v := size * q + i;
    if i < VisitCount(16, prefix, q) {
      assert v < MAPPED * U32;
      QuotientBound(v, U32, MAPPED);
    } else if i == VisitCount(16, prefix, q) {
      DivModUnique(v, U32, MAPPED, 0);
    }
  }

  /** The i-th address is of the kind of the first exactly as long as i is below the count. */
  predicate KindsUpTo(n: nat, prefix: nat, q: nat, i: nat)
    requires prefix <= 8 * n
  {
    var size, count := BlockSize(n, prefix), VisitCount(n, prefix, q);
    count > 0 && ((MappedNumber(n, size * q + i) <==> MappedNumber(n, size * q)) <==> i < count)
  }

  lemma KindsWithoutMapped(prefix: nat, q: nat, i: nat)
    requires prefix <= 128 && i < BlockSize(16, prefix) && !Straddles(16, prefix, q)
    ensures KindsUpTo(16, prefix, q, i)
  {
    NoStraddle(16, prefix, q);
    if prefix >= 96 {
      LongPrefixIsOneKind(prefix, q, i);
    } else {
      hide BlockSize, MappedNumber, VisitCount, Straddles;
      var size := BlockSize(16, prefix);
      assert size * q + 0 == size * q;
      if MappedNumber(16, size * q + i) {
        OnlyOneMappedBlock(prefix, q, i);
      }
      if MappedNumber(16, size * q + 0) {
        OnlyOneMappedBlock(prefix, q, 0);
      }
    }
  }

  lemma KindsWithMapped(prefix: nat, q: nat, i: nat)
    requires prefix < 96 && Straddles(16, prefix, q) && i <= VisitCount(16, prefix, q)
    ensures KindsUpTo(16, prefix, q, i)
  {
    hide BlockSize, MappedNumber, VisitCount, Straddles;
    StraddlingBlock(prefix, q, i);
    StraddlingBlock(prefix, q, 0);
    assert BlockSize(16, prefix) * q + 0 == BlockSize(16, prefix) * q;
  }

  /** Which addresses of a block are of the kind of its first. */
  lemma KindsInBlock(n: nat, prefix: nat, q: nat, i: nat)
    requires prefix <= 8 * n && i < BlockSize(n, prefix) && i <= VisitCount(n, prefix, q)
    ensures KindsUpTo(n, prefix, q, i)
  {
    if n == 16 {
      hide BlockSize, MappedNumber, VisitCount, KindsUpTo;
      if Straddles(n, prefix, q) {
        KindsWithMapped(prefix, q, i);
      } else {
        KindsWithoutMapped(prefix, q, i);
      }
    }
  }

  lemma NoStraddle(n: nat, prefix: nat, q: nat)
    requires prefix <= 8 * n && !Straddles(n, prefix, q)
    ensures VisitCount(n, prefix, q) == BlockSize(n, prefix)
  {
  }

  lemma {:induction false} Pow256IsPow2(n: nat)
    ensures Pow256(n) == Pow2(8 * n)
  {
    if n > 0 {
      Pow256IsPow2(n - 1);
      Pow2Values();
      Pow2Sum(8, 8 * (n - 1));
    }
  }

  /** The blocks of a prefix tile the address space. */
  lemma BlocksTile(n: nat, prefix: nat)
    requires prefix <= 8 * n
    ensures Pow256(n) == Pow2(prefix) * BlockSize(n, prefix)
  {
    Pow256IsPow2(n);
    Pow2Sum(prefix, 8 * n - prefix);
  }

  /** The number behind a block, modulo the address space, lies in another block if there are two at least. */
  lemma NextBlock(size: nat, count: nat, q: nat)
    requires size > 0 && count >= 2 && q < count
    ensures size * q + size <= count * size
    ensures (size * q + size) % (count * size) / size != q
  {
    var v, all := size * q + size, count * size;
    assert v == size * (q + 1) && all == size * count;
    MulMonotone(size, q + 1, count);
    if q + 1 < count {
      MulMonotone(size, q + 2, count);
      assert size * (q + 2) == v + size;
      DivModUnique(v, all, 0, v);
      DivModUnique(v, size, q + 1, 0);
    } else {
      DivModUnique(v, all, 1, 0);
      DivModUnique(0, size, 0, 0);
    }
  }

  lemma BlockNumberBound(ip: bytes, prefix: nat)
    requires prefix <= 8 * |ip|
    ensures BlockOf(ip, prefix) < Pow2(prefix)
  {
    hide FromBigEndian;
    BlocksTile(|ip|, prefix);
    QuotientBound(FromBigEndian(ip), BlockSize(|ip|, prefix), Pow2(prefix));
  }

  /** The i-th address of a block, as long as i is below the size. */
  lemma InsideBlock(size: nat, q: nat, i: nat, all: nat)
    requires i < size && size * q + size <= all
    ensures (size * q + i) % all == size * q + i && (size * q + i) / size == q
  {
    DivModUnique(size * q + i, all, 0, size * q + i);
    DivModUnique(size * q + i, size, q, i);
  }

  lemma ModSucc(v: nat, all: nat)
    requires all > 0
    ensures (v % all + 1) % all == (v + 1) % all
  {
    CongMod(v, all);
    CongRefl(1, all);
    CongAdd(v % all, v, 1, 1, all);
    CongIffSameMod(v % all + 1, v + 1, all);
  }

  /** The i-th number of a block, and the one behind the last. */
  lemma AddressAt(n: nat, prefix: nat, q: nat, i: nat)
    requires 1 <= prefix <= 8 * n && q < Pow2(prefix) && i <= BlockSize(n, prefix)
    ensures var size, v := BlockSize(n, prefix), (BlockSize(n, prefix) * q + i) % Pow256(n);
            (Quotient(v, size) == q <==> i < size) && (i < size ==> v == size * q + i)
  {
    var size := BlockSize(n, prefix);
    BlocksTile(n, prefix);
    assert Pow2(prefix) == 2 * Pow2(prefix - 1);
    hide BlockSize, Pow2, Pow256;
    NextBlock(size, Pow2(prefix), q);
    if i < size {
      InsideBlock(size, q, i, Pow256(n));
    }
  }

  /** What the loop condition says about the address reached after i steps. */
  lemma ContainsWithin(ip: bytes, prefix: nat, q: nat, i: nat)
    requires 1 <= prefix <= 8 * |ip| && q < Pow2(prefix) && i <= VisitCount(|ip|, prefix, q)
    requires FromBigEndian(ip) == (BlockSize(|ip|, prefix) * q + i) % Pow256(|ip|)
    ensures Contains(q, prefix, ip) <==> i < VisitCount(|ip|, prefix, q)
    ensures i < VisitCount(|ip|, prefix, q) ==> FromBigEndian(ip) == BlockSize(|ip|, prefix) * q + i
  {
    var size := BlockSize(|ip|, prefix);
    WholeBlockIff(|ip|, prefix, q);
    AddressAt(|ip|, prefix, q, i);
    hide BlockSize, Pow2, Pow256, FromBigEndian, VisitCount, MappedNumber;
    if i < size {
      KindsInBlock(|ip|, prefix, q, i);
    }
  }

  /**
   The loop over a block: it terminates, also at the top of the address space, and visits the addresses of the
   block in order, each exactly once, up to where the mapped addresses begin. Each visit adds a rule.
   */
  method VisitBlock(ip: array<byte>, prefix: nat) returns (visited: seq<bytes>)
    requires 1 <= prefix <= 8 * ip.Length
    modifies ip
    ensures |visited| == VisitCount(ip.Length, prefix, BlockOf(old(ip[..]), prefix))
    ensures forall i :: 0 <= i < |visited| ==>
              |visited[i]| == ip.Length && FromBigEndian(visited[i]) == Network(old(ip[..]), prefix) + i
  {
    hide Pow2, Pow256, FromBigEndian, BigEndian, BlockSize, Increment, BlockOf, VisitCount, Contains;
    var block, network := BlockOf(ip[..], prefix), Network(ip[..], prefix);
    ghost var size, count := BlockSize(ip.Length, prefix), VisitCount(ip.Length, prefix, block);
    ghost var all := Pow256(ip.Length);
    WholeBlockIff(ip.Length, prefix, block);
    BlockNumberBound(ip[..], prefix);
    FirstAddress(ip[..], prefix);
    var masked := BigEndian(network, ip.Length);
    BigEndianRoundTrip(network, ip.Length);
    forall i | 0 <= i < ip.Length {
      ip[i] := masked[i];
    }
    assert ip[..] == masked;
    visited := [];
    ContainsWithin(ip[..], prefix, block, 0);
    while Contains(block, prefix, ip[..])
      invariant |visited| <= count
      invariant FromBigEndian(ip[..]) == (size * block + |visited|) % all
      invariant Contains(block, prefix, ip[..]) <==> |visited| < count
      invariant forall i :: 0 <= i < |visited| ==> |visited[i]| == ip.Length && FromBigEndian(visited[i]) == network + i
      decreases count - |visited|
    {
      ContainsWithin(ip[..], prefix, block, |visited|);
      IncrementIsAddition(ip[..]);
      ModSucc(size * block + |visited|, all);
      visited := visited + [ip[..]];
      IncrementIP(ip);
      ContainsWithin(ip[..], prefix, block, |visited|);
    }
  }

  lemma FirstAddress(ip: bytes, prefix: nat)
    requires 1 <= prefix <= 8 * |ip|
    ensures Network(ip, prefix) == BlockSize(|ip|, prefix) * BlockOf(ip, prefix)
    ensures Network(ip, prefix) < Pow256(|ip|)
    ensures Network(ip, prefix) % Pow256(|ip|) == Network(ip, prefix)
  {
    hide FromBigEndian;
    BlocksTile(|ip|, prefix);
    BlockNumberBound(ip, prefix);
    assert Pow2(prefix) == 2 * Pow2(prefix - 1);
    NextBlock(BlockSize(|ip|, prefix), Pow2(prefix), BlockOf(ip, prefix));
    InsideBlock(BlockSize(|ip|, prefix), BlockOf(ip, prefix), 0, Pow256(|ip|));
  }

  /** The blocks that the AC uses, /25 and /121, have 128 addresses. */
  lemma UsedBlocks(q: nat)
    ensures VisitCount(4, 25, q) == 128 && VisitCount(16, 121, q) == 128
  {
    Pow2Values();
    assert Pow2(8) == 2 * Pow2(7);
  }

  /** Without a prefix every address of the network's kind is in the one block: the enumeration would not end. */
  lemma PrefixZeroContainsAll(ip: bytes)
    ensures Contains(0, 0, ip) <==> !MappedNumber(|ip|, FromBigEndian(ip))
  {
    BlockNumberBound(ip, 0);
    assert BlockSize(|ip|, 0) * 0 == 0;
  }

  /** For IPv6 that still ends, before the mapped addresses; for IPv4 it does not. */
  lemma PrefixZeroEndsIff(n: nat)
    requires n == 4 || n == 16
    ensures (exists ip :: |ip| == n && !Contains(0, 0, ip)) <==> n == 16
  {
    hide FromBigEndian, BigEndian, Contains;
    forall ip: bytes | |ip| == n && !Contains(0, 0, ip) ensures n == 16 {
      PrefixZeroContainsAll(ip);
    }
    if n == 16 {
      var v := MAPPED * U32;
      var ip := BigEndian(v, 16);
      PowersOfWords();
      assert v < Pow256(16) by { Pow256Grows(8, 16); }
      BigEndianRoundTrip(v, 16);
      DivModUnique(v, U32, MAPPED, 0);
      PrefixZeroContainsAll(ip);
    }
  }

  lemma {:induction false} Pow256Grows(m: nat, n: nat)
    requires m <= n
    ensures Pow256(m) <= Pow256(n)
    decreases n - m
  {
    if m < n {
      Pow256Grows(m, n - 1);
    }
  }
}
