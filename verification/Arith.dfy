/** Division facts, congruences, and modular inverses: the part of math/big that the proofs rest on. */
module Arith {

  lemma MulMonotone(d: nat, a: int, b: int)
    requires a <= b
    ensures d * a <= d * b
  {
  }

  lemma DivModUnique(x: int, d: int, q: int, r: int)
    requires d > 0 && x == d * q + r && 0 <= r < d
    ensures x / d == q && x % d == r
  {
    var q' := x / d;
    assert x == d * q' + x % d;
    assert d * (q' + 1) == d * q' + d && d * (q + 1) == d * q + d;
    if q > q' {
      MulMonotone(d, q' + 1, q);
    } else if q < q' {
      MulMonotone(d, q + 1, q');
    }
  }

  /** Division of naturals. */
  function Quotient(v: nat, d: nat): nat
    requires d > 0
  {
    v / d
  }

  lemma QuotientBound(v: nat, d: nat, count: nat)
    requires d > 0 && v < count * d
    ensures Quotient(v, d) < count
  {
    var q := v / d;
    assert v == d * q + v % d;
    if q >= count {
      MulMonotone(d, count, q);
    }
  }

  // ---- Congruence ----

  ghost predicate Cong(a: int, b: int, m: int)
    requires m > 0
  {
    exists k :: a - b == m * k
  }

  lemma CongBy(a: int, b: int, m: int, k: int)
    requires m > 0 && a - b == m * k
    ensures Cong(a, b, m)
  {
  }

  lemma CongMod(a: int, m: int)
    requires m > 0
    ensures Cong(a, a % m, m) && Cong(a % m, a, m)
  {
    CongBy(a, a % m, m, a / m);
    CongBy(a % m, a, m, -(a / m));
  }

  lemma CongRefl(a: int, m: int)
    requires m > 0
    ensures Cong(a, a, m)
  {
    CongBy(a, a, m, 0);
  }

  lemma CongSym(a: int, b: int, m: int)
    requires m > 0 && Cong(a, b, m)
    ensures Cong(b, a, m)
  {
    var k :| a - b == m * k;
    CongBy(b, a, m, -k);
  }

  lemma CongTrans(a: int, b: int, c: int, m: int)
    requires m > 0 && Cong(a, b, m) && Cong(b, c, m)
    ensures Cong(a, c, m)
  {
    var k :| a - b == m * k;
    var l :| b - c == m * l;
    CongBy(a, c, m, k + l);
  }

  lemma CongAdd(a: int, b: int, c: int, d: int, m: int)
    requires m > 0 && Cong(a, b, m) && Cong(c, d, m)
    ensures Cong(a + c, b + d, m)
    ensures Cong(a - c, b - d, m)
  {
    var k :| a - b == m * k;
    var l :| c - d == m * l;
    CongBy(a + c, b + d, m, k + l);
    CongBy(a - c, b - d, m, k - l);
  }

  lemma CongMul(a: int, b: int, c: int, d: int, m: int)
    requires m > 0 && Cong(a, b, m) && Cong(c, d, m)
    ensures Cong(a * c, b * d, m)
  {
    var k :| a - b == m * k;
    var l :| c - d == m * l;
    assert a * c - b * d == m * (k * c + b * l) by {
      assert a * c - b * d == (a - b) * c + b * (c - d);
      assert m * (k * c + b * l) == (m * k) * c + b * (m * l);
    }
    CongBy(a * c, b * d, m, k * c + b * l);
  }

  /** Congruent numbers have the same remainder, and the other way round. */
  lemma CongIffSameMod(a: int, b: int, m: int)
    requires m > 0
    ensures Cong(a, b, m) <==> a % m == b % m
  {
    if Cong(a, b, m) {
      var k :| a - b == m * k;
      assert a == m * (b / m + k) + b % m;
      DivModUnique(a, m, b / m + k, b % m);
    }
    if a % m == b % m {
      CongBy(a, b, m, a / m - b / m);
    }
  }

  // ---- Primes and ModInverse ----

  ghost predicate Prime(p: nat) {
    p > 1 && forall d :: 1 < d < p ==> p % d != 0
  }

  function BackStep(q: int, x: int, y: int): int {
    x - q * y
  }

  lemma EuclidStep(b: int, q: int, r: int, x: int, y: int)
    ensures (b * q + r) * y + b * BackStep(q, x, y) == b * x + r * y
  {
    assert (b * q) * y == b * (q * y);
  }

  /** g == a*x + b*y, and g divides both: the extended Euclidean algorithm. */
  function ExtendedGcd(a: nat, b: nat): (r: (nat, int, int))
    requires a > 0 || b > 0
    ensures a * r.1 + b * r.2 == r.0
    decreases b
  {
    if b == 0 then (a, 1, 0)
    else
      var (g, x, y) := ExtendedGcd(b, a % b);
      EuclidStep(b, a / b, a % b, x, y);
      (g, y, BackStep(a / b, x, y))
  }

  ghost predicate Divides(g: int, a: int) {
    exists k :: a == g * k
  }

  lemma DividesItself(a: int)
    ensures Divides(a, a) && Divides(a, 0)
  {
    assert a == a * 1 && 0 == a * 0;
  }

  lemma DividesSum(g: int, b: int, q: int, r: int)
    requires Divides(g, b) && Divides(g, r)
    ensures Divides(g, b * q + r)
  {
    var k :| b == g * k;
    var l :| r == g * l;
    assert g * k * q == g * (k * q);
    assert b * q + r == g * (k * q + l);
  }

  lemma {:induction false} GcdDivides(a: nat, b: nat)
    requires a > 0 || b > 0
    ensures ExtendedGcd(a, b).0 > 0
    ensures Divides(ExtendedGcd(a, b).0, a) && Divides(ExtendedGcd(a, b).0, b)
    decreases b
  {
    hide Divides, BackStep;
    if b == 0 {
      DividesItself(a);
    } else {
      var q, r := a / b, a % b;
      assert a == b * q + r;
      GcdDivides(b, r);
      DividesSum(ExtendedGcd(a, b).0, b, q, r);
    }
  }

  datatype Inverse = NoInverse | Inverse(value: nat)

  /** big.Int.ModInverse: nil when a and m share a factor. */
  function ModInverse(a: int, m: nat): (r: Inverse)
    requires m > 0
    ensures r.Inverse? ==> r.value < m && Cong(a * r.value, 1, m)
  {
    var (g, x, y) := ExtendedGcd(a % m, m);
    if g != 1 then NoInverse
    else
      var i := x % m;
      assert Cong(a * i, 1, m) by {
        CongBy((a % m) * x, 1, m, -y);
        CongMod(a, m);
        CongMod(x, m);
        CongMul(a, a % m, i, x, m);
        CongTrans(a * i, (a % m) * x, 1, m);
      }
      Inverse(i)
  }

  /** Modulo a prime only the multiples of the prime have no inverse. */
  lemma PrimeInverse(a: int, p: nat)
    requires Prime(p)
    ensures ModInverse(a, p).Inverse? <==> a % p != 0
  {
    var g := ExtendedGcd(a % p, p).0;
    GcdDivides(a % p, p);
    if a % p == 0 && g == 1 {
      var y := ExtendedGcd(a % p, p).2;
      assert 1 == p * y + 0;
      DivModUnique(1, p, y, 0);
      DivModUnique(1, p, 0, 1);
    }
    if a % p != 0 {
      var k :| p == g * k;
      var l :| a % p == g * l;
      if g >= p {
        MulMonotone(g, 1, l);
      } else {
        DivModUnique(p, g, k, 0);
      }
    }
  }

  /** A prime that divides a product divides a factor. */
  lemma PrimeProduct(a: int, b: int, p: nat)
    requires Prime(p) && Cong(a * b, 0, p)
    ensures a % p == 0 || b % p == 0
  {
    if a % p != 0 {
      PrimeInverse(a, p);
      var i := ModInverse(a, p).value;
      CongRefl(i, p);
      CongMul(a * b, 0, i, i, p);
      CongRefl(b, p);
      CongMul(a * i, 1, b, b, p);
      assert a * b * i == a * i * b;
      CongSym(a * i * b, 1 * b, p);
      CongTrans(b, a * b * i, 0, p);
      CongIffSameMod(b, 0, p);
    }
  }
}
