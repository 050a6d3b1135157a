/** CustomStandardCurve of endpoints/kgc/curve/curve.go: point addition stays on the curve. */
module Curve {
  import opened Bytes
  import opened Arith

  datatype Params = Params(p: nat, a: int, b: int)

  datatype Point = Point(x: int, y: int)

  /** The point at infinity is written (0, 0). */
  const Infinity: Point := Point(0, 0)

  predicate Reduced(c: Params, q: Point) {
    0 <= q.x < c.p && 0 <= q.y < c.p
  }

  function Cubic(c: Params, x: int): int {
    x * x * x + c.a * x + c.b
  }

  predicate IsOnCurve(c: Params, q: Point)
    requires c.p > 0
  {
    q == Infinity
    || (q.y * q.y) % c.p == ((q.x * q.x * q.x) % c.p + (c.a * q.x) % c.p + c.b) % c.p
  }

  predicate Opposite(c: Params, q1: Point, q2: Point) {
    q1.x == q2.x && q1.y == c.p - q2.y
  }

  function Numerator(c: Params, q1: Point, q2: Point): int
    requires c.p > 0
  {
    (if q1 == q2 then 3 * (q1.x * q1.x) + c.a else q2.y - q1.y) % c.p
  }

  function Denominator(c: Params, q1: Point, q2: Point): int
    requires c.p > 0
  {
    (if q1 == q2 then 2 * q1.y else q2.x - q1.x) % c.p
  }

  function ThirdX(c: Params, x1: int, x2: int, l: int): int
    requires c.p > 0
  {
    (l * l - x1 - x2) % c.p
  }

  /** The third intersection of the line of slope l through q1 and q2, mirrored. */
  function Chord(c: Params, q1: Point, q2: Point, l: int): Point
    requires c.p > 0
  {
    var x3 := ThirdX(c, q1.x, q2.x, l);
    Point(x3, ((q1.x - x3) * l - q1.y) % c.p)
  }

  /** None where ModInverse returns nil and Go panics. */
  function Add(c: Params, q1: Point, q2: Point): Option<Point>
    requires c.p > 0
  {
    if q1 == Infinity then Some(q2)
    else if q2 == Infinity then Some(q1)
    else if Opposite(c, q1, q2) then Some(Infinity)
    else
      match ModInverse(Denominator(c, q1, q2), c.p)
      case NoInverse => None
      case Inverse(i) => Some(Chord(c, q1, q2, (Numerator(c, q1, q2) * i) % c.p))
  }

  // ---- The curve equation as a congruence ----

  ghost predicate Solves(c: Params, x: int, y: int)
    requires c.p > 0
  {
    Cong(Cubic(c, x) - y * y, 0, c.p)
  }

  lemma OnCurveIffSolves(c: Params, q: Point)
    requires c.p > 0 && q != Infinity
    ensures IsOnCurve(c, q) <==> Solves(c, q.x, q.y)
  {
    var x3, ax, y2 := q.x * q.x * q.x, c.a * q.x, q.y * q.y;
    CongMod(x3, c.p);
    CongMod(ax, c.p);
    CongAdd(x3 % c.p, x3, ax % c.p, ax, c.p);
    CongRefl(c.b, c.p);
    CongAdd(x3 % c.p + ax % c.p, x3 + ax, c.b, c.b, c.p);
    CongIffSameMod(x3 % c.p + ax % c.p + c.b, x3 + ax + c.b, c.p);
    CongIffSameMod(y2, x3 + ax + c.b, c.p);
    CongIffZero(x3 + ax + c.b, y2, c.p);
  }

  lemma CongIffZero(u: int, v: int, m: int)
    requires m > 0
    ensures Cong(u - v, 0, m) <==> Cong(v, u, m)
  {
    if Cong(u - v, 0, m) {
      var k :| u - v - 0 == m * k;
      CongBy(v, u, m, -k);
    }
    if Cong(v, u, m) {
      var k :| v - u == m * k;
      CongBy(u - v, 0, m, -k);
    }
  }

  lemma CubicCong(c: Params, x: int, x': int)
    requires c.p > 0 && Cong(x, x', c.p)
    ensures Cong(Cubic(c, x), Cubic(c, x'), c.p)
  {
    CongMul(x, x', x, x', c.p);
    CongMul(x * x, x' * x', x, x', c.p);
    CongRefl(c.a, c.p);
    CongMul(c.a, c.a, x, x', c.p);
    CongRefl(c.b, c.p);
    CongAdd(x * x * x, x' * x' * x', c.a * x, c.a * x', c.p);
    CongAdd(x * x * x + c.a * x, x' * x' * x' + c.a * x', c.b, c.b, c.p);
  }

  lemma SolvesCong(c: Params, x: int, y: int, x': int, y': int)
    requires c.p > 0 && Cong(x, x', c.p) && Cong(y, y', c.p) && Solves(c, x', y')
    ensures Solves(c, x, y)
  {
    CubicCong(c, x, x');
    CongMul(y, y', y, y', c.p);
    CongAdd(Cubic(c, x), Cubic(c, x'), y * y, y' * y', c.p);
    CongTrans(Cubic(c, x) - y * y, Cubic(c, x') - y' * y', 0, c.p);
  }

  // ---- The geometry, as polynomial identities over the integers ----

  /** What is left of the cubic after a line through (x1, y1), at x, less the same at x1. */
  function Residue(c: Params, x1: int, y1: int, l: int, x: int): int {
    Cubic(c, x) - (l * (x - x1) + y1) * (l * (x - x1) + y1) - (Cubic(c, x1) - y1 * y1)
  }

  /** The residue divided by x - x1, for the two other roots x2 and l * l - x1 - x2. */
  function ChordQuotient(c: Params, x1: int, y1: int, l: int, x2: int): int {
    c.a - 2 * l * (y1 - l * x1) - (x1 * x2 + (x1 + x2) * (l * l - x1 - x2))
  }

  lemma ResidueAtThird(c: Params, x1: int, y1: int, l: int, x2: int)
    ensures var x3 := l * l - x1 - x2;
            Residue(c, x1, y1, l, x3) == ChordQuotient(c, x1, y1, l, x2) * (x3 - x1)
  {
  }

  lemma ResidueAtSecond(c: Params, x1: int, y1: int, l: int, x2: int)
    ensures Residue(c, x1, y1, l, x2) == ChordQuotient(c, x1, y1, l, x2) * (x2 - x1)
  {
  }

  lemma QuotientOfTangent(c: Params, x1: int, y1: int, l: int)
    ensures ChordQuotient(c, x1, y1, l, x1) == 3 * (x1 * x1) + c.a - 2 * y1 * l
  {
  }

  /** If the quotient vanishes modulo p, the chord ends on the curve. */
  lemma ChordSolves(c: Params, q1: Point, q2: Point, l: int)
    requires c.p > 0 && Solves(c, q1.x, q1.y) && Cong(ChordQuotient(c, q1.x, q1.y, l, q2.x), 0, c.p)
    ensures Solves(c, Chord(c, q1, q2, l).x, Chord(c, q1, q2, l).y)
  {
    hide Residue, ChordQuotient, Cubic;
    var x1, y1, x3 := q1.x, q1.y, l * l - q1.x - q2.x;
    var y3 := (x1 - x3) * l - y1;
    var quotient := ChordQuotient(c, x1, y1, l, q2.x);
    assert Solves(c, x3, y3) by {
      ResidueAtThird(c, x1, y1, l, q2.x);
      MirrorResidue(c, x1, y1, l, x3);
      CongRefl(x3 - x1, c.p);
      CongMul(quotient, 0, x3 - x1, x3 - x1, c.p);
      assert 0 * (x3 - x1) == 0;
      CongAdd(Cubic(c, x1) - y1 * y1, 0, quotient * (x3 - x1), 0, c.p);
    }
    var r := Chord(c, q1, q2, l);
    CongMod(x3, c.p);
    CongRefl(x1, c.p);
    CongRefl(y1, c.p);
    CongRefl(l, c.p);
    CongAdd(x1, x1, r.x, x3, c.p);
    CongMul(x1 - r.x, x1 - x3, l, l, c.p);
    CongAdd((x1 - r.x) * l, (x1 - x3) * l, y1, y1, c.p);
    CongMod((x1 - r.x) * l - y1, c.p);
    CongTrans(r.y, (x1 - r.x) * l - y1, y3, c.p);
    SolvesCong(c, r.x, r.y, x3, y3);
  }

  lemma MirrorResidue(c: Params, x1: int, y1: int, l: int, x3: int)
    ensures var y3 := (x1 - x3) * l - y1;
            Cubic(c, x3) - y3 * y3 == (Cubic(c, x1) - y1 * y1) + Residue(c, x1, y1, l, x3)
  {
    hide Cubic;
    var u, y3 := l * (x3 - x1) + y1, (x1 - x3) * l - y1;
    assert u == -y3 by { assert (x1 - x3) * l == -(l * (x3 - x1)); }
    assert u * u == y3 * y3;
  }

  lemma InverseCancels(den: int, n: int, i: int, p: nat)
    requires p > 0 && Cong(den * i, 1, p)
    ensures Cong(den * (n * i), n, p)
  {
    CongRefl(n, p);
    CongMul(den * i, 1, n, n, p);
    assert den * i * n == den * (n * i);
  }

  /** The computed slope times the unreduced denominator is the numerator, modulo p. */
  lemma SlopeCong(num: int, den: int, p: nat)
    requires p > 0 && ModInverse(den % p, p).Inverse?
    ensures Cong(den * ((num % p * ModInverse(den % p, p).value) % p), num, p)
  {
    var i := ModInverse(den % p, p).value;
    var d, n := den % p, num % p;
    var l := (n * i) % p;
    hide ModInverse;
    assert Cong(d * i, 1, p);
    CongMod(n * i, p);
    CongMod(num, p);
    CongMod(den, p);
    CongMul(den, d, l, n * i, p);
    InverseCancels(d, n, i, p);
    CongTrans(den * l, d * (n * i), n, p);
    CongTrans(den * l, n, num, p);
  }

  function Slope(c: Params, q1: Point, q2: Point, i: nat): int
    requires c.p > 0
  {
    (Numerator(c, q1, q2) * i) % c.p
  }

  lemma TangentQuotient(c: Params, q: Point, i: nat)
    requires c.p > 0 && ModInverse(Denominator(c, q, q), c.p) == Inverse(i)
    ensures Cong(ChordQuotient(c, q.x, q.y, Slope(c, q, q, i), q.x), 0, c.p)
  {
    hide ChordQuotient, ModInverse;
    var l, num := Slope(c, q, q, i), 3 * (q.x * q.x) + c.a;
    SlopeCong(num, 2 * q.y, c.p);
    QuotientOfTangent(c, q.x, q.y, l);
    CongSym(2 * q.y * l, num, c.p);
    CongRefl(2 * q.y * l, c.p);
    CongAdd(num, 2 * q.y * l, 2 * q.y * l, 2 * q.y * l, c.p);
  }

  /** The line that passes through the second point leaves nothing of the cubic there. */
  lemma ResidueVanishes(c: Params, q1: Point, q2: Point, l: int)
    requires c.p > 0 && Solves(c, q1.x, q1.y) && Solves(c, q2.x, q2.y)
    requires Cong((q2.x - q1.x) * l, q2.y - q1.y, c.p)
    ensures Cong(Residue(c, q1.x, q1.y, l, q2.x), 0, c.p)
  {
    hide Cubic;
    var dx, dy, f := q2.x - q1.x, q2.y - q1.y, Cubic(c, q2.x);
    var end := l * dx + q1.y;
    assert dx * l == l * dx;
    CongRefl(q1.y, c.p);
    CongAdd(l * dx, dy, q1.y, q1.y, c.p);
    CongMul(end, q2.y, end, q2.y, c.p);
    CongRefl(f, c.p);
    CongAdd(f, f, end * end, q2.y * q2.y, c.p);
    CongTrans(f - end * end, f - q2.y * q2.y, 0, c.p);
    CongAdd(f - end * end, 0, Cubic(c, q1.x) - q1.y * q1.y, 0, c.p);
  }

  lemma SecantQuotient(c: Params, q1: Point, q2: Point, i: nat)
    requires Prime(c.p) && ModInverse(Denominator(c, q1, q2), c.p) == Inverse(i)
    requires q1 != q2 && Solves(c, q1.x, q1.y) && Solves(c, q2.x, q2.y)
    ensures Cong(ChordQuotient(c, q1.x, q1.y, Slope(c, q1, q2, i), q2.x), 0, c.p)
  {
    hide ChordQuotient, ModInverse, Cubic, Residue, Solves;
    var l, dx, dy := Slope(c, q1, q2, i), q2.x - q1.x, q2.y - q1.y;
    var quotient := ChordQuotient(c, q1.x, q1.y, l, q2.x);
    SlopeCong(dy, dx, c.p);
    ResidueVanishes(c, q1, q2, l);
    ResidueAtSecond(c, q1.x, q1.y, l, q2.x);
    PrimeProduct(quotient, dx, c.p);
    InverseNonzero(dx, c.p);
    CongMod(quotient, c.p);
  }

  lemma InverseNonzero(d: int, p: nat)
    requires Prime(p) && ModInverse(d % p, p).Inverse?
    ensures d % p != 0
  {
    hide ModInverse;
    PrimeInverse(d % p, p);
    DivModUnique(d % p, p, 0, d % p);
  }

  // ---- Which denominators vanish ----

  /** Two points of the curve with the same x are equal or opposite. */
  lemma SameX(c: Params, q1: Point, q2: Point)
    requires Prime(c.p) && Reduced(c, q1) && Reduced(c, q2) && q1.x == q2.x
    requires Solves(c, q1.x, q1.y) && Solves(c, q2.x, q2.y)
    ensures q1.y == q2.y || Opposite(c, q1, q2)
  {
    hide Cubic;
    var f, u, v := Cubic(c, q1.x), q1.y, q2.y;
    CongAdd(f - v * v, 0, f - u * u, 0, c.p);
    assert (f - v * v) - (f - u * u) == (u - v) * (u + v);
    PrimeProduct(u - v, u + v, c.p);
    if (u - v) % c.p == 0 {
      SmallMultiple(u - v, c.p);
    } else {
      SmallMultiple(u + v, c.p);
    }
  }

  lemma SmallMultiple(v: int, p: int)
    requires p > 0 && -p < v < 2 * p && v % p == 0
    ensures v == 0 || v == p
  {
    var k := v / p;
    assert v == p * k;
    if k >= 2 {
      MulMonotone(p, 2, k);
    } else if k <= -1 {
      MulMonotone(p, k, -1);
    }
  }

  /** A point of order two: the tangent is vertical and its denominator is zero. */
  predicate TwoTorsion(q: Point) {
    q != Infinity && q.y == 0
  }

  lemma DenominatorZeroIff(c: Params, q1: Point, q2: Point)
    requires Prime(c.p) && Reduced(c, q1) && Reduced(c, q2) && IsOnCurve(c, q1) && IsOnCurve(c, q2)
    requires q1 != Infinity && q2 != Infinity && !Opposite(c, q1, q2)
    ensures ModInverse(Denominator(c, q1, q2), c.p).NoInverse? <==> q1 == q2 && q1.y == 0
  {
    hide Cubic, ModInverse;
    OnCurveIffSolves(c, q1);
    OnCurveIffSolves(c, q2);
    PrimeInverse(Denominator(c, q1, q2), c.p);
    var den := if q1 == q2 then 2 * q1.y else q2.x - q1.x;
    DivModUnique(den % c.p, c.p, 0, den % c.p);
    if den % c.p == 0 {
      SmallMultiple(den, c.p);
      if q1 != q2 {
        SameX(c, q1, q2);
      }
    } else if q1 == q2 && q1.y == 0 {
      DivModUnique(0, c.p, 0, 0);
    }
  }

  /**
   For every prime field and all coefficients: Add panics exactly when it doubles a point with y = 0, and
   otherwise its result is reduced and on the curve again, in all of its cases.
   */
  lemma AddStaysOnCurve(c: Params, q1: Point, q2: Point)
    requires Prime(c.p) && Reduced(c, q1) && Reduced(c, q2) && IsOnCurve(c, q1) && IsOnCurve(c, q2)
    ensures Add(c, q1, q2) == None <==> q1 == q2 && TwoTorsion(q1)
    ensures var r := Add(c, q1, q2); r.Some? ==> Reduced(c, r.value) && IsOnCurve(c, r.value)
  {
    hide Cubic, ModInverse, ChordQuotient, IsOnCurve;
    if q1 == Infinity || q2 == Infinity || Opposite(c, q1, q2) {
      InfinityOnCurve(c);
      if q1 == q2 && q1 != Infinity {
        assert !TwoTorsion(q1);
      }
    } else {
      DenominatorZeroIff(c, q1, q2);
      OnCurveIffSolves(c, q1);
      OnCurveIffSolves(c, q2);
      match ModInverse(Denominator(c, q1, q2), c.p)
      case NoInverse =>
      case Inverse(i) =>
        if q1 == q2 {
          TangentQuotient(c, q1, i);
        } else {
          SecantQuotient(c, q1, q2, i);
        }
        ChordSolves(c, q1, q2, Slope(c, q1, q2, i));
        var r := Chord(c, q1, q2, Slope(c, q1, q2, i));
        if r != Infinity {
          OnCurveIffSolves(c, r);
        } else {
          InfinityOnCurve(c);
        }
    }
  }

  /** For instance: on y^2 = x^3 + 4x over the field of five elements, the point (1, 0) cannot be doubled. */
  lemma DoublingPanics()
    ensures var c := Params(5, 4, 0);
            IsOnCurve(c, Point(1, 0)) && Reduced(c, Point(1, 0)) && Add(c, Point(1, 0), Point(1, 0)) == None
  {
    hide Add;
    assert Prime(5);
    AddStaysOnCurve(Params(5, 4, 0), Point(1, 0), Point(1, 0));
  }

  lemma InfinityOnCurve(c: Params)
    requires c.p > 0
    ensures IsOnCurve(c, Infinity) && Reduced(c, Infinity)
  {
  }

  // ---- The sum is the group law's ----

  lemma LineIdentity(x1: int, y1: int, rx: int, ry: int, l: int, num: int, den: int, p: int, j: int, k: int)
    requires den * l - num == p * j && ry - ((x1 - rx) * l - y1) == p * k
    ensures den * (-ry - y1) - num * (rx - x1) == p * ((rx - x1) * j - den * k)
  {
    assert -ry - y1 == (rx - x1) * l - p * k by {
      assert (x1 - rx) * l == -((rx - x1) * l);
    }
    assert den * ((rx - x1) * l - p * k) == (rx - x1) * (den * l) - p * (den * k);
    assert (rx - x1) * (num + p * j) == num * (rx - x1) + p * ((rx - x1) * j);
  }

  /** A chord of a slope that solves den * l = num: its mirrored end is on the line, and its x is the third root. */
  lemma ChordIsOnLine(c: Params, q1: Point, q2: Point, l: int, num: int, den: int)
    requires c.p > 0 && Cong(den * l, num, c.p)
    ensures var r := Chord(c, q1, q2, l);
            && Cong(den * (-r.y - q1.y), num * (r.x - q1.x), c.p)
            && Cong((r.x + q1.x + q2.x) * (den * den), num * num, c.p)
  {
    var r := Chord(c, q1, q2, l);
    hide Chord;
    assert Cong(r.y, (q1.x - r.x) * l - q1.y, c.p) && Cong(r.x, l * l - q1.x - q2.x, c.p) by { ChordEnd(c, q1, q2, l); }
    var j :| den * l - num == c.p * j;
    var k :| r.y - ((q1.x - r.x) * l - q1.y) == c.p * k;
    LineIdentity(q1.x, q1.y, r.x, r.y, l, num, den, c.p, j, k);
    CongBy(den * (-r.y - q1.y), num * (r.x - q1.x), c.p, (r.x - q1.x) * j - den * k);
    hide Cong;
    CongRefl(q1.x + q2.x, c.p);
    CongAdd(r.x, l * l - q1.x - q2.x, q1.x + q2.x, q1.x + q2.x, c.p);
    CongRefl(den * den, c.p);
    CongMul(r.x + (q1.x + q2.x), l * l, den * den, den * den, c.p);
    CongMul(den * l, num, den * l, num, c.p);
    SquareOfProduct(l, den);
    CongTrans((r.x + (q1.x + q2.x)) * (den * den), den * l * (den * l), num * num, c.p);
    assert r.x + (q1.x + q2.x) == r.x + q1.x + q2.x;
  }

  lemma SquareOfProduct(l: int, den: int)
    ensures l * l * (den * den) == den * l * (den * l)
  {
  }

  lemma ChordEnd(c: Params, q1: Point, q2: Point, l: int)
    requires c.p > 0
    ensures var r := Chord(c, q1, q2, l);
            Cong(r.y, (q1.x - r.x) * l - q1.y, c.p) && Cong(r.x, l * l - q1.x - q2.x, c.p)
  {
    var r := Chord(c, q1, q2, l);
    CongMod(l * l - q1.x - q2.x, c.p);
    CongMod((q1.x - r.x) * l - q1.y, c.p);
  }

  /**
   The group law, without slopes or inverses: the mirror image of the sum lies on the line through the two points, or
   on the tangent for a doubling, and its x is the third root of the cubic there.
   */
  lemma AddIsThirdIntersection(c: Params, q1: Point, q2: Point)
    requires Prime(c.p) && Reduced(c, q1) && Reduced(c, q2) && IsOnCurve(c, q1) && IsOnCurve(c, q2)
    requires q1 != Infinity && q2 != Infinity && !(q1.x == q2.x && q1.y + q2.y == c.p) && Add(c, q1, q2).Some?
    ensures var r, dx, dy := Add(c, q1, q2).value, q2.x - q1.x, q2.y - q1.y;
            q1 != q2 ==>
              && Cong(dx * (-r.y - q1.y), dy * (r.x - q1.x), c.p)
              && Cong((r.x + q1.x + q2.x) * (dx * dx), dy * dy, c.p)
    ensures var r, dx, dy := Add(c, q1, q2).value, 2 * q1.y, 3 * (q1.x * q1.x) + c.a;
            q1 == q2 ==>
              && Cong(dx * (-r.y - q1.y), dy * (r.x - q1.x), c.p)
              && Cong((r.x + q1.x + q2.x) * (dx * dx), dy * dy, c.p)
  {
    hide ModInverse, IsOnCurve, Chord, Cong;
    var i := ModInverse(Denominator(c, q1, q2), c.p).value;
    var l := Slope(c, q1, q2, i);
    if q1 == q2 {
      SlopeCong(3 * (q1.x * q1.x) + c.a, 2 * q1.y, c.p);
      ChordIsOnLine(c, q1, q2, l, 3 * (q1.x * q1.x) + c.a, 2 * q1.y);
    } else {
      SlopeCong(q2.y - q1.y, q2.x - q1.x, c.p);
      ChordIsOnLine(c, q1, q2, l, q2.y - q1.y, q2.x - q1.x);
    }
  }

  /** The sum of two reduced points is the only reduced point that meets those two congruences. */
  lemma ThirdIntersectionIsUnique(p: nat, dx: int, dy: int, q1: Point, x2: int, r: Point, r': Point)
    requires Prime(p) && dx % p != 0
    requires 0 <= r.x < p && 0 <= r.y < p && 0 <= r'.x < p && 0 <= r'.y < p
    requires Cong(dx * (-r.y - q1.y), dy * (r.x - q1.x), p) && Cong((r.x + q1.x + x2) * (dx * dx), dy * dy, p)
    requires Cong(dx * (-r'.y - q1.y), dy * (r'.x - q1.x), p) && Cong((r'.x + q1.x + x2) * (dx * dx), dy * dy, p)
    ensures r == r'
  {
    hide Cong;
    var a, b := (r.x + q1.x + x2) * (dx * dx), (r'.x + q1.x + x2) * (dx * dx);
    CongAdd(a, dy * dy, b, dy * dy, p);
    assert a - b == (r.x - r'.x) * dx * dx;
    assert dy * dy - dy * dy == 0;
    CancelTwice(r.x - r'.x, dx, p);
    SmallDifference(r.x, r'.x, p);
    var u, v := dx * (-r.y - q1.y), dx * (-r'.y - q1.y);
    CongAdd(u, dy * (r.x - q1.x), v, dy * (r.x - q1.x), p);
    assert u - v == (r'.y - r.y) * dx;
    PrimeProduct(r'.y - r.y, dx, p);
    SmallDifference(r'.y, r.y, p);
  }

  lemma CancelTwice(d: int, dx: int, p: nat)
    requires Prime(p) && dx % p != 0 && Cong(d * dx * dx, 0, p)
    ensures d % p == 0
  {
    PrimeProduct(d * dx, dx, p);
    CongMod(d * dx, p);
    CongIffSameMod(d * dx, 0, p);
    PrimeProduct(d, dx, p);
  }

  lemma SmallDifference(u: int, v: int, p: nat)
    requires 0 <= u < p && 0 <= v < p && (u - v) % p == 0
    ensures u == v
  {
    SmallMultiple(u - v, p);
  }

  lemma AddBy(c: Params, q1: Point, q2: Point, i: nat)
    requires c.p > 0 && q1 != Infinity && q2 != Infinity && !Opposite(c, q1, q2)
    requires ModInverse(Denominator(c, q1, q2), c.p) == Inverse(i)
    ensures Add(c, q1, q2) == Some(Chord(c, q1, q2, Slope(c, q1, q2, i)))
  {
    hide ModInverse, Chord;
  }

  lemma OneIsItsInverse()
    ensures ModInverse(1, 5) == Inverse(1)
  {
    hide ModInverse;
    assert Prime(5);
    PrimeInverse(1, 5);
    var i := ModInverse(1, 5).value;
    var k :| 1 * i - 1 == 5 * k;
    assert i == 1;
  }

  lemma InstanceValues()
    ensures var c, q1, q2 := Params(5, 2, 1), Point(0, 1), Point(1, 3);
            Denominator(c, q1, q2) == 1 && Slope(c, q1, q2, 1) == 2 && Chord(c, q1, q2, 2) == Point(3, 3)
  {
  }

  /** For instance on y^2 = x^3 + 2x + 1 over the field of five elements. */
  lemma ChordForInstance()
    ensures Add(Params(5, 2, 1), Point(0, 1), Point(1, 3)) == Some(Point(3, 3))
  {
    hide ModInverse, Add, Denominator, Slope, Chord;
    OneIsItsInverse();
    InstanceValues();
    AddBy(Params(5, 2, 1), Point(0, 1), Point(1, 3), 1);
  }

  /** Infinity is neutral, and a point and its mirror image cancel. */
  lemma AddNeutralAndInverse(c: Params, q: Point)
    requires c.p > 0 && q != Infinity
    ensures Add(c, Infinity, q) == Add(c, q, Infinity) == Some(q)
    ensures Point(q.x, c.p - q.y) != Infinity ==> Add(c, q, Point(q.x, c.p - q.y)) == Some(Infinity)
  {
  }

  // ---- Commutativity ----

  lemma SecantSlopesAgree(c: Params, q1: Point, q2: Point, i: nat, j: nat)
    requires Prime(c.p) && q1 != q2
    requires ModInverse(Denominator(c, q1, q2), c.p) == Inverse(i)
    requires ModInverse(Denominator(c, q2, q1), c.p) == Inverse(j)
    ensures Slope(c, q1, q2, i) == Slope(c, q2, q1, j)
  {
    hide ModInverse;
    var l, m, dx, dy := Slope(c, q1, q2, i), Slope(c, q2, q1, j), q2.x - q1.x, q2.y - q1.y;
    SlopeCong(dy, dx, c.p);
    SlopeCong(-dy, -dx, c.p);
    CongAdd(dx * l, dy, -dx * m, -dy, c.p);
    assert (l - m) * dx == dx * l + -dx * m;
    PrimeProduct(l - m, dx, c.p);
    InverseNonzero(dx, c.p);
    CongMod(l - m, c.p);
    CongRefl(m, c.p);
    CongAdd(l - m, 0, m, m, c.p);
    CongIffSameMod(l, m, c.p);
    DivModUnique(l, c.p, 0, l);
    DivModUnique(m, c.p, 0, m);
  }

  lemma SecantDifference(x1: int, y1: int, x2: int, y2: int, x3: int, l: int)
    ensures ((x2 - x3) * l - y2) - ((x1 - x3) * l - y1) == (x2 - x1) * l - (y2 - y1)
  {
  }

  lemma ChordHeightsAgree(c: Params, q1: Point, q2: Point, x3: int, l: int)
    requires c.p > 0 && Cong((q2.x - q1.x) * l, q2.y - q1.y, c.p)
    ensures ((q1.x - x3) * l - q1.y) % c.p == ((q2.x - x3) * l - q2.y) % c.p
  {
    hide Cong;
    var u, v := (q1.x - x3) * l - q1.y, (q2.x - x3) * l - q2.y;
    SecantDifference(q1.x, q1.y, q2.x, q2.y, x3, l);
    CongRefl(q2.y - q1.y, c.p);
    CongAdd((q2.x - q1.x) * l, q2.y - q1.y, q2.y - q1.y, q2.y - q1.y, c.p);
    CongRefl(u, c.p);
    CongAdd(v - u, 0, u, u, c.p);
    CongIffSameMod(v, u, c.p);
  }

  lemma ChordsAgree(c: Params, q1: Point, q2: Point, l: int)
    requires c.p > 0 && Cong((q2.x - q1.x) * l, q2.y - q1.y, c.p)
    ensures Chord(c, q1, q2, l) == Chord(c, q2, q1, l)
  {
    ThirdXCommutes(c, q1.x, q2.x, l);
    hide ThirdX;
    ChordHeightsAgree(c, q1, q2, ThirdX(c, q1.x, q2.x, l), l);
  }

  lemma ThirdXCommutes(c: Params, x1: int, x2: int, l: int)
    requires c.p > 0
    ensures ThirdX(c, x1, x2, l) == ThirdX(c, x2, x1, l)
  {
    var square := l * l;
    assert square - x1 - x2 == square - x2 - x1;
  }

  lemma AddCommutes(c: Params, q1: Point, q2: Point)
    requires Prime(c.p) && Reduced(c, q1) && Reduced(c, q2) && IsOnCurve(c, q1) && IsOnCurve(c, q2)
    ensures Add(c, q1, q2) == Add(c, q2, q1)
  {
    hide ModInverse, IsOnCurve;
    if q1 != Infinity && q2 != Infinity && !Opposite(c, q1, q2) && q1 != q2 {
      DenominatorZeroIff(c, q1, q2);
      DenominatorZeroIff(c, q2, q1);
      var i, j := ModInverse(Denominator(c, q1, q2), c.p).value, ModInverse(Denominator(c, q2, q1), c.p).value;
      SecantSlopesAgree(c, q1, q2, i, j);
      SlopeCong(q2.y - q1.y, q2.x - q1.x, c.p);
      ChordsAgree(c, q1, q2, Slope(c, q1, q2, i));
    }
  }
}
