/** Multiples of a point: double-and-add, and the algebra that the key scheme rests on. */
module Scalar {
  import opened Bytes
  import opened Arith
  import opened Curve

  /** The point operations of the Curve interface, on the points they are meant for. */
  datatype Ops = Ops(add: (Point, Point) -> Point, member: Point -> bool)

  ghost predicate Abelian(g: Ops) {
    && g.member(Infinity)
    && (forall p, q {:trigger g.add(p, q)} :: g.member(p) && g.member(q) ==> g.member(g.add(p, q)))
    && (forall p {:trigger g.add(Infinity, p)} :: g.add(Infinity, p) == p)
    && (forall p, q {:trigger g.add(p, q)} :: g.member(p) && g.member(q) ==> g.add(p, q) == g.add(q, p))
    && (forall p, q, r {:trigger g.add(g.add(p, q), r)} ::
          g.member(p) && g.member(q) && g.member(r) ==> g.add(g.add(p, q), r) == g.add(p, g.add(q, r)))
  }

  /** The sum of k copies of p. */
  function Multiple(g: Ops, k: nat, p: Point): Point {
    if k == 0 then Infinity else g.add(p, Multiple(g, k - 1, p))
  }

  lemma {:induction false} MultipleIsMember(g: Ops, k: nat, p: Point)
    requires Abelian(g) && g.member(p)
    ensures g.member(Multiple(g, k, p))
  {
    if k > 0 {
      MultipleIsMember(g, k - 1, p);
    }
  }

  lemma {:induction false} MultipleOfSum(g: Ops, a: nat, b: nat, p: Point)
    requires Abelian(g) && g.member(p)
    ensures Multiple(g, a + b, p) == g.add(Multiple(g, a, p), Multiple(g, b, p))
  {
    if a > 0 {
      MultipleOfSum(g, a - 1, b, p);
      MultipleIsMember(g, a - 1, p);
      MultipleIsMember(g, b, p);
      var x, y := Multiple(g, a - 1, p), Multiple(g, b, p);
      assert g.add(g.add(p, x), y) == g.add(p, g.add(x, y));
    }
  }

  lemma {:induction false} MultipleOfMultiple(g: Ops, a: nat, b: nat, p: Point)
    requires Abelian(g) && g.member(p)
    ensures Multiple(g, a * b, p) == Multiple(g, a, Multiple(g, b, p))
  {
    if a > 0 {
      MultipleOfMultiple(g, a - 1, b, p);
      assert a * b == b + (a - 1) * b;
      MultipleOfSum(g, b, (a - 1) * b, p);
    } else {
      assert 0 * b == 0;
    }
  }

  /** A point of order n: multiples depend on the factor modulo n only. */
  lemma MultipleModOrder(g: Ops, n: nat, k: nat, p: Point)
    requires Abelian(g) && g.member(p) && n > 0 && Multiple(g, n, p) == Infinity
    ensures Multiple(g, k % n, p) == Multiple(g, k, p)
  {
    hide Multiple;
    var q, r := k / n, k % n;
    assert k == q * n + r by { assert k == n * q + r; }
    MultipleOfSum(g, q * n, r, p);
    MultipleOfMultiple(g, q, n, p);
    MultipleOfInfinity(g, q);
  }

  lemma {:induction false} MultipleOfInfinity(g: Ops, k: nat)
    requires Abelian(g)
    ensures Multiple(g, k, Infinity) == Infinity
  {
    if k > 0 {
      MultipleOfInfinity(g, k - 1);
    }
  }

  /** A point of prime order is only reached again after that many steps. */
  lemma MultipleInjective(g: Ops, n: nat, a: nat, b: nat, p: Point)
    requires Abelian(g) && g.member(p) && p != Infinity && Prime(n) && Multiple(g, n, p) == Infinity
    ensures Multiple(g, a, p) == Multiple(g, b, p) <==> a % n == b % n
  {
    assert n > 0;
    hide Prime, Multiple;
    MultipleModOrder(g, n, a, p);
    MultipleModOrder(g, n, b, p);
    if Multiple(g, a, p) == Multiple(g, b, p) {
      if a >= b {
        DifferenceVanishes(g, n, a, b, p);
      } else {
        DifferenceVanishes(g, n, b, a, p);
      }
    }
  }

  lemma DifferenceVanishes(g: Ops, n: nat, a: nat, b: nat, p: Point)
    requires Abelian(g) && g.member(p) && p != Infinity && Prime(n) && Multiple(g, n, p) == Infinity
    requires a >= b && Multiple(g, a, p) == Multiple(g, b, p)
    ensures a % n == b % n
  {
    assert n > 0;
    hide Abelian, Prime, Multiple;
    var d := a - b;
    Cancels(g, n, d, b, p);
    if d % n != 0 {
      NoSmallMultiple(g, n, d, p);
    } else {
      CongIffSameMod(d, 0, n);
      CongRefl(b, n);
      CongAdd(d, 0, b, b, n);
      CongIffSameMod(a, b, n);
    }
  }

  /** d + b steps end where b steps end: then d steps end at infinity. */
  lemma Cancels(g: Ops, n: nat, d: nat, b: nat, p: Point)
    requires Abelian(g) && g.member(p) && n > 0 && Multiple(g, n, p) == Infinity
    requires Multiple(g, d + b, p) == Multiple(g, b, p)
    ensures Multiple(g, d, p) == Infinity
  {
    hide Abelian, Multiple;
    var c := (n - 1) * b;
    assert b + c == b * n;
    MultipleOfMultiple(g, b, n, p);
    MultipleOfInfinity(g, b);
    MultipleOfSum(g, b, c, p);
    MultipleOfSum(g, d + b, c, p);
    assert d + b + c == d + b * n;
    MultipleOfSum(g, d, b * n, p);
    InfinityIsNeutral(g, d, p);
  }

  lemma InfinityIsNeutral(g: Ops, d: nat, p: Point)
    requires Abelian(g) && g.member(p)
    ensures g.add(Multiple(g, d, p), Infinity) == Multiple(g, d, p)
  {
    MultipleIsMember(g, d, p);
    assert g.add(Multiple(g, d, p), Infinity) == g.add(Infinity, Multiple(g, d, p));
  }

  lemma NoSmallMultiple(g: Ops, n: nat, d: nat, p: Point)
    requires Abelian(g) && g.member(p) && p != Infinity && Prime(n) && Multiple(g, n, p) == Infinity && d % n != 0
    ensures Multiple(g, d, p) != Infinity
  {
    hide Abelian, Multiple, ModInverse, Prime, Cong;
    if Multiple(g, d, p) == Infinity {
      PrimeInverse(d, n);
      var i := ModInverse(d, n).value;
      CongIffSameMod(d * i, 1, n);
      assert d * i == i * d;
      MultipleOfMultiple(g, i, d, p);
      MultipleOfInfinity(g, i);
      MultipleModOrder(g, n, i * d, p);
      MultipleModOrder(g, n, 1, p);
      OnceIsItself(g, p);
    }
  }

  lemma OnceIsItself(g: Ops, p: Point)
    requires Abelian(g) && g.member(p)
    ensures Multiple(g, 1, p) == p
  {
    assert Multiple(g, 1, p) == g.add(p, Multiple(g, 0, p));
    assert g.add(p, Infinity) == g.add(Infinity, p);
  }

  // ---- Double-and-add ----

  /** The loop of ScalarMult: result and the running double, while bits of k are left. */
  function DoubleAndAdd(c: Params, result: Point, current: Point, k: nat): Option<Point>
    requires c.p > 0
    decreases k
  {
    if k == 0 then Some(result)
    else
      var r := if k % 2 == 1 then Add(c, result, current) else Some(result);
      var d := Add(c, current, current);
      if r.None? || d.None? then None else DoubleAndAdd(c, r.value, d.value, k / 2)
  }

  /** The points of a curve as a group: Add, which no such point makes panic. */
  function OpsOf(c: Params): Ops
    requires c.p > 0
  {
    Ops((p, q) => (var r := Add(c, p, q); if r.Some? then r.value else Infinity),
        p => Reduced(c, p) && IsOnCurve(c, p))
  }

  ghost predicate NoTwoTorsion(c: Params)
    requires c.p > 0
  {
    forall q {:trigger IsOnCurve(c, q)} :: Reduced(c, q) && IsOnCurve(c, q) ==> !TwoTorsion(q)
  }

  /** The one group law that is taken on trust. */
  ghost predicate AddAssociates(c: Params)
    requires c.p > 0
  {
    var g := OpsOf(c);
    forall p, q, r {:trigger g.add(g.add(p, q), r)} ::
      g.member(p) && g.member(q) && g.member(r) ==> g.add(g.add(p, q), r) == g.add(p, g.add(q, r))
  }

  // The assumptions hold for instance on y^2 = x^3 + 4x + 2 over the field of five elements, of order three.

  const SmallCurve: Params := Params(5, 4, 2)

  lemma SquareModFive(y: int)
    requires 0 <= y < 5
    ensures (y * y) % 5 == if y == 0 then 0 else if y == 1 || y == 4 then 1 else 4
  {
    if y == 0 { } else if y == 1 { } else if y == 2 { } else if y == 3 { } else { assert y == 4; }
  }

  lemma CubicModFive(x: int)
    requires 0 <= x < 5
    ensures ((x * x * x) % 5 + (4 * x) % 5 + 2) % 5 == if x == 3 then 1 else if x == 2 then 3 else 2
  {
    if x == 0 { } else if x == 1 { } else if x == 2 { } else if x == 3 { } else { assert x == 4; }
  }

  lemma ThreePoints(q: Point)
    requires Reduced(SmallCurve, q)
    ensures IsOnCurve(SmallCurve, q) <==> q == Infinity || q == Point(3, 1) || q == Point(3, 4)
  {
    SquareModFive(q.y);
    CubicModFive(q.x);
  }

  lemma InverseModFive(a: nat, i: nat)
    requires (a, i) == (2, 3) || (a, i) == (3, 2)
    ensures ModInverse(a, 5) == Inverse(i)
  {
    hide ModInverse;
    assert Prime(5);
    PrimeInverse(a, 5);
    var j := ModInverse(a, 5).value;
    var k :| a * j - 1 == 5 * k;
    assert j in {0, 1, 2, 3, 4};
  }

  lemma DoubleBy(c: Params, q: Point, i: nat)
    requires c.p > 0 && q != Infinity && !Opposite(c, q, q) && ModInverse(Denominator(c, q, q), c.p) == Inverse(i)
    ensures Add(c, q, q) == Some(Chord(c, q, q, (Numerator(c, q, q) * i) % c.p))
  {
    hide ModInverse, Chord;
  }

  lemma SmallSlopes()
    ensures Numerator(SmallCurve, Point(3, 1), Point(3, 1)) == 1 && Denominator(SmallCurve, Point(3, 1), Point(3, 1)) == 2
    ensures Numerator(SmallCurve, Point(3, 4), Point(3, 4)) == 1 && Denominator(SmallCurve, Point(3, 4), Point(3, 4)) == 3
  {
  }

  lemma SmallChords()
    ensures Chord(SmallCurve, Point(3, 1), Point(3, 1), 3) == Point(3, 4)
    ensures Chord(SmallCurve, Point(3, 4), Point(3, 4), 2) == Point(3, 1)
  {
  }

  lemma SmallDoubles()
    ensures Add(SmallCurve, Point(3, 1), Point(3, 1)) == Some(Point(3, 4))
    ensures Add(SmallCurve, Point(3, 4), Point(3, 4)) == Some(Point(3, 1))
  {
    hide ModInverse, Add, Numerator, Denominator, Chord;
    SmallSlopes();
    SmallChords();
    InverseModFive(2, 3);
    InverseModFive(3, 2);
    DoubleBy(SmallCurve, Point(3, 1), 3);
    DoubleBy(SmallCurve, Point(3, 4), 2);
  }

  lemma SmallSums(q: Point)
    requires q == Point(3, 1) || q == Point(3, 4)
    ensures Add(SmallCurve, Infinity, q) == Add(SmallCurve, q, Infinity) == Some(q)
    ensures Add(SmallCurve, Infinity, Infinity) == Add(SmallCurve, q, Point(3, 5 - q.y)) == Some(Infinity)
  {
    hide ModInverse, Numerator, Denominator, Chord;
  }

  lemma ThreePointsAssociate()
    ensures NoTwoTorsion(SmallCurve) && AddAssociates(SmallCurve)
    ensures OpsOf(SmallCurve).member(Point(3, 1))
  {
    hide Add, IsOnCurve;
    var c := SmallCurve;
    forall q | Reduced(c, q) ensures IsOnCurve(c, q) <==> q == Infinity || q == Point(3, 1) || q == Point(3, 4) {
      ThreePoints(q);
    }
    SmallDoubles();
    SmallSums(Point(3, 1));
    SmallSums(Point(3, 4));
  }

  /** Closure, identity and commutativity follow from the code. */
  lemma CurveIsAbelian(c: Params)
    requires Prime(c.p) && NoTwoTorsion(c) && AddAssociates(c)
    ensures Abelian(OpsOf(c))
    ensures forall p, q :: OpsOf(c).member(p) && OpsOf(c).member(q) ==> Add(c, p, q) == Some(OpsOf(c).add(p, q))
  {
    hide IsOnCurve, Add;
    var g := OpsOf(c);
    InfinityOnCurve(c);
    forall p, q | g.member(p) && g.member(q)
      ensures Add(c, p, q) == Some(g.add(p, q)) && g.member(g.add(p, q)) && g.add(p, q) == g.add(q, p)
    {
      AddStaysOnCurve(c, p, q);
      AddCommutes(c, p, q);
    }
    forall p ensures g.add(Infinity, p) == p {
      AddInfinity(c, p);
    }
  }

  lemma AddInfinity(c: Params, p: Point)
    requires c.p > 0
    ensures Add(c, Infinity, p) == Some(p)
  {
  }

  /** result + k times current is what the loop keeps, so it ends with that sum. */
  lemma {:induction false} DoubleAndAddSums(c: Params, result: Point, current: Point, k: nat)
    requires Prime(c.p) && NoTwoTorsion(c) && AddAssociates(c)
    requires OpsOf(c).member(result) && OpsOf(c).member(current)
    ensures DoubleAndAdd(c, result, current, k) == Some(OpsOf(c).add(result, Multiple(OpsOf(c), k, current)))
    decreases k
  {
    hide IsOnCurve, Add, AddAssociates, NoTwoTorsion, OpsOf, Abelian, Multiple;
    CurveIsAbelian(c);
    var g := OpsOf(c);
    if k == 0 {
      NoCopies(g, result, current);
    } else {
      KeepSum(g, result, current, k);
      DoubleAndAddSums(c, if k % 2 == 1 then g.add(result, current) else result, g.add(current, current), k / 2);
    }
  }

  lemma NoCopies(g: Ops, result: Point, current: Point)
    requires Abelian(g) && g.member(result)
    ensures g.add(result, Multiple(g, 0, current)) == result
  {
    assert g.add(result, Infinity) == g.add(Infinity, result);
  }

  /** One turn of the loop keeps the sum. */
  lemma KeepSum(g: Ops, result: Point, current: Point, k: nat)
    requires Abelian(g) && g.member(result) && g.member(current) && k > 0
    ensures var d := g.add(current, current);
            var r := if k % 2 == 1 then g.add(result, current) else result;
            && g.member(d) && g.member(r)
            && g.add(r, Multiple(g, k / 2, d)) == g.add(result, Multiple(g, k, current))
  {
    hide Multiple;
    var d := g.add(current, current);
    DoublesHalve(g, k, current);
    MultipleIsMember(g, k / 2, d);
    var half := Multiple(g, k / 2, d);
    if k % 2 == 1 {
      assert g.add(g.add(result, current), half) == g.add(result, g.add(current, half));
    }
  }

  lemma DoublesHalve(g: Ops, k: nat, p: Point)
    requires Abelian(g) && g.member(p) && k > 0
    ensures Multiple(g, k, p)
         == if k % 2 == 1 then g.add(p, Multiple(g, k / 2, g.add(p, p))) else Multiple(g, k / 2, g.add(p, p))
  {
    var h := k / 2;
    assert Multiple(g, 1, p) == g.add(p, Multiple(g, 0, p));
    assert g.add(p, Infinity) == g.add(Infinity, p);
    assert Multiple(g, 2, p) == g.add(p, Multiple(g, 1, p));
    MultipleOfMultiple(g, h, 2, p);
    if k % 2 == 1 {
      assert k - 1 == h * 2;
    } else {
      assert k == h * 2;
    }
  }

  class CustomStandardCurve {
    const params: Params

    constructor (params: Params)
      requires params.p > 0
      ensures this.params == params
    {
      this.params := params;
    }

    /** k is read big-endian. The result is None where an addition would panic. */
    method ScalarMult(p: Point, k: bytes) returns (r: Option<Point>)
      requires params.p > 0
      ensures r == DoubleAndAdd(params, Infinity, p, FromBigEndian(k))
    {
      hide Add;
      var result, current, kCopy := Infinity, p, FromBigEndian(k);
      while kCopy > 0
        invariant DoubleAndAdd(params, result, current, kCopy) == DoubleAndAdd(params, Infinity, p, FromBigEndian(k))
      {
        if kCopy % 2 == 1 {
          var sum := Add(params, result, current);
          if sum == None { return None; }
          result := sum.value;
        }
        var double := Add(params, current, current);
        if double == None { return None; }
        current := double.value;
        kCopy := kCopy / 2;
      }
      r := Some(result);
    }
  }

  /** For every byte string and every point of the curve, ScalarMult computes the multiple and never panics. */
  lemma ScalarMultIsMultiple(c: Params, p: Point, k: bytes)
    requires Prime(c.p) && NoTwoTorsion(c) && AddAssociates(c) && OpsOf(c).member(p)
    ensures DoubleAndAdd(c, Infinity, p, FromBigEndian(k)) == Some(Multiple(OpsOf(c), FromBigEndian(k), p))
  {
    hide AddAssociates, NoTwoTorsion, Add, IsOnCurve;
    CurveIsAbelian(c);
    InfinityOnCurve(c);
    DoubleAndAddSums(c, Infinity, p, FromBigEndian(k));
  }
}
