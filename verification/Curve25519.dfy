/** What the ladder of tight/src/crypto.cpp computes: multiples of a point on the curve y^2 = x^3 + 486662 x^2 + x modulo
    p = 2^255 - 19, given by their x-coordinates as fractions.

    One step is doubling and differential addition; these are the tangent and chord laws of the curve; and the whole
    ladder ends at the multiple that the scalar says. */
module Curve25519 {
  import opened Octets
  import opened Bits
  import opened Field25519
  import opened FieldInversion
  import opened FieldBytes
  import opened X25519

  const A: int := 486662

  // ---------- Equality modulo p ----------

  predicate Apart(a: int, b: int, k: int) { a == b + P * k }

  /** The numbers differ by a multiple of p. */
  ghost predicate Eq(a: int, b: int) { exists k: int :: Apart(a, b, k) }

  lemma EqIsResidue(a: int, b: int)
    ensures Eq(a, b) <==> a % P == b % P
  {
    if a % P == b % P {
      assert Apart(a, b, a / P - b / P);
    }
    if k: int :| Apart(a, b, k) {
      ModOfSum(a, b, k);
    }
  }

  lemma EqTrans(a: int, b: int, c: int)
    requires Eq(a, b) && Eq(b, c)
    ensures Eq(a, c)
  {
    EqIsResidue(a, b);
    EqIsResidue(b, c);
    EqIsResidue(a, c);
  }

  lemma EqSym(a: int, b: int)
    requires Eq(a, b)
    ensures Eq(b, a)
  {
    EqIsResidue(a, b);
    EqIsResidue(b, a);
  }

  lemma Same(a: int)
    ensures Eq(a, a)
  {
    EqIsResidue(a, a);
  }

  lemma EqMul(a: int, b: int, c: int, d: int)
    requires Eq(a, b) && Eq(c, d)
    ensures Eq(a * c, b * d)
  {
    hide Eq;
    EqIsResidue(a, b);
    EqIsResidue(c, d);
    EqIsResidue(a * c, b * d);
    MulResidues(a, c);
    MulResidues(b, d);
  }

  lemma EqAdd(a: int, b: int, c: int, d: int)
    requires Eq(a, b) && Eq(c, d)
    ensures Eq(a + c, b + d)
  {
    hide Eq;
    EqIsResidue(a, b);
    EqIsResidue(c, d);
    EqIsResidue(a + c, b + d);
    AddResidues(a, c);
    AddResidues(b, d);
  }

  lemma EqSub(a: int, b: int, c: int, d: int)
    requires Eq(a, b) && Eq(c, d)
    ensures Eq(a - c, b - d)
  {
    hide Eq;
    EqIsResidue(a, b);
    EqIsResidue(c, d);
    EqIsResidue(a - c, b - d);
    SubResidues(a, c);
    SubResidues(b, d);
  }

  lemma EqSquare(a: int, b: int)
    requires Eq(a, b)
    ensures Eq(a * a, b * b)
  {
    EqMul(a, b, a, b);
  }

  lemma EqReduced(a: int)
    ensures Eq(a % P, a)
  {
    EqIsResidue(a % P, a);
  }

  lemma EqMulP(a: int, b: int, c: int, d: int)
    requires Eq(a, b) && Eq(c, d)
    ensures Eq(MulP(a, c), b * d)
  {
    EqMul(a, b, c, d);
    EqReduced(a * c);
    EqTrans(MulP(a, c), a * c, b * d);
  }

  lemma EqAddP(a: int, b: int, c: int, d: int)
    requires Eq(a, b) && Eq(c, d)
    ensures Eq(AddP(a, c), b + d)
  {
    EqAdd(a, b, c, d);
    EqReduced(a + c);
    EqTrans(AddP(a, c), a + c, b + d);
  }

  lemma EqSubP(a: int, b: int, c: int, d: int)
    requires Eq(a, b) && Eq(c, d)
    ensures Eq(SubP(a, c), b - d)
  {
    EqSub(a, b, c, d);
    EqReduced(a - c);
    EqTrans(SubP(a, c), a - c, b - d);
  }

  // ---------- One step ----------

  /** The x-coordinate x / z of a point; z = 0 for the point at infinity. */
  datatype Point = Point(x: int, z: int)

  function Doubled(p: Point): Point {
    var xx, xz, zz := p.x * p.x, p.x * p.z, p.z * p.z;
    Point((xx - zz) * (xx - zz), 4 * xz * (xx + A * xz + zz))
  }

  /** The sum of two points whose difference has x-coordinate u. */
  function Added(u: int, p: Point, q: Point): Point {
    var m, n := p.x * q.x - p.z * q.z, q.x * p.z - q.z * p.x;
    Point(4 * (m * m), 4 * u * (n * n))
  }

  ghost predicate EqPoint(p: Point, q: Point) { Eq(p.x, q.x) && Eq(p.z, q.z) }

  function First(s: Ladder): Point { Point(s.x2, s.z2) }
  function Second(s: Ladder): Point { Point(s.x3, s.z3) }

  /** The step as plain polynomials. */
  function Rational(x1: int, s: Ladder): (Point, Point) {
    var a, b, c, d := s.x2 + s.z2, s.x2 - s.z2, s.x3 + s.z3, s.x3 - s.z3;
    var e := a * a - b * b;
    var plus, minus := d * a + c * b, d * a - c * b;
    (Point((a * a) * (b * b), e * (a * a + 121665 * e)), Point(plus * plus, x1 * (minus * minus)))
  }

  lemma StepPlain(x1: nat, s: Ladder)
    ensures EqPoint(First(LadderStep(x1, s)), Rational(x1, s).0) && EqPoint(Second(LadderStep(x1, s)), Rational(x1, s).1)
  {
    hide Eq, MulP, AddP, SubP;
    Same(x1);
    Same(s.x2);
    Same(s.z2);
    Same(s.x3);
    Same(s.z3);
    Same(A24);
    var a, b, c, d := s.x2 + s.z2, s.x2 - s.z2, s.x3 + s.z3, s.x3 - s.z3;
    var e := a * a - b * b;
    EqAddP(s.x2, s.x2, s.z2, s.z2);
    EqSubP(s.x2, s.x2, s.z2, s.z2);
    EqAddP(s.x3, s.x3, s.z3, s.z3);
    EqSubP(s.x3, s.x3, s.z3, s.z3);
    var a', b', c', d' := AddP(s.x2, s.z2), SubP(s.x2, s.z2), AddP(s.x3, s.z3), SubP(s.x3, s.z3);
    EqMulP(a', a, a', a);
    EqMulP(b', b, b', b);
    var aa, bb := MulP(a', a'), MulP(b', b');
    EqSubP(aa, a * a, bb, b * b);
    var e' := SubP(aa, bb);
    EqMulP(A24, A24, e', e);
    EqAddP(aa, a * a, MulP(A24, e'), A24 * e);
    EqMulP(e', e, AddP(aa, MulP(A24, e')), a * a + A24 * e);
    EqMulP(aa, a * a, bb, b * b);
    EqMulP(d', d, a', a);
    EqMulP(c', c, b', b);
    var da, cb := MulP(d', a'), MulP(c', b');
    EqAddP(da, d * a, cb, c * b);
    EqSubP(da, d * a, cb, c * b);
    var plus, minus := AddP(da, cb), SubP(da, cb);
    EqMulP(plus, d * a + c * b, plus, d * a + c * b);
    EqMulP(minus, d * a - c * b, minus, d * a - c * b);
    EqMulP(x1, x1, MulP(minus, minus), (d * a - c * b) * (d * a - c * b));
  }

  lemma PlainIsDoubled(x: int, z: int)
    ensures var a, b := x + z, x - z;
            var e := a * a - b * b;
            Point((a * a) * (b * b), e * (a * a + 121665 * e)) == Doubled(Point(x, z))
  {
    var a, b, w := x + z, x - z, x * z;
    assert a * a - b * b == 4 * w;
    assert a * a + 121665 * (4 * w) == x * x + A * w + z * z;
    assert (a * a) * (b * b) == (x * x - z * z) * (x * x - z * z);
  }

  lemma PlainIsAdded(x1: int, x2: int, z2: int, x3: int, z3: int)
    ensures var a, b, c, d := x2 + z2, x2 - z2, x3 + z3, x3 - z3;
            var plus, minus := d * a + c * b, d * a - c * b;
            Point(plus * plus, x1 * (minus * minus)) == Added(x1, Point(x2, z2), Point(x3, z3))
  {
    var a, b, c, d := x2 + z2, x2 - z2, x3 + z3, x3 - z3;
    var m, n := x2 * x3 - z2 * z3, x3 * z2 - z3 * x2;
    assert d * a + c * b == 2 * m && d * a - c * b == 2 * n;
    assert (2 * m) * (2 * m) == 4 * (m * m);
    assert x1 * ((2 * n) * (2 * n)) == 4 * x1 * (n * n);
  }

  /** One ladder step doubles the first point and adds the second to it, for any state. */
  lemma StepDoublesAndAdds(x1: nat, s: Ladder)
    ensures EqPoint(First(LadderStep(x1, s)), Doubled(First(s)))
    ensures EqPoint(Second(LadderStep(x1, s)), Added(x1, First(s), Second(s)))
  {
    StepPlain(x1, s);
    PlainIsDoubled(s.x2, s.z2);
    PlainIsAdded(x1, s.x2, s.z2, s.x3, s.z3);
    hide EqPoint, LadderStep;
  }

  // ---------- The laws of the curve ----------

  function Cubic(x: int): int { x * x * x + A * (x * x) + x }

  ghost predicate OnCurve(x: int, y: int) { Eq(y * y, Cubic(x)) }

  /** The tangent at (x, y) has slope s / 2y, and the double has x-coordinate (s / 2y)^2 - A - 2x: over the common
      denominator (2y)^2. */
  lemma TangentLaw(x: int, y: int, s: int, d: Point)
    requires OnCurve(x, y) && s == 3 * (x * x) + 2 * A * x + 1 && d == Doubled(Point(x, 1))
    ensures Eq(d.z, 4 * (y * y))
    ensures Eq(d.x, s * s - (A + 2 * x) * d.z)
  {
    TangentIdentity(x);
    hide Eq, Doubled, Cubic;
    Same(4);
    EqMul(4, 4, y * y, Cubic(x));
    EqSym(4 * (y * y), 4 * Cubic(x));
    Same(d.x);
  }

  lemma TangentIdentity(x: int)
    ensures var s := 3 * (x * x) + 2 * A * x + 1;
            Doubled(Point(x, 1)) == Point(s * s - (A + 2 * x) * (4 * Cubic(x)), 4 * Cubic(x))
  {}

  /** The chord through (x, y) and (v, w) has slope (y - w) / (x - v), and the sum has x-coordinate n / d with
      d = (x - v)^2 and n = (y - w)^2 - (A + x + v) d; the difference has m / d with m = (y + w)^2 - (A + x + v) d.
      If the difference has x-coordinate u, the sum is the point r that differential addition gives. */
  lemma ChordLaw(u: int, x: int, y: int, v: int, w: int, d: int, n: int, m: int, r: Point)
    requires OnCurve(x, y) && OnCurve(v, w) && d == (x - v) * (x - v)
    requires n == (y - w) * (y - w) - (A + x + v) * d && m == (y + w) * (y + w) - (A + x + v) * d
    requires Eq(u * d, m) && r == Added(u, Point(x, 1), Point(v, 1))
    ensures Eq(n * r.z, d * r.x)
  {
    ProductOfSides(x, y, v, w);
    CrossMultiply(u, n, m, d, x * v - 1);
    AddedPlain(u, x, v);
  }

  lemma AddedPlain(u: int, x: int, v: int)
    ensures var d, q := (x - v) * (x - v), x * v - 1;
            Added(u, Point(x, 1), Point(v, 1)) == Point(4 * (q * q), 4 * u * d)
  {}

  lemma CrossMultiply(u: int, n: int, m: int, d: int, q: int)
    requires Eq(u * d, m) && Eq(n * m, d * (q * q))
    ensures Eq(n * (4 * u * d), d * (4 * (q * q)))
  {
    hide Eq;
    Same(4 * n);
    EqMul(4 * n, 4 * n, u * d, m);
    Same(4);
    EqMul(4, 4, n * m, d * (q * q));
    assert n * (4 * u * d) == 4 * n * (u * d) && 4 * n * m == 4 * (n * m) && 4 * (d * (q * q)) == d * (4 * (q * q));
    EqTrans(n * (4 * u * d), 4 * (n * m), d * (4 * (q * q)));
  }

  lemma ProductOfSides(x: int, y: int, v: int, w: int)
    requires OnCurve(x, y) && OnCurve(v, w)
    ensures var d := (x - v) * (x - v);
            Eq(((y - w) * (y - w) - (A + x + v) * d) * ((y + w) * (y + w) - (A + x + v) * d), d * ((x * v - 1) * (x * v - 1)))
  {
    hide Eq, Cubic;
    var d := (x - v) * (x - v);
    var s, yy, ww := (A + x + v) * d, y * y, w * w;
    SidesExpand(y, w, s);
    EqAdd(yy, Cubic(x), ww, Cubic(v));
    Same(s);
    EqSub(yy + ww, Cubic(x) + Cubic(v), s, s);
    EqSquare(yy + ww - s, Cubic(x) + Cubic(v) - s);
    EqMul(yy, Cubic(x), ww, Cubic(v));
    Same(4);
    EqMul(4, 4, yy * ww, Cubic(x) * Cubic(v));
    EqSub((yy + ww - s) * (yy + ww - s), (Cubic(x) + Cubic(v) - s) * (Cubic(x) + Cubic(v) - s), 4 * (yy * ww), 4 * (Cubic(x) * Cubic(v)));
    SidesIdentity(x, v);
  }

  lemma SidesExpand(y: int, w: int, s: int)
    ensures ((y - w) * (y - w) - s) * ((y + w) * (y + w) - s)
         == (y * y + w * w - s) * (y * y + w * w - s) - 4 * ((y * y) * (w * w))
  {}

  lemma SidesIdentity(x: int, v: int)
    ensures var d := (x - v) * (x - v);
            var s := (A + x + v) * d;
            (Cubic(x) + Cubic(v) - s) * (Cubic(x) + Cubic(v) - s) - 4 * (Cubic(x) * Cubic(v)) == d * ((x * v - 1) * (x * v - 1))
  {
    var d, s, p, sum := (x - v) * (x - v), (A + x + v) * ((x - v) * (x - v)), x * v, x + v;
    assert Cubic(x) + Cubic(v) - s == sum * (p + 1) + 2 * A * p by { SumOfCubics(A, x, v); }
    assert Cubic(x) * Cubic(v) == p * (p * p + A * (p * sum) + sum * sum - 2 * p + A * A * p + A * sum + 1) by {
      ProductOfCubics(A, x, v);
    }
    assert d == sum * sum - 4 * p;
    hide Cubic;
    Symmetric(A, p, sum);
  }

  lemma SumOfCubics(a: int, x: int, v: int)
    ensures (x * x * x + a * (x * x) + x) + (v * v * v + a * (v * v) + v) - (a + x + v) * ((x - v) * (x - v))
         == (x + v) * (x * v + 1) + 2 * a * (x * v)
  {}

  lemma ProductOfCubics(a: int, x: int, v: int)
    ensures var p, sum := x * v, x + v;
            (x * x * x + a * (x * x) + x) * (v * v * v + a * (v * v) + v)
            == p * (p * p + a * (p * sum) + sum * sum - 2 * p + a * a * p + a * sum + 1)
  {
    var f, g := x * x + a * x + 1, v * v + a * v + 1;
    assert x * x * x + a * (x * x) + x == x * f && v * v * v + a * (v * v) + v == v * g;
    ProductOfQuadratics(a, x, v);
    Regroup(x, f, v, g);
  }

  lemma Regroup(x: int, f: int, v: int, g: int)
    ensures (x * f) * (v * g) == (x * v) * (f * g)
  {}

  lemma ProductOfQuadratics(a: int, x: int, v: int)
    ensures var p, sum := x * v, x + v;
            (x * x + a * x + 1) * (v * v + a * v + 1) == p * p + a * (p * sum) + sum * sum - 2 * p + a * a * p + a * sum + 1
  {
    var p := x * v;
    assert (x * x) * (v * v) == p * p;
    assert (x * x) * (a * v) + (a * x) * (v * v) == a * (p * (x + v));
    assert (a * x) * (a * v) == a * a * p;
    assert x * x + v * v == (x + v) * (x + v) - 2 * p;
    assert a * x + a * v == a * (x + v);
    Expand3(x * x, a * x, v * v, a * v);
  }

  lemma Expand3(b: int, c: int, d: int, e: int)
    ensures (b + c + 1) * (d + e + 1) == b * d + (b * e + c * d) + c * e + (b + d) + (c + e) + 1
  {}

  lemma Symmetric(a: int, p: int, sum: int)
    ensures (sum * (p + 1) + 2 * a * p) * (sum * (p + 1) + 2 * a * p)
            - 4 * (p * (p * p + a * (p * sum) + sum * sum - 2 * p + a * a * p + a * sum + 1))
         == (sum * sum - 4 * p) * ((p - 1) * (p - 1))
  {
    var g, h, ss, f := sum * (p + 1), a * p, sum * sum, p * p - 2 * p + 1;
    assert (g + 2 * h) * (g + 2 * h) == g * g + 4 * (g * h) + 4 * (h * h);
    assert g * g == ss * ((p + 1) * (p + 1)) by { Regroup(sum, p + 1, sum, p + 1); }
    assert p * (a * (p * sum) + a * sum) == g * h by { SameTerm(a, p, sum); }
    assert p * (a * a * p) == h * h by { Regroup(a, p, a, p); }
    Collect(p, a * (p * sum) + a * sum, ss, a * a * p);
    assert ss * ((p + 1) * (p + 1)) - 4 * (p * ss) == ss * ((p - 1) * (p - 1)) by { SquareDifference(ss, p); }
    assert (p - 1) * (p - 1) == f;
    assert (ss - 4 * p) * f == ss * f - 4 * (p * f) by { Distribute(ss, p, f); }
    assert sum * (p + 1) + 2 * a * p == g + 2 * h;
  }

  lemma SameTerm(a: int, p: int, sum: int)
    ensures p * (a * (p * sum) + a * sum) == (sum * (p + 1)) * (a * p)
  {}

  lemma Collect(p: int, t: int, ss: int, r: int)
    ensures p * (p * p + t + ss - 2 * p + r + 1) == p * t + p * ss + p * r + p * (p * p - 2 * p + 1)
  {}

  lemma SquareDifference(ss: int, p: int)
    ensures ss * ((p + 1) * (p + 1)) - 4 * (p * ss) == ss * ((p - 1) * (p - 1))
  {}

  lemma Distribute(ss: int, p: int, f: int)
    ensures (ss - 4 * p) * f == ss * f - 4 * (p * f)
  {}

  // ---------- The multiples of a point ----------

  /** The n-th multiple of the point with x-coordinate u, by doubling and adding. */
  function Multiple(u: int, n: nat): Point
    decreases n
  {
    if n == 0 then Point(1, 0)
    else if n == 1 then Point(u, 1)
    else if n % 2 == 0 then Doubled(Multiple(u, n / 2))
    else Added(u, Multiple(u, n / 2), Multiple(u, n / 2 + 1))
  }

  function Power(b: int, n: nat): int
    decreases n
  {
    if n == 0 then 1 else b * Power(b, n - 1)
  }

  lemma {:induction false} PowerAdds(b: int, m: nat, n: nat)
    ensures Power(b, m + n) == Power(b, m) * Power(b, n)
    decreases m
  {
    if m > 0 {
      PowerAdds(b, m - 1, n);
      assert b * (Power(b, m - 1) * Power(b, n)) == (b * Power(b, m - 1)) * Power(b, n);
    }
  }

  /** The same fraction, with numerator and denominator multiplied by (4u)^e. */
  ghost predicate Scaled(u: int, e: nat, p: Point, q: Point) {
    var c := Power(4 * u, e);
    Eq(p.x, c * q.x) && Eq(p.z, c * q.z)
  }

  function Times(c: int, q: Point): Point { Point(c * q.x, c * q.z) }

  lemma DoubledScaled(c: int, q: Point)
    ensures Doubled(Times(c, q)) == Times((c * c) * (c * c), Doubled(q))
  {
    var xx, xz, zz := q.x * q.x, q.x * q.z, q.z * q.z;
    var f := c * c;
    Regroup(c, q.x, c, q.x);
    Regroup(c, q.x, c, q.z);
    Regroup(c, q.z, c, q.z);
    ScaledSquare(f, xx, xz, zz);
  }

  lemma ScaledSquare(f: int, xx: int, xz: int, zz: int)
    ensures (f * xx - f * zz) * (f * xx - f * zz) == (f * f) * ((xx - zz) * (xx - zz))
    ensures 4 * (f * xz) * (f * xx + A * (f * xz) + f * zz) == (f * f) * (4 * xz * (xx + A * xz + zz))
  {}

  lemma AddedScaled(u: int, c: int, p: Point, d: int, q: Point)
    ensures Added(u, Times(c, p), Times(d, q)) == Times((c * c) * (d * d), Added(u, p, q))
  {
    var f := c * d;
    var m, n := p.x * q.x - p.z * q.z, q.x * p.z - q.z * p.x;
    assert (c * p.x) * (d * q.x) - (c * p.z) * (d * q.z) == f * m by { CrossTerms(c, d, p.x, q.x, p.z, q.z); }
    assert (d * q.x) * (c * p.z) - (d * q.z) * (c * p.x) == f * n by { CrossTerms(d, c, q.x, p.z, q.z, p.x); }
    ScaledParts(u, c, d, m, n);
  }

  lemma CrossTerms(c: int, d: int, w: int, x: int, y: int, z: int)
    ensures (c * w) * (d * x) - (c * y) * (d * z) == (c * d) * (w * x - y * z) == (d * c) * (w * x - y * z)
  {
    Regroup(c, w, d, x);
    Regroup(c, y, d, z);
    assert (c * d) * (w * x) - (c * d) * (y * z) == (c * d) * (w * x - y * z);
  }

  lemma ScaledParts(u: int, c: int, d: int, m: int, n: int)
    ensures var f := c * d;
            && 4 * ((f * m) * (f * m)) == (c * c) * (d * d) * (4 * (m * m))
            && 4 * u * ((f * n) * (f * n)) == (c * c) * (d * d) * (4 * u * (n * n))
  {}

  lemma EqDoubled(p: Point, q: Point)
    requires EqPoint(p, q)
    ensures EqPoint(Doubled(p), Doubled(q))
  {
    hide Eq;
    EqSquare(p.x, q.x);
    EqSquare(p.z, q.z);
    EqMul(p.x, q.x, p.z, q.z);
    var xx, xz, zz := p.x * p.x, p.x * p.z, p.z * p.z;
    var yy, yw, ww := q.x * q.x, q.x * q.z, q.z * q.z;
    EqSub(xx, yy, zz, ww);
    EqSquare(xx - zz, yy - ww);
    Same(4);
    Same(A);
    EqMul(4, 4, xz, yw);
    EqMul(A, A, xz, yw);
    EqAdd(xx, yy, A * xz, A * yw);
    EqAdd(xx + A * xz, yy + A * yw, zz, ww);
    EqMul(4 * xz, 4 * yw, xx + A * xz + zz, yy + A * yw + ww);
  }

  lemma EqAdded(u: int, p: Point, q: Point, r: Point, s: Point)
    requires EqPoint(p, q) && EqPoint(r, s)
    ensures EqPoint(Added(u, p, r), Added(u, q, s))
  {
    hide Eq;
    EqMul(p.x, q.x, r.x, s.x);
    EqMul(p.z, q.z, r.z, s.z);
    EqMul(r.x, s.x, p.z, q.z);
    EqMul(r.z, s.z, p.x, q.x);
    EqSub(p.x * r.x, q.x * s.x, p.z * r.z, q.z * s.z);
    EqSub(r.x * p.z, s.x * q.z, r.z * p.x, s.z * q.x);
    var m, n := p.x * r.x - p.z * r.z, r.x * p.z - r.z * p.x;
    var k, l := q.x * s.x - q.z * s.z, s.x * q.z - s.z * q.x;
    EqSquare(m, k);
    EqSquare(n, l);
    Same(4);
    Same(4 * u);
    EqMul(4, 4, m * m, k * k);
    EqMul(4 * u, 4 * u, n * n, l * l);
  }

  lemma AddedSymmetric(u: int, p: Point, q: Point)
    ensures Added(u, p, q) == Added(u, q, p)
  {
    var n := q.x * p.z - q.z * p.x;
    assert p.x * q.z - p.z * q.x == -n;
    assert (-n) * (-n) == n * n;
  }

  /** Doubling and adding neighbours gives the multiples that follow; only the first addition adds a factor. */
  lemma {:induction false} NextMultiples(u: int, n: nat)
    ensures Doubled(Multiple(u, n)) == Multiple(u, 2 * n)
    ensures Added(u, Multiple(u, n), Multiple(u, n + 1)) == Times(if n == 0 then 4 * u else 1, Multiple(u, 2 * n + 1))
  {
    if n == 0 {
      FirstAddition(u);
    } else {
      hide Doubled, Added;
      assert 2 * n / 2 == n && (2 * n) % 2 == 0;
      assert (2 * n + 1) / 2 == n && (2 * n + 1) % 2 == 1;
    }
  }

  lemma FirstAddition(u: int)
    ensures Doubled(Point(1, 0)) == Point(1, 0)
    ensures Added(u, Point(1, 0), Point(u, 1)) == Times(4 * u, Point(u, 1))
  {}

  lemma {:induction false} ScaledDoubles(u: int, e: nat, p: Point, n: nat)
    requires Scaled(u, e, p, Multiple(u, n))
    ensures Scaled(u, 4 * e, Doubled(p), Multiple(u, 2 * n))
  {
    hide Eq, Multiple, Power, Doubled;
    var c, q := Power(4 * u, e), Multiple(u, n);
    EqDoubled(p, Times(c, q));
    DoubledScaled(c, q);
    NextMultiples(u, n);
    PowerAdds(4 * u, e, e);
    PowerAdds(4 * u, 2 * e, 2 * e);
    assert e + e == 2 * e && 2 * e + 2 * e == 4 * e;
  }

  lemma ScaledAdds(u: int, e: nat, p: Point, f: nat, r: Point, n: nat)
    requires Scaled(u, e, p, Multiple(u, n)) && Scaled(u, f, r, Multiple(u, n + 1))
    ensures Scaled(u, 2 * e + 2 * f + (if n == 0 then 1 else 0), Added(u, p, r), Multiple(u, 2 * n + 1))
  {
    hide Eq, Multiple, Power, Added;
    var b := 4 * u;
    var c, d, q, s := Power(b, e), Power(b, f), Multiple(u, n), Multiple(u, n + 1);
    EqAdded(u, p, Times(c, q), r, Times(d, s));
    AddedScaled(u, c, q, d, s);
    NextMultiples(u, n);
    PowerAdds(b, e, e);
    PowerAdds(b, f, f);
    assert e + e == 2 * e && f + f == 2 * f;
    PowerAdds(b, 2 * e, 2 * f);
    PowerOne(b, 2 * e + 2 * f);
    var t := Multiple(u, 2 * n + 1);
    var k := (c * c) * (d * d);
    assert k * (b * t.x) == (k * b) * t.x && k * (b * t.z) == (k * b) * t.z;
  }

  lemma {:induction false} PowerOne(b: int, n: nat)
    ensures Power(b, n + 1) == Power(b, n) * b
  {}

  lemma EqScaled(u: int, e: nat, p: Point, q: Point, r: Point)
    requires EqPoint(p, q) && Scaled(u, e, q, r)
    ensures Scaled(u, e, p, r)
  {
    hide Power, Eq;
    var c := Power(4 * u, e);
    EqTrans(p.x, q.x, c * r.x);
    EqTrans(p.z, q.z, c * r.z);
  }

  lemma ShrStep(k: nat, t: nat)
    ensures Shr(k, t) == 2 * Shr(k, t + 1) + Bit(k, t)
  {
    ShrShr(k, t, 1);
    assert Shr(Shr(k, t), 1) == Shr(k, t) / 2 by { HalfIsShr(Shr(k, t)); }
    hide Shr;
  }

  lemma HalfIsShr(x: nat)
    ensures Shr(x, 1) == x / 2
  {
    assert Pow2(1) == 2 * Pow2(0);
  }

  /** After the bits 254 to t of the scalar, the two points of the ladder are the multiples by the number that these
      bits form and by the next one, up to a power of 4u in numerator and denominator. */
  lemma {:induction false} LadderIsMultiples(k: nat, u: nat, t: nat) returns (e: nat, f: nat)
    requires t <= 255 && k < Pow2(255)
    ensures var s := LadderFrom(k, u, t);
            Scaled(u, e, First(s), Multiple(u, Shr(k, t))) && Scaled(u, f, Second(s), Multiple(u, Shr(k, t) + 1))
    decreases 255 - t
  {
    hide LadderFrom, LadderStep, Scaled, Multiple, Shr, Bit, Pow2;
    LadderUnfolds(k, u, t);
    if t == 255 {
      e, f := 0, 0;
      TopOfLadder(k, u);
    } else {
      e, f := LadderIsMultiples(k, u, t + 1);
      ShrStep(k, t);
      var s := LadderFrom(k, u, t + 1);
      var r := LadderStep(u, Exchange(s, Bit(k, t)));
      StepDoublesAndAdds(u, Exchange(s, Bit(k, t)));
      hide EqPoint, Doubled, Added;
      if Bit(k, t) == 0 {
        e, f := StepLow(u, s, r, Shr(k, t + 1), e, f);
      } else {
        e, f := StepHigh(u, s, r, Shr(k, t + 1), e, f);
      }
    }
  }

  lemma {:induction false} LadderUnfolds(k: nat, u: nat, t: nat)
    requires t <= 255
    ensures t == 255 ==> LadderFrom(k, u, t) == Ladder(1, 0, u, 1)
    ensures t < 255 ==> LadderFrom(k, u, t) == Exchange(LadderStep(u, Exchange(LadderFrom(k, u, t + 1), Bit(k, t))), Bit(k, t))
  {
    hide LadderStep, Bit;
  }

  /** The state r is one step on from s, whose points are the multiples n and n + 1. */
  lemma StepLow(u: nat, s: Ladder, r: Ladder, n: nat, e: nat, f: nat) returns (e': nat, f': nat)
    requires EqPoint(First(r), Doubled(First(s))) && EqPoint(Second(r), Added(u, First(s), Second(s)))
    requires Scaled(u, e, First(s), Multiple(u, n)) && Scaled(u, f, Second(s), Multiple(u, n + 1))
    ensures Scaled(u, e', First(r), Multiple(u, 2 * n)) && Scaled(u, f', Second(r), Multiple(u, 2 * n + 1))
  {
    hide Scaled, Multiple, Doubled, Added, EqPoint;
    ScaledDoubles(u, e, First(s), n);
    ScaledAdds(u, e, First(s), f, Second(s), n);
    e', f' := 4 * e, 2 * e + 2 * f + if n == 0 then 1 else 0;
    EqScaled(u, e', First(r), Doubled(First(s)), Multiple(u, 2 * n));
    EqScaled(u, f', Second(r), Added(u, First(s), Second(s)), Multiple(u, 2 * n + 1));
  }

  lemma StepHigh(u: nat, s: Ladder, r: Ladder, n: nat, e: nat, f: nat) returns (e': nat, f': nat)
    requires EqPoint(First(r), Doubled(Second(s))) && EqPoint(Second(r), Added(u, Second(s), First(s)))
    requires Scaled(u, e, First(s), Multiple(u, n)) && Scaled(u, f, Second(s), Multiple(u, n + 1))
    ensures Scaled(u, e', Second(r), Multiple(u, 2 * n + 1)) && Scaled(u, f', First(r), Multiple(u, 2 * n + 2))
  {
    hide Scaled, Multiple, Doubled, Added, EqPoint;
    AddedSymmetric(u, First(s), Second(s));
    ScaledDoubles(u, f, Second(s), n + 1);
    ScaledAdds(u, e, First(s), f, Second(s), n);
    assert 2 * (n + 1) == 2 * n + 2;
    e', f' := 2 * e + 2 * f + if n == 0 then 1 else 0, 4 * f;
    EqScaled(u, f', First(r), Doubled(Second(s)), Multiple(u, 2 * n + 2));
    EqScaled(u, e', Second(r), Added(u, First(s), Second(s)), Multiple(u, 2 * n + 1));
  }

  lemma {:induction false} TopOfLadder(k: nat, u: nat)
    requires k < Pow2(255)
    ensures Shr(k, 255) == 0
    ensures Scaled(u, 0, Point(1, 0), Multiple(u, 0)) && Scaled(u, 0, Point(u, 1), Multiple(u, 1))
  {
    hide Pow2, Shr, Eq;
    TopBits(k);
    Same(1);
    Same(0);
    Same(u);
  }

  lemma TopBits(k: nat)
    requires k < Pow2(255)
    ensures Shr(k, 255) == 0
  {
    hide Pow2;
  }

  /** X25519 ends at the multiple that the clamped key says: its result is the quotient of the two coordinates, as
      numerator times the (p-2)-th power of the denominator. */
  lemma {:induction false} ScalarMultIsMultiple(k: nat, u: nat) returns (x: nat, z: nat, e: nat)
    requires k < Pow2(255)
    ensures ScalarMult(k, u) == MulP(x, PowP(z, P - 2))
    ensures Scaled(u % P, e, Point(x, z), Multiple(u % P, k))
  {
    hide LadderFrom, Scaled, Multiple, PowP, MulP, Pow2;
    var s := LadderFrom(k, u % P, 0);
    var f;
    e, f := LadderIsMultiples(k, u % P, 0);
    x, z := s.x2, s.z2;
    NoShift(k);
  }

  lemma NoShift(k: nat)
    ensures Shr(k, 0) == k
  {
    assert Pow2(0) == 1;
  }

  /** The same for the bytes of two keys. */
  lemma {:induction false} SharedSecretIsMultiple(privateKey: Bytes, peerPublicKey: Bytes) returns (x: nat, z: nat, e: nat)
    requires |privateKey| == 32 && |peerPublicKey| == 32
    ensures var k, u := LittleEndian(Clamp(privateKey)), LittleEndian(peerPublicKey) % B5;
            && ScalarMult(k, u) == MulP(x, PowP(z, P - 2))
            && Scaled(u % P, e, Point(x, z), Multiple(u % P, k))
  {
    hide ScalarMult, Scaled, Multiple, PowP, MulP, Pow2, LittleEndian, Clamp;
    ClampValue(privateKey);
    Pow2Add(254, 1);
    OneTwo();
    x, z, e := ScalarMultIsMultiple(LittleEndian(Clamp(privateKey)), LittleEndian(peerPublicKey) % B5);
  }

  lemma OneTwo()
    ensures Pow2(1) == 2
  {
    assert Pow2(0) == 1;
  }
}
