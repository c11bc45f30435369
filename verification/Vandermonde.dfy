/** Consecutive parities, in any number: they repair as many missing fragments exactly when the evaluation points
    of these differ (tight/src/fec.cpp:51-56 and :146). */
module Vandermonde {
  import opened Octets
  import opened Gf256
  import opened GfLinear
  import opened GaussJordan
  import opened ReedSolomon
  import opened ErasurePatterns

  /** (p + a[0]) * ... * (p + a[k-1]) */
  function Product(a: Vec, k: nat, p: Gf): Gf
    requires k <= |a|
    decreases k
  {
    if k == 0 then 1 else Mul(Product(a, k - 1, p), Add(p, a[k - 1]))
  }

  lemma {:induction false} ProductZero(a: Vec, k: nat, p: Gf, i: nat)
    requires i < k <= |a| && a[i] == p
    ensures Product(a, k, p) == 0
    decreases k
  {
    hide Add, Mul;
    if i == k - 1 {
      AddSelf(p);
      MulZero(Product(a, k - 1, p));
    } else {
      ProductZero(a, k - 1, p, i);
      MulZero(Add(p, a[k - 1]));
    }
  }

  lemma {:induction false} ProductNonZero(a: Vec, k: nat, p: Gf)
    requires k <= |a| && forall i :: 0 <= i < k ==> a[i] != p
    ensures Product(a, k, p) != 0
    decreases k
  {
    hide Add, Mul;
    if k > 0 {
      ProductNonZero(a, k - 1, p);
      NonZeroSum(p, a[k - 1]);
      NoZeroDivisors(Product(a, k - 1, p), Add(p, a[k - 1]));
    }
  }

  /** Column weights: power e of the point, times the product. */
  function Weights(e: nat, a: Vec, k: nat, cols: seq<nat>): (w: Vec)
    requires k <= |a|
    ensures |w| == |cols|
    ensures forall c :: 0 <= c < |cols| ==> w[c] == Mul(Pow(Point(cols[c]), e), Product(a, k, Point(cols[c])))
  {
    seq(|cols|, c requires 0 <= c < |cols| => Mul(Pow(Point(cols[c]), e), Product(a, k, Point(cols[c]))))
  }

  /** One factor more is the next power plus a multiple of the same power. */
  lemma WeightStep(p: Gf, e: nat, q: Gf, s: Gf)
    ensures Mul(Pow(p, e), Mul(q, Add(p, s))) == Add(Mul(Pow(p, e + 1), q), Mul(s, Mul(Pow(p, e), q)))
  {
    var x := Pow(p, e);
    assert Pow(p, e + 1) == Mul(p, x);
    hide Add, Mul, Pow;
    MulAddRight(q, p, s);
    MulAddRight(x, Mul(q, p), Mul(q, s));
    MulAssoc(x, q, p);
    MulComm(Mul(x, q), p);
    MulAssoc(p, x, q);
    MulAssoc(x, q, s);
    MulComm(Mul(x, q), s);
  }

  /** A vector in the kernel of consecutive rows is orthogonal to all these weights. */
  lemma {:induction false} WeightsVanish(start: nat, cols: seq<nat>, x: Vec, a: Vec, k: nat, r: nat)
    requires |x| == |cols| && k <= |a| && r + k < |cols|
    requires forall p: nat :: start <= p < start + |cols| ==> Dot(CoefRow(p, cols), x, |cols|) == 0
    ensures Dot(Weights(start + r, a, k, cols), x, |cols|) == 0
    decreases k
  {
    hide Add, Mul, Pow, Dot, Point, CoefRow;
    var m := |cols|;
    var w := Weights(start + r, a, k, cols);
    if k == 0 {
      forall c | 0 <= c < m ensures w[c] == CoefRow(start + r, cols)[c] {
        MulOne(Pow(Point(cols[c]), start + r));
      }
      assert w == CoefRow(start + r, cols);
    } else {
      WeightsVanish(start, cols, x, a, k - 1, r);
      WeightsVanish(start, cols, x, a, k - 1, r + 1);
      var u, v := Weights(start + r + 1, a, k - 1, cols), Weights(start + r, a, k - 1, cols);
      forall c | 0 <= c < m ensures w[c] == Add(u[c], Mul(a[k - 1], v[c])) {
        WeightStep(Point(cols[c]), start + r, Product(a, k - 1, Point(cols[c])), a[k - 1]);
      }
      DotAddScaled(u, a[k - 1], v, w, x, m);
      MulZero(a[k - 1]);
      AddSelf(0);
    }
  }

  /** The points of all columns but one. */
  function OtherPoints(cols: seq<nat>, d: nat): (a: Vec)
    requires d < |cols|
    ensures |a| == |cols| - 1
    ensures forall i :: 0 <= i < |a| ==> a[i] == Point(cols[if i < d then i else i + 1])
  {
    seq(|cols| - 1, i requires 0 <= i < |cols| - 1 => Point(cols[if i < d then i else i + 1]))
  }

  ghost predicate Consecutive(rows: seq<nat>, start: nat) { forall r :: 0 <= r < |rows| ==> rows[r] == start + r }

  lemma {:induction false} KernelEntryZero(start: nat, cols: seq<nat>, x: Vec, d: nat)
    requires |x| == |cols| && d < |cols| && DistinctPoints(cols) && (start == 0 || Point(cols[d]) != 0)
    requires forall p: nat :: start <= p < start + |cols| ==> Dot(CoefRow(p, cols), x, |cols|) == 0
    ensures x[d] == 0
  {
    hide Add, Mul, Pow, Dot, Point, CoefRow;
    var m := |cols|;
    var a := OtherPoints(cols, d);
    var w := Weights(start, a, m - 1, cols);
    WeightsVanish(start, cols, x, a, m - 1, 0);
    forall c | 0 <= c < m && c != d ensures w[c] == 0 {
      var i := if c < d then c else c - 1;
      ProductZero(a, m - 1, Point(cols[c]), i);
      MulZero(Pow(Point(cols[c]), start));
    }
    DotSingle(w, x, d, m);
    forall i | 0 <= i < m - 1 ensures a[i] != Point(cols[d]) {
    }
    ProductNonZero(a, m - 1, Point(cols[d]));
    PowNonZero(Point(cols[d]), start);
    NoZeroDivisors(Pow(Point(cols[d]), start), Product(a, m - 1, Point(cols[d])));
    NoZeroDivisors(w[d], x[d]);
  }

  lemma {:induction false} PowNonZero(a: Gf, e: nat)
    requires e == 0 || a != 0
    ensures Pow(a, e) != 0
    decreases e
  {
    hide Mul;
    if e > 0 {
      PowNonZero(a, e - 1);
      NoZeroDivisors(a, Pow(a, e - 1));
    }
  }

  /** Any number of consecutive parities repair as many missing fragments if and only if their points differ and,
      where parity 0 is not among them, are not zero. */
  lemma ConsecutiveExact(rows: seq<nat>, cols: seq<nat>, start: nat)
    requires |rows| == |cols| && Consecutive(rows, start)
    ensures Recoverable(rows, cols) <==> Repairable(rows, cols)
  {
    hide Dot, CoefRow, Point;
    if Repairable(rows, cols) {
      var a := CoefMatrix(rows, cols);
      forall x: Vec | |x| == |cols| && InKernel(a, x)
        ensures forall c :: 0 <= c < |cols| ==> x[c] == 0
      {
        forall p: nat | start <= p < start + |cols| ensures Dot(CoefRow(p, cols), x, |cols|) == 0 {
          assert a[p - start] == CoefRow(rows[p - start], cols);
        }
        forall c | 0 <= c < |cols| ensures x[c] == 0 {
          KernelEntryZero(start, cols, x, c);
        }
      }
    } else if !DistinctPoints(cols) {
      var c, d :| 0 <= c < d < |cols| && Point(cols[c]) == Point(cols[d]);
      EqualPointsSingular(rows, cols, c, d);
    } else {
      var c :| 0 <= c < |cols| && Point(cols[c]) == 0;
      ZeroPointSingular(rows, cols, c);
    }
  }
}
