/** Vectors and linear systems over GF(2^8), as used by the erasure decoder.

    A system has rows `a[r]` over the unknowns and right-hand sides `syn[r]`, one entry for each byte
    position. A pair (x, y) is in its null space when a[r] . x + syn[r] . y == 0 for every row: with
    y == 0 that is the kernel of the matrix, with y the i-th unit vector it says that x solves the
    system at byte i. Row operations keep the null space, so they keep both. */
module GfLinear {
  import opened Gf256

  type Vec = seq<Gf>
  type Mat = seq<Vec>

  /** u[0]*v[0] + ... + u[n-1]*v[n-1] */
  function Dot(u: Vec, v: Vec, n: nat): Gf
    requires n <= |u| && n <= |v|
    decreases n
  {
    if n == 0 then 0 else Add(Dot(u, v, n - 1), Mul(u[n - 1], v[n - 1]))
  }

  lemma {:induction false} DotScale(u: Vec, k: Gf, s: Vec, v: Vec, n: nat)
    requires n <= |u| && n <= |s| && n <= |v|
    requires forall i :: 0 <= i < n ==> s[i] == Mul(k, u[i])
    ensures Dot(s, v, n) == Mul(k, Dot(u, v, n))
    decreases n
  {
    hide Add, Mul;
    if n == 0 {
      MulZero(k);
    } else {
      DotScale(u, k, s, v, n - 1);
      MulAssoc(k, u[n - 1], v[n - 1]);
      MulAddRight(k, Dot(u, v, n - 1), Mul(u[n - 1], v[n - 1]));
    }
  }

  lemma {:induction false} DotAddScaled(u: Vec, k: Gf, w: Vec, s: Vec, v: Vec, n: nat)
    requires n <= |u| && n <= |w| && n <= |s| && n <= |v|
    requires forall i :: 0 <= i < n ==> s[i] == Add(u[i], Mul(k, w[i]))
    ensures Dot(s, v, n) == Add(Dot(u, v, n), Mul(k, Dot(w, v, n)))
    decreases n
  {
    hide Add, Mul;
    if n == 0 {
      MulZero(k);
      AddSelf(0);
    } else {
      DotAddScaled(u, k, w, s, v, n - 1);
      MulAddLeft(u[n - 1], Mul(k, w[n - 1]), v[n - 1]);
      MulAssoc(k, w[n - 1], v[n - 1]);
      MulAddRight(k, Dot(w, v, n - 1), Mul(w[n - 1], v[n - 1]));
      AddExchange(Dot(u, v, n - 1), Mul(k, Dot(w, v, n - 1)), Mul(u[n - 1], v[n - 1]), Mul(k, Mul(w[n - 1], v[n - 1])));
    }
  }

  lemma {:induction false} DotComm(u: Vec, v: Vec, n: nat)
    requires n <= |u| && n <= |v|
    ensures Dot(u, v, n) == Dot(v, u, n)
    decreases n
  {
    hide Add, Mul;
    if n > 0 {
      DotComm(u, v, n - 1);
      MulComm(u[n - 1], v[n - 1]);
    }
  }

  /** The dot product is additive in its second argument. */
  lemma {:induction false} DotAddRight(u: Vec, v: Vec, w: Vec, s: Vec, n: nat)
    requires n <= |u| && n <= |v| && n <= |w| && n <= |s|
    requires forall i :: 0 <= i < n ==> s[i] == Add(v[i], w[i])
    ensures Dot(u, s, n) == Add(Dot(u, v, n), Dot(u, w, n))
  {
    hide *;
    forall i | 0 <= i < n
      ensures s[i] == Add(v[i], Mul(1, w[i]))
    {
      MulOne(w[i]);
    }
    DotAddScaled(v, 1, w, s, u, n);
    MulOne(Dot(w, u, n));
    DotComm(u, s, n);
    DotComm(u, v, n);
    DotComm(u, w, n);
  }

  lemma {:induction false} DotNone(u: Vec, v: Vec, n: nat)
    requires n <= |u| && n <= |v|
    requires forall i :: 0 <= i < n ==> u[i] == 0 || v[i] == 0
    ensures Dot(u, v, n) == 0
    decreases n
  {
    hide Add, Mul;
    if n > 0 {
      DotNone(u, v, n - 1);
      MulZero(u[n - 1]);
      MulZero(v[n - 1]);
      AddSelf(0);
    }
  }

  /** If only position k can contribute, the dot product is that one term. */
  lemma {:induction false} DotSingle(u: Vec, v: Vec, k: nat, n: nat)
    requires k < n <= |u| && n <= |v|
    requires forall i :: 0 <= i < n && i != k ==> u[i] == 0 || v[i] == 0
    ensures Dot(u, v, n) == Mul(u[k], v[k])
    decreases n
  {
    hide Add, Mul;
    AddZero(Mul(u[k], v[k]));
    if k == n - 1 {
      DotNone(u, v, n - 1);
    } else {
      DotSingle(u, v, k, n - 1);
      MulZero(u[n - 1]);
      MulZero(v[n - 1]);
    }
  }

  /** If only positions j < k can contribute, the dot product is those two terms. */
  lemma {:induction false} DotPair(u: Vec, v: Vec, j: nat, k: nat, n: nat)
    requires j < k < n <= |u| && n <= |v|
    requires forall i :: 0 <= i < n && i != j && i != k ==> u[i] == 0 || v[i] == 0
    ensures Dot(u, v, n) == Add(Mul(u[j], v[j]), Mul(u[k], v[k]))
    decreases n
  {
    hide Add, Mul;
    if k == n - 1 {
      DotSingle(u, v, j, n - 1);
    } else {
      DotPair(u, v, j, k, n - 1);
      MulZero(u[n - 1]);
      MulZero(v[n - 1]);
      AddZero(Dot(u, v, n - 1));
    }
  }

  // ---------- Systems and their null space ----------

  predicate IsSystem(a: Mat, syn: Mat, m: nat, w: nat) {
    && |a| == m && |syn| == m
    && (forall r :: 0 <= r < m ==> |a[r]| == m)
    && (forall r :: 0 <= r < m ==> |syn[r]| == w)
  }

  ghost function RowValue(a: Vec, s: Vec, x: Vec, y: Vec): Gf
    requires |a| == |x| && |s| == |y|
  {
    Add(Dot(a, x, |x|), Dot(s, y, |y|))
  }

  ghost predicate Null(a: Mat, syn: Mat, x: Vec, y: Vec)
    requires IsSystem(a, syn, |x|, |y|)
  {
    forall r :: 0 <= r < |x| ==> RowValue(a[r], syn[r], x, y) == 0
  }

  ghost predicate SameNull(a: Mat, syn: Mat, b: Mat, tyn: Mat, m: nat, w: nat)
    requires IsSystem(a, syn, m, w) && IsSystem(b, tyn, m, w)
  {
    forall x: Vec, y: Vec | |x| == m && |y| == w :: Null(a, syn, x, y) <==> Null(b, tyn, x, y)
  }

  lemma SameNullTransitive(a: Mat, s: Mat, b: Mat, t: Mat, c: Mat, u: Mat, m: nat, w: nat)
    requires IsSystem(a, s, m, w) && IsSystem(b, t, m, w) && IsSystem(c, u, m, w)
    requires SameNull(a, s, b, t, m, w) && SameNull(b, t, c, u, m, w)
    ensures SameNull(a, s, c, u, m, w)
  {
    hide IsSystem, Null;
    forall x: Vec, y: Vec | |x| == m && |y| == w
      ensures Null(a, s, x, y) <==> Null(c, u, x, y)
    {
      assert Null(a, s, x, y) <==> Null(b, t, x, y);
    }
  }

  /** Exchanging two rows keeps the null space. */
  lemma SwapKeepsNull(a: Mat, s: Mat, i: nat, j: nat, m: nat, w: nat)
    requires IsSystem(a, s, m, w) && i < m && j < m
    ensures IsSystem(a[i := a[j]][j := a[i]], s[i := s[j]][j := s[i]], m, w)
    ensures SameNull(a, s, a[i := a[j]][j := a[i]], s[i := s[j]][j := s[i]], m, w)
  {
    var b, t := a[i := a[j]][j := a[i]], s[i := s[j]][j := s[i]];
    hide RowValue;
    forall x: Vec, y: Vec | |x| == m && |y| == w
      ensures Null(a, s, x, y) <==> Null(b, t, x, y)
    {
      if Null(b, t, x, y) {
        assert RowValue(b[i], t[i], x, y) == 0 && RowValue(b[j], t[j], x, y) == 0;
        forall r | 0 <= r < m
          ensures RowValue(a[r], s[r], x, y) == 0
        {
          assert RowValue(b[r], t[r], x, y) == 0;
        }
      }
    }
  }

  lemma RowValueScale(a: Vec, s: Vec, k: Gf, b: Vec, t: Vec, x: Vec, y: Vec)
    requires |a| == |b| == |x| && |s| == |t| == |y|
    requires forall i :: 0 <= i < |a| ==> b[i] == Mul(k, a[i])
    requires forall i :: 0 <= i < |s| ==> t[i] == Mul(k, s[i])
    ensures RowValue(b, t, x, y) == Mul(k, RowValue(a, s, x, y))
  {
    hide Dot, Mul, Add;
    DotScale(a, k, b, x, |x|);
    DotScale(s, k, t, y, |y|);
    MulAddRight(k, Dot(a, x, |x|), Dot(s, y, |y|));
  }

  /** Scaling a row by a non-zero element keeps the null space. */
  lemma ScaleKeepsNull(a: Mat, s: Mat, r: nat, k: Gf, b: Vec, t: Vec, m: nat, w: nat)
    requires IsSystem(a, s, m, w) && r < m && k != 0
    requires |b| == m && |t| == w
    requires forall i :: 0 <= i < m ==> b[i] == Mul(k, a[r][i])
    requires forall i :: 0 <= i < w ==> t[i] == Mul(k, s[r][i])
    ensures IsSystem(a[r := b], s[r := t], m, w)
    ensures SameNull(a, s, a[r := b], s[r := t], m, w)
  {
    hide RowValue, Mul;
    forall x: Vec, y: Vec | |x| == m && |y| == w
      ensures Null(a, s, x, y) <==> Null(a[r := b], s[r := t], x, y)
    {
      RowValueScale(a[r], s[r], k, b, t, x, y);
      NoZeroDivisors(k, RowValue(a[r], s[r], x, y));
      if Null(a[r := b], s[r := t], x, y) {
        forall q | 0 <= q < m
          ensures RowValue(a[q], s[q], x, y) == 0
        {
          assert RowValue(a[r := b][q], s[r := t][q], x, y) == 0;
        }
      }
    }
  }

  lemma RowValueAddScaled(a: Vec, s: Vec, k: Gf, c: Vec, u: Vec, b: Vec, t: Vec, x: Vec, y: Vec)
    requires |a| == |b| == |c| == |x| && |s| == |t| == |u| == |y|
    requires forall i :: 0 <= i < |a| ==> b[i] == Add(a[i], Mul(k, c[i]))
    requires forall i :: 0 <= i < |s| ==> t[i] == Add(s[i], Mul(k, u[i]))
    ensures RowValue(b, t, x, y) == Add(RowValue(a, s, x, y), Mul(k, RowValue(c, u, x, y)))
  {
    hide Dot, Mul, Add;
    DotAddScaled(a, k, c, b, x, |x|);
    DotAddScaled(s, k, u, t, y, |y|);
    MulAddRight(k, Dot(c, x, |x|), Dot(u, y, |y|));
    AddExchange(Dot(a, x, |x|), Mul(k, Dot(c, x, |x|)), Dot(s, y, |y|), Mul(k, Dot(u, y, |y|)));
  }

  /** Adding a multiple of one row to another keeps the null space. */
  lemma AddScaledKeepsNull(a: Mat, s: Mat, r: nat, k: Gf, p: nat, b: Vec, t: Vec, m: nat, w: nat)
    requires IsSystem(a, s, m, w) && r < m && p < m && r != p
    requires |b| == m && |t| == w
    requires forall i :: 0 <= i < m ==> b[i] == Add(a[r][i], Mul(k, a[p][i]))
    requires forall i :: 0 <= i < w ==> t[i] == Add(s[r][i], Mul(k, s[p][i]))
    ensures IsSystem(a[r := b], s[r := t], m, w)
    ensures SameNull(a, s, a[r := b], s[r := t], m, w)
  {
    hide RowValue, Mul, Add;
    forall x: Vec, y: Vec | |x| == m && |y| == w
      ensures Null(a, s, x, y) <==> Null(a[r := b], s[r := t], x, y)
    {
      RowValueAddScaled(a[r], s[r], k, a[p], s[p], b, t, x, y);
      MulZero(k);
      AddZero(RowValue(a[r], s[r], x, y));
      if Null(a[r := b], s[r := t], x, y) {
        assert RowValue(a[r := b][p], s[r := t][p], x, y) == 0;
        forall q | 0 <= q < m
          ensures RowValue(a[q], s[q], x, y) == 0
        {
          assert RowValue(a[r := b][q], s[r := t][q], x, y) == 0;
        }
      }
    }
  }
}
