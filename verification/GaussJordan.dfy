/** The in-place Gauss-Jordan elimination of ReedSolomon::decode (tight/src/fec.cpp), on any system. */
module GaussJordan {
  import opened Octets
  import opened Gf256
  import opened GfLinear

  /** Byte i of a fragment, read as zero past its end. */
  function At(f: Vec, i: nat): Gf { if i < |f| then f[i] else 0 }

  /** dst ^= c * src over the first `width` bytes, with the two shortcuts of the source. */
  method MulAdd(t: GfTables, dst: Vec, src: Vec, c: Gf, width: nat) returns (r: Vec)
    requires ValidTables(t)
    ensures |r| == |dst|
    ensures forall i :: 0 <= i < |dst| ==> r[i] == if i < width then Add(dst[i], Mul(c, At(src, i))) else dst[i]
  {
    hide ValidTables, Mul, TableMul, Index, G;
    MulZeroEverywhere();
    AddZeroEverywhere();
    r := dst;
    if c == 0 || |src| == 0 {
      return;
    }
    var n := if |src| < width then |src| else width;
    n := if |dst| < n then |dst| else n;
    if c == 1 {
      for i := 0 to n
        invariant |r| == |dst|
        invariant forall k :: 0 <= k < i ==> r[k] == Add(dst[k], Mul(c, At(src, k)))
        invariant forall k :: i <= k < |dst| ==> r[k] == dst[k]
      {
        MulOne(src[i]);
        r := r[i := Add(r[i], src[i])];
      }
      return;
    }
    for i := 0 to n
      invariant |r| == |dst|
      invariant forall k :: 0 <= k < i ==> r[k] == Add(dst[k], Mul(c, At(src, k)))
      invariant forall k :: i <= k < |dst| ==> r[k] == dst[k]
    {
      if src[i] != 0 {
        LookupIsMul(t, c, src[i]);
        r := r[i := Add(r[i], Lookup(t, c, src[i]))];
      }
    }
  }

  /** exp[log[c] + log[b]] with log[c] fetched once, outside the loop. */
  function Lookup(t: GfTables, c: Gf, b: Gf): Gf
    requires ValidTables(t) && c != 0 && b != 0
  {
    t.exp[t.log[Index(c)] + t.log[Index(b)]]
  }

  lemma LookupIsMul(t: GfTables, c: Gf, b: Gf)
    requires ValidTables(t) && c != 0 && b != 0
    ensures Lookup(t, c, b) == Mul(c, b)
  {
    hide Mul, G;
    TableMulIsMul(t, c, b);
  }

  lemma MulZeroEverywhere()
    ensures forall a: Gf :: Mul(a, 0) == 0
    ensures forall a: Gf :: Mul(0, a) == 0
  {
    forall a: Gf
      ensures Mul(a, 0) == 0 && Mul(0, a) == 0
    {
      MulZero(a);
    }
  }

  lemma AddZeroEverywhere()
    ensures forall a: Gf :: Add(a, 0) == a
  {}

  /** row[j] = row[j] * k for j >= from. */
  method ScaleFrom(t: GfTables, row: Vec, from: nat, k: Gf) returns (r: Vec)
    requires ValidTables(t) && from <= |row|
    ensures |r| == |row|
    ensures forall j :: 0 <= j < from ==> r[j] == row[j]
    ensures forall j :: from <= j < |row| ==> r[j] == Mul(k, row[j])
  {
    hide *;
    r := row;
    for j := from to |row|
      invariant |r| == |row|
      invariant forall i :: 0 <= i < from ==> r[i] == row[i]
      invariant forall i :: from <= i < j ==> r[i] == Mul(k, row[i])
      invariant forall i :: j <= i < |row| ==> r[i] == row[i]
    {
      TableMulIsMul(t, r[j], k);
      MulComm(r[j], k);
      r := r[j := TableMul(t, r[j], k)];
    }
  }

  /** row[j] ^= f * pivot[j] for j >= from. */
  method AddScaledFrom(t: GfTables, row: Vec, from: nat, f: Gf, pivot: Vec) returns (r: Vec)
    requires ValidTables(t) && from <= |row| == |pivot|
    ensures |r| == |row|
    ensures forall j :: 0 <= j < from ==> r[j] == row[j]
    ensures forall j :: from <= j < |row| ==> r[j] == Add(row[j], Mul(f, pivot[j]))
  {
    hide *;
    r := row;
    for j := from to |row|
      invariant |r| == |row|
      invariant forall i :: 0 <= i < from ==> r[i] == row[i]
      invariant forall i :: from <= i < j ==> r[i] == Add(row[i], Mul(f, pivot[i]))
      invariant forall i :: j <= i < |row| ==> r[i] == row[i]
    {
      TableMulIsMul(t, f, pivot[j]);
      r := r[j := Add(r[j], TableMul(t, f, pivot[j]))];
    }
  }

  // ---------- Elimination ----------

  /** The first `col` columns are those of the identity matrix. */
  ghost predicate UnitColumns(a: Mat, m: nat, col: nat)
    requires |a| == m && col <= m && forall r :: 0 <= r < m ==> |a[r]| == m
  {
    forall r, c :: 0 <= r < m && 0 <= c < col ==> a[r][c] == if r == c then 1 else 0
  }

  ghost predicate KernelTrivial(a: Mat, m: nat)
    requires |a| == m && forall r :: 0 <= r < m ==> |a[r]| == m
  {
    forall x: Vec | |x| == m && InKernel(a, x) :: forall c :: 0 <= c < m ==> x[c] == 0
  }

  ghost predicate InKernel(a: Mat, x: Vec)
    requires |a| == |x| && forall r :: 0 <= r < |x| ==> |a[r]| == |x|
  {
    forall r :: 0 <= r < |x| ==> Dot(a[r], x, |x|) == 0
  }

  /** The kernel of the matrix is the slice y == 0 of the null space. */
  lemma KernelIsNullSlice(a: Mat, syn: Mat, x: Vec, w: nat)
    requires IsSystem(a, syn, |x|, w)
    ensures InKernel(a, x) <==> Null(a, syn, x, Zeros(w))
  {
    hide Add, Dot, Zeros;
    forall r | 0 <= r < |x|
      ensures RowValue(a[r], syn[r], x, Zeros(w)) == Dot(a[r], x, |x|)
    {
      DotNone(syn[r], Zeros(w), w);
      AddZero(Dot(a[r], x, |x|));
    }
  }

  lemma SameNullSameKernel(a: Mat, s: Mat, b: Mat, t: Mat, m: nat, w: nat)
    requires IsSystem(a, s, m, w) && IsSystem(b, t, m, w) && SameNull(a, s, b, t, m, w)
    ensures KernelTrivial(a, m) <==> KernelTrivial(b, m)
  {
    hide InKernel, Null, Zeros;
    forall x: Vec | |x| == m
      ensures InKernel(a, x) <==> InKernel(b, x)
    {
      KernelIsNullSlice(a, s, x, w);
      KernelIsNullSlice(b, t, x, w);
      assert Null(a, s, x, Zeros(w)) <==> Null(b, t, x, Zeros(w));
    }
  }

  /** A column without a pivot gives a kernel vector, so the matrix is singular. */
  lemma NoPivotSingular(a: Mat, m: nat, col: nat)
    requires |a| == m && col < m && forall r :: 0 <= r < m ==> |a[r]| == m
    requires UnitColumns(a, m, col)
    requires forall r :: col <= r < m ==> a[r][col] == 0
    ensures !KernelTrivial(a, m)
  {
    var x := seq(m, c requires 0 <= c < m => if c < col then a[c][col] else if c == col then 1 else 0);
    hide Dot, Mul, Add;
    forall r | 0 <= r < m
      ensures Dot(a[r], x, m) == 0
    {
      if r < col {
        DotPair(a[r], x, r, col, m);
        MulOne(x[r]);
        MulOne(a[r][col]);
        AddSelf(a[r][col]);
      } else {
        DotNone(a[r], x, m);
      }
    }
    assert InKernel(a, x);
    assert x[col] != 0;
  }

  lemma IdentityRegular(a: Mat, m: nat)
    requires |a| == m && forall r :: 0 <= r < m ==> |a[r]| == m
    requires UnitColumns(a, m, m)
    ensures KernelTrivial(a, m)
  {
    hide Dot, Mul;
    forall x: Vec | |x| == m && InKernel(a, x)
      ensures forall c :: 0 <= c < m ==> x[c] == 0
    {
      forall c | 0 <= c < m
        ensures x[c] == 0
      {
        DotSingle(a[c], x, c, m);
        MulOne(x[c]);
      }
    }
  }

  method FindPivot(a: Mat, m: nat, col: nat) returns (pivot: nat)
    requires |a| == m && col < m && forall r :: 0 <= r < m ==> |a[r]| == m
    ensures col <= pivot <= m
    ensures pivot < m ==> a[pivot][col] != 0
    ensures forall r :: col <= r < pivot ==> a[r][col] == 0
  {
    pivot := col;
    while pivot < m && a[pivot][col] == 0
      invariant col <= pivot <= m
      invariant forall r :: col <= r < pivot ==> a[r][col] == 0
    {
      pivot := pivot + 1;
    }
  }

  /** Makes the pivot one. */
  method NormalizePivot(t: GfTables, a: Mat, syn: Mat, col: nat, ghost m: nat, ghost w: nat)
    returns (b: Mat, tyn: Mat)
    requires ValidTables(t)
    requires IsSystem(a, syn, m, w) && col < m
    requires UnitColumns(a, m, col) && a[col][col] != 0
    ensures IsSystem(b, tyn, m, w) && SameNull(a, syn, b, tyn, m, w)
    ensures UnitColumns(b, m, col) && b[col][col] == 1
  {
    hide ValidTables, Mul, TableInv, SameNull;
    var inv := TableInv(t, a[col][col]);
    TableInvIsInverse(t, a[col][col]);
    MulComm(inv, a[col][col]);
    MulZero(inv);
    var row := ScaleFrom(t, a[col], col, inv);
    var rhs := ScaleFrom(t, syn[col], 0, inv);
    b := a[col := row];
    tyn := syn[col := rhs];
    ScaleKeepsNull(a, syn, col, inv, row, rhs, m, w);
  }

  /** Clears column `col` in every row but the pivot row. */
  method EliminateColumn(t: GfTables, a: Mat, syn: Mat, col: nat, m: nat, w: nat)
    returns (b: Mat, tyn: Mat)
    requires ValidTables(t)
    requires IsSystem(a, syn, m, w) && col < m
    requires UnitColumns(a, m, col) && a[col][col] == 1
    ensures IsSystem(b, tyn, m, w) && SameNull(a, syn, b, tyn, m, w)
    ensures UnitColumns(b, m, col + 1)
  {
    hide ValidTables, Mul, SameNull, Add;
    b, tyn := a, syn;
    SameNullReflexive(a, syn, m, w);
    for r := 0 to m
      invariant IsSystem(b, tyn, m, w) && SameNull(a, syn, b, tyn, m, w)
      invariant UnitColumns(b, m, col) && b[col][col] == 1
      invariant forall q :: 0 <= q < r && q != col ==> b[q][col] == 0
    {
      if r != col {
        var f := b[r][col];
        if f != 0 {
          var row := AddScaledFrom(t, b[r], col, f, b[col]);
          var rhs := MulAdd(t, tyn[r], tyn[col], f, w);
          EliminatedRow(b, r, col, f, row, m);
          AddScaledKeepsNull(b, tyn, r, f, col, row, rhs, m, w);
          SameNullTransitive(a, syn, b, tyn, b[r := row], tyn[r := rhs], m, w);
          b := b[r := row];
          tyn := tyn[r := rhs];
        }
      }
    }
  }

  lemma SameNullReflexive(a: Mat, s: Mat, m: nat, w: nat)
    requires IsSystem(a, s, m, w)
    ensures SameNull(a, s, a, s, m, w)
  {}

  /** The row update that starts at `col` is the full one, because the pivot row is zero before `col`. */
  lemma EliminatedRow(b: Mat, r: nat, col: nat, f: Gf, row: Vec, m: nat)
    requires |b| == m && col < m && r < m && r != col && forall q :: 0 <= q < m ==> |b[q]| == m
    requires UnitColumns(b, m, col) && b[col][col] == 1 && f == b[r][col]
    requires |row| == m
    requires forall j :: 0 <= j < col ==> row[j] == b[r][j]
    requires forall j :: col <= j < m ==> row[j] == Add(b[r][j], Mul(f, b[col][j]))
    ensures forall j :: 0 <= j < m ==> row[j] == Add(b[r][j], Mul(f, b[col][j]))
    ensures row[col] == 0
  {
    hide Mul, Add;
    forall j | 0 <= j < col
      ensures row[j] == Add(b[r][j], Mul(f, b[col][j]))
    {
      MulZero(f);
      AddZero(b[r][j]);
    }
    MulOne(f);
    AddSelf(f);
  }

  /** Brings the matrix to the identity, or stops at a column without a pivot: it succeeds exactly for
      the regular matrices, and the reduced system has the solutions of the given one. */
  method Reduce(t: GfTables, a0: Mat, syn0: Mat, m: nat, w: nat) returns (ok: bool, a: Mat, syn: Mat)
    requires ValidTables(t)
    requires IsSystem(a0, syn0, m, w)
    ensures IsSystem(a, syn, m, w) && SameNull(a0, syn0, a, syn, m, w)
    ensures ok <==> KernelTrivial(a0, m)
    ensures ok ==> UnitColumns(a, m, m)
  {
    hide ValidTables, SameNull, KernelTrivial;
    a, syn := a0, syn0;
    SameNullReflexive(a0, syn0, m, w);
    for col := 0 to m
      invariant IsSystem(a, syn, m, w) && SameNull(a0, syn0, a, syn, m, w)
      invariant UnitColumns(a, m, col)
    {
      var pivot := FindPivot(a, m, col);
      if pivot == m {
        NoPivotSingular(a, m, col);
        SameNullSameKernel(a0, syn0, a, syn, m, w);
        ok := false;
        return;
      }
      ghost var a1, s1 := a, syn;
      if pivot != col {
        SwapKeepsNull(a, syn, pivot, col, m, w);
        a := a[pivot := a[col]][col := a[pivot]];
        syn := syn[pivot := syn[col]][col := syn[pivot]];
        SameNullTransitive(a0, syn0, a1, s1, a, syn, m, w);
      }
      ghost var a2, s2 := a, syn;
      a, syn := NormalizePivot(t, a, syn, col, m, w);
      SameNullTransitive(a0, syn0, a2, s2, a, syn, m, w);
      ghost var a3, s3 := a, syn;
      a, syn := EliminateColumn(t, a, syn, col, m, w);
      SameNullTransitive(a0, syn0, a3, s3, a, syn, m, w);
    }
    IdentityRegular(a, m);
    SameNullSameKernel(a0, syn0, a, syn, m, w);
    ok := true;
  }
}
