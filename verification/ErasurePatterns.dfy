/** Which erasures the code of tight/src/fec.cpp repairs, and that what it repairs is the original.

    The comment in the decoder says that no square submatrix of its coefficients is singular. That is not
    so in general (`CubeRootsSingular`, `WrappedIndexSingular`); `SmallRowsExact` gives the precise set of
    erasure patterns that parities 0, 1 and 2 repair, which are the only ones the fragmenter sends. */
module ErasurePatterns {
  import opened Octets
  import opened Gf256
  import opened GfLinear
  import opened GaussJordan
  import opened ReedSolomon

  // ---------- What decoding returns is the original ----------

  function Pad(f: Bytes, width: nat): (r: Bytes)
    ensures |r| == width && forall i :: 0 <= i < width ==> r[i] == At(f, i)
  {
    seq(width, i requires 0 <= i < width => At(f, i))
  }

  /** The received fragments carry the first `width` bytes of the original ones. */
  ghost predicate Agrees(data: seq<Option<Bytes>>, orig: seq<Bytes>, width: nat) {
    && |data| == |orig|
    && forall j, i :: 0 <= j < |data| && data[j].Some? && 0 <= i < width ==> At(data[j].value, i) == At(orig[j], i)
  }

  /** Byte i of the missing fragments of a full data set. */
  ghost function MissingColumn(full: seq<Bytes>, mis: seq<nat>, i: nat): (x: Vec)
    requires forall c :: 0 <= c < |mis| ==> mis[c] < |full|
    ensures |x| == |mis| && forall c :: 0 <= c < |mis| ==> x[c] == At(full[mis[c]], i)
  {
    seq(|mis|, c requires 0 <= c < |mis| => At(full[mis[c]], i))
  }

  /** Two data sets with the same present part and the same parity p differ by a kernel vector of its row. */
  lemma {:induction false} EqualParityEqualDot(data: seq<Option<Bytes>>, d: seq<Bytes>, e: seq<Bytes>, p: nat, i: nat)
    requires |d| == |e| == |data|
    requires forall j :: 0 <= j < |data| && data[j].Some? ==> At(d[j], i) == At(data[j].value, i) == At(e[j], i)
    requires ParitySum(d, p, i, |data|) == ParitySum(e, p, i, |data|)
    ensures var mis := Missing(data, |data|);
            Dot(CoefRow(p, mis), MissingColumn(d, mis, i), |mis|) == Dot(CoefRow(p, mis), MissingColumn(e, mis, i), |mis|)
  {
    hide *;
    var mis := Missing(data, |data|);
    assert mis[..|mis|] == mis;
    SumSplits(data, d, p, mis, MissingColumn(d, mis, i), i, |data|, |mis|);
    SumSplits(data, e, p, mis, MissingColumn(e, mis, i), i, |data|, |mis|);
    AddInjective(PresentSum(data, p, i, |data|), Dot(CoefRow(p, mis), MissingColumn(d, mis, i), |mis|),
                 Dot(CoefRow(p, mis), MissingColumn(e, mis, i), |mis|));
  }

  lemma AddInjective(s: Gf, a: Gf, b: Gf)
    requires Add(s, a) == Add(s, b)
    ensures a == b
  {
    hide Add;
    AddAssoc(s, s, a);
    AddAssoc(s, s, b);
    AddSelf(s);
    AddZero(a);
    AddZero(b);
  }

  /** With a regular coefficient matrix the parities determine the missing bytes. */
  lemma MissingBytesDetermined(data: seq<Option<Bytes>>, d: seq<Bytes>, e: seq<Bytes>, rows: seq<nat>, i: nat)
    requires |d| == |e| == |data|
    requires forall j :: 0 <= j < |data| && data[j].Some? ==> At(d[j], i) == At(data[j].value, i) == At(e[j], i)
    requires |rows| == |Missing(data, |data|)| && Recoverable(rows, Missing(data, |data|))
    requires forall r :: 0 <= r < |rows| ==> ParitySum(d, rows[r], i, |data|) == ParitySum(e, rows[r], i, |data|)
    ensures forall c :: 0 <= c < |rows| ==>
              At(d[Missing(data, |data|)[c]], i) == At(e[Missing(data, |data|)[c]], i)
  {
    hide Add, Dot, ParitySum, Missing, MissingColumn, CoefMatrix, CoefRow, At;
    var mis := Missing(data, |data|);
    var x, y := MissingColumn(d, mis, i), MissingColumn(e, mis, i);
    var z := seq(|mis|, c requires 0 <= c < |mis| => Add(x[c], y[c]));
    var a := CoefMatrix(rows, mis);
    forall r | 0 <= r < |mis|
      ensures Dot(a[r], z, |mis|) == 0
    {
      EqualParityEqualDot(data, d, e, rows[r], i);
      DotAddRight(a[r], x, y, z, |mis|);
      AddSelf(Dot(a[r], x, |mis|));
    }
    assert InKernel(a, z);
    forall c | 0 <= c < |mis|
      ensures At(d[mis[c]], i) == At(e[mis[c]], i)
    {
      assert z[c] == 0;
      AddCancel(x[c], y[c]);
    }
  }

  /** Decoder soundness, with no bound on fragments, parities or width: a completion that reproduces the
      parities of the original, under a regular matrix, is the original padded to the width. */
  lemma {:induction false} DecodedIsOriginal(data: seq<Option<Bytes>>, full: seq<Option<Bytes>>, orig: seq<Bytes>,
                          parity: seq<(nat, Bytes)>, width: nat)
    requires |Missing(data, |data|)| <= |parity|
    requires Completes(data, full, width) && Agrees(data, orig, width)
    requires Satisfies(Values(full), parity, |Missing(data, |data|)|, width)
    requires Satisfies(orig, parity, |Missing(data, |data|)|, width)
    requires Recoverable(RowIndices(parity, |Missing(data, |data|)|), Missing(data, |data|))
    ensures forall j :: 0 <= j < |data| && data[j].None? ==> full[j] == Some(Pad(orig[j], width))
  {
    hide Recoverable, ParitySum, Missing, RowIndices;
    var mis := Missing(data, |data|);
    var rows := RowIndices(parity, |mis|);
    forall j | 0 <= j < |data| && data[j].None?
      ensures full[j] == Some(Pad(orig[j], width))
    {
      var c :| 0 <= c < |mis| && mis[c] == j;
      forall i | 0 <= i < width
        ensures full[j].value[i] == Pad(orig[j], width)[i]
      {
        MissingBytesDetermined(data, Values(full), orig, rows, i);
        assert At(Values(full)[mis[c]], i) == At(orig[mis[c]], i);
      }
      assert full[j].value == Pad(orig[j], width);
    }
  }

  // ---------- The decoder as a function ----------

  ghost predicate IsCompletion(data: seq<Option<Bytes>>, parity: seq<(nat, Bytes)>, width: nat, full: seq<Option<Bytes>>)
    requires |Missing(data, |data|)| <= |parity|
  {
    Completes(data, full, width) && Satisfies(Values(full), parity, |Missing(data, |data|)|, width)
  }

  ghost predicate Decodable(data: seq<Option<Bytes>>, parity: seq<(nat, Bytes)>, width: nat) {
    var m := |Missing(data, |data|)|;
    && m <= |parity|
    && Recoverable(RowIndices(parity, m), Missing(data, |data|))
    && exists full :: IsCompletion(data, parity, width, full)
  }

  /** The completion the parities determine, if they determine one. */
  ghost function DecodeResult(data: seq<Option<Bytes>>, parity: seq<(nat, Bytes)>, width: nat): Option<seq<Option<Bytes>>> {
    if Decodable(data, parity, width) then
      var full :| IsCompletion(data, parity, width, full);
      Some(full)
    else None
  }

  lemma {:induction false} CompletionUnique(data: seq<Option<Bytes>>, parity: seq<(nat, Bytes)>, width: nat,
                         f: seq<Option<Bytes>>, g: seq<Option<Bytes>>)
    requires |Missing(data, |data|)| <= |parity|
    requires Recoverable(RowIndices(parity, |Missing(data, |data|)|), Missing(data, |data|))
    requires IsCompletion(data, parity, width, f) && IsCompletion(data, parity, width, g)
    ensures f == g
  {
    hide Recoverable, Satisfies, Missing, RowIndices;
    DecodedIsOriginal(data, f, Values(g), parity, width);
    DecodedIsOriginal(data, g, Values(g), parity, width);
  }

  /** What `Decode` returns is `DecodeResult`. */
  lemma {:induction false} DecodeIsDecodeResult(data: seq<Option<Bytes>>, parity: seq<(nat, Bytes)>, width: nat,
                             ok: bool, full: seq<Option<Bytes>>)
    requires ok <==> (&& |Missing(data, |data|)| <= |parity|
                      && Recoverable(RowIndices(parity, |Missing(data, |data|)|), Missing(data, |data|)))
    requires ok ==> IsCompletion(data, parity, width, full)
    ensures DecodeResult(data, parity, width) == if ok then Some(full) else None
  {
    hide Recoverable, IsCompletion, Missing, RowIndices;
    if ok {
      assert Decodable(data, parity, width);
      CompletionUnique(data, parity, width, full, DecodeResult(data, parity, width).value);
    }
  }

  // ---------- Patterns that cannot be repaired, whatever the parities ----------

  lemma CoefOfEqualPoints(p: nat, i: nat, j: nat)
    requires Point(i) == Point(j)
    ensures Coef(p, i) == Coef(p, j)
  {
    hide Point, Pow;
  }

  /** Two missing fragments with the same evaluation point make the matrix singular. */
  lemma EqualPointsSingular(rows: seq<nat>, cols: seq<nat>, c: nat, d: nat)
    requires |rows| == |cols| && c < d < |cols| && Point(cols[c]) == Point(cols[d])
    ensures !Recoverable(rows, cols)
  {
    hide Add, Mul, Dot, Coef, Point, CoefRow, CoefMatrix;
    var m := |cols|;
    var a := CoefMatrix(rows, cols);
    var x: Vec := seq(m, k => if k == c || k == d then 1 else 0);
    forall r | 0 <= r < m
      ensures Dot(a[r], x, m) == 0
    {
      CoefOfEqualPoints(rows[r], cols[c], cols[d]);
      DotPair(a[r], x, c, d, m);
      AddSelf(Mul(a[r][c], 1));
    }
    assert InKernel(a, x);
    assert x[c] != 0;
  }

  /** A missing fragment with evaluation point zero is visible in parity 0 only. */
  lemma ZeroPointSingular(rows: seq<nat>, cols: seq<nat>, c: nat)
    requires |rows| == |cols| && c < |cols| && Point(cols[c]) == 0
    requires 0 !in rows
    ensures !Recoverable(rows, cols)
  {
    hide Add, Mul, Dot, Point, CoefRow, CoefMatrix, Pow;
    var m := |cols|;
    var a := CoefMatrix(rows, cols);
    var x: Vec := seq(m, k => if k == c then 1 else 0);
    forall r | 0 <= r < m
      ensures Dot(a[r], x, m) == 0
    {
      PowBase(rows[r]);
      DotNone(a[r], x, m);
    }
    assert InKernel(a, x);
    assert x[c] != 0;
  }

  // ---------- Small systems ----------

  lemma ShuffleToZero(p: Gf, q: Gf, r: Gf, s: Gf)
    requires Add(p, q) == 0 && Add(r, s) == 0 && q == s
    ensures Add(p, r) == 0
  {
    AddCancel(p, q);
    AddCancel(r, s);
    AddSelf(p);
  }

  /** Eliminating z from two equations leaves the determinant times y. */
  lemma Eliminate(a: Gf, b: Gf, c: Gf, d: Gf, y: Gf, z: Gf)
    requires Add(Mul(a, y), Mul(b, z)) == 0 && Add(Mul(c, y), Mul(d, z)) == 0
    ensures Mul(Add(Mul(a, d), Mul(b, c)), y) == 0
  {
    hide Add, Mul;
    // d * first and b * second
    MulAddRight(d, Mul(a, y), Mul(b, z));
    MulAddRight(b, Mul(c, y), Mul(d, z));
    MulZero(d);
    MulZero(b);
    calc { Mul(d, Mul(b, z)); { MulAssoc(d, b, z); MulComm(d, b); MulAssoc(b, d, z); } Mul(b, Mul(d, z)); }
    ShuffleToZero(Mul(d, Mul(a, y)), Mul(d, Mul(b, z)), Mul(b, Mul(c, y)), Mul(b, Mul(d, z)));
    MulAssoc(d, a, y);
    MulComm(d, a);
    MulAssoc(b, c, y);
    MulAddLeft(Mul(a, d), Mul(b, c), y);
  }

  lemma Kernel2(a: Gf, b: Gf, c: Gf, d: Gf, y: Gf, z: Gf)
    requires Add(Mul(a, y), Mul(b, z)) == 0 && Add(Mul(c, y), Mul(d, z)) == 0
    requires Add(Mul(a, d), Mul(b, c)) != 0
    ensures y == 0 && z == 0
  {
    hide Add, Mul;
    Eliminate(a, b, c, d, y, z);
    NoZeroDivisors(Add(Mul(a, d), Mul(b, c)), y);
    AddComm(Mul(a, y), Mul(b, z));
    AddComm(Mul(c, y), Mul(d, z));
    Eliminate(b, a, d, c, z, y);
    AddComm(Mul(a, d), Mul(b, c));
    NoZeroDivisors(Add(Mul(a, d), Mul(b, c)), z);
  }

  lemma Square(a: Gf, b: Gf)
    ensures Add(Mul(a, a), Mul(b, b)) == Mul(Add(a, b), Add(a, b))
  {
    hide Add, Mul;
    MulAddLeft(a, b, Add(a, b));
    MulAddRight(a, a, b);
    MulAddRight(b, a, b);
    MulComm(a, b);
    AddExchange(Mul(a, a), Mul(a, b), Mul(a, b), Mul(b, b));
    var e := Mul(a, b);
    AddAssoc(Mul(a, a), e, Add(e, Mul(b, b)));
    AddAssoc(e, e, Mul(b, b));
    AddSelf(e);
    AddZero(Mul(b, b));
  }

  lemma NonZeroSum(a: Gf, b: Gf)
    requires a != b
    ensures Add(a, b) != 0
  {
    AddCancel(a, b);
  }

  /** a*d*d + d*a*a is non-zero for distinct non-zero a, d: the determinant of rows {1, 2}. */
  lemma Det12(a: Gf, d: Gf)
    requires a != d && a != 0 && d != 0
    ensures Add(Mul(a, Mul(d, d)), Mul(d, Mul(a, a))) != 0
  {
    hide Add, Mul;
    calc {
      Add(Mul(a, Mul(d, d)), Mul(d, Mul(a, a)));
      { MulAssoc(a, d, d); MulAssoc(d, a, a); MulComm(a, d); }
      Add(Mul(Mul(a, d), d), Mul(Mul(a, d), a));
      { MulAddRight(Mul(a, d), d, a); }
      Mul(Mul(a, d), Add(d, a));
    }
    NonZeroSum(d, a);
    NoZeroDivisors(a, d);
    NoZeroDivisors(Mul(a, d), Add(d, a));
  }

  /** Using y0 == y1 + y2 to remove the first unknown. */
  lemma Substitute(a: Gf, b: Gf, c: Gf, y0: Gf, y1: Gf, y2: Gf)
    requires y0 == Add(y1, y2)
    requires Add(Add(Mul(a, y0), Mul(b, y1)), Mul(c, y2)) == 0
    ensures Add(Mul(Add(a, b), y1), Mul(Add(a, c), y2)) == 0
  {
    hide Add, Mul;
    MulAddRight(a, y1, y2);
    MulAddLeft(a, b, y1);
    MulAddLeft(a, c, y2);
    AddExchange(Mul(a, y1), Mul(b, y1), Mul(a, y2), Mul(c, y2));
    AddAssoc(Mul(a, y0), Mul(b, y1), Mul(c, y2));
  }

  lemma Kernel3(a: Gf, b: Gf, c: Gf, y0: Gf, y1: Gf, y2: Gf)
    requires a != b && a != c && b != c
    requires Add(Add(y0, y1), y2) == 0
    requires Add(Add(Mul(a, y0), Mul(b, y1)), Mul(c, y2)) == 0
    requires Add(Add(Mul(Mul(a, a), y0), Mul(Mul(b, b), y1)), Mul(Mul(c, c), y2)) == 0
    ensures y0 == 0 && y1 == 0 && y2 == 0
  {
    hide Add, Mul;
    AddAssoc(y0, y1, y2);
    AddCancel(y0, Add(y1, y2));
    Substitute(a, b, c, y0, y1, y2);
    Substitute(Mul(a, a), Mul(b, b), Mul(c, c), y0, y1, y2);
    Square(a, b);
    Square(a, c);
    var u, v := Add(a, b), Add(a, c);
    NonZeroSum(a, b);
    NonZeroSum(a, c);
    if u == v {
      AddInjective(a, b, c);
    }
    Det12(u, v);
    Kernel2(u, v, Mul(u, u), Mul(v, v), y1, y2);
    AddSelf(0);
  }

  lemma {:induction false} Dot1(u: Vec, v: Vec)
    requires |u| == 1 && |v| == 1
    ensures Dot(u, v, 1) == Mul(u[0], v[0])
  {
    hide Mul, Add;
    AddZero(Mul(u[0], v[0]));
    assert Dot(u, v, 0) == 0;
  }

  lemma {:induction false} Dot2(u: Vec, v: Vec)
    requires |u| == 2 && |v| == 2
    ensures Dot(u, v, 2) == Add(Mul(u[0], v[0]), Mul(u[1], v[1]))
  {
    hide Mul, Add;
    AddZero(Mul(u[0], v[0]));
    assert Dot(u, v, 0) == 0 && Dot(u, v, 1) == Add(Dot(u, v, 0), Mul(u[0], v[0]));
  }

  lemma {:induction false} Dot3(u: Vec, v: Vec)
    requires |u| == 3 && |v| == 3
    ensures Dot(u, v, 3) == Add(Add(Mul(u[0], v[0]), Mul(u[1], v[1])), Mul(u[2], v[2]))
  {
    hide Mul, Add;
    AddZero(Mul(u[0], v[0]));
    assert Dot(u, v, 0) == 0 && Dot(u, v, 1) == Add(Dot(u, v, 0), Mul(u[0], v[0]));
    assert Dot(u, v, 2) == Add(Dot(u, v, 1), Mul(u[1], v[1]));
  }

  lemma {:induction false} SmallPow(a: Gf)
    ensures Pow(a, 0) == 1 && Pow(a, 1) == a && Pow(a, 2) == Mul(a, a)
  {
    hide Mul;
    MulOne(a);
    assert Pow(a, 1) == Mul(a, Pow(a, 0));
  }

  lemma SmallCoef(j: nat)
    ensures Coef(0, j) == 1 && Coef(1, j) == Point(j) && Coef(2, j) == Mul(Point(j), Point(j))
  {
    hide Pow, Point, Mul;
    SmallPow(Point(j));
  }

  // ---------- The exact set of patterns that parities 0, 1 and 2 repair ----------

  predicate DistinctRows(rows: seq<nat>) {
    forall r, q :: 0 <= r < q < |rows| ==> rows[r] != rows[q]
  }

  predicate DistinctPoints(cols: seq<nat>) {
    forall c, d :: 0 <= c < d < |cols| ==> Point(cols[c]) != Point(cols[d])
  }

  /** The condition a caller can check: evaluation points differ, and none is zero unless parity 0 is there. */
  predicate Repairable(rows: seq<nat>, cols: seq<nat>) {
    DistinctPoints(cols) && (0 in rows || forall c :: 0 <= c < |cols| ==> Point(cols[c]) != 0)
  }

  lemma {:induction false} Regular1(rows: seq<nat>, cols: seq<nat>, x: Vec)
    requires |rows| == |cols| == |x| == 1 && rows[0] < 3 && Repairable(rows, cols)
    requires Dot(CoefRow(rows[0], cols), x, 1) == 0
    ensures x[0] == 0
  {
    hide Add, Mul, Dot, Point, Coef;
    Dot1(CoefRow(rows[0], cols), x);
    SmallCoef(cols[0]);
    NoZeroDivisors(Point(cols[0]), Point(cols[0]));
    NoZeroDivisors(Coef(rows[0], cols[0]), x[0]);
  }

  lemma {:induction false} Regular2(rows: seq<nat>, cols: seq<nat>, x: Vec)
    requires |rows| == |cols| == |x| == 2 && DistinctRows(rows) && Repairable(rows, cols)
    requires forall r :: 0 <= r < 2 ==> rows[r] < 3 && Dot(CoefRow(rows[r], cols), x, 2) == 0
    ensures x[0] == 0 && x[1] == 0
  {
    hide Add, Mul, Dot, Point, Coef, CoefRow;
    var a, b := Point(cols[0]), Point(cols[1]);
    Row2(rows[0], cols, x);
    Row2(rows[1], cols, x);
    if 0 in rows && 1 in rows {
      Det01(a, b);
      Kernel2(1, 1, a, b, x[0], x[1]);
    } else if 0 in rows && 2 in rows {
      Det02(a, b);
      Kernel2(1, 1, Mul(a, a), Mul(b, b), x[0], x[1]);
    } else {
      Det12(a, b);
      Kernel2(a, b, Mul(a, a), Mul(b, b), x[0], x[1]);
    }
  }

  /** Row p of a two-column system, written out. */
  lemma {:induction false} Row2(p: nat, cols: seq<nat>, x: Vec)
    requires p < 3 && |cols| == |x| == 2 && Dot(CoefRow(p, cols), x, 2) == 0
    ensures var a, b := Point(cols[0]), Point(cols[1]);
            && (p == 0 ==> Add(Mul(1, x[0]), Mul(1, x[1])) == 0)
            && (p == 1 ==> Add(Mul(a, x[0]), Mul(b, x[1])) == 0)
            && (p == 2 ==> Add(Mul(Mul(a, a), x[0]), Mul(Mul(b, b), x[1])) == 0)
  {
    hide Add, Mul, Dot, Point, Coef;
    Dot2(CoefRow(p, cols), x);
    SmallCoef(cols[0]);
    SmallCoef(cols[1]);
  }

  lemma Det01(a: Gf, b: Gf)
    requires a != b
    ensures Add(Mul(1, b), Mul(1, a)) != 0
  {
    hide Add, Mul;
    MulOne(a);
    MulOne(b);
    NonZeroSum(b, a);
  }

  lemma Det02(a: Gf, b: Gf)
    requires a != b
    ensures Add(Mul(1, Mul(b, b)), Mul(1, Mul(a, a))) != 0
  {
    hide Add, Mul;
    MulOne(Mul(a, a));
    MulOne(Mul(b, b));
    Square(b, a);
    NonZeroSum(b, a);
    NoZeroDivisors(Add(b, a), Add(b, a));
  }

  lemma {:induction false} Regular3(rows: seq<nat>, cols: seq<nat>, x: Vec)
    requires |rows| == |cols| == |x| == 3 && DistinctRows(rows) && Repairable(rows, cols)
    requires forall r :: 0 <= r < 3 ==> rows[r] < 3 && Dot(CoefRow(rows[r], cols), x, 3) == 0
    ensures x[0] == 0 && x[1] == 0 && x[2] == 0
  {
    hide Add, Mul, Dot, Point, Coef, CoefRow;
    var a, b, c := Point(cols[0]), Point(cols[1]), Point(cols[2]);
    ThreeBelowThree(rows[0], rows[1], rows[2], 0);
    ThreeBelowThree(rows[0], rows[1], rows[2], 1);
    ThreeBelowThree(rows[0], rows[1], rows[2], 2);
    assert Dot(CoefRow(0, cols), x, 3) == 0 && Dot(CoefRow(1, cols), x, 3) == 0 && Dot(CoefRow(2, cols), x, 3) == 0;
    Dot3(CoefRow(0, cols), x);
    Dot3(CoefRow(1, cols), x);
    Dot3(CoefRow(2, cols), x);
    SmallCoef(cols[0]);
    SmallCoef(cols[1]);
    SmallCoef(cols[2]);
    MulOne(x[0]);
    MulOne(x[1]);
    MulOne(x[2]);
    Kernel3(a, b, c, x[0], x[1], x[2]);
  }

  /** Parities with distinct indices among 0, 1, 2 repair an erasure pattern of the same size if and only if
      the evaluation points of the missing fragments differ and are non-zero where parity 0 is absent. */
  lemma SmallRowsExact(rows: seq<nat>, cols: seq<nat>)
    requires |rows| == |cols| && DistinctRows(rows)
    requires forall r :: 0 <= r < |rows| ==> rows[r] < 3
    ensures Recoverable(rows, cols) <==> Repairable(rows, cols)
  {
    hide Dot, CoefRow, CoefMatrix, Point;
    AtMostThree(rows);
    if Repairable(rows, cols) {
      var a := CoefMatrix(rows, cols);
      forall x: Vec | |x| == |cols| && InKernel(a, x)
        ensures forall c :: 0 <= c < |cols| ==> x[c] == 0
      {
        assert forall r :: 0 <= r < |cols| ==> Dot(CoefRow(rows[r], cols), x, |cols|) == 0;
        if |cols| == 1 {
          Regular1(rows, cols, x);
        } else if |cols| == 2 {
          Regular2(rows, cols, x);
        } else if |cols| == 3 {
          Regular3(rows, cols, x);
        }
      }
    } else if !DistinctPoints(cols) {
      var c, d :| 0 <= c < d < |cols| && Point(cols[c]) == Point(cols[d]);
      EqualPointsSingular(rows, cols, c, d);
    } else {
      var c :| 0 <= c < |cols| && Point(cols[c]) == 0;
      ZeroPointSingular(rows, cols, c);
    }
  }

  lemma AtMostThree(rows: seq<nat>)
    requires DistinctRows(rows) && forall r :: 0 <= r < |rows| ==> rows[r] < 3
    ensures |rows| <= 3
  {
    if |rows| > 3 {
      FourBelowThree(rows[0], rows[1], rows[2], rows[3]);
    }
  }

  lemma FourBelowThree(a: nat, b: nat, c: nat, d: nat)
    requires a < 3 && b < 3 && c < 3 && d < 3
    ensures a == b || a == c || a == d || b == c || b == d || c == d
  {}

  lemma ThreeBelowThree(a: nat, b: nat, c: nat, k: nat)
    requires a < 3 && b < 3 && c < 3 && a != b && a != c && b != c && k < 3
    ensures k == a || k == b || k == c
  {}

  lemma PointsOfIndices(i: nat, j: nat)
    ensures Point(i) == Point(j) <==> i % 256 == j % 256
    ensures Point(i) == 0 <==> i % 256 == 255
  {
    hide *;
    PointIndex(i);
    PointIndex(j);
    ByteRoundTrip(0);
    SuccessorMod(i, j);
    if i % 256 == j % 256 {
      IndexInjective(Point(i), Point(j));
    }
    if i % 256 == 255 {
      IndexInjective(Point(i), 0);
    }
  }

  lemma SuccessorMod(i: nat, j: nat)
    ensures (i + 1) % 256 == (j + 1) % 256 <==> i % 256 == j % 256
    ensures (i + 1) % 256 == 0 <==> i % 256 == 255
  {}

  lemma PointIndex(i: nat)
    ensures Index(Point(i)) == (i + 1) % 256
  {
    IndexOfByteOf(i + 1);
  }

  /** With at most 255 data fragments, every erasure pattern no larger than the received parities among
      0, 1, 2 is repaired. */
  lemma UpTo255AlwaysRecoverable(rows: seq<nat>, cols: seq<nat>)
    requires |rows| == |cols| && DistinctRows(rows)
    requires forall r :: 0 <= r < |rows| ==> rows[r] < 3
    requires forall c, d :: 0 <= c < d < |cols| ==> cols[c] < cols[d]
    requires forall c :: 0 <= c < |cols| ==> cols[c] < 255
    ensures Recoverable(rows, cols)
  {
    hide Recoverable, Point;
    forall c, d | 0 <= c < d < |cols|
      ensures Point(cols[c]) != Point(cols[d])
    {
      PointsOfIndices(cols[c], cols[d]);
    }
    forall c | 0 <= c < |cols|
      ensures Point(cols[c]) != 0
    {
      PointsOfIndices(cols[c], cols[c]);
    }
    SmallRowsExact(rows, cols);
  }

  // ---------- Where the claim of the source fails ----------

  /** Two parities p, q repair two missing fragments only if the determinant of their coefficients is non-zero. */
  lemma PairExact(p: nat, q: nat, i: nat, j: nat)
    ensures Recoverable([p, q], [i, j]) <==>
            Add(Mul(Coef(p, i), Coef(q, j)), Mul(Coef(p, j), Coef(q, i))) != 0
  {
    hide Add, Mul, Dot, Coef, CoefRow;
    var a, b, c, d := Coef(p, i), Coef(p, j), Coef(q, i), Coef(q, j);
    var m := CoefMatrix([p, q], [i, j]);
    assert m[0] == CoefRow(p, [i, j]) && m[1] == CoefRow(q, [i, j]);
    forall x: Vec | |x| == 2
      ensures InKernel(m, x) <==> Add(Mul(a, x[0]), Mul(b, x[1])) == 0 && Add(Mul(c, x[0]), Mul(d, x[1])) == 0
    {
      Dot2(m[0], x);
      Dot2(m[1], x);
      assert m[0][0] == a && m[0][1] == b && m[1][0] == c && m[1][1] == d;
      if InKernel(m, x) {
        assert Dot(m[0], x, 2) == 0 && Dot(m[1], x, 2) == 0;
      }
    }
    if Add(Mul(a, d), Mul(b, c)) != 0 {
      forall x: Vec | |x| == 2 && InKernel(m, x)
        ensures forall k :: 0 <= k < 2 ==> x[k] == 0
      {
        Kernel2(a, b, c, d, x[0], x[1]);
      }
    } else {
      var x := SingularPair(a, b, c, d);
      assert InKernel(m, x);
      assert x[0] != 0 || x[1] != 0;
    }
  }

  /** A singular two-by-two matrix has a kernel vector. */
  lemma SingularPair(a: Gf, b: Gf, c: Gf, d: Gf) returns (x: Vec)
    requires Add(Mul(a, d), Mul(b, c)) == 0
    ensures |x| == 2 && (x[0] != 0 || x[1] != 0)
    ensures Add(Mul(a, x[0]), Mul(b, x[1])) == 0 && Add(Mul(c, x[0]), Mul(d, x[1])) == 0
  {
    hide Add, Mul;
    AddSelf(Mul(a, b));
    AddSelf(Mul(c, d));
    AddSelf(0);
    MulComm(a, b);
    MulComm(c, d);
    MulComm(b, c);
    MulComm(a, d);
    AddComm(Mul(a, d), Mul(b, c));
    if a != 0 || b != 0 {
      x := [b, a];
    } else if c != 0 || d != 0 {
      MulZero(d);
      MulZero(c);
      x := [d, c];
    } else {
      MulZero(1);
      x := [1, 0];
      MulZero(0);
    }
  }

  /** Parities 0 and 3 cannot repair fragments 0 and 213: their evaluation points 1 and 0xD6 are both cube
      roots of one. So not every square submatrix is invertible. */
  lemma CubeRootsSingular()
    ensures !Recoverable([0, 3], [0, 213])
  {
    hide *;
    PointIndex(0);
    PointIndex(213);
    ByteRoundTrip(1);
    ByteRoundTrip(0xD6);
    IndexInjective(Point(0), 1);
    IndexInjective(Point(213), 0xD6);
    CubeRootsSingularAt(0, 3, 0, 213);
  }

  lemma CubeRootsSingularAt(p: nat, q: nat, i: nat, j: nat)
    requires p == 0 && q == 3 && Point(i) == 1 && Point(j) == 0xD6
    ensures !Recoverable([p, q], [i, j])
  {
    hide Recoverable, Mul, Add, Point, Pow;
    PairExact(p, q, i, j);
    PowOfOne(p);
    PowOfOne(q);
    CubeOfD6();
    AddSelf(Mul(1, 1));
  }

  lemma CubeOfD6()
    ensures Pow(0xD6, 0) == 1 && Pow(0xD6, 3) == 1
  {
    MulValues();
    hide Mul;
    SmallPow(0xD6);
    assert Pow(0xD6, 3) == Mul(0xD6, Pow(0xD6, 2));
  }

  /** Beyond 255 data fragments the indices wrap: no two parities repair fragments 0 and 256 together. */
  lemma WrappedIndexSingular(p: nat, q: nat)
    ensures !Recoverable([p, q], [0, 256])
  {
    PointsOfIndices(0, 256);
    EqualPointsSingular([p, q], [0, 256], 0, 1);
  }
}
