/** The erasure code of tight/src/fec.cpp: encoder, decoder, and what the decoder recovers.

    Parity p of a message is the sum over the data fragments j of Coef(p, j) * fragment j, byte by byte,
    with fragments read as zero past their end. */
module ReedSolomon {
  import opened Octets
  import opened Gf256
  import opened GfLinear
  import opened GaussJordan

  // ---------- Encoding ----------

  /** The evaluation point of a data fragment; the source narrows the index to eight bits. */
  function Point(dataIndex: nat): Gf { ByteOf(dataIndex + 1) }

  function Coef(p: nat, j: nat): Gf { Pow(Point(j), p) }

  /** Byte i of parity p over the first n data fragments. */
  function ParitySum(data: seq<Bytes>, p: nat, i: nat, n: nat): Gf
    requires n <= |data|
    decreases n
  {
    if n == 0 then 0 else Add(ParitySum(data, p, i, n - 1), Mul(Coef(p, n - 1), At(data[n - 1], i)))
  }

  function TableCoef(t: GfTables, p: nat, j: nat): (c: Gf)
    requires ValidTables(t)
    ensures c == Coef(p, j)
  {
    TablePowIsPow(t, Point(j), p);
    TablePow(t, Point(j), p)
  }

  /** Writes the parities over the caller's buffers, which may hold old contents and be longer than needed. */
  method EncodeInto(t: GfTables, fragments: seq<Bytes>, parityCount: nat, width: nat, buffers: seq<Bytes>)
    returns (out: seq<Bytes>)
    requires ValidTables(t)
    ensures |out| == if |buffers| < parityCount then parityCount else |buffers|
    ensures forall p :: 0 <= p < parityCount ==> width <= |out[p]|
    ensures forall p, i :: 0 <= p < parityCount && 0 <= i < width ==>
              out[p][i] == ParitySum(fragments, p, i, |fragments|)
    ensures forall p :: parityCount <= p < |buffers| ==> out[p] == buffers[p]
  {
    hide *;
    out := buffers;
    if |out| < parityCount {
      out := out + seq(parityCount - |out|, _ => []);
    }
    for p := 0 to parityCount
      invariant |out| == if |buffers| < parityCount then parityCount else |buffers|
      invariant forall q :: 0 <= q < p ==> width <= |out[q]|
      invariant forall q, i :: 0 <= q < p && 0 <= i < width ==>
                  out[q][i] == ParitySum(fragments, q, i, |fragments|)
      invariant forall q :: parityCount <= q < |buffers| ==> out[q] == buffers[q]
    {
      var row := EncodeRow(t, fragments, p, width, out[p]);
      out := out[p := row];
    }
  }

  method EncodeRow(t: GfTables, fragments: seq<Bytes>, p: nat, width: nat, buffer: Bytes) returns (row: Bytes)
    requires ValidTables(t)
    ensures width <= |row|
    ensures forall i :: 0 <= i < width ==> row[i] == ParitySum(fragments, p, i, |fragments|)
  {
    hide Mul, Coef, ValidTables, At;
    row := if |buffer| < width then seq(width, _ => 0) else seq(width, _ => 0) + buffer[width..];
    for j := 0 to |fragments|
      invariant width <= |row|
      invariant forall i :: 0 <= i < width ==> row[i] == ParitySum(fragments, p, i, j)
    {
      row := MulAdd(t, row, fragments[j], TableCoef(t, p, j), width);
    }
  }

  // ---------- Decoding ----------

  function Missing(data: seq<Option<Bytes>>, n: nat): (mis: seq<nat>)
    requires n <= |data|
    ensures |mis| <= n
    ensures forall c :: 0 <= c < |mis| ==> mis[c] < n && data[mis[c]].None?
    ensures forall c, d :: 0 <= c < d < |mis| ==> mis[c] < mis[d]
    ensures forall j :: 0 <= j < n && data[j].None? ==> j in mis
  {
    if n == 0 then []
    else if data[n - 1].None? then Missing(data, n - 1) + [n - 1]
    else Missing(data, n - 1)
  }

  method CollectMissing(data: seq<Option<Bytes>>) returns (mis: seq<nat>)
    ensures mis == Missing(data, |data|)
  {
    mis := [];
    for i := 0 to |data|
      invariant mis == Missing(data, i)
    {
      if data[i].None? {
        mis := mis + [i];
      }
    }
  }

  /** Byte i of what the present data fragments contribute to parity p. */
  function PresentSum(data: seq<Option<Bytes>>, p: nat, i: nat, n: nat): Gf
    requires n <= |data|
    decreases n
  {
    if n == 0 then 0
    else if data[n - 1].None? then PresentSum(data, p, i, n - 1)
    else Add(PresentSum(data, p, i, n - 1), Mul(Coef(p, n - 1), At(data[n - 1].value, i)))
  }

  function Syndrome(data: seq<Option<Bytes>>, p: nat, parity: Bytes, i: nat): Gf {
    Add(At(parity, i), PresentSum(data, p, i, |data|))
  }

  method ComputeSyndrome(t: GfTables, data: seq<Option<Bytes>>, p: nat, parity: Bytes, width: nat)
    returns (syn: Bytes)
    requires ValidTables(t)
    ensures |syn| == width
    ensures forall i :: 0 <= i < width ==> syn[i] == Syndrome(data, p, parity, i)
  {
    hide Mul, Add, Coef, ValidTables, At;
    syn := seq(width, i requires 0 <= i < width => At(parity, i));
    forall i | 0 <= i < width
      ensures Add(At(parity, i), 0) == At(parity, i)
    {
      AddZero(At(parity, i));
    }
    for j := 0 to |data|
      invariant |syn| == width
      invariant forall i :: 0 <= i < width ==> syn[i] == Add(At(parity, i), PresentSum(data, p, i, j))
    {
      if data[j].Some? {
        forall i | 0 <= i < width
          ensures Add(Add(At(parity, i), PresentSum(data, p, i, j)), Mul(Coef(p, j), At(data[j].value, i)))
               == Add(At(parity, i), PresentSum(data, p, i, j + 1))
        {
          AddAssoc(At(parity, i), PresentSum(data, p, i, j), Mul(Coef(p, j), At(data[j].value, i)));
        }
        syn := MulAdd(t, syn, data[j].value, TableCoef(t, p, j), width);
      }
    }
  }

  /** The row that parity p gives over the missing fragments. */
  function CoefRow(p: nat, cols: seq<nat>): (row: Vec)
    ensures |row| == |cols|
    ensures forall c :: 0 <= c < |cols| ==> row[c] == Coef(p, cols[c])
  {
    seq(|cols|, c requires 0 <= c < |cols| => Coef(p, cols[c]))
  }

  function CoefMatrix(rows: seq<nat>, cols: seq<nat>): (a: Mat)
    ensures |a| == |rows|
    ensures forall r :: 0 <= r < |rows| ==> a[r] == CoefRow(rows[r], cols)
  {
    seq(|rows|, r requires 0 <= r < |rows| => CoefRow(rows[r], cols))
  }

  method BuildCoefRow(t: GfTables, p: nat, cols: seq<nat>) returns (row: Vec)
    requires ValidTables(t)
    ensures row == CoefRow(p, cols)
  {
    hide Coef, ValidTables;
    row := [];
    for c := 0 to |cols|
      invariant |row| == c
      invariant forall k :: 0 <= k < c ==> row[k] == Coef(p, cols[k])
    {
      row := row + [TableCoef(t, p, cols[c])];
    }
  }

  /** The parity indices used by the decoder: those of the first m received parities. */
  function RowIndices(parity: seq<(nat, Bytes)>, m: nat): (rows: seq<nat>)
    requires m <= |parity|
    ensures |rows| == m && forall r :: 0 <= r < m ==> rows[r] == parity[r].0
  {
    seq(m, r requires 0 <= r < m => parity[r].0)
  }

  ghost predicate Recoverable(rows: seq<nat>, cols: seq<nat>)
    requires |rows| == |cols|
  {
    KernelTrivial(CoefMatrix(rows, cols), |cols|)
  }

  method BuildSystem(t: GfTables, data: seq<Option<Bytes>>, parity: seq<(nat, Bytes)>, mis: seq<nat>, width: nat)
    returns (a: Mat, syn: Mat)
    requires ValidTables(t) && |mis| <= |parity|
    ensures IsSystem(a, syn, |mis|, width)
    ensures a == CoefMatrix(RowIndices(parity, |mis|), mis)
    ensures forall r, i :: 0 <= r < |mis| && 0 <= i < width ==>
              syn[r][i] == Syndrome(data, parity[r].0, parity[r].1, i)
  {
    hide ValidTables, Coef, Syndrome;
    var m := |mis|;
    a, syn := [], [];
    for r := 0 to m
      invariant |a| == r && |syn| == r
      invariant forall q :: 0 <= q < r ==> a[q] == CoefRow(parity[q].0, mis)
      invariant forall q :: 0 <= q < r ==> |syn[q]| == width
      invariant forall q, i :: 0 <= q < r && 0 <= i < width ==>
                  syn[q][i] == Syndrome(data, parity[q].0, parity[q].1, i)
    {
      var s := ComputeSyndrome(t, data, parity[r].0, parity[r].1, width);
      var row := BuildCoefRow(t, parity[r].0, mis);
      a := a + [row];
      syn := syn + [s];
    }
  }

  /** The data with slot mis[c] set to x[c]. */
  function Fill(data: seq<Option<Bytes>>, mis: seq<nat>, x: seq<Bytes>, n: nat): (r: seq<Option<Bytes>>)
    requires n <= |mis| && |mis| <= |x|
    requires forall c :: 0 <= c < |mis| ==> mis[c] < |data|
    requires forall c, d :: 0 <= c < d < |mis| ==> mis[c] < mis[d]
    ensures |r| == |data|
    ensures forall c :: 0 <= c < n ==> r[mis[c]] == Some(x[c])
    ensures forall j :: 0 <= j < |data| && j !in mis[..n] ==> r[j] == data[j]
  {
    if n == 0 then data
    else
      assert mis[..n] == mis[..n - 1] + [mis[n - 1]];
      Fill(data, mis, x, n - 1)[mis[n - 1] := Some(x[n - 1])]
  }

  /** Every slot is filled: present ones as given, missing ones with `width` bytes. */
  predicate Completes(data: seq<Option<Bytes>>, full: seq<Option<Bytes>>, width: nat) {
    && |full| == |data|
    && forall j :: 0 <= j < |data| ==>
         full[j].Some? && (if data[j].Some? then full[j] == data[j] else |full[j].value| == width)
  }

  function Values(full: seq<Option<Bytes>>): (v: seq<Bytes>)
    requires forall j :: 0 <= j < |full| ==> full[j].Some?
    ensures |v| == |full| && forall j :: 0 <= j < |full| ==> v[j] == full[j].value
  {
    seq(|full|, j requires 0 <= j < |full| => full[j].value)
  }

  /** The data reproduce parities 0..m-1 of the list, byte by byte. */
  ghost predicate Satisfies(data: seq<Bytes>, parity: seq<(nat, Bytes)>, m: nat, width: nat)
    requires m <= |parity|
  {
    forall r, i :: 0 <= r < m && 0 <= i < width ==>
      ParitySum(data, parity[r].0, i, |data|) == At(parity[r].1, i)
  }

  /** Decoding succeeds exactly when there are enough parities and the coefficient matrix of the erasure
      pattern is regular; it then fills the gaps so that the used parities come out right. */
  method Decode(t: GfTables, data: seq<Option<Bytes>>, parity: seq<(nat, Bytes)>, width: nat)
    returns (ok: bool, full: seq<Option<Bytes>>)
    requires ValidTables(t)
    ensures var m := |Missing(data, |data|)|;
            ok <==> m <= |parity| && Recoverable(RowIndices(parity, m), Missing(data, |data|))
    ensures ok ==> Completes(data, full, width)
    ensures ok ==> Satisfies(Values(full), parity, |Missing(data, |data|)|, width)
    ensures !ok ==> full == data
  {
    hide ValidTables, Coef, Syndrome, CoefMatrix, KernelTrivial, SameNull, ParitySum;
    full := data;
    var mis := CollectMissing(data);
    var m := |mis|;
    if m == 0 {
      EmptyRecoverable(RowIndices(parity, 0), mis);
      ok := true;
      return;
    }
    if m > |parity| {
      ok := false;
      return;
    }
    var a0, syn0 := BuildSystem(t, data, parity, mis, width);
    ghost var rows := RowIndices(parity, m);
    assert Recoverable(rows, mis) <==> KernelTrivial(a0, m);
    var a, syn;
    ok, a, syn := Reduce(t, a0, syn0, m, width);
    if !ok {
      return;
    }
    full := FillSlots(data, mis, syn);
    FilledCompletes(data, syn, width);
    forall r, i | 0 <= r < m && 0 <= i < width
      ensures ParitySum(Values(full), parity[r].0, i, |data|) == At(parity[r].1, i)
    {
      SolutionOfReduced(a0, syn0, a, syn, r, i, m, width);
      FilledParity(data, full, parity[r].0, parity[r].1, syn, i, width);
    }
  }

  method FillSlots(data: seq<Option<Bytes>>, mis: seq<nat>, syn: seq<Bytes>) returns (full: seq<Option<Bytes>>)
    requires |mis| <= |syn|
    requires forall c :: 0 <= c < |mis| ==> mis[c] < |data|
    requires forall c, d :: 0 <= c < d < |mis| ==> mis[c] < mis[d]
    ensures full == Fill(data, mis, syn, |mis|)
  {
    full := data;
    for c := 0 to |mis|
      invariant full == Fill(data, mis, syn, c)
    {
      full := full[mis[c] := Some(syn[c])];
    }
  }

  lemma EmptyRecoverable(rows: seq<nat>, cols: seq<nat>)
    requires |rows| == |cols| == 0
    ensures Recoverable(rows, cols)
  {}

  lemma {:induction false} FilledCompletes(data: seq<Option<Bytes>>, syn: seq<Bytes>, width: nat)
    requires |syn| == |Missing(data, |data|)| && forall r :: 0 <= r < |syn| ==> |syn[r]| == width
    ensures Completes(data, Fill(data, Missing(data, |data|), syn, |syn|), width)
  {
    var mis := Missing(data, |data|);
    var full := Fill(data, mis, syn, |syn|);
    assert mis[..|syn|] == mis;
    forall j | 0 <= j < |data|
      ensures full[j].Some? && (if data[j].Some? then full[j] == data[j] else |full[j].value| == width)
    {
      if data[j].None? {
        var c :| 0 <= c < |mis| && mis[c] == j;
      }
    }
  }

  /** The column of byte i of the reduced right-hand sides. */
  function Column(syn: Mat, i: nat): (x: Vec)
    requires forall r :: 0 <= r < |syn| ==> i < |syn[r]|
    ensures |x| == |syn| && forall r :: 0 <= r < |syn| ==> x[r] == syn[r][i]
  {
    seq(|syn|, r requires 0 <= r < |syn| => syn[r][i])
  }

  function Unit(n: nat, i: nat): (y: Vec)
    requires i < n
    ensures |y| == n && forall k :: 0 <= k < n ==> y[k] == if k == i then 1 else 0
  {
    seq(n, k => if k == i then 1 else 0)
  }

  lemma {:induction false} RowValueAtByte(a: Vec, s: Vec, x: Vec, i: nat)
    requires |a| == |x| && i < |s|
    ensures RowValue(a, s, x, Unit(|s|, i)) == Add(Dot(a, x, |x|), s[i])
  {
    hide Dot, Mul, Add, Unit;
    DotSingle(s, Unit(|s|, i), i, |s|);
    MulOne(s[i]);
  }

  /** Once the matrix is the identity, the right-hand sides solve the original system. */
  lemma {:induction false} SolutionOfReduced(a0: Mat, syn0: Mat, a: Mat, syn: Mat, r: nat, i: nat, m: nat, w: nat)
    requires IsSystem(a0, syn0, m, w) && IsSystem(a, syn, m, w) && SameNull(a0, syn0, a, syn, m, w)
    requires UnitColumns(a, m, m)
    requires r < m && i < w
    ensures Dot(a0[r], Column(syn, i), m) == syn0[r][i]
  {
    hide Dot, Mul, Add, Column, Unit, RowValue;
    var x := Column(syn, i);
    forall q | 0 <= q < m
      ensures RowValue(a[q], syn[q], x, Unit(w, i)) == 0
    {
      RowValueAtByte(a[q], syn[q], x, i);
      DotSingle(a[q], x, q, m);
      MulOne(x[q]);
      AddSelf(x[q]);
    }
    assert Null(a, syn, x, Unit(w, i));
    assert Null(a0, syn0, x, Unit(w, i));
    RowValueAtByte(a0[r], syn0[r], x, i);
    AddCancel(Dot(a0[r], x, m), syn0[r][i]);
  }

  lemma MissingStep(data: seq<Option<Bytes>>, n: nat, mis: seq<nat>, k: nat)
    requires 0 < n <= |data| && k <= |mis| && Missing(data, n) == mis[..k]
    ensures data[n - 1].None? ==> k > 0 && mis[k - 1] == n - 1 && Missing(data, n - 1) == mis[..k - 1]
    ensures data[n - 1].Some? ==> Missing(data, n - 1) == mis[..k]
  {
    if data[n - 1].None? {
      assert mis[..k][..k - 1] == mis[..k - 1];
      assert mis[..k][k - 1] == mis[k - 1];
    }
  }

  /** A full parity sum splits into the present part and the missing part. */
  lemma {:induction false} SumSplits(data: seq<Option<Bytes>>, full: seq<Bytes>, p: nat, mis: seq<nat>, x: Vec,
                                     i: nat, n: nat, k: nat)
    requires n <= |data| == |full| && k <= |mis| == |x|
    requires Missing(data, n) == mis[..k]
    requires forall c :: 0 <= c < |mis| ==> mis[c] < |data|
    requires forall j :: 0 <= j < |data| && data[j].Some? ==> At(full[j], i) == At(data[j].value, i)
    requires forall c :: 0 <= c < |mis| ==> x[c] == At(full[mis[c]], i)
    ensures ParitySum(full, p, i, n) == Add(PresentSum(data, p, i, n), Dot(CoefRow(p, mis), x, k))
    decreases n
  {
    hide Add, Mul, Coef, At, CoefRow, Missing;
    var row := CoefRow(p, mis);
    if n == 0 {
      assert k == |mis[..k]| == 0;
      AddSelf(0);
    } else {
      MissingStep(data, n, mis, k);
      var term := Mul(Coef(p, n - 1), At(full[n - 1], i));
      var present := PresentSum(data, p, i, n - 1);
      if data[n - 1].None? {
        SumSplits(data, full, p, mis, x, i, n - 1, k - 1);
        AddAssoc(present, Dot(row, x, k - 1), term);
      } else {
        SumSplits(data, full, p, mis, x, i, n - 1, k);
        AddAssoc(present, Dot(row, x, k), term);
        AddComm(Dot(row, x, k), term);
        AddAssoc(present, term, Dot(row, x, k));
      }
    }
  }

  lemma {:induction false} FilledParity(data: seq<Option<Bytes>>, full: seq<Option<Bytes>>, p: nat, parity: Bytes, syn: seq<Bytes>,
                     i: nat, width: nat)
    requires |syn| == |Missing(data, |data|)| && forall r :: 0 <= r < |syn| ==> |syn[r]| == width
    requires i < width
    requires full == Fill(data, Missing(data, |data|), syn, |syn|) && Completes(data, full, width)
    requires Dot(CoefRow(p, Missing(data, |data|)), Column(syn, i), |syn|) == Syndrome(data, p, parity, i)
    ensures ParitySum(Values(full), p, i, |data|) == At(parity, i)
  {
    hide *;
    var mis := Missing(data, |data|);
    assert mis[..|mis|] == mis;
    FilledColumn(data, full, syn, i, width);
    SumSplits(data, Values(full), p, mis, Column(syn, i), i, |data|, |mis|);
    SyndromeCancels(data, p, parity, i);
  }

  lemma {:induction false} FilledColumn(data: seq<Option<Bytes>>, full: seq<Option<Bytes>>, syn: seq<Bytes>, i: nat, width: nat)
    requires |syn| == |Missing(data, |data|)| && forall r :: 0 <= r < |syn| ==> |syn[r]| == width
    requires i < width
    requires full == Fill(data, Missing(data, |data|), syn, |syn|) && Completes(data, full, width)
    ensures |full| == |data| && forall j :: 0 <= j < |data| ==> full[j].Some?
    ensures forall c :: 0 <= c < |syn| ==> Column(syn, i)[c] == At(Values(full)[Missing(data, |data|)[c]], i)
    ensures forall j :: 0 <= j < |data| && data[j].Some? ==> At(Values(full)[j], i) == At(data[j].value, i)
  {
    hide Missing, Fill;
  }

  lemma {:induction false} SyndromeCancels(data: seq<Option<Bytes>>, p: nat, parity: Bytes, i: nat)
    ensures Add(PresentSum(data, p, i, |data|), Syndrome(data, p, parity, i)) == At(parity, i)
  {
    hide Add, PresentSum, At;
    var present := PresentSum(data, p, i, |data|);
    AddComm(At(parity, i), present);
    AddAssoc(present, present, At(parity, i));
    AddSelf(present);
    AddZero(At(parity, i));
  }
}
