/** Arithmetic modulo p = 2^255 - 19 on five 51-bit limbs: the fe_* functions of tight/src/crypto.cpp.

    Limbs are 64-bit words and products are 128-bit words; `U64` and `U128` write the wrap-around of the
    source out, and every contract shows that under the limb bounds nothing wraps. A field element stands
    for `Val(f)` modulo `P`. */
module Field25519 {

  const B: int := 0x8_0000_0000_0000                                                              // 2^51
  const B2: int := 0x40_0000_0000_0000_0000_0000_0000                                             // 2^102
  const B3: int := 0x200_0000_0000_0000_0000_0000_0000_0000_0000_0000                             // 2^153
  const B4: int := 0x1000_0000_0000_0000_0000_0000_0000_0000_0000_0000_0000_0000_0000             // 2^204
  const B5: int := 0x8000_0000_0000_0000_0000_0000_0000_0000_0000_0000_0000_0000_0000_0000_0000_0000  // 2^255
  const P: int := 0x7FFF_FFFF_FFFF_FFFF_FFFF_FFFF_FFFF_FFFF_FFFF_FFFF_FFFF_FFFF_FFFF_FFFF_FFFF_FFED

  const WORD64: int := 0x1_0000_0000_0000_0000
  const WORD128: int := 0x1_0000_0000_0000_0000_0000_0000_0000_0000

  function U64(x: int): (r: nat)
    ensures r < WORD64
    ensures 0 <= x < WORD64 ==> r == x
  {
    x % WORD64
  }

  function U128(x: int): (r: nat)
    ensures r < WORD128
    ensures 0 <= x < WORD128 ==> r == x
  {
    x % WORD128
  }

  type Fe = f: seq<nat> | |f| == 5 witness [0, 0, 0, 0, 0]

  function Poly(a0: int, a1: int, a2: int, a3: int, a4: int): int {
    a0 + B * a1 + B2 * a2 + B3 * a3 + B4 * a4
  }

  function Val(f: Fe): nat { f[0] + B * f[1] + B2 * f[2] + B3 * f[3] + B4 * f[4] }

  /** What a product leaves behind: 51 bits, a little more in limb 1. */
  predicate Tight(f: Fe) {
    f[0] < B && f[1] < B + 0x1_0000 && f[2] < B && f[3] < B && f[4] < B
  }

  /** What a product accepts. */
  predicate Loose(f: Fe) {
    f[0] < 4 * B && f[1] < 4 * B && f[2] < 4 * B && f[3] < 4 * B && f[4] < 4 * B
  }

  // ---------- Arithmetic modulo p ----------

  function MulP(a: int, b: int): (r: nat) { (a * b) % P }
  function AddP(a: int, b: int): (r: nat) { (a + b) % P }
  function SubP(a: int, b: int): (r: nat) { (a - b) % P }

  /** The residue a field element stands for. */
  function Res(f: Fe): (r: nat)
    ensures r < P
  {
    Val(f) % P
  }

  lemma ModOfSum(x: int, y: int, k: int)
    requires x == y + P * k
    ensures x % P == y % P
  {}

  lemma MulResidues(a: int, b: int)
    ensures MulP(a % P, b % P) == MulP(a, b)
  {
    var ra, rb, qa, qb := a % P, b % P, a / P, b / P;
    assert a == ra + P * qa && b == rb + P * qb;
    calc {
      a * b;
      (ra + P * qa) * b;
      ra * b + P * (qa * b);
      ra * (rb + P * qb) + P * (qa * b);
      ra * rb + P * (ra * qb + qa * b);
    }
    ModOfSum(a * b, ra * rb, ra * qb + qa * b);
  }

  lemma AddResidues(a: int, b: int)
    ensures AddP(a % P, b % P) == AddP(a, b)
  {}

  lemma SubResidues(a: int, b: int)
    ensures SubP(a % P, b % P) == SubP(a, b)
  {}

  // ---------- Addition and subtraction ----------

  function FeAdd(f: Fe, g: Fe): (r: Fe)
    requires Tight(f) && Tight(g)
    ensures Loose(r) && Val(r) == Val(f) + Val(g)
  {
    [U64(f[0] + g[0]), U64(f[1] + g[1]), U64(f[2] + g[2]), U64(f[3] + g[3]), U64(f[4] + g[4])]
  }

  /** Adds 2p limb by limb before subtracting, so that no limb goes below zero. */
  function FeSub(f: Fe, g: Fe): (r: Fe)
    requires Tight(f) && Tight(g)
    ensures Loose(r) && Val(r) == Val(f) - Val(g) + 2 * P
  {
    [U64(f[0] + 0xF_FFFF_FFFF_FFDA - g[0]),
     U64(f[1] + 0xF_FFFF_FFFF_FFFE - g[1]),
     U64(f[2] + 0xF_FFFF_FFFF_FFFE - g[2]),
     U64(f[3] + 0xF_FFFF_FFFF_FFFE - g[3]),
     U64(f[4] + 0xF_FFFF_FFFF_FFFE - g[4])]
  }

  lemma FeAddResidue(f: Fe, g: Fe)
    requires Tight(f) && Tight(g)
    ensures Loose(FeAdd(f, g)) && Res(FeAdd(f, g)) == AddP(Res(f), Res(g))
  {
    hide FeAdd, Tight, Loose, Val;
    AddResidues(Val(f), Val(g));
  }

  lemma FeSubResidue(f: Fe, g: Fe)
    requires Tight(f) && Tight(g)
    ensures Loose(FeSub(f, g)) && Res(FeSub(f, g)) == SubP(Res(f), Res(g))
  {
    hide FeSub, Tight, Loose, Val;
    SubResidues(Val(f), Val(g));
    ModOfSum(Val(FeSub(f, g)), Val(f) - Val(g), 2);
  }

  // ---------- Multiplication ----------

  /** The product of two limb polynomials, with everything from 2^255 on folded back nineteenfold. */
  lemma ProductFolds(f0: int, f1: int, f2: int, f3: int, f4: int, g0: int, g1: int, g2: int, g3: int, g4: int)
    ensures Poly(f0, f1, f2, f3, f4) * Poly(g0, g1, g2, g3, g4) ==
            Poly(f0 * g0 + 19 * (f1 * g4 + f2 * g3 + f3 * g2 + f4 * g1),
                 f0 * g1 + f1 * g0 + 19 * (f2 * g4 + f3 * g3 + f4 * g2),
                 f0 * g2 + f1 * g1 + f2 * g0 + 19 * (f3 * g4 + f4 * g3),
                 f0 * g3 + f1 * g2 + f2 * g1 + f3 * g0 + 19 * (f4 * g4),
                 f0 * g4 + f1 * g3 + f2 * g2 + f3 * g1 + f4 * g0)
            + P * ((f1 * g4 + f2 * g3 + f3 * g2 + f4 * g1) + B * (f2 * g4 + f3 * g3 + f4 * g2)
                   + B2 * (f3 * g4 + f4 * g3) + B3 * (f4 * g4))
  {}

  /** A product of two loose limbs. */
  lemma LimbProduct(x: nat, y: nat)
    requires x < 4 * B && y < 4 * B
    ensures 0 <= x * y < 16 * B2
  {
    MulBound(x, y, 4 * B - 1, 4 * B - 1);
  }

  lemma MulBound(x: nat, y: nat, a: nat, b: nat)
    requires x <= a && y <= b
    ensures x * y <= a * b
  {
    assert x * y <= x * b;
    assert x * b <= a * b;
  }

  const WIDE: int := 0x2_0000_0000_0000_0000_0000_0000_0000  // 2^113

  /** The carry chain shared by fe_mul and fe_mul_scalar: it subtracts a multiple of p. */
  method CarryChain(a0: nat, a1: nat, a2: nat, a3: nat, a4: nat) returns (r: Fe)
    requires a0 < WIDE && a1 < WIDE && a2 < WIDE && a3 < WIDE
    requires a4 < 128 * B2
    ensures Tight(r)
    ensures Val(r) % P == Poly(a0, a1, a2, a3, a4) % P
  {
    hide U64, U128, Poly, Val, Tight;
    var r0, r1, r2, r3, r4 := a0, a1, a2, a3, a4;
    r0, r1 := Carry(r0, r1);
    ghost var s1 := r1;
    r1, r2 := Carry(r1, r2);
    ghost var s2 := r2;
    r2, r3 := Carry(r2, r3);
    ghost var s3 := r3;
    r3, r4 := Carry(r3, r4);
    ghost var s4 := r4;
    TopCarry(s3, a4, s4);
    var c := U64(r4 / B);
    r4 := r4 % B;
    r0 := U128(r0 + U64(19 * c));
    r0, r1 := Carry(r0, r1);
    r := [U64(r0), U64(r1), U64(r2), U64(r3), U64(r4)];
    CarriesFold(a0, a1, a2, a3, a4, s1, s2, s3, s4, r);
  }

  /** One carry: the bits from 51 on, as a 64-bit word, go to the next limb. */
  method Carry(lo: nat, hi: nat) returns (lo': nat, hi': nat)
    requires lo < 2 * WIDE && hi < 2 * WIDE
    ensures lo' == lo % B && hi' == hi + lo / B && hi' < hi + 0x8000_0000_0000_0000
  {
    var c := U64(lo / B);
    lo' := lo % B;
    hi' := U128(hi + c);
  }

  lemma TopCarry(s3: nat, a4: nat, s4: nat)
    requires s3 < 2 * WIDE && a4 < 128 * B2 && s4 == a4 + s3 / B
    ensures s4 / B < 0x400_0000_0001_0000
  {}

  lemma CarriesFold(a0: nat, a1: nat, a2: nat, a3: nat, a4: nat, s1: nat, s2: nat, s3: nat, s4: nat, r: Fe)
    requires s1 == a1 + a0 / B && s2 == a2 + s1 / B && s3 == a3 + s2 / B && s4 == a4 + s3 / B
    requires s4 / B < 0x400_0000_0001_0000
    requires r[0] == (a0 % B + 19 * (s4 / B)) % B && r[1] == s1 % B + (a0 % B + 19 * (s4 / B)) / B
    requires r[2] == s2 % B && r[3] == s3 % B && r[4] == s4 % B
    ensures Tight(r) && Val(r) % P == Poly(a0, a1, a2, a3, a4) % P
  {
    ModOfSum(Poly(a0, a1, a2, a3, a4), Val(r), s4 / B);
  }

  lemma ProductBounds(f: Fe, g: Fe)
    requires Loose(f) && Loose(g)
    ensures forall i, j :: 0 <= i < 5 && 0 <= j < 5 ==> 0 <= f[i] * g[j] < 16 * B2
  {
    forall i, j | 0 <= i < 5 && 0 <= j < 5
      ensures 0 <= f[i] * g[j] < 16 * B2
    {
      assert f[i] < 4 * B && g[j] < 4 * B;
      LimbProduct(f[i], g[j]);
    }
  }

  // The five column sums of the product, with 2^255 folded to 19.

  function Column0(f: Fe, g: Fe): int { f[0] * g[0] + 19 * (f[1] * g[4] + f[2] * g[3] + f[3] * g[2] + f[4] * g[1]) }
  function Column1(f: Fe, g: Fe): int { f[0] * g[1] + f[1] * g[0] + 19 * (f[2] * g[4] + f[3] * g[3] + f[4] * g[2]) }
  function Column2(f: Fe, g: Fe): int { f[0] * g[2] + f[1] * g[1] + f[2] * g[0] + 19 * (f[3] * g[4] + f[4] * g[3]) }
  function Column3(f: Fe, g: Fe): int { f[0] * g[3] + f[1] * g[2] + f[2] * g[1] + f[3] * g[0] + 19 * (f[4] * g[4]) }
  function Column4(f: Fe, g: Fe): int { f[0] * g[4] + f[1] * g[3] + f[2] * g[2] + f[3] * g[1] + f[4] * g[0] }

  lemma ColumnBounds(f: Fe, g: Fe)
    requires Loose(f) && Loose(g)
    ensures 0 <= Column0(f, g) < WIDE && 0 <= Column1(f, g) < WIDE && 0 <= Column2(f, g) < WIDE
    ensures 0 <= Column3(f, g) < WIDE && 0 <= Column4(f, g) < 128 * B2
  {
    hide Loose;
    ProductBounds(f, g);
  }

  lemma ColumnsAreProduct(f: Fe, g: Fe, r: Fe)
    requires Val(r) % P == Poly(Column0(f, g), Column1(f, g), Column2(f, g), Column3(f, g), Column4(f, g)) % P
    ensures Res(r) == MulP(Res(f), Res(g))
  {
    hide Poly, Val, Column0, Column1, Column2, Column3, Column4;
    FoldIsMultiple(f, g);
    MulResidues(Val(f), Val(g));
  }

  lemma FoldIsMultiple(f: Fe, g: Fe)
    ensures (Val(f) * Val(g)) % P == Poly(Column0(f, g), Column1(f, g), Column2(f, g), Column3(f, g), Column4(f, g)) % P
  {
    var k := (f[1] * g[4] + f[2] * g[3] + f[3] * g[2] + f[4] * g[1]) + B * (f[2] * g[4] + f[3] * g[3] + f[4] * g[2])
             + B2 * (f[3] * g[4] + f[4] * g[3]) + B3 * (f[4] * g[4]);
    assert Val(f) == Poly(f[0], f[1], f[2], f[3], f[4]) && Val(g) == Poly(g[0], g[1], g[2], g[3], g[4]);
    hide Poly, Val;
    ProductFolds(f[0], f[1], f[2], f[3], f[4], g[0], g[1], g[2], g[3], g[4]);
    ModOfSum(Val(f) * Val(g), Poly(Column0(f, g), Column1(f, g), Column2(f, g), Column3(f, g), Column4(f, g)), k);
  }

  method FeMul(f: Fe, g: Fe) returns (r: Fe)
    requires Loose(f) && Loose(g)
    ensures Tight(r) && Res(r) == MulP(Res(f), Res(g))
  {
    hide Poly, Val, Tight, Loose, MulP, Res, U128, Column0, Column1, Column2, Column3, Column4;
    ColumnBounds(f, g);
    var r0 := U128(Column0(f, g));
    var r1 := U128(Column1(f, g));
    var r2 := U128(Column2(f, g));
    var r3 := U128(Column3(f, g));
    var r4 := U128(Column4(f, g));
    r := CarryChain(r0, r1, r2, r3, r4);
    ColumnsAreProduct(f, g, r);
  }

  method FeSq(f: Fe) returns (r: Fe)
    requires Loose(f)
    ensures Tight(r) && Res(r) == MulP(Res(f), Res(f))
  {
    r := FeMul(f, f);
  }

  /** Multiplication by a small scalar, with the same carry chain. */
  method FeMulScalar(f: Fe, s: nat) returns (r: Fe)
    requires Loose(f) && s < 0x1_0000_0000
    ensures Tight(r) && Res(r) == MulP(s, Res(f))
  {
    ScalarBounds(f, s);
    var r0, r1, r2, r3, r4 := U128(f[0] * s), U128(f[1] * s), U128(f[2] * s), U128(f[3] * s), U128(f[4] * s);
    r := CarryChain(r0, r1, r2, r3, r4);
    ScalarDistributes(f, s);
    ScalarResidue(s, Val(f));
  }

  lemma ScalarBounds(f: Fe, s: nat)
    requires Loose(f) && s < 0x1_0000_0000
    ensures forall i :: 0 <= i < 5 ==> 0 <= f[i] * s < B2
  {
    forall i | 0 <= i < 5
      ensures 0 <= f[i] * s < B2
    {
      assert f[i] < 4 * B;
      assert f[i] * s <= f[i] * 0x1_0000_0000;
    }
  }

  lemma ScalarDistributes(f: Fe, s: nat)
    ensures Poly(f[0] * s, f[1] * s, f[2] * s, f[3] * s, f[4] * s) == s * Val(f)
  {}

  lemma ScalarResidue(s: nat, v: int)
    ensures MulP(s, v % P) == (s * v) % P
  {
    assert v == v % P + P * (v / P);
    assert s * v == s * (v % P) + P * (s * (v / P));
    ModOfSum(s * v, s * (v % P), s * (v / P));
  }
}
