/** Inversion modulo p by the addition chain of fe_inv in tight/src/crypto.cpp: it raises to p - 2. */
module FieldInversion {
  import opened Bits
  import opened Field25519

  /** b^e modulo p. */
  function PowP(b: int, e: nat): (r: nat)
    ensures r < P
    decreases e
  {
    if e == 0 then 1 else MulP(b, PowP(b, e - 1))
  }

  lemma MulPAssoc(a: int, b: int, c: int)
    ensures MulP(MulP(a, b), c) == MulP(a, MulP(b, c))
  {
    calc {
      MulP(MulP(a, b), c);
      { MulResidues(MulP(a, b), c); MulResidues(a * b, c); assert MulP(a, b) % P == MulP(a, b); }
      MulP(a * b, c);
      { assert (a * b) * c == a * (b * c); }
      MulP(a, b * c);
      { MulResidues(a, MulP(b, c)); MulResidues(a, b * c); assert MulP(b, c) % P == MulP(b, c); }
      MulP(a, MulP(b, c));
    }
  }

  lemma MulPOne(a: nat)
    requires a < P
    ensures MulP(1, a) == a && MulP(a, 1) == a
  {}

  lemma {:induction false} PowPAdd(b: int, m: nat, n: nat)
    ensures MulP(PowP(b, m), PowP(b, n)) == PowP(b, m + n)
    decreases m
  {
    hide MulP;
    if m == 0 {
      MulPOne(PowP(b, n));
    } else {
      PowPAdd(b, m - 1, n);
      MulPAssoc(b, PowP(b, m - 1), PowP(b, n));
    }
  }

  lemma {:induction false} PowPMul(b: int, m: nat, n: nat)
    ensures PowP(PowP(b, m), n) == PowP(b, m * n)
    decreases n
  {
    hide MulP;
    if n == 0 {
      assert m * n == 0;
    } else {
      PowPMul(b, m, n - 1);
      assert m * n == m + m * (n - 1);
      PowPAdd(b, m, m * (n - 1));
    }
  }

  lemma {:induction false} PowPOne(b: nat)
    requires b < P
    ensures PowP(b, 1) == b
  {
    MulPOne(b);
    assert PowP(b, 0) == 1;
  }

  lemma TightIsLoose(f: Fe)
    requires Tight(f)
    ensures Loose(f)
  {}

  /** The element is z to the power e. */
  ghost predicate IsPower(f: Fe, z: Fe, e: nat) {
    Tight(f) && Res(f) == PowP(Res(z), e)
  }

  method Product(f: Fe, g: Fe, ghost z: Fe, ghost e: nat, ghost d: nat) returns (r: Fe)
    requires IsPower(f, z, e) && IsPower(g, z, d)
    ensures IsPower(r, z, e + d)
  {
    hide Tight, Loose, MulP, PowP, Res;
    TightIsLoose(f);
    TightIsLoose(g);
    r := FeMul(f, g);
    PowPAdd(Res(z), e, d);
  }

  /** n squarings in a row. */
  method FeSqN(f: Fe, n: nat, ghost z: Fe, ghost e: nat) returns (r: Fe)
    requires IsPower(f, z, e)
    ensures IsPower(r, z, e * Pow2(n))
  {
    hide IsPower;
    r := f;
    assert e * Pow2(0) == e;
    for i := 0 to n
      invariant IsPower(r, z, e * Pow2(i))
    {
      r := Product(r, r, z, e * Pow2(i), e * Pow2(i));
      assert e * Pow2(i + 1) == e * Pow2(i) + e * Pow2(i);
    }
  }

  lemma TinyPow2()
    ensures Pow2(1) == 2 && Pow2(2) == 4 && Pow2(5) == 32
  {}

  lemma SmallPow2()
    ensures Pow2(1) == 2 && Pow2(2) == 4 && Pow2(5) == 32 && Pow2(10) == 1024
    ensures Pow2(20) == 0x10_0000 && Pow2(50) == 0x4_0000_0000_0000
    ensures Pow2(100) == 0x10_0000_0000_0000_0000_0000_0000
  {
    hide *;
    TinyPow2();
    Pow2Add(5, 5);
    Pow2Add(10, 10);
    Pow2Add(20, 20);
    Pow2Add(40, 10);
    Pow2Add(50, 50);
  }

  /** The addition chain ends at exponent 2^255 - 21, which is p - 2. */
  method FeInv(z: Fe) returns (r: Fe)
    requires Tight(z)
    ensures Tight(r) && Res(r) == PowP(Res(z), P - 2)
  {
    PowPOne(Res(z));
    assert IsPower(z, z, 1);
    SmallPow2();
    hide Pow2, IsPower, PowP, Tight;
    var z2 := FeSqN(z, 1, z, 1);
    var z8 := FeSqN(z2, 2, z, 2);
    var z9 := Product(z, z8, z, 1, 8);
    var z11 := Product(z2, z9, z, 2, 9);
    var z22 := FeSqN(z11, 1, z, 11);
    var z5 := Product(z9, z22, z, 9, 22);
    var t := FeSqN(z5, 5, z, 0x1F);
    var z10 := Product(t, z5, z, 0x3E0, 0x1F);
    t := FeSqN(z10, 10, z, 0x3FF);
    var z20 := Product(t, z10, z, 0xF_FC00, 0x3FF);
    t := FeSqN(z20, 20, z, 0xF_FFFF);
    var z40 := Product(t, z20, z, 0xFF_FFF0_0000, 0xF_FFFF);
    t := FeSqN(z40, 10, z, 0xFF_FFFF_FFFF);
    var z50 := Product(t, z10, z, 0x3_FFFF_FFFF_FC00, 0x3FF);
    t := FeSqN(z50, 50, z, 0x3_FFFF_FFFF_FFFF);
    var z100 := Product(t, z50, z, 0xF_FFFF_FFFF_FFFC_0000_0000_0000, 0x3_FFFF_FFFF_FFFF);
    t := FeSqN(z100, 100, z, 0xF_FFFF_FFFF_FFFF_FFFF_FFFF_FFFF);
    var z200 := Product(t, z100, z, 0xFF_FFFF_FFFF_FFFF_FFFF_FFFF_FFF0_0000_0000_0000_0000_0000_0000, 0xF_FFFF_FFFF_FFFF_FFFF_FFFF_FFFF);
    t := FeSqN(z200, 50, z, 0xFF_FFFF_FFFF_FFFF_FFFF_FFFF_FFFF_FFFF_FFFF_FFFF_FFFF_FFFF_FFFF);
    var z250 := Product(t, z50, z, 0x3FF_FFFF_FFFF_FFFF_FFFF_FFFF_FFFF_FFFF_FFFF_FFFF_FFFF_FFFF_FFFC_0000_0000_0000, 0x3_FFFF_FFFF_FFFF);
    t := FeSqN(z250, 5, z, 0x3FF_FFFF_FFFF_FFFF_FFFF_FFFF_FFFF_FFFF_FFFF_FFFF_FFFF_FFFF_FFFF_FFFF_FFFF_FFFF);
    r := Product(t, z11, z, 0x7FFF_FFFF_FFFF_FFFF_FFFF_FFFF_FFFF_FFFF_FFFF_FFFF_FFFF_FFFF_FFFF_FFFF_FFFF_FFE0, 11);
    PowerOf(r, z, P - 2);
  }

  lemma {:induction false} PowerOf(r: Fe, z: Fe, e: nat)
    requires IsPower(r, z, e)
    ensures Tight(r) && Res(r) == PowP(Res(z), e)
  {}
}
