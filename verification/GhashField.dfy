/** Multiplication in the field of 2^128 elements, as GHASH uses it: ghash_mul of tight/src/crypto.cpp.

    A block stands for a polynomial of degree below 128: bit i, counted from the most significant bit of the first
    byte, is the coefficient of x^i. */
module GhashField {
  import opened Octets
  import opened Polynomials

  type Block = b: Bytes | |b| == 16 witness [0, 0, 0, 0, 0, 0, 0, 0, 0, 0, 0, 0, 0, 0, 0, 0]

  /** x^128 + x^7 + x^2 + x + 1 */
  const MODULUS: Poly := {0, 1, 2, 7, 128}

  // ---------- Bits ----------

  predicate Low(v: Byte) { v & 1 == 1 }

  /** Bit k of a byte, from the most significant one. */
  predicate BitOf(v: Byte, k: nat)
    requires k < 8
  {
    if k == 0 then Low(v >> 7) else if k == 1 then Low(v >> 6) else if k == 2 then Low(v >> 5) else if k == 3 then Low(v >> 4)
    else if k == 4 then Low(v >> 3) else if k == 5 then Low(v >> 2) else if k == 6 then Low(v >> 1) else Low(v)
  }

  function XorByte(a: Byte, b: Byte): Byte { a ^ b }

  /** A byte shifted down by one bit, with the last bit of its predecessor moved in. */
  function Halved(a: Byte, before: Byte): Byte { (a >> 1) | (before << 7) }

  lemma LowXor(a: Byte, b: Byte)
    ensures Low(XorByte(a, b)) <==> Low(a) != Low(b)
  {}

  lemma HighShiftXor(a: Byte, b: Byte)
    ensures XorByte(a, b) >> 7 == XorByte(a >> 7, b >> 7) && XorByte(a, b) >> 6 == XorByte(a >> 6, b >> 6)
    ensures XorByte(a, b) >> 5 == XorByte(a >> 5, b >> 5) && XorByte(a, b) >> 4 == XorByte(a >> 4, b >> 4)
  {}

  lemma LowShiftXor(a: Byte, b: Byte)
    ensures XorByte(a, b) >> 3 == XorByte(a >> 3, b >> 3) && XorByte(a, b) >> 2 == XorByte(a >> 2, b >> 2)
    ensures XorByte(a, b) >> 1 == XorByte(a >> 1, b >> 1)
  {}

  lemma BitXor(a: Byte, b: Byte, k: nat)
    requires k < 8
    ensures BitOf(XorByte(a, b), k) <==> BitOf(a, k) != BitOf(b, k)
  {
    hide Low, XorByte;
    HighShiftXor(a, b);
    LowShiftXor(a, b);
    if k == 0 {
      LowXor(a >> 7, b >> 7);
    } else if k == 1 {
      LowXor(a >> 6, b >> 6);
    } else if k == 2 {
      LowXor(a >> 5, b >> 5);
    } else if k == 3 {
      LowXor(a >> 4, b >> 4);
    } else if k == 4 {
      LowXor(a >> 3, b >> 3);
    } else if k == 5 {
      LowXor(a >> 2, b >> 2);
    } else if k == 6 {
      LowXor(a >> 1, b >> 1);
    } else {
      LowXor(a, b);
    }
  }

  lemma BitHalved(a: Byte, before: Byte, k: nat)
    requires k < 8
    ensures BitOf(Halved(a, before), k) <==> if k == 0 then BitOf(before, 7) else BitOf(a, k - 1)
  {}

  lemma BitReduction(k: nat)
    requires k < 8
    ensures BitOf(0xE1, k) <==> k == 0 || k == 1 || k == 2 || k == 7
    ensures !BitOf(0, k)
  {}

  lemma SameBits(a: Byte, b: Byte)
    requires forall k: nat :: k < 8 ==> BitOf(a, k) == BitOf(b, k)
    ensures a == b
  {
    assert BitOf(a, 0) == BitOf(b, 0) && BitOf(a, 1) == BitOf(b, 1) && BitOf(a, 2) == BitOf(b, 2) && BitOf(a, 3) == BitOf(b, 3);
    assert BitOf(a, 4) == BitOf(b, 4) && BitOf(a, 5) == BitOf(b, 5) && BitOf(a, 6) == BitOf(b, 6) && BitOf(a, 7) == BitOf(b, 7);
  }

  function Exponents(b: Block): Poly { set i | 0 <= i < 128 && BitOf(b[i / 8], i % 8) }

  lemma ExponentsDetermine(a: Block, b: Block)
    requires Exponents(a) == Exponents(b)
    ensures a == b
  {
    hide BitOf;
    forall j | 0 <= j < 16 ensures a[j] == b[j] {
      forall k: nat | k < 8 ensures BitOf(a[j], k) == BitOf(b[j], k) {
        var i := 8 * j + k;
        assert i / 8 == j && i % 8 == k;
        assert i in Exponents(a) <==> BitOf(a[j], k);
        assert i in Exponents(b) <==> BitOf(b[j], k);
      }
      SameBits(a[j], b[j]);
    }
  }

  function XorBlock(a: Block, b: Block): Block { seq(16, i requires 0 <= i < 16 => XorByte(a[i], b[i])) }

  lemma XorIsPlus(a: Block, b: Block)
    ensures Exponents(XorBlock(a, b)) == Plus(Exponents(a), Exponents(b))
  {
    hide BitOf, XorByte;
    forall i: nat | i < 128 ensures i in Exponents(XorBlock(a, b)) <==> (i in Exponents(a)) != (i in Exponents(b)) {
      BitXor(a[i / 8], b[i / 8], i % 8);
    }
  }

  // ---------- Multiplication by x ----------

  function TimesX(v: Block): Block {
    var low := BitOf(v[15], 7);
    seq(16, j requires 0 <= j < 16 =>
      if j > 0 then Halved(v[j], v[j - 1]) else if low then XorByte(Halved(v[0], 0), 0xE1) else Halved(v[0], 0))
  }

  lemma TimesXBit(v: Block, i: nat)
    requires i < 128
    ensures i in Exponents(TimesX(v)) <==>
            (i > 0 && i - 1 in Exponents(v)) != (127 in Exponents(v) && (i == 0 || i == 1 || i == 2 || i == 7))
  {
    hide BitOf, Halved, XorByte;
    var j, k := i / 8, i % 8;
    assert 127 in Exponents(v) <==> BitOf(v[15], 7);
    if i > 0 {
      assert i - 1 in Exponents(v) <==> if k > 0 then BitOf(v[j], k - 1) else BitOf(v[j - 1], 7);
    }
    if j > 0 {
      BitHalved(v[j], v[j - 1], k);
    } else {
      BitHalved(v[0], 0, k);
      BitXor(Halved(v[0], 0), 0xE1, k);
      BitReduction(k);
      BitReduction(7);
    }
  }

  /** One step multiplies by x modulo the field polynomial. */
  lemma TimesXIsShift(v: Block)
    ensures Congruent(MODULUS, Exponents(TimesX(v)), Shifted(Exponents(v), 1))
  {
    var p, q := Exponents(TimesX(v)), Shifted(Exponents(v), 1);
    forall e: nat ensures e in p <==> (e in q) != (127 in Exponents(v) && e in MODULUS) {
      ShiftedHas(Exponents(v), 1, e);
      if e < 128 {
        TimesXBit(v, e);
      }
    }
    hide TimesX, Exponents, Shifted;
    if 127 in Exponents(v) {
      assert p == Plus(q, MODULUS);
      CongruentModulus(MODULUS, q);
    } else {
      assert p == q;
      CongruentSame(MODULUS, p);
    }
  }

  // ---------- The product ----------

  function Powers(y: Block, i: nat): Block
    decreases i
  {
    if i == 0 then y else TimesX(Powers(y, i - 1))
  }

  function PartialProduct(x: Block, y: Block, i: nat): Block
    requires i <= 128
    decreases i
  {
    if i == 0 then Zeros(16)
    else
      var z := PartialProduct(x, y, i - 1);
      if BitOf(x[(i - 1) / 8], (i - 1) % 8) then XorBlock(z, Powers(y, i - 1)) else z
  }

  function GhashMul(x: Block, y: Block): Block { PartialProduct(x, y, 128) }

  lemma {:induction false} PowersShift(y: Block, i: nat)
    ensures Congruent(MODULUS, Exponents(Powers(y, i)), Shifted(Exponents(y), i))
    decreases i
  {
    hide Exponents, Congruent, Shifted, TimesX;
    if i == 0 {
      ShiftedZero(Exponents(y));
      CongruentSame(MODULUS, Exponents(y));
    } else {
      PowersShift(y, i - 1);
      TimesXIsShift(Powers(y, i - 1));
      CongruentShift(MODULUS, Exponents(Powers(y, i - 1)), Shifted(Exponents(y), i - 1), 1);
      ShiftedTwice(Exponents(y), i - 1, 1);
      CongruentTrans(MODULUS, Exponents(Powers(y, i)), Shifted(Exponents(Powers(y, i - 1)), 1), Shifted(Exponents(y), i));
    }
  }

  lemma ZeroBlock()
    ensures Exponents(Zeros(16)) == {}
  {
    forall k: nat | k < 8 ensures !BitOf(0, k) {
      BitReduction(k);
    }
    hide BitOf;
  }

  lemma {:induction false} PartialIsProduct(x: Block, y: Block, i: nat)
    requires i <= 128
    ensures Congruent(MODULUS, Exponents(PartialProduct(x, y, i)), TimesBelow(Exponents(x), Exponents(y), i))
    decreases i
  {
    hide Congruent, Shifted, Plus, Powers, XorBlock, BitOf, Zeros;
    if i == 0 {
      ZeroBlock();
      CongruentSame(MODULUS, {});
    } else {
      PartialIsProduct(x, y, i - 1);
      var z, t := PartialProduct(x, y, i - 1), TimesBelow(Exponents(x), Exponents(y), i - 1);
      assert i - 1 in Exponents(x) <==> BitOf(x[(i - 1) / 8], (i - 1) % 8);
      hide Exponents;
      if i - 1 in Exponents(x) {
        PowersShift(y, i - 1);
        XorIsPlus(z, Powers(y, i - 1));
        CongruentPlus(MODULUS, Exponents(z), t, Exponents(Powers(y, i - 1)), Shifted(Exponents(y), i - 1));
      } else {
        PlusLaws(t, {}, {});
      }
    }
  }

  /** The product of two blocks is the one block that is congruent to the product of their polynomials. */
  lemma GhashMulIsProduct(x: Block, y: Block, b: Block)
    ensures b == GhashMul(x, y) <==> Congruent(MODULUS, Exponents(b), TimesBelow(Exponents(x), Exponents(y), 128))
  {
    var c := GhashMul(x, y);
    var p, r, q := Exponents(b), Exponents(c), TimesBelow(Exponents(x), Exponents(y), 128);
    assert Congruent(MODULUS, r, q) by { PartialIsProduct(x, y, 128); }
    BlockDegree(b);
    BlockDegree(c);
    hide TimesBelow, GhashMul, Exponents, Congruent;
    if Congruent(MODULUS, p, q) {
      CongruentSym(MODULUS, r, q);
      CongruentTrans(MODULUS, p, q, r);
      ResidueUnique(MODULUS, 128, p, r);
      ExponentsDetermine(b, c);
    }
  }

  lemma BlockDegree(b: Block)
    ensures Under(Exponents(b), 128) && Degree(MODULUS, 128)
  {
    hide BitOf;
  }

  // ---------- In place ----------

  /** Multiplies a block by x, from the last byte to the first. */
  method ShiftBlock(v: array<Byte>)
    requires v.Length == 16
    modifies v
    ensures v[..] == TimesX(old(v[..]))
  {
    hide BitOf, Halved, XorByte;
    var low := BitOf(v[15], 7);
    var j := 15;
    while j > 0
      invariant 0 <= j <= 15
      invariant forall i :: 0 <= i <= j ==> v[i] == old(v[i])
      invariant forall i :: j < i < 16 ==> v[i] == Halved(old(v[i]), old(v[i - 1]))
    {
      v[j] := Halved(v[j], v[j - 1]);
      j := j - 1;
    }
    v[0] := Halved(v[0], 0);
    if low {
      v[0] := XorByte(v[0], 0xE1);
    }
  }

  method AddBlock(z: array<Byte>, v: array<Byte>)
    requires z.Length == v.Length == 16 && z != v
    modifies z
    ensures z[..] == XorBlock(old(z[..]), v[..])
  {
    hide XorByte;
    for j := 0 to 16
      invariant forall i :: 0 <= i < j ==> z[i] == XorByte(old(z[i]), v[i])
      invariant forall i :: j <= i < 16 ==> z[i] == old(z[i])
    {
      z[j] := XorByte(z[j], v[j]);
    }
  }

  /** x becomes the product of x and y. */
  method Multiply(x: array<Byte>, y: Block)
    requires x.Length == 16
    modifies x
    ensures x[..] == GhashMul(old(x[..]), y)
  {
    hide BitOf, TimesX, XorBlock;
    var z, v := new Byte[16](i => 0), new Byte[16](i requires 0 <= i < 16 => y[i]);
    assert z[..] == Zeros(16) && v[..] == y;
    ghost var x0 := x[..];
    for i := 0 to 128
      invariant x[..] == x0 && z[..] == PartialProduct(x0, y, i) && v[..] == Powers(y, i)
    {
      if BitOf(x[i / 8], i % 8) {
        AddBlock(z, v);
      }
      ShiftBlock(v);
    }
    forall i | 0 <= i < 16 {
      x[i] := z[i];
    }
    assert x[..] == z[..];
  }
}
