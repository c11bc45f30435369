/** The product of tight/src/fec.cpp as a product of polynomials modulo x^8 + x^4 + x^3 + x^2 + 1: bit e of a byte is the
    coefficient of x^e. */
module GfPolynomial {
  import opened Octets
  import opened Polynomials
  import Gf256
  import opened GhashField

  /** x^8 + x^4 + x^3 + x^2 + 1 */
  const GF_MODULUS: Poly := {0, 2, 3, 4, 8}

  predicate HasPower(a: Byte, e: int) { 0 <= e < 8 && BitOf(a, 7 - e) }

  function Terms(a: Byte): Poly { set e: nat | e < 8 && HasPower(a, e) }

  lemma AddTerms(a: Byte, b: Byte)
    ensures Terms(Gf256.Add(a, b)) == Plus(Terms(a), Terms(b))
  {
    assert Gf256.Add(a, b) == XorByte(a, b);
    hide BitOf, XorByte, Gf256.Add;
    forall e: nat | e < 8 ensures e in Terms(XorByte(a, b)) <==> (e in Terms(a)) != (e in Terms(b)) {
      BitXor(a, b, 7 - e);
    }
  }

  lemma XTimeBits(a: Byte, e: nat)
    requires e < 8
    ensures HasPower(Gf256.XTime(a), e) <==> HasPower(a, e - 1) != (HasPower(a, 7) && e in {0, 2, 3, 4})
  {}

  /** One shift multiplies by x. */
  lemma XTimeIsShift(a: Byte)
    ensures Congruent(GF_MODULUS, Terms(Gf256.XTime(a)), Shifted(Terms(a), 1))
  {
    hide HasPower, Gf256.XTime;
    var p, q := Terms(Gf256.XTime(a)), Shifted(Terms(a), 1);
    Outside(a);
    forall e: nat ensures e in p <==> (e in q) != (7 in Terms(a) && e in GF_MODULUS) {
      ShiftedHas(Terms(a), 1, e);
      if e < 8 {
        XTimeBits(a, e);
      }
    }
    hide Terms, Shifted;
    if 7 in Terms(a) {
      assert p == Plus(q, GF_MODULUS);
      CongruentModulus(GF_MODULUS, q);
    } else {
      assert p == q;
      CongruentSame(GF_MODULUS, p);
    }
  }

  lemma Outside(a: Byte)
    ensures forall e: int :: HasPower(a, e) ==> 0 <= e < 8
  {}

  /** The polynomial divided by x, its constant term dropped. */
  function Lowered(p: Poly): Poly { set e | e in p && e > 0 :: e - 1 }

  lemma LoweredHas(p: Poly, e: nat)
    ensures e in Lowered(p) <==> e + 1 in p
  {
    if e + 1 in p {
      assert e == (e + 1) - 1;
    }
  }

  /** The constant term first, then the rest times x. */
  lemma {:induction false} TimesFromBelow(q: Poly, p: Poly, n: nat)
    requires n > 0
    ensures TimesBelow(q, p, n) == Plus(if 0 in q then p else {}, TimesBelow(Lowered(q), Shifted(p, 1), n - 1))
    decreases n
  {
    if n == 1 {
      ShiftedZero(p);
      assert TimesBelow(q, p, 0) == {};
      assert TimesBelow(Lowered(q), Shifted(p, 1), 0) == {};
    } else {
      TimesFromBelow(q, p, n - 1);
      LoweredHas(q, n - 2);
      ShiftedTwice(p, 1, n - 2);
      var first := if 0 in q then p else {};
      var rest := TimesBelow(Lowered(q), Shifted(p, 1), n - 2);
      hide Plus, Shifted, Lowered;
      PlusLaws(first, rest, if n - 1 in q then Shifted(p, n - 1) else {});
    }
  }

  lemma HalfTerms(b: Byte)
    ensures Terms(Gf256.Half(b)) == Lowered(Terms(b))
    ensures forall a: Byte :: Gf256.Pick(b, a) == if 0 in Terms(b) then a else 0
  {
    forall e: nat ensures e in Terms(Gf256.Half(b)) <==> e in Lowered(Terms(b)) {
      LoweredHas(Terms(b), e);
      if e < 8 {
        HalfBits(b, e);
      }
    }
    hide Terms, Lowered;
    forall a: Byte ensures Gf256.Pick(b, a) == if 0 in Terms(b) then a else 0 {
      PickTerms(b, a);
    }
  }

  lemma HalfBits(b: Byte, e: nat)
    requires e < 8
    ensures HasPower(Gf256.Half(b), e) <==> HasPower(b, e + 1)
  {}

  lemma PickTerms(b: Byte, a: Byte)
    ensures Gf256.Pick(b, a) == if 0 in Terms(b) then a else 0
  {
    assert 0 in Terms(b) <==> b & 1 == 1;
  }

  lemma NoTerms()
    ensures Terms(0) == {}
  {
    forall k: nat | k < 8 ensures !BitOf(0, k) {
      BitReduction(k);
    }
    hide BitOf;
  }

  lemma {:induction false} BitsAreProduct(a: Byte, b: Byte, n: nat)
    ensures Congruent(GF_MODULUS, Terms(Gf256.MulBits(a, b, n)), TimesBelow(Terms(b), Terms(a), n))
    decreases n
  {
    hide Congruent, Terms, Plus, Shifted, Gf256.XTime, Gf256.Half, Gf256.Pick, Gf256.Add;
    if n == 0 {
      NoTerms();
      CongruentSame(GF_MODULUS, {});
    } else {
      var x, h := Gf256.XTime(a), Gf256.Half(b);
      BitsAreProduct(x, h, n - 1);
      HalfTerms(b);
      XTimeIsShift(a);
      NoTerms();
      CongruentTimes(GF_MODULUS, Terms(h), Terms(x), Shifted(Terms(a), 1), n - 1);
      AddTerms(Gf256.Pick(b, a), Gf256.MulBits(x, h, n - 1));
      var first: Poly := if 0 in Terms(b) then Terms(a) else {};
      TimesFromBelow(Terms(b), Terms(a), n);
      CongruentTrans(GF_MODULUS, Terms(Gf256.MulBits(x, h, n - 1)), TimesBelow(Terms(h), Terms(x), n - 1),
                     TimesBelow(Terms(h), Shifted(Terms(a), 1), n - 1));
      CongruentSame(GF_MODULUS, first);
      CongruentPlus(GF_MODULUS, first, first, Terms(Gf256.MulBits(x, h, n - 1)), TimesBelow(Terms(h), Shifted(Terms(a), 1), n - 1));
    }
  }

  lemma SameTerms(a: Byte, b: Byte)
    requires Terms(a) == Terms(b)
    ensures a == b
  {
    hide BitOf;
    forall k: nat | k < 8 ensures BitOf(a, k) == BitOf(b, k) {
      assert 7 - k in Terms(a) <==> HasPower(a, 7 - k);
      assert 7 - k in Terms(b) <==> HasPower(b, 7 - k);
    }
    SameBits(a, b);
  }

  lemma ByteDegree(a: Byte)
    ensures Under(Terms(a), 8) && Degree(GF_MODULUS, 8)
  {
    hide BitOf;
  }

  /** The product of two bytes is the one byte congruent to the product of their polynomials. */
  lemma {:induction false} MulIsProduct(a: Byte, b: Byte, c: Byte)
    ensures c == Gf256.Mul(a, b) <==> Congruent(GF_MODULUS, Terms(c), TimesBelow(Terms(b), Terms(a), 8))
  {
    hide Congruent, Terms, TimesBelow, Gf256.MulBits;
    var m := Gf256.Mul(a, b);
    var q := TimesBelow(Terms(b), Terms(a), 8);
    BitsAreProduct(a, b, Gf256.Width());
    ByteDegree(c);
    ByteDegree(m);
    if Congruent(GF_MODULUS, Terms(c), q) {
      CongruentSym(GF_MODULUS, Terms(m), q);
      CongruentTrans(GF_MODULUS, Terms(c), q, Terms(m));
      ResidueUnique(GF_MODULUS, 8, Terms(c), Terms(m));
      SameTerms(c, m);
    }
  }
}
