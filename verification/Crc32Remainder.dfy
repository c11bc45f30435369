/** What the checksum of tight/src/crc32.cpp is: the remainder of the message modulo the generator of IEEE 802.3.

    The first bit of the message, the lowest of its first byte, is the coefficient of the highest power; bit k of a
    register, counted from the lowest, is the coefficient of x^(31-k). */
module Crc32Remainder {
  import opened Octets
  import opened Polynomials
  import opened Crc32

  /** x^32+x^26+x^23+x^22+x^16+x^12+x^11+x^10+x^8+x^7+x^5+x^4+x^2+x+1 */
  const GENERATOR: Poly := {32, 26, 23, 22, 16, 12, 11, 10, 8, 7, 5, 4, 2, 1, 0}

  // ---------- Words as polynomials ----------

  predicate BitAt(w: Word, k: nat) { Odd(HalfN(w, k)) }

  /** x^e occurs in the polynomial of the word. */
  predicate HasTerm(w: Word, e: int) { 0 <= e < 32 && BitAt(w, 31 - e) }

  function Terms(w: Word): Poly { set e: nat | e < 32 && HasTerm(w, e) }

  lemma {:induction false} HalfNXor(x: Word, y: Word, k: nat)
    ensures HalfN(Xor(x, y), k) == Xor(HalfN(x, k), HalfN(y, k))
    decreases k
  {
    hide Xor, Half;
    if k > 0 {
      HalfXor(x, y);
      HalfNXor(Half(x), Half(y), k - 1);
    }
  }

  lemma XorTerms(x: Word, y: Word)
    ensures Terms(Xor(x, y)) == Plus(Terms(x), Terms(y))
  {
    hide Xor, Odd, HalfN;
    forall e: nat | e < 32 ensures e in Terms(Xor(x, y)) <==> (e in Terms(x)) != (e in Terms(y)) {
      HalfNXor(x, y, 31 - e);
      OddXor(HalfN(x, 31 - e), HalfN(y, 31 - e));
    }
  }

  lemma {:induction false} HalfSum(x: Word, i: nat, j: nat)
    ensures HalfN(HalfN(x, i), j) == HalfN(x, i + j)
    decreases i
  {
    hide Half;
    if i > 0 {
      HalfSum(Half(x), i - 1, j);
    }
  }

  lemma {:induction false} EightHalves(x: Word)
    ensures HalfN(x, 8) == Shr8(x)
  {
    var a := Half(Half(Half(Half(x))));
    assert Half(Half(Half(Half(a)))) == Shr8(x);
    hide Half, Shr8;
    FourHalves(x);
    FourHalves(a);
    HalfSum(x, 4, 4);
  }

  lemma {:induction false} FourHalves(x: Word)
    ensures HalfN(x, 4) == Half(Half(Half(Half(x))))
  {
    hide Half;
    var a := Half(Half(x));
    assert HalfN(x, 4) == HalfN(Half(x), 3) == HalfN(a, 2);
    assert HalfN(a, 2) == HalfN(Half(a), 1) == HalfN(Half(Half(a)), 0);
  }

  /** After 32 halvings nothing is left. */
  lemma {:induction false} AllHalves(x: Word)
    ensures HalfN(x, 32) == 0
  {
    assert Shr8(Shr8(Shr8(Shr8(x)))) == 0;
    hide Shr8, HalfN;
    EightHalves(x);
    EightHalves(Shr8(x));
    EightHalves(Shr8(Shr8(x)));
    EightHalves(Shr8(Shr8(Shr8(x))));
    HalfSum(x, 8, 8);
    HalfSum(x, 16, 8);
    HalfSum(x, 24, 8);
  }

  lemma HalfAndLow(x: Word, y: Word)
    requires Half(x) == Half(y) && (Odd(x) <==> Odd(y))
    ensures x == y
  {}

  lemma {:induction false} SameHalves(x: Word, y: Word, n: nat)
    requires HalfN(x, n) == HalfN(y, n) && forall k: nat :: k < n ==> (BitAt(x, k) <==> BitAt(y, k))
    ensures x == y
    decreases n
  {
    hide Half, Odd;
    if n > 0 {
      assert BitAt(x, 0) <==> BitAt(y, 0);
      forall k: nat | k < n - 1 ensures BitAt(Half(x), k) <==> BitAt(Half(y), k) {
        assert BitAt(x, k + 1) <==> BitAt(y, k + 1);
      }
      SameHalves(Half(x), Half(y), n - 1);
      HalfAndLow(x, y);
    }
  }

  lemma TermsDetermine(x: Word, y: Word)
    requires Terms(x) == Terms(y)
    ensures x == y
  {
    hide BitAt;
    AllHalves(x);
    AllHalves(y);
    forall k: nat | k < 32 ensures BitAt(x, k) <==> BitAt(y, k) {
      assert 31 - k in Terms(x) <==> BitAt(x, k);
      assert 31 - k in Terms(y) <==> BitAt(y, k);
    }
    SameHalves(x, y, 32);
  }

  // ---------- One step of the register ----------

  lemma {:induction false} LowHalves(w: Word)
    ensures HalfN(w, 0) == w && HalfN(w, 1) == Half(w) && HalfN(w, 2) == Half(Half(w)) && HalfN(w, 3) == Half(Half(Half(w)))
  {
    hide Half;
    assert HalfN(w, 1) == HalfN(Half(w), 0);
    assert HalfN(w, 2) == HalfN(Half(w), 1) == HalfN(Half(Half(w)), 0);
    var a := Half(w);
    assert HalfN(a, 2) == HalfN(Half(a), 1) == HalfN(Half(Half(a)), 0);
    assert HalfN(w, 3) == HalfN(a, 2);
  }

  /** Four bits of a word, and the word left after them. */
  lemma NextFour(w: Word, k: nat, v: Word)
    requires HalfN(w, k) == v
    ensures (BitAt(w, k) <==> Odd(v)) && (BitAt(w, k + 1) <==> Odd(Half(v)))
    ensures (BitAt(w, k + 2) <==> Odd(Half(Half(v)))) && (BitAt(w, k + 3) <==> Odd(Half(Half(Half(v)))))
    ensures HalfN(w, k + 4) == Half(Half(Half(Half(v))))
  {
    hide Odd, Half;
    LowHalves(v);
    FourHalves(v);
    hide HalfN;
    HalfSum(w, k, 0);
    HalfSum(w, k, 1);
    HalfSum(w, k, 2);
    HalfSum(w, k, 3);
    HalfSum(w, k, 4);
  }

  lemma PolyLow()
    ensures HalfN(POLY, 16) == 0xEDB8
    ensures forall k: nat :: k < 16 ==> (BitAt(POLY, k) <==> k in {5, 8, 9, 15})
  {
    LowHalves(POLY);
    NextFour(POLY, 0, 0xEDB88320);
    NextFour(POLY, 4, 0xEDB8832);
    NextFour(POLY, 8, 0xEDB883);
    NextFour(POLY, 12, 0xEDB88);
    hide HalfN, BitAt;
  }

  lemma PolyHigh()
    ensures forall k: nat :: 16 <= k < 32 ==> (BitAt(POLY, k) <==> k !in {16, 17, 18, 22, 25, 28})
  {
    PolyLow();
    NextFour(POLY, 16, 0xEDB8);
    NextFour(POLY, 20, 0xEDB);
    NextFour(POLY, 24, 0xED);
    NextFour(POLY, 28, 0xE);
    hide HalfN, BitAt;
  }

  /** The constant of the source is the generator without its leading term. */
  lemma PolyTerms()
    ensures Terms(POLY) == GENERATOR - {32}
  {
    PolyLow();
    PolyHigh();
    hide BitAt;
    forall e: nat | e < 32 ensures HasTerm(POLY, e) <==> e in GENERATOR {
    }
  }

  lemma HalfTerms(x: Word)
    ensures Terms(Half(x)) == Shifted(Terms(x) - {31}, 1)
    ensures 31 in Terms(x) <==> Odd(x)
  {
    LowHalves(x);
    AllHalves(x);
    assert !Odd(0);
    hide Half, Odd;
    forall e: nat | e < 32 ensures e in Terms(Half(x)) <==> e > 0 && e - 1 in Terms(x) {
      assert HalfN(Half(x), 31 - e) == HalfN(x, 32 - e);
    }
    forall e: nat ensures e in Terms(Half(x)) <==> e in Shifted(Terms(x) - {31}, 1) {
      ShiftedHas(Terms(x) - {31}, 1, e);
    }
  }

  /** One step of the register multiplies by x modulo the generator. */
  lemma ShiftIsTimesX(x: Word)
    ensures Congruent(GENERATOR, Terms(Shift(x)), Shifted(Terms(x), 1))
  {
    var t, q := Terms(x), Shifted(Terms(x), 1);
    HalfTerms(x);
    forall e: nat ensures e in q <==> e in Terms(Half(x)) || (e == 32 && Odd(x)) {
      ShiftedHas(t, 1, e);
      ShiftedHas(t - {31}, 1, e);
    }
    assert 32 !in Terms(Half(x));
    PolyTerms();
    XorTerms(POLY, Half(x));
    hide Terms, Shifted, Half, Odd, Xor, POLY;
    if Odd(x) {
      assert Terms(Shift(x)) == Plus(q, GENERATOR);
      CongruentModulus(GENERATOR, q);
    } else {
      assert Terms(Shift(x)) == q;
      CongruentSame(GENERATOR, q);
    }
  }

  // ---------- The message ----------

  /** The n lowest bits of a word, the lowest as the highest power. */
  function BitTerms(b: Word, n: nat): Poly
    decreases n
  {
    if n == 0 then {} else BitTerms(Half(b), n - 1) + if Odd(b) then {n - 1} else {}
  }

  /** The message as a polynomial. */
  function MessageTerms(s: Bytes): Poly
    decreases |s|
  {
    if |s| == 0 then {} else Plus(Shifted(BitTerms(Wide(s[0]), 8), 8 * (|s| - 1)), MessageTerms(s[1..]))
  }

  lemma {:induction false} BitTermsUnder(b: Word, n: nat)
    ensures Under(BitTerms(b, n), n)
    ensures forall e: nat :: e < n ==> (e in BitTerms(b, n) <==> BitAt(b, n - 1 - e))
    decreases n
  {
    hide Half, Odd;
    if n > 0 {
      BitTermsUnder(Half(b), n - 1);
      forall e: nat | e < n ensures e in BitTerms(b, n) <==> BitAt(b, n - 1 - e) {
        if e < n - 1 {
          assert HalfN(b, n - 1 - e) == HalfN(Half(b), n - 2 - e);
        }
      }
    }
  }

  /** Bit k of byte j is the coefficient of x^(8n - 1 - (8j + k)). */
  lemma {:induction false} MessageBit(s: Bytes, j: nat, k: nat)
    requires j < |s| && k < 8
    ensures 8 * |s| - 1 - (8 * j + k) in MessageTerms(s) <==> BitAt(Wide(s[j]), k)
    decreases j
  {
    hide BitAt, Wide;
    var e: nat := 8 * |s| - 1 - (8 * j + k);
    var top, rest := BitTerms(Wide(s[0]), 8), MessageTerms(s[1..]);
    ShiftedHas(top, 8 * (|s| - 1), e);
    MessageUnder(s[1..]);
    BitTermsUnder(Wide(s[0]), 8);
    if j == 0 {
      assert 7 - k in top <==> BitAt(Wide(s[0]), k);
      hide BitTerms, MessageTerms;
      HeadOf(s);
    } else {
      MessageBit(s[1..], j - 1, k);
      hide BitTerms, MessageTerms;
      HeadOf(s);
    }
  }

  lemma {:induction false} HeadOf(s: Bytes)
    requires |s| > 0
    ensures MessageTerms(s) == Plus(Shifted(BitTerms(Wide(s[0]), 8), 8 * (|s| - 1)), MessageTerms(s[1..]))
  {}

  lemma {:induction false} MessageUnder(s: Bytes)
    ensures Under(MessageTerms(s), 8 * |s|)
    decreases |s|
  {
    hide Wide;
    if |s| > 0 {
      MessageUnder(s[1..]);
      BitTermsUnder(Wide(s[0]), 8);
      ShiftedUnder(BitTerms(Wide(s[0]), 8), 8 * (|s| - 1), 8);
      hide BitTerms, Shifted;
    }
  }

  // ---------- The register ----------

  lemma LowTerms(b: Word)
    ensures Terms(Low(b)) == if Odd(b) then {31} else {}
  {
    HalfTerms(Low(b));
    assert Half(Low(b)) == 0 && (Odd(Low(b)) <==> Odd(b)) && Half(0) == 0;
    ZeroTerms();
    var t := Terms(Low(b));
    assert forall e :: e in t - {31} ==> e + 1 in Shifted(t - {31}, 1);
  }

  lemma ZeroTerms()
    ensures Terms(0) == {}
  {
    XorTerms(0, 0);
    XorGroup(0, 0, 0);
    PlusLaws(Terms(0), {}, {});
  }

  /** Feeding one bit: times x, and the bit at x^32. */
  lemma FeedTerms(c: Word, b: Word)
    ensures Congruent(GENERATOR, Terms(Shift(Xor(c, Low(b)))), Plus(Shifted(Terms(c), 1), if Odd(b) then {32} else {}))
  {
    ShiftIsTimesX(Xor(c, Low(b)));
    XorTerms(c, Low(b));
    LowTerms(b);
    ShiftedPlus(Terms(c), Terms(Low(b)), 1);
    EmptyShift(1);
    PowerShift(31, 1);
    hide Shift, Xor, Low, Terms, Congruent;
  }

  lemma PowerShift(i: nat, k: nat)
    ensures Shifted({i}, k) == {i + k}
  {
    forall e: nat ensures e in Shifted({i}, k) <==> e == i + k {
      ShiftedHas({i}, k, e);
    }
  }

  lemma {:induction false} SerialTerms(c: Word, b: Word, n: nat)
    ensures Congruent(GENERATOR, Terms(Serial(c, b, n)), Plus(Shifted(Terms(c), n), Shifted(BitTerms(b, n), 32)))
    decreases n
  {
    hide Congruent, Terms, Shift, Xor, Low, Half, Odd, Plus, Shifted;
    if n == 0 {
      ShiftedZero(Terms(c));
      EmptyShift(32);
      PlusLaws(Terms(c), {}, {});
      CongruentSame(GENERATOR, Terms(c));
    } else {
      var fed := Shift(Xor(c, Low(b)));
      var one := if Odd(b) then {32} else {};
      var rest := Shifted(BitTerms(Half(b), n - 1), 32);
      SerialTerms(fed, Half(b), n - 1);
      FeedTerms(c, b);
      CongruentShift(GENERATOR, Terms(fed), Plus(Shifted(Terms(c), 1), one), n - 1);
      ShiftedPlus(Shifted(Terms(c), 1), one, n - 1);
      ShiftedTwice(Terms(c), 1, n - 1);
      TopBitTerms(b, n);
      CongruentSame(GENERATOR, rest);
      CongruentPlus(GENERATOR, Shifted(Terms(fed), n - 1), Plus(Shifted(Terms(c), n), Shifted(one, n - 1)), rest, rest);
      PlusLaws(Shifted(Terms(c), n), Shifted(one, n - 1), rest);
      CongruentTrans(GENERATOR, Terms(Serial(c, b, n)), Plus(Shifted(Terms(fed), n - 1), rest),
                     Plus(Plus(Shifted(Terms(c), n), Shifted(one, n - 1)), rest));
    }
  }

  lemma {:induction false} TopBitTerms(b: Word, n: nat)
    requires n > 0
    ensures Shifted(BitTerms(b, n), 32)
         == Plus(Shifted(if Odd(b) then {32} else {}, n - 1), Shifted(BitTerms(Half(b), n - 1), 32))
  {
    BitTermsUnder(Half(b), n - 1);
    var rest := BitTerms(Half(b), n - 1);
    var top: Poly := if Odd(b) then {n - 1} else {};
    assert n - 1 !in rest;
    assert BitTerms(b, n) == Plus(top, rest);
    hide BitTerms;
    ShiftedPlus(top, rest, 32);
    PowerShift(n - 1, 32);
    PowerShift(32, n - 1);
    EmptyShift(32);
    EmptyShift(n - 1);
  }

  /** The register after a string: preset times x^(8n), and the message times x^32, modulo the generator. */
  lemma {:induction false} RegisterTerms(c: Word, s: Bytes)
    ensures Congruent(GENERATOR, Terms(Register(c, s)), Plus(Shifted(Terms(c), 8 * |s|), Shifted(MessageTerms(s), 32)))
    decreases |s|
  {
    hide Congruent, Terms, Serial, Wide, BitTerms, Plus, Shifted;
    if |s| == 0 {
      ShiftedZero(Terms(c));
      EmptyShift(32);
      PlusLaws(Terms(c), {}, {});
      CongruentSame(GENERATOR, Terms(c));
    } else {
      var n := 8 * (|s| - 1);
      var d := Serial(c, Wide(s[0]), 8);
      var top, rest := BitTerms(Wide(s[0]), 8), Shifted(MessageTerms(s[1..]), 32);
      RegisterTerms(d, s[1..]);
      SerialTerms(c, Wide(s[0]), 8);
      CongruentShift(GENERATOR, Terms(d), Plus(Shifted(Terms(c), 8), Shifted(top, 32)), n);
      ShiftedPlus(Shifted(Terms(c), 8), Shifted(top, 32), n);
      ShiftedTwice(Terms(c), 8, n);
      ShiftedTwice(top, 32, n);
      ShiftedTwice(top, n, 32);
      ShiftedPlus(Shifted(top, n), MessageTerms(s[1..]), 32);
      CongruentSame(GENERATOR, rest);
      CongruentPlus(GENERATOR, Shifted(Terms(d), n), Plus(Shifted(Terms(c), 8 * |s|), Shifted(top, 32 + n)), rest, rest);
      PlusLaws(Shifted(Terms(c), 8 * |s|), Shifted(top, 32 + n), rest);
      CongruentTrans(GENERATOR, Terms(Register(c, s)), Plus(Shifted(Terms(d), n), rest),
                     Plus(Plus(Shifted(Terms(c), 8 * |s|), Shifted(top, 32 + n)), rest));
    }
  }

  /** 1 + x + ... + x^(n-1) */
  function PowersBelow(n: nat): (p: Poly)
    ensures forall e: nat :: e in p <==> e < n
  {
    if n == 0 then {} else PowersBelow(n - 1) + {n - 1}
  }

  function AllOnes(): Poly { PowersBelow(32) }

  lemma OnesLow()
    ensures HalfN(ONES, 16) == 0xFFFF
    ensures forall k: nat :: k < 16 ==> BitAt(ONES, k)
  {
    LowHalves(ONES);
    NextFour(ONES, 0, 0xFFFF_FFFF);
    NextFour(ONES, 4, 0xFFF_FFFF);
    NextFour(ONES, 8, 0xFF_FFFF);
    NextFour(ONES, 12, 0xF_FFFF);
    hide HalfN, BitAt;
  }

  lemma OnesHigh()
    ensures forall k: nat :: 16 <= k < 32 ==> BitAt(ONES, k)
  {
    OnesLow();
    NextFour(ONES, 16, 0xFFFF);
    NextFour(ONES, 20, 0xFFF);
    NextFour(ONES, 24, 0xFF);
    NextFour(ONES, 28, 0xF);
    hide HalfN, BitAt;
  }

  lemma OnesTerms()
    ensures Terms(ONES) == AllOnes()
  {
    OnesLow();
    OnesHigh();
    hide BitAt, PowersBelow;
    forall e: nat | e < 32 ensures HasTerm(ONES, e) {
    }
    forall e: nat ensures e in Terms(ONES) <==> e in AllOnes() {
    }
  }

  /** The checksum is the one word that is, complement and preset taken into account, the remainder of the message
      times x^32: word + (1 + ... + x^31) = message * x^32 + (1 + ... + x^31) * x^(8n) modulo the generator. */
  lemma {:induction false} ChecksumIsRemainder(s: Bytes, w: Word)
    ensures w == Checksum(s) <==>
            Congruent(GENERATOR, Plus(Terms(w), AllOnes()), Plus(Shifted(AllOnes(), 8 * |s|), Shifted(MessageTerms(s), 32)))
  {
    var r := Register(ONES, s);
    var q := Plus(Shifted(AllOnes(), 8 * |s|), Shifted(MessageTerms(s), 32));
    RegisterTerms(ONES, s);
    OnesTerms();
    XorTerms(w, ONES);
    XorGroup(r, ONES, ONES);
    XorGroup(w, ONES, ONES);
    XorGroup(r, 0, 0);
    XorGroup(w, 0, 0);
    WordDegree(Xor(w, ONES));
    WordDegree(r);
    hide Congruent, Terms, Register, Xor, Plus, Shifted, MessageTerms, AllOnes;
    if Congruent(GENERATOR, Terms(Xor(w, ONES)), q) {
      CongruentSym(GENERATOR, Terms(r), q);
      CongruentTrans(GENERATOR, Terms(Xor(w, ONES)), q, Terms(r));
      ResidueUnique(GENERATOR, 32, Terms(Xor(w, ONES)), Terms(r));
      TermsDetermine(Xor(w, ONES), r);
    }
  }

  lemma WordDegree(w: Word)
    ensures Under(Terms(w), 32) && Degree(GENERATOR, 32)
  {}
}
