/** What the GCM part of tight/src/crypto.cpp authenticates and which counter blocks it uses.

    The hashed string determines both inputs of the tag, the hash is a sum of its blocks times powers of the hash
    key, and no counter block is used twice under one nonce. */
module GcmLaws {
  import opened Octets
  import opened WireFormat
  import opened Polynomials
  import opened PacketCodec
  import opened GhashField
  import opened Gcm

  // ---------- What is hashed ----------

  /** The number in the last eight bytes of a length block half. */
  function BigEndian64(b: Bytes): nat
    requires |b| == 8
  {
    FromBe32(b[..4]) * 0x1_0000_0000 + FromBe32(b[4..])
  }

  /** A length block half reads back as the length in bits. */
  lemma BitCountReads(n: nat)
    requires n < 0x2000_0000_0000_0000
    ensures BigEndian64(BitCount(n)) == 8 * n
  {
    hide ToBe32, FromBe32;
    var v := 8 * n;
    var hi, lo := ToBe32(v / 0x1_0000_0000), ToBe32(v);
    Be32LowBits(v / 0x1_0000_0000);
    Be32LowBits(v);
    assert (hi + lo)[..4] == hi && (hi + lo)[4..] == lo;
    assert v / 0x1_0000_0000 < 0x1_0000_0000;
  }

  /** Where both strings and both lengths, in bits, stand in a string that is hashed. */
  ghost predicate LaidOut(s: Bytes, aad: Bytes, ct: Bytes) {
    var a, n := |Padded(aad)|, |s|;
    && n == a + |Padded(ct)| + 16
    && s[..|aad|] == aad
    && s[a..a + |ct|] == ct
    && s[n - 16..n - 8] == BitCount(|aad|)
    && s[n - 8..] == BitCount(|ct|)
  }

  lemma FourParts(a: Bytes, c: Bytes, l: Bytes, m: Bytes, i: nat, j: nat)
    requires |l| == |m| == 8 && i <= |a| && j <= |c|
    ensures var s := a + c + (l + m);
            && |s| == |a| + |c| + 16 && s[..i] == a[..i] && s[|a|..|a| + j] == c[..j]
            && s[|s| - 16..|s| - 8] == l && s[|s| - 8..] == m
  {
    var s := a + c + (l + m);
    assert s[..i] == a[..i];
    assert s[|a|..|a| + j] == c[..j];
    assert s[|s| - 16..|s| - 8] == l && s[|s| - 8..] == m;
  }

  /** Both strings stand in the hashed string, and its last 16 bytes are their lengths in bits. */
  lemma TagInputParts(aad: Bytes, ct: Bytes)
    ensures LaidOut(TagInput(aad, ct), aad, ct)
  {
    hide Padded, BitCount;
    FourParts(Padded(aad), Padded(ct), BitCount(|aad|), BitCount(|ct|), |aad|, |ct|);
  }

  lemma LaidOutOnce(s: Bytes, aad: Bytes, ct: Bytes, aad': Bytes, ct': Bytes)
    requires |aad| < 0x2000_0000_0000_0000 && |ct| < 0x2000_0000_0000_0000
    requires |aad'| < 0x2000_0000_0000_0000 && |ct'| < 0x2000_0000_0000_0000
    requires LaidOut(s, aad, ct) && LaidOut(s, aad', ct')
    ensures aad == aad' && ct == ct'
  {
    hide Padded, BitCount, BigEndian64;
    BitCountReads(|aad|);
    BitCountReads(|ct|);
    BitCountReads(|aad'|);
    BitCountReads(|ct'|);
    assert |aad| == |aad'| && |ct| == |ct'|;
    assert aad == aad';
  }

  /** So what is hashed determines the authenticated data and the ciphertext. */
  lemma TagInputInjective(aad: Bytes, ct: Bytes, aad': Bytes, ct': Bytes)
    requires |aad| < 0x2000_0000_0000_0000 && |ct| < 0x2000_0000_0000_0000
    requires |aad'| < 0x2000_0000_0000_0000 && |ct'| < 0x2000_0000_0000_0000
    ensures TagInput(aad, ct) == TagInput(aad', ct') <==> aad == aad' && ct == ct'
  {
    hide TagInput, LaidOut;
    TagInputParts(aad, ct);
    TagInputParts(aad', ct');
    if TagInput(aad, ct) == TagInput(aad', ct') {
      LaidOutOnce(TagInput(aad, ct), aad, ct, aad', ct');
    }
  }

  // ---------- The hash as a polynomial in the hash key ----------

  function Power(h: Poly, n: nat): Poly
    decreases n
  {
    if n == 0 then {0} else TimesBelow(h, Power(h, n - 1), 128)
  }

  /** The sum of the blocks times falling powers of the key: B_1 * H^n + ... + B_n * H. */
  function PowerSum(h: Poly, s: Bytes): Poly
    requires |s| % 16 == 0
    decreases |s|
  {
    if |s| == 0 then {}
    else
      OneBlock(s);
      Plus(TimesBelow(Exponents(s[..16]), Power(h, |s| / 16), 128), PowerSum(h, s[16..]))
  }

  lemma OneBlock(s: Bytes)
    requires |s| % 16 == 0 && |s| > 0
    ensures |s| >= 16 && |s[16..]| % 16 == 0 && |s[16..]| / 16 == |s| / 16 - 1
  {}

  lemma {:induction false} PowerUnder(h: Poly, n: nat)
    ensures Under(Power(h, n), 127 * n + 1)
    decreases n
  {
    if n > 0 {
      PowerUnder(h, n - 1);
      TimesUnder(h, Power(h, n - 1), 127 * (n - 1) + 1, 128);
      hide TimesBelow;
    }
  }

  /** Congruent factors on the left give congruent products. */
  lemma {:induction false} CongruentLeft(m: Poly, p: Poly, n: nat, q: Poly, k: nat, r: Poly, d: nat)
    requires Congruent(m, p, q) && Under(p, n) && Under(q, k) && Under(r, d)
    ensures Congruent(m, TimesBelow(p, r, n), TimesBelow(q, r, k))
  {
    TimesCommutes(p, r, n, d);
    TimesCommutes(q, r, k, d);
    assert Cut(p, n) == p && Cut(q, k) == q;
    hide TimesBelow, Congruent;
    CongruentTimes(m, r, p, q, d);
  }

  /** One absorbed block, carried through the remaining powers. */
  lemma {:induction false} AbsorbOne(h: Block, x: Block, b: Block, n: nat)
    requires n > 0
    ensures var e := Exponents(h);
            Congruent(MODULUS, TimesBelow(Exponents(GhashMul(XorBlock(x, b), h)), Power(e, n - 1), 128),
                      Plus(TimesBelow(Exponents(x), Power(e, n), 128), TimesBelow(Exponents(b), Power(e, n), 128)))
  {
    hide Congruent, Exponents, GhashMul, XorBlock, TimesBelow, Plus;
    var y, e := XorBlock(x, b), Exponents(h);
    var z := GhashMul(y, h);
    var product := TimesBelow(Exponents(y), e, 128);
    GhashMulIsProduct(y, h, z);
    BlockDegree(z);
    BlockDegree(h);
    BlockDegree(y);
    TimesUnder(Exponents(y), e, 128, 128);
    PowerUnder(e, n - 1);
    CongruentLeft(MODULUS, Exponents(z), 128, product, 256, Power(e, n - 1), 127 * (n - 1) + 1);
    TimesAssoc(Exponents(y), e, Power(e, n - 1), 128, 128, 256);
    XorIsPlus(x, b);
    PlusTimes(Exponents(x), Exponents(b), Power(e, n), 128);
  }

  /** The hash is the one block congruent to X * H^n + B_1 * H^n + ... + B_n * H. */
  lemma {:induction false} GhashIsPowerSum(h: Block, x: Block, s: Bytes)
    requires |s| % 16 == 0
    ensures Congruent(MODULUS, Exponents(Ghash(h, x, s)),
                      Plus(TimesBelow(Exponents(x), Power(Exponents(h), |s| / 16), 128), PowerSum(Exponents(h), s)))
    decreases |s|
  {
    hide Congruent, Exponents, GhashMul, XorBlock, TimesBelow, Plus, Power;
    var e, n := Exponents(h), |s| / 16;
    if |s| == 0 {
      TimesOne(x, h);
      PlusLaws(Exponents(x), {}, {});
      CongruentSame(MODULUS, Exponents(x));
    } else {
      var b, rest := s[..16], s[16..];
      var y := GhashMul(XorBlock(x, b), h);
      GhashIsPowerSum(h, y, rest);
      AbsorbOne(h, x, b, n);
      var old_, new_ := TimesBelow(Exponents(y), Power(e, n - 1), 128), TimesBelow(Exponents(x), Power(e, n), 128);
      var first, sum := TimesBelow(Exponents(b), Power(e, n), 128), PowerSum(e, rest);
      CongruentSame(MODULUS, sum);
      CongruentPlus(MODULUS, old_, Plus(new_, first), sum, sum);
      PlusLaws(new_, first, sum);
      CongruentTrans(MODULUS, Exponents(Ghash(h, x, s)), Plus(old_, sum), Plus(Plus(new_, first), sum));
    }
  }

  lemma {:induction false} TimesOne(x: Block, h: Block)
    ensures TimesBelow(Exponents(x), Power(Exponents(h), 0), 128) == Exponents(x)
  {
    BlockDegree(x);
    hide Exponents;
    PowerTimes(Exponents(x), 0, 128);
    ShiftedZero(Exponents(x));
  }

  /** Two tags under one nonce are equal exactly when the two power sums agree at the hash key: when it is a root of
      their difference, whose coefficients differ unless data and ciphertext are the same. */
  lemma {:induction false} TagsMeetExactly(enc: Block -> Block, j0: Block, aad: Bytes, ct: Bytes, aad': Bytes, ct': Bytes)
    ensures Tag(enc, j0, aad, ct) == Tag(enc, j0, aad', ct')
       <==> (var h := Exponents(enc(Zeros(16)));
             Congruent(MODULUS, PowerSum(h, TagInput(aad, ct)), PowerSum(h, TagInput(aad', ct'))))
  {
    hide Congruent, Exponents, XorBlock, Ghash, PowerSum, TagInput;
    var h := enc(Zeros(16));
    var s, t := TagInput(aad, ct), TagInput(aad', ct');
    var a, b := Ghash(h, Zeros(16), s), Ghash(h, Zeros(16), t);
    var p, q := PowerSum(Exponents(h), s), PowerSum(Exponents(h), t);
    FromZero(h, s);
    FromZero(h, t);
    SameMask(a, b, enc(j0));
    BlockDegree(a);
    BlockDegree(b);
    CongruentSym(MODULUS, Exponents(a), p);
    if a == b {
      CongruentTrans(MODULUS, p, Exponents(a), q);
    }
    if Congruent(MODULUS, p, q) {
      CongruentSym(MODULUS, Exponents(b), q);
      CongruentTrans(MODULUS, Exponents(a), p, q);
      CongruentTrans(MODULUS, Exponents(a), q, Exponents(b));
      ResidueUnique(MODULUS, 128, Exponents(a), Exponents(b));
      ExponentsDetermine(a, b);
    }
  }

  lemma {:induction false} FromZero(h: Block, s: Bytes)
    requires |s| % 16 == 0
    ensures Congruent(MODULUS, Exponents(Ghash(h, Zeros(16), s)), PowerSum(Exponents(h), s))
  {
    hide Congruent, Exponents, Ghash, PowerSum, TimesBelow, Power;
    GhashIsPowerSum(h, Zeros(16), s);
    ZeroBlock();
    EmptyTimes(Power(Exponents(h), |s| / 16), 128);
    PlusLaws({}, PowerSum(Exponents(h), s), {});
    PlusLaws(PowerSum(Exponents(h), s), {}, {});
  }

  lemma SameMask(a: Block, b: Block, k: Block)
    ensures XorBlock(a, k) == XorBlock(b, k) <==> a == b
  {
    hide XorByte;
    if XorBlock(a, k) == XorBlock(b, k) {
      forall i | 0 <= i < 16 ensures a[i] == b[i] {
        assert XorBlock(a, k)[i] == XorBlock(b, k)[i];
        XorByteTwice(a[i], k[i]);
        XorByteTwice(b[i], k[i]);
      }
    }
  }

  // ---------- Counter blocks ----------

  lemma SuccIndex(b: Byte)
    ensures Index(Succ(b)) == if Index(b) == 255 then 0 else Index(b) + 1
    ensures Succ(b) == 0 <==> Index(b) == 255
  {}

  function Digits(a: int, b: int, c: int, d: int): int { a * 0x100_0000 + b * 0x1_0000 + c * 0x100 + d }

  lemma IncDigits(a: nat, b: nat, c: nat, d: nat)
    requires a < 256 && b < 256 && c < 256 && d < 256
    ensures (Digits(a, b, c, d) + 1) % 0x1_0000_0000
         == if d < 255 then Digits(a, b, c, d + 1)
            else if c < 255 then Digits(a, b, c + 1, 0)
            else if b < 255 then Digits(a, b + 1, 0, 0)
            else if a < 255 then Digits(a + 1, 0, 0, 0)
            else 0
  {}

  lemma IncReads(b: Bytes)
    requires |b| == 4
    ensures FromBe32(IncList(b[0], b[1], b[2], b[3])) == (FromBe32(b) + 1) % 0x1_0000_0000
  {
    hide Succ, Index, FromBe32, Digits;
    SuccIndex(b[0]);
    SuccIndex(b[1]);
    SuccIndex(b[2]);
    SuccIndex(b[3]);
    IncDigits(Index(b[0]), Index(b[1]), Index(b[2]), Index(b[3]));
    AsDigits(b);
    AsDigits(IncList(b[0], b[1], b[2], b[3]));
    ZeroDigits();
  }

  lemma AsDigits(b: Bytes)
    requires |b| == 4
    ensures FromBe32(b) == Digits(Index(b[0]), Index(b[1]), Index(b[2]), Index(b[3]))
  {
    hide Index;
  }

  lemma ZeroDigits()
    ensures Digits(0, 0, 0, 0) == 0
  {}

  /** Counter block n is the nonce and the number n + 1: the tag is masked with number 1, and the key stream starts
      at number 2. */
  lemma {:induction false} CounterReads(nonce: Bytes, n: nat)
    requires |nonce| == NONCE_SIZE
    ensures var c := Counter(FirstCounter(nonce), n);
            c[..12] == nonce && FromBe32(c[12..]) == (n + 1) % 0x1_0000_0000
    decreases n
  {
    hide FromBe32, FirstCounter, Inc32;
    if n == 0 {
      FirstReads(nonce);
    } else {
      CounterReads(nonce, n - 1);
      IncBlock(Counter(FirstCounter(nonce), n - 1));
      NextCount(n);
    }
  }

  lemma IncBlock(c: Block)
    ensures Inc32(c)[..12] == c[..12] && FromBe32(Inc32(c)[12..]) == (FromBe32(c[12..]) + 1) % 0x1_0000_0000
  {
    hide BeWord, GetWord, FromBe32, IncList;
    var tail := c[12..];
    IncBytes(tail);
    IncReads(tail);
    assert Inc32(c)[12..] == BeWord(GetWord(tail) + 1);
  }

  lemma FirstReads(nonce: Bytes)
    requires |nonce| == NONCE_SIZE
    ensures FirstCounter(nonce)[..12] == nonce && FromBe32(FirstCounter(nonce)[12..]) == 1
  {
    var c := FirstCounter(nonce);
    assert c[12..] == [0, 0, 0, 1];
    assert Index(0) == 0 && Index(1) == 1;
    hide Index;
  }

  lemma NextCount(n: nat)
    requires n > 0
    ensures (n % 0x1_0000_0000 + 1) % 0x1_0000_0000 == (n + 1) % 0x1_0000_0000
  {}

  lemma LastDigit(x: int, y: int, u: nat, v: nat)
    requires u < 256 && v < 256 && x * 256 + u == y * 256 + v
    ensures x == y && u == v
  {}

  lemma ReadsDetermine(b: Bytes, c: Bytes)
    requires |b| == |c| == 4 && FromBe32(b) == FromBe32(c)
    ensures b == c
  {
    hide Index, FromBe32;
    AsDigits(b);
    AsDigits(c);
    DigitsDetermine(Index(b[0]), Index(b[1]), Index(b[2]), Index(b[3]), Index(c[0]), Index(c[1]), Index(c[2]), Index(c[3]));
    hide Digits;
    IndexInjective(b[0], c[0]);
    IndexInjective(b[1], c[1]);
    IndexInjective(b[2], c[2]);
    IndexInjective(b[3], c[3]);
  }

  lemma DigitsDetermine(p: nat, q: nat, r: nat, s: nat, t: nat, u: nat, v: nat, w: nat)
    requires q < 256 && r < 256 && s < 256 && u < 256 && v < 256 && w < 256
    requires Digits(p, q, r, s) == Digits(t, u, v, w)
    ensures p == t && q == u && r == v && s == w
  {
    Nested(p, q, r, s);
    Nested(t, u, v, w);
    hide Digits;
    LastDigit((p * 256 + q) * 256 + r, (t * 256 + u) * 256 + v, s, w);
    LastDigit(p * 256 + q, t * 256 + u, r, v);
    LastDigit(p, t, q, u);
  }

  lemma Nested(a: nat, b: nat, c: nat, d: nat)
    ensures Digits(a, b, c, d) == ((a * 256 + b) * 256 + c) * 256 + d
  {}

  /** Two counter blocks coincide exactly under one nonce and 2^32 blocks apart. */
  lemma {:induction false} CountersMeetExactly(nonce: Bytes, other: Bytes, i: nat, j: nat)
    requires |nonce| == |other| == NONCE_SIZE
    ensures Counter(FirstCounter(nonce), i) == Counter(FirstCounter(other), j)
       <==> nonce == other && i % 0x1_0000_0000 == j % 0x1_0000_0000
  {
    hide Counter, FirstCounter, FromBe32;
    var c, d := Counter(FirstCounter(nonce), i), Counter(FirstCounter(other), j);
    CounterReads(nonce, i);
    CounterReads(other, j);
    OneApart(i, j);
    if nonce == other && i % 0x1_0000_0000 == j % 0x1_0000_0000 {
      ReadsDetermine(c[12..], d[12..]);
      assert c == c[..12] + c[12..] && d == d[..12] + d[12..];
    }
  }

  /** Counter block n, written out. */
  lemma {:induction false} CounterClosed(nonce: Bytes, n: nat)
    requires |nonce| == NONCE_SIZE
    ensures Counter(FirstCounter(nonce), n) == nonce + ToBe32(n + 1)
  {
    hide Counter, FirstCounter, FromBe32, ToBe32;
    var c := Counter(FirstCounter(nonce), n);
    CounterReads(nonce, n);
    Be32LowBits(n + 1);
    ReadsDetermine(c[12..], ToBe32(n + 1));
    assert c == c[..12] + c[12..];
  }

  /** Byte i of the ciphertext is byte i of the plaintext and byte i mod 16 of the cipher of the nonce and i/16 + 2. */
  lemma CryptedClosed(enc: Block -> Block, nonce: Bytes, s: Bytes, i: nat)
    requires |nonce| == NONCE_SIZE && i < |s|
    ensures Crypted(enc, FirstCounter(nonce), s)[i] == XorByte(s[i], enc(nonce + ToBe32(i / 16 + 2))[i % 16])
  {
    hide Counter, FirstCounter, ToBe32, XorByte;
    CounterClosed(nonce, i / 16 + 1);
  }

  /** The tag is the one block congruent to the power sum of the hashed string and the cipher of the nonce and 1. */
  lemma TagIsPolynomial(enc: Block -> Block, nonce: Bytes, aad: Bytes, ct: Bytes, b: Block)
    requires |nonce| == NONCE_SIZE
    ensures b == Tag(enc, FirstCounter(nonce), aad, ct) <==>
            Congruent(MODULUS, Exponents(b), Plus(PowerSum(Exponents(enc(Zeros(16))), TagInput(aad, ct)),
                                                  Exponents(enc(nonce + ToBe32(1)))))
  {
    hide Congruent, Exponents, XorBlock, Ghash, PowerSum, TagInput, FirstCounter, ToBe32, Counter, Plus;
    CounterClosed(nonce, 0);
    NoCount(FirstCounter(nonce));
    var h, k := enc(Zeros(16)), enc(nonce + ToBe32(1));
    var s := TagInput(aad, ct);
    var g := Ghash(h, Zeros(16), s);
    var p, e := PowerSum(Exponents(h), s), Exponents(k);
    var t := XorBlock(g, k);
    FromZero(h, s);
    XorIsPlus(g, k);
    CongruentSame(MODULUS, e);
    CongruentPlus(MODULUS, Exponents(g), p, e, e);
    BlockDegree(b);
    BlockDegree(t);
    if Congruent(MODULUS, Exponents(b), Plus(p, e)) {
      CongruentSym(MODULUS, Exponents(t), Plus(p, e));
      CongruentTrans(MODULUS, Exponents(b), Plus(p, e), Exponents(t));
      ResidueUnique(MODULUS, 128, Exponents(b), Exponents(t));
      ExponentsDetermine(b, t);
    }
  }

  lemma {:induction false} NoCount(j0: Block)
    ensures Counter(j0, 0) == j0
  {}

  lemma OneApart(i: nat, j: nat)
    ensures (i + 1) % 0x1_0000_0000 == (j + 1) % 0x1_0000_0000 <==> i % 0x1_0000_0000 == j % 0x1_0000_0000
  {}
}
