/** X25519 (section 5 of RFC 7748) as computed by x25519 in tight/src/crypto.cpp.

    The reference is the Montgomery ladder on numbers modulo p that exchanges the two points around a round
    exactly when the scalar bit is set. The source instead carries a pending exchange from round to round,
    does it with masks, and works on limbs; `X25519` is proved to write the encoding of the reference result
    x_2 * z_2^(p-2) for every scalar and every u-coordinate. */
module X25519 {
  import opened Octets
  import opened Bits
  import opened Field25519
  import opened FieldInversion
  import opened FieldBytes

  // ---------- The reference ladder ----------

  datatype Ladder = Ladder(x2: nat, z2: nat, x3: nat, z3: nat)

  const A24: nat := 121665

  /** One combined doubling and differential addition. */
  function LadderStep(x1: nat, s: Ladder): Ladder {
    var a := AddP(s.x2, s.z2);
    var aa := MulP(a, a);
    var b := SubP(s.x2, s.z2);
    var bb := MulP(b, b);
    var e := SubP(aa, bb);
    var c := AddP(s.x3, s.z3);
    var d := SubP(s.x3, s.z3);
    var da := MulP(d, a);
    var cb := MulP(c, b);
    var plus := AddP(da, cb);
    var minus := SubP(da, cb);
    Ladder(MulP(aa, bb), MulP(e, AddP(aa, MulP(A24, e))), MulP(plus, plus), MulP(x1, MulP(minus, minus)))
  }

  function Exchange(s: Ladder, bit: nat): Ladder {
    if bit == 1 then Ladder(s.x3, s.z3, s.x2, s.z2) else s
  }

  function Bit(k: nat, t: nat): (b: nat)
    ensures b <= 1
  {
    Shr(k, t) % 2
  }

  /** The ladder after the scalar bits 254 down to t. */
  function LadderFrom(k: nat, x1: nat, t: nat): Ladder
    requires t <= 255
    decreases 255 - t
  {
    if t == 255 then Ladder(1, 0, x1, 1)
    else Exchange(LadderStep(x1, Exchange(LadderFrom(k, x1, t + 1), Bit(k, t))), Bit(k, t))
  }

  /** The u-coordinate of k times the point with u-coordinate u, as the RFC defines the function. */
  function ScalarMult(k: nat, u: nat): nat {
    var s := LadderFrom(k, u % P, 0);
    MulP(s.x2, PowP(s.z2, P - 2))
  }

  // ---------- Scalars ----------

  function Clamp(s: Bytes): (e: Bytes)
    requires |s| == 32
    ensures |e| == 32
  {
    var t := s[0 := ClearLow(s[0])];
    t[31 := SetTop(t[31])]
  }

  function ClearLow(b: Byte): Byte { b & 248 }
  function SetTop(b: Byte): Byte { (b & 127) | 64 }

  lemma ClampFirst(b: Byte)
    ensures Index(ClearLow(b)) == Index(b) - Index(b) % 8
  {}

  lemma ClampLast(b: Byte)
    ensures Index(SetTop(b)) == Index(b) % 64 + 64
  {}

  lemma {:induction false} UpdateByte(s: Bytes, i: nat, b: Byte)
    requires i < |s|
    ensures LittleEndian(s[i := b]) == LittleEndian(s) + (Index(b) - Index(s[i])) * Pow2(8 * i)
    decreases i
  {
    hide Index, Pow2;
    if i == 0 {
      assert s[0 := b][1..] == s[1..];
      ModOne(0);
    } else {
      assert s[i := b][1..] == s[1..][i - 1 := b];
      UpdateByte(s[1..], i - 1, b);
      Pow2Step8(i - 1);
      MoveFactor(Index(b) - Index(s[i]), Pow2(8 * (i - 1)));
    }
  }

  lemma MoveFactor(d: int, q: int)
    ensures 256 * (d * q) == d * (256 * q)
  {}

  /** Clamping clears the three lowest bits and bit 255, and sets bit 254. */
  lemma {:induction false} ClampValue(s: Bytes)
    requires |s| == 32
    ensures LittleEndian(Clamp(s)) == Pow2(254) + LittleEndian(s) % Pow2(254) - LittleEndian(s) % 8
  {
    hide Index, Pow2, LittleEndian, Clamp;
    ClampUpdates(s);
    LowThree(s);
    TopBits(s);
  }

  lemma {:induction false} ClampUpdates(s: Bytes)
    requires |s| == 32
    ensures LittleEndian(Clamp(s))
         == 64 * Pow2(248) + (LittleEndian(s) - (Index(s[31]) - Index(s[31]) % 64) * Pow2(248)) - Index(s[0]) % 8
  {
    hide Index, Pow2, LittleEndian, ClearLow, SetTop;
    var t := s[0 := ClearLow(s[0])];
    ClearFirst(s);
    UpdateByte(t, 31, SetTop(t[31]));
    ClampLast(s[31]);
    ClampSum(LittleEndian(s), LittleEndian(t), LittleEndian(Clamp(s)), Index(s[0]), Index(s[31]), Pow2(248));
  }

  lemma ClearFirst(s: Bytes)
    requires |s| == 32
    ensures LittleEndian(s[0 := ClearLow(s[0])]) == LittleEndian(s) + (Index(s[0]) - Index(s[0]) % 8 - Index(s[0]))
  {
    hide Index, Pow2, LittleEndian, ClearLow;
    UpdateByte(s, 0, ClearLow(s[0]));
    ClampFirst(s[0]);
    ModOne(0);
  }

  lemma ClampSum(n: int, n1: int, k: int, first: int, last: int, q: int)
    requires n1 == n + (first - first % 8 - first)
    requires k == n1 + (last % 64 + 64 - last) * q
    ensures k == 64 * q + (n - (last - last % 64) * q) - first % 8
  {
    SpreadTop(last % 64, last, q);
  }

  lemma SpreadTop(r: int, i: int, q: int)
    ensures (r + 64 - i) * q == 64 * q - (i - r) * q
    ensures i * q - q * r == (i - r) * q
  {}

  lemma {:induction false} LowThree(s: Bytes)
    requires |s| == 32
    ensures LittleEndian(s) % 8 == Index(s[0]) % 8
  {
    hide Index;
    HeadAndTail(s);
    hide LittleEndian;
    ModOfByte(LittleEndian(s));
  }

  lemma ModOfByte(n: nat)
    ensures n % 8 == (n % 256) % 8
  {}

  /** The last byte is the number from bit 248 on; its low six bits stay below bit 254. */
  lemma {:induction false} TopBits(s: Bytes)
    requires |s| == 32
    ensures LittleEndian(s) % Pow2(254) == LittleEndian(s) - (Index(s[31]) - Index(s[31]) % 64) * Pow2(248)
    ensures Pow2(254) == 64 * Pow2(248)
  {
    hide Index, Pow2, Shr;
    LittleEndianDrop(s, 31);
    assert s[31..] == [s[31]];
    assert LittleEndian(s[31..]) == Index(s[31]) by { HeadAndTail(s[31..]); }
    SixBits();
    hide LittleEndian;
    Pow2Add(248, 6);
    LowBits(LittleEndian(s), 248, 6);
    Below(LittleEndian(s), 248);
    SpreadTop(Index(s[31]) % 64, Index(s[31]), Pow2(248));
  }

  lemma SixBits()
    ensures Pow2(6) == 64
  {
    assert Pow2(3) == 8;
  }

  lemma {:induction false} Below(x: nat, n: nat)
    ensures x == x % Pow2(n) + Shr(x, n) * Pow2(n)
  {
    hide Pow2;
  }

  /** The bit the source reads from byte t/8 is bit t of the number. */
  lemma {:induction false} ScalarBit(e: Bytes, t: nat)
    requires t < 8 * |e|
    ensures Shr(Index(e[t / 8]), t % 8) % 2 == Bit(LittleEndian(e), t)
  {
    hide Index, Pow2, Shr;
    var o, d := t / 8, t % 8;
    LittleEndianDrop(e, o);
    assert e[o..][0] == e[o] && e[o..][1..] == e[o + 1..];
    var rest := LittleEndian(e[o + 1..]);
    assert LittleEndian(e[o..]) == Index(e[o]) + 256 * rest;
    ShrShr(LittleEndian(e), 8 * o, d);
    hide LittleEndian;
    ParityOfShift(Index(e[o]), rest, d);
  }

  lemma ParityOfShift(x: nat, rest: nat, d: nat)
    requires d < 8
    ensures Shr(x + 256 * rest, d) % 2 == Shr(x, d) % 2
  {
    EightBitsUp(0);
    ModOne(0);
    hide Pow2;
    Pow2Add(d, 8 - d);
    DoubleIs(7 - d);
    var h := Pow2(7 - d) * rest;
    assert 256 * rest == Pow2(d) * (2 * h);
    DivAddMultiple(x, Pow2(d), 2 * h);
  }

  lemma DoubleIs(n: nat)
    ensures Pow2(n + 1) == 2 * Pow2(n)
  {}

  // ---------- The limb ladder ----------

  /** Exchanges two elements under a mask, limb by limb. */
  method FeCswap(f: Fe, g: Fe, swap: nat) returns (f': Fe, g': Fe)
    requires Tight(f) && Tight(g) && swap <= 1
    ensures f' == (if swap == 1 then g else f) && g' == (if swap == 1 then f else g)
  {
    hide And, Xor;
    var s: int := swap;
    var mask := U64(0 - s);
    var a: seq<nat> := [];
    var b: seq<nat> := [];
    for i := 0 to 5
      invariant |a| == i && |b| == i
      invariant forall j :: 0 <= j < i ==> a[j] == (if swap == 1 then g[j] else f[j])
      invariant forall j :: 0 <= j < i ==> b[j] == (if swap == 1 then f[j] else g[j])
    {
      MaskedSwap(f[i], g[i]);
      var t := And(mask, Xor(f[i], g[i]));
      a := a + [Xor(f[i], t)];
      b := b + [Xor(g[i], t)];
    }
    f', g' := a, b;
  }

  lemma MaskedSwap(f: nat, g: nat)
    requires f < WORD64 && g < WORD64
    ensures var t := And(WORD64 - 1, Xor(f, g)); Xor(f, t) == g && Xor(g, t) == f
    ensures var t := And(0, Xor(f, g)); Xor(f, t) == f && Xor(g, t) == g
  {
    hide Pow2, And, Xor;
    LimbPowers();
    XorBound(f, g, 64);
    AndOnes(64, Xor(f, g));
    AndZero(Xor(f, g));
    XorSwap(f, g);
    XorComm(f, g);
    XorSwap(g, f);
    XorZero(f);
    XorZero(g);
  }

  ghost function StateOf(x2: Fe, z2: Fe, x3: Fe, z3: Fe): Ladder { Ladder(Res(x2), Res(z2), Res(x3), Res(z3)) }

  method LadderRound(x1: Fe, x2: Fe, z2: Fe, x3: Fe, z3: Fe) returns (y2: Fe, w2: Fe, y3: Fe, w3: Fe)
    requires Tight(x1) && Tight(x2) && Tight(z2) && Tight(x3) && Tight(z3)
    ensures Tight(y2) && Tight(w2) && Tight(y3) && Tight(w3)
    ensures StateOf(y2, w2, y3, w3) == LadderStep(Res(x1), StateOf(x2, z2, x3, z3))
  {
    hide Tight, Loose, MulP, AddP, SubP, Res, FeAdd, FeSub, Val;
    var a := FeAdd(x2, z2);
    FeAddResidue(x2, z2);
    var aa := FeSq(a);
    var b := FeSub(x2, z2);
    FeSubResidue(x2, z2);
    var bb := FeSq(b);
    var e := FeSub(aa, bb);
    FeSubResidue(aa, bb);
    var c := FeAdd(x3, z3);
    FeAddResidue(x3, z3);
    var d := FeSub(x3, z3);
    FeSubResidue(x3, z3);
    var da := FeMul(d, a);
    var cb := FeMul(c, b);
    var plus := FeAdd(da, cb);
    FeAddResidue(da, cb);
    var minus := FeSub(da, cb);
    FeSubResidue(da, cb);
    y3 := FeSq(plus);
    var m2 := FeSq(minus);
    TightIsLoose(x1);
    TightIsLoose(m2);
    w3 := FeMul(x1, m2);
    TightIsLoose(aa);
    TightIsLoose(bb);
    y2 := FeMul(aa, bb);
    var ae := FeMulScalar(e, A24);
    var sum := FeAdd(aa, ae);
    FeAddResidue(aa, ae);
    w2 := FeMul(e, sum);
  }

  lemma SmallElements()
    ensures Tight([1, 0, 0, 0, 0]) && Res([1, 0, 0, 0, 0]) == 1
    ensures Tight([0, 0, 0, 0, 0]) && Res([0, 0, 0, 0, 0]) == 0
  {}

  /** The loop of the source: the exchange of round t is merged with the one that undoes round t+1. */
  method LimbLadder(e: Bytes, x1: Fe) returns (x2: Fe, z2: Fe)
    requires |e| == 32 && Tight(x1)
    ensures Tight(x2) && Tight(z2)
    ensures var s := LadderFrom(LittleEndian(e), Res(x1), 0); Res(x2) == s.x2 && Res(z2) == s.z2
  {
    hide Tight, Res, Bit, LadderStep, LittleEndian, Index;
    SmallElements();
    ghost var k := LittleEndian(e);
    var x3, z3 := x1, [1, 0, 0, 0, 0];
    x2, z2 := [1, 0, 0, 0, 0], [0, 0, 0, 0, 0];
    var swap := 0;
    for t := 255 downto 0
      invariant Tight(x2) && Tight(z2) && Tight(x3) && Tight(z3)
      invariant 0 <= swap <= 1
      invariant StateOf(x2, z2, x3, z3) == Exchange(LadderFrom(k, Res(x1), t), swap)
    {
      var kt := Shr(Index(e[t / 8]), t % 8) % 2;
      ScalarBit(e, t);
      swap := (swap + kt) % 2;
      x2, x3 := FeCswap(x2, x3, swap);
      z2, z3 := FeCswap(z2, z3, swap);
      swap := kt;
      assert StateOf(x2, z2, x3, z3) == Exchange(LadderFrom(k, Res(x1), t + 1), kt);
      x2, z2, x3, z3 := LadderRound(x1, x2, z2, x3, z3);
    }
    x2, x3 := FeCswap(x2, x3, swap);
    z2, z3 := FeCswap(z2, z3, swap);
  }

  predicate AllZero(s: Bytes) { forall i :: 0 <= i < |s| ==> s[i] == 0 }

  lemma {:induction false} EncodeZero(v: nat, n: nat)
    ensures AllZero(EncodeLe(v, n)) <==> v % Pow2(8 * n) == 0
    decreases n
  {
    hide Pow2, ByteOf, AllZero;
    if n == 0 {
      ModOne(v);
      AllZeroEmpty(EncodeLe(v, n));
    } else {
      var t := EncodeLe(v / 256, n - 1);
      EncodeZero(v / 256, n - 1);
      LowByteMod(v, n - 1);
      ByteIsZero(v);
      ZeroSum(v % 256, (v / 256) % Pow2(8 * (n - 1)));
      AllZeroStep(ByteOf(v), t);
    }
  }

  lemma ZeroSum(a: nat, b: nat)
    ensures a + 256 * b == 0 <==> a == 0 && b == 0
  {}

  lemma AllZeroEmpty(s: Bytes)
    requires |s| == 0
    ensures AllZero(s)
  {}

  lemma AllZeroStep(b: Byte, t: Bytes)
    ensures AllZero([b] + t) <==> b == 0 && AllZero(t)
  {
    var s := [b] + t;
    assert s[0] == b;
    assert forall i :: 0 <= i < |t| ==> t[i] == s[i + 1];
  }

  lemma ByteIsZero(v: nat)
    ensures ByteOf(v) == 0 <==> v % 256 == 0
  {
    IndexOfByteOf(v);
    assert Index(0) == 0;
    hide Index, ByteOf;
    if v % 256 == 0 {
      IndexInjective(ByteOf(v), 0);
    }
  }

  method AnyNonZero(s: Bytes) returns (r: bool)
    ensures r <==> !AllZero(s)
  {
    var acc: Byte := 0;
    for i := 0 to |s|
      invariant acc != 0 <==> exists j :: 0 <= j < i && s[j] != 0
    {
      OrIsZero(acc, s[i]);
      acc := OrByte(acc, s[i]);
    }
    r := acc != 0;
  }

  /** For every private key and every peer key: the output is the 32-byte encoding of the reference result,
      and the call reports failure exactly when that result is zero. */
  method X25519(privateKey: Bytes, peerPublicKey: Bytes) returns (ok: bool, out: Bytes)
    requires |privateKey| == 32 && |peerPublicKey| == 32
    ensures var r := ScalarMult(LittleEndian(Clamp(privateKey)), LittleEndian(peerPublicKey) % B5);
            out == EncodeLe(r, 32) && (ok <==> r != 0)
  {
    hide Tight, Loose, Res, LadderFrom, LittleEndian, EncodeLe, PowP, MulP, Pow2, Val;
    var e := Clamp(privateKey);
    var x1 := FeFromBytes(peerPublicKey);
    ghost var u := LittleEndian(peerPublicKey) % B5;
    assert Res(x1) == u % P by { ResidueOf(x1, u); }
    var x2, z2 := LimbLadder(e, x1);
    var inv := FeInv(z2);
    TightIsLoose(x2);
    TightIsLoose(inv);
    var result := FeMul(x2, inv);
    TightIsBelow63(result);
    out := FeToBytes(result);
    ok := AnyNonZero(out);
    ghost var r := Res(result);
    EncodeZero(r, 32);
    NonZeroResidue(result);
  }

  lemma ResidueOf(f: Fe, u: nat)
    requires Val(f) == u
    ensures Res(f) == u % P
  {}

  lemma TightIsBelow63(f: Fe)
    requires Tight(f)
    ensures Below63(f)
  {}

  lemma NonZeroResidue(f: Fe)
    ensures Res(f) % Pow2(8 * 32) == 0 <==> Res(f) == 0
  {
    LimbPowers();
    hide Pow2, Res;
    Pow2Add(255, 1);
    TenPow2();
    ResBelow(f);
  }

  lemma ResBelow(f: Fe)
    ensures Res(f) < P
  {}
}
