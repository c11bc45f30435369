/** Reading and writing field elements as 32 bytes: fe_frombytes and fe_tobytes of tight/src/crypto.cpp. */
module FieldBytes {
  import opened Octets
  import opened Bits
  import opened Field25519

  // ---------- Little-endian numbers ----------

  function LittleEndian(s: Bytes): nat
    decreases |s|
  {
    if |s| == 0 then 0 else Index(s[0]) + 256 * LittleEndian(s[1..])
  }

  function EncodeLe(v: nat, n: nat): (s: Bytes)
    ensures |s| == n
    decreases n
  {
    if n == 0 then [] else [ByteOf(v)] + EncodeLe(v / 256, n - 1)
  }

  lemma {:induction false} LittleEndianBound(s: Bytes)
    ensures LittleEndian(s) < Pow2(8 * |s|)
    decreases |s|
  {
    if |s| > 0 {
      LittleEndianBound(s[1..]);
      Pow2Step8(|s| - 1);
    }
  }

  lemma {:induction false} Pow2Step8(n: nat)
    ensures Pow2(8 * (n + 1)) == 256 * Pow2(8 * n)
  {
    assert Pow2(8) == 256;
    Pow2Add(8, 8 * n);
  }

  /** The bytes from position o on are the number shifted right by 8*o. */
  lemma {:induction false} LittleEndianDrop(s: Bytes, o: nat)
    requires o <= |s|
    ensures LittleEndian(s[o..]) == Shr(LittleEndian(s), 8 * o)
    decreases o
  {
    hide Shr, Index;
    if o == 0 {
      assert s[0..] == s;
      ShrZero(LittleEndian(s));
    } else {
      assert s[1..][o - 1..] == s[o..];
      LittleEndianDrop(s[1..], o - 1);
      ShrByte(LittleEndian(s), o - 1);
    }
  }

  lemma ShrZero(x: nat)
    ensures Shr(x, 0) == x
  {}

  lemma ShrByte(x: nat, n: nat)
    ensures Shr(x, 8 * (n + 1)) == Shr(x / 256, 8 * n)
  {
    ShrEight(x);
    hide Shr;
    ShrShr(x, 8, 8 * n);
  }

  lemma ShrEight(x: nat)
    ensures Shr(x, 8) == x / 256
  {
    assert Pow2(8) == 256;
  }

  /** The first n bytes are the number modulo 2^(8n). */
  lemma {:induction false} LittleEndianTake(s: Bytes, n: nat)
    requires n <= |s|
    ensures LittleEndian(s[..n]) == LittleEndian(s) % Pow2(8 * n)
    decreases n
  {
    hide Shr, Index, Pow2;
    if n == 0 {
      assert s[..0] == [];
      ModOne(LittleEndian(s));
    } else {
      assert s[..n][1..] == s[1..][..n - 1];
      LittleEndianTake(s[1..], n - 1);
      LowByteMod(LittleEndian(s), n - 1);
      HeadAndTail(s);
    }
  }

  lemma {:induction false} HeadAndTail(s: Bytes)
    requires |s| > 0
    ensures LittleEndian(s) % 256 == Index(s[0]) && LittleEndian(s) / 256 == LittleEndian(s[1..])
  {
    hide Index;
  }

  lemma ModOne(x: nat)
    ensures Pow2(0) == 1 && x % Pow2(0) == 0
  {}

  lemma {:induction false} LowByteMod(x: nat, n: nat)
    ensures x % Pow2(8 * (n + 1)) == x % 256 + 256 * ((x / 256) % Pow2(8 * n))
  {
    assert Pow2(8) == 256;
    ShrEight(x);
    hide Shr, Pow2;
    LowBits(x, 8, 8 * n);
  }

  /** A byte string is the encoding of the number it stands for. */
  lemma {:induction false} EncodeOfDecode(s: Bytes)
    ensures EncodeLe(LittleEndian(s), |s|) == s
    decreases |s|
  {
    hide Index, ByteOf;
    if |s| > 0 {
      EncodeOfDecode(s[1..]);
      ByteOfIndex(s[0]);
      var v := LittleEndian(s);
      assert v % 256 == Index(s[0]) && v / 256 == LittleEndian(s[1..]);
      ByteOfMod(v);
      ByteOfMod(Index(s[0]));
      assert s == [s[0]] + s[1..];
    }
  }

  lemma ByteOfMod(v: nat)
    ensures ByteOf(v % 256) == ByteOf(v)
  {}

  lemma {:induction false} EncodeLeAt(v: nat, n: nat, k: nat)
    requires k < n
    ensures EncodeLe(v, n)[k] == ByteOf(Shr(v, 8 * k))
    decreases n
  {
    hide Shr, ByteOf;
    if k == 0 {
      ShrZero(v);
    } else {
      EncodeLeAt(v / 256, n - 1, k - 1);
      ShrByte(v, k - 1);
    }
  }

  // ---------- Reading ----------

  /** Eight bytes, least significant first, merged with shifts and ors. */
  method LoadLe64(s: Bytes, o: nat) returns (v: nat)
    requires o + 8 <= |s|
    ensures v == Shr(LittleEndian(s), 8 * o) % Pow2(64)
  {
    hide Shr, Or, Index, Pow2, LittleEndian;
    v := 0;
    ghost var t := s[o..o + 8];
    EmptyLittleEndian(t[..0]);
    for i := 0 to 8
      invariant v == LittleEndian(t[..i])
    {
      LittleEndianBound(t[..i]);
      OrDisjoint(v, 8 * i, Index(s[o + i]));
      AppendByte(t, i);
      v := Or(v, Index(s[o + i]) * Pow2(8 * i));
    }
    assert t[..8] == t;
    assert t == s[o..][..8];
    LittleEndianDrop(s, o);
    LittleEndianTake(s[o..], 8);
  }

  lemma {:induction false} EmptyLittleEndian(t: Bytes)
    requires |t| == 0
    ensures LittleEndian(t) == 0
  {}

  lemma {:induction false} AppendByte(t: Bytes, i: nat)
    requires i < |t|
    ensures LittleEndian(t[..i + 1]) == LittleEndian(t[..i]) + Index(t[i]) * Pow2(8 * i)
    decreases i
  {
    hide Index, Shr, Pow2;
    if i == 0 {
      assert t[..1] == [t[0]] && t[..0] == [];
      ModOne(0);
    } else {
      assert t[..i + 1][1..] == t[1..][..i] && t[..i][1..] == t[1..][..i - 1];
      AppendByte(t[1..], i - 1);
      Pow2Step8(i - 1);
      assert Index(t[i]) * (256 * Pow2(8 * (i - 1))) == 256 * (Index(t[i]) * Pow2(8 * (i - 1)));
    }
  }

  lemma LimbPowers()
    ensures Pow2(51) == B && Pow2(102) == B2 && Pow2(153) == B3 && Pow2(204) == B4 && Pow2(255) == B5 == P + 19
    ensures Pow2(64) == WORD64
  {
    hide Pow2;
    TenPow2();
    Pow2Add(10, 10);
    Pow2Add(20, 20);
    Pow2Add(40, 10);
    Pow2Add(50, 1);
    Pow2Add(51, 51);
    Pow2Add(102, 51);
    Pow2Add(153, 51);
    Pow2Add(204, 51);
    Pow2Add(50, 10);
    Pow2Add(60, 4);
  }

  lemma TenPow2()
    ensures Pow2(1) == 2 && Pow2(4) == 16 && Pow2(10) == 1024
  {
    assert Pow2(5) == 32;
  }

  /** Limb i is bits 51*i .. 51*i+50 of the number; bit 255 is ignored. */
  method FeFromBytes(s: Bytes) returns (f: Fe)
    requires |s| == 32
    ensures Tight(f) && Val(f) == LittleEndian(s) % B5
  {
    hide Shr, Pow2, Tight, Val, LittleEndian;
    var v0 := LoadLe64(s, 0);
    var v1 := LoadLe64(s, 6);
    var v2 := LoadLe64(s, 12);
    var v3 := LoadLe64(s, 19);
    var v4 := LoadLe64(s, 24);
    f := [Shr(v0, 0) % Pow2(51), Shr(v1, 3) % Pow2(51), Shr(v2, 6) % Pow2(51), Shr(v3, 1) % Pow2(51), Shr(v4, 12) % Pow2(51)];
    ghost var n := LittleEndian(s);
    LimbOfLoad(n, 0, 0);
    LimbOfLoad(n, 6, 3);
    LimbOfLoad(n, 12, 6);
    LimbOfLoad(n, 19, 1);
    LimbOfLoad(n, 24, 12);
    LimbsOfNumber(n, f);
  }

  lemma LimbOfLoad(n: nat, o: nat, d: nat)
    requires d + 51 <= 64
    ensures Shr(Shr(n, 8 * o) % Pow2(64), d) % Pow2(51) == Shr(n, 8 * o + d) % Pow2(51)
  {
    hide Shr, Pow2;
    ShrOfLow(Shr(n, 8 * o), 64, d, 51);
    ShrShr(n, 8 * o, d);
  }

  lemma LimbsOfNumber(n: nat, f: Fe)
    requires f[0] == Shr(n, 0) % Pow2(51) && f[1] == Shr(n, 51) % Pow2(51) && f[2] == Shr(n, 102) % Pow2(51)
    requires f[3] == Shr(n, 153) % Pow2(51) && f[4] == Shr(n, 204) % Pow2(51)
    ensures Tight(f) && Val(f) == n % B5
  {
    hide Shr, Pow2;
    ShrZero(n);
    LimbPowers();
    LowBits(n, 51, 51);
    LowBits(n, 102, 51);
    LowBits(n, 153, 51);
    LowBits(n, 204, 51);
  }

  // ---------- Writing ----------

  predicate Below63(h: Fe) {
    forall i :: 0 <= i < 5 ==> h[i] < 0x8000_0000_0000_0000
  }

  /** All limbs have 51 bits. */
  predicate Reduced(h: Fe) {
    h[0] < B && h[1] < B && h[2] < B && h[3] < B && h[4] < B
  }

  predicate NearlyReduced(h: Fe) {
    h[0] < B + 0x2_0000 && h[1] < B && h[2] < B && h[3] < B && h[4] < B
  }

  /** One round of carries with the top carry folded to nineteen times. */
  method CarryPass(h: Fe) returns (r: Fe)
    requires Below63(h)
    ensures NearlyReduced(r) && Val(r) % P == Val(h) % P
    ensures NearlyReduced(h) ==> Reduced(r)
  {
    hide Val;
    var h0, h1, h2, h3, h4 := h[0], h[1], h[2], h[3], h[4];
    h0, h1 := Carry64(h0, h1);
    ghost var s1 := h1;
    h1, h2 := Carry64(h1, h2);
    ghost var s2 := h2;
    h2, h3 := Carry64(h2, h3);
    ghost var s3 := h3;
    h3, h4 := Carry64(h3, h4);
    ghost var s4 := h4;
    var c := h4 / B;
    h4 := h4 % B;
    h0 := U64(h0 + 19 * c);
    r := [h0, h1, h2, h3, h4];
    PassValue(h, r, s1, s2, s3, s4);
    PassBounds(h, s1, s2, s3, s4);
  }

  method Carry64(lo: nat, hi: nat) returns (lo': nat, hi': nat)
    requires lo < 0x8000_0000_0000_8000 && hi < 0x8000_0000_0000_0000
    ensures lo' == lo % B && hi' == hi + lo / B && hi' <= hi + 0x1000
  {
    lo' := lo % B;
    hi' := U64(hi + lo / B);
  }

  /** The carries of a nearly reduced element: a top carry means that one came up from limb 0. */
  lemma PassBounds(h: Fe, s1: nat, s2: nat, s3: nat, s4: nat)
    requires s1 == h[1] + h[0] / B && s2 == h[2] + s1 / B && s3 == h[3] + s2 / B && s4 == h[4] + s3 / B
    requires s4 <= 0x8000_0000_0000_1000
    ensures s4 / B <= 0x1000
    ensures NearlyReduced(h) ==> h[0] % B + 19 * (s4 / B) < B
  {}

  lemma PassValue(h: Fe, r: Fe, s1: nat, s2: nat, s3: nat, s4: nat)
    requires s1 == h[1] + h[0] / B && s2 == h[2] + s1 / B && s3 == h[3] + s2 / B && s4 == h[4] + s3 / B
    requires r[0] == h[0] % B + 19 * (s4 / B) && r[1] == s1 % B && r[2] == s2 % B && r[3] == s3 % B && r[4] == s4 % B
    ensures Val(r) % P == Val(h) % P
  {
    ModOfSum(Val(h), Val(r), s4 / B);
  }

  function Weight(i: nat): int
    requires i <= 5
  {
    if i == 0 then 1 else if i == 1 then B else if i == 2 then B2 else if i == 3 then B3 else if i == 4 then B4 else B5
  }

  function PLimb(i: nat): nat
    requires i < 5
  {
    if i == 0 then B - 19 else B - 1
  }

  /** The value of the first n limbs of a list. */
  function Part(f: seq<nat>, n: nat): int
    requires n <= 5 && n <= |f|
    decreases n
  {
    if n == 0 then 0 else Part(f, n - 1) + Weight(n - 1) * f[n - 1]
  }

  function PartP(n: nat): int
    requires n <= 5
    decreases n
  {
    if n == 0 then 0 else PartP(n - 1) + Weight(n - 1) * PLimb(n - 1)
  }

  lemma {:induction false} FullParts(f: Fe)
    ensures Part(f, 5) == Val(f) && PartP(5) == P
  {
    assert Part(f, 1) == f[0] && Part(f, 2) == f[0] + B * f[1] && Part(f, 3) == Part(f, 2) + B2 * f[2];
    assert PartP(1) == B - 19 && PartP(2) == PartP(1) + B * (B - 1) && PartP(3) == PartP(2) + B2 * (B - 1);
    assert PartP(4) == PartP(3) + B3 * (B - 1) && PartP(5) == PartP(4) + B4 * (B - 1);
  }

  lemma {:induction false} PartAppend(f: seq<nat>, x: nat, n: nat)
    requires n <= 5 && n <= |f|
    ensures Part(f + [x], n) == Part(f, n)
    decreases n
  {
    if n > 0 {
      PartAppend(f, x, n - 1);
    }
  }

  /** h - p limb by limb; the borrow says whether h was below p. */
  method SubtractP(h: Fe) returns (m: Fe, borrow: nat)
    requires Reduced(h)
    ensures Reduced(m) && borrow <= 1 && Val(m) == Val(h) - P + borrow * B5
  {
    hide Part, PartP, Val;
    var d: seq<nat> := [];
    borrow := 0;
    PartEmpty(d, h);
    for i := 0 to 5
      invariant |d| == i && borrow <= 1
      invariant forall j :: 0 <= j < i ==> d[j] < B
      invariant Part(d, i) == Part(h, i) - PartP(i) + borrow * Weight(i)
    {
      var t := h[i] - PLimb(i) - borrow;
      ghost var b0 := borrow;
      borrow := if t < 0 then 1 else 0;
      BorrowStep(d, h, i, b0, borrow, t % B);
      d := d + [t % B];
    }
    FullParts(h);
    FullParts(d);
    m := d;
  }

  lemma {:induction false} PartEmpty(d: seq<nat>, h: Fe)
    requires |d| == 0
    ensures Part(d, 0) == 0 && Part(h, 0) == 0 && PartP(0) == 0
  {}

  lemma BorrowStep(d: seq<nat>, h: Fe, i: nat, b0: nat, b1: nat, digit: nat)
    requires i < 5 && |d| == i && b0 <= 1 && h[i] < B
    requires b1 == if h[i] - PLimb(i) - b0 < 0 then 1 else 0
    requires digit == (h[i] - PLimb(i) - b0) % B
    requires Part(d, i) == Part(h, i) - PartP(i) + b0 * Weight(i)
    ensures Part(d + [digit], i + 1) == Part(h, i + 1) - PartP(i + 1) + b1 * Weight(i + 1)
  {
    PartAppend(d, digit, i);
    NextWeight(i);
    DigitValue(h[i], PLimb(i), b0, b1, digit);
    hide Weight, PLimb;
    SpreadDigit(Weight(i), h[i], PLimb(i), b0, b1, digit);
  }

  lemma NextWeight(i: nat)
    requires i < 5
    ensures Weight(i + 1) == B * Weight(i)
  {}

  lemma DigitValue(h: nat, p: nat, b0: nat, b1: nat, digit: nat)
    requires h < B && p < B && b0 <= 1
    requires b1 == (if h - p - b0 < 0 then 1 else 0) && digit == (h - p - b0) % B
    ensures digit == h - p - b0 + b1 * B
  {}

  lemma SpreadDigit(w: int, h: int, p: int, b0: int, b1: int, digit: int)
    requires digit == h - p - b0 + b1 * B
    ensures w * digit == w * h - w * p - b0 * w + b1 * (B * w)
  {}

  /** The branch-free choice between h and m: all mask bits set keep h. */
  lemma {:induction false} SelectLimb(h: nat, m: nat)
    requires h < WORD64 && m < WORD64
    ensures Or(And(WORD64 - 1, h), And(0, m)) == h && Or(And(0, h), And(WORD64 - 1, m)) == m
  {
    hide Pow2, And, Or;
    LimbPowers();
    AndOnes(64, h);
    AndOnes(64, m);
    AndZero(h);
    AndZero(m);
    OrZero(h);
    OrZero(m);
  }

  method Select(h: Fe, m: Fe, borrow: nat) returns (out: Fe)
    requires Reduced(h) && Reduced(m) && borrow <= 1
    ensures out == if borrow == 1 then h else m
  {
    hide And, Or;
    var b: int := borrow;
    var keep := U64(-b);
    var r: seq<nat> := [];
    for i := 0 to 5
      invariant |r| == i
      invariant forall j :: 0 <= j < i ==> r[j] == if borrow == 1 then h[j] else m[j]
    {
      SelectLimb(h[i], m[i]);
      r := r + [Or(And(keep, h[i]), And(WORD64 - 1 - keep, m[i]))];
    }
    out := r;
  }

  /** The number made of limbs i and up. */
  function Tail(out: Fe, i: nat): nat
    requires i <= 5
    decreases 5 - i
  {
    if i == 5 then 0 else out[i] + B * Tail(out, i + 1)
  }

  lemma {:induction false} TailZero(out: Fe)
    ensures Tail(out, 0) == Val(out)
  {
    assert Tail(out, 4) == out[4] + B * Tail(out, 5);
    assert Tail(out, 3) == out[3] + B * out[4];
    assert Tail(out, 2) == out[2] + B * out[3] + B2 * out[4];
    assert Tail(out, 1) == out[1] + B * out[2] + B2 * out[3] + B3 * out[4];
  }

  lemma {:induction false} TailIsShift(out: Fe, i: nat)
    requires Reduced(out) && i <= 5
    ensures Shr(Val(out), 51 * i) == Tail(out, i)
    decreases i
  {
    if i == 0 {
      TailZero(out);
      ShrZero(Val(out));
    } else {
      assert out[i - 1] < B;
      hide Shr, Val, Reduced, Pow2;
      TailIsShift(out, i - 1);
      ShrShr(Val(out), 51 * (i - 1), 51);
      ShrLimb(out[i - 1], Tail(out, i));
    }
  }

  lemma ShrLimb(x: nat, t: nat)
    requires x < B
    ensures Shr(x + B * t, 51) == t
  {
    hide Pow2;
    LimbPowers();
  }

  lemma LimbTail(out: Fe, i: nat)
    requires Reduced(out) && i < 5
    ensures Shr(Val(out), 51 * i) == out[i] + B * Shr(Val(out), 51 * (i + 1))
  {
    hide Shr, Val, Reduced;
    TailIsShift(out, i);
    TailIsShift(out, i + 1);
  }

  lemma {:induction false} ShrAbove(x: nat, h: nat, d: nat)
    requires d <= 51
    ensures Shr(x + B * h, d) == Shr(x, d) + Pow2(51 - d) * h
  {
    hide Pow2;
    LimbPowers();
    Pow2Add(d, 51 - d);
    assert B * h == Pow2(d) * (Pow2(51 - d) * h);
    DivAddMultiple(x, Pow2(d), Pow2(51 - d) * h);
  }

  lemma TopTail(out: Fe)
    requires Reduced(out)
    ensures Shr(Val(out), 255) == 0
  {
    hide Pow2;
    LimbPowers();
  }

  lemma ByteOfShift(y: nat, h: nat)
    ensures ByteOf(y + 256 * h) == ByteOf(y)
  {
    assert (y + 256 * h) % 256 == y % 256;
  }

  lemma EightBitsUp(n: nat)
    ensures Pow2(n + 8) == 256 * Pow2(n)
  {
    assert Pow2(8) == 256;
    Pow2Add(n, 8);
  }

  lemma LimbByte(out: Fe, i: nat, d: nat, k: nat)
    requires Reduced(out) && i < 5 && 51 * i + d == 8 * k && (d + 8 <= 51 || i == 4) && d <= 51
    ensures ByteOf(Shr(Val(out), 8 * k)) == ByteOf(Shr(out[i], d))
  {
    hide Shr, Val, Reduced, ByteOf, Pow2;
    var v := Val(out);
    var h := Shr(v, 51 * (i + 1));
    LimbTail(out, i);
    ShrShr(v, 51 * i, d);
    ShrAbove(out[i], h, d);
    if i == 4 {
      TopTail(out);
    } else {
      EightBitsUp(43 - d);
      assert Pow2(51 - d) * h == 256 * (Pow2(43 - d) * h);
      ByteOfShift(Shr(out[i], d), Pow2(43 - d) * h);
    }
  }

  lemma {:induction false} ShrBound(x: nat, d: nat)
    requires x < B && d <= 51
    ensures Shr(x, d) < Pow2(51 - d)
  {
    hide Pow2;
    LimbPowers();
    Pow2Add(d, 51 - d);
    var q, p := Pow2(51 - d), Pow2(d);
    assert x == p * (x / p) + x % p;
    if x / p >= q {
      MulBound(p, q, p, x / p);
    }
  }

  /** A byte that holds the top of one limb and the bottom of the next. */
  lemma {:induction false} StraddlingByte(out: Fe, i: nat, d: nat, k: nat)
    requires Reduced(out) && i < 4 && 51 * i + d == 8 * k && 43 < d <= 51
    ensures ByteOf(Shr(Val(out), 8 * k)) == ByteOf(Or(Shr(out[i], d), out[i + 1] * Pow2(51 - d)))
  {
    assert out[i] < B;
    hide Shr, Val, Reduced, ByteOf, Pow2, Or;
    var v := Val(out);
    LimbTail(out, i);
    LimbTail(out, i + 1);
    ShrShr(v, 51 * i, d);
    TwoLimbByte(out[i], out[i + 1], Shr(v, 51 * (i + 2)), d);
  }

  lemma TwoLimbByte(x: nat, y: nat, t: nat, d: nat)
    requires x < B && d <= 51
    ensures ByteOf(Shr(x + B * (y + B * t), d)) == ByteOf(Or(Shr(x, d), y * Pow2(51 - d)))
  {
    hide Shr, ByteOf, Pow2, Or;
    ShrAbove(x, y + B * t, d);
    ShrBound(x, d);
    OrDisjoint(Shr(x, d), 51 - d, y);
    LowByteOfSum(Shr(x, d), Pow2(51 - d), y, t);
  }

  lemma LowByteOfSum(x: nat, p: nat, y: nat, t: nat)
    ensures ByteOf(x + p * (y + B * t)) == ByteOf(x + y * p)
  {
    hide ByteOf;
    assert p * (y + B * t) == y * p + 256 * (p * (0x800_0000_0000 * t));
    ByteOfShift(x + y * p, p * (0x800_0000_0000 * t));
  }

  /** Byte k of the packed form. */
  function PackedByte(out: Fe, k: nat): Byte
    requires k < 32
  {
    if k < 6 then ByteOf(Shr(out[0], 8 * k))
    else if k == 6 then ByteOf(Or(Shr(out[0], 48), out[1] * Pow2(3)))
    else if k < 12 then ByteOf(Shr(out[1], 8 * k - 51))
    else if k == 12 then ByteOf(Or(Shr(out[1], 45), out[2] * Pow2(6)))
    else if k < 19 then ByteOf(Shr(out[2], 8 * k - 102))
    else if k == 19 then ByteOf(Or(Shr(out[2], 50), out[3] * Pow2(1)))
    else if k < 25 then ByteOf(Shr(out[3], 8 * k - 153))
    else if k == 25 then ByteOf(Or(Shr(out[3], 47), out[4] * Pow2(4)))
    else ByteOf(Shr(out[4], 8 * k - 204))
  }

  lemma PackedByteIsByte(out: Fe, k: nat)
    requires Reduced(out) && k < 32
    ensures PackedByte(out, k) == EncodeLe(Val(out), 32)[k]
  {
    hide Shr, Val, Reduced, ByteOf, Pow2, Or, EncodeLe;
    EncodeLeAt(Val(out), 32, k);
    if k < 6 {
      LimbByte(out, 0, 8 * k, k);
    } else if k == 6 {
      StraddlingByte(out, 0, 48, 6);
    } else if k < 12 {
      LimbByte(out, 1, 8 * k - 51, k);
    } else if k == 12 {
      StraddlingByte(out, 1, 45, 12);
    } else if k < 19 {
      LimbByte(out, 2, 8 * k - 102, k);
    } else if k == 19 {
      StraddlingByte(out, 2, 50, 19);
    } else if k < 25 {
      LimbByte(out, 3, 8 * k - 153, k);
    } else if k == 25 {
      StraddlingByte(out, 3, 47, 25);
    } else {
      LimbByte(out, 4, 8 * k - 204, k);
    }
  }

  /** The 32 bytes of a reduced element. */
  method Pack(out: Fe) returns (s: Bytes)
    requires Reduced(out)
    ensures s == EncodeLe(Val(out), 32)
  {
    hide PackedByte, Val, Reduced, EncodeLe;
    s := [];
    for k := 0 to 32
      invariant |s| == k && forall j :: 0 <= j < k ==> s[j] == EncodeLe(Val(out), 32)[j]
    {
      PackedByteIsByte(out, k);
      s := s + [PackedByte(out, k)];
    }
  }

  /** Writes the unique encoding below p of what the element stands for. */
  method FeToBytes(input: Fe) returns (s: Bytes)
    requires Below63(input)
    ensures s == EncodeLe(Res(input), 32)
  {
    hide Val, EncodeLe;
    var h := input;
    for pass := 0 to 3
      invariant Below63(h) && Val(h) % P == Val(input) % P
      invariant pass >= 1 ==> NearlyReduced(h)
      invariant pass >= 2 ==> Reduced(h)
    {
      h := CarryPass(h);
    }
    var m, borrow := SubtractP(h);
    var out := Select(h, m, borrow);
    ReducedBound(h);
    ReducedBound(m);
    s := Pack(out);
  }

  lemma ReducedBound(h: Fe)
    requires Reduced(h)
    ensures Val(h) < B5
  {}
}
