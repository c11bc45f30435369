/** The packet checksum: tight/src/crc32.cpp. */
module Crc32 {
  import opened Octets

  type Word = bv32

  const POLY: Word := 0xEDB88320
  const ONES: Word := 0xFFFF_FFFF

  // ---------- Word operations ----------

  function Xor(x: Word, y: Word): Word { x ^ y }

  function Low(x: Word): Word { x & 1 }

  predicate Odd(x: Word) { x & 1 == 1 }

  function Half(x: Word): Word { x >> 1 }

  function Wide(b: Byte): Word { b as Word }

  function LowByte(x: Word): Byte { (x & 0xFF) as Byte }

  function Shr8(x: Word): Word { x >> 8 }

  function Shl8(x: Word): Word { x << 8 }

  lemma XorGroup(x: Word, y: Word, z: Word)
    ensures Xor(x, Xor(y, z)) == Xor(Xor(x, y), z)
    ensures Xor(x, y) == Xor(y, x) && Xor(x, x) == 0 && Xor(x, 0) == x
  {}

  lemma XorCancels(x: Word, y: Word, z: Word)
    requires Xor(x, z) == Xor(y, z)
    ensures x == y
  {}

  lemma XorZero(x: Word, y: Word)
    requires Xor(x, y) == 0
    ensures x == y
  {}

  lemma HalfXor(x: Word, y: Word)
    ensures Half(Xor(x, y)) == Xor(Half(x), Half(y))
  {}

  lemma OddXor(x: Word, y: Word)
    ensures Odd(Xor(x, y)) <==> Odd(x) != Odd(y)
  {}

  lemma PolyTwice(p: Word, a: Word, b: Word)
    ensures Xor(Xor(p, a), Xor(p, b)) == Xor(a, b)
  {
    hide Xor;
    XorGroup(Xor(p, a), p, b);
    XorGroup(a, p, p);
    XorGroup(p, a, p);
    XorGroup(a, 0, b);
  }

  lemma PolyOnce(p: Word, a: Word, b: Word)
    ensures Xor(Xor(p, a), b) == Xor(p, Xor(a, b))
    ensures Xor(a, Xor(p, b)) == Xor(p, Xor(a, b))
  {
    hide Xor;
    XorGroup(p, a, b);
    XorGroup(a, p, b);
  }

  // ---------- The shift register ----------

  /** One step of the reflected shift register. */
  function Shift(x: Word): Word { if Odd(x) then Xor(POLY, Half(x)) else Half(x) }

  function ShiftN(x: Word, n: nat): Word
    decreases n
  {
    if n == 0 then x else ShiftN(Shift(x), n - 1)
  }

  lemma ShiftXor(x: Word, y: Word)
    ensures Shift(Xor(x, y)) == Xor(Shift(x), Shift(y))
  {
    hide Xor, Odd, Half, POLY;
    HalfXor(x, y);
    OddXor(x, y);
    if Odd(x) && Odd(y) {
      PolyTwice(POLY, Half(x), Half(y));
    } else {
      PolyOnce(POLY, Half(x), Half(y));
    }
  }

  lemma {:induction false} ShiftNXor(x: Word, y: Word, n: nat)
    ensures ShiftN(Xor(x, y), n) == Xor(ShiftN(x, n), ShiftN(y, n))
    decreases n
  {
    hide Xor, Shift;
    if n > 0 {
      ShiftXor(x, y);
      ShiftNXor(Shift(x), Shift(y), n - 1);
    }
  }

  lemma {:induction false} ShiftAfter(x: Word, n: nat)
    ensures ShiftN(x, n + 1) == Shift(ShiftN(x, n))
    decreases n
  {
    hide Shift;
    if n > 0 {
      ShiftAfter(Shift(x), n - 1);
    }
  }

  lemma ShiftZero(x: Word)
    requires Shift(x) == 0
    ensures x == 0
  {}

  /** The register never forgets: distinct states stay distinct. */
  lemma {:induction false} ShiftNInjective(x: Word, y: Word, n: nat)
    requires ShiftN(x, n) == ShiftN(y, n)
    ensures x == y
    decreases n
  {
    hide Xor, Shift;
    if n > 0 {
      ShiftNInjective(Shift(x), Shift(y), n - 1);
      ShiftXor(x, y);
      XorGroup(Shift(x), 0, 0);
      ShiftZero(Xor(x, y));
      XorZero(x, y);
    }
  }

  // ---------- The bit-by-bit checksum ----------

  /** Feeds the n lowest bits of b, lowest first, into the register. */
  function Serial(c: Word, b: Word, n: nat): Word
    decreases n
  {
    if n == 0 then c else Serial(Shift(Xor(c, Low(b))), Half(b), n - 1)
  }

  /** The register after a string of bytes, bit by bit. */
  function Register(c: Word, s: Bytes): Word
    decreases |s|
  {
    if |s| == 0 then c else Register(Serial(c, Wide(s[0]), 8), s[1..])
  }

  /** CRC-32 of IEEE 802.3: preset to ones, complemented at the end. */
  function Checksum(s: Bytes): Word { Xor(Register(ONES, s), ONES) }

  function HalfN(x: Word, n: nat): Word
    decreases n
  {
    if n == 0 then x else HalfN(Half(x), n - 1)
  }

  lemma ShiftSplitsLow(b: Word)
    ensures Shift(b) == Xor(Shift(Low(b)), Half(b))
  {}

  /** Feeding bits one at a time is the same as adding them all first. */
  lemma {:induction false} SerialIsShift(c: Word, b: Word, n: nat)
    ensures ShiftN(Xor(c, b), n) == Xor(Serial(c, b, n), HalfN(b, n))
    decreases n
  {
    hide Xor, Low, Half, Shift;
    if n > 0 {
      var fed := Shift(Xor(c, Low(b)));
      ShiftXor(c, b);
      ShiftXor(c, Low(b));
      ShiftSplitsLow(b);
      XorGroup(Shift(c), Shift(Low(b)), Half(b));
      assert Shift(Xor(c, b)) == Xor(fed, Half(b));
      SerialIsShift(fed, Half(b), n - 1);
    }
  }

  lemma ByteHalvesAway(b: Byte)
    ensures HalfN(Wide(b), 8) == 0
  {
    var w := Wide(b);
    var w2 := Half(Half(w));
    var w4 := Half(Half(w2));
    var w6 := Half(Half(w4));
    assert Half(Half(w6)) == 0;
    assert HalfN(w6, 2) == 0;
    assert HalfN(w4, 4) == HalfN(w6, 2);
    assert HalfN(w2, 6) == HalfN(w4, 4);
    assert HalfN(w, 8) == HalfN(w2, 6);
  }

  lemma {:induction false} ByteIsShift(c: Word, b: Byte)
    ensures Serial(c, Wide(b), 8) == ShiftN(Xor(c, Wide(b)), 8)
  {
    hide Xor, Wide, Serial, ShiftN, HalfN;
    SerialIsShift(c, Wide(b), 8);
    ByteHalvesAway(b);
    XorGroup(Serial(c, Wide(b), 8), 0, 0);
  }

  /** The checksum can be computed in pieces. */
  lemma {:induction false} RegisterConcat(c: Word, a: Bytes, b: Bytes)
    ensures Register(c, a + b) == Register(Register(c, a), b)
    decreases |a|
  {
    hide Serial;
    if |a| == 0 {
      assert a + b == b;
    } else {
      assert (a + b)[1..] == a[1..] + b;
      RegisterConcat(Serial(c, Wide(a[0]), 8), a[1..], b);
    }
  }

  // ---------- The table ----------

  ghost predicate TableOk(t: seq<Word>) {
    |t| == 256 && forall b: Byte :: t[Index(b)] == ShiftN(Wide(b), 8)
  }

  method BuildTable() returns (t: array<Word>)
    ensures fresh(t) && TableOk(t[..])
  {
    hide Xor, Odd, Half, ShiftN, Wide, Index, ByteOf;
    t := new Word[256];
    for i := 0 to 256
      invariant forall b: Byte :: Index(b) < i ==> t[Index(b)] == ShiftN(Wide(b), 8)
    {
      var c := Wide(ByteOf(i));
      RunZero(c);
      for k := 0 to 8
        invariant c == ShiftN(Wide(ByteOf(i)), k)
        invariant forall b: Byte :: Index(b) < i ==> t[Index(b)] == ShiftN(Wide(b), 8)
      {
        c := if Odd(c) then Xor(POLY, Half(c)) else Half(c);
        ShiftAfter(Wide(ByteOf(i)), k);
      }
      t[i] := c;
      IndexOfByteOf(i);
      forall b: Byte | Index(b) < i + 1 ensures t[Index(b)] == ShiftN(Wide(b), 8) {
        if Index(b) == i {
          IndexInjective(b, ByteOf(i));
        }
      }
    }
  }

  lemma {:induction false} RunZero(x: Word)
    ensures ShiftN(x, 0) == x
  {}

  /** One byte by table lookup. */
  function TableStep(t: seq<Word>, c: Word, b: Byte): Word
    requires |t| == 256
  {
    Xor(t[Index(LowByte(Xor(c, Wide(b))))], Shr8(c))
  }

  lemma SplitLowByte(x: Word)
    ensures Xor(Wide(LowByte(x)), Shl8(Shr8(x))) == x
  {}

  lemma DataStaysLow(c: Word, b: Byte)
    ensures Shr8(Xor(c, Wide(b))) == Shr8(c)
  {}

  lemma ShiftUp(x: Word)
    requires x & 0x8000_0000 == 0
    ensures Shift(Double(x)) == x
  {}

  function Double(x: Word): Word { x << 1 }

  /** Clear top bits are shifted out one at a time. */
  lemma FourDown(x: Word, n: nat)
    requires x & 0xF000_0000 == 0
    ensures ShiftN(Double(Double(Double(Double(x)))), n + 4) == ShiftN(x, n)
  {
    var x1 := Double(x);
    var x2 := Double(x1);
    var x3 := Double(x2);
    assert x & 0x8000_0000 == 0 && x1 & 0x8000_0000 == 0 && x2 & 0x8000_0000 == 0 && x3 & 0x8000_0000 == 0;
    ShiftUp(x);
    ShiftUp(x1);
    ShiftUp(x2);
    ShiftUp(x3);
    hide Shift, Double;
    assert ShiftN(x1, n + 1) == ShiftN(x, n);
    assert ShiftN(x2, n + 2) == ShiftN(x1, n + 1);
    assert ShiftN(x3, n + 3) == ShiftN(x2, n + 2);
  }

  lemma FourUp(x: Word)
    requires x & 0xFF00_0000 == 0
    ensures Double(Double(Double(Double(x)))) & 0xF000_0000 == 0
  {}

  lemma EightUp(x: Word)
    ensures Double(Double(Double(Double(Double(Double(Double(Double(x)))))))) == Shl8(x)
  {}

  /** A word shifted up by a byte comes back unchanged. */
  lemma ShiftBack(x: Word)
    requires x & 0xFF00_0000 == 0
    ensures ShiftN(Shl8(x), 8) == x
  {
    assert x & 0xF000_0000 == 0;
    EightUp(x);
    FourUp(x);
    hide Double, ShiftN, Shl8;
    FourDown(x, 0);
    FourDown(Double(Double(Double(Double(x)))), 4);
    RunZero(x);
  }

  lemma TopClear(x: Word)
    ensures Shr8(x) & 0xFF00_0000 == 0
  {}

  /** The table form is the bit-by-bit form. */
  lemma {:induction false} TableStepIsSerial(t: seq<Word>, c: Word, b: Byte)
    requires TableOk(t)
    ensures TableStep(t, c, b) == Serial(c, Wide(b), 8)
  {
    hide Xor, Shr8, Shl8, LowByte, Wide, ShiftN, Serial;
    var x := Xor(c, Wide(b));
    ByteIsShift(c, b);
    SplitLowByte(x);
    ShiftNXor(Wide(LowByte(x)), Shl8(Shr8(x)), 8);
    TopClear(x);
    ShiftBack(Shr8(x));
    DataStaysLow(c, b);
  }

  method Update(t: array<Word>, crc: Word, data: Bytes) returns (c: Word)
    requires TableOk(t[..])
    ensures c == Register(crc, data)
  {
    hide Xor, Shr8, LowByte, Wide, Serial;
    c := crc;
    for i := 0 to |data|
      invariant Register(c, data[i..]) == Register(crc, data)
    {
      TableStepIsSerial(t[..], c, data[i]);
      assert data[i..][1..] == data[i + 1..];
      c := Xor(t[Index(LowByte(Xor(c, Wide(data[i]))))], Shr8(c));
    }
  }

  method Compute(t: array<Word>, data: Bytes) returns (c: Word)
    requires TableOk(t[..])
    ensures c == Checksum(data)
  {
    c := Update(t, ONES, data);
    c := Xor(c, ONES);
  }

  // ---------- What the checksum detects ----------

  /** Up to four bytes as a little-endian word. */
  function WordOf(s: Bytes): Word
    requires |s| <= 4
    decreases |s|
  {
    if |s| == 0 then 0 else Xor(Wide(s[0]), Shl8(WordOf(s[1..])))
  }

  lemma {:induction false} WordTop(s: Bytes)
    requires |s| <= 3
    ensures WordOf(s) & 0xFF00_0000 == 0
    ensures |s| <= 2 ==> WordOf(s) & 0xFFFF_0000 == 0
    ensures |s| <= 1 ==> WordOf(s) & 0xFFFF_FF00 == 0
    decreases |s|
  {
    if |s| > 0 {
      WordTop(s[1..]);
      WordTopStep(s[0], WordOf(s[1..]));
      assert |s| == 1 ==> WordOf(s[1..]) == 0;
    }
  }

  lemma WordTopStep(b: Byte, w: Word)
    ensures w & 0xFFFF_0000 == 0 ==> Xor(Wide(b), Shl8(w)) & 0xFF00_0000 == 0
    ensures w & 0xFFFF_FF00 == 0 ==> Xor(Wide(b), Shl8(w)) & 0xFFFF_0000 == 0
    ensures w == 0 ==> Xor(Wide(b), Shl8(w)) & 0xFFFF_FF00 == 0
  {}

  lemma WordParts(b: Byte, w: Word)
    requires w & 0xFF00_0000 == 0
    ensures LowByte(Xor(Wide(b), Shl8(w))) == b && Shr8(Xor(Wide(b), Shl8(w))) == w
  {}

  lemma {:induction false} WordInjective(x: Bytes, y: Bytes)
    requires |x| == |y| <= 4 && WordOf(x) == WordOf(y)
    ensures x == y
    decreases |x|
  {
    if |x| > 0 {
      WordTop(x[1..]);
      WordTop(y[1..]);
      hide Xor, Wide, Shl8, LowByte, Shr8;
      WordParts(x[0], WordOf(x[1..]));
      WordParts(y[0], WordOf(y[1..]));
      WordInjective(x[1..], y[1..]);
      assert x == [x[0]] + x[1..] && y == [y[0]] + y[1..];
    }
  }

  /** Up to four bytes act on the register as one word. */
  lemma {:induction false} RegisterOfWord(c: Word, s: Bytes)
    requires |s| <= 4
    ensures Register(c, s) == ShiftN(Xor(c, WordOf(s)), 8 * |s|)
    decreases |s|
  {
    hide Xor, Wide, Shl8, Serial, ShiftN;
    if |s| == 0 {
      XorGroup(c, 0, 0);
      RunZero(c);
    } else {
      var b, rest := Wide(s[0]), WordOf(s[1..]);
      RegisterOfWord(Serial(c, b, 8), s[1..]);
      ByteIsShift(c, s[0]);
      WordTop(s[1..]);
      ShiftBack(rest);
      ShiftNXor(Xor(c, b), Shl8(rest), 8);
      XorGroup(c, b, Shl8(rest));
      ShiftSum(Xor(c, WordOf(s)), 8, 8 * (|s| - 1));
    }
  }

  lemma {:induction false} ShiftSum(x: Word, m: nat, n: nat)
    ensures ShiftN(ShiftN(x, m), n) == ShiftN(x, m + n)
    decreases m
  {
    hide Shift;
    if m > 0 {
      ShiftSum(Shift(x), m - 1, n);
    }
  }

  lemma {:induction false} RegisterInjective(c: Word, d: Word, s: Bytes)
    requires Register(c, s) == Register(d, s)
    ensures c == d
    decreases |s|
  {
    hide Xor, Wide, Serial, ShiftN;
    if |s| > 0 {
      var b := Wide(s[0]);
      RegisterInjective(Serial(c, b, 8), Serial(d, b, 8), s[1..]);
      ByteIsShift(c, s[0]);
      ByteIsShift(d, s[0]);
      ShiftNInjective(Xor(c, b), Xor(d, b), 8);
      XorCancels(c, d, b);
    }
  }

  /** Any change confined to four consecutive bytes changes the checksum. */
  lemma BurstDetected(pre: Bytes, x: Bytes, y: Bytes, post: Bytes)
    requires |x| == |y| <= 4
    requires Checksum(pre + x + post) == Checksum(pre + y + post)
    ensures x == y
  {
    hide Xor, Register, ShiftN, WordOf;
    XorCancels(Register(ONES, pre + x + post), Register(ONES, pre + y + post), ONES);
    var c := Register(ONES, pre);
    RegisterConcat(ONES, pre, x);
    RegisterConcat(ONES, pre, y);
    RegisterConcat(ONES, pre + x, post);
    RegisterConcat(ONES, pre + y, post);
    RegisterInjective(Register(c, x), Register(c, y), post);
    RegisterOfWord(c, x);
    RegisterOfWord(c, y);
    ShiftNInjective(Xor(c, WordOf(x)), Xor(c, WordOf(y)), 8 * |x|);
    XorGroup(c, WordOf(x), 0);
    XorGroup(c, WordOf(y), 0);
    XorCancels(WordOf(x), WordOf(y), c);
    WordInjective(x, y);
  }
}
