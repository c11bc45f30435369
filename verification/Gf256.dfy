/** The field GF(2^8) modulo x^8 + x^4 + x^3 + x^2 + 1 (0x11D) and the log/exp tables of
    tight/src/fec.cpp that compute in it.

    `Mul` is the reference: carry-less multiplication reduced bit by bit. The table lookups
    (`TableMul`, `TablePow`, `TableInv`) are proved to compute the same field operations, which
    needs 2 to be a primitive element: its powers run through all 255 non-zero elements. */
module Gf256 {
  import opened Octets

  type Gf = Byte

  // ---------- Addition ----------

  function Add(a: Gf, b: Gf): Gf { a ^ b }

  lemma AddComm(a: Gf, b: Gf)
    ensures Add(a, b) == Add(b, a)
  {}

  lemma AddAssoc(a: Gf, b: Gf, c: Gf)
    ensures Add(Add(a, b), c) == Add(a, Add(b, c))
  {}

  lemma AddZero(a: Gf)
    ensures Add(a, 0) == a && Add(0, a) == a
  {}

  lemma AddSelf(a: Gf)
    ensures Add(a, a) == 0
  {}

  /** Two elements are equal exactly when they add up to zero. */
  lemma AddCancel(a: Gf, b: Gf)
    ensures Add(a, b) == 0 <==> a == b
  {}

  lemma AddExchange(a: Gf, b: Gf, c: Gf, d: Gf)
    ensures Add(Add(a, b), Add(c, d)) == Add(Add(a, c), Add(b, d))
  {
    calc {
      Add(Add(a, b), Add(c, d));
      Add(a ^ b, c ^ d);
      Add(a ^ c, b ^ d);
    }
  }

  // ---------- Multiplication ----------

  /** Multiplication by x: shift, and subtract the polynomial if a ninth bit appears. */
  function XTime(a: Gf): Gf { (a << 1) ^ ((0 - (a >> 7)) & 0x1D) }

  /** `a` if the lowest bit of `b` is set, otherwise zero. */
  function Pick(b: Gf, a: Gf): Gf { (0 - (b & 1)) & a }

  function Half(b: Gf): Gf { b >> 1 }

  /** The sum of a * x^i over those of the lowest `n` bits i that are set in `b`. */
  function MulBits(a: Gf, b: Gf, n: nat): Gf
    decreases n
  {
    if n == 0 then 0 else Add(Pick(b, a), MulBits(XTime(a), Half(b), n - 1))
  }

  function Width(): (n: nat)
    ensures n == 8
  {
    8
  }

  function Mul(a: Gf, b: Gf): Gf { MulBits(a, b, Width()) }

  lemma XTimeLinear(a: Gf, b: Gf)
    ensures XTime(Add(a, b)) == Add(XTime(a), XTime(b))
  {}

  lemma PickLinear(c: Gf, a: Gf, b: Gf)
    ensures Pick(c, Add(a, b)) == Add(Pick(c, a), Pick(c, b))
  {
    calc {
      Pick(c, Add(a, b));
      Pick(c, a ^ b);
      (0 - (c & 1)) & (a ^ b);
      ((0 - (c & 1)) & a) ^ ((0 - (c & 1)) & b);
      Pick(c, a) ^ Pick(c, b);
    }
  }

  lemma PickCases(b: Gf, a: Gf)
    ensures Pick(b, a) == a || Pick(b, a) == 0
    ensures forall c :: Pick(b, c) == if Pick(b, 1) == 1 then c else 0
  {
    if b & 1 == 0 {
      assert forall c :: Pick(b, c) == 0;
    } else {
      assert b & 1 == 1;
      assert forall c: Gf :: Pick(b, c) == c;
    }
  }

  lemma PickXTime(b: Gf, a: Gf)
    ensures Pick(b, XTime(a)) == XTime(Pick(b, a))
  {
    PickCases(b, a);
    assert XTime(0) == 0;
    hide Pick, XTime;
  }

  lemma {:induction false} MulBitsLinear(a: Gf, b: Gf, c: Gf, n: nat)
    ensures MulBits(Add(a, b), c, n) == Add(MulBits(a, c, n), MulBits(b, c, n))
    decreases n
  {
    AddSelf(0);
    hide Add, XTime, Pick, Half;
    if n > 0 {
      XTimeLinear(a, b);
      PickLinear(c, a, b);
      MulBitsLinear(XTime(a), XTime(b), Half(c), n - 1);
      AddExchange(Pick(c, a), Pick(c, b), MulBits(XTime(a), Half(c), n - 1), MulBits(XTime(b), Half(c), n - 1));
    }
  }

  lemma {:induction false} MulBitsZero(c: Gf, n: nat)
    ensures MulBits(0, c, n) == 0
    decreases n
  {
    AddSelf(0);
    assert XTime(0) == 0;
    assert Pick(c, 0) == 0;
    hide Add, XTime, Pick, Half;
    if n > 0 {
      MulBitsZero(Half(c), n - 1);
    }
  }

  lemma {:induction false} MulBitsXTime(a: Gf, c: Gf, n: nat)
    ensures MulBits(XTime(a), c, n) == XTime(MulBits(a, c, n))
    decreases n
  {
    assert XTime(0) == 0;
    hide Add, XTime, Pick, Half;
    if n > 0 {
      MulBitsXTime(XTime(a), Half(c), n - 1);
      XTimeLinear(Pick(c, a), MulBits(XTime(a), Half(c), n - 1));
      PickXTime(c, a);
    }
  }

  /** (u * a) * b == (u * b) * a, bit by bit of `a`; commutativity and associativity follow. */
  lemma {:induction false} Exchange(u: Gf, a: Gf, b: Gf, n: nat)
    ensures Mul(MulBits(u, a, n), b) == MulBits(Mul(u, b), a, n)
    decreases n
  {
    hide Add, XTime, Pick, Half;
    MulBitsZero(b, Width());
    if n > 0 {
      PickCases(a, u);
      MulBitsLinear(Pick(a, u), MulBits(XTime(u), Half(a), n - 1), b, Width());
      Exchange(XTime(u), Half(a), b, n - 1);
      MulBitsXTime(u, b, Width());
    }
  }

  lemma MulOneLeft(a: Gf)
    ensures Mul(1, a) == a
  {}

  lemma MulComm(a: Gf, b: Gf)
    ensures Mul(a, b) == Mul(b, a)
  {
    MulOneLeft(a);
    MulOneLeft(b);
    Exchange(1, a, b, Width());
  }

  lemma MulAssoc(a: Gf, b: Gf, c: Gf)
    ensures Mul(Mul(a, b), c) == Mul(a, Mul(b, c))
  {
    MulComm(a, b);
    Exchange(b, a, c, Width());
    MulComm(a, Mul(b, c));
  }

  lemma MulOne(a: Gf)
    ensures Mul(a, 1) == a && Mul(1, a) == a
  {
    MulOneLeft(a);
    MulComm(a, 1);
  }

  lemma MulZero(a: Gf)
    ensures Mul(a, 0) == 0 && Mul(0, a) == 0
  {
    MulBitsZero(a, Width());
    MulComm(a, 0);
  }

  lemma MulAddLeft(a: Gf, b: Gf, c: Gf)
    ensures Mul(Add(a, b), c) == Add(Mul(a, c), Mul(b, c))
  {
    MulBitsLinear(a, b, c, Width());
  }

  lemma MulAddRight(a: Gf, b: Gf, c: Gf)
    ensures Mul(a, Add(b, c)) == Add(Mul(a, b), Mul(a, c))
  {
    hide Mul, Add;
    MulComm(a, Add(b, c));
    MulComm(a, b);
    MulComm(a, c);
    MulAddLeft(b, c, a);
  }

  // ---------- Powers ----------

  function Pow(a: Gf, n: nat): Gf
    decreases n
  {
    if n == 0 then 1 else Mul(a, Pow(a, n - 1))
  }

  lemma {:induction false} PowAdd(a: Gf, m: nat, n: nat)
    ensures Pow(a, m + n) == Mul(Pow(a, m), Pow(a, n))
    decreases m
  {
    hide Mul;
    if m == 0 {
      MulOne(Pow(a, n));
    } else {
      PowAdd(a, m - 1, n);
      MulAssoc(a, Pow(a, m - 1), Pow(a, n));
    }
  }

  lemma {:induction false} PowOfOne(n: nat)
    ensures Pow(1, n) == 1
    decreases n
  {
    hide Mul;
    if n > 0 {
      PowOfOne(n - 1);
      MulOne(1);
    }
  }

  lemma {:induction false} PowMul(a: Gf, m: nat, n: nat)
    ensures Pow(a, m * n) == Pow(Pow(a, m), n)
    decreases n
  {
    hide Mul;
    if n == 0 {
      assert m * n == 0;
    } else {
      PowMul(a, m, n - 1);
      assert m * n == m + m * (n - 1);
      PowAdd(a, m, m * (n - 1));
    }
  }

  // ---------- The generator 2 has order exactly 255 ----------

  const Generator: Gf := 2

  function G(n: nat): Gf { Pow(Generator, n) }

  lemma GStep(n: nat)
    ensures G(n + 1) == XTime(G(n))
  {
    MulByGenerator(G(n));
  }

  lemma MulByGenerator(a: Gf)
    ensures Mul(Generator, a) == XTime(a)
  {
    MulComm(Generator, a);
    assert Pick(2, a) == 0;
    assert Half(2) == 1 && Half(1) == 0;
    assert Pick(1, XTime(a)) == XTime(a);
    MulBitsZeroRight(XTime(XTime(a)), 6);
    AddZero(XTime(a));
    hide Add, XTime, Pick, Half;
    assert MulBits(XTime(a), 1, 7) == Add(Pick(1, XTime(a)), MulBits(XTime(XTime(a)), 0, 6));
  }

  lemma {:induction false} MulBitsZeroRight(a: Gf, n: nat)
    ensures MulBits(a, 0, n) == 0
    decreases n
  {
    AddSelf(0);
    assert Half(0) == 0;
    assert Pick(0, a) == 0;
    hide Add, XTime, Pick, Half;
    if n > 0 {
      MulBitsZeroRight(XTime(a), n - 1);
    }
  }

  lemma GValue(n: nat, v: Gf)
    requires G(n) == v
    ensures G(2 * n) == Mul(v, v)
  {
    PowAdd(Generator, n, n);
  }

  lemma SmallPowers()
    ensures G(0) == 1 && G(7) == 0x80 && G(8) == 0x1D
  {
    hide XTime, Mul;
    GStep(0); GStep(1); GStep(2); GStep(3); GStep(4); GStep(5); GStep(6); GStep(7);
    assert XTime(1) == 2 && XTime(2) == 4 && XTime(4) == 8 && XTime(8) == 16 by { XTimeValues(); }
    assert XTime(16) == 32 && XTime(32) == 64 && XTime(64) == 128 && XTime(128) == 0x1D by { XTimeValues(); }
  }

  lemma XTimeValues()
    ensures XTime(1) == 2 && XTime(2) == 4 && XTime(4) == 8 && XTime(8) == 16
    ensures XTime(16) == 32 && XTime(32) == 64 && XTime(64) == 128 && XTime(128) == 0x1D
    ensures XTime(0x13) == 0x26 && XTime(0x4C) == 0x98
  {}

  lemma MulValues()
    ensures Mul(0x80, 0x80) == 0x13 && Mul(0x1D, 0x1D) == 0x4C && Mul(0x98, 0x98) == 0x4E
    ensures Mul(0x98, 0x4E) == 0x0A && Mul(0x4E, 0x0A) == 0xD6 && Mul(0xD6, 0xD6) == 0xD7 && Mul(0xD6, 0xD7) == 1
  {}

  /** The powers that decide the order of 2: 255 = 3 * 5 * 17, and none of 255/17, 255/5, 255/3 gives 1. */
  lemma KeyPowers()
    ensures G(15) == 0x26 && G(51) == 0x0A && G(85) == 0xD6 && G(255) == 1
  {
    SmallPowers();
    MulValues();
    XTimeValues();
    hide XTime, Mul, G, Pow;
    GValue(7, 0x80);
    GStep(14);
    GValue(8, 0x1D);
    GStep(16);
    GValue(17, 0x98);
    GSum(17, 34);
    GSum(34, 51);
    GValue(85, 0xD6);
    GSum(85, 170);
  }

  lemma GSum(m: nat, n: nat)
    ensures G(m + n) == Mul(G(m), G(n))
  {
    PowAdd(Generator, m, n);
  }

  lemma GMultiple(d: nat, k: nat)
    requires G(d) == 1
    ensures G(d * k) == 1
  {
    PowMul(Generator, d, k);
    PowOfOne(k);
  }

  lemma GMod(n: nat)
    ensures G(n % 255) == G(n)
  {
    hide *;
    KeyPowers();
    GMultiple(255, n / 255);
    GSum(255 * (n / 255), n % 255);
    assert 255 * (n / 255) + n % 255 == n;
    MulOne(G(n % 255));
  }

  lemma ProperDivisor(d: nat, q: nat)
    requires 0 < d < 255 && d * q == 255
    ensures 15 % d == 0 || 51 % d == 0 || 85 % d == 0
  {
    if d <= 16 {
      assert d == 1 || d == 3 || d == 5 || d == 15;
    } else {
      assert q < 16;
      assert q == 3 || q == 5 || q == 15;
    }
  }

  lemma {:induction false} NoShortCycle(d: nat)
    requires 0 < d < 255
    ensures G(d) != 1
    decreases d
  {
    hide G, Mul;
    if G(d) == 1 {
      KeyPowers();
      var q, r := 255 / d, 255 % d;
      GMultiple(d, q);
      GSum(d * q, r);
      MulOne(G(r));
      if r > 0 {
        NoShortCycle(r);
      } else {
        ProperDivisor(d, q);
        GMultiple(d, 15 / d);
        GMultiple(d, 51 / d);
        GMultiple(d, 85 / d);
        assert false;
      }
    }
  }

  lemma GNonZero(n: nat)
    ensures G(n) != 0
  {
    hide *;
    KeyPowers();
    var k := 255 * (n / 255 + 1) - n;
    GMultiple(255, n / 255 + 1);
    GSum(n, k);
    MulZero(G(k));
  }

  lemma GInjective(i: nat, j: nat)
    requires i < j < 255
    ensures G(i) != G(j)
  {
    hide *;
    if G(i) == G(j) {
      KeyPowers();
      GSum(255 - i, i);
      GSum(255 - i, j);
      GSum(255, j - i);
      MulOne(G(j - i));
      NoShortCycle(j - i);
    }
  }

  // ---------- Every non-zero element is a power of 2 ----------

  ghost function Powers(n: nat): set<Gf> { set i | 0 <= i < n :: G(i) }

  lemma {:induction false} PowersCount(n: nat)
    requires n <= 255
    ensures |Powers(n)| == n
    decreases n
  {
    hide G;
    if n > 0 {
      PowersCount(n - 1);
      assert Powers(n) == Powers(n - 1) + {G(n - 1)};
      forall i | 0 <= i < n - 1
        ensures G(i) != G(n - 1)
      {
        GInjective(i, n - 1);
      }
    }
  }

  lemma {:induction false} CountBelow(s: set<Gf>, n: nat)
    requires n <= 256
    requires forall x :: x in s ==> 256 - n <= Index(x)
    ensures |s| <= n
    decreases n
  {
    hide Index;
    if n == 0 {
      assert s == {};
    } else {
      var low := set x | x in s && Index(x) == 256 - n;
      CountBelow(s - low, n - 1);
      assert s == (s - low) + low;
      if low != {} {
        var y :| y in low;
        forall x | x in low
          ensures x == y
        {
          IndexInjective(x, y);
        }
        assert low == {y};
      }
    }
  }

  lemma EveryNonZeroIsPower(a: Gf)
    requires a != 0
    ensures exists i: nat :: i < 255 && G(i) == a
  {
    hide G;
    if a !in Powers(255) {
      PowersCount(255);
      var all := Powers(255) + {a};
      forall x | x in all
        ensures 1 <= Index(x)
      {
        if x != a {
          var i :| 0 <= i < 255 && x == G(i);
          GNonZero(i);
        }
        IndexNonZero(x);
      }
      CountBelow(all, 255);
    }
  }

  // ---------- The tables ----------

  datatype GfTables = GfTables(exp: seq<Gf>, log: seq<nat>)

  /** What the table constructor establishes: `exp` holds the powers of 2 (twice over), `log` inverts it. */
  ghost predicate ValidTables(t: GfTables) {
    && |t.exp| == 512
    && |t.log| == 256
    && (forall i :: 0 <= i < 512 ==> t.exp[i] == G(i))
    && (forall a: Gf :: a != 0 ==> t.log[Index(a)] < 255 && G(t.log[Index(a)]) == a)
    && t.log[0] == 0
  }

  /** One turn of the table loop: the 16-bit shift and conditional reduction. */
  function NextPower(x: bv16): (r: bv16)
    requires x < 0x100
    ensures r < 0x100
  {
    var y := x << 1;
    if y & 0x100 != 0 then y ^ 0x11D else y
  }

  function Narrow(x: bv16): Gf
    requires x < 0x100
  {
    x as Gf
  }

  lemma NextPowerIsXTime(x: bv16)
    requires x < 0x100
    ensures Narrow(NextPower(x)) == XTime(Narrow(x))
  {
    if (x << 1) & 0x100 != 0 {
    } else {
    }
  }

  /** The first loop of the constructor: powers and logarithms of the first 255 steps. */
  method BuildFirstPeriod() returns (exp: seq<Gf>, log: seq<nat>)
    ensures |exp| == 512 && |log| == 256
    ensures forall k: nat :: k < 255 ==> exp[k] == G(k)
    ensures forall k: nat :: k < 255 ==> log[Index(G(k))] == k
    ensures log[0] == 0
  {
    hide *;
    exp := seq(512, _ => 0);
    log := seq(256, _ => 0);
    var x: bv16 := 1;
    FirstPower();
    for i := 0 to 255
      invariant |exp| == 512 && |log| == 256
      invariant x < 0x100 && Narrow(x) == G(i)
      invariant forall k: nat :: k < i ==> exp[k] == G(k)
      invariant forall k: nat :: k < i ==> log[Index(G(k))] == k
      invariant log[0] == 0
    {
      exp := exp[i := Narrow(x)];
      FreshLogSlot(i);
      log := log[Index(Narrow(x)) := i];
      GStep(i);
      NextPowerIsXTime(x);
      x := NextPower(x);
    }
  }

  lemma FirstPower()
    ensures Narrow(1) == G(0)
  {
    SmallPowers();
  }

  lemma FreshLogSlot(i: nat)
    requires i < 255
    ensures Index(G(i)) != 0
    ensures forall k: nat :: k < i ==> Index(G(k)) != Index(G(i))
  {
    hide G, Index;
    GNonZero(i);
    IndexNonZero(G(i));
    forall k: nat | k < i
      ensures Index(G(k)) != Index(G(i))
    {
      GInjective(k, i);
      if Index(G(k)) == Index(G(i)) {
        IndexInjective(G(k), G(i));
      }
    }
  }

  method BuildTables() returns (t: GfTables)
    ensures ValidTables(t)
  {
    hide G, Index;
    var exp, log := BuildFirstPeriod();
    for i := 255 to 512
      invariant |exp| == 512
      invariant forall k :: 0 <= k < i ==> exp[k] == G(k)
    {
      exp := exp[i := exp[i - 255]];
      GMod(i);
      GMod(i - 255);
    }
    t := GfTables(exp, log);
    forall a: Gf | a != 0
      ensures log[Index(a)] < 255 && G(log[Index(a)]) == a
    {
      EveryNonZeroIsPower(a);
    }
  }

  function TableMul(t: GfTables, a: Gf, b: Gf): Gf
    requires ValidTables(t)
  {
    if a == 0 || b == 0 then 0 else t.exp[t.log[Index(a)] + t.log[Index(b)]]
  }

  lemma TableMulIsMul(t: GfTables, a: Gf, b: Gf)
    requires ValidTables(t)
    ensures TableMul(t, a, b) == Mul(a, b)
  {
    hide G, Mul;
    if a == 0 {
      MulZero(b);
    } else if b == 0 {
      MulZero(a);
    } else {
      GSum(t.log[Index(a)], t.log[Index(b)]);
    }
  }

  function TablePow(t: GfTables, a: Gf, e: nat): Gf
    requires ValidTables(t)
  {
    if e == 0 then 1
    else if a == 0 then 0
    else t.exp[(t.log[Index(a)] * e) % 255]
  }

  lemma {:induction false} TablePowIsPow(t: GfTables, a: Gf, e: nat)
    requires ValidTables(t)
    ensures TablePow(t, a, e) == Pow(a, e)
  {
    hide Mul, Pow, G, Index;
    if e == 0 || a == 0 {
      PowBase(e);
      PowBaseZero(a);
    } else {
      var l := t.log[Index(a)];
      GPow(l, e);
      GMod(l * e);
    }
  }

  lemma {:induction false} PowBase(e: nat)
    ensures e > 0 ==> Pow(0, e) == 0
  {
    if e > 0 {
      MulZero(Pow(0, e - 1));
    }
  }

  lemma {:induction false} PowBaseZero(a: Gf)
    ensures Pow(a, 0) == 1
  {}

  lemma {:induction false} GPow(l: nat, e: nat)
    ensures Pow(G(l), e) == G(l * e)
  {
    PowMul(Generator, l, e);
  }

  function TableInv(t: GfTables, a: Gf): Gf
    requires ValidTables(t)
  {
    t.exp[255 - t.log[Index(a)]]
  }

  lemma TableInvIsInverse(t: GfTables, a: Gf)
    requires ValidTables(t) && a != 0
    ensures Mul(a, TableInv(t, a)) == 1
    ensures TableInv(t, a) != 0
  {
    hide G, Mul;
    var l := t.log[Index(a)];
    GSum(l, 255 - l);
    KeyPowers();
    GNonZero(255 - l);
  }

  /** The ring has no zero divisors. */
  lemma NoZeroDivisors(a: Gf, b: Gf)
    ensures Mul(a, b) == 0 <==> a == 0 || b == 0
  {
    hide G, Mul;
    MulZero(a);
    MulZero(b);
    if a != 0 && b != 0 {
      EveryNonZeroIsPower(a);
      EveryNonZeroIsPower(b);
      var i: nat :| i < 255 && G(i) == a;
      var j: nat :| j < 255 && G(j) == b;
      GSum(i, j);
      GNonZero(i + j);
    }
  }
}
