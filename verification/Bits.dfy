/** Bitwise operations and powers of two on natural numbers, for words wider than a byte. */
module Bits {

  function Pow2(n: nat): (p: nat)
    ensures p >= 1
    decreases n
  {
    if n == 0 then 1 else 2 * Pow2(n - 1)
  }

  lemma {:induction false} Pow2Add(m: nat, n: nat)
    ensures Pow2(m + n) == Pow2(m) * Pow2(n)
    decreases m
  {
    if m > 0 {
      Pow2Add(m - 1, n);
      assert 2 * (Pow2(m - 1) * Pow2(n)) == (2 * Pow2(m - 1)) * Pow2(n);
    }
  }

  function Xor(a: nat, b: nat): nat
    decreases a + b
  {
    if a == 0 && b == 0 then 0 else (a % 2 + b % 2) % 2 + 2 * Xor(a / 2, b / 2)
  }

  function And(a: nat, b: nat): nat
    decreases a + b
  {
    if a == 0 && b == 0 then 0 else (a % 2) * (b % 2) + 2 * And(a / 2, b / 2)
  }

  function Or(a: nat, b: nat): nat
    decreases a + b
  {
    if a == 0 && b == 0 then 0 else (if a % 2 == 1 || b % 2 == 1 then 1 else 0) + 2 * Or(a / 2, b / 2)
  }

  lemma {:induction false} XorZero(a: nat)
    ensures Xor(a, 0) == a
    decreases a
  {
    if a > 0 {
      XorZero(a / 2);
    }
  }

  lemma {:induction false} XorComm(a: nat, b: nat)
    ensures Xor(a, b) == Xor(b, a)
    decreases a + b
  {
    if a + b > 0 {
      XorComm(a / 2, b / 2);
    }
  }

  lemma {:induction false} XorStep(a: nat, b: nat)
    ensures Xor(a, b) % 2 == (a % 2 + b % 2) % 2 && Xor(a, b) / 2 == Xor(a / 2, b / 2)
  {
    var low, high: nat := (a % 2 + b % 2) % 2, Xor(a / 2, b / 2);
    if a == 0 && b == 0 {
      assert Xor(0, 0) == 0;
    } else {
      assert Xor(a, b) == low + 2 * high;
      hide Xor;
      LowAndRest(low, high);
    }
  }

  lemma LowAndRest(low: nat, high: nat)
    requires low < 2
    ensures (low + 2 * high) % 2 == low && (low + 2 * high) / 2 == high
  {}

  /** Mixing in a ^ b turns a into b. */
  lemma {:induction false} XorSwap(a: nat, b: nat)
    ensures Xor(a, Xor(a, b)) == b
    decreases a + b
  {
    hide Xor;
    XorStep(a, b);
    XorStep(a, Xor(a, b));
    if a + b == 0 {
      XorZero(0);
    } else {
      XorSwap(a / 2, b / 2);
      SameDigits(Xor(a, Xor(a, b)), b);
    }
  }

  lemma SameDigits(x: nat, y: nat)
    requires x % 2 == y % 2 && x / 2 == y / 2
    ensures x == y
  {}

  lemma {:induction false} XorBound(a: nat, b: nat, n: nat)
    requires a < Pow2(n) && b < Pow2(n)
    ensures Xor(a, b) < Pow2(n)
    decreases n
  {
    if n > 0 && a + b > 0 {
      XorBound(a / 2, b / 2, n - 1);
    }
  }

  lemma {:induction false} AndZero(x: nat)
    ensures And(0, x) == 0
    decreases x
  {
    if x > 0 {
      AndZero(x / 2);
    }
  }

  /** A mask of n ones keeps the low n bits. */
  lemma {:induction false} AndOnes(n: nat, x: nat)
    requires x < Pow2(n)
    ensures And(Pow2(n) - 1, x) == x
    decreases n
  {
    if n > 0 {
      assert (Pow2(n) - 1) / 2 == Pow2(n - 1) - 1 && (Pow2(n) - 1) % 2 == 1;
      AndOnes(n - 1, x / 2);
      assert x == x % 2 + 2 * (x / 2);
    }
  }

  lemma {:induction false} OrZero(x: nat)
    ensures Or(x, 0) == x && Or(0, x) == x
    decreases x
  {
    if x > 0 {
      OrZero(x / 2);
    }
  }

  /** Bits placed above n others are simply added. */
  lemma {:induction false} OrDisjoint(a: nat, n: nat, b: nat)
    requires a < Pow2(n)
    ensures Or(a, b * Pow2(n)) == a + b * Pow2(n)
    decreases n
  {
    if n == 0 {
      OrZero(b);
      assert b * Pow2(n) == b;
    } else {
      var y := b * Pow2(n - 1);
      assert b * Pow2(n) == 2 * y;
      OrDisjoint(a / 2, n - 1, b);
      assert a == a % 2 + 2 * (a / 2);
      if a == 0 && y == 0 {
        OrZero(0);
      }
    }
  }

  // ---------- Shifts as divisions ----------

  lemma DivUnique(x: int, d: int, q: int, r: int)
    requires d > 0 && x == d * q + r && 0 <= r < d
    ensures x / d == q && x % d == r
  {
    var k := x / d - q;
    assert d * k == r - x % d;
    MultipleIsFar(d, k);
  }

  lemma MultipleIsFar(d: int, k: int)
    requires d > 0
    ensures k >= 1 ==> d * k >= d
    ensures k <= -1 ==> d * k <= -d
  {}

  lemma DivAddMultiple(x: int, d: int, h: int)
    requires d > 0
    ensures (x + d * h) / d == x / d + h && (x + d * h) % d == x % d
  {
    assert x + d * h == d * (x / d + h) + x % d;
    DivUnique(x + d * h, d, x / d + h, x % d);
  }

  lemma DivDiv(x: nat, a: nat, b: nat)
    requires a > 0 && b > 0
    ensures a * b > 0 && (x / a) / b == x / (a * b)
    ensures x % (a * b) == x % a + a * ((x / a) % b)
  {
    var y := x / a;
    var q, r := y / b, y % b;
    assert x == a * y + x % a && y == b * q + r;
    assert a * y == a * (b * q) + a * r;
    assert a * (b * q) == (a * b) * q;
    assert a * r <= a * (b - 1) == a * b - a;
    assert a * b >= a;
    DivUnique(x, a * b, q, a * r + x % a);
  }

  /** x shifted right by n. */
  function Shr(x: nat, n: nat): nat {
    var p := Pow2(n);
    DivNonNegative(x, p);
    x / p
  }

  lemma DivNonNegative(x: nat, p: nat)
    requires p > 0
    ensures x / p >= 0
  {}

  lemma ShrShr(x: nat, m: nat, n: nat)
    ensures Shr(Shr(x, m), n) == Shr(x, m + n)
  {
    hide Pow2;
    Pow2Add(m, n);
    DivDiv(x, Pow2(m), Pow2(n));
  }

  /** Bits m..m+n-1 of x sit above its low m bits. */
  lemma LowBits(x: nat, m: nat, n: nat)
    ensures x % Pow2(m + n) == x % Pow2(m) + Pow2(m) * (Shr(x, m) % Pow2(n))
  {
    hide Pow2;
    Pow2Add(m, n);
    DivDiv(x, Pow2(m), Pow2(n));
  }

  /** Shifting and then masking sees only the bits under the mask. */
  lemma {:induction false} ShrOfLow(x: nat, w: nat, d: nat, n: nat)
    requires d + n <= w
    ensures Shr(x % Pow2(w), d) % Pow2(n) == Shr(x, d) % Pow2(n)
  {
    hide Pow2;
    var r := w - d - n;
    Pow2Add(n, r);
    Pow2Add(d, n + r);
    ModDiv(x, Pow2(d), Pow2(n + r));
    ModMod(x / Pow2(d), Pow2(n), Pow2(r));
  }

  lemma ModDiv(x: nat, a: nat, m: nat)
    requires a > 0 && m > 0
    ensures a * m > 0 && (x % (a * m)) / a == (x / a) % m
  {
    DivDiv(x, a, m);
    DivUnique(x % (a * m), a, (x / a) % m, x % a);
  }

  lemma ModMod(y: nat, n: nat, r: nat)
    requires n > 0 && r > 0
    ensures n * r > 0 && (y % (n * r)) % n == y % n
  {
    DivDiv(y, n, r);
    DivUnique(y % (n * r), n, (y / n) % r, y % n);
  }
}
