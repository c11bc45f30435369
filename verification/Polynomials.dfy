/** Polynomials over the two-element field, and arithmetic modulo one of them: the setting of the erasure code's
    field, of GHASH and of the checksum. A polynomial is the set of its exponents. */
module Polynomials {

  type Poly = set<nat>

  function Plus(p: Poly, q: Poly): Poly { (p - q) + (q - p) }

  /** x^k times p */
  function Shifted(p: Poly, k: nat): Poly { set e | e in p :: e + k }

  /** The terms of p below x^n, times q. */
  function TimesBelow(p: Poly, q: Poly, n: nat): Poly
    decreases n
  {
    if n == 0 then {} else Plus(TimesBelow(p, q, n - 1), if n - 1 in p then Shifted(q, n - 1) else {})
  }

  ghost predicate Under(p: Poly, n: nat) { forall e :: e in p ==> e < n }

  /** A sum of multiples x^k of the modulus. */
  function Multiple(m: Poly, ks: seq<nat>): Poly
    decreases |ks|
  {
    if |ks| == 0 then {} else Plus(Multiple(m, ks[..|ks| - 1]), Shifted(m, ks[|ks| - 1]))
  }

  /** Equal modulo m. */
  ghost predicate Congruent(m: Poly, p: Poly, q: Poly) { exists ks: seq<nat> :: Plus(p, q) == Multiple(m, ks) }

  // ---------- Sums and shifts ----------

  lemma PlusLaws(p: Poly, q: Poly, r: Poly)
    ensures Plus(p, Plus(q, r)) == Plus(Plus(p, q), r) && Plus(p, q) == Plus(q, p) && Plus(p, p) == {} && Plus(p, {}) == p
  {}

  lemma Exchange(p: Poly, q: Poly, r: Poly, s: Poly)
    ensures Plus(Plus(p, r), Plus(q, s)) == Plus(Plus(p, q), Plus(r, s))
  {}

  lemma ShiftedHas(p: Poly, k: nat, e: nat)
    ensures e in Shifted(p, k) <==> e >= k && e - k in p
  {
    if e >= k && e - k in p {
      assert e == (e - k) + k;
    }
  }

  lemma ShiftedPlus(p: Poly, q: Poly, k: nat)
    ensures Shifted(Plus(p, q), k) == Plus(Shifted(p, k), Shifted(q, k))
  {
    forall e: nat ensures e in Shifted(Plus(p, q), k) <==> e in Plus(Shifted(p, k), Shifted(q, k)) {
      ShiftedHas(Plus(p, q), k, e);
      ShiftedHas(p, k, e);
      ShiftedHas(q, k, e);
    }
  }

  lemma ShiftedTwice(p: Poly, i: nat, j: nat)
    ensures Shifted(Shifted(p, i), j) == Shifted(p, i + j)
  {
    forall e: nat ensures e in Shifted(Shifted(p, i), j) <==> e in Shifted(p, i + j) {
      ShiftedHas(Shifted(p, i), j, e);
      ShiftedHas(p, i + j, e);
      if e >= j {
        ShiftedHas(p, i, e - j);
      }
    }
  }

  lemma ShiftedZero(p: Poly)
    ensures Shifted(p, 0) == p
  {
    forall e: nat ensures e in Shifted(p, 0) <==> e in p {
      ShiftedHas(p, 0, e);
    }
  }

  lemma EmptyShift(k: nat)
    ensures Shifted({}, k) == {}
  {}

  // ---------- Congruence ----------

  lemma {:induction false} MultipleConcat(m: Poly, ks: seq<nat>, ls: seq<nat>)
    ensures Multiple(m, ks + ls) == Plus(Multiple(m, ks), Multiple(m, ls))
    decreases |ls|
  {
    hide Plus, Shifted;
    if |ls| == 0 {
      assert ks + ls == ks;
      PlusLaws(Multiple(m, ks), {}, {});
    } else {
      var n := |ls| - 1;
      MultipleConcat(m, ks, ls[..n]);
      assert (ks + ls)[..|ks + ls| - 1] == ks + ls[..n];
      PlusLaws(Multiple(m, ks), Multiple(m, ls[..n]), Shifted(m, ls[n]));
    }
  }

  function Raised(ks: seq<nat>, k: nat): (r: seq<nat>)
    ensures |r| == |ks| && forall i :: 0 <= i < |ks| ==> r[i] == ks[i] + k
  {
    seq(|ks|, i requires 0 <= i < |ks| => ks[i] + k)
  }

  lemma {:induction false} MultipleShifted(m: Poly, ks: seq<nat>, k: nat)
    ensures Shifted(Multiple(m, ks), k) == Multiple(m, Raised(ks, k))
    decreases |ks|
  {
    hide Plus, Shifted;
    if |ks| == 0 {
      EmptyShift(k);
    } else {
      var n := |ks| - 1;
      MultipleShifted(m, ks[..n], k);
      assert Raised(ks, k)[..n] == Raised(ks[..n], k);
      ShiftedPlus(Multiple(m, ks[..n]), Shifted(m, ks[n]), k);
      ShiftedTwice(m, ks[n], k);
    }
  }

  lemma CongruentSame(m: Poly, p: Poly)
    ensures Congruent(m, p, p)
  {
    PlusLaws(p, p, p);
    assert Plus(p, p) == Multiple(m, []);
  }

  lemma CongruentSym(m: Poly, p: Poly, q: Poly)
    requires Congruent(m, p, q)
    ensures Congruent(m, q, p)
  {
    PlusLaws(p, q, q);
  }

  lemma CongruentTrans(m: Poly, p: Poly, q: Poly, r: Poly)
    requires Congruent(m, p, q) && Congruent(m, q, r)
    ensures Congruent(m, p, r)
  {
    var ks: seq<nat> :| Plus(p, q) == Multiple(m, ks);
    var ls: seq<nat> :| Plus(q, r) == Multiple(m, ls);
    MultipleConcat(m, ks, ls);
    Telescope(p, q, r);
    hide Plus, Multiple;
    assert Plus(p, r) == Multiple(m, ks + ls);
  }

  lemma Telescope(p: Poly, q: Poly, r: Poly)
    ensures Plus(Plus(p, q), Plus(q, r)) == Plus(p, r)
  {}

  lemma CongruentPlus(m: Poly, p: Poly, q: Poly, r: Poly, s: Poly)
    requires Congruent(m, p, q) && Congruent(m, r, s)
    ensures Congruent(m, Plus(p, r), Plus(q, s))
  {
    var ks: seq<nat> :| Plus(p, q) == Multiple(m, ks);
    var ls: seq<nat> :| Plus(r, s) == Multiple(m, ls);
    MultipleConcat(m, ks, ls);
    Exchange(p, q, r, s);
    hide Plus, Multiple;
    assert Plus(Plus(p, r), Plus(q, s)) == Multiple(m, ks + ls);
  }

  lemma CongruentShift(m: Poly, p: Poly, q: Poly, k: nat)
    requires Congruent(m, p, q)
    ensures Congruent(m, Shifted(p, k), Shifted(q, k))
  {
    var ks: seq<nat> :| Plus(p, q) == Multiple(m, ks);
    MultipleShifted(m, ks, k);
    ShiftedPlus(p, q, k);
    hide Plus, Multiple, Shifted;
    assert Plus(Shifted(p, k), Shifted(q, k)) == Multiple(m, Raised(ks, k));
  }

  /** Adding the modulus changes nothing modulo it. */
  lemma CongruentModulus(m: Poly, p: Poly)
    ensures Congruent(m, Plus(p, m), p)
  {
    ModulusIsMultiple(m);
    PlusLaws(p, m, p);
    PlusLaws(m, p, p);
    PlusLaws(m, p, {});
    hide Plus, Multiple;
    assert Plus(Plus(p, m), p) == Multiple(m, [0]);
  }

  lemma {:induction false} ModulusIsMultiple(m: Poly)
    ensures Multiple(m, [0]) == m
  {
    assert [0][..0] == [];
    assert Multiple(m, []) == {};
    ShiftedZero(m);
    PlusLaws(m, {}, {});
  }

  // ---------- Products ----------

  lemma {:induction false} TimesPlus(p: Poly, q: Poly, r: Poly, n: nat)
    ensures TimesBelow(p, Plus(q, r), n) == Plus(TimesBelow(p, q, n), TimesBelow(p, r, n))
    decreases n
  {
    hide Plus, Shifted;
    if n == 0 {
      PlusLaws({}, {}, {});
    } else {
      TimesPlus(p, q, r, n - 1);
      ShiftedPlus(q, r, n - 1);
      PlusLaws({}, {}, {});
      if n - 1 in p {
        Exchange(TimesBelow(p, q, n - 1), Shifted(q, n - 1), TimesBelow(p, r, n - 1), Shifted(r, n - 1));
      } else {
        Exchange(TimesBelow(p, q, n - 1), {}, TimesBelow(p, r, n - 1), {});
      }
    }
  }

  lemma {:induction false} PlusTimes(p: Poly, q: Poly, r: Poly, n: nat)
    ensures TimesBelow(Plus(p, q), r, n) == Plus(TimesBelow(p, r, n), TimesBelow(q, r, n))
    decreases n
  {
    if n == 0 {
      PlusLaws({}, {}, {});
    } else {
      PlusTimes(p, q, r, n - 1);
      var a, b := TimesBelow(p, r, n - 1), TimesBelow(q, r, n - 1);
      var s := Shifted(r, n - 1);
      var u, v := if n - 1 in p then s else {}, if n - 1 in q then s else {};
      assert Plus(u, v) == if n - 1 in Plus(p, q) then s else {};
      hide Plus, Shifted;
      Exchange(a, u, b, v);
    }
  }

  lemma {:induction false} TimesShifted(p: Poly, q: Poly, k: nat, n: nat)
    ensures TimesBelow(p, Shifted(q, k), n) == Shifted(TimesBelow(p, q, n), k)
    decreases n
  {
    hide Plus, Shifted;
    EmptyShift(k);
    if n > 0 {
      TimesShifted(p, q, k, n - 1);
      ShiftedTwice(q, k, n - 1);
      ShiftedTwice(q, n - 1, k);
      ShiftedPlus(TimesBelow(p, q, n - 1), if n - 1 in p then Shifted(q, n - 1) else {}, k);
    }
  }

  lemma {:induction false} TimesUnder(p: Poly, q: Poly, d: nat, n: nat)
    requires Under(q, d)
    ensures forall e :: e in TimesBelow(p, q, n) ==> e + 1 < n + d
    decreases n
  {
    if n > 0 {
      TimesUnder(p, q, d, n - 1);
    }
  }

  /** Terms that p does not have add nothing. */
  lemma {:induction false} TimesFurther(p: Poly, q: Poly, n: nat, k: nat)
    requires Under(p, n)
    ensures TimesBelow(p, q, n + k) == TimesBelow(p, q, n)
    decreases k
  {
    hide Plus;
    if k > 0 {
      TimesFurther(p, q, n, k - 1);
      PlusLaws(TimesBelow(p, q, n), {}, {});
    }
  }

  /** A power of x times q. */
  lemma {:induction false} TimesPower(k: nat, q: Poly, n: nat)
    ensures TimesBelow({k}, q, n) == if k < n then Shifted(q, k) else {}
    decreases n
  {
    hide Plus, Shifted;
    if n > 0 {
      TimesPower(k, q, n - 1);
      PlusLaws({}, Shifted(q, k), {});
      PlusLaws(Shifted(q, k), {}, {});
      PlusLaws({}, {}, {});
    }
  }

  lemma {:induction false} PowerTimes(p: Poly, k: nat, n: nat)
    requires Under(p, n)
    ensures TimesBelow(p, {k}, n) == Shifted(p, k)
  {
    TermsUpTo(p, {k}, n);
    hide TimesBelow;
    forall e: nat ensures e in TimesBelow(p, {k}, n) <==> e in Shifted(p, k) {
      ShiftedHas(p, k, e);
      TermsAt(p, k, n, e);
    }
  }

  lemma {:induction false} TermsUpTo(p: Poly, q: Poly, n: nat)
    ensures TimesBelow(p, q, 0) == {}
  {}

  lemma {:induction false} TermsAt(p: Poly, k: nat, n: nat, e: nat)
    ensures e in TimesBelow(p, {k}, n) <==> k <= e < n + k && e - k in p
    decreases n
  {
    if n > 0 {
      TermsAt(p, k, n - 1, e);
      ShiftedHas({k}, n - 1, e);
    }
  }

  ghost function Cut(p: Poly, n: nat): Poly { set e | e in p && e < n }

  lemma {:induction false} TimesCommutes(p: Poly, q: Poly, n: nat, k: nat)
    requires Under(q, k)
    ensures TimesBelow(p, q, n) == TimesBelow(q, Cut(p, n), k)
    decreases n
  {
    if n == 0 {
      assert Cut(p, 0) == {};
      NothingTimes(q, k);
    } else {
      TimesCommutes(p, q, n - 1, k);
      if n - 1 in p {
        assert Cut(p, n) == Plus(Cut(p, n - 1), {n - 1});
        TimesPlus(q, Cut(p, n - 1), {n - 1}, k);
        PowerTimes(q, n - 1, k);
      } else {
        assert Cut(p, n) == Cut(p, n - 1);
        PlusLaws(TimesBelow(p, q, n - 1), {}, {});
      }
    }
  }

  lemma {:induction false} NothingTimes(q: Poly, k: nat)
    ensures TimesBelow(q, {}, k) == {}
    decreases k
  {
    if k > 0 {
      NothingTimes(q, k - 1);
      EmptyShift(k - 1);
    }
  }

  /** (p * q) * r == p * (q * r) */
  lemma {:induction false} TimesAssoc(p: Poly, q: Poly, r: Poly, n: nat, k: nat, far: nat)
    requires Under(q, k) && far >= n + k
    ensures TimesBelow(TimesBelow(p, q, n), r, far) == TimesBelow(p, TimesBelow(q, r, k), n)
    decreases n
  {
    hide Plus, Shifted;
    if n == 0 {
      EmptyTimes(r, far);
    } else {
      TimesAssoc(p, q, r, n - 1, k, far);
      var a := TimesBelow(p, q, n - 1);
      if n - 1 in p {
        PlusTimes(a, Shifted(q, n - 1), r, far);
        ShiftedTimes(q, r, n - 1, k, far);
      } else {
        PlusLaws(a, {}, {});
        PlusLaws(TimesBelow(p, TimesBelow(q, r, k), n - 1), {}, {});
      }
    }
  }

  lemma {:induction false} EmptyTimes(r: Poly, n: nat)
    ensures TimesBelow({}, r, n) == {}
    decreases n
  {
    if n > 0 {
      EmptyTimes(r, n - 1);
    }
  }

  lemma {:induction false} ShiftedTimes(q: Poly, r: Poly, j: nat, k: nat, far: nat)
    requires Under(q, k) && far >= j + k
    ensures TimesBelow(Shifted(q, j), r, far) == Shifted(TimesBelow(q, r, k), j)
  {
    ShiftedUnder(q, j, k);
    TimesFurther(Shifted(q, j), r, j + k, far - (j + k));
    ShiftedTimesBelow(q, r, j, k);
  }

  lemma ShiftedUnder(q: Poly, j: nat, k: nat)
    requires Under(q, k)
    ensures Under(Shifted(q, j), j + k)
  {}

  lemma {:induction false} ShiftedTimesBelow(q: Poly, r: Poly, j: nat, n: nat)
    ensures TimesBelow(Shifted(q, j), r, j + n) == Shifted(TimesBelow(q, r, n), j)
    decreases n
  {
    hide Plus;
    if n == 0 {
      NoneBelow(q, r, j, j);
      EmptyShift(j);
    } else {
      ShiftedTimesBelow(q, r, j, n - 1);
      ShiftedHas(q, j, j + n - 1);
      hide Shifted;
      ShiftedTwice(r, n - 1, j);
      EmptyShift(j);
      ShiftedPlus(TimesBelow(q, r, n - 1), if n - 1 in q then Shifted(r, n - 1) else {}, j);
    }
  }

  lemma {:induction false} NoneBelow(q: Poly, r: Poly, j: nat, n: nat)
    requires n <= j
    ensures TimesBelow(Shifted(q, j), r, n) == {}
    decreases n
  {
    if n > 0 {
      NoneBelow(q, r, j, n - 1);
    }
  }

  lemma {:induction false} CongruentTimes(m: Poly, p: Poly, q: Poly, r: Poly, n: nat)
    requires Congruent(m, q, r)
    ensures Congruent(m, TimesBelow(p, q, n), TimesBelow(p, r, n))
    decreases n
  {
    hide Congruent, Plus, Shifted;
    CongruentSame(m, {});
    if n > 0 {
      CongruentTimes(m, p, q, r, n - 1);
      CongruentShift(m, q, r, n - 1);
      CongruentPlus(m, TimesBelow(p, q, n - 1), TimesBelow(p, r, n - 1),
                    if n - 1 in p then Shifted(q, n - 1) else {}, if n - 1 in p then Shifted(r, n - 1) else {});
    }
  }

  // ---------- Residues are unique ----------

  /** The multiples that occur an odd number of times. */
  function OddTimes(ks: seq<nat>): Poly
    decreases |ks|
  {
    if |ks| == 0 then {} else Plus(OddTimes(ks[..|ks| - 1]), {ks[|ks| - 1]})
  }

  lemma {:induction false} Bounded(ks: seq<nat>) returns (bound: nat)
    ensures forall i :: 0 <= i < |ks| ==> ks[i] < bound
    decreases |ks|
  {
    if |ks| == 0 {
      bound := 0;
    } else {
      var n := |ks| - 1;
      bound := Bounded(ks[..n]);
      bound := if ks[n] >= bound then ks[n] + 1 else bound;
    }
  }

  lemma {:induction false} MultipleIsTimes(m: Poly, ks: seq<nat>, n: nat)
    requires forall i :: 0 <= i < |ks| ==> ks[i] < n
    ensures Multiple(m, ks) == TimesBelow(OddTimes(ks), m, n)
    decreases |ks|
  {
    if |ks| == 0 {
      EmptyTimes(m, n);
    } else {
      var l := |ks| - 1;
      MultipleIsTimes(m, ks[..l], n);
      hide Plus, Shifted;
      PlusTimes(OddTimes(ks[..l]), {ks[l]}, m, n);
      TimesPower(ks[l], m, n);
    }
  }

  ghost predicate Degree(m: Poly, d: nat) { d in m && Under(m, d + 1) }

  /** A multiple of degree below that of the modulus is zero. */
  lemma {:induction false} SmallTimesZero(p: Poly, m: Poly, d: nat, n: nat)
    requires Degree(m, d) && Under(TimesBelow(p, m, n), d)
    ensures TimesBelow(p, m, n) == {}
    decreases n
  {
    if n > 0 {
      LeadingTerm(p, m, d, n);
      PlusLaws(TimesBelow(p, m, n - 1), {}, {});
      SmallTimesZero(p, m, d, n - 1);
    }
  }

  lemma {:induction false} LeadingTerm(p: Poly, m: Poly, d: nat, n: nat)
    requires n > 0 && Degree(m, d)
    ensures n - 1 in p ==> n - 1 + d in TimesBelow(p, m, n)
  {
    TimesUnder(p, m, d + 1, n - 1);
    ShiftedHas(m, n - 1, n - 1 + d);
  }

  /** Congruent polynomials of degree below that of the modulus are equal. */
  lemma {:induction false} ResidueUnique(m: Poly, d: nat, p: Poly, q: Poly)
    requires Degree(m, d) && Congruent(m, p, q) && Under(p, d) && Under(q, d)
    ensures p == q
  {
    var ks: seq<nat> :| Plus(p, q) == Multiple(m, ks);
    var n := Bounded(ks);
    MultipleIsTimes(m, ks, n);
    SmallTimesZero(OddTimes(ks), m, d, n);
    assert p - q == {} && q - p == {};
  }
}
