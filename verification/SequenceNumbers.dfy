/** Packet and command numbers, and ordered sets of them. */
module SequenceNumbers {

  /** The largest 32-bit number. The source has no wrap-around handling, so runs stay below it. */
  const MAX_SEQ: nat := 0xFFFF_FFFF

  /** The least element, which is where iteration over an ordered container starts. */
  lemma {:induction false} LeastExists(s: set<nat>, bound: nat)
    requires exists x :: x in s && x <= bound
    ensures exists g :: g in s && forall h :: h in s ==> g <= h
    decreases bound
  {
    if exists x :: x in s && x < bound {
      LeastExists(s, bound - 1);
    } else {
      assert bound in s;
    }
  }

  function Least(s: set<nat>): (g: nat)
    requires s != {}
    ensures g in s && forall h :: h in s ==> g <= h
  {
    assert exists g :: g in s && forall h :: h in s ==> g <= h by {
      var x :| x in s;
      LeastExists(s, x);
    }
    var g :| g in s && forall h :: h in s ==> g <= h;
    g
  }
}
