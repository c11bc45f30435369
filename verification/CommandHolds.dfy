/** How long a command that came early is held. tight/src/command.hpp:8 and tight/src/peer.hpp:96 promise at most three
    round trips; that is so exactly when no gap lies between it and the first held command and no expiry has
    restarted the wait since it was held. */
module CommandHolds {
  import opened Octets
  import opened SequenceNumbers
  import opened CommandChannel
  import opened CommandRuns
  import opened CommandGaps

  /** Every number from the first held one to k is held. */
  ghost predicate FollowsFront(held: map<nat, Bytes>, k: nat) {
    held != map[] && forall m :: Least(held.Keys) <= m <= k ==> m in held
  }

  /** Draining hands out a command exactly when all numbers up to it are held. */
  lemma {:induction false} DrainReaches(next: nat, held: map<nat, Bytes>, k: nat)
    requires next <= k
    ensures k in AsMap(Drain(next, held).2) <==> forall m :: next <= m <= k ==> m in held
  {
    DrainNumbers(next, held);
    DrainContents(next, held);
    hide Drain, AsMap;
    var (n, rest, out) := Drain(next, held);
    AsMapKeys(out, n);
    AsMapKeys(out, k);
    if k < n {
      forall m | next <= m <= k ensures m in held {
        AsMapBlock(out, next, m);
      }
      AsMapBlock(out, next, k);
    } else {
      assert n !in held;
    }
  }

  /** An expiry check hands out a held command exactly when the wait is over and no gap lies before it in the
      buffer. */
  lemma ReleasedExactly(c: Channel, rttUs: nat, now: int, k: nat)
    requires k in c.held
    ensures k in AsMap(Expire(c, rttUs, now).1) <==> Expired(c, rttUs, now) && FollowsFront(c.held, k)
  {
    hide Drain, AsMap;
    assert c.held != map[];
    if Expired(c, rttUs, now) {
      DrainReaches(Least(c.held.Keys), c.held, k);
    } else {
      NothingOut(k);
    }
  }

  lemma NothingOut(k: nat)
    ensures k !in AsMap([])
  {}

  /** From this state on, every expiry check that finds the command held for three round trips hands it out. */
  ghost predicate ReleasedOnTime(h: History, k: nat, heldAt: int) {
    forall rttUs: nat, now: int :: now >= h.clock && now - heldAt >= Wait(rttUs) ==> k in AsMap(Expire(h.c, rttUs, now).1)
  }

  lemma OnTimeIff(h: History, k: nat, heldAt: int)
    requires k in h.c.held && h.c.gapSince <= h.clock && heldAt <= h.clock
    ensures ReleasedOnTime(h, k, heldAt) <==> h.c.gapSince <= heldAt && FollowsFront(h.c.held, k)
  {
    hide Expire, AsMap, FollowsFront;
    var c := h.c;
    assert c.held != map[];
    if c.gapSince <= heldAt && FollowsFront(c.held, k) {
      forall rttUs: nat, now: int | now >= h.clock && now - heldAt >= Wait(rttUs)
        ensures k in AsMap(Expire(c, rttUs, now).1)
      {
        ReleasedExactly(c, rttUs, now, k);
      }
    } else {
      var rttUs: nat := if h.clock > heldAt then h.clock - heldAt else 1;
      var now := heldAt + Wait(rttUs);
      ReleasedExactly(c, rttUs, now, k);
      assert now >= h.clock && now - heldAt >= Wait(rttUs) && k !in AsMap(Expire(c, rttUs, now).1);
    }
  }

  /** The event since which the command has been held. */
  ghost function HeldFrom(evs: seq<Event>, n: nat, k: nat): (i: nat)
    requires n <= |evs| && k in After(evs, n).c.held
    ensures i < n
    decreases n
  {
    assert n > 0;
    if k in After(evs, n - 1).c.held then HeldFrom(evs, n - 1, k) else n - 1
  }

  /** No expiry has restarted the wait at a later clock reading than that of event i. */
  ghost predicate NotRestarted(evs: seq<Event>, i: nat, n: nat)
    requires i < n <= |evs|
  {
    forall j :: i <= j < n && Skips(After(evs, j).c, evs[j]) ==> evs[j].now == evs[i].now
  }

  lemma {:induction false} WaitWhileHeld(evs: seq<Event>, n: nat, k: nat)
    requires n <= |evs| && ClockMonotone(evs) && (|evs| > 0 ==> evs[0].now >= 0) && k in After(evs, n).c.held
    ensures var i := HeldFrom(evs, n, k); After(evs, n).c.gapSince <= evs[i].now <==> NotRestarted(evs, i, n)
    decreases n
  {
    hide After, Good, Skips, StepOf, HeldAhead, NotRestarted;
    var i := HeldFrom(evs, n, k);
    var h := After(evs, n - 1);
    LastStep(evs, n);
    assert After(evs, n).c.held != map[];
    StepWait(h.c, evs[n - 1]);
    RestartStep(evs, i, n);
    RunTimed(evs, n - 1);
    ClockAt(evs, i, n - 1);
    if k in h.c.held {
      assert h.c.held != map[];
      WaitWhileHeld(evs, n - 1, k);
    } else {
      ClockBefore(evs, n);
    }
  }

  lemma ClockBefore(evs: seq<Event>, n: nat)
    requires 0 < n <= |evs| && ClockMonotone(evs) && evs[0].now >= 0
    ensures (if n == 1 then 0 else evs[n - 2].now) <= evs[n - 1].now
  {}

  lemma {:induction false} RestartStep(evs: seq<Event>, i: nat, n: nat)
    requires i < n <= |evs| && ClockMonotone(evs)
    ensures NotRestarted(evs, i, n) <==>
            (i < n - 1 ==> NotRestarted(evs, i, n - 1)) && (Skips(After(evs, n - 1).c, evs[n - 1]) ==> evs[n - 1].now == evs[i].now)
    ensures i < n - 1 && evs[n - 1].now == evs[i].now ==> NotRestarted(evs, i, n - 1)
  {
    hide After, Skips;
  }

  /** In every run, for every held command: it is sure to come out at the first expiry check that finds it held for
      three round trips if and only if all numbers from the first held one to it are held, and no expiry has restarted
      the wait at a later clock reading than the one at which it was held. */
  lemma {:induction false} HeldAtMostExactly(evs: seq<Event>, n: nat, k: nat)
    requires n <= |evs| && ClockMonotone(evs) && (|evs| > 0 ==> evs[0].now >= 0) && k in After(evs, n).c.held
    ensures var i := HeldFrom(evs, n, k);
            ReleasedOnTime(After(evs, n), k, evs[i].now) <==> FollowsFront(After(evs, n).c.held, k) && NotRestarted(evs, i, n)
  {
    hide FollowsFront, NotRestarted, ReleasedOnTime;
    var i := HeldFrom(evs, n, k);
    RunTimed(evs, n);
    WaitWhileHeld(evs, n, k);
    ClockAt(evs, i, n - 1);
    assert After(evs, n).c.held != map[];
    OnTimeIff(After(evs, n), k, evs[i].now);
  }

  /** Behind a second gap a command is held for twice as long: 5 is held from 0, and the check at 59.999 ms, with a
      round trip of 10 ms, still leaves it. */
  lemma {:induction false} SecondGapHeldLonger(p: Bytes, evs: seq<Event>)
    requires evs == [Arrive(1, p, 10000, 0), Arrive(3, p, 10000, 0), Arrive(5, p, 10000, 0), Flush(10000, 30000), Flush(10000, 59999)]
    ensures ClockMonotone(evs) && 5 in After(evs, 5).c.held && HeldFrom(evs, 5, 5) == 2
    ensures evs[4].now - evs[2].now >= Wait(evs[4].rttUs)
  {
    ThreeHeld(p, evs);
    hide Drain;
    var c := After(evs, 3).c;
    assert c.held.Keys == {3, 5};
    assert Least({3, 5}) == 3;
    DrainThree(p);
    assert After(evs, 4) == Step(After(evs, 3), evs[3]);
    assert After(evs, 4).c == Channel(true, 4, map[5 := p], 30000);
    assert After(evs, 5) == Step(After(evs, 4), evs[4]);
    assert After(evs, 5).c == After(evs, 4).c;
    assert HeldFrom(evs, 4, 5) == HeldFrom(evs, 3, 5) == 2;
  }

  lemma DrainThree(p: Bytes)
    ensures Drain(3, map[3 := p, 5 := p]) == (4, map[5 := p], [Command(3, p)])
  {
    var held := map[3 := p, 5 := p];
    assert held - {3} == map[5 := p];
    DrainOnce(3, held);
    DrainOnce(4, held - {3});
    hide Drain;
    assert [Command(3, p)] + [] == [Command(3, p)];
  }

  lemma {:induction false} ThreeHeld(p: Bytes, evs: seq<Event>)
    requires |evs| == 5 && evs[..3] == [Arrive(1, p, 10000, 0), Arrive(3, p, 10000, 0), Arrive(5, p, 10000, 0)]
    ensures After(evs, 2).c == Channel(true, 2, map[3 := p], 0)
    ensures After(evs, 3).c == Channel(true, 2, map[3 := p, 5 := p], 0)
  {
    assert evs[0] == evs[..3][0] && evs[1] == evs[..3][1] && evs[2] == evs[..3][2];
    EmptyDrain(2);
    assert After(evs, 1) == Step(After(evs, 0), evs[0]);
    assert After(evs, 1).c == Channel(true, 2, map[], 0);
    assert After(evs, 2) == Step(After(evs, 1), evs[1]);
    assert After(evs, 3) == Step(After(evs, 2), evs[2]);
    assert map[3 := p][5 := p] == map[3 := p, 5 := p];
  }

  // ---------- What an arrival delivers ----------

  /** An arrival hands out its own command exactly when it is the first of the channel, or the expected one, or comes
      early and is released at once because the wait is over and no gap lies before it in the buffer. */
  lemma DeliveredOnArrivalExactly(c: Channel, e: Event)
    requires HeldAhead(c) && e.Arrive? && e.number > 0
    ensures e.number in AsMap(StepOf(c, e).1) <==>
            || !c.initialized
            || e.number == c.next
            || (e.number > c.next && Expired(Waiting(c, e), e.rttUs, e.now) && FollowsFront(Waiting(c, e).held, e.number))
  {
    hide Drain, AsMap, Expired, FollowsFront;
    var c0 := if c.initialized then c else c.(initialized := true, next := e.number);
    if e.number == c0.next {
      var one := Command(e.number, e.payload);
      AsMapConcat([one], Drain(e.number + 1, c0.held).2);
      AsMapOne(one);
    } else if e.number > c0.next {
      hide Expire;
      ReleasedExactly(Waiting(c, e), e.rttUs, e.now, e.number);
    } else {
      NothingOut(e.number);
    }
  }

  predicate Numbered(e: Event) { e.Arrive? && e.number > 0 }

  /** In every run the first numbered command is delivered by its own arrival, whatever its number, and the channel
      goes on from there. */
  lemma {:induction false} FirstDeliveredAtOnce(evs: seq<Event>, n: nat)
    requires n < |evs| && Numbered(evs[n]) && forall i :: 0 <= i < n ==> !Numbered(evs[i])
    ensures var h := After(evs, n + 1);
            && After(evs, n).delivered == []
            && h.delivered == [Command(evs[n].number, evs[n].payload)]
            && h.c.initialized && h.c.next == evs[n].number + 1 && h.c.held == map[]
  {
    UnnumberedNothing(evs, n);
    EmptyDrain(evs[n].number + 1);
    assert After(evs, n + 1) == Step(After(evs, n), evs[n]);
    hide Drain, After;
  }

  lemma {:induction false} UnnumberedNothing(evs: seq<Event>, n: nat)
    requires n <= |evs| && forall i :: 0 <= i < n ==> !Numbered(evs[i])
    ensures After(evs, n).c == FreshChannel && After(evs, n).delivered == []
    decreases n
  {
    if n > 0 {
      UnnumberedNothing(evs, n - 1);
      assert !Numbered(evs[n - 1]);
    }
  }
}
