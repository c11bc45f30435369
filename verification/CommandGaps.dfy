/** When a gap in the command numbers is given a window of three round trips of its own, as docs/architecture.md:143
    says of consecutive gaps: exactly when the wait of the hold buffer has been started since the gap opened. */
module CommandGaps {
  import opened Octets
  import opened CommandChannel
  import opened CommandRuns

  /** The number is awaited: it is not held and a later one is. */
  ghost predicate GapOpen(c: Channel, g: nat) {
    c.initialized && c.next <= g && g !in c.held && exists k :: k in c.held && k > g
  }

  /** The event that opened the gap: the first one after which it has been open all along. */
  ghost function Opening(evs: seq<Event>, n: nat, g: nat): (i: nat)
    requires n <= |evs| && GapOpen(After(evs, n).c, g)
    ensures i < n
    decreases n
  {
    assert n > 0;
    if GapOpen(After(evs, n - 1).c, g) then Opening(evs, n - 1, g) else n - 1
  }

  /** A step that leaves commands held starts the wait again if it skips or if nothing was held before, and
      otherwise leaves it running. */
  lemma StepWait(c: Channel, e: Event)
    requires HeldAhead(c) && StepOf(c, e).0.held != map[]
    ensures StepOf(c, e).0.gapSince == if Skips(c, e) || c.held == map[] then e.now else c.gapSince
  {
    hide Drain;
    if e.Arrive? && c.held == map[] {
      EmptyDrain(e.number + 1);
    }
  }

  /** The wait has been started since event i: the buffer was empty before it, or an expiry came at or after it. */
  ghost predicate Restarted(evs: seq<Event>, i: nat, n: nat)
    requires i <= n <= |evs|
  {
    After(evs, i).c.held == map[] || exists j :: i <= j < n && Skips(After(evs, j).c, evs[j])
  }

  lemma {:induction false} WaitOf(evs: seq<Event>, n: nat, g: nat)
    requires n <= |evs| && ClockMonotone(evs) && GapOpen(After(evs, n).c, g)
    ensures var i := Opening(evs, n, g);
            if Restarted(evs, i, n) then After(evs, n).c.gapSince >= evs[i].now
            else After(evs, n).c.gapSince == After(evs, i).c.gapSince
    decreases n
  {
    hide After, Good, Skips, StepOf, HeldAhead, GapOpen, ClockMonotone, Restarted;
    var i := Opening(evs, n, g);
    var c := After(evs, n - 1).c;
    LastStep(evs, n);
    OpenHolds(After(evs, n).c, g);
    ClockAt(evs, i, n - 1);
    StepWait(c, evs[n - 1]);
    RestartedLater(evs, i, n);
    if GapOpen(c, g) {
      OpenHolds(c, g);
      WaitOf(evs, n - 1, g);
    }
  }

  lemma {:induction false} LastStep(evs: seq<Event>, n: nat)
    requires 0 < n <= |evs|
    ensures HeldAhead(After(evs, n - 1).c) && After(evs, n).c == StepOf(After(evs, n - 1).c, evs[n - 1]).0
  {
    hide StepOf, HeldAhead;
    RunGood(evs, n - 1);
  }

  lemma ClockAt(evs: seq<Event>, i: nat, j: nat)
    requires ClockMonotone(evs) && i <= j < |evs|
    ensures evs[i].now <= evs[j].now
  {}

  lemma OpenHolds(c: Channel, g: nat)
    requires GapOpen(c, g)
    ensures c.held != map[]
  {}

  lemma {:induction false} RestartedLater(evs: seq<Event>, i: nat, n: nat)
    requires i < n <= |evs|
    ensures Restarted(evs, i, n) <==>
            (if i < n - 1 then Restarted(evs, i, n - 1) else After(evs, i).c.held == map[]) || Skips(After(evs, n - 1).c, evs[n - 1])
  {
    hide After, Skips;
  }

  /** From this state on, the number is passed only when its gap has been open for three round trips. */
  ghost predicate FullWait(h: History, g: nat, openedAt: int) {
    forall e: Event :: e.now >= h.clock && PassesOver(h.c, e, g) ==> e.now - openedAt >= Wait(e.rttUs)
  }

  lemma FullWaitIff(h: History, g: nat, openedAt: int)
    requires HeldAhead(h.c) && h.c.held != map[] && h.c.gapSince <= h.clock
    requires h.c.initialized && h.c.next <= g && forall k :: k in h.c.held ==> g < k
    ensures FullWait(h, g, openedAt) <==> h.c.gapSince >= openedAt
  {
    var c := h.c;
    if c.gapSince >= openedAt {
      forall e: Event | e.now >= h.clock && PassesOver(c, e, g) ensures e.now - openedAt >= Wait(e.rttUs) {
        PassedExactly(c, e, g);
        hide PassesOver;
      }
    } else {
      var rtt: nat := if h.clock > c.gapSince then h.clock - c.gapSince else 1;
      var e := Flush(rtt, c.gapSince + Wait(rtt));
      assert exists k :: k in c.held;
      PassedExactly(c, e, g);
      hide PassesOver;
      assert e.now >= h.clock && PassesOver(c, e, g);
    }
  }

  /** In every run, for a number awaited at the front of the buffer: it is sure of three round trips from the
      event that opened its gap if and only if at that event the buffer was empty, or the wait then running had
      been started at the same clock reading, or an expiry has restarted the wait at that event or since. */
  lemma {:induction false} GapFullyAwaitedExactly(evs: seq<Event>, n: nat, g: nat)
    requires n <= |evs| && ClockMonotone(evs) && (|evs| > 0 ==> evs[0].now >= 0)
    requires GapOpen(After(evs, n).c, g) && forall k :: k in After(evs, n).c.held ==> g < k
    ensures var i := Opening(evs, n, g);
            FullWait(After(evs, n), g, evs[i].now)
            <==> Restarted(evs, i, n) || After(evs, i).c.gapSince == evs[i].now
  {
    var i := Opening(evs, n, g);
    var h := After(evs, n);
    RunGood(evs, n);
    RunTimed(evs, n);
    RunTimed(evs, i);
    RunGood(evs, i);
    WaitOf(evs, n, g);
    assert h.c.gapSince <= h.clock;
    FullWaitIff(h, g, evs[i].now);
    if !Restarted(evs, i, n) {
      assert After(evs, i).c.held != map[];
      assert After(evs, i).c.gapSince <= After(evs, i).clock <= evs[i].now;
    }
  }
}
