/** That pacing sends: exactly when the head of the line leaves, what blocks it for good, and at least how much leaves in
    a window (drain_sender and refill_token_bucket, tight/src/transport.cpp:528-563). */
module PacingProgress {
  import opened Octets
  import opened Pacing

  /** Microseconds since the last refill; a clock that goes back counts as none. */
  function Elapsed(p: Pacer, r: Reading): nat { if r.now <= p.time then 0 else r.now - p.time }

  /** The bucket and what has been earned since the last refill cover this many bytes, and the cap allows them. */
  ghost predicate Affords(p: Pacer, mtu: nat, r: Reading, size: nat) {
    size <= 4 * mtu && size as real <= p.tokens + (r.bps * Elapsed(p, r)) as real / 1000000.0
  }

  lemma AccruedPlain(p: Pacer, r: Reading)
    ensures Accrued(p.time, r) == (r.bps * Elapsed(p, r)) as real / 1000000.0
  {
    if r.now > p.time {
      var d := r.now - p.time;
      assert (r.bps * d) as real == r.bps as real * d as real;
    }
  }

  /** A round sends the first datagram in line exactly when its peer can be reached and the bucket affords it; if only
      the tokens are missing it stays at the head. */
  lemma SentExactly(p: Pacer, mtu: nat, r: Reading)
    requires Bounded(p, mtu) && |Line(p)| > 0
    ensures var x, (q, o) := Line(p)[0], Round(p, mtu, r);
            && (o == Sent(x) <==> x.reachable && Affords(p, mtu, r, |x.datagram|))
            && (o == Dropped(x) <==> !x.reachable)
            && (x.reachable && !Affords(p, mtu, r, |x.datagram|) ==> o == Blocked && Line(q) == Line(p))
  {
    AccruedPlain(p, r);
    HeadOfLine(p);
    RoundKeepsLine(p, mtu, r);
    AccruedSign(p.time, r);
    hide Accrued;
  }

  lemma AccruedSign(time: int, r: Reading)
    ensures Accrued(time, r) >= 0.0 && (r.now <= time ==> Accrued(time, r) == 0.0)
  {
    if r.now > time {
      assert r.bps as real * (r.now - time) as real >= 0.0;
    }
  }

  lemma HeadOfLine(p: Pacer)
    requires |Line(p)| > 0
    ensures Line(p)[0] == if p.pending.Some? then p.pending.value else p.outbound[0]
    ensures p.pending.None? ==> |p.outbound| > 0
  {}

  /** So a datagram of at most four datagram sizes leaves at the first round after its bytes' worth of time. */
  lemma HeadLeaves(p: Pacer, mtu: nat, r: Reading)
    requires Bounded(p, mtu) && |Line(p)| > 0
    requires var x := Line(p)[0]; x.reachable && |x.datagram| <= 4 * mtu && r.bps * Elapsed(p, r) >= 1000000 * |x.datagram|
    ensures Round(p, mtu, r).1 == Sent(Line(p)[0])
  {
    SentExactly(p, mtu, r);
  }

  /** And one of more blocks the line for good: in every run, from a state where it is at the head, nothing is ever
      sent. */
  lemma {:induction false} OversizeBlocks(p: Pacer, c: Setup, evs: seq<Event>, i: nat, j: nat)
    requires i <= j <= |evs| && Bounded(p, c.mtu)
    requires var line := Line(After(p, c, evs, i)); |line| > 0 && line[0].reachable && |line[0].datagram| > 4 * c.mtu
    ensures SentBytes(p, c, evs, i, j) == 0
    ensures var line := Line(After(p, c, evs, j)); |line| > 0 && line[0] == Line(After(p, c, evs, i))[0]
    decreases j
  {
    hide Step, Line, Affords;
    if i < j {
      OversizeBlocks(p, c, evs, i, j - 1);
      RunBounded(p, c, evs, j - 1);
      OversizeStays(After(p, c, evs, j - 1), c, evs[j - 1]);
    }
  }

  lemma OversizeStays(p: Pacer, c: Setup, e: Event)
    requires Bounded(p, c.mtu) && |Line(p)| > 0 && Line(p)[0].reachable && |Line(p)[0].datagram| > 4 * c.mtu
    ensures var (q, o) := Step(p, c, e); Cost(o) == 0 && |Line(q)| > 0 && Line(q)[0] == Line(p)[0]
  {
    match e {
      case Enqueue(x) =>
      case Poll(r) =>
        SentExactly(p, c.mtu, r);
        hide Round, Line;
    }
  }

  // ---------- At least how much is sent ----------

  /** The refill of this event is not cut by the cap, and the rate reading is at least `rate`. */
  ghost predicate FullyCredited(p: Pacer, mtu: nat, e: Event, rate: nat) {
    e.Poll? ==> e.r.bps >= rate && p.tokens + Accrued(p.time, e.r) <= mtu as real * 4.0
  }

  lemma StepGains(p: Pacer, c: Setup, e: Event, rate: nat)
    requires FullyCredited(p, c.mtu, e, rate)
    ensures var (q, o) := Step(p, c, e); Cost(o) as real + q.tokens >= p.tokens + Worth(rate, p.time, q.time)
  {
    WorthLaws(rate, p.time, p.time, p.time);
    if e.Poll? && e.r.now > p.time {
      AccruedAtLeast(p.time, e.r, rate);
    }
    hide Accrued, Worth;
  }

  lemma AccruedAtLeast(time: int, r: Reading, rate: nat)
    requires r.bps >= rate && r.now > time
    ensures Accrued(time, r) >= Worth(rate, time, r.now)
  {
    var d := (r.now - time) as real;
    assert r.bps as real * d >= rate as real * d;
  }

  /** In every window of every run whose refills are not cut by the cap, what is sent and what is left make up at least
      what was there and what the time between the refills is worth. */
  lemma {:induction false} SentAtLeast(p: Pacer, c: Setup, evs: seq<Event>, i: nat, j: nat, rate: nat)
    requires i <= j <= |evs| && forall k :: i <= k < j ==> FullyCredited(After(p, c, evs, k), c.mtu, evs[k], rate)
    ensures var s, t := After(p, c, evs, i), After(p, c, evs, j);
            SentBytes(p, c, evs, i, j) as real + t.tokens >= s.tokens + Worth(rate, s.time, t.time)
    decreases j
  {
    hide Step, Worth, FullyCredited;
    var s := After(p, c, evs, i);
    if i == j {
      WorthLaws(rate, s.time, s.time, s.time);
    } else {
      SentAtLeast(p, c, evs, i, j - 1, rate);
      var q := After(p, c, evs, j - 1);
      StepGains(q, c, evs[j - 1], rate);
      WorthLaws(rate, s.time, q.time, After(p, c, evs, j).time);
    }
  }

  /** If such a window ends with a datagram of `size` bytes still waiting for tokens, fewer than `size` bytes are missing
      from what its time is worth. */
  lemma {:induction false} KeepsUp(p: Pacer, c: Setup, evs: seq<Event>, i: nat, j: nat, rate: nat, size: nat)
    requires i < j <= |evs| && Bounded(p, c.mtu)
    requires forall k :: i <= k < j ==> FullyCredited(After(p, c, evs, k), c.mtu, evs[k], rate)
    requires OutcomeOf(p, c, evs, j - 1) == Blocked && |Line(After(p, c, evs, j))[0].datagram| == size
    ensures After(p, c, evs, j).time >= evs[j - 1].r.now
    ensures SentBytes(p, c, evs, i, j) as real
          > Worth(rate, After(p, c, evs, i).time, After(p, c, evs, j).time) - size as real
  {
    SentAtLeast(p, c, evs, i, j, rate);
    RunBounded(p, c, evs, i);
    BlockedLeaves(After(p, c, evs, j - 1), c, evs[j - 1]);
    hide Step, Worth, FullyCredited, Line;
  }

  lemma BlockedLeaves(p: Pacer, c: Setup, e: Event)
    requires Step(p, c, e).1 == Blocked
    ensures e.Poll? && var q := Step(p, c, e).0;
            |Line(q)| > 0 && q.tokens < |Line(q)[0].datagram| as real && q.time >= e.r.now
  {
    hide Accrued;
  }

  /** The cap does not cut the next refill if no more is earned until then than it leaves above a waiting datagram: so
      frequent rounds keep up with the rate. */
  lemma FrequentRoundsCredited(p: Pacer, c: Setup, e: Event, next: Reading, rate: nat)
    requires Step(p, c, e).1 == Blocked && next.bps >= rate
    requires var q := Step(p, c, e).0;
             next.bps * Elapsed(q, next) + 1000000 * |Line(q)[0].datagram| <= 1000000 * (4 * c.mtu)
    ensures FullyCredited(Step(p, c, e).0, c.mtu, Poll(next), rate)
  {
    var q := Step(p, c, e).0;
    BlockedLeaves(p, c, e);
    AccruedPlain(q, next);
    hide Step, Accrued, Line;
  }
}
