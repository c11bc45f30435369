/** Pacing of outgoing datagrams: drain_sender and refill_token_bucket of tight/src/transport.cpp.

    Clock and bandwidth readings are inputs; amounts are real numbers, times microseconds. */
module Pacing {
  import opened Octets

  /** A queued datagram, and whether its peer can be reached when its turn comes. */
  datatype Outgoing = Outgoing(datagram: Bytes, reachable: bool)

  datatype Pacer = Pacer(tokens: real, time: int, pending: Option<Outgoing>, outbound: seq<Outgoing>)

  datatype Reading = Reading(now: int, bps: nat)

  /** Four datagram sizes are the most that can be saved up; queue limit 0 means unbounded. */
  datatype Setup = Setup(mtu: nat, queueLimit: nat)

  datatype Outcome = Idle | Blocked | Dropped(p: Outgoing) | Sent(p: Outgoing) | Queued(p: Outgoing) | Refused

  /** Tokens that the elapsed time is worth. */
  function Accrued(time: int, r: Reading): real {
    if r.now <= time then 0.0 else r.bps as real * (r.now - time) as real / 1000000.0
  }

  function Refilled(p: Pacer, mtu: nat, r: Reading): Pacer {
    if r.now <= p.time then p
    else
      var t := p.tokens + Accrued(p.time, r);
      var cap := mtu as real * 4.0;
      p.(tokens := if t > cap then cap else t, time := r.now)
  }

  /** One round of the draining loop. */
  function Round(p: Pacer, mtu: nat, r: Reading): (Pacer, Outcome) {
    if p.pending.None? && |p.outbound| == 0 then (p, Idle)
    else
      var q := if p.pending.Some? then p else p.(pending := Some(p.outbound[0]), outbound := p.outbound[1..]);
      var x := q.pending.value;
      if !x.reachable then (q.(pending := None), Dropped(x))
      else
        var f := Refilled(q, mtu, r);
        var cost := |x.datagram| as real;
        if f.tokens < cost then (f, Blocked) else (f.(tokens := f.tokens - cost, pending := None), Sent(x))
  }

  /** Queueing a datagram: refused only when the queue is full. */
  function Push(p: Pacer, limit: nat, x: Outgoing): (Pacer, Outcome) {
    if limit > 0 && |p.outbound| >= limit then (p, Refused) else (p.(outbound := p.outbound + [x]), Queued(x))
  }

  // ---------- Runs ----------

  /** Datagrams are queued at any time, between and during the draining rounds. */
  datatype Event = Enqueue(x: Outgoing) | Poll(r: Reading)

  function Step(p: Pacer, c: Setup, e: Event): (Pacer, Outcome) {
    match e
    case Enqueue(x) => Push(p, c.queueLimit, x)
    case Poll(r) => Round(p, c.mtu, r)
  }

  function After(p: Pacer, c: Setup, evs: seq<Event>, n: nat): Pacer
    requires n <= |evs|
    decreases n
  {
    if n == 0 then p else Step(After(p, c, evs, n - 1), c, evs[n - 1]).0
  }

  function OutcomeOf(p: Pacer, c: Setup, evs: seq<Event>, k: nat): Outcome
    requires k < |evs|
  {
    Step(After(p, c, evs, k), c, evs[k]).1
  }

  function Cost(o: Outcome): nat { match o case Sent(x) => |x.datagram| case _ => 0 }

  /** Bytes sent by the events i, ..., j-1. */
  function SentBytes(p: Pacer, c: Setup, evs: seq<Event>, i: nat, j: nat): nat
    requires i <= j <= |evs|
    decreases j
  {
    if i == j then 0 else SentBytes(p, c, evs, i, j - 1) + Cost(OutcomeOf(p, c, evs, j - 1))
  }

  function Leaving(o: Outcome): seq<Outgoing> { match o case Sent(x) => [x] case Dropped(x) => [x] case _ => [] }

  function Entering(o: Outcome): seq<Outgoing> { match o case Queued(x) => [x] case _ => [] }

  /** The datagrams that have left the queue in the first n events, sent or dropped. */
  function Finished(p: Pacer, c: Setup, evs: seq<Event>, n: nat): seq<Outgoing>
    requires n <= |evs|
    decreases n
  {
    if n == 0 then [] else Finished(p, c, evs, n - 1) + Leaving(OutcomeOf(p, c, evs, n - 1))
  }

  /** The datagrams that were accepted into the queue in the first n events. */
  function Accepted(p: Pacer, c: Setup, evs: seq<Event>, n: nat): seq<Outgoing>
    requires n <= |evs|
    decreases n
  {
    if n == 0 then [] else Accepted(p, c, evs, n - 1) + Entering(OutcomeOf(p, c, evs, n - 1))
  }

  function Line(p: Pacer): seq<Outgoing> { (if p.pending.Some? then [p.pending.value] else []) + p.outbound }

  ghost predicate Bounded(p: Pacer, mtu: nat) { 0.0 <= p.tokens <= mtu as real * 4.0 }

  /** What a stretch of time is worth at a fixed rate. */
  function Worth(limit: nat, from: int, to: int): real { limit as real * (to - from) as real / 1000000.0 }

  lemma WorthLaws(limit: nat, from: int, mid: int, to: int)
    ensures Worth(limit, from, from) == 0.0
    ensures Worth(limit, from, mid) + Worth(limit, mid, to) == Worth(limit, from, to)
  {
    assert (mid - from) as real + (to - mid) as real == (to - from) as real;
  }

  lemma AccruedWorth(time: int, r: Reading, limit: nat)
    requires r.bps <= limit && r.now > time
    ensures 0.0 <= Accrued(time, r) <= Worth(limit, time, r.now)
  {
    var d := (r.now - time) as real;
    assert 0.0 <= r.bps as real * d <= limit as real * d;
  }

  /** The rate reading of a round is within the limit. */
  predicate RateWithin(e: Event, limit: nat) { e.Poll? ==> e.r.bps <= limit }

  /** One event spends no more than the bucket held and earned, and leaves it within bounds. */
  lemma StepBalance(p: Pacer, c: Setup, e: Event, limit: nat)
    requires Bounded(p, c.mtu) && RateWithin(e, limit)
    ensures var (q, o) := Step(p, c, e);
            Bounded(q, c.mtu) && q.time >= p.time && Cost(o) as real + q.tokens <= p.tokens + Worth(limit, p.time, q.time)
  {
    WorthLaws(limit, p.time, p.time, p.time);
    if e.Poll? && e.r.now > p.time {
      AccruedWorth(p.time, e.r, limit);
    }
    hide Accrued, Worth;
  }

  lemma {:induction false} RunBounded(p: Pacer, c: Setup, evs: seq<Event>, n: nat)
    requires n <= |evs| && Bounded(p, c.mtu)
    ensures Bounded(After(p, c, evs, n), c.mtu)
    decreases n
  {
    hide Step, Bounded;
    if n > 0 {
      RunBounded(p, c, evs, n - 1);
      StepBalance(After(p, c, evs, n - 1), c, evs[n - 1], if evs[n - 1].Poll? then evs[n - 1].r.bps else 0);
    }
  }

  /** Every clock reading in the window lies between the two times, and every rate reading within the limit. */
  ghost predicate ReadsWithin(evs: seq<Event>, i: nat, j: nat, from: int, to: int, limit: nat)
    requires i <= j <= |evs|
  {
    forall k :: i <= k < j ==> RateWithin(evs[k], limit) && (evs[k].Poll? ==> from <= evs[k].r.now <= to)
  }

  /** What the window has earned when the bucket was last refilled at `time`; nothing before the window counts. */
  function Earned(limit: nat, from: int, to: int, time: int): real { Worth(limit, from, if time < to then time else to) }

  lemma EarnedLaws(limit: nat, from: int, to: int, time: int, later: int)
    requires from <= time <= later && from <= to
    ensures Earned(limit, from, to, time) >= 0.0
    ensures later <= to ==> Earned(limit, from, to, later) == Earned(limit, from, to, time) + Worth(limit, time, later)
  {
    WorthLaws(limit, from, time, later);
    var end := if time < to then time else to;
    assert limit as real * (end - from) as real >= 0.0;
  }

  /** A round that sends has refilled, so the bucket's time is at least its reading; an earlier refill time means
      that nothing was sent. */
  lemma SendsAfterRefill(p: Pacer, c: Setup, e: Event, from: int, to: int)
    requires e.Poll? ==> from <= e.r.now <= to
    ensures var (q, o) := Step(p, c, e);
            && q.time >= p.time
            && (q.time < from ==> Cost(o) == 0)
            && (q.time != p.time ==> from <= q.time <= to)
  {
    hide Accrued;
  }

  /** While the bucket has not been refilled in the window, nothing has been sent in it; then bytes sent and
      tokens left are covered by a full bucket and what the window has earned. */
  lemma {:induction false} SentBalance(p: Pacer, c: Setup, evs: seq<Event>, i: nat, j: nat, from: int, to: int, limit: nat)
    requires i <= j <= |evs| && from <= to && Bounded(p, c.mtu) && ReadsWithin(evs, i, j, from, to, limit)
    ensures var t, sent := After(p, c, evs, j), SentBytes(p, c, evs, i, j);
            if t.time < from then sent == 0
            else sent as real + t.tokens <= c.mtu as real * 4.0 + Earned(limit, from, to, t.time)
    decreases j
  {
    hide Step, Worth, Earned, RateWithin;
    RunBounded(p, c, evs, j);
    var t := After(p, c, evs, j);
    if t.time >= from {
      EarnedLaws(limit, from, to, t.time, t.time);
    }
    if i < j {
      SentBalance(p, c, evs, i, j - 1, from, to, limit);
      RunBounded(p, c, evs, j - 1);
      var q := After(p, c, evs, j - 1);
      StepBalance(q, c, evs[j - 1], limit);
      SendsAfterRefill(q, c, evs[j - 1], from, to);
      StepFromFull(q, c, evs[j - 1]);
      WorthLaws(limit, q.time, q.time, q.time);
      if q.time >= from {
        EarnedLaws(limit, from, to, q.time, t.time);
      }
    }
  }

  /** Whatever the bucket earned before, one event spends and keeps no more than a full bucket. */
  lemma StepFromFull(p: Pacer, c: Setup, e: Event)
    requires Bounded(p, c.mtu)
    ensures var (q, o) := Step(p, c, e); Cost(o) as real + q.tokens <= c.mtu as real * 4.0
  {
    hide Accrued;
  }

  /** In every window of every run, with datagrams queued at any time and after any idle stretch: if the clock reads
      between two times in the window, no more is sent than four datagram sizes and what that time is worth. */
  lemma {:induction false} SentBound(p: Pacer, c: Setup, evs: seq<Event>, i: nat, j: nat, from: int, to: int, limit: nat)
    requires i <= j <= |evs| && from <= to && Bounded(p, c.mtu) && ReadsWithin(evs, i, j, from, to, limit)
    ensures SentBytes(p, c, evs, i, j) as real <= c.mtu as real * 4.0 + Worth(limit, from, to)
  {
    SentBalance(p, c, evs, i, j, from, to, limit);
    RunBounded(p, c, evs, j);
    var t := After(p, c, evs, j);
    assert limit as real * (to - from) as real >= 0.0;
    if from <= t.time <= to {
      WorthLaws(limit, from, t.time, to);
      assert limit as real * (to - t.time) as real >= 0.0;
    }
  }

  /** An idle stretch saves up nothing beyond the full bucket: at one clock reading at most four datagram sizes. */
  lemma {:induction false} BurstBound(p: Pacer, c: Setup, evs: seq<Event>, i: nat, j: nat, now: int)
    requires i <= j <= |evs| && Bounded(p, c.mtu) && forall k :: i <= k < j && evs[k].Poll? ==> evs[k].r.now == now
    ensures SentBytes(p, c, evs, i, j) <= c.mtu * 4
  {
    var limit := HighestRate(evs, i, j);
    SentBound(p, c, evs, i, j, now, now, limit);
    WorthLaws(limit, now, now, now);
  }

  /** A rate that no reading of the window exceeds. */
  ghost function HighestRate(evs: seq<Event>, i: nat, j: nat): (limit: nat)
    requires i <= j <= |evs|
    ensures forall k :: i <= k < j ==> RateWithin(evs[k], limit)
    decreases j
  {
    if i == j then 0
    else
      var m := HighestRate(evs, i, j - 1);
      if evs[j - 1].Poll? && evs[j - 1].r.bps > m then evs[j - 1].r.bps else m
  }

  /** Datagrams leave in the order they were queued, each once: what has left and what is in line make up what
      was in line at the start and everything accepted since. */
  lemma {:induction false} NothingLost(p: Pacer, c: Setup, evs: seq<Event>, n: nat)
    requires n <= |evs|
    ensures Finished(p, c, evs, n) + Line(After(p, c, evs, n)) == Line(p) + Accepted(p, c, evs, n)
    decreases n
  {
    hide Step, Line, Leaving, Entering;
    if n == 0 {
      assert [] + Line(p) == Line(p) + [];
    } else {
      NothingLost(p, c, evs, n - 1);
      var q, o := After(p, c, evs, n - 1), OutcomeOf(p, c, evs, n - 1);
      StepKeepsLine(q, c, evs[n - 1]);
      Regroup(Finished(p, c, evs, n - 1), Line(q), Leaving(o), Line(After(p, c, evs, n)), Line(p),
              Accepted(p, c, evs, n - 1), Entering(o));
    }
  }

  lemma Regroup<T>(done: seq<T>, line: seq<T>, left: seq<T>, rest: seq<T>, start: seq<T>, taken: seq<T>, more: seq<T>)
    requires done + line == start + taken && line + more == left + rest
    ensures (done + left) + rest == start + (taken + more)
  {
    calc {
      (done + left) + rest;
      done + (left + rest);
      done + (line + more);
      (done + line) + more;
      (start + taken) + more;
      start + (taken + more);
    }
  }

  lemma StepKeepsLine(p: Pacer, c: Setup, e: Event)
    ensures var (q, o) := Step(p, c, e); Line(p) + Entering(o) == Leaving(o) + Line(q)
  {
    match e {
      case Enqueue(x) =>
        var front := if p.pending.Some? then [p.pending.value] else [];
        assert (front + p.outbound) + [x] == front + (p.outbound + [x]);
      case Poll(r) => RoundKeepsLine(p, c.mtu, r);
    }
  }

  lemma RoundKeepsLine(p: Pacer, mtu: nat, r: Reading)
    ensures var (q, o) := Round(p, mtu, r); Line(p) == Leaving(o) + Line(q) && Entering(o) == []
  {
    hide Accrued;
    if p.pending.None? && |p.outbound| > 0 {
      assert p.outbound == [p.outbound[0]] + p.outbound[1..];
    }
  }

  // ---------- The transport's fields ----------

  /** The rounds of one call, as events. */
  function Polls(rs: seq<Reading>): (evs: seq<Event>)
    ensures |evs| == |rs| && forall i :: 0 <= i < |rs| ==> evs[i] == Poll(rs[i])
  {
    seq(|rs|, i requires 0 <= i < |rs| => Poll(rs[i]))
  }

  /** The datagrams sent in the first n events. */
  function Datagrams(p: Pacer, c: Setup, evs: seq<Event>, n: nat): seq<Bytes>
    requires n <= |evs|
    decreases n
  {
    if n == 0 then []
    else Datagrams(p, c, evs, n - 1) + match OutcomeOf(p, c, evs, n - 1) case Sent(x) => [x.datagram] case _ => []
  }

  class Sender {
    const c: Setup
    var tokens: real
    var time: int
    var pending: Option<Outgoing>
    var outbound: seq<Outgoing>

    ghost function State(): Pacer
      reads this
    {
      Pacer(tokens, time, pending, outbound)
    }

    constructor (c: Setup, now: int)
      ensures State() == Pacer(0.0, now, None, []) && this.c == c && Bounded(State(), c.mtu)
    {
      this.c := c;
      tokens := 0.0;
      time := now;
      pending := None;
      outbound := [];
    }

    /** Queues a datagram for a peer that can be reached now; the queue refuses when it is full. */
    method SendRaw(x: Outgoing, reachableNow: bool)
      modifies `outbound
      ensures State() == if reachableNow then Step(old(State()), c, Enqueue(x)).0 else old(State())
    {
      if !reachableNow {
        return;
      }
      if c.queueLimit == 0 || |outbound| < c.queueLimit {
        outbound := outbound + [x];
      }
    }

    method Refill(r: Reading)
      modifies `tokens, `time
      ensures State() == Refilled(old(State()), c.mtu, r)
    {
      var elapsed := r.now - time;
      if elapsed <= 0 {
        return;
      }
      tokens := tokens + r.bps as real * elapsed as real / 1000000.0;
      var cap := c.mtu as real * 4.0;
      if tokens > cap {
        tokens := cap;
      }
      time := r.now;
    }

    /** Sends what the tokens allow, at most 64 datagrams a call; n counts the rounds that were made. */
    method DrainSender(rs: seq<Reading>) returns (sent: seq<Bytes>, n: nat)
      requires |rs| == 64
      modifies this
      ensures n <= 64 && State() == After(old(State()), c, Polls(rs), n)
      ensures sent == Datagrams(old(State()), c, Polls(rs), n)
      ensures n < 64 ==> n > 0 && var o := OutcomeOf(old(State()), c, Polls(rs), n - 1); o.Idle? || o.Blocked?
    {
      hide Accrued;
      ghost var evs := Polls(rs);
      sent, n := [], 0;
      while n < 64
        invariant n <= 64 && State() == After(old(State()), c, evs, n)
        invariant sent == Datagrams(old(State()), c, evs, n)
      {
        assert evs[n] == Poll(rs[n]);
        var r := rs[n];
        n := n + 1;
        if pending.None? {
          if |outbound| == 0 {
            return;
          }
          pending, outbound := Some(outbound[0]), outbound[1..];
        }
        var p := pending.value;
        if !p.reachable {
          pending := None;
          continue;
        }
        var cost := |p.datagram| as real;
        Refill(r);
        if tokens < cost {
          return;
        }
        tokens := tokens - cost;
        sent := sent + [p.datagram];
        pending := None;
      }
    }
  }
}
