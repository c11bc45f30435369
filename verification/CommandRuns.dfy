/** Ordering, conservation and timing of the command channel over every run between resets. */
module CommandRuns {
  import opened Octets
  import opened SequenceNumbers
  import opened CommandChannel

  datatype Event = Arrive(number: nat, payload: Bytes, rttUs: nat, now: int) | Flush(rttUs: nat, now: int)

  /** The channel with its history: what came out, the first copies that were accepted, since when the hold
      buffer has been non-empty, and the latest time seen. */
  datatype History = History(c: Channel, delivered: seq<Command>, accepted: map<nat, Bytes>, since: int, clock: int)

  // ---------- Commands as a map ----------

  /** The payload delivered under each number. */
  function AsMap(out: seq<Command>): (m: map<nat, Bytes>)
    decreases |out|
  {
    if |out| == 0 then map[]
    else
      var last := out[|out| - 1];
      AsMap(out[..|out| - 1])[last.number := last.payload]
  }

  lemma {:induction false} AsMapConcat(a: seq<Command>, b: seq<Command>)
    ensures AsMap(a + b) == AsMap(a) + AsMap(b)
    decreases |b|
  {
    if |b| == 0 {
      assert a + b == a;
    } else {
      var n := |b| - 1;
      AsMapConcat(a, b[..n]);
      assert (a + b)[..|a + b| - 1] == a + b[..n];
      AcceptHeld(AsMap(a), AsMap(b[..n]), b[n].number, b[n].payload);
    }
  }

  lemma {:induction false} AsMapKeys(out: seq<Command>, k: nat)
    ensures k in AsMap(out) <==> exists i :: 0 <= i < |out| && out[i].number == k
    decreases |out|
  {
    if |out| > 0 {
      var front := out[..|out| - 1];
      AsMapKeys(front, k);
      if k in AsMap(front) {
        var i :| 0 <= i < |front| && front[i].number == k;
        assert out[i].number == k;
      }
      if i :| 0 <= i < |out| && out[i].number == k {
        if i < |out| - 1 {
          assert front[i].number == k;
        }
      }
    }
  }

  lemma AsMapOne(c: Command)
    ensures AsMap([c]) == map[c.number := c.payload]
  {
    assert [c][..0] == [];
    assert AsMap([]) == map[];
  }

  // ---------- What draining does ----------

  lemma {:induction false} DrainNumbers(next: nat, held: map<nat, Bytes>)
    ensures var (n, h, out) := Drain(next, held);
            && n == next + |out| && n !in h
            && (forall i :: 0 <= i < |out| ==> out[i].number == next + i)
            && (forall k :: k in h ==> k in held && (k < next || k > n))
    decreases |held|
  {
    if next in held {
      RemoveShrinks(held, next);
      DrainNumbers(next + 1, held - {next});
    }
  }

  /** Draining loses nothing: what came out and what is left make up what was held. */
  lemma {:induction false} DrainContents(next: nat, held: map<nat, Bytes>)
    ensures AsMap(Drain(next, held).2) + Drain(next, held).1 == held
    decreases |held|
  {
    if next in held {
      RemoveShrinks(held, next);
      var rem := held - {next};
      DrainContents(next + 1, rem);
      var (n, h, rest) := Drain(next + 1, rem);
      assert Drain(next, held) == (n, h, [Command(next, held[next])] + rest);
      hide Drain;
      FirstOfBlock(next, held, rest, h);
    } else {
      assert Drain(next, held) == (next, held, []);
      assert map[] + held == held;
    }
  }

  lemma {:induction false} FirstOfBlock(next: nat, held: map<nat, Bytes>, rest: seq<Command>, h: map<nat, Bytes>)
    requires next in held && AsMap(rest) + h == held - {next}
    ensures AsMap([Command(next, held[next])] + rest) + h == held
  {
    hide AsMap;
    var one := Command(next, held[next]);
    AsMapConcat([one], rest);
    AsMapOne(one);
    MapAddAssoc(AsMap([one]), AsMap(rest), h);
    PutBack(held, next);
  }

  lemma PutBack(held: map<nat, Bytes>, k: nat)
    requires k in held
    ensures map[k := held[k]] + (held - {k}) == held
  {}

  lemma MapAddAssoc(a: map<nat, Bytes>, b: map<nat, Bytes>, c: map<nat, Bytes>)
    ensures (a + b) + c == a + (b + c)
  {}

  // ---------- Steps with their history ----------

  /** An arrival that is not dropped: not behind the cursor and not already held. */
  predicate Accepts(c: Channel, number: nat) {
    number > 0 && (c.initialized ==> number >= c.next) && number !in c.held
  }

  ghost function StepOf(c: Channel, e: Event): (Channel, seq<Command>) {
    match e
    case Arrive(number, payload, rttUs, now) => Handle(c, number, payload, rttUs, now)
    case Flush(rttUs, now) => Expire(c, rttUs, now)
  }

  ghost function Step(h: History, e: Event): History {
    var (c, out) := StepOf(h.c, e);
    History(c, h.delivered + out,
            if e.Arrive? && Accepts(h.c, e.number) then h.accepted[e.number := e.payload] else h.accepted,
            if h.c.held == map[] then e.now else h.since,
            e.now)
  }

  ghost function After(evs: seq<Event>, n: nat): History
    requires n <= |evs|
    decreases n
  {
    if n == 0 then History(FreshChannel, [], map[], 0, 0) else Step(After(evs, n - 1), evs[n - 1])
  }

  ghost predicate ClockMonotone(evs: seq<Event>) {
    forall i, j :: 0 <= i <= j < |evs| ==> evs[i].now <= evs[j].now
  }

  // ---------- The invariant ----------

  /** Delivered commands have strictly increasing numbers, all behind the cursor. */
  ghost predicate Ordered(h: History) {
    && (forall i, j :: 0 <= i < j < |h.delivered| ==> h.delivered[i].number < h.delivered[j].number)
    && (forall i :: 0 <= i < |h.delivered| ==> h.c.initialized && h.delivered[i].number < h.c.next)
  }

  /** The first copies accepted are exactly the delivered and the held ones, payloads included. */
  ghost predicate Conserved(h: History) { h.accepted == AsMap(h.delivered) + h.c.held }

  /** Held commands lie strictly beyond the cursor. */
  ghost predicate HeldAhead(c: Channel) {
    && (forall k :: k in c.held ==> c.initialized && k > c.next)
    && (!c.initialized ==> c == FreshChannel)
  }

  ghost predicate Good(h: History) { Ordered(h) && Conserved(h) && HeldAhead(h.c) }

  lemma BlockOrdered(h: History, g: History, from: nat, out: seq<Command>)
    requires Ordered(h) && h.c.next <= from && g.delivered == h.delivered + out
    requires g.c.initialized && g.c.next >= from + |out|
    requires forall i :: 0 <= i < |out| ==> out[i].number == from + i
    ensures Ordered(g)
  {}

  /** Handing out a consecutive block starting at or beyond the cursor keeps order and contents. */
  lemma {:induction false} DeliverBlock(h: History, from: nat, held: map<nat, Bytes>, gapSince: int)
    requires h.c.initialized && Ordered(h) && h.c.next <= from
    requires forall k :: k in held ==> k >= from
    requires h.accepted == AsMap(h.delivered) + held
    ensures var (n, rest, out) := Drain(from, held);
            Good(h.(c := Channel(true, n, rest, gapSince), delivered := h.delivered + out))
  {
    DrainNumbers(from, held);
    DrainContents(from, held);
    hide Drain, AsMap;
    var (n, rest, out) := Drain(from, held);
    var g := h.(c := Channel(true, n, rest, gapSince), delivered := h.delivered + out);
    BlockOrdered(h, g, from, out);
    AsMapConcat(h.delivered, out);
    MapAddAssoc(AsMap(h.delivered), AsMap(out), rest);
  }

  lemma ExpireKeeps(h: History, rttUs: nat, now: int)
    requires Good(h)
    ensures var (c, out) := Expire(h.c, rttUs, now); Good(h.(c := c, delivered := h.delivered + out))
  {
    var (c, out) := Expire(h.c, rttUs, now);
    hide Drain, AsMap;
    if Expired(h.c, rttUs, now) {
      assert exists k :: k in h.c.held;
      DeliverBlock(h, Least(h.c.held.Keys), h.c.held, c.gapSince);
    } else {
      assert h.delivered + [] == h.delivered;
    }
  }

  lemma GoodIgnoresTimes(h: History, g: History)
    requires Good(h) && g.delivered == h.delivered && g.accepted == h.accepted && g.c == h.c
    ensures Good(g)
  {}

  /** The expected command arrives: it is delivered, and after it whatever follows in the buffer. */
  lemma {:induction false} InOrderKeeps(h: History, number: nat, payload: Bytes, g: History)
    requires Good(h) && h.c.initialized && number == h.c.next
    requires g.accepted == h.accepted[number := payload]
    requires var (n, rest, out) := Drain(number + 1, h.c.held);
             g.c == h.c.(next := n, held := rest) && g.delivered == h.delivered + ([Command(number, payload)] + out)
    ensures Good(g)
  {
    hide Drain, AsMap, Good;
    var out := Drain(number + 1, h.c.held).2;
    var one := Command(number, payload);
    var m := h.(c := h.c.(next := number + 1), delivered := h.delivered + [one], accepted := g.accepted);
    TakeExpected(h, one, m);
    DeliverBlock(m, number + 1, h.c.held, h.c.gapSince);
    assert (h.delivered + [one]) + out == h.delivered + ([one] + out);
    GoodIgnoresTimes(m.(c := g.c, delivered := m.delivered + out), g);
  }

  lemma TakeExpected(h: History, one: Command, m: History)
    requires Good(h) && h.c.initialized && one.number == h.c.next
    requires m == h.(c := h.c.(next := one.number + 1), delivered := h.delivered + [one],
                     accepted := h.accepted[one.number := one.payload])
    ensures Ordered(m) && m.accepted == AsMap(m.delivered) + h.c.held
    ensures forall k :: k in h.c.held ==> k >= one.number + 1
  {
    hide AsMap;
    BlockOrdered(h, m, one.number, [one]);
    AsMapConcat(h.delivered, [one]);
    AsMapOne(one);
    AcceptBefore(AsMap(h.delivered), h.c.held, one.number, one.payload);
  }

  lemma AcceptBefore(d: map<nat, Bytes>, held: map<nat, Bytes>, number: nat, payload: Bytes)
    requires number !in held
    ensures (d + held)[number := payload] == (d + map[number := payload]) + held
  {}

  lemma AcceptHeld(d: map<nat, Bytes>, held: map<nat, Bytes>, number: nat, payload: Bytes)
    ensures (d + held)[number := payload] == d + held[number := payload]
  {}

  /** An early command is held (its first copy), and the buffer may expire. */
  lemma HoldKeeps(h: History, number: nat, payload: Bytes, rttUs: nat, now: int, g: History)
    requires Good(h) && h.c.initialized && number > h.c.next
    requires g.accepted == if number in h.c.held then h.accepted else h.accepted[number := payload]
    requires var c1 := if h.c.held == map[] then h.c.(gapSince := now) else h.c;
             var c2 := if number in c1.held then c1 else c1.(held := c1.held[number := payload]);
             var (c, out) := Expire(c2, rttUs, now);
             g.c == c && g.delivered == h.delivered + out
    ensures Good(g)
  {
    hide Expire, AsMap;
    var c1 := if h.c.held == map[] then h.c.(gapSince := now) else h.c;
    var c2 := if number in c1.held then c1 else c1.(held := c1.held[number := payload]);
    AcceptHeld(AsMap(h.delivered), h.c.held, number, payload);
    var m := h.(c := c2, accepted := g.accepted);
    ExpireKeeps(m, rttUs, now);
    var (c, out) := Expire(c2, rttUs, now);
    GoodIgnoresTimes(m.(c := c, delivered := m.delivered + out), g);
  }

  lemma HandleKeeps(h: History, number: nat, payload: Bytes, rttUs: nat, now: int)
    requires Good(h) && number > 0
    ensures Good(Step(h, Arrive(number, payload, rttUs, now)))
  {
    hide Drain, Expire, AsMap;
    var e := Arrive(number, payload, rttUs, now);
    var c0 := if h.c.initialized then h.c else h.c.(initialized := true, next := number);
    var h0 := h.(c := c0);
    assert Good(h0);
    var g := Step(h, e);
    if number < c0.next {
      assert h.delivered + [] == h.delivered;
      GoodIgnoresTimes(h0, g);
    } else if number == c0.next {
      InOrderKeeps(h0, number, payload, g);
    } else {
      HoldKeeps(h0, number, payload, rttUs, now, g);
    }
  }

  lemma StepKeeps(h: History, e: Event)
    requires Good(h)
    ensures Good(Step(h, e))
  {
    match e {
      case Arrive(number, payload, rttUs, now) =>
        if number > 0 {
          HandleKeeps(h, number, payload, rttUs, now);
        } else {
          assert h.delivered + [] == h.delivered;
        }
      case Flush(rttUs, now) =>
        ExpireKeeps(h, rttUs, now);
        hide Expire;
        GoodIgnoresTimes(h.(c := Expire(h.c, rttUs, now).0, delivered := h.delivered + Expire(h.c, rttUs, now).1), Step(h, e));
    }
  }

  /** In every run between resets the delivered numbers strictly increase, and the accepted first copies are
      exactly what was delivered and what is held. */
  lemma {:induction false} RunGood(evs: seq<Event>, n: nat)
    requires n <= |evs|
    ensures Good(After(evs, n))
    decreases n
  {
    hide Good, Step;
    if n == 0 {
      StartGood();
    } else {
      RunGood(evs, n - 1);
      StepKeeps(After(evs, n - 1), evs[n - 1]);
    }
  }

  lemma StartGood()
    ensures Good(History(FreshChannel, [], map[], 0, 0))
  {
    assert AsMap([]) == map[];
  }

  /** With pairwise different numbers, each delivered payload stands under its own number. */
  lemma {:induction false} AsMapValue(out: seq<Command>, i: nat)
    requires i < |out| && forall k, l :: 0 <= k < l < |out| ==> out[k].number < out[l].number
    ensures out[i].number in AsMap(out) && AsMap(out)[out[i].number] == out[i].payload
    decreases |out|
  {
    if i < |out| - 1 {
      AsMapValue(out[..|out| - 1], i);
    }
  }

  /** No command comes out twice or out of order, and each comes out with the payload of its first accepted copy. */
  lemma {:induction false} DeliveredOnceInOrder(evs: seq<Event>, n: nat, i: nat)
    requires n <= |evs| && i < |After(evs, n).delivered|
    ensures var h := After(evs, n);
            && (forall j :: i < j < |h.delivered| ==> h.delivered[i].number < h.delivered[j].number)
            && h.delivered[i].number in h.accepted
            && h.accepted[h.delivered[i].number] == h.delivered[i].payload
  {
    var h := After(evs, n);
    RunGood(evs, n);
    hide After, AsMap;
    AsMapValue(h.delivered, i);
  }

  // ---------- Timing ----------

  /** While commands are held, the wait started no earlier than the buffer became non-empty. */
  ghost predicate Timed(h: History) {
    h.since <= h.clock && (h.c.held != map[] ==> h.since <= h.c.gapSince <= h.clock)
  }

  lemma StepTimed(h: History, e: Event)
    requires Timed(h) && h.clock <= e.now
    ensures Timed(Step(h, e))
  {
    hide Drain;
    match e {
      case Arrive(number, payload, rttUs, now) =>
        if h.c.held == map[] {
          EmptyDrain(number + 1);
        }
      case Flush(rttUs, now) =>
    }
  }

  lemma {:induction false} EmptyDrain(k: nat)
    ensures Drain(k, map[]) == (k, map[], [])
  {}

  lemma {:induction false} RunTimed(evs: seq<Event>, n: nat)
    requires n <= |evs| && ClockMonotone(evs) && (|evs| > 0 ==> evs[0].now >= 0)
    ensures Timed(After(evs, n)) && After(evs, n).clock == if n == 0 then 0 else evs[n - 1].now
    decreases n
  {
    hide Timed, StepOf;
    if n == 0 {
      StartTimed();
    } else {
      RunTimed(evs, n - 1);
      StepTimed(After(evs, n - 1), evs[n - 1]);
    }
  }

  lemma StartTimed()
    ensures Timed(History(FreshChannel, [], map[], 0, 0))
  {}

  /** A number is passed without being delivered: it lies behind the new cursor but not the old one. */
  ghost predicate PassesOver(c: Channel, e: Event, g: nat) {
    var (c', out) := StepOf(c, e);
    c.initialized && c.next <= g < c'.next && g !in AsMap(out)
  }

  /** The channel whose wait the event checks: an early arrival is held first. */
  function Waiting(c: Channel, e: Event): Channel {
    if e.Flush? then c
    else
      var c1 := if c.held == map[] then c.(gapSince := e.now) else c;
      if e.number in c1.held then c1 else c1.(held := c1.held[e.number := e.payload])
  }

  ghost predicate Skips(c: Channel, e: Event) {
    c.initialized && (e.Arrive? ==> e.number > c.next) && Expired(Waiting(c, e), e.rttUs, e.now)
  }

  /** A number is passed exactly when the wait is over and it lies before everything held. */
  lemma PassedExactly(c: Channel, e: Event, g: nat)
    requires HeldAhead(c)
    ensures PassesOver(c, e, g) <==> (Skips(c, e) && c.next <= g < Least(Waiting(c, e).held.Keys))
  {
    if c.initialized {
      if e.Arrive? && e.number == c.next && e.number > 0 {
        InOrderPassesNothing(c, e, g);
      } else if Skips(c, e) {
        hide Expired;
        SkipPassesFront(Waiting(c, e), e.rttUs, e.now, g);
      }
    }
  }

  lemma InOrderPassesNothing(c: Channel, e: Event, g: nat)
    requires c.initialized && e.Arrive? && e.number == c.next > 0
    ensures !PassesOver(c, e, g)
  {
    DrainNumbers(e.number + 1, c.held);
    hide Drain, AsMap;
    var (n, rest, out) := Drain(e.number + 1, c.held);
    var one := Command(e.number, e.payload);
    AsMapConcat([one], out);
    AsMapOne(one);
    if e.number < g < n {
      AsMapBlock(out, e.number + 1, g);
    }
  }

  lemma SkipPassesFront(c: Channel, rttUs: nat, now: int, g: nat)
    requires Expired(c, rttUs, now)
    ensures var (c', out) := Expire(c, rttUs, now);
            var first := Least(c.held.Keys);
            c'.next > first && (g < c'.next && g !in AsMap(out) <==> g < first)
  {
    var first := Least(c.held.Keys);
    DrainNumbers(first, c.held);
    assert first in c.held;
    var (n, rest, out) := Drain(first, c.held);
    assert |out| >= 1;
    hide Drain, AsMap;
    AsMapKeys(out, g);
    if first <= g < n {
      AsMapBlock(out, first, g);
    }
  }

  lemma {:induction false} AsMapBlock(out: seq<Command>, from: nat, g: nat)
    requires forall i :: 0 <= i < |out| ==> out[i].number == from + i
    requires from <= g < from + |out|
    ensures g in AsMap(out)
  {
    AsMapKeys(out, g);
    assert out[g - from].number == g;
  }

  /** A gap is passed only after the hold buffer has been non-empty for three round trips. */
  lemma {:induction false} GapWaits(evs: seq<Event>, n: nat, g: nat)
    requires n < |evs| && ClockMonotone(evs) && evs[0].now >= 0
    requires PassesOver(After(evs, n).c, evs[n], g)
    ensures After(evs, n).c.held != map[]
    ensures evs[n].now - After(evs, n).since >= Wait(evs[n].rttUs) > 0
  {
    RunGood(evs, n);
    RunTimed(evs, n);
    PassedExactly(After(evs, n).c, evs[n], g);
    hide After, PassesOver;
  }

  /** The wait belongs to the buffer, not to the gap: an in-order arrival that leaves commands held does not
      restart it. Here the first command beyond 4 arrives at 29 ms and 4 is passed 1 ms later. */
  lemma {:induction false} LaterGapWaitsLess(p: Bytes, evs: seq<Event>)
    requires evs == [Arrive(1, p, 10000, 0), Arrive(3, p, 10000, 0), Arrive(5, p, 10000, 29000),
                     Arrive(2, p, 10000, 29500), Flush(10000, 30000)]
    ensures ClockMonotone(evs) && PassesOver(After(evs, 4).c, evs[4], 4)
    ensures forall i :: 0 <= i < 2 ==> evs[i].Arrive? && evs[i].number < 4
    ensures evs[4].now - evs[2].now < Wait(10000)
  {
    FirstThree(p, evs);
    var h := After(evs, 3);
    assert After(evs, 4) == Step(h, evs[3]);
    assert h.c.held - {3} == map[5 := p];
    assert Drain(4, map[5 := p]) == (4, map[5 := p], []);
    assert After(evs, 4).c == Channel(true, 4, map[5 := p], 0);
    assert map[5 := p].Keys == {5};
    PassedExactly(After(evs, 4).c, evs[4], 4);
  }

  lemma {:induction false} FirstThree(p: Bytes, evs: seq<Event>)
    requires |evs| == 5 && evs[..3] == [Arrive(1, p, 10000, 0), Arrive(3, p, 10000, 0), Arrive(5, p, 10000, 29000)]
    ensures After(evs, 3).c == Channel(true, 2, map[3 := p, 5 := p], 0)
  {
    assert evs[0] == evs[..3][0] && evs[1] == evs[..3][1] && evs[2] == evs[..3][2];
    EmptyDrain(2);
    assert After(evs, 1) == Step(After(evs, 0), evs[0]);
    assert After(evs, 1).c == Channel(true, 2, map[], 0);
    assert After(evs, 2) == Step(After(evs, 1), evs[1]);
    assert After(evs, 2).c == Channel(true, 2, map[3 := p], 0);
    assert After(evs, 3) == Step(After(evs, 2), evs[2]);
  }

  // ---------- Draining by expiry ----------

  /** An expiry delivers at least one command and leaves fewer held. */
  lemma ExpiryDelivers(c: Channel, rttUs: nat, now: int)
    requires Expired(c, rttUs, now)
    ensures var (c', out) := Expire(c, rttUs, now); |out| >= 1 && |c'.held| < |c.held|
  {
    assert exists k :: k in c.held;
    var first := Least(c.held.Keys);
    DrainNumbers(first, c.held);
    var (n, h, out) := Drain(first, c.held);
    assert first in c.held;
    assert |out| >= 1;
    assert h.Keys < c.held.Keys;
    ProperSubsetSmaller(h.Keys, c.held.Keys);
  }

  lemma ProperSubsetSmaller(a: set<nat>, b: set<nat>)
    requires a < b
    ensures |a| < |b|
  {
    assert b == a + (b - a);
    assert b - a != {};
  }

  /** The channel after the first n of a series of flushes. */
  ghost function Flushed(c: Channel, flushes: seq<Event>, n: nat): Channel
    requires n <= |flushes| && forall i :: 0 <= i < |flushes| ==> flushes[i].Flush?
    decreases n
  {
    if n == 0 then c
    else Expire(Flushed(c, flushes, n - 1), flushes[n - 1].rttUs, flushes[n - 1].now).0
  }

  /** Flushes that each come late enough empty the buffer within as many rounds as there are held commands. */
  lemma {:induction false} HeldDrains(c: Channel, flushes: seq<Event>, n: nat)
    requires n <= |flushes| && forall i :: 0 <= i < |flushes| ==> flushes[i].Flush?
    requires forall i :: 0 <= i < n ==>
               var f := Flushed(c, flushes, i); f.held == map[] || Expired(f, flushes[i].rttUs, flushes[i].now)
    ensures |Flushed(c, flushes, n).held| <= if n <= |c.held| then |c.held| - n else 0
    decreases n
  {
    hide Expire, Drain;
    if n > 0 {
      HeldDrains(c, flushes, n - 1);
      var f := Flushed(c, flushes, n - 1);
      if f.held == map[] {
        EmptyStays(f, flushes[n - 1].rttUs, flushes[n - 1].now);
      } else {
        ExpiryDelivers(f, flushes[n - 1].rttUs, flushes[n - 1].now);
      }
    }
  }

  lemma EmptyStays(c: Channel, rttUs: nat, now: int)
    requires c.held == map[]
    ensures Expire(c, rttUs, now).0 == c
  {}
}
