/** How often a packet is resent, over every run of the sender: the numbering of tight/src/transport.cpp and the
    pruning and resending of tight/src/report.cpp.

    Nothing is assumed about the reports: they may carry any acknowledgment and any loss set, in any order. */
module ResendRuns {
  import opened RetransmitBuffer

  /** The next number, the unacknowledged packets, and how often each number was resent over the whole run. */
  datatype Outbox<T> = Outbox(seqOut: nat, pending: map<nat, Entry<T>>, resends: map<nat, nat>)

  datatype Action<T> =
    | Send(packet: T, keep: bool)
    | Remove(numbers: set<nat>)
    | Handle(ack: nat, lost: set<nat>)

  ghost function ResendsOf(resends: map<nat, nat>, s: nat): nat { if s in resends then resends[s] else 0 }

  /** A send takes the next number and may keep the packet; acknowledgments and a dead link remove packets. */
  ghost function Act<T>(o: Outbox<T>, a: Action<T>): Outbox<T> {
    match a
    case Send(packet, keep) =>
      o.(seqOut := o.seqOut + 1, pending := if keep then o.pending[o.seqOut := Entry(packet, 0)] else o.pending)
    case Remove(numbers) => o.(pending := o.pending - numbers)
    case Handle(ack, lost) =>
      var resent := Resent(o.pending, lost);
      o.(pending := Pruned(o.pending, ack, lost),
         resends := map s | s in o.resends.Keys + resent.Keys ::
           ResendsOf(o.resends, s) + (if s in resent then 1 else 0))
  }

  ghost predicate RetriesMatch<T>(o: Outbox<T>) {
    && o.seqOut >= 1
    && (forall s :: s in o.pending || s in o.resends ==> s < o.seqOut)
    && (forall s :: s in o.pending ==> o.pending[s].retries == ResendsOf(o.resends, s))
    && (forall s :: ResendsOf(o.resends, s) <= MAX_RETRIES)
  }

  function Empty<T>(): Outbox<T> { Outbox(1, map[], map[]) }

  ghost function After<T>(actions: seq<Action<T>>, n: nat): Outbox<T>
    requires n <= |actions|
    decreases n
  {
    if n == 0 then Empty() else Act(After(actions, n - 1), actions[n - 1])
  }

  lemma HandleMatches<T>(o: Outbox<T>, ack: nat, lost: set<nat>)
    requires RetriesMatch(o)
    ensures RetriesMatch(Act(o, Handle(ack, lost)))
    ensures forall s :: ResendsOf(Act(o, Handle(ack, lost)).resends, s)
                     == ResendsOf(o.resends, s) + if s in Resent(o.pending, lost) then 1 else 0
  {
    AfterReport(o.pending, ack, lost);
    var p := Act(o, Handle(ack, lost));
    assert Resent(o.pending, lost).Keys <= o.pending.Keys && p.pending.Keys <= o.pending.Keys;
    hide Pruned, Resent;
    forall s
      ensures ResendsOf(p.resends, s) == ResendsOf(o.resends, s) + if s in Resent(o.pending, lost) then 1 else 0
    {
    }
  }

  lemma ActMatches<T>(o: Outbox<T>, a: Action<T>)
    requires RetriesMatch(o)
    ensures RetriesMatch(Act(o, a))
  {
    if a.Handle? {
      HandleMatches(o, a.ack, a.lost);
    }
  }

  /** In every run the retry count of a buffered packet is the number of times it was resent. */
  lemma {:induction false} RunMatches<T>(actions: seq<Action<T>>, n: nat)
    requires n <= |actions|
    ensures RetriesMatch(After(actions, n))
    decreases n
  {
    hide RetriesMatch, Act;
    if n == 0 {
      assert RetriesMatch(After(actions, 0)) by {
        EmptyMatches<T>();
      }
    } else {
      RunMatches(actions, n - 1);
      ActMatches(After(actions, n - 1), actions[n - 1]);
    }
  }

  lemma EmptyMatches<T>()
    ensures RetriesMatch(Empty<T>())
  {}

  /** Over any sequence of sends, removals and reports, no packet is resent more than ten times. */
  lemma {:induction false} ResendBound<T>(actions: seq<Action<T>>, n: nat, s: nat)
    requires n <= |actions|
    ensures ResendsOf(After(actions, n).resends, s) <= MAX_RETRIES
  {
    RunMatches(actions, n);
  }

  /** After each report of any run: every survivor is above the acknowledgment or listed as lost, those at or
      below it are exactly the ones just resent, and what was removed had been acknowledged or resent ten times. */
  lemma {:induction false} SurvivorsOfReport<T>(actions: seq<Action<T>>, n: nat)
    requires n < |actions| && actions[n].Handle?
    ensures var o, p := After(actions, n), After(actions, n + 1);
            var ack, lost := actions[n].ack, actions[n].lost;
            && (forall s :: s in p.pending ==> s > ack || s in lost)
            && (forall s: nat :: s <= ack ==> (s in p.pending <==> ResendsOf(p.resends, s) > ResendsOf(o.resends, s)))
            && (forall s :: s in p.pending ==> s in o.pending && p.pending[s].packet == o.pending[s].packet)
            && (forall s :: s in o.pending && s !in p.pending ==>
                  (s <= ack && s !in lost) || ResendsOf(o.resends, s) == MAX_RETRIES)
  {
    var o := After(actions, n);
    RunMatches(actions, n);
    HandleMatches(o, actions[n].ack, actions[n].lost);
    AfterReport(o.pending, actions[n].ack, actions[n].lost);
    hide ResendsOf;
  }

  /** One send, then reports that list it as lost and acknowledge nothing. */
  function LostAgain<T>(packet: T, n: nat): (actions: seq<Action<T>>)
    ensures |actions| == n + 1
  {
    seq(n + 1, i => if i == 0 then Send(packet, true) else Handle(0, {1}))
  }

  /** Resent k times, and still buffered while k is at most ten. */
  ghost predicate ResentSofar<T>(o: Outbox<T>, packet: T, k: nat) {
    && ResendsOf(o.resends, 1) == (if k <= 10 then k else 10)
    && o.pending == if k <= 10 then map[1 := Entry(packet, k)] else map[]
  }

  lemma LostOnce<T>(o: Outbox<T>, packet: T, k: nat)
    requires ResentSofar(o, packet, k)
    ensures ResentSofar(Act(o, Handle(0, {1})), packet, k + 1)
  {
    var p := Act(o, Handle(0, {1}));
    assert 1 in Resent(o.pending, {1}) <==> k < 10;
    assert p.pending == if k < 10 then map[1 := Entry(packet, k + 1)] else map[];
  }

  /** The bound is reached and not passed: each of the first ten reports resends the packet, the eleventh lets go of it. */
  lemma {:induction false} TenResends<T>(packet: T, n: nat)
    ensures ResentSofar(After(LostAgain(packet, n), n + 1), packet, n)
    decreases n
  {
    var actions := LostAgain(packet, n);
    FirstSend(packet);
    hide Act, ResentSofar;
    if n == 0 {
      assert After(actions, 1) == Act(Empty(), actions[0]);
    } else {
      TenResends(packet, n - 1);
      SamePrefix(packet, n, n);
      LostOnce(After(actions, n), packet, n - 1);
    }
  }

  lemma FirstSend<T>(packet: T)
    ensures ResentSofar(Act(Empty(), Send(packet, true)), packet, 0)
  {
    assert Act(Empty(), Send(packet, true)).pending == map[1 := Entry(packet, 0)];
  }

  lemma {:induction false} SamePrefix<T>(packet: T, n: nat, k: nat)
    requires 0 < n && k <= n
    ensures After(LostAgain(packet, n), k) == After(LostAgain(packet, n - 1), k)
    decreases k
  {
    hide Act;
    if k > 0 {
      SamePrefix(packet, n, k - 1);
    }
  }

  // ---------- Sends in two steps ----------

  /** A send records the size of its datagram in a second step (tight/src/transport.cpp:1107-1110). If the packet has been
      let go of in between, that step puts a blank entry in its place, with no retries counted. */
  datatype HalfStep<T> = Whole(action: Action<T>) | Record(number: nat, blank: T)

  /** The outbox, and how often each number was put back. */
  datatype Booked<T> = Booked(o: Outbox<T>, again: map<nat, nat>)

  ghost function Book<T>(b: Booked<T>, h: HalfStep<T>): Booked<T> {
    match h
    case Whole(action) => b.(o := Act(b.o, action))
    case Record(number, blank) =>
      if number >= b.o.seqOut || number in b.o.pending then b
      else Booked(b.o.(pending := b.o.pending[number := Entry(blank, 0)]),
                  b.again[number := ResendsOf(b.again, number) + 1])
  }

  ghost function BookedAfter<T>(steps: seq<HalfStep<T>>, n: nat): Booked<T>
    requires n <= |steps|
    decreases n
  {
    if n == 0 then Booked(Empty(), map[]) else Book(BookedAfter(steps, n - 1), steps[n - 1])
  }

  /** Ten resends for the packet itself and for each time it was put back. */
  ghost predicate Covered<T>(b: Booked<T>, s: nat) {
    var sent, again := ResendsOf(b.o.resends, s), ResendsOf(b.again, s);
    && (s in b.o.pending || s in b.o.resends || s in b.again ==> s < b.o.seqOut)
    && (s in b.o.pending ==> b.o.pending[s].retries <= MAX_RETRIES && sent <= MAX_RETRIES * again + b.o.pending[s].retries)
    && sent <= MAX_RETRIES * (again + 1)
  }

  lemma BookKeeps<T>(b: Booked<T>, h: HalfStep<T>, s: nat)
    requires Covered(b, s)
    ensures Covered(Book(b, h), s)
  {}

  /** When the two steps of a send are apart: a packet is resent at most ten times more for each time that the second
      step has put it back, so never more than twenty times if each send records its size once. */
  lemma {:induction false} ResendBoundApart<T>(steps: seq<HalfStep<T>>, n: nat, s: nat)
    requires n <= |steps|
    ensures var b := BookedAfter(steps, n); ResendsOf(b.o.resends, s) <= MAX_RETRIES * (1 + ResendsOf(b.again, s))
    ensures ResendsOf(BookedAfter(steps, n).again, s) <= Records(steps, n, s)
  {
    RunCovered(steps, n, s);
    AgainBound(steps, n, s);
  }

  lemma {:induction false} RunCovered<T>(steps: seq<HalfStep<T>>, n: nat, s: nat)
    requires n <= |steps|
    ensures Covered(BookedAfter(steps, n), s)
    decreases n
  {
    hide Book;
    if n > 0 {
      RunCovered(steps, n - 1, s);
      BookKeeps(BookedAfter(steps, n - 1), steps[n - 1], s);
      hide Covered;
    }
  }

  ghost function Records<T>(steps: seq<HalfStep<T>>, n: nat, s: nat): nat
    requires n <= |steps|
    decreases n
  {
    if n == 0 then 0
    else Records(steps, n - 1, s) + if steps[n - 1].Record? && steps[n - 1].number == s then 1 else 0
  }

  lemma {:induction false} AgainBound<T>(steps: seq<HalfStep<T>>, n: nat, s: nat)
    requires n <= |steps|
    ensures ResendsOf(BookedAfter(steps, n).again, s) <= Records(steps, n, s)
    decreases n
  {
    if n > 0 {
      AgainBound(steps, n - 1, s);
    }
  }
}
