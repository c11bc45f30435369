/** The bounded first-in first-out queue that both linked queues implement, and what every run of it keeps. */
module Fifo {
  import opened Octets

  datatype Queue<T> = Queue(items: seq<T>, closed: bool)

  /** Capacity 0 means unbounded. */
  predicate HasRoom<T>(q: Queue<T>, capacity: nat) { capacity == 0 || |q.items| < capacity }

  function Offered<T>(q: Queue<T>, capacity: nat, x: T): (Queue<T>, bool) {
    if q.closed || !HasRoom(q, capacity) then (q, false) else (q.(items := q.items + [x]), true)
  }

  function Taken<T>(q: Queue<T>): (Queue<T>, Option<T>) {
    if |q.items| == 0 then (q, None) else (q.(items := q.items[1..]), Some(q.items[0]))
  }

  datatype Event<T> = Offer(item: T) | Take | TakeAll | Close

  /** The queue, everything accepted and everything handed out, in order. */
  datatype History<T> = History(q: Queue<T>, accepted: seq<T>, out: seq<T>)

  function Step<T>(h: History<T>, capacity: nat, e: Event<T>): History<T> {
    match e
    case Offer(x) =>
      var (q, ok) := Offered(h.q, capacity, x);
      History(q, if ok then h.accepted + [x] else h.accepted, h.out)
    case Take =>
      var (q, x) := Taken(h.q);
      History(q, h.accepted, if x.Some? then h.out + [x.value] else h.out)
    case TakeAll => History(h.q.(items := []), h.accepted, h.out + h.q.items)
    case Close => h.(q := h.q.(closed := true))
  }

  function After<T>(evs: seq<Event<T>>, capacity: nat, n: nat): History<T>
    requires n <= |evs|
    decreases n
  {
    if n == 0 then History(Queue([], false), [], []) else Step(After(evs, capacity, n - 1), capacity, evs[n - 1])
  }

  ghost predicate InOrder<T>(h: History<T>, capacity: nat) {
    && h.accepted == h.out + h.q.items
    && (capacity > 0 ==> |h.q.items| <= capacity)
  }

  lemma StepInOrder<T>(h: History<T>, capacity: nat, e: Event<T>)
    requires InOrder(h, capacity)
    ensures InOrder(Step(h, capacity, e), capacity)
  {
    var g := Step(h, capacity, e);
    match e
    case Offer(x) => assert h.out + h.q.items + [x] == h.out + (h.q.items + [x]);
    case Take =>
      if |h.q.items| > 0 {
        assert h.q.items == [h.q.items[0]] + h.q.items[1..];
        assert g.out + g.q.items == h.out + h.q.items;
      }
    case TakeAll => assert g.out + g.q.items == h.out + h.q.items;
    case Close =>
  }

  /** Whatever the calls, items come out in the order they were accepted, each once, none invented; the rest is
      still queued; and a bounded queue never holds more than its capacity. */
  lemma {:induction false} RunsInOrder<T>(evs: seq<Event<T>>, capacity: nat, n: nat)
    requires n <= |evs|
    ensures InOrder(After(evs, capacity, n), capacity)
    decreases n
  {
    if n > 0 {
      RunsInOrder(evs, capacity, n - 1);
      StepInOrder(After(evs, capacity, n - 1), capacity, evs[n - 1]);
    }
  }

  /** Once closed, a queue stays closed, accepts nothing more and can still be emptied. */
  lemma {:induction false} ClosedOnlyDrains<T>(evs: seq<Event<T>>, capacity: nat, i: nat, j: nat)
    requires i <= j <= |evs| && After(evs, capacity, i).q.closed
    ensures After(evs, capacity, j).q.closed && After(evs, capacity, j).accepted == After(evs, capacity, i).accepted
    decreases j
  {
    if i < j {
      ClosedOnlyDrains(evs, capacity, i, j - 1);
    }
  }
}
