/** The linked queue with recycled nodes: tight/include/tight/blocking_queue.hpp.

    Every method runs under the queue's lock, so each is one step. A blocking call is modelled at the moment
    its wait ends: the awaited condition is its precondition. */
module BlockingQueue {
  import opened Octets
  import opened Fifo

  const MAX_FREE: nat := 64

  class Node<T> {
    var item: Option<T>
    var next: Node?<T>

    constructor ()
      ensures item == None && next == null
    {
      item := None;
      next := null;
    }
  }

  /** The nodes are linked in this order and the last one ends the list. */
  ghost predicate Linked<T>(first: Node?<T>, nodes: seq<Node<T>>)
    reads nodes
  {
    && first == (if |nodes| > 0 then nodes[0] else null)
    && (forall i :: 0 <= i < |nodes| - 1 ==> nodes[i].next == nodes[i + 1])
    && (|nodes| > 0 ==> nodes[|nodes| - 1].next == null)
    && (forall i, j :: 0 <= i < j < |nodes| ==> nodes[i] != nodes[j])
  }

  ghost function Items<T>(nodes: seq<Node<T>>): (items: seq<T>)
    requires forall i :: 0 <= i < |nodes| ==> nodes[i].item.Some?
    reads nodes
    ensures |items| == |nodes| && forall i :: 0 <= i < |nodes| ==> items[i] == nodes[i].item.value
    decreases |nodes|
  {
    if |nodes| == 0 then []
    else Items(nodes[..|nodes| - 1]) + [nodes[|nodes| - 1].item.value]
  }

  lemma LinkedTail<T>(first: Node?<T>, nodes: seq<Node<T>>)
    requires Linked(first, nodes) && |nodes| > 0
    ensures Linked(nodes[0].next, nodes[1..])
  {}

  lemma HeadIsFirst<T>(first: Node?<T>, nodes: seq<Node<T>>)
    requires Linked(first, nodes)
    ensures first == null <==> |nodes| == 0
  {}

  class BlockingQueue<T> {
    const capacity: nat
    var size: nat
    var head: Node?<T>
    var tail: Node?<T>
    var freeNodes: Node?<T>
    var freeCount: nat
    var closed: bool
    ghost var live: seq<Node<T>>
    ghost var recycled: seq<Node<T>>

    ghost predicate Valid()
      reads this, live, recycled
    {
      && Linked(head, live) && Linked(freeNodes, recycled)
      && tail == (if |live| > 0 then live[|live| - 1] else null)
      && size == |live| && freeCount == |recycled| <= MAX_FREE
      && (capacity > 0 ==> size <= capacity)
      && (forall i, j :: 0 <= i < |live| && 0 <= j < |recycled| ==> live[i] != recycled[j])
      && (forall i :: 0 <= i < |live| ==> live[i].item.Some?)
      && (forall i :: 0 <= i < |recycled| ==> recycled[i].item.None?)
    }

    ghost function View(): Queue<T>
      requires Valid()
      reads this, live, recycled
    {
      Queue(Items(live), closed)
    }

    ghost function Nodes(): set<Node<T>>
      reads this
    {
      (set n <- live) + (set n <- recycled)
    }

    constructor (capacity: nat)
      ensures Valid() && View() == Queue([], false) && this.capacity == capacity && live == [] && recycled == []
    {
      this.capacity := capacity;
      size := 0;
      head := null;
      tail := null;
      freeNodes := null;
      freeCount := 0;
      closed := false;
      live := [];
      recycled := [];
    }

    /** Takes a node from the free list, or makes one. */
    method ObtainNode() returns (node: Node<T>)
      requires Valid()
      modifies `freeNodes, `freeCount, `recycled, recycled
      ensures Valid() && View() == old(View()) && node.next == null
      ensures node !in live && node !in recycled
      ensures fresh(node) || node in old(recycled)
      ensures if old(recycled) == [] then fresh(node) && recycled == [] else node == old(recycled)[0] && recycled == old(recycled)[1..]
    {
      hide Items;
      if freeNodes != null {
        node := freeNodes;
        freeNodes := node.next;
        node.next := null;
        freeCount := freeCount - 1;
        recycled := recycled[1..];
      } else {
        node := new Node();
      }
    }

    /** Puts a detached node back on the free list, or drops it when the list is full. */
    method RecycleNode(node: Node<T>)
      requires Valid() && node !in live && node !in recycled
      modifies `freeNodes, `freeCount, `recycled, node
      ensures Valid() && View() == old(View())
      ensures recycled == if |old(recycled)| < MAX_FREE then [node] + old(recycled) else old(recycled)
    {
      hide Items;
      node.item := None;
      if freeCount < MAX_FREE {
        node.next := freeNodes;
        freeNodes := node;
        freeCount := freeCount + 1;
        recycled := [node] + recycled;
      }
    }

    /** Appends a detached node that carries the item. */
    method LinkTail(node: Node<T>, item: T)
      requires Valid() && node !in live && node !in recycled && node.next == null
      requires capacity == 0 || size < capacity
      modifies `head, `tail, `size, `live, tail, node
      ensures Valid() && live == old(live) + [node] && closed == old(closed)
      ensures View().items == old(View()).items + [item]
    {
      hide Items;
      node.item := Some(item);
      if tail != null {
        tail.next := node;
        tail := node;
      } else {
        head, tail := node, node;
      }
      size := size + 1;
      live := live + [node];
    }

    /** Detaches the first node and hands out its item. */
    method UnlinkHead() returns (item: Option<T>)
      requires Valid() && size > 0
      modifies `head, `tail, `size, `live, `freeNodes, `freeCount, `recycled, head
      ensures Valid() && live == old(live)[1..] && (View(), item) == Taken(old(View()))
      ensures recycled == if |old(recycled)| < MAX_FREE then [old(head)] + old(recycled) else old(recycled)
    {
      LinkedTail(head, live);
      var node := head;
      assert node == live[0] && node !in live[1..] && node !in recycled;
      hide Items, Linked;
      head := node.next;
      if head == null {
        tail := null;
      }
      size := size - 1;
      item := node.item;
      live := live[1..];
      HeadIsFirst(head, live);
      assert View().items == old(View()).items[1..];
      RecycleNode(node);
    }

    method TryPush(item: T) returns (ok: bool)
      requires Valid()
      modifies this, Nodes()
      ensures Valid() && (View(), ok) == Offered(old(View()), capacity, item)
      ensures fresh(Nodes() - old(Nodes()))
    {
      hide Items, Linked;
      if closed || (capacity > 0 && size >= capacity) {
        return false;
      }
      var node := ObtainNode();
      LinkTail(node, item);
      return true;
    }

    /** A push at the moment its wait for room is over. */
    method Push(item: T) returns (ok: bool)
      requires Valid() && (capacity == 0 || size < capacity || closed)
      modifies this, Nodes()
      ensures Valid() && (View(), ok) == Offered(old(View()), capacity, item)
      ensures fresh(Nodes() - old(Nodes()))
      ensures ok <==> !old(closed)
    {
      hide Items, Linked;
      if closed {
        return false;
      }
      var node := ObtainNode();
      LinkTail(node, item);
      return true;
    }

    method Poll() returns (item: Option<T>)
      requires Valid()
      modifies this, Nodes()
      ensures Valid() && (View(), item) == Taken(old(View()))
      ensures Nodes() <= old(Nodes())
    {
      if size == 0 {
        return None;
      }
      item := UnlinkHead();
    }

    /** A take at the moment its wait is over; it gives nothing only when closed and empty. */
    method Take() returns (item: Option<T>)
      requires Valid() && (size > 0 || closed)
      modifies this, Nodes()
      ensures Valid() && (View(), item) == Taken(old(View()))
      ensures item.None? ==> closed
      ensures Nodes() <= old(Nodes())
    {
      if closed && size == 0 {
        return None;
      }
      item := UnlinkHead();
    }

    /** A take that gave up waiting, or not. */
    method TakeFor(ok: bool) returns (item: Option<T>)
      requires Valid() && (ok ==> size > 0 || closed)
      modifies this, Nodes()
      ensures Valid() && (View(), item) == if ok then Taken(old(View())) else (old(View()), None)
      ensures Nodes() <= old(Nodes())
    {
      if !ok || (closed && size == 0) {
        return None;
      }
      item := UnlinkHead();
    }

    method Close()
      requires Valid()
      modifies `closed
      ensures Valid() && View() == old(View()).(closed := true)
    {
      closed := true;
    }
  }

  /** One call, with its effect on what was accepted and handed out. */
  method Call<T>(q: BlockingQueue<T>, call: Event<T>, accepted: seq<T>, out: seq<T>) returns (a: seq<T>, o: seq<T>)
    requires q.Valid() && !call.TakeAll?
    modifies q, q.Nodes()
    ensures q.Valid() && fresh(q.Nodes() - old(q.Nodes()))
    ensures History(q.View(), a, o) == Step(History(old(q.View()), accepted, out), q.capacity, call)
  {
    hide Items, Linked;
    a, o := accepted, out;
    match call {
      case Offer(x) =>
        var ok := q.TryPush(x);
        if ok {
          a := accepted + [x];
        }
      case Take =>
        var x := q.Poll();
        if x.Some? {
          o := out + [x.value];
        }
      case Close => q.Close();
    }
  }

  /** A queue driven by any sequence of calls goes through the states of the bounded queue. */
  method Drive<T>(capacity: nat, calls: seq<Event<T>>) returns (accepted: seq<T>, out: seq<T>, size: nat)
    requires forall i :: 0 <= i < |calls| ==> !calls[i].TakeAll?
    ensures var h := After(calls, capacity, |calls|); h.accepted == accepted && h.out == out && |h.q.items| == size
  {
    hide Items, Linked, Step;
    var q := new BlockingQueue<T>(capacity);
    accepted, out := [], [];
    for i := 0 to |calls|
      invariant fresh(q) && fresh(q.Nodes()) && q.Valid() && q.capacity == capacity
      invariant History(q.View(), accepted, out) == After(calls, capacity, i)
    {
      accepted, out := Call(q, calls[i], accepted, out);
    }
    size := q.size;
  }
}
