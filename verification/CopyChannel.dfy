/** The linked channel with a sentinel node: gateway/gateway_channel.hpp.

    Every method runs under the channel's lock, so each is one step. A blocking call is modelled at the moment
    its wait ends: the awaited condition is its precondition. */
module CopyChannel {
  import opened Octets
  import opened Fifo
  import opened BlockingQueue

  lemma Regroup<T>(batch: seq<T>, x: T, rest: seq<T>)
    ensures batch + ([x] + rest) == (batch + [x]) + rest
  {}

  class CopyChannel<T> {
    const capacity: nat
    var count: nat
    var head: Node<T>
    var tail: Node<T>
    var closed: bool
    /** The sentinel and the queued nodes. */
    ghost var nodes: seq<Node<T>>

    ghost predicate Valid()
      reads this, nodes
    {
      && |nodes| == count + 1 && Linked(head, nodes) && tail == nodes[count]
      && (capacity > 0 ==> count <= capacity)
      && (forall i :: 1 <= i < |nodes| ==> nodes[i].item.Some?)
    }

    ghost function View(): Queue<T>
      requires Valid()
      reads this, nodes
    {
      Queue(Items(nodes[1..]), closed)
    }

    ghost function Nodes(): set<Node<T>>
      reads this
    {
      set n <- nodes
    }

    constructor (capacity: nat)
      ensures Valid() && View() == Queue([], false) && this.capacity == capacity && fresh(Nodes())
    {
      this.capacity := capacity;
      count := 0;
      closed := false;
      var sentinel := new Node<T>();
      head, tail := sentinel, sentinel;
      nodes := [sentinel];
    }

    /** Appends a node with the item behind the last one. */
    method Link(item: T)
      requires Valid() && (capacity == 0 || count < capacity)
      modifies `tail, `count, `nodes, tail
      ensures Valid() && closed == old(closed) && View().items == old(View()).items + [item]
      ensures fresh(Nodes() - old(Nodes()))
    {
      hide Items;
      var node := new Node<T>();
      node.item := Some(item);
      tail.next := node;
      tail := node;
      count := count + 1;
      nodes := nodes + [node];
      assert nodes[1..] == old(nodes[1..]) + [node];
    }

    method TrySend(item: T) returns (ok: bool)
      requires Valid()
      modifies this, Nodes()
      ensures Valid() && (View(), ok) == Offered(old(View()), capacity, item)
      ensures fresh(Nodes() - old(Nodes()))
    {
      hide Items, Linked;
      if closed {
        return false;
      }
      if capacity > 0 && count >= capacity {
        return false;
      }
      Link(item);
      return true;
    }

    /** A send at the moment its wait for room is over; on a closed channel the item is dropped. */
    method Send(item: T)
      requires Valid() && (capacity == 0 || count < capacity || closed)
      modifies this, Nodes()
      ensures Valid() && View() == Offered(old(View()), capacity, item).0
      ensures fresh(Nodes() - old(Nodes()))
    {
      hide Items, Linked;
      if closed {
        return;
      }
      Link(item);
    }

    /** Moves the sentinel on by one node and hands out that node's item. */
    method Advance() returns (item: T)
      requires Valid() && count > 0
      modifies `head, `count, `nodes
      ensures Valid() && nodes == old(nodes)[1..] && closed == old(closed)
      ensures old(View()).items == [item] + View().items
    {
      LinkedTail(head, nodes);
      assert head.next == nodes[1];
      hide Items, Linked;
      var next := head.next;
      item := next.item.value;
      head := next;
      count := count - 1;
      nodes := nodes[1..];
      assert old(View()).items == [item] + View().items;
    }

    method TryRecv() returns (item: Option<T>)
      requires Valid()
      modifies this
      ensures Valid() && (View(), item) == Taken(old(View())) && Nodes() <= old(Nodes())
    {
      NextIsNull();
      hide Items, Linked;
      if head.next == null {
        return None;
      }
      var x := Advance();
      return Some(x);
    }

    /** A receive at the moment its wait is over; it gives nothing only when closed and empty. */
    method Recv() returns (item: Option<T>)
      requires Valid() && (count > 0 || closed)
      modifies this
      ensures Valid() && (View(), item) == Taken(old(View())) && Nodes() <= old(Nodes())
      ensures item.None? ==> closed
    {
      NextIsNull();
      hide Items, Linked;
      if closed && head.next == null {
        return None;
      }
      var x := Advance();
      return Some(x);
    }

    lemma NextIsNull()
      requires Valid()
      ensures head.next == null <==> count == 0
    {
      if count > 0 {
        assert nodes[0].next == nodes[1];
      }
    }

    /** Takes everything queued, in order; the sentinel ends up at the tail. */
    method SwapOut() returns (batch: seq<T>)
      requires Valid()
      modifies this
      ensures Valid() && batch == old(View()).items && View() == old(View()).(items := [])
      ensures head == tail && count == 0 && Nodes() <= old(Nodes())
    {
      hide Items, Linked;
      batch := [];
      NextIsNull();
      assert batch + View().items == View().items;
      while head.next != null
        invariant Valid() && Nodes() <= old(Nodes()) && closed == old(closed)
        invariant head.next == null <==> count == 0
        invariant batch + View().items == old(View()).items
        decreases count
      {
        var x := Advance();
        Regroup(batch, x, View().items);
        batch := batch + [x];
        NextIsNull();
      }
      HeadIsTail();
    }

    lemma HeadIsTail()
      requires Valid() && count == 0
      ensures head == tail && View().items == []
    {}

    method Close()
      requires Valid()
      modifies `closed
      ensures Valid() && View() == old(View()).(closed := true)
    {
      closed := true;
    }
  }

  /** One call, with its effect on what was accepted and handed out. */
  method Call<T>(c: CopyChannel<T>, call: Event<T>, accepted: seq<T>, out: seq<T>) returns (a: seq<T>, o: seq<T>)
    requires c.Valid()
    modifies c, c.Nodes()
    ensures c.Valid() && fresh(c.Nodes() - old(c.Nodes()))
    ensures History(c.View(), a, o) == Step(History(old(c.View()), accepted, out), c.capacity, call)
  {
    hide Items, Linked;
    a, o := accepted, out;
    match call {
      case Offer(x) =>
        var ok := c.TrySend(x);
        if ok {
          a := accepted + [x];
        }
      case Take =>
        var x := c.TryRecv();
        if x.Some? {
          o := out + [x.value];
        }
      case TakeAll =>
        var batch := c.SwapOut();
        o := out + batch;
      case Close => c.Close();
    }
  }

  /** A channel driven by any sequence of calls goes through the states of the bounded queue. */
  method Drive<T>(capacity: nat, calls: seq<Event<T>>) returns (accepted: seq<T>, out: seq<T>, size: nat)
    ensures var h := After(calls, capacity, |calls|); h.accepted == accepted && h.out == out && |h.q.items| == size
  {
    hide Items, Linked, Step;
    var c := new CopyChannel<T>(capacity);
    accepted, out := [], [];
    for i := 0 to |calls|
      invariant fresh(c) && fresh(c.Nodes()) && c.Valid() && c.capacity == capacity
      invariant History(c.View(), accepted, out) == After(calls, capacity, i)
    {
      accepted, out := Call(c, calls[i], accepted, out);
    }
    size := c.count;
  }
}
