/** The sender's buffer of unacknowledged packets and the part of Report::handle in tight/src/report.cpp
    that prunes and resends. */
module RetransmitBuffer {

  const MAX_RETRIES: nat := 10

  datatype Entry<T> = Entry(packet: T, retries: nat)

  /** A report lets go of what it acknowledges and does not list, and of what has used up its retries. */
  predicate Forgets<T>(e: Entry<T>, s: nat, ack: nat, lost: set<nat>) {
    (s <= ack && s !in lost) || e.retries >= MAX_RETRIES
  }

  predicate Resends<T>(e: Entry<T>, s: nat, lost: set<nat>) {
    s in lost && e.retries < MAX_RETRIES
  }

  function Pruned<T>(pending: map<nat, Entry<T>>, ack: nat, lost: set<nat>): map<nat, Entry<T>> {
    map s | s in pending && !Forgets(pending[s], s, ack, lost) ::
      if s in lost then pending[s].(retries := pending[s].retries + 1) else pending[s]
  }

  function Resent<T>(pending: map<nat, Entry<T>>, lost: set<nat>): map<nat, T> {
    map s | s in pending && Resends(pending[s], s, lost) :: pending[s].packet
  }

  /** The unacknowledged packets of one peer. */
  class Buffer<T> {
    var pending: map<nat, Entry<T>>

    constructor ()
      ensures pending == map[]
    {
      pending := map[];
    }

    method Add(s: nat, packet: T)
      modifies this
      ensures pending == old(pending)[s := Entry(packet, 0)]
    {
      pending := pending[s := Entry(packet, 0)];
    }

    method Snapshot(ack: nat, lost: set<nat>) returns (snapshot: map<nat, T>)
      ensures snapshot == Resent(pending, lost)
    {
      snapshot := map[];
      var todo := pending.Keys;
      while todo != {}
        invariant todo <= pending.Keys
        invariant snapshot == map s | s in pending && s !in todo && Resends(pending[s], s, lost) :: pending[s].packet
      {
        var s :| s in todo;
        if s <= ack && s !in lost {
        } else if s in lost && pending[s].retries < MAX_RETRIES {
          snapshot := snapshot[s := pending[s].packet];
        }
        todo := todo - {s};
      }
    }

    method Prune(ack: nat, lost: set<nat>)
      modifies this
      ensures pending == Kept(old(pending), ack, lost)
    {
      var todo := pending.Keys;
      while todo != {}
        invariant todo <= pending.Keys
        invariant pending == map s | s in old(pending) && (s in todo || !Forgets(old(pending)[s], s, ack, lost)) :: old(pending)[s]
      {
        var s :| s in todo;
        if (s <= ack && s !in lost) || pending[s].retries >= MAX_RETRIES {
          pending := pending - {s};
        }
        todo := todo - {s};
      }
    }

    /** Hands each packet of the snapshot to the network and counts the retry on what is still pending. */
    method ResendAll(snapshot: map<nat, T>) returns (resent: map<nat, T>)
      modifies this
      ensures resent == snapshot
      ensures pending == Counted(old(pending), snapshot.Keys)
    {
      resent := map[];
      var todo := snapshot.Keys;
      while todo != {}
        invariant todo <= snapshot.Keys
        invariant resent == map s | s in snapshot && s !in todo :: snapshot[s]
        invariant pending == Counted(old(pending), snapshot.Keys - todo)
      {
        var s :| s in todo;
        resent := resent[s := snapshot[s]];
        CountOne(old(pending), snapshot.Keys - todo, s);
        if s in pending && pending[s].retries < MAX_RETRIES {
          pending := pending[s := pending[s].(retries := pending[s].retries + 1)];
        }
        assert snapshot.Keys - (todo - {s}) == (snapshot.Keys - todo) + {s};
        todo := todo - {s};
      }
      assert snapshot.Keys - {} == snapshot.Keys;
    }

    /** Snapshot what to resend, prune, then resend and count. */
    method HandleReport(ack: nat, lost: set<nat>) returns (resent: map<nat, T>)
      modifies this
      ensures pending == Pruned(old(pending), ack, lost)
      ensures resent == Resent(old(pending), lost)
    {
      var snapshot := Snapshot(ack, lost);
      Prune(ack, lost);
      resent := ResendAll(snapshot);
      PruneThenCount(old(pending), ack, lost);
    }
  }

  function Kept<T>(pending: map<nat, Entry<T>>, ack: nat, lost: set<nat>): map<nat, Entry<T>> {
    map s | s in pending && !Forgets(pending[s], s, ack, lost) :: pending[s]
  }

  function Counted<T>(pending: map<nat, Entry<T>>, numbers: set<nat>): map<nat, Entry<T>> {
    map s | s in pending ::
      if s in numbers && pending[s].retries < MAX_RETRIES then pending[s].(retries := pending[s].retries + 1) else pending[s]
  }

  lemma CountOne<T>(pending: map<nat, Entry<T>>, numbers: set<nat>, s: nat)
    requires s !in numbers
    ensures var c := Counted(pending, numbers);
            Counted(pending, numbers + {s}) ==
              if s in c && c[s].retries < MAX_RETRIES then c[s := c[s].(retries := c[s].retries + 1)] else c
  {
    var c, d := Counted(pending, numbers), Counted(pending, numbers + {s});
    assert d.Keys == c.Keys;
    if s in c && c[s].retries < MAX_RETRIES {
      assert d == c[s := c[s].(retries := c[s].retries + 1)];
    } else {
      assert d == c;
    }
  }

  lemma PruneThenCount<T>(pending: map<nat, Entry<T>>, ack: nat, lost: set<nat>)
    ensures Counted(Kept(pending, ack, lost), Resent(pending, lost).Keys) == Pruned(pending, ack, lost)
  {
    assert Counted(Kept(pending, ack, lost), Resent(pending, lost).Keys).Keys == Pruned(pending, ack, lost).Keys;
  }

  /** After a report every entry left is above the acknowledged number or listed as lost, those at or below it
      are exactly the ones just resent, and each entry carries the number of times it was resent. */
  lemma AfterReport<T>(pending: map<nat, Entry<T>>, ack: nat, lost: set<nat>)
    ensures var kept := Pruned(pending, ack, lost);
            var resent := Resent(pending, lost);
            && (forall s :: s in kept ==> s > ack || s in lost)
            && (forall s :: s in kept && s <= ack <==> s in resent && s <= ack)
            && (forall s :: s in kept ==> kept[s].retries == pending[s].retries + (if s in resent then 1 else 0) <= MAX_RETRIES)
            && (forall s :: s in kept ==> kept[s].packet == pending[s].packet)
            && (forall s :: s in resent ==> s in kept && pending[s].retries < MAX_RETRIES)
  {}
}
