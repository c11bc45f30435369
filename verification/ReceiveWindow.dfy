/** The receive cursor and the gap table of a peer: the sequence tracking of Reassembler::handle_data in
    tight/src/reassembler.cpp and the locked part of Report::build_payload in tight/src/report.cpp.

    Sequence numbers are below 2^32 - 1; the source has no wrap-around handling. */
module ReceiveWindow {

  import opened SequenceNumbers

  // ---------- The state and its steps as functions ----------

  datatype Window = Window(initialized: bool, next: nat, recv: set<nat>, missing: map<nat, int>)

  const FreshWindow := Window(false, 0, {}, map[])

  /** Moves the cursor over received numbers that follow it. */
  function Digest(next: nat, recv: set<nat>): (r: (nat, set<nat>))
    ensures r.0 >= next && r.0 !in r.1 && r.1 <= recv
    ensures forall g :: next <= g < r.0 ==> g in recv
    ensures forall g :: g in recv && g !in r.1 <==> next <= g < r.0
    decreases |recv|
  {
    if next in recv then Digest(next + 1, recv - {next}) else (next, recv)
  }

  function Advanced(w: Window): Window {
    var (n, r) := Digest(w.next, w.recv);
    w.(next := n, recv := r)
  }

  /** Numbers lo..hi-1 that are not received become gaps, unless they already are. */
  function MarkMissing(missing: map<nat, int>, recv: set<nat>, lo: nat, hi: nat, now: int): (m: map<nat, int>)
    ensures forall g :: g in m <==> g in missing || (lo <= g < hi && g !in recv)
    ensures forall g :: g in m ==> m[g] == if g in missing then missing[g] else now
  {
    var gaps := set g | lo <= g < hi && g !in recv;
    map g | g in missing.Keys + gaps :: if g in missing then missing[g] else now
  }

  /** Arrival of a data packet; sequence 0 means unnumbered. */
  function Receive(w: Window, seq_: nat, now: int): Window {
    if seq_ == 0 then w
    else if !w.initialized then w.(next := seq_ + 1, initialized := true)
    else if seq_ >= w.next then
      Advanced(w.(missing := MarkMissing(w.missing, w.recv, w.next, seq_, now), recv := w.recv + {seq_}))
    else
      Advanced(w.(missing := w.missing - {seq_}))
  }

  function SkipGap(w: Window, g: nat): Window {
    if w.initialized && g == w.next then Advanced(w.(next := w.next + 1)) else w
  }

  /** What a report is built under: the clock, the thresholds and whether both ends retransmit. */
  datatype Terms = Terms(now: int, loss: int, giveUp: int, retransmit: bool)

  /** One turn of the scan over the gap table. */
  function Visit(w: Window, g: nat, t: Terms): (r: (Window, seq<nat>))
    requires g in w.missing
  {
    var elapsed := t.now - w.missing[g];
    if !t.retransmit then (SkipGap(w, g).(missing := w.missing - {g}), [])
    else if elapsed > t.giveUp then (w.(missing := w.missing - {g}), [])
    else if elapsed > t.loss then (SkipGap(w, g), [g])
    else (w, [])
  }

  lemma VisitFrame(w: Window, g: nat, t: Terms)
    requires g in w.missing
    ensures forall h :: h != g ==> (h in Visit(w, g, t).0.missing <==> h in w.missing)
    ensures forall h :: h != g && h in w.missing ==> Visit(w, g, t).0.missing[h] == w.missing[h]
  {}

  /** The scan over the gaps still to visit, in increasing order. */
  function Scan(w: Window, todo: set<nat>, t: Terms): (r: (Window, seq<nat>))
    requires todo <= w.missing.Keys
    decreases |todo|
  {
    if todo == {} then (w, [])
    else
      var g := Least(todo);
      var (w1, l1) := Visit(w, g, t);
      VisitFrame(w, g, t);
      var (w2, l2) := Scan(w1, todo - {g}, t);
      (w2, l1 + l2)
  }

  const MISSING_CAP: nat := 4096

  /** Drops the oldest numbers while the table is over its cap. */
  function Evict(missing: map<nat, int>): map<nat, int>
    decreases |missing|
  {
    if |missing| <= MISSING_CAP then missing
    else
      var g := Least(missing.Keys);
      assert |missing - {g}| < |missing| by { assert (missing - {g}).Keys == missing.Keys - {g}; }
      Evict(missing - {g})
  }

  function AckOf(w: Window): nat {
    if w.initialized && w.next > 0 then w.next - 1 else 0
  }

  /** Building a report: the new state, the acknowledged number and the lost numbers. */
  function BuildReport(w: Window, t: Terms): (r: (Window, nat, seq<nat>)) {
    var (w1, lost) := Scan(w, w.missing.Keys, t);
    var w2 := w1.(missing := Evict(w1.missing));
    (w2, AckOf(w2), lost)
  }

  // ---------- The peer fields updated in place ----------

  class ReceiveState {
    var initialized: bool
    var next: nat
    var recv: set<nat>
    var missing: map<nat, int>

    ghost function Current(): Window
      reads this
    {
      Window(initialized, next, recv, missing)
    }

    constructor ()
      ensures Current() == FreshWindow
    {
      initialized, next, recv, missing := false, 0, {}, map[];
    }

    method DigestReceived()
      modifies this`next, this`recv
      ensures Current() == Advanced(old(Current()))
    {
      while next in recv
        invariant Digest(next, recv) == old(Digest(next, recv))
        decreases |recv|
      {
        recv := recv - {next};
        next := next + 1;
      }
    }

    method HandleSequence(seq_: nat, now: int)
      requires seq_ < MAX_SEQ
      modifies this
      ensures Current() == Receive(old(Current()), seq_, now)
    {
      if seq_ == 0 {
      } else if !initialized {
        next := seq_ + 1;
        initialized := true;
      } else if seq_ >= next {
        ghost var m0 := missing;
        for g := next to seq_
          invariant next == old(next) && recv == old(recv) && initialized == old(initialized)
          invariant missing == MarkMissing(m0, recv, next, g, now)
        {
          if g !in recv && g !in missing {
            missing := missing[g := now];
          }
          assert missing == MarkMissing(m0, recv, next, g + 1, now);
        }
        recv := recv + {seq_};
        DigestReceived();
      } else {
        missing := missing - {seq_};
        DigestReceived();
      }
    }

    method SkipOver(g: nat)
      modifies this`next, this`recv
      ensures Current() == SkipGap(old(Current()), g)
    {
      if initialized && g == next {
        next := next + 1;
        DigestReceived();
      }
    }

    /** The locked section of build_payload. */
    method Report(t: Terms) returns (ack: nat, lost: seq<nat>)
      modifies this
      ensures (Current(), ack, lost) == BuildReport(old(Current()), t)
    {
      lost := ScanGaps(t);
      while |missing| > MISSING_CAP
        invariant Evict(missing) == old(Evict(Scan(Current(), missing.Keys, t).0.missing))
        invariant Current().(missing := map[]) == old(Scan(Current(), missing.Keys, t).0).(missing := map[])
        decreases |missing|
      {
        var g := Least(missing.Keys);
        assert |missing - {g}| < |missing| by { assert (missing - {g}).Keys == missing.Keys - {g}; }
        missing := missing - {g};
      }
      ack := if initialized then (if next > 0 then next - 1 else 0) else 0;
    }

    method ScanGaps(t: Terms) returns (lost: seq<nat>)
      modifies this
      ensures (Current(), lost) == Scan(old(Current()), old(missing).Keys, t)
    {
      hide Advanced, SkipGap;
      lost := [];
      var todo := missing.Keys;
      ghost var goal := Scan(Current(), todo, t);
      assert [] + goal.1 == goal.1;
      while todo != {}
        invariant todo <= missing.Keys
        invariant goal.0 == Scan(Current(), todo, t).0 && goal.1 == lost + Scan(Current(), todo, t).1
        decreases |todo|
      {
        var g := Least(todo);
        ghost var before, seen := Current(), lost;
        var elapsed := t.now - missing[g];
        if !t.retransmit {
          SkipOver(g);
          missing := missing - {g};
        } else if elapsed > t.giveUp {
          missing := missing - {g};
        } else if elapsed > t.loss {
          lost := lost + [g];
          SkipOver(g);
        }
        VisitFrame(before, g, t);
        assert Current() == Visit(before, g, t).0;
        assert lost == seen + Visit(before, g, t).1;
        AppendAssoc(seen, Visit(before, g, t).1, Scan(Current(), todo - {g}, t).1);
        todo := todo - {g};
      }
      assert lost + [] == lost;
    }
  }

  lemma AppendAssoc(a: seq<nat>, b: seq<nat>, c: seq<nat>)
    ensures (a + b) + c == a + (b + c)
  {}
}
