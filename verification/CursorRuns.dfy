/** What the receive cursor means, over every interleaving of arrivals and reports.

    A run is followed together with the set of numbers received and the set of numbers skipped as lost.
    The cursor is always the least number, from the first one received on, that is neither. */
module CursorRuns {
  import opened SequenceNumbers
  import opened ReceiveWindow

  datatype Event = Data(seq_: nat, now: int) | Report(t: Terms)

  /** The window with the history it should reflect: the first number received, the highest one, all of
      them, and those that were skipped. */
  datatype Tracked = Tracked(w: Window, first: nat, top: nat, received: set<nat>, skipped: set<nat>)

  const Start := Tracked(FreshWindow, 0, 0, {}, {})

  // ---------- Numbers skipped by a report ----------

  ghost function SkippedByGap(w: Window, g: nat): set<nat> {
    if w.initialized && g == w.next then {g} else {}
  }

  ghost function SkippedByVisit(w: Window, g: nat, t: Terms): set<nat>
    requires g in w.missing
  {
    if !t.retransmit || t.loss < t.now - w.missing[g] <= t.giveUp then SkippedByGap(w, g) else {}
  }

  ghost function SkippedByScan(w: Window, todo: set<nat>, t: Terms): set<nat>
    requires todo <= w.missing.Keys
    decreases |todo|
  {
    if todo == {} then {}
    else
      var g := Least(todo);
      VisitFrame(w, g, t);
      SkippedByVisit(w, g, t) + SkippedByScan(Visit(w, g, t).0, todo - {g}, t)
  }

  // ---------- Steps ----------

  ghost function Step(tr: Tracked, e: Event): Tracked {
    match e
    case Data(seq_, now) =>
      if seq_ == 0 then tr
      else Tracked(Receive(tr.w, seq_, now),
                   if tr.w.initialized then tr.first else seq_,
                   if tr.w.initialized && seq_ < tr.top then tr.top else seq_,
                   tr.received + {seq_}, tr.skipped)
    case Report(t) =>
      tr.(w := BuildReport(tr.w, t).0, skipped := tr.skipped + SkippedByScan(tr.w, tr.w.missing.Keys, t))
  }

  ghost function After(evs: seq<Event>, n: nat): Tracked
    requires n <= |evs|
    decreases n
  {
    if n == 0 then Start else Step(After(evs, n - 1), evs[n - 1])
  }

  // ---------- The invariant ----------

  /** Everything below the cursor is accounted for, and `recv` holds what was received from it on. */
  ghost predicate Accounts(tr: Tracked) {
    && (forall g :: tr.first <= g < tr.w.next ==> g in tr.received || g in tr.skipped)
    && (forall g :: g in tr.w.recv <==> g in tr.received && g >= tr.w.next)
    && (forall g :: g in tr.skipped ==> tr.first <= g < tr.w.next)
  }

  /** The cursor is the least number from `first` on that was neither received nor skipped, and `recv` is
      exactly the set of received numbers above it. */
  ghost predicate CursorIsLeast(tr: Tracked) {
    && tr.w.next !in tr.received && tr.w.next !in tr.skipped
    && (forall g :: tr.first <= g < tr.w.next ==> g in tr.received || g in tr.skipped)
    && (forall g :: g in tr.w.recv <==> g in tr.received && g > tr.w.next)
  }

  ghost predicate Invariant(tr: Tracked) {
    if !tr.w.initialized then
      tr.w == FreshWindow && tr.received == {} && tr.skipped == {}
    else
      Accounts(tr) && CursorIsLeast(tr)
  }

  lemma AdvancedAccounts(tr: Tracked)
    requires Accounts(tr)
    ensures var a := tr.(w := Advanced(tr.w));
            Accounts(a) && CursorIsLeast(a) && a.w.next >= tr.w.next && a.w.initialized == tr.w.initialized
  {
    var a := tr.(w := Advanced(tr.w));
    hide Digest;
    forall g | tr.first <= g < a.w.next
      ensures g in tr.received || g in tr.skipped
    {
      if g >= tr.w.next {
        assert g in tr.w.recv;
      }
    }
    forall g
      ensures g in a.w.recv <==> g in tr.received && g >= a.w.next
    {
      assert g in tr.w.recv && g !in a.w.recv <==> tr.w.next <= g < a.w.next;
    }
  }

  lemma ReceiveKeeps(tr: Tracked, seq_: nat, now: int)
    requires Invariant(tr) && seq_ > 0
    ensures Invariant(Step(tr, Data(seq_, now)))
    ensures tr.w.initialized ==> Step(tr, Data(seq_, now)).w.next >= tr.w.next
  {
    hide Advanced, MarkMissing;
    if tr.w.initialized {
      var added := tr.(received := tr.received + {seq_});
      if seq_ >= tr.w.next {
        var w := tr.w.(missing := MarkMissing(tr.w.missing, tr.w.recv, tr.w.next, seq_, now), recv := tr.w.recv + {seq_});
        AdvancedAccounts(added.(w := w));
      } else {
        AdvancedAccounts(added.(w := tr.w.(missing := tr.w.missing - {seq_})));
      }
    }
  }

  lemma SkipKeeps(tr: Tracked, g: nat)
    requires tr.w.initialized && Invariant(tr) && g in tr.w.missing
    requires g == tr.w.next ==> tr.first <= g
    ensures var s := tr.(w := SkipGap(tr.w, g), skipped := tr.skipped + SkippedByGap(tr.w, g));
            Invariant(s) && s.w.next >= tr.w.next && s.w.initialized && s.w.missing == tr.w.missing
  {
    if g == tr.w.next {
      hide Advanced;
      AdvancedAccounts(tr.(w := tr.w.(next := tr.w.next + 1), skipped := tr.skipped + {g}));
      AdvancedFrame(tr.w.(next := tr.w.next + 1));
    } else {
      assert tr.skipped + {} == tr.skipped;
    }
  }

  lemma AdvancedFrame(w: Window)
    ensures Advanced(w).missing == w.missing
  {}

  lemma VisitKeeps(tr: Tracked, g: nat, t: Terms)
    requires tr.w.initialized && Invariant(tr) && tr.first <= tr.w.next && g in tr.w.missing
    ensures var s := tr.(w := Visit(tr.w, g, t).0, skipped := tr.skipped + SkippedByVisit(tr.w, g, t));
            Invariant(s) && s.w.next >= tr.w.next && s.w.initialized
  {
    hide SkipGap, SkippedByGap, CursorIsLeast, Accounts;
    SkipKeeps(tr, g);
    assert tr.skipped + {} == tr.skipped;
    DropMissing(tr, tr.w.missing - {g});
    DropMissing(tr.(w := SkipGap(tr.w, g), skipped := tr.skipped + SkippedByGap(tr.w, g)), tr.w.missing - {g});
  }

  /** The invariant does not speak of the gap table. */
  lemma DropMissing(tr: Tracked, m: map<nat, int>)
    requires tr.w.initialized && Invariant(tr)
    ensures Invariant(tr.(w := tr.w.(missing := m)))
  {}

  lemma {:induction false} ScanKeeps(tr: Tracked, todo: set<nat>, t: Terms)
    requires tr.w.initialized && Invariant(tr) && tr.first <= tr.w.next && todo <= tr.w.missing.Keys
    ensures var s := tr.(w := Scan(tr.w, todo, t).0, skipped := tr.skipped + SkippedByScan(tr.w, todo, t));
            Invariant(s) && s.w.next >= tr.w.next && s.w.initialized
    decreases |todo|
  {
    hide Visit, SkippedByVisit, Invariant;
    if todo == {} {
      assert tr.skipped + {} == tr.skipped;
    } else {
      var g := Least(todo);
      VisitKeeps(tr, g, t);
      VisitFrame(tr.w, g, t);
      var skips := SkippedByVisit(tr.w, g, t);
      var s := tr.(w := Visit(tr.w, g, t).0, skipped := tr.skipped + skips);
      ScanKeeps(s, todo - {g}, t);
      var more := SkippedByScan(s.w, todo - {g}, t);
      assert (tr.skipped + skips) + more == tr.skipped + (skips + more);
    }
  }

  lemma ReportKeeps(tr: Tracked, t: Terms)
    requires Invariant(tr) && (tr.w.initialized ==> tr.first <= tr.w.next)
    ensures Invariant(Step(tr, Report(t)))
    ensures Step(tr, Report(t)).w.next >= tr.w.next
  {
    hide Evict;
    if tr.w.initialized {
      hide Scan, SkippedByScan, Invariant;
      ScanKeeps(tr, tr.w.missing.Keys, t);
      var s := tr.(w := Scan(tr.w, tr.w.missing.Keys, t).0, skipped := tr.skipped + SkippedByScan(tr.w, tr.w.missing.Keys, t));
      DropMissing(s, Evict(s.w.missing));
    } else {
      assert tr.w.missing.Keys == {};
      EvictSmall(map[]);
    }
  }

  lemma {:induction false} EvictSmall(m: map<nat, int>)
    requires |m| <= MISSING_CAP
    ensures Evict(m) == m
  {}

  ghost predicate InOrder(tr: Tracked) { tr.w.initialized ==> tr.first < tr.w.next }

  /** In every reachable state the cursor is the least number, from the first one received on, that was
      neither received nor skipped, and the set kept beside it holds exactly the received numbers above it. */
  lemma {:induction false} CursorInvariant(evs: seq<Event>, n: nat)
    requires n <= |evs|
    ensures Invariant(After(evs, n)) && InOrder(After(evs, n))
    decreases n
  {
    hide Invariant, Receive, BuildReport, SkippedByScan;
    if n == 0 {
      StartHolds();
    } else {
      CursorInvariant(evs, n - 1);
      StepKeeps(After(evs, n - 1), evs[n - 1]);
    }
  }

  lemma StartHolds()
    ensures Invariant(Start) && InOrder(Start)
  {}

  lemma StepKeeps(tr: Tracked, e: Event)
    requires Invariant(tr) && InOrder(tr)
    ensures Invariant(Step(tr, e)) && InOrder(Step(tr, e))
    ensures tr.w.initialized ==> Step(tr, e).w.next >= tr.w.next && Step(tr, e).first == tr.first
  {
    match e {
      case Data(seq_, now) =>
        if seq_ > 0 {
          ReceiveKeeps(tr, seq_, now);
          hide Advanced;
        }
      case Report(t) =>
        ReportKeeps(tr, t);
        hide Scan, Evict;
        ReportInitialized(tr.w, t);
    }
  }

  lemma ReportInitialized(w: Window, t: Terms)
    ensures BuildReport(w, t).0.initialized == w.initialized
  {
    hide Evict;
    ScanInitialized(w, w.missing.Keys, t);
  }

  lemma {:induction false} ScanInitialized(w: Window, todo: set<nat>, t: Terms)
    requires todo <= w.missing.Keys
    ensures Scan(w, todo, t).0.initialized == w.initialized
    decreases |todo|
  {
    if todo != {} {
      VisitFrame(w, Least(todo), t);
      ScanInitialized(Visit(w, Least(todo), t).0, todo - {Least(todo)}, t);
    }
  }

  /** The cursor never goes back. */
  lemma {:induction false} CursorNeverDecreases(evs: seq<Event>, i: nat, j: nat)
    requires i <= j <= |evs| && After(evs, i).w.initialized
    ensures After(evs, j).w.initialized
    ensures After(evs, i).w.next <= After(evs, j).w.next && After(evs, i).first == After(evs, j).first
    decreases j
  {
    hide Invariant, Step, InOrder;
    if i < j {
      CursorNeverDecreases(evs, i, j - 1);
      CursorInvariant(evs, j - 1);
      StepKeeps(After(evs, j - 1), evs[j - 1]);
      StepInitialized(After(evs, j - 1), evs[j - 1]);
    }
  }

  lemma StepInitialized(tr: Tracked, e: Event)
    requires tr.w.initialized
    ensures Step(tr, e).w.initialized
  {
    match e {
      case Data(seq_, now) => hide Advanced; AdvancedInitialized();
      case Report(t) => ReportInitialized(tr.w, t);
    }
  }

  lemma AdvancedInitialized()
    ensures forall w: Window :: Advanced(w).initialized == w.initialized
  {}

  // ---------- When a report passes the gap at the cursor ----------

  /** The report skips the gap at the cursor: always with retransmission off, otherwise in the window between
      the loss threshold and the give-up time. */
  predicate Passes(w: Window, t: Terms)
    requires w.next in w.missing
  {
    !t.retransmit || t.loss < t.now - w.missing[w.next] <= t.giveUp
  }

  lemma {:induction false} ScanPassesExactly(w: Window, todo: set<nat>, t: Terms)
    requires w.initialized && todo <= w.missing.Keys && w.next in todo
    ensures Scan(w, todo, t).0.next > w.next <==> Passes(w, t)
    decreases |todo|
  {
    hide Advanced;
    var g := Least(todo);
    VisitFrame(w, g, t);
    var w1 := Visit(w, g, t).0;
    AdvancedForward(w.(next := w.next + 1));
    AdvancedInitialized();
    if g != w.next {
      ScanPassesExactly(w1, todo - {g}, t);
    } else if w1.next == w.next {
      ScanStaysPut(w1, todo - {g}, t);
    } else {
      ScanForward(w1, todo - {g}, t);
    }
  }

  lemma {:induction false} ScanForward(w: Window, todo: set<nat>, t: Terms)
    requires todo <= w.missing.Keys
    ensures Scan(w, todo, t).0.next >= w.next
    decreases |todo|
  {
    hide Advanced;
    if todo != {} {
      var g := Least(todo);
      VisitFrame(w, g, t);
      AdvancedForward(w.(next := w.next + 1));
      ScanForward(Visit(w, g, t).0, todo - {g}, t);
    }
  }

  lemma AdvancedForward(w: Window)
    ensures Advanced(w).next >= w.next
  {}

  /** Without the number at the cursor among the gaps to visit, the cursor stays. */
  lemma {:induction false} ScanStaysPut(w: Window, todo: set<nat>, t: Terms)
    requires todo <= w.missing.Keys && w.next !in todo
    ensures Scan(w, todo, t).0.next == w.next
    decreases |todo|
  {
    if todo != {} {
      var g := Least(todo);
      VisitFrame(w, g, t);
      ScanStaysPut(Visit(w, g, t).0, todo - {g}, t);
    }
  }

  /** A report moves the cursor past the gap it stands at if and only if `Passes` holds. In particular a gap
      whose age jumps over the give-up time between two reports is dropped without ever being skipped. */
  lemma GapPassedExactly(w: Window, t: Terms)
    requires w.initialized && w.next in w.missing
    ensures BuildReport(w, t).0.next > w.next <==> Passes(w, t)
  {
    hide Scan, Evict;
    ScanPassesExactly(w, w.missing.Keys, t);
  }

  lemma {:induction false} ScanOne(w: Window, g: nat, t: Terms)
    requires g in w.missing
    ensures Scan(w, {g}, t) == Visit(w, g, t)
  {
    assert Least({g}) == g;
    VisitFrame(w, g, t);
    var (w1, lost) := Visit(w, g, t);
    assert {g} - {g} == {};
    assert Scan(w1, {g} - {g}, t) == (w1, []);
    assert lost + [] == lost;
  }

  /** Numbers 1 and 3 arrive, then no report is built until the give-up time is over: the report neither lists
      number 2 nor moves the cursor past it. */
  lemma GivenUpWithoutSkip(giveUp: nat)
    ensures var w := After([Data(1, 0), Data(3, 0)], 2).w;
            var (w', ack, lost) := BuildReport(w, Terms(giveUp + 1, 100000, giveUp, true));
            w.next == 2 && 2 in w.missing && w'.next == 2 && 2 !in w'.missing && lost == []
  {
    var evs := [Data(1, 0), Data(3, 0)];
    var w1 := Window(true, 2, {}, map[]);
    assert After(evs, 0) == Start;
    assert After(evs, 1).w == w1;
    var marked := MarkMissing(map[], {}, 2, 3, 0);
    assert marked == map[2 := 0];
    assert Digest(2, {} + {3}) == (2, {} + {3});
    var w := After(evs, 2).w;
    assert w == Window(true, 2, {} + {3}, map[2 := 0]);
    var t := Terms(giveUp + 1, 100000, giveUp, true);
    assert w.missing.Keys == {2};
    assert Least(w.missing.Keys) == 2;
    assert Visit(w, 2, t) == (w.(missing := w.missing - {2}), []);
    ScanOne(w, 2, t);
    assert Scan(w, {2}, t) == (w.(missing := w.missing - {2}), []);
    assert w.missing - {2} == map[];
    EvictSmall(map[]);
  }
}
