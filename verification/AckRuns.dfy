/** What a report says, over every run: which number it acknowledges and which it lists, and that delivering it makes
    the sender let go of what the receiver has (the locked part of build_payload, tight/src/report.cpp:44-81). */
module AckRuns {
  import opened SequenceNumbers
  import opened ReceiveWindow
  import opened CursorRuns
  import opened RetransmitBuffer
  import opened AckProtocol
  import Resends = ResendRuns

  // ---------- The acknowledgment ----------

  /** The acknowledged number is the last before the first gap: everything from the first number to it was received or
      skipped, and the next one was neither. */
  ghost predicate Acknowledges(tr: Tracked, ack: nat) {
    && tr.first <= ack
    && (forall g :: tr.first <= g <= ack ==> g in tr.received || g in tr.skipped)
    && ack + 1 !in tr.received && ack + 1 !in tr.skipped
  }

  /** In every run, for every report: there is one such number, and it is the one that the report carries; before any
      data the report carries 0. */
  lemma {:induction false} AckExactly(evs: seq<CursorRuns.Event>, n: nat, ack: nat)
    requires n < |evs| && evs[n].Report?
    ensures var tr := CursorRuns.After(evs, n + 1);
            ack == BuildReport(CursorRuns.After(evs, n).w, evs[n].t).1
            <==> if tr.w.initialized then Acknowledges(tr, ack) else ack == 0
  {
    var tr := CursorRuns.After(evs, n + 1);
    CursorInvariant(evs, n + 1);
    AckOfReport(CursorRuns.After(evs, n), evs[n].t);
    hide BuildReport, CursorRuns.After;
    if tr.w.initialized {
      assert Acknowledges(tr, tr.w.next - 1);
      if Acknowledges(tr, ack) {
        OneLeast(tr, ack, tr.w.next - 1);
      }
    }
  }

  lemma AckOfReport(tr: Tracked, t: Terms)
    ensures BuildReport(tr.w, t).1 == AckOf(CursorRuns.Step(tr, CursorRuns.Report(t)).w)
  {
    hide Scan, Evict, SkippedByScan;
  }

  lemma OneLeast(tr: Tracked, a: nat, b: nat)
    requires Acknowledges(tr, a) && Acknowledges(tr, b)
    ensures a == b
  {
    assert a < b ==> tr.first <= a + 1 <= b;
    assert b < a ==> tr.first <= b + 1 <= a;
  }

  // ---------- The losses ----------

  ghost predicate Increasing(s: seq<nat>) { forall i, j :: 0 <= i < j < |s| ==> s[i] < s[j] }

  /** The scan lists, in increasing order, exactly the gaps between the loss and the give-up threshold. */
  lemma {:induction false} ScanLists(w: Window, todo: set<nat>, t: Terms)
    requires todo <= w.missing.Keys
    ensures var lost := Scan(w, todo, t).1;
            && Increasing(lost)
            && forall g :: g in lost <==> g in todo && t.retransmit && t.loss < t.now - w.missing[g] <= t.giveUp
    decreases |todo|
  {
    hide SkipGap;
    if todo != {} {
      var g := Least(todo);
      VisitFrame(w, g, t);
      var (w1, l1) := Visit(w, g, t);
      ScanLists(w1, todo - {g}, t);
      VisitTimes(w, g, t);
      hide Visit, Scan;
      ListAppends(g, l1, Scan(w1, todo - {g}, t).1, todo);
      ScanOnce(w, todo, t);
    }
  }

  lemma {:induction false} ScanOnce(w: Window, todo: set<nat>, t: Terms)
    requires todo <= w.missing.Keys && todo != {}
    ensures var g := Least(todo);
            && todo - {g} <= Visit(w, g, t).0.missing.Keys
            && Scan(w, todo, t).1 == Visit(w, g, t).1 + Scan(Visit(w, g, t).0, todo - {g}, t).1
  {
    hide Visit;
    VisitFrame(w, Least(todo), t);
  }

  lemma ListAppends(g: nat, first: seq<nat>, rest: seq<nat>, todo: set<nat>)
    requires first == [] || first == [g]
    requires Increasing(rest) && (forall x :: x in rest ==> x in todo - {g}) && (forall x :: x in todo ==> g <= x)
    ensures Increasing(first + rest) && forall x :: x in first + rest <==> x in first || x in rest
  {
    var s := first + rest;
    forall i, j | 0 <= i < j < |s| ensures s[i] < s[j] {
      assert s[j] in rest;
    }
  }

  lemma VisitTimes(w: Window, g: nat, t: Terms)
    requires g in w.missing
    ensures Visit(w, g, t).1 == if t.retransmit && t.loss < t.now - w.missing[g] <= t.giveUp then [g] else []
  {}

  /** Every report lists, in increasing order, exactly the gaps between the two thresholds, if both ends retransmit. */
  lemma ReportListsExactly(w: Window, t: Terms)
    ensures var lost := BuildReport(w, t).2;
            && Increasing(lost)
            && forall g :: g in lost <==> g in w.missing && t.retransmit && t.loss < t.now - w.missing[g] <= t.giveUp
  {
    hide Scan, Evict;
    ScanLists(w, w.missing.Keys, t);
  }

  // ---------- The gap table ----------

  /** Gaps are numbers from the first one on. */
  ghost predicate GapsFrom(tr: Tracked) {
    if tr.w.initialized then tr.first > 0 && forall g :: g in tr.w.missing ==> tr.first <= g
    else tr.w.missing == map[]
  }

  lemma {:induction false} ScanShrinks(w: Window, todo: set<nat>, t: Terms)
    requires todo <= w.missing.Keys
    ensures Scan(w, todo, t).0.missing.Keys <= w.missing.Keys
    decreases |todo|
  {
    if todo != {} {
      var g := Least(todo);
      VisitFrame(w, g, t);
      VisitShrinks(w, g, t);
      hide Visit;
      ScanShrinks(Visit(w, g, t).0, todo - {g}, t);
    }
  }

  lemma VisitShrinks(w: Window, g: nat, t: Terms)
    requires g in w.missing
    ensures Visit(w, g, t).0.missing.Keys <= w.missing.Keys
  {
    hide Digest;
  }

  lemma {:induction false} EvictShrinks(missing: map<nat, int>)
    ensures Evict(missing).Keys <= missing.Keys
    decreases |missing|
  {
    if |missing| > MISSING_CAP {
      var g := Least(missing.Keys);
      assert |missing - {g}| < |missing| by { assert (missing - {g}).Keys == missing.Keys - {g}; }
      EvictShrinks(missing - {g});
    }
  }

  /** Eviction keeps the 4096 highest numbers, with their times. */
  lemma {:induction false} EvictsLowest(missing: map<nat, int>)
    ensures var kept := Evict(missing);
            && |kept| == (if |missing| <= 4096 then |missing| else 4096)
            && (forall g :: g in kept ==> g in missing && kept[g] == missing[g])
            && (forall g, h :: g in kept && h in missing && h !in kept ==> h < g)
    decreases |missing|
  {
    if |missing| > MISSING_CAP {
      var g := Least(missing.Keys);
      var rest := missing - {g};
      assert rest.Keys == missing.Keys - {g};
      assert |rest| == |missing| - 1;
      EvictsLowest(rest);
    }
  }

  lemma ReportShrinks(w: Window, t: Terms)
    ensures BuildReport(w, t).0.missing.Keys <= w.missing.Keys
  {
    ScanShrinks(w, w.missing.Keys, t);
    hide Scan, Evict;
    EvictShrinks(Scan(w, w.missing.Keys, t).0.missing);
  }

  lemma StepFrom(tr: Tracked, e: CursorRuns.Event)
    requires Invariant(tr) && InOrder(tr) && GapsFrom(tr)
    ensures GapsFrom(CursorRuns.Step(tr, e))
  {
    match e {
      case Data(s, now) => DataFrom(tr, s, now);
      case Report(t) =>
        ReportShrinks(tr.w, t);
        ReportInitialized(tr.w, t);
        hide BuildReport, SkippedByScan;
        if !tr.w.initialized {
          assert BuildReport(tr.w, t).0.missing.Keys == {};
        }
    }
  }

  lemma DataFrom(tr: Tracked, s: nat, now: int)
    requires Invariant(tr) && InOrder(tr) && GapsFrom(tr)
    ensures GapsFrom(CursorRuns.Step(tr, Data(s, now)))
  {
    hide Digest, MarkMissing;
  }

  lemma {:induction false} RunFrom(states: seq<System>, actions: seq<Action>, c: Config, n: nat)
    requires IsRun(states, actions, c) && n < |states|
    ensures Invariant(states[n].tr) && InOrder(states[n].tr) && GapsFrom(states[n].tr)
    decreases n
  {
    hide Invariant, InOrder, GapsFrom, Allowed, CursorRuns.Step;
    if n == 0 {
      StartHolds();
      StartFrom();
    } else {
      RunFrom(states, actions, c, n - 1);
      var tr := states[n - 1].tr;
      match actions[n - 1] {
        case DeliverData(s, now) =>
          StepKeeps(tr, Data(s, now));
          StepFrom(tr, Data(s, now));
        case MakeReport(now) =>
          StepKeeps(tr, Report(Terms(now, c.loss, c.giveUp, true)));
          StepFrom(tr, Report(Terms(now, c.loss, c.giveUp, true)));
        case SendData =>
        case SendControl =>
        case DeliverAck(s) =>
        case DeliverReport(r) =>
      }
    }
  }

  lemma StartFrom()
    ensures GapsFrom(Start)
  {}

  /** Every number from `from` to `to` was received. */
  ghost predicate Unbroken(received: set<nat>, from: nat, to: nat) { forall g :: from <= g <= to ==> g in received }

  // ---------- Gaps that were filled ----------

  /** An arrival takes its number out of the gap table exactly when it comes below the cursor. */
  lemma ArrivalClearsExactly(w: Window, g: nat, now: int)
    requires w.initialized && g in w.missing && g > 0
    ensures g !in Receive(w, g, now).missing <==> g < w.next
  {
    hide Digest, MarkMissing;
  }

  /** The event since which the number has been in the gap table. */
  ghost function MarkedAt(evs: seq<CursorRuns.Event>, n: nat, g: nat): (i: nat)
    requires n <= |evs|
    ensures n > 0 ==> i < n
    decreases n
  {
    if n == 0 then 0 else if InTable(evs, n - 1, g) then MarkedAt(evs, n - 1, g) else n - 1
  }

  ghost predicate InTable(evs: seq<CursorRuns.Event>, n: nat, g: nat)
    requires n <= |evs|
  {
    g in CursorRuns.After(evs, n).w.missing
  }

  predicate Brings(e: CursorRuns.Event, g: nat) { e.Data? && e.seq_ == g }

  /** In every run: a number in the gap table, and so one that a report may list as lost, has been received exactly when
      it has arrived since it was marked; and each such arrival came at or above the cursor. */
  lemma {:induction false} GapReceivedExactly(evs: seq<CursorRuns.Event>, n: nat, g: nat)
    requires n <= |evs| && InTable(evs, n, g)
    ensures var i := MarkedAt(evs, n, g);
            && (g in CursorRuns.After(evs, n).received <==> exists j :: i < j < n && Brings(evs[j], g))
            && (forall j :: i < j < n && Brings(evs[j], g) ==> g >= CursorRuns.After(evs, j).w.next)
    decreases n
  {
    hide CursorRuns.Step, Invariant, CursorRuns.After;
    var i := MarkedAt(evs, n, g);
    LastStep(evs, n, g);
    var tr := CursorRuns.After(evs, n - 1);
    if g in tr.w.missing {
      LastStep(evs, n - 1, g);
      GapReceivedExactly(evs, n - 1, g);
      StepOnGap(tr, evs[n - 1], g);
      assert i < n - 1;
    } else {
      StepMarks(tr, evs[n - 1], g);
    }
  }

  lemma {:induction false} LastStep(evs: seq<CursorRuns.Event>, n: nat, g: nat)
    requires n <= |evs| && InTable(evs, n, g)
    ensures n > 0 && CursorRuns.After(evs, n) == CursorRuns.Step(CursorRuns.After(evs, n - 1), evs[n - 1])
    ensures Invariant(CursorRuns.After(evs, n - 1)) && GapsFrom(CursorRuns.After(evs, n - 1))
  {
    hide CursorRuns.Step, Invariant;
    if n > 0 {
      CursorInvariant(evs, n - 1);
      RunGapsFrom(evs, n - 1);
    }
  }

  lemma {:induction false} RunGapsFrom(evs: seq<CursorRuns.Event>, n: nat)
    requires n <= |evs|
    ensures GapsFrom(CursorRuns.After(evs, n))
    decreases n
  {
    hide CursorRuns.Step, Invariant, GapsFrom, InOrder;
    if n == 0 {
      StartFrom();
    } else {
      RunGapsFrom(evs, n - 1);
      CursorInvariant(evs, n - 1);
      StepFrom(CursorRuns.After(evs, n - 1), evs[n - 1]);
    }
  }

  lemma StepOnGap(tr: Tracked, e: CursorRuns.Event, g: nat)
    requires Invariant(tr) && GapsFrom(tr) && g in tr.w.missing && g in CursorRuns.Step(tr, e).w.missing
    ensures g in CursorRuns.Step(tr, e).received <==> g in tr.received || Brings(e, g)
    ensures Brings(e, g) ==> g >= tr.w.next
  {
    if e.Data? && e.seq_ == g && g > 0 {
      ArrivalClearsExactly(tr.w, g, e.now);
    }
    hide Receive, BuildReport, SkippedByScan;
  }

  lemma StepMarks(tr: Tracked, e: CursorRuns.Event, g: nat)
    requires Invariant(tr) && g !in tr.w.missing && g in CursorRuns.Step(tr, e).w.missing
    ensures g !in CursorRuns.Step(tr, e).received
  {
    match e {
      case Data(s, now) => hide Digest, MarkMissing;
      case Report(t) =>
        ReportShrinks(tr.w, t);
        hide BuildReport, SkippedByScan;
    }
  }

  /** Mere reordering leaves numbers listed that were received: with 1, 4, 3, 2 a report between the thresholds lists
      2 and 3. */
  lemma {:induction false} ReorderedStillListed(evs: seq<CursorRuns.Event>, t: Terms)
    requires evs == [Data(1, 0), Data(4, 0), Data(3, 0), Data(2, 0)]
    requires t.retransmit && 0 <= t.loss < t.now <= t.giveUp
    ensures var tr := CursorRuns.After(evs, 4);
            && tr.received == {1, 2, 3, 4} && tr.w.next == 5
            && 2 in BuildReport(tr.w, t).2 && 3 in BuildReport(tr.w, t).2
  {
    var d := CursorRuns.After(evs, 4);
    ReorderedRun(evs);
    ReportListsExactly(d.w, t);
  }

  lemma {:induction false} NextIs(evs: seq<CursorRuns.Event>, n: nat, received: set<nat>, next: nat)
    requires n <= |evs| && 1 < next && Unbroken(received, 1, next - 1) && next !in received
    requires var tr := CursorRuns.After(evs, n); tr.w.initialized && tr.skipped == {} && tr.first == 1 && tr.received == received
    ensures CursorRuns.After(evs, n).w.next == next
  {
    CursorInvariant(evs, n);
    hide CursorRuns.After;
    var tr := CursorRuns.After(evs, n);
    assert tr.w.next < next ==> tr.w.next in tr.received;
  }

  lemma Stretches()
    ensures Unbroken({1, 4}, 1, 1) && Unbroken({1, 3, 4}, 1, 1) && Unbroken({1, 2, 3, 4}, 1, 4)
  {}

  lemma {:induction false} ReorderedRun(evs: seq<CursorRuns.Event>)
    requires evs == [Data(1, 0), Data(4, 0), Data(3, 0), Data(2, 0)]
    ensures var d := CursorRuns.After(evs, 4);
            && d.received == {1, 2, 3, 4} && d.w.next == 5
            && 2 in d.w.missing && d.w.missing[2] == 0 && 3 in d.w.missing && d.w.missing[3] == 0
  {
    hide Receive;
    var a, b, c, d := CursorRuns.After(evs, 1), CursorRuns.After(evs, 2), CursorRuns.After(evs, 3), CursorRuns.After(evs, 4);
    FirstArrival(evs[0]);
    assert a == CursorRuns.Step(CursorRuns.After(evs, 0), evs[0]);
    assert b == CursorRuns.Step(a, evs[1]);
    assert c == CursorRuns.Step(b, evs[2]);
    assert d == CursorRuns.Step(c, evs[3]);
    hide CursorRuns.After;
    LaterArrival(a, 4, 0);
    LaterArrival(b, 3, 0);
    LaterArrival(c, 2, 0);
    MarksGap(a.w, 4, 0, 2);
    MarksGap(a.w, 4, 0, 3);
    hide CursorRuns.Step;
    assert b.received == {1, 4} && c.received == {1, 3, 4} && d.received == {1, 2, 3, 4};
    Stretches();
    hide Unbroken;
    NextIs(evs, 2, {1, 4}, 2);
    NextIs(evs, 3, {1, 3, 4}, 2);
    NextIs(evs, 4, {1, 2, 3, 4}, 5);
    KeepsGap(b.w, 3, 0, 2);
    KeepsGap(b.w, 3, 0, 3);
    KeepsGap(c.w, 2, 0, 2);
    KeepsGap(c.w, 2, 0, 3);
  }

  lemma FirstArrival(e: CursorRuns.Event)
    requires e == Data(1, 0)
    ensures CursorRuns.Step(Start, e) == Tracked(Window(true, 2, {}, map[]), 1, 1, {1}, {})
  {
    assert Start.received + {1} == {1};
  }

  lemma LaterArrival(tr: Tracked, s: nat, now: int)
    requires tr.w.initialized && s > 0
    ensures var n := CursorRuns.Step(tr, Data(s, now));
            && n.w == Receive(tr.w, s, now) && n.w.initialized && n.first == tr.first
            && n.received == tr.received + {s} && n.skipped == tr.skipped
  {
    hide Digest, MarkMissing;
  }

  lemma MarksGap(w: Window, s: nat, now: int, g: nat)
    requires w.initialized && w.next <= g < s && g !in w.recv && g !in w.missing
    ensures var r := Receive(w, s, now); g in r.missing && r.missing[g] == now
  {
    hide Digest, MarkMissing;
  }

  lemma KeepsGap(w: Window, s: nat, now: int, g: nat)
    requires w.initialized && s >= w.next > 0 && g in w.missing
    ensures var r := Receive(w, s, now); g in r.missing && r.missing[g] == w.missing[g]
  {
    hide Digest, MarkMissing;
  }

  // ---------- What delivering a report does ----------

  /** In every reachable state: when a report is made and delivered, the sender keeps only numbers above the
      acknowledgment and numbers that the report lists; and the acknowledgment reaches to the end of every stretch
      from the first number on that was received without a break. */
  lemma {:induction false} ReportReleases(states: seq<System>, actions: seq<Action>, c: Config, n: nat, now: int)
    requires IsRun(states, actions, c) && n < |states| && Allowed(states[n], MakeReport(now), c)
    requires states[n].tr.w.initialized
    ensures var made := Act(states[n], MakeReport(now), c);
            var (w, ack, lost) := BuildReport(states[n].tr.w, Terms(now, c.loss, c.giveUp, true));
            var done := Act(made, DeliverReport(OnWire(ack, lost)), c);
            && OnWire(ack, lost) in made.reports
            && (forall s :: s in done.out.pending ==> s > ack || (s in lost && s >= made.tr.first))
            && (forall m: nat :: m >= made.tr.first && Unbroken(made.tr.received, made.tr.first, m) ==> m <= ack)
  {
    var sys := states[n];
    var t := Terms(now, c.loss, c.giveUp, true);
    RunFrom(states, actions, c, n);
    AckReaches(sys.tr, t);
    hide BuildReport, SkippedByScan, IsRun, Allowed, Invariant, InOrder, GapsFrom;
    var (w, ack, lost) := BuildReport(sys.tr.w, t);
    KeptAfter(sys.tr, sys.out, t);
  }

  lemma AckReaches(tr: Tracked, t: Terms)
    requires Invariant(tr) && InOrder(tr) && GapsFrom(tr) && tr.w.initialized
    ensures forall m: nat :: m >= tr.first && Unbroken(tr.received, tr.first, m) ==> m <= BuildReport(tr.w, t).1
  {
    StepKeeps(tr, Report(t));
    AckOfReport(tr, t);
    ReportInitialized(tr.w, t);
    hide BuildReport, SkippedByScan;
    var next := CursorRuns.Step(tr, Report(t));
    assert next.w.next !in tr.received && next.first == tr.first;
    forall m: nat | m >= tr.first && Unbroken(tr.received, tr.first, m) ensures m <= BuildReport(tr.w, t).1 {
      assert m >= next.w.next ==> next.w.next in tr.received;
    }
  }

  lemma KeptAfter(tr: Tracked, o: Resends.Outbox<nat>, t: Terms)
    requires GapsFrom(tr) && tr.w.initialized
    ensures var (w, ack, lost) := BuildReport(tr.w, t);
            var r := OnWire(ack, lost);
            forall s :: s in Resends.Act(o, Resends.Handle(r.ack, r.lost)).pending ==> s > ack || (s in lost && s >= tr.first)
  {
    var (w, ack, lost) := BuildReport(tr.w, t);
    var r := OnWire(ack, lost);
    ReportListsExactly(tr.w, t);
    AfterReport(o.pending, r.ack, r.lost);
    hide BuildReport, Pruned, Resent;
    assert forall s :: s in r.lost ==> s in lost;
  }
}
