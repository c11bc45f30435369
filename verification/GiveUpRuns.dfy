/** When a gap that a report gives up has already been skipped, as the comment at tight/src/report.cpp:54-55
    says of every such gap: exactly when reports come often enough. */
module GiveUpRuns {
  import opened SequenceNumbers
  import opened ReceiveWindow
  import opened CursorRuns

  function TimeOf(e: Event): int { if e.Data? then e.now else e.t.now }

  /** The time of the last report or, if that is later, of the first data. */
  ghost function Anchor(evs: seq<Event>, n: nat): int
    requires n <= |evs|
    decreases n
  {
    if n == 0 then 0
    else if evs[n - 1].Report? || (!After(evs, n - 1).w.initialized && evs[n - 1].seq_ > 0) then TimeOf(evs[n - 1])
    else Anchor(evs, n - 1)
  }

  /** Retransmission on, fixed thresholds, a clock that does not go back, no eviction, and never more than
      `spacing` between consecutive reports or between the first data and the first report after it. */
  ghost predicate Regular(evs: seq<Event>, loss: int, giveUp: int, spacing: int) {
    && (forall i, j :: 0 <= i <= j < |evs| ==> TimeOf(evs[i]) <= TimeOf(evs[j]))
    && (forall i :: 0 <= i < |evs| && evs[i].Report? ==> evs[i].t == Terms(TimeOf(evs[i]), loss, giveUp, true))
    && (forall i :: 0 <= i < |evs| && evs[i].Report? ==> |After(evs, i).w.missing| <= MISSING_CAP)
    && (forall i :: 0 <= i < |evs| && evs[i].Report? && After(evs, i).w.initialized ==>
          TimeOf(evs[i]) - Anchor(evs, i) <= spacing)
  }

  /** The report takes the give-up branch for the gap. */
  predicate GivesUp(w: Window, g: nat, t: Terms) { g in w.missing && t.retransmit && t.now - w.missing[g] > t.giveUp }

  // ---------- What a scan leaves ----------

  predicate InWindow(w: Window, g: nat, t: Terms)
    requires g in w.missing
  {
    t.loss < t.now - w.missing[g] <= t.giveUp
  }

  /** With retransmission on, the scan drops exactly what it gives up and only moves the cursor forward. */
  lemma {:induction false} ScanShape(w: Window, todo: set<nat>, t: Terms)
    requires todo <= w.missing.Keys && t.retransmit
    ensures var s := Scan(w, todo, t).0;
            && s.next >= w.next
            && s.missing.Keys <= w.missing.Keys
            && (forall g :: g in s.missing ==> s.missing[g] == w.missing[g])
            && (forall g :: g in w.missing && g !in s.missing ==> GivesUp(w, g, t))
            && (forall h :: h >= s.next ==> (h in s.recv <==> h in w.recv))
    decreases |todo|
  {
    hide Advanced;
    if todo != {} {
      var g := Least(todo);
      VisitFrame(w, g, t);
      AdvancedShape(w.(next := w.next + 1));
      ScanShape(Visit(w, g, t).0, todo - {g}, t);
    }
  }

  lemma AdvancedShape(w: Window)
    ensures Advanced(w).missing == w.missing && Advanced(w).next >= w.next && Advanced(w).initialized == w.initialized
    ensures forall h :: h >= Advanced(w).next ==> (h in Advanced(w).recv <==> h in w.recv)
  {}

  /** The scan never stops at a gap that it could have skipped. */
  lemma {:induction false} StopsElsewhere(w: Window, todo: set<nat>, t: Terms)
    requires w.initialized && todo <= w.missing.Keys && t.retransmit
    ensures var x := Scan(w, todo, t).0.next; x in todo ==> !InWindow(w, x, t)
    decreases |todo|
  {
    hide Advanced;
    if todo != {} {
      var g := Least(todo);
      VisitFrame(w, g, t);
      AdvancedShape(w.(next := w.next + 1));
      var w1 := Visit(w, g, t).0;
      StopsElsewhere(w1, todo - {g}, t);
      ScanForward(w1, todo - {g}, t);
      if w.next < g {
        ScanStaysPut(w1, todo - {g}, t);
      }
    }
  }

  // ---------- The invariant ----------

  /** Between the cursor and a gap everything is received or is a gap that is no younger. */
  ghost predicate OlderFirst(w: Window) {
    forall g, h :: g in w.missing && w.next <= h < g ==> h in w.recv || (h in w.missing && w.missing[h] <= w.missing[g])
  }

  /** Whatever was overdue at the anchor lies below the cursor; nothing was marked in the future. */
  ghost predicate OverduePassed(w: Window, anchor: int, loss: int) {
    forall g :: g in w.missing && anchor - w.missing[g] > loss ==> g < w.next
  }

  ghost predicate MarkedBefore(w: Window, clock: int) { forall g :: g in w.missing ==> w.missing[g] <= clock }

  ghost predicate Timely(tr: Tracked, anchor: int, clock: int, loss: int) {
    && Invariant(tr) && InOrder(tr)
    && (!tr.w.initialized ==> tr.w == FreshWindow)
    && (tr.w.initialized ==> anchor <= clock && OlderFirst(tr.w) && OverduePassed(tr.w, anchor, loss) && MarkedBefore(tr.w, clock))
  }

  /** A report no later than the spacing allows gives up only gaps below the cursor. */
  lemma OnlyBelow(w: Window, anchor: int, loss: int, t: Terms, g: nat)
    requires OverduePassed(w, anchor, loss) && GivesUp(w, g, t)
    requires loss + (t.now - anchor) <= t.giveUp
    ensures g < w.next
  {}

  lemma ReportTimely(tr: Tracked, anchor: int, clock: int, loss: int, t: Terms)
    requires Timely(tr, anchor, clock, loss) && tr.w.initialized
    requires t.retransmit && t.loss == loss && clock <= t.now && loss + (t.now - anchor) <= t.giveUp
    requires |tr.w.missing| <= MISSING_CAP
    ensures Timely(Step(tr, Report(t)), t.now, t.now, loss)
  {
    var w := tr.w;
    var s := Scan(w, w.missing.Keys, t).0;
    StepKeeps(tr, Report(t));
    ReportInitialized(w, t);
    ScanShape(w, w.missing.Keys, t);
    StopsElsewhere(w, w.missing.Keys, t);
    SubsetSmaller(s.missing.Keys, w.missing.Keys);
    EvictSmall(s.missing);
    var next := Step(tr, Report(t));
    assert next.w == s;
    hide Scan, Evict, SkippedByScan;
    assert s.next !in s.recv;
    hide Invariant, InOrder;
    forall g | g in w.missing && g !in s.missing ensures g < w.next {
      OnlyBelow(w, anchor, loss, t, g);
    }
    PassesOverdue(w, s, anchor, loss, t);
  }

  lemma SubsetSmaller(a: set<nat>, b: set<nat>)
    requires a <= b
    ensures |a| <= |b|
  {
    assert b == a + (b - a);
  }

  /** After the scan, order is kept and every overdue gap is below the cursor. */
  lemma PassesOverdue(w: Window, s: Window, anchor: int, loss: int, t: Terms)
    requires OlderFirst(w) && OverduePassed(w, anchor, loss) && loss + (t.now - anchor) <= t.giveUp && t.loss == loss
    requires s.next >= w.next && s.next !in s.recv && s.missing.Keys <= w.missing.Keys
    requires forall g :: g in s.missing ==> s.missing[g] == w.missing[g]
    requires forall g :: g in w.missing && g !in s.missing ==> g < w.next
    requires forall h :: h >= s.next ==> (h in s.recv <==> h in w.recv)
    requires s.next in w.missing ==> !InWindow(w, s.next, t)
    ensures OlderFirst(s) && OverduePassed(s, t.now, loss)
  {
    forall g | g in s.missing && t.now - s.missing[g] > loss ensures g < s.next {
      assert s.next < g ==> s.next in w.missing;
    }
  }

  lemma DataTimely(tr: Tracked, anchor: int, clock: int, loss: int, seq_: nat, now: int)
    requires Timely(tr, anchor, clock, loss) && clock <= now && seq_ > 0 && loss >= 0
    ensures Timely(Step(tr, Data(seq_, now)), if tr.w.initialized then anchor else now, now, loss)
  {
    StepKeeps(tr, Data(seq_, now));
    hide Invariant, InOrder, Advanced;
    var w := tr.w;
    if w.initialized {
      if seq_ >= w.next {
        var m := w.(missing := MarkMissing(w.missing, w.recv, w.next, seq_, now), recv := w.recv + {seq_});
        MarkedOlder(w, m, seq_, anchor, clock, now, loss);
        AdvanceTimely(m, anchor, now, loss);
      } else {
        AdvanceTimely(w.(missing := w.missing - {seq_}), anchor, now, loss);
      }
    }
  }

  lemma MarkedOlder(w: Window, m: Window, seq_: nat, anchor: int, clock: int, now: int, loss: int)
    requires OlderFirst(w) && OverduePassed(w, anchor, loss) && MarkedBefore(w, clock) && clock <= now && loss >= 0
    requires anchor <= now && seq_ >= w.next
    requires m == w.(missing := MarkMissing(w.missing, w.recv, w.next, seq_, now), recv := w.recv + {seq_})
    ensures OlderFirst(m) && OverduePassed(m, anchor, loss) && MarkedBefore(m, now)
  {
    hide MarkMissing;
  }

  lemma AdvanceTimely(w: Window, anchor: int, clock: int, loss: int)
    requires OlderFirst(w) && OverduePassed(w, anchor, loss) && MarkedBefore(w, clock)
    ensures var a := Advanced(w);
            OlderFirst(a) && OverduePassed(a, anchor, loss) && MarkedBefore(a, clock)
  {
    AdvancedShape(w);
    hide Advanced;
  }

  // ---------- Runs ----------

  lemma {:induction false} RunTimely(evs: seq<Event>, loss: int, giveUp: int, spacing: int, n: nat)
    requires Regular(evs, loss, giveUp, spacing) && n <= |evs| && loss >= 0 && loss + spacing <= giveUp
    ensures Timely(After(evs, n), Anchor(evs, n), if n == 0 then 0 else TimeOf(evs[n - 1]), loss)
    decreases n
  {
    hide Timely, Step;
    if n == 0 {
      StartTimely(loss);
    } else {
      RunTimely(evs, loss, giveUp, spacing, n - 1);
      var clock := if n == 1 then 0 else TimeOf(evs[n - 2]);
      StepTimely(After(evs, n - 1), Anchor(evs, n - 1), clock, loss, giveUp, spacing, evs[n - 1], n == 1);
    }
  }

  lemma StartTimely(loss: int)
    ensures Timely(Start, 0, 0, loss)
  {
    StartHolds();
  }

  lemma StepTimely(tr: Tracked, anchor: int, clock: int, loss: int, giveUp: int, spacing: int, e: Event, first: bool)
    requires Timely(tr, anchor, clock, loss) && loss >= 0 && loss + spacing <= giveUp
    requires if first then tr == Start else clock <= TimeOf(e)
    requires e.Report? ==> e.t == Terms(TimeOf(e), loss, giveUp, true) && |tr.w.missing| <= MISSING_CAP
    requires e.Report? && tr.w.initialized ==> TimeOf(e) - anchor <= spacing
    ensures Timely(Step(tr, e), if e.Report? || (!tr.w.initialized && e.seq_ > 0) then TimeOf(e) else anchor,
                   TimeOf(e), loss)
  {
    StepKeeps(tr, e);
    hide Invariant, InOrder;
    match e {
      case Data(seq_, now) =>
        if seq_ > 0 && tr.w.initialized {
          DataTimely(tr, anchor, clock, loss, seq_, now);
        }
      case Report(t) =>
        if tr.w.initialized {
          ReportTimely(tr, anchor, clock, loss, t);
        } else {
          ReportInitialized(tr.w, t);
          FreshReport(t);
        }
    }
  }

  lemma FreshReport(t: Terms)
    ensures BuildReport(FreshWindow, t).0 == FreshWindow
  {
    assert FreshWindow.missing.Keys == {};
    EvictSmall(map[]);
  }

  /** Reports often enough: whatever a report gives up lies below the cursor. */
  lemma {:induction false} GivenUpWasSkipped(evs: seq<Event>, loss: int, giveUp: int, spacing: int, n: nat, g: nat)
    requires Regular(evs, loss, giveUp, spacing) && loss >= 0 && loss + spacing <= giveUp
    requires n < |evs| && evs[n].Report? && GivesUp(After(evs, n).w, g, evs[n].t)
    ensures g < After(evs, n).w.next
  {
    RunTimely(evs, loss, giveUp, spacing, n);
    var w := After(evs, n).w;
    assert w.initialized;
    OnlyBelow(w, Anchor(evs, n), loss, evs[n].t, g);
  }

  // ---------- Reports too far apart ----------

  function Min(a: nat, b: nat): nat { if a < b then a else b }

  /** Numbers 1 and 3 arrive at time 0; reports follow every `spacing`, one of them when gap 2 is exactly at the
      smaller threshold, and one more. */
  function LateReports(loss: nat, giveUp: nat, spacing: nat): (evs: seq<Event>)
    requires spacing > 0
    ensures |evs| == 4 + Min(loss, giveUp) / spacing
  {
    var base := Min(loss, giveUp);
    [Data(1, 0), Data(3, 0)]
    + seq(2 + base / spacing, i requires 0 <= i => Report(Terms(base % spacing + i * spacing, loss, giveUp, true)))
  }

  const GapAtTwo := Window(true, 2, {3}, map[2 := 0])

  lemma LateTimes(loss: nat, giveUp: nat, spacing: nat, i: nat)
    requires spacing > 0 && i <= 1 + Min(loss, giveUp) / spacing
    ensures var base := Min(loss, giveUp);
            var time := base % spacing + i * spacing;
            && LateReports(loss, giveUp, spacing)[2 + i] == Report(Terms(time, loss, giveUp, true))
            && (i <= base / spacing ==> 0 <= time <= base)
            && (i == 1 + base / spacing ==> time == base + spacing)
  {
    var base := Min(loss, giveUp);
    var q := base / spacing;
    assert base == q * spacing + base % spacing;
    if i <= q {
      MulMonotone(i, q, spacing);
    } else {
      assert (1 + q) * spacing == spacing + q * spacing;
    }
  }

  lemma MulMonotone(i: nat, j: nat, k: nat)
    requires i <= j
    ensures 0 <= i * k <= j * k
  {
    assert (j - i) * k >= 0;
  }

  lemma {:induction false} TwoArrivals(evs: seq<Event>)
    requires |evs| >= 2 && evs[0] == Data(1, 0) && evs[1] == Data(3, 0)
    ensures After(evs, 2).w == GapAtTwo
  {
    assert After(evs, 0) == Start;
    assert After(evs, 1).w == Window(true, 2, {}, map[]);
    assert MarkMissing(map[], {}, 2, 3, 0) == map[2 := 0];
    assert Digest(2, {} + {3}) == (2, {} + {3});
    assert {} + {3} == {3};
  }

  /** A report before the gap is overdue changes nothing. */
  lemma QuietReport(t: Terms)
    requires t.retransmit && t.now <= t.loss && t.now <= t.giveUp
    ensures BuildReport(GapAtTwo, t).0 == GapAtTwo
  {
    assert GapAtTwo.missing.Keys == {2};
    ScanOne(GapAtTwo, 2, t);
    assert Visit(GapAtTwo, 2, t) == (GapAtTwo, []);
    EvictSmall(GapAtTwo.missing);
  }

  lemma {:induction false} StillAtTwo(loss: nat, giveUp: nat, spacing: nat, i: nat)
    requires spacing > 0 && i <= 1 + Min(loss, giveUp) / spacing
    ensures After(LateReports(loss, giveUp, spacing), 2 + i).w == GapAtTwo
    decreases i
  {
    var evs := LateReports(loss, giveUp, spacing);
    if i == 0 {
      TwoArrivals(evs);
    } else {
      StillAtTwo(loss, giveUp, spacing, i - 1);
      LateTimes(loss, giveUp, spacing, i - 1);
      hide BuildReport, LateReports, SkippedByScan;
      QuietReport(evs[1 + i].t);
      assert After(evs, 2 + i) == Step(After(evs, 1 + i), evs[1 + i]);
    }
  }

  lemma {:induction false} LateAnchor(loss: nat, giveUp: nat, spacing: nat, i: nat)
    requires spacing > 0 && i <= 1 + Min(loss, giveUp) / spacing
    ensures var evs := LateReports(loss, giveUp, spacing);
            TimeOf(evs[2 + i]) - Anchor(evs, 2 + i) <= spacing
  {
    var evs := LateReports(loss, giveUp, spacing);
    LateTimes(loss, giveUp, spacing, i);
    if i == 0 {
      assert After(evs, 0) == Start;
      assert Anchor(evs, 1) == 0;
      assert After(evs, 1).w == Window(true, 2, {}, map[]);
      assert Anchor(evs, 2) == 0;
    } else {
      LateTimes(loss, giveUp, spacing, i - 1);
      assert Anchor(evs, 2 + i) == TimeOf(evs[1 + i]);
      assert i * spacing == (i - 1) * spacing + spacing;
    }
  }

  lemma LateOrdered(loss: nat, giveUp: nat, spacing: nat, i: nat, j: nat)
    requires spacing > 0 && i <= j < |LateReports(loss, giveUp, spacing)|
    ensures var evs := LateReports(loss, giveUp, spacing);
            && TimeOf(evs[i]) <= TimeOf(evs[j])
            && (evs[i].Report? ==> i >= 2 && evs[i].t == Terms(TimeOf(evs[i]), loss, giveUp, true))
  {
    if i >= 2 {
      MulMonotone(i - 2, j - 2, spacing);
    } else if j >= 2 {
      MulMonotone(0, j - 2, spacing);
    }
  }

  lemma LateRegular(loss: nat, giveUp: nat, spacing: nat)
    requires spacing > 0
    ensures Regular(LateReports(loss, giveUp, spacing), loss, giveUp, spacing)
  {
    hide LateReports, After, Anchor, TimeOf;
    var evs := LateReports(loss, giveUp, spacing);
    forall i: nat, j: nat | i <= j < |evs|
      ensures TimeOf(evs[i]) <= TimeOf(evs[j])
    {
      LateOrdered(loss, giveUp, spacing, i, j);
    }
    forall i: nat | i < |evs| && evs[i].Report?
      ensures evs[i].t == Terms(TimeOf(evs[i]), loss, giveUp, true)
      ensures |After(evs, i).w.missing| <= MISSING_CAP && TimeOf(evs[i]) - Anchor(evs, i) <= spacing
    {
      LateOrdered(loss, giveUp, spacing, i, i);
      StillAtTwo(loss, giveUp, spacing, i - 2);
      LateAnchor(loss, giveUp, spacing, i - 2);
    }
  }

  /** The last of these reports gives up gap 2, at which the cursor still stands. */
  lemma LateGivesUp(loss: nat, giveUp: nat, spacing: nat)
    requires spacing > 0 && loss + spacing > giveUp
    ensures var evs := LateReports(loss, giveUp, spacing);
            var w := After(evs, |evs| - 1).w;
            evs[|evs| - 1].Report? && GivesUp(w, 2, evs[|evs| - 1].t) && w.next == 2
  {
    hide After, LateReports;
    StillAtTwo(loss, giveUp, spacing, 1 + Min(loss, giveUp) / spacing);
    LateTimes(loss, giveUp, spacing, 1 + Min(loss, giveUp) / spacing);
  }

  /** In every regular run, whatever a report gives up has been passed by the cursor. */
  ghost predicate AlwaysSkipped(loss: nat, giveUp: nat, spacing: nat) {
    forall evs: seq<Event>, n: nat, g: nat ::
      Regular(evs, loss, giveUp, spacing) && n < |evs| && evs[n].Report? && GivesUp(After(evs, n).w, g, evs[n].t) ==>
        g < After(evs, n).w.next
  }

  /** The comment holds of every run exactly when reports are never further apart than giveUp - loss. */
  lemma SkippedExactly(loss: nat, giveUp: nat, spacing: nat)
    requires spacing > 0
    ensures AlwaysSkipped(loss, giveUp, spacing) <==> loss + spacing <= giveUp
  {
    if loss + spacing <= giveUp {
      forall evs: seq<Event>, n: nat, g: nat
        | Regular(evs, loss, giveUp, spacing) && n < |evs| && evs[n].Report? && GivesUp(After(evs, n).w, g, evs[n].t)
        ensures g < After(evs, n).w.next
      {
        GivenUpWasSkipped(evs, loss, giveUp, spacing, n, g);
      }
    } else {
      LateRegular(loss, giveUp, spacing);
      LateGivesUp(loss, giveUp, spacing);
      hide LateReports, Regular, After;
    }
  }
}
