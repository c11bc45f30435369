/** With retransmission off at either end, one report settles everything: no losses are listed, both tables
    are emptied, and the cursor stands one past the highest number received. */
module RetransmissionOff {
  import opened SequenceNumbers
  import opened ReceiveWindow
  import opened CursorRuns

  /** Every number from the cursor up to the highest received one is held or marked as a gap. */
  ghost predicate Covered(tr: Tracked) {
    tr.w.initialized ==>
      && tr.top in tr.received && (forall r :: r in tr.received ==> r <= tr.top)
      && tr.w.next <= tr.top + 1
      && (forall g :: g in tr.w.missing ==> g < tr.top)
      && (forall g :: tr.w.next <= g <= tr.top ==> g in tr.w.recv || g in tr.w.missing)
  }

  lemma AdvancedCovered(tr: Tracked)
    requires tr.w.initialized && Covered(tr) && tr.w.recv <= tr.received
    ensures Covered(tr.(w := Advanced(tr.w)))
  {
    var a := Advanced(tr.w);
    if a.next > tr.w.next {
      assert a.next - 1 in tr.w.recv;
    }
    forall g | a.next <= g <= tr.top
      ensures g in a.recv || g in a.missing
    {
      assert g in tr.w.recv || g in tr.w.missing;
    }
  }

  lemma ReceiveCovered(tr: Tracked, seq_: nat, now: int)
    requires Invariant(tr) && Covered(tr) && seq_ > 0
    ensures Covered(Step(tr, Data(seq_, now)))
  {
    hide Advanced;
    if tr.w.initialized {
      var top := if seq_ < tr.top then tr.top else seq_;
      var added := tr.(received := tr.received + {seq_}, top := top);
      if seq_ >= tr.w.next {
        var w := tr.w.(missing := MarkMissing(tr.w.missing, tr.w.recv, tr.w.next, seq_, now), recv := tr.w.recv + {seq_});
        assert w.recv <= added.received;
        AdvancedCovered(added.(w := w));
      } else {
        AdvancedCovered(added.(w := tr.w.(missing := tr.w.missing - {seq_})));
      }
    }
  }

  lemma VisitCovered(tr: Tracked, g: nat, t: Terms)
    requires tr.w.initialized && Invariant(tr) && Covered(tr) && !t.retransmit
    requires g in tr.w.missing && forall h :: h in tr.w.missing ==> g <= h
    ensures Covered(tr.(w := Visit(tr.w, g, t).0))
    ensures Visit(tr.w, g, t).0.missing == tr.w.missing - {g} && Visit(tr.w, g, t).1 == []
  {
    hide Advanced;
    if g == tr.w.next {
      var w := tr.w.(next := g + 1, missing := tr.w.missing - {g});
      assert tr.w.recv <= tr.received;
      AdvancedCovered(tr.(w := w));
      AdvancedIgnoresMissing(tr.w.(next := g + 1), w.missing);
    } else {
      assert g < tr.w.next || tr.w.next !in tr.w.missing;
    }
  }

  lemma AdvancedIgnoresMissing(w: Window, m: map<nat, int>)
    ensures Advanced(w.(missing := m)) == Advanced(w).(missing := m)
  {}

  lemma {:induction false} ScanEmpties(tr: Tracked, t: Terms)
    requires tr.w.initialized && Invariant(tr) && Covered(tr) && tr.first <= tr.w.next && !t.retransmit
    ensures var (w, lost) := Scan(tr.w, tr.w.missing.Keys, t);
            w.missing == map[] && lost == [] && Covered(tr.(w := w)) && w.initialized
    decreases |tr.w.missing.Keys|
  {
    hide Invariant, Covered, Visit;
    if tr.w.missing.Keys == {} {
      assert tr.w.missing == map[];
    } else {
      var g := Least(tr.w.missing.Keys);
      VisitCovered(tr, g, t);
      VisitKeeps(tr, g, t);
      var w1 := Visit(tr.w, g, t).0;
      assert w1.missing.Keys == tr.w.missing.Keys - {g};
      var s := tr.(w := w1, skipped := tr.skipped + SkippedByVisit(tr.w, g, t));
      CoveredIgnoresSkipped(tr.(w := w1), s.skipped);
      ScanEmpties(s, t);
      CoveredIgnoresSkipped(s.(w := Scan(w1, w1.missing.Keys, t).0), tr.skipped);
    }
  }

  lemma CoveredIgnoresSkipped(tr: Tracked, skipped: set<nat>)
    requires Covered(tr)
    ensures Covered(tr.(skipped := skipped))
  {}

  ghost predicate AllOff(evs: seq<Event>) {
    forall i :: 0 <= i < |evs| && evs[i].Report? ==> !evs[i].t.retransmit
  }

  lemma ReportCovered(tr: Tracked, t: Terms)
    requires Invariant(tr) && InOrder(tr) && Covered(tr) && !t.retransmit
    ensures Covered(Step(tr, Report(t)))
    ensures BuildReport(tr.w, t).2 == []
    ensures tr.w.initialized ==> BuildReport(tr.w, t).0.missing == map[] && BuildReport(tr.w, t).0.initialized
  {
    EvictSmall(map[]);
    if tr.w.initialized {
      hide Invariant, Covered, Scan, Evict, SkippedByScan;
      ScanEmpties(tr, t);
      CoveredIgnoresSkipped(tr.(w := Scan(tr.w, tr.w.missing.Keys, t).0), tr.skipped + SkippedByScan(tr.w, tr.w.missing.Keys, t));
    } else {
      assert tr.w.missing.Keys == {};
    }
  }

  lemma {:induction false} CoveredAlong(evs: seq<Event>, n: nat)
    requires n <= |evs| && AllOff(evs)
    ensures Covered(After(evs, n))
    decreases n
  {
    hide Invariant, Step, InOrder;
    if n == 0 {
      hide Covered;
      StartCovered();
    } else {
      CoveredAlong(evs, n - 1);
      CursorInvariant(evs, n - 1);
      CoveredStep(After(evs, n - 1), evs[n - 1]);
    }
  }

  lemma StartCovered()
    ensures Covered(Start)
  {}

  lemma CoveredStep(tr: Tracked, e: Event)
    requires Invariant(tr) && InOrder(tr) && Covered(tr) && (e.Report? ==> !e.t.retransmit)
    ensures Covered(Step(tr, e))
  {
    match e {
      case Data(seq_, now) =>
        if seq_ > 0 {
          ReceiveCovered(tr, seq_, now);
        }
      case Report(t) => ReportCovered(tr, t);
    }
  }

  /** Whatever the arrival order: each report of such a run lists no loss, leaves both tables empty and puts
      the cursor one past the highest number received so far. */
  lemma ReportSettles(evs: seq<Event>, n: nat)
    requires n < |evs| && AllOff(evs) && evs[n].Report?
    ensures BuildReport(After(evs, n).w, evs[n].t).2 == []
    ensures var s := After(evs, n + 1);
            && s.w.missing == map[] && s.w.recv == {}
            && (s.w.initialized ==> s.w.next == s.top + 1 && s.top in s.received && forall r :: r in s.received ==> r <= s.top)
  {
    var tr := After(evs, n);
    CoveredAlong(evs, n);
    CursorInvariant(evs, n);
    CoveredAlong(evs, n + 1);
    CursorInvariant(evs, n + 1);
    ReportCovered(tr, evs[n].t);
    ReportInitialized(tr.w, evs[n].t);
    hide BuildReport, SkippedByScan;
    var s := After(evs, n + 1);
    assert s.w == BuildReport(tr.w, evs[n].t).0;
    if s.w.initialized {
      assert s.w.next <= s.top ==> s.w.next in s.w.recv;
      assert s.w.recv == {};
    }
  }
}
