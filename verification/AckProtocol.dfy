/** Sender and receiver together, over a network that loses, repeats and reorders data and reports.

    While retransmission is on, the round-trip estimate stays fixed, and no report hits the give-up time, the
    4096-entry cap or the 256-entry limit, the sender lets go of a data packet from the receiver's first
    number on only if it was received or has been resent ten times. */
module AckProtocol {
  import opened SequenceNumbers
  import opened ReceiveWindow
  import opened CursorRuns
  import opened RetransmitBuffer
  import Resends = ResendRuns

  // ---------- What a benign report does to the window ----------

  /** No gap is old enough to be given up. */
  ghost predicate NoneGivenUp(w: Window, t: Terms) {
    t.retransmit && forall g :: g in w.missing ==> t.now - w.missing[g] <= t.giveUp
  }

  ghost predicate Overdue(w: Window, g: nat, t: Terms) {
    g in w.missing && t.now - w.missing[g] > t.loss
  }

  lemma SkipCrosses(w: Window, g: nat)
    ensures SkipGap(w, g).missing == w.missing && SkipGap(w, g).recv <= w.recv && SkipGap(w, g).next >= w.next
    ensures forall h :: w.next <= h < SkipGap(w, g).next ==> h == g || h in w.recv
    ensures SkipGap(w, g).initialized == w.initialized
  {}

  /** The scan lists exactly the overdue gaps, keeps the table, and moves the cursor only over received or
      overdue numbers. */
  lemma {:induction false} BenignScan(w: Window, todo: set<nat>, t: Terms)
    requires todo <= w.missing.Keys && NoneGivenUp(w, t)
    ensures var (w', lost) := Scan(w, todo, t);
            && w'.missing == w.missing && w'.recv <= w.recv && w'.next >= w.next
            && (forall g :: g in lost <==> g in todo && Overdue(w, g, t))
            && (forall h :: w.next <= h < w'.next ==> h in w.recv || Overdue(w, h, t))
    decreases |todo|
  {
    hide SkipGap;
    if todo != {} {
      var g := Least(todo);
      SkipCrosses(w, g);
      var (w1, l1) := Visit(w, g, t);
      BenignScan(w1, todo - {g}, t);
    }
  }

  lemma BenignReport(w: Window, t: Terms)
    requires NoneGivenUp(w, t) && |w.missing| <= MISSING_CAP
    ensures var (w', ack, lost) := BuildReport(w, t);
            && w'.missing == w.missing && w'.recv <= w.recv && w'.next >= w.next && ack == AckOf(w')
            && (forall g :: g in lost <==> Overdue(w, g, t))
            && (forall h :: w.next <= h < w'.next ==> h in w.recv || Overdue(w, h, t))
  {
    hide Scan, Evict;
    BenignScan(w, w.missing.Keys, t);
    EvictSmall(w.missing);
  }

  // ---------- The system ----------

  /** A report as the sender reads it. */
  datatype ReportMsg = ReportMsg(ack: nat, lost: set<nat>)

  /** How many entries of the loss list fit: its size as a 16-bit number, at most 256. */
  function LostCount(n: nat): (k: nat)
    ensures k <= n && k <= 256 && (n <= 256 ==> k == n)
  {
    if n % 0x1_0000 > 256 then 256 else n % 0x1_0000
  }

  function OnWire(ack: nat, lost: seq<nat>): ReportMsg {
    ReportMsg(ack, set g | g in lost[..LostCount(|lost|)])
  }

  /** The sender's outbox numbers data and control packets alike; `sent` and `control` are the numbers used. */
  datatype System = System(out: Resends.Outbox<nat>, sent: set<nat>, control: set<nat>, tr: Tracked,
                           reports: set<ReportMsg>, lastReport: int)

  datatype Action =
    | SendData
    | SendControl
    | DeliverData(s: nat, now: int)
    | DeliverAck(s: nat)
    | MakeReport(now: int)
    | DeliverReport(r: ReportMsg)

  datatype Config = Config(loss: int, giveUp: int)

  ghost predicate Allowed(sys: System, a: Action, c: Config) {
    match a
    case SendData => sys.out.seqOut < MAX_SEQ
    case SendControl => sys.out.seqOut < MAX_SEQ
    case DeliverData(s, now) => s == 0 || s in sys.sent
    case DeliverAck(s) => s in sys.control
    case MakeReport(now) =>
      var t := Terms(now, c.loss, c.giveUp, true);
      && now >= sys.lastReport
      && NoneGivenUp(sys.tr.w, t)
      && |sys.tr.w.missing| <= MISSING_CAP
      && |BuildReport(sys.tr.w, t).2| <= 256
    case DeliverReport(r) => r in sys.reports
  }

  ghost function Act(sys: System, a: Action, c: Config): System {
    match a
    case SendData =>
      sys.(out := Resends.Act(sys.out, Resends.Send(sys.out.seqOut, true)), sent := sys.sent + {sys.out.seqOut})
    case SendControl =>
      sys.(out := Resends.Act(sys.out, Resends.Send(sys.out.seqOut, true)), control := sys.control + {sys.out.seqOut})
    case DeliverData(s, now) => sys.(tr := Step(sys.tr, Data(s, now)))
    case DeliverAck(s) => sys.(out := Resends.Act(sys.out, Resends.Remove({s})))
    case MakeReport(now) =>
      var t := Terms(now, c.loss, c.giveUp, true);
      var (w, ack, lost) := BuildReport(sys.tr.w, t);
      sys.(tr := Step(sys.tr, Report(t)), reports := sys.reports + {OnWire(ack, lost)}, lastReport := now)
    case DeliverReport(r) => sys.(out := Resends.Act(sys.out, Resends.Handle(r.ack, r.lost)))
  }

  ghost predicate Initial(sys: System) {
    sys.out == Resends.Empty<nat>() && sys.sent == {} && sys.control == {} && sys.tr == Start && sys.reports == {}
  }

  // ---------- The invariant ----------

  /** The receiver has the packet, or never undertook to track it. */
  ghost predicate Settled(tr: Tracked, s: nat) {
    tr.w.initialized && (s < tr.first || s in tr.received)
  }

  /** Below the cursor everything is received or an overdue gap that every further report lists. */
  ghost predicate GapsReported(tr: Tracked, lastReport: int, c: Config) {
    tr.w.initialized ==>
      forall g :: tr.first <= g < tr.w.next ==>
        g in tr.received || (g in tr.w.missing && lastReport - tr.w.missing[g] > c.loss)
  }

  ghost predicate ReportsSound(sys: System) {
    forall r, s :: r in sys.reports && 0 < s <= r.ack && s !in r.lost ==> Settled(sys.tr, s)
  }

  ghost predicate NumbersUsed(sys: System) {
    && sys.sent !! sys.control
    && (forall s :: s in sys.sent || s in sys.control ==> 0 < s < sys.out.seqOut)
    && (forall s :: s in sys.out.pending ==> s in sys.sent || s in sys.control)
  }

  /** A data packet is still buffered, or settled, or was resent ten times. */
  ghost predicate NothingForgotten(sys: System) {
    forall s :: s in sys.sent ==>
      s in sys.out.pending || Settled(sys.tr, s) || Resends.ResendsOf(sys.out.resends, s) == MAX_RETRIES
  }

  ghost predicate Sound(sys: System, c: Config) {
    && Invariant(sys.tr) && InOrder(sys.tr)
    && GapsReported(sys.tr, sys.lastReport, c)
    && ReportsSound(sys)
    && NumbersUsed(sys)
    && Resends.RetriesMatch(sys.out)
    && NothingForgotten(sys)
  }

  lemma InitialSound(sys: System, c: Config)
    requires Initial(sys)
    ensures Sound(sys, c)
  {}

  // ---------- Steps ----------

  lemma SettledStays(tr: Tracked, s: nat, e: Event)
    requires Invariant(tr) && InOrder(tr) && Settled(tr, s)
    ensures Settled(Step(tr, e), s)
  {
    hide Invariant, InOrder, Receive, BuildReport;
    StepKeeps(tr, e);
    StepInitialized(tr, e);
    ReceivedGrows(tr, e);
  }

  lemma ReceivedGrows(tr: Tracked, e: Event)
    ensures tr.received <= Step(tr, e).received
  {
    hide Receive, BuildReport, SkippedByScan;
  }

  lemma DataKeepsGaps(tr: Tracked, s: nat, now: int, lastReport: int, c: Config)
    requires Invariant(tr) && InOrder(tr) && GapsReported(tr, lastReport, c) && s > 0
    ensures GapsReported(Step(tr, Data(s, now)), lastReport, c)
  {
    hide Digest;
    if tr.w.initialized {
      assert forall g :: g in tr.w.recv ==> g in tr.received;
      var n := Step(tr, Data(s, now));
      DigestCrosses(tr.w.next, tr.w.recv + {s});
      DigestCrosses(tr.w.next, tr.w.recv);
      hide MarkMissing;
      forall g | tr.first <= g < n.w.next
        ensures g in n.received || (g in n.w.missing && lastReport - n.w.missing[g] > c.loss)
      {
        if g < tr.w.next && g !in tr.received {
          assert g in tr.w.missing && lastReport - tr.w.missing[g] > c.loss;
          if s >= tr.w.next {
            assert n.w.missing == MarkMissing(tr.w.missing, tr.w.recv, tr.w.next, s, now);
            assert n.w.missing[g] == tr.w.missing[g];
          } else {
            assert n.w.missing == tr.w.missing - {s};
          }
        } else if g >= tr.w.next {
          assert g in tr.w.recv + {s};
        }
      }
    }
  }

  lemma {:induction false} DigestCrosses(next: nat, recv: set<nat>)
    ensures forall g :: next <= g < Digest(next, recv).0 ==> g in recv
  {}

  lemma ReportKeepsGaps(tr: Tracked, t: Terms, lastReport: int, c: Config)
    requires Invariant(tr) && InOrder(tr) && GapsReported(tr, lastReport, c)
    requires t.now >= lastReport && t.loss == c.loss && NoneGivenUp(tr.w, t) && |tr.w.missing| <= MISSING_CAP
    ensures GapsReported(Step(tr, Report(t)), t.now, c)
    ensures forall s :: 0 < s <= BuildReport(tr.w, t).1 && s !in BuildReport(tr.w, t).2 ==> Settled(Step(tr, Report(t)), s)
  {
    BenignReport(tr.w, t);
    ReportInitialized(tr.w, t);
    hide BuildReport, SkippedByScan;
    assert tr.w.initialized ==> forall g :: g in tr.w.recv ==> g in tr.received;
  }

  lemma MakeReportSound(sys: System, now: int, c: Config)
    requires Sound(sys, c) && Allowed(sys, MakeReport(now), c)
    ensures Sound(Act(sys, MakeReport(now), c), c)
  {
    var t := Terms(now, c.loss, c.giveUp, true);
    var next := Act(sys, MakeReport(now), c);
    hide Invariant, InOrder, NoneGivenUp, BuildReport, CursorRuns.Step, GapsReported, NumbersUsed, Resends.RetriesMatch, Settled;
    StepKeeps(sys.tr, Report(t));
    ReportKeepsGaps(sys.tr, t, sys.lastReport, c);
    forall s | Settled(sys.tr, s)
      ensures Settled(next.tr, s)
    {
      SettledStays(sys.tr, s, Report(t));
    }
    var (w, ack, lost) := BuildReport(sys.tr.w, t);
    assert lost[..LostCount(|lost|)] == lost;
    forall r, s | r in next.reports && 0 < s <= r.ack && s !in r.lost
      ensures Settled(next.tr, s)
    {
      if r !in sys.reports {
        assert r == OnWire(ack, lost);
        assert s !in lost;
      }
    }
    SameNumbers(sys, next);
  }

  lemma SameNumbers(sys: System, next: System)
    requires next.out == sys.out && next.sent == sys.sent && next.control == sys.control
    ensures NumbersUsed(sys) ==> NumbersUsed(next)
  {}

  lemma DeliverDataSound(sys: System, s: nat, now: int, c: Config)
    requires Sound(sys, c) && Allowed(sys, DeliverData(s, now), c)
    ensures Sound(Act(sys, DeliverData(s, now), c), c)
  {
    hide Invariant, InOrder, Receive, GapsReported, NumbersUsed, Resends.RetriesMatch, Settled;
    var next := Act(sys, DeliverData(s, now), c);
    if s > 0 {
      StepKeeps(sys.tr, Data(s, now));
      DataKeepsGaps(sys.tr, s, now, sys.lastReport, c);
      forall x | Settled(sys.tr, x)
        ensures Settled(next.tr, x)
      {
        SettledStays(sys.tr, x, Data(s, now));
      }
    }
    SameNumbers(sys, next);
  }

  lemma DeliverReportSound(sys: System, r: ReportMsg, c: Config)
    requires Sound(sys, c) && r in sys.reports
    ensures Sound(Act(sys, DeliverReport(r), c), c)
  {
    hide Invariant, InOrder, GapsReported, Settled;
    Resends.HandleMatches(sys.out, r.ack, r.lost);
    ForgottenJustified(sys, r, c);
    PrunedSubset(sys.out.pending, r.ack, r.lost);
    hide Pruned, Resent, Resends.ResendsOf, Resends.RetriesMatch;
  }

  lemma PrunedSubset(pending: map<nat, Entry<nat>>, ack: nat, lost: set<nat>)
    ensures Pruned(pending, ack, lost).Keys <= pending.Keys
  {}

  /** Whatever a report removes was settled or had used up its retries. */
  lemma ForgottenJustified(sys: System, r: ReportMsg, c: Config)
    requires Sound(sys, c) && r in sys.reports
    ensures forall s :: s in sys.out.pending && s !in Pruned(sys.out.pending, r.ack, r.lost) ==>
              Settled(sys.tr, s) || Resends.ResendsOf(sys.out.resends, s) == MAX_RETRIES
  {
    hide Invariant, InOrder, GapsReported, Settled;
  }

  lemma ActSound(sys: System, a: Action, c: Config)
    requires Sound(sys, c) && Allowed(sys, a, c)
    ensures Sound(Act(sys, a, c), c)
  {
    match a {
      case SendData => hide Invariant, InOrder, GapsReported, Settled;
      case SendControl => hide Invariant, InOrder, GapsReported, Settled;
      case DeliverData(s, now) => DeliverDataSound(sys, s, now, c);
      case DeliverAck(s) => hide Invariant, InOrder, GapsReported, Settled;
      case MakeReport(now) => MakeReportSound(sys, now, c);
      case DeliverReport(r) => DeliverReportSound(sys, r, c);
    }
  }

  // ---------- Runs ----------

  /** A run of the system: a sequence of states, each the result of an allowed action on the one before. */
  ghost predicate IsRun(states: seq<System>, actions: seq<Action>, c: Config) {
    && |states| == |actions| + 1
    && Initial(states[0])
    && forall i :: 0 <= i < |actions| ==> Allowed(states[i], actions[i], c) && states[i + 1] == Act(states[i], actions[i], c)
  }

  lemma {:induction false} RunSound(states: seq<System>, actions: seq<Action>, c: Config, n: nat)
    requires IsRun(states, actions, c) && n < |states|
    ensures Sound(states[n], c)
    decreases n
  {
    hide Sound, Initial, Act, Allowed;
    if n == 0 {
      InitialSound(states[0], c);
    } else {
      RunSound(states, actions, c, n - 1);
      ActSound(states[n - 1], actions[n - 1], c);
    }
  }

  /** Acknowledgement soundness: in every reachable state a sent data packet that the sender no longer holds
      was received, or precedes the receiver's first number, or was resent ten times. */
  lemma AckSoundness(states: seq<System>, actions: seq<Action>, c: Config, n: nat, s: nat)
    requires IsRun(states, actions, c) && n < |states|
    requires s in states[n].sent && s !in states[n].out.pending
    ensures var sys := states[n];
            || s in sys.tr.received
            || (sys.tr.w.initialized && s < sys.tr.first)
            || Resends.ResendsOf(sys.out.resends, s) == MAX_RETRIES
  {
    RunSound(states, actions, c, n);
  }
}
