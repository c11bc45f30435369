/** Delivery over whole runs: fragments of many messages arrive interleaved, repeated, reordered and with
    losses, and old state is purged from time to time. */
module DeliveryRuns {
  import opened Octets
  import opened Fragmenter
  import opened Reassembler
  import opened EndToEnd

  /** A fragment arrives, old state is purged, or a datagram arrives that carries no fragment. */
  datatype Event = Arrive(pkt: Packet, now: int) | Purge(now: int, deadTimeout: int) | Other

  predicate WellFormedEvents(evs: seq<Event>) {
    forall j :: 0 <= j < |evs| && evs[j].Arrive? ==> evs[j].pkt.flags <= evs[j].pkt.count
  }

  lemma StepKeepsValid(s: State, pkt: Packet, now: int, maxMessageBytes: nat)
    requires ValidState(s) && pkt.flags <= pkt.count
    ensures ValidState(Step(s, pkt, now, maxMessageBytes).0)
  {
    hide Assemble;
  }

  /** The receiver state after the first n events, starting empty. */
  ghost function After(evs: seq<Event>, n: nat, maxMessageBytes: nat): (s: State)
    requires n <= |evs| && WellFormedEvents(evs)
    ensures ValidState(s)
    decreases n
  {
    if n == 0 then State(map[], map[])
    else
      var s := After(evs, n - 1, maxMessageBytes);
      match evs[n - 1]
      case Arrive(pkt, now) =>
        StepKeepsValid(s, pkt, now, maxMessageBytes);
        Step(s, pkt, now, maxMessageBytes).0
      case Purge(now, deadTimeout) => PurgeStep(s, now, deadTimeout)
      case Other => s
  }

  /** What event j delivers. */
  ghost function Output(evs: seq<Event>, j: nat, maxMessageBytes: nat): Option<Bytes>
    requires j < |evs| && WellFormedEvents(evs)
  {
    match evs[j]
    case Arrive(pkt, now) => Step(After(evs, j, maxMessageBytes), pkt, now, maxMessageBytes).1
    case Purge(_, _) => None
    case Other => None
  }

  predicate Own(e: Event, id: nat) { e.Arrive? && e.pkt.messageId == id }

  /** The distinct fragments of message `id` among the first n events. */
  ghost function Seen(evs: seq<Event>, id: nat, n: nat): set<nat>
    requires n <= |evs|
    decreases n
  {
    if n == 0 then {}
    else Seen(evs, id, n - 1) + (if Own(evs[n - 1], id) then {evs[n - 1].pkt.index} else {})
  }

  /** Every packet under the id of the message is one that its sender sent. */
  ghost predicate Genuine(evs: seq<Event>, m: Message)
    requires m.w > 0
  {
    forall j :: 0 <= j < |evs| && Own(evs[j], m.id) ==> evs[j].pkt in m.Sent()
  }

  /** A purge that spares the message: neither its entry nor its completed mark is old enough. */
  ghost predicate Spares(s: State, id: nat, now: int, deadTimeout: int) {
    && (id in s.incoming ==> now - s.incoming[id].firstSeen < deadTimeout)
    && (id in s.completed ==> now - s.completed[id] < deadTimeout)
  }

  ghost predicate Kept(evs: seq<Event>, id: nat, maxMessageBytes: nat)
    requires WellFormedEvents(evs)
  {
    forall j :: 0 <= j < |evs| && evs[j].Purge? ==>
      Spares(After(evs, j, maxMessageBytes), id, evs[j].now, evs[j].deadTimeout)
  }

  /** The receiver's guard against absurd fragment counts lets the message through. */
  predicate Admitted(m: Message, maxMessageBytes: nat)
    requires m.w > 0
  {
    m.K() + m.parityCount <= maxMessageBytes / 64 + 8
  }

  /** What the receiver knows of the message once the fragments in `s` have arrived. */
  ghost predicate Tracks(st: State, m: Message, maxMessageBytes: nat, s: set<nat>)
    requires m.w > 0
  {
    if !Admitted(m, maxMessageBytes) then m.id !in st.completed && m.id !in st.incoming
    else if !Ready(m, s) then
      && m.id !in st.completed
      && (s == {} ==> m.id !in st.incoming)
      && (s != {} ==> m.id in st.incoming && st.incoming[m.id] == EntryOf(m, s, st.incoming[m.id].firstSeen))
    else
      m.id in st.completed
  }

  lemma StartIsEntry(m: Message, maxMessageBytes: nat, pkt: Packet, now: int)
    requires m.WithinLimits(maxMessageBytes) && pkt in m.Sent()
    ensures Start(pkt, now) == EntryOf(m, {}, now)
  {
    hide DataCount, Packets, Pieces;
    var i :| 0 <= i < |m.Sent()| && m.Sent()[i] == pkt;
    SentFields(m, maxMessageBytes, i);
    var a, b := Start(pkt, now), EntryOf(m, {}, now);
    assert a.fragments == b.fragments && a.sizes == b.sizes;
  }

  lemma StoreIsEntry(m: Message, maxMessageBytes: nat, s: set<nat>, firstSeen: int, pkt: Packet)
    requires m.WithinLimits(maxMessageBytes) && pkt in m.Sent()
    ensures pkt.index < m.K() + m.parityCount
    ensures Store(EntryOf(m, s, firstSeen), pkt) == EntryOf(m, s + {pkt.index}, firstSeen)
  {
    hide DataCount, Packets, Pieces, EntryOf;
    var i :| 0 <= i < |m.Sent()| && m.Sent()[i] == pkt;
    SentFields(m, maxMessageBytes, i);
    var a, b := Store(EntryOf(m, s, firstSeen), pkt), EntryOf(m, s + {pkt.index}, firstSeen);
    EntryAt(m, s, firstSeen, i);
    forall j | 0 <= j < m.K() + m.parityCount
      ensures a.fragments[j] == b.fragments[j] && a.sizes[j] == b.sizes[j]
    {
      EntryAt(m, s, firstSeen, j);
      EntryAt(m, s + {pkt.index}, firstSeen, j);
    }
    assert a.fragments == b.fragments && a.sizes == b.sizes;
  }

  /** Fragments of at least 64 bytes always pass the guard. */
  lemma GuardPasses(m: Message, maxMessageBytes: nat)
    requires m.WithinLimits(maxMessageBytes) && m.w >= 64
    ensures Admitted(m, maxMessageBytes)
  {
    var n := |m.payload| + 4;
    DataCountCovers(n, m.w);
    var k := m.K();
    assert (k - 1) * 64 <= (k - 1) * m.w by { MulMonotone(64, m.w, k - 1); }
    assert (k - 1) * 64 < n;
  }

  lemma LongerNeedsMore(a: nat, b: nat, w: nat)
    requires w > 0 && a <= b
    ensures DataCount(a, w) <= DataCount(b, w)
  {
    var x, y := a + w - 1, b + w - 1;
    if x / w > y / w {
      assert (y / w + 1) * w <= x / w * w by { MulMonotone(y / w + 1, x / w, w); }
    }
  }

  /** A width is safe exactly when the longest message passes the guard in it. */
  lemma GuardPassesExactly(w: nat, parityCount: nat, maxMessageBytes: nat)
    requires w > 0
    ensures (forall m: Message :: m.w == w && m.parityCount == parityCount && |m.payload| <= maxMessageBytes ==>
               Admitted(m, maxMessageBytes))
       <==> DataCount(maxMessageBytes + 4, w) + parityCount <= maxMessageBytes / 64 + 8
  {
    hide DataCount;
    var longest := Message(1, Zeros(maxMessageBytes), w, parityCount);
    forall m: Message | m.w == w && m.parityCount == parityCount && |m.payload| <= maxMessageBytes
      ensures DataCount(maxMessageBytes + 4, w) + parityCount <= maxMessageBytes / 64 + 8 ==> Admitted(m, maxMessageBytes)
    {
      LongerNeedsMore(|m.payload| + 4, maxMessageBytes + 4, w);
    }
    assert Admitted(longest, maxMessageBytes) <==> DataCount(maxMessageBytes + 4, w) + parityCount <= maxMessageBytes / 64 + 8;
  }

  /** A datagram limit of 53 bytes gives fragments of 5, and a message of 8192 bytes in them is refused. */
  lemma NarrowRefused(m: Message)
    requires m.id > 0 && m.w == FragPayload(53) && 1 <= m.parityCount <= 3 && |m.payload| == 8192
    ensures m.WithinLimits(8192) && !Admitted(m, 8192)
  {
    assert m.K() == 1640;
  }

  lemma SentFlags(m: Message, maxMessageBytes: nat, pkt: Packet)
    requires m.WithinLimits(maxMessageBytes) && pkt in m.Sent()
    ensures pkt.messageId == m.id && pkt.flags <= pkt.count && pkt.count == m.K() + m.parityCount && pkt.index < pkt.count
  {
    hide DataCount, Packets, Pieces;
    var i :| 0 <= i < |m.Sent()| && m.Sent()[i] == pkt;
    SentFields(m, maxMessageBytes, i);
  }

  /** One arrival of the message: it delivers the payload exactly when it makes the arrived fragments ready. */
  lemma OwnArrival(st: State, m: Message, maxMessageBytes: nat, s: set<nat>, pkt: Packet, now: int)
    requires ValidState(st) && m.WithinLimits(maxMessageBytes) && pkt in m.Sent() && pkt.flags <= pkt.count
    requires Within(m, s) && Tracks(st, m, maxMessageBytes, s)
    ensures var (next, out) := Step(st, pkt, now, maxMessageBytes);
            && Within(m, s + {pkt.index})
            && Tracks(next, m, maxMessageBytes, s + {pkt.index})
            && out == if Admitted(m, maxMessageBytes) && !Ready(m, s) && Ready(m, s + {pkt.index}) then Some(m.payload) else None
  {
    hide Assemble, DataCount, Packets, Pieces, EntryOf, Start, Store, Ready;
    SentFlags(m, maxMessageBytes, pkt);
    var t := s + {pkt.index};
    if !Admitted(m, maxMessageBytes) {
      assert !Accepts(st, pkt, maxMessageBytes);
    } else if !Ready(m, s) {
      StartIsEntry(m, maxMessageBytes, pkt, now);
      var inc := EntryFor(st.incoming, pkt, now);
      assert inc == EntryOf(m, s, inc.firstSeen) by { EntryForTracks(st, m, maxMessageBytes, s, pkt, now); }
      StoreIsEntry(m, maxMessageBytes, s, inc.firstSeen, pkt);
      AssemblesExactly(m, maxMessageBytes, t, inc.firstSeen);
    } else {
      ReadyGrows(m, s, t);
    }
  }

  lemma EntryForTracks(st: State, m: Message, maxMessageBytes: nat, s: set<nat>, pkt: Packet, now: int)
    requires m.WithinLimits(maxMessageBytes) && pkt in m.Sent() && pkt.messageId == m.id
    requires Tracks(st, m, maxMessageBytes, s) && Admitted(m, maxMessageBytes) && !Ready(m, s)
    ensures var inc := EntryFor(st.incoming, pkt, now); inc == EntryOf(m, s, inc.firstSeen)
  {
    hide DataCount, Packets, Pieces, EntryOf, Start, Ready;
    StartIsEntry(m, maxMessageBytes, pkt, now);
  }

  lemma OtherArrival(st: State, m: Message, s: set<nat>, pkt: Packet, now: int, maxMessageBytes: nat)
    requires ValidState(st) && m.w > 0 && pkt.flags <= pkt.count && pkt.messageId != m.id && Tracks(st, m, maxMessageBytes, s)
    ensures Tracks(Step(st, pkt, now, maxMessageBytes).0, m, maxMessageBytes, s)
  {
    hide Assemble, EntryOf, DataCount, EntryFor, Store, Ready;
  }

  lemma SparingPurge(st: State, m: Message, maxMessageBytes: nat, s: set<nat>, now: int, deadTimeout: int)
    requires m.w > 0 && Tracks(st, m, maxMessageBytes, s) && Spares(st, m.id, now, deadTimeout)
    ensures Tracks(PurgeStep(st, now, deadTimeout), m, maxMessageBytes, s)
  {
    hide EntryOf, DataCount, Ready;
  }

  /** The receiver tracks the message through every run that spares it. */
  lemma {:induction false} RunTracks(evs: seq<Event>, m: Message, maxMessageBytes: nat, n: nat)
    requires WellFormedEvents(evs) && n <= |evs| && m.WithinLimits(maxMessageBytes)
    requires Genuine(evs, m) && Kept(evs, m.id, maxMessageBytes)
    ensures Within(m, Seen(evs, m.id, n)) && Tracks(After(evs, n, maxMessageBytes), m, maxMessageBytes, Seen(evs, m.id, n))
    decreases n
  {
    hide Tracks, Step, PurgeStep, Within, DataCount, Spares, Message.K, Message.Sent;
    if n == 0 {
      EmptyTracks(m, maxMessageBytes);
    } else {
      RunTracks(evs, m, maxMessageBytes, n - 1);
      var st := After(evs, n - 1, maxMessageBytes);
      var s := Seen(evs, m.id, n - 1);
      match evs[n - 1] {
        case Arrive(pkt, now) =>
          if pkt.messageId == m.id {
            assert Own(evs[n - 1], m.id);
            OwnArrival(st, m, maxMessageBytes, s, pkt, now);
          } else {
            OtherArrival(st, m, s, pkt, now, maxMessageBytes);
            assert s + {} == s;
          }
        case Purge(now, deadTimeout) =>
          SparingPurge(st, m, maxMessageBytes, s, now, deadTimeout);
          assert s + {} == s;
        case Other => assert s + {} == s;
      }
    }
  }

  lemma EmptyTracks(m: Message, maxMessageBytes: nat)
    requires m.WithinLimits(maxMessageBytes)
    ensures Within(m, {}) && Tracks(State(map[], map[]), m, maxMessageBytes, {})
  {
    NothingNotReady(m, maxMessageBytes);
  }

  /** In every run, for a message of any size and fragment width, a fragment delivers the exact payload if the guard
      admits the message and it is the one that makes the arrived fragments ready. It delivers nothing otherwise: not
      earlier, never again while the completed mark is kept, and never at all if the guard does not admit it. */
  lemma {:induction false} DeliveredWhenReady(evs: seq<Event>, m: Message, maxMessageBytes: nat, j: nat)
    requires WellFormedEvents(evs) && j < |evs| && m.WithinLimits(maxMessageBytes)
    requires Genuine(evs, m) && Kept(evs, m.id, maxMessageBytes) && Own(evs[j], m.id)
    ensures Output(evs, j, maxMessageBytes)
         == if Admitted(m, maxMessageBytes) && !Ready(m, Seen(evs, m.id, j)) && Ready(m, Seen(evs, m.id, j + 1))
            then Some(m.payload) else None
  {
    hide Tracks, Step, Within, DataCount, Kept, Ready;
    RunTracks(evs, m, maxMessageBytes, j);
    OwnArrival(After(evs, j, maxMessageBytes), m, maxMessageBytes, Seen(evs, m.id, j), evs[j].pkt, evs[j].now);
  }

  /** Up to 255 data fragments that is the arrival of the k-th distinct fragment. */
  lemma {:induction false} DeliveredExactlyOnce(evs: seq<Event>, m: Message, maxMessageBytes: nat, j: nat)
    requires WellFormedEvents(evs) && j < |evs| && m.WithinLimits(maxMessageBytes) && Admitted(m, maxMessageBytes) && m.K() <= 255
    requires Genuine(evs, m) && Kept(evs, m.id, maxMessageBytes) && Own(evs[j], m.id)
    ensures Output(evs, j, maxMessageBytes)
         == if |Seen(evs, m.id, j)| < m.K() <= |Seen(evs, m.id, j + 1)| then Some(m.payload) else None
  {
    hide Output, DataCount, Kept, Genuine, After, Seen, Ready;
    DeliveredWhenReady(evs, m, maxMessageBytes, j);
    ReadyUpTo255(m, Seen(evs, m.id, j));
    ReadyUpTo255(m, Seen(evs, m.id, j + 1));
  }

  /** So once the arrived fragments are ready, the payload has been delivered. */
  lemma {:induction false} DeliveredByThen(evs: seq<Event>, m: Message, maxMessageBytes: nat, n: nat) returns (j: nat)
    requires WellFormedEvents(evs) && n <= |evs| && m.WithinLimits(maxMessageBytes)
    requires Genuine(evs, m) && Kept(evs, m.id, maxMessageBytes)
    requires Admitted(m, maxMessageBytes) && Ready(m, Seen(evs, m.id, n))
    ensures j < n && Own(evs[j], m.id) && Output(evs, j, maxMessageBytes) == Some(m.payload)
    decreases n
  {
    hide Output, DataCount, Kept, Genuine, After, Message.Sent, Message.K, Message.WithinLimits, Seen, Ready;
    NothingNotReady(m, maxMessageBytes);
    SeenStep(evs, m.id, n);
    j := n - 1;
    if Ready(m, Seen(evs, m.id, n - 1)) {
      j := DeliveredByThen(evs, m, maxMessageBytes, n - 1);
    } else {
      DeliveredWhenReady(evs, m, maxMessageBytes, n - 1);
    }
  }

  lemma NothingNotReady(m: Message, maxMessageBytes: nat)
    requires m.WithinLimits(maxMessageBytes)
    ensures m.w > 0 && !Ready(m, {})
  {
    DataCountCovers(|m.payload| + 4, m.w);
  }

  lemma {:induction false} SeenStep(evs: seq<Event>, id: nat, n: nat)
    requires n <= |evs|
    ensures n == 0 ==> Seen(evs, id, n) == {}
    ensures n > 0 && !Own(evs[n - 1], id) ==> Seen(evs, id, n) == Seen(evs, id, n - 1)
  {}
}
