/** Nonces over whole runs of a sender under one key: exactly when two sealed packets share one. The comment at
    tight/src/transport.cpp:987 says never; the packets are those of fragment_and_send, send_command and, when a report
    asks for them again, the control packets of send_control. */
module NonceRuns {
  import opened Octets
  import opened WireFormat
  import opened PacketCodec
  import opened SealedPacket
  import opened Fragmenter

  /** The control packets that are kept for resending. */
  datatype ControlKind = Handshake | HandshakeAck | Online

  function KindByte(k: ControlKind): Byte { match k case Handshake => 0 case HandshakeAck => 1 case Online => 2 }

  /** What the sender does. `rest` holds the header fields that the nonce does not depend on. A handshake resets the
      command counter and keeps the key, which depends only on the two key pairs and client numbers. */
  datatype Event =
    | SendMessage(count: U16, rest: Header)
    | SendCommand(rest: Header)
    | SendControl(kind: ControlKind, rest: Header)
    | Reset
    | Resend(j: nat)

  /** Which packet it is: a fragment of the message with this ordinal, the command with this ordinal since the reset
      with this ordinal, or a control packet. */
  datatype Origin =
    | Fragment(message: nat, index: nat, count: nat)
    | Order(session: nat, ordinal: nat)
    | Control(kind: ControlKind, ordinal: nat)

  datatype Made = Made(origin: Origin, header: Header)

  /** Both counters of the peer, the packets made so far, and which of them were sealed, in order. */
  datatype Sender = Sender(clientId: U32, msgOut: U32, cmdOut: U32, messages: nat, sessions: nat, orders: nat,
                           made: seq<Made>, sealed: seq<nat>)

  function FragmentMade(s: Sender, e: Event, i: nat): Made
    requires e.SendMessage? && i < e.count
  {
    Made(Fragment(s.messages, i, e.count),
         e.rest.(kind := if i + 1 == e.count then PARITY else DATA, clientId := s.clientId, messageId := IdFrom(s.msgOut),
                 fragmentIndex := i))
  }

  function Fragments(s: Sender, e: Event): (ms: seq<Made>)
    requires e.SendMessage?
    ensures |ms| == e.count && forall i :: 0 <= i < |ms| ==> ms[i] == FragmentMade(s, e, i)
  {
    seq(e.count, i requires 0 <= i < e.count => FragmentMade(s, e, i))
  }

  function Upward(from: nat, n: nat): (js: seq<nat>)
    ensures |js| == n && forall i :: 0 <= i < n ==> js[i] == from + i
  {
    seq(n, i requires 0 <= i < n => from + i)
  }

  function Step(s: Sender, e: Event): Sender {
    match e
    case SendMessage(count, rest) =>
      s.(msgOut := CounterAfter(s.msgOut), messages := s.messages + 1,
         made := s.made + Fragments(s, e), sealed := s.sealed + Upward(|s.made|, count))
    case SendCommand(rest) =>
      var h := rest.(kind := COMMAND, clientId := s.clientId, sequence := s.cmdOut);
      s.(cmdOut := (s.cmdOut + 1) % 0x1_0000_0000, orders := s.orders + 1,
         made := s.made + [Made(Order(s.sessions, s.orders), h)], sealed := s.sealed + [|s.made|])
    case SendControl(kind, rest) =>
      var h := rest.(kind := KindByte(kind), clientId := s.clientId, messageId := 0, fragmentIndex := 0);
      s.(made := s.made + [Made(Control(kind, |s.made|), h)])
    case Reset => s.(cmdOut := 1, sessions := s.sessions + 1, orders := 0)
    case Resend(j) => if j < |s.made| && !s.made[j].origin.Order? then s.(sealed := s.sealed + [j]) else s
  }

  function After(clientId: U32, evs: seq<Event>, n: nat): Sender
    requires n <= |evs|
    decreases n
  {
    if n == 0 then Sender(clientId, 1, 1, 0, 0, 0, [], []) else Step(After(clientId, evs, n - 1), evs[n - 1])
  }

  // ---------- What the counters have given ----------

  /** Message ids come around after this many messages. */
  const ID_PERIOD: nat := 0x7FFF_FFFF

  ghost predicate CounterAt(out: nat, t: nat) {
    out % 0x8000_0000 == t % ID_PERIOD + 1 || (t % ID_PERIOD == 0 && out % 0x8000_0000 == 0)
  }

  lemma LowBits(x: nat)
    ensures x % 0x1_0000_0000 % 0x8000_0000 == x % 0x8000_0000
  {
    assert x == x / 0x1_0000_0000 * 0x1_0000_0000 + x % 0x1_0000_0000;
    assert x == (x / 0x1_0000_0000 * 2) * 0x8000_0000 + x % 0x1_0000_0000;
  }

  /** The message with ordinal t gets id t mod (2^31 - 1) + 1. */
  lemma NextId(out: nat, t: nat)
    requires CounterAt(out, t)
    ensures IdFrom(out) == t % ID_PERIOD + 1 && CounterAt(CounterAfter(out), t + 1)
  {
    NextInPeriod(t);
    NextLowBits(out);
    NextLowBits(out + 1);
    LowBits(out + 1);
    LowBits(out + 2);
  }

  lemma NextInPeriod(t: nat)
    ensures (t + 1) % ID_PERIOD == if t % ID_PERIOD + 1 == ID_PERIOD then 0 else t % ID_PERIOD + 1
  {}

  lemma NextLowBits(out: nat)
    ensures (out + 1) % 0x8000_0000 == if out % 0x8000_0000 + 1 == 0x8000_0000 then 0 else out % 0x8000_0000 + 1
  {}

  /** The header carries what its origin says. */
  ghost predicate Faithful(m: Made, clientId: U32) {
    m.header.clientId == clientId &&
    match m.origin
    case Fragment(message, index, count) =>
      && index < count && m.header.messageId == message % ID_PERIOD + 1 && m.header.fragmentIndex == index
      && m.header.kind == if index + 1 == count then PARITY else DATA
    case Order(_, ordinal) => m.header.kind == COMMAND && m.header.sequence == (ordinal + 1) % 0x1_0000_0000
    case Control(kind, _) => m.header.kind == KindByte(kind) && m.header.messageId == 0 && m.header.fragmentIndex == 0
  }

  /** The packet was made before the counters reached where they are. */
  ghost predicate Earlier(s: Sender, j: nat)
    requires j < |s.made|
  {
    match s.made[j].origin
    case Fragment(message, _, _) => message < s.messages
    case Order(session, ordinal) => session < s.sessions || (session == s.sessions && ordinal < s.orders)
    case Control(_, ordinal) => ordinal == j
  }

  /** One packet: nothing is made twice. */
  predicate SamePlace(o: Origin, q: Origin) {
    if o.Fragment? && q.Fragment? then o.message == q.message && o.index == q.index else o == q
  }

  ghost predicate Counted(s: Sender, clientId: U32) {
    && s.clientId == clientId && CounterAt(s.msgOut, s.messages) && s.cmdOut == (s.orders + 1) % 0x1_0000_0000
    && (forall j :: 0 <= j < |s.made| ==> Faithful(s.made[j], clientId) && Earlier(s, j))
    && (forall j, k :: 0 <= j < k < |s.made| ==> !SamePlace(s.made[j].origin, s.made[k].origin))
    && (forall a :: 0 <= a < |s.sealed| ==> s.sealed[a] < |s.made|)
  }

  lemma MessageKeeps(s: Sender, e: Event, clientId: U32)
    requires Counted(s, clientId) && e.SendMessage?
    ensures Counted(Step(s, e), clientId)
  {
    NextId(s.msgOut, s.messages);
    hide CounterAt, IdFrom, CounterAfter;
    var q := Step(s, e);
    forall j | 0 <= j < |q.made| ensures Faithful(q.made[j], clientId) && Earlier(q, j) {
      if j < |s.made| {
        assert Earlier(s, j);
      }
    }
  }

  lemma OneKeeps(s: Sender, e: Event, clientId: U32)
    requires Counted(s, clientId) && (e.SendCommand? || e.SendControl?)
    ensures Counted(Step(s, e), clientId)
  {
    hide CounterAt;
    var q := Step(s, e);
    NextCommand(s.orders);
    forall j | 0 <= j < |q.made| ensures Faithful(q.made[j], clientId) && Earlier(q, j) {
      if j < |s.made| {
        assert Earlier(s, j);
      }
    }
  }

  lemma NextCommand(n: nat)
    ensures ((n + 1) % 0x1_0000_0000 + 1) % 0x1_0000_0000 == (n + 2) % 0x1_0000_0000
  {}

  lemma ResetKeeps(s: Sender, clientId: U32)
    requires Counted(s, clientId)
    ensures Counted(Step(s, Reset), clientId)
  {
    hide CounterAt, Faithful;
    var q := Step(s, Reset);
    forall j | 0 <= j < |q.made| ensures Earlier(q, j) {
      assert Earlier(s, j);
    }
  }

  lemma {:induction false} RunCounted(clientId: U32, evs: seq<Event>, n: nat)
    requires n <= |evs|
    ensures Counted(After(clientId, evs, n), clientId)
    decreases n
  {
    hide Counted, Step;
    if n == 0 {
      StartCounted(clientId, evs);
    } else {
      RunCounted(clientId, evs, n - 1);
      StepCounted(After(clientId, evs, n - 1), evs[n - 1], clientId);
    }
  }

  lemma {:induction false} StartCounted(clientId: U32, evs: seq<Event>)
    ensures Counted(After(clientId, evs, 0), clientId)
  {}

  lemma StepCounted(s: Sender, e: Event, clientId: U32)
    requires Counted(s, clientId)
    ensures Counted(Step(s, e), clientId)
  {
    match e {
      case SendMessage(_, _) => MessageKeeps(s, e, clientId);
      case SendCommand(_) => OneKeeps(s, e, clientId);
      case SendControl(_, _) => OneKeeps(s, e, clientId);
      case Reset => ResetKeeps(s, clientId);
      case Resend(j) => ResendKeeps(s, e, clientId);
    }
  }

  lemma ResendKeeps(s: Sender, e: Event, clientId: U32)
    requires Counted(s, clientId) && e.Resend?
    ensures Counted(Step(s, e), clientId)
  {
    hide CounterAt, Faithful;
    var q := Step(s, e);
    forall j | 0 <= j < |q.made| ensures Earlier(q, j) {
      assert Earlier(s, j);
    }
  }

  // ---------- When nonces meet ----------

  /** The same place in messages whose ids have come around, the same command number in any two sessions, or control
      packets of one type. */
  predicate Meet(o: Origin, q: Origin) {
    match (o, q)
    case (Fragment(m, i, c), Fragment(n, j, d)) => m % ID_PERIOD == n % ID_PERIOD && i == j && (i + 1 == c <==> j + 1 == d)
    case (Order(_, x), Order(_, y)) => x % 0x1_0000_0000 == y % 0x1_0000_0000
    case (Control(k, _), Control(l, _)) => k == l
    case _ => false
  }

  lemma SameCommand(x: nat, y: nat)
    ensures (x + 1) % 0x1_0000_0000 == (y + 1) % 0x1_0000_0000 <==> x % 0x1_0000_0000 == y % 0x1_0000_0000
  {}

  lemma FaithfulNonces(a: Made, b: Made, clientId: U32)
    requires Faithful(a, clientId) && Faithful(b, clientId)
    ensures NonceOf(a.header) == NonceOf(b.header) <==> Meet(a.origin, b.origin)
  {
    NonceIdentifies(a.header, b.header);
    hide NonceOf;
    if a.origin.Order? && b.origin.Order? {
      SameCommand(a.origin.ordinal, b.origin.ordinal);
    }
  }

  /** In every run of a sender, two sealed packets share a nonce if and only if they are the same place in messages a
      multiple of 2^31 - 1 apart (a resent fragment included), commands with the same number of the same or of
      different sessions, or control packets of one type. */
  lemma {:induction false} NoncesMeetExactly(clientId: U32, evs: seq<Event>, n: nat, a: nat, b: nat)
    requires n <= |evs| && a < |After(clientId, evs, n).sealed| && b < |After(clientId, evs, n).sealed|
    ensures var s := After(clientId, evs, n);
            && s.sealed[a] < |s.made| && s.sealed[b] < |s.made|
            && var x, y := s.made[s.sealed[a]], s.made[s.sealed[b]];
               NonceOf(x.header) == NonceOf(y.header) <==> Meet(x.origin, y.origin)
  {
    RunCounted(clientId, evs, n);
    var s := After(clientId, evs, n);
    FaithfulNonces(s.made[s.sealed[a]], s.made[s.sealed[b]], clientId);
  }

  /** So up to 2^31 - 1 messages and 2^32 commands, without a reset and with no control packet sealed, only a resend
      repeats a nonce. */
  lemma {:induction false} UniqueBeforeReset(clientId: U32, evs: seq<Event>, n: nat, a: nat, b: nat)
    requires n <= |evs| && a < |After(clientId, evs, n).sealed| && b < |After(clientId, evs, n).sealed|
    requires var s := After(clientId, evs, n);
             && s.messages <= ID_PERIOD && s.sessions == 0 && s.orders <= 0x1_0000_0000
             && forall c :: 0 <= c < |s.sealed| ==> s.sealed[c] < |s.made| && !s.made[s.sealed[c]].origin.Control?
    ensures var s := After(clientId, evs, n);
            NonceOf(s.made[s.sealed[a]].header) == NonceOf(s.made[s.sealed[b]].header) <==> s.sealed[a] == s.sealed[b]
  {
    RunCounted(clientId, evs, n);
    NoncesMeetExactly(clientId, evs, n, a, b);
    var s := After(clientId, evs, n);
    hide NonceOf, After, Faithful;
    var i, j := s.sealed[a], s.sealed[b];
    assert Earlier(s, i) && Earlier(s, j);
    if Meet(s.made[i].origin, s.made[j].origin) {
      SmallMeet(s, i, j);
    }
  }

  lemma SmallMeet(s: Sender, i: nat, j: nat)
    requires i < |s.made| && j < |s.made| && Earlier(s, i) && Earlier(s, j) && !s.made[i].origin.Control?
    requires s.messages <= ID_PERIOD && s.sessions == 0 && s.orders <= 0x1_0000_0000
    requires Meet(s.made[i].origin, s.made[j].origin)
    requires forall k, l :: 0 <= k < l < |s.made| ==> !SamePlace(s.made[k].origin, s.made[l].origin)
    ensures i == j
  {
  }

  /** A handshake between two commands repeats the nonce of the first. */
  lemma {:induction false} ResetRepeats(clientId: U32, evs: seq<Event>, rest: Header, other: Header)
    requires evs == [SendCommand(rest), Reset, SendCommand(other)]
    ensures var s := After(clientId, evs, 3);
            && s.sealed == [0, 1] && |s.made| == 2
            && s.made[0].origin != s.made[1].origin && NonceOf(s.made[0].header) == NonceOf(s.made[1].header)
  {
    hide NonceOf;
    assert After(clientId, evs, 1) == Step(After(clientId, evs, 0), evs[0]);
    assert After(clientId, evs, 2) == Step(After(clientId, evs, 1), evs[1]);
    assert After(clientId, evs, 3) == Step(After(clientId, evs, 2), evs[2]);
    NoncesMeetExactly(clientId, evs, 3, 0, 1);
  }
}
