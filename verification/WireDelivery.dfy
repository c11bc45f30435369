/** Delivery from the wire: fragments travel as datagrams, encrypted or not, and a run of datagrams delivers the
    message exactly as a run of fragments does (send_data_packet and handle_packet of tight/src/transport.cpp). */
module WireDelivery {
  import opened Octets
  import opened WireFormat
  import opened PacketCodec
  import opened GhashField
  import opened Gcm
  import opened SealedPacket
  import opened Fragmenter
  import opened EndToEnd
  import Runs = DeliveryRuns

  /** What the sender adds to a fragment: who it is, the packet number and the time. */
  datatype Stamp = Stamp(clientId: U32, sessionId: U64, sequence: U32, tick: U32)

  /** The fragment fits its header fields, with room for the tag. */
  predicate Fits(p: Packet) {
    && p.messageId < 0x1_0000_0000 && p.index < 0x1_0000 && p.count < 0x1_0000 && p.flags < 0x1_0000
    && p.reserved < 0x1_0000 && |p.payload| + TAG_SIZE < 0x1_0000
  }

  function HeaderFor(p: Packet, s: Stamp): Header
    requires Fits(p)
  {
    Header(MAGIC, VERSION, if p.index + 1 == p.count then PARITY else DATA, p.flags, s.clientId, s.sessionId, s.sequence, 0,
           p.messageId, p.index, p.count, |p.payload|, p.reserved, s.tick, 0)
  }

  function FragmentOf(h: Header, payload: Bytes): Packet {
    Packet(h.messageId, h.fragmentIndex, h.fragmentCount, h.flags, h.reserved, payload)
  }

  /** How a fragment travels: encrypted or not, with its stamp, and with whatever follows it in the datagram. */
  datatype Travel = Travel(encrypted: bool, stamp: Stamp, trailing: Bytes)

  function DatagramOf(enc: Block -> Block, p: Packet, t: Travel): Bytes
    requires Fits(p)
  {
    WireBytes(enc, t.encrypted, HeaderFor(p, t.stamp), p.payload) + t.trailing
  }

  /** A datagram arrives, with or without a session key agreed by then, or old state is purged. */
  datatype Arrival = Datagram(d: Bytes, ready: bool, now: int) | Purge(now: int, deadTimeout: int)

  /** What the receiver makes of an arrival. */
  function EventOf(enc: Block -> Block, a: Arrival): Runs.Event {
    match a
    case Purge(now, deadTimeout) => Runs.Purge(now, deadTimeout)
    case Datagram(d, ready, now) =>
      match Received(enc, ready, d)
      case None => Runs.Other
      case Some((h, payload)) =>
        if h.kind == DATA || h.kind == PARITY then Runs.Arrive(FragmentOf(h, payload), now) else Runs.Other
  }

  /** An encrypted fragment arrives with bit 15 of its data count cleared: as it was sent exactly when the message has
      fewer than 0x8000 data fragments. */
  lemma EncryptedArrives(enc: Block -> Block, p: Packet, t: Travel, now: int)
    requires Fits(p) && t.encrypted
    ensures var e := EventOf(enc, Datagram(DatagramOf(enc, p, t), true, now));
            && e == Runs.Arrive(p.(flags := ClearFlag(p.flags)), now)
            && (e == Runs.Arrive(p, now) <==> p.flags < 0x8000)
  {
    hide Received, WireBytes, WireSum, Fields, Covered;
    EncryptedRoundTrip(enc, HeaderFor(p, t.stamp), p.payload, t.trailing);
  }

  /** A plain fragment arrives as it was sent, with or without a key, below 0x8000 data fragments; from there on its
      data count reads as the mark of encryption, and without a key it is dropped. */
  lemma PlainArrives(enc: Block -> Block, p: Packet, t: Travel, ready: bool, now: int)
    requires Fits(p) && !t.encrypted
    ensures var e := EventOf(enc, Datagram(DatagramOf(enc, p, t), ready, now));
            && (p.flags < 0x8000 ==> e == Runs.Arrive(p, now))
            && (p.flags >= 0x8000 && !ready ==> e == Runs.Other)
  {
    hide WireBytes, Fields, Covered, Parse, Encoded;
    var h := HeaderFor(p, t.stamp);
    if p.flags < 0x8000 {
      hide Received;
      PlainRoundTrip(enc, ready, h, p.payload, t.trailing);
    } else if !ready {
      FlaggedPlainDropped(enc, h, p.payload, t.trailing);
    }
  }

  lemma FlaggedPlainDropped(enc: Block -> Block, h: Header, payload: Bytes, trailing: Bytes)
    requires WellFormed(h, payload) && HasFlag(h.flags)
    ensures Received(enc, false, WireBytes(enc, false, h, payload) + trailing) == None
  {
    hide Encoded, Parse, Fields, HasFlag;
    RoundTrip(h, payload, trailing);
  }

  /** The events that a sequence of arrivals amounts to. */
  function Events(enc: Block -> Block, arrivals: seq<Arrival>): (evs: seq<Runs.Event>)
    ensures |evs| == |arrivals| && forall i :: 0 <= i < |evs| ==> evs[i] == EventOf(enc, arrivals[i])
  {
    seq(|arrivals|, i requires 0 <= i < |arrivals| => EventOf(enc, arrivals[i]))
  }

  /** The message fits the wire: bit 15 of its data count is free for the encryption mark, and there is room for the
      tag. */
  predicate Sendable(m: Message, maxMessageBytes: nat) {
    m.WithinLimits(maxMessageBytes) && m.id < 0x1_0000_0000 && m.K() < 0x8000 && m.w + TAG_SIZE < 0x1_0000
  }

  lemma SentFits(m: Message, maxMessageBytes: nat, k: nat)
    requires Sendable(m, maxMessageBytes) && k < m.K() + m.parityCount
    ensures Fits(m.Sent()[k]) && m.Sent()[k].flags < 0x8000
  {
    hide DataCount, Pieces, ParityBytes;
    SentFields(m, maxMessageBytes, k);
    assert m.Sent()[k] == PacketOf(m.id, m.Cut(), m.parityCount, m.w, k);
  }

  /** The datagram is fragment k of the message as it travels; encrypted ones come after the key. */
  ghost predicate Carries(enc: Block -> Block, a: Arrival, m: Message, k: nat, t: Travel)
    requires m.w > 0 && a.Datagram?
  {
    && k < |m.Sent()| && Fits(m.Sent()[k])
    && (t.encrypted ==> a.ready) && a.d == DatagramOf(enc, m.Sent()[k], t)
  }

  /** A fragment of the message arrives as that fragment. */
  lemma FragmentArrives(enc: Block -> Block, a: Arrival, m: Message, maxMessageBytes: nat, k: nat, t: Travel)
    requires Sendable(m, maxMessageBytes) && a.Datagram? && Carries(enc, a, m, k, t)
    ensures EventOf(enc, a) == Runs.Arrive(m.Sent()[k], a.now)
  {
    hide EventOf, DatagramOf, DataCount, Pieces, Packets;
    SentFits(m, maxMessageBytes, k);
    if t.encrypted {
      EncryptedArrives(enc, m.Sent()[k], t, a.now);
    } else {
      PlainArrives(enc, m.Sent()[k], t, a.ready, a.now);
    }
  }

  /** Every datagram of the run carries a fragment of the message, or nothing under its id. */
  ghost predicate GenuineWire(enc: Block -> Block, arrivals: seq<Arrival>, m: Message)
    requires m.w > 0
  {
    forall i :: 0 <= i < |arrivals| && arrivals[i].Datagram? && Runs.Own(EventOf(enc, arrivals[i]), m.id) ==>
      exists k: nat, t: Travel :: Carries(enc, arrivals[i], m, k, t)
  }

  /** In every run of datagrams, the payload is delivered exactly by the datagram that makes the fragments carried
      so far ready, and by no other. */
  lemma {:induction false} DatagramsDeliver(enc: Block -> Block, arrivals: seq<Arrival>, m: Message,
                                            maxMessageBytes: nat, j: nat)
    requires Sendable(m, maxMessageBytes) && j < |arrivals| && GenuineWire(enc, arrivals, m)
    requires var evs := Events(enc, arrivals);
             Runs.WellFormedEvents(evs) && Runs.Kept(evs, m.id, maxMessageBytes) && Runs.Own(evs[j], m.id)
    ensures var evs := Events(enc, arrivals);
            Runs.Output(evs, j, maxMessageBytes)
            == if Runs.Admitted(m, maxMessageBytes) && !Ready(m, Runs.Seen(evs, m.id, j))
                  && Ready(m, Runs.Seen(evs, m.id, j + 1)) then Some(m.payload) else None
  {
    var evs := Events(enc, arrivals);
    hide EventOf, Carries, Ready, DataCount, Packets, Pieces, Runs.After, Runs.Output, Runs.Kept, Runs.Admitted;
    forall i | 0 <= i < |evs| && Runs.Own(evs[i], m.id) ensures evs[i].pkt in m.Sent() {
      NotPurge(enc, arrivals[i], m.id);
      var k: nat, t: Travel :| Carries(enc, arrivals[i], m, k, t);
      FragmentArrives(enc, arrivals[i], m, maxMessageBytes, k, t);
      InSent(enc, arrivals[i], m, k, t);
    }
    Runs.DeliveredWhenReady(evs, m, maxMessageBytes, j);
  }

  lemma InSent(enc: Block -> Block, a: Arrival, m: Message, k: nat, t: Travel)
    requires m.w > 0 && a.Datagram? && Carries(enc, a, m, k, t)
    ensures k < |m.Sent()| && m.Sent()[k] in m.Sent()
  {}

  lemma NotPurge(enc: Block -> Block, a: Arrival, id: nat)
    requires Runs.Own(EventOf(enc, a), id)
    ensures a.Datagram?
  {}
}
