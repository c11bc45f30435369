/** Splitting a message into fragments: tight/src/fragmenter.cpp, and the header fields that
    send_data_packet of tight/src/transport.cpp gives each fragment. */
module Fragmenter {
  import opened Octets
  import opened WireFormat
  import opened Gf256
  import opened ReedSolomon
  import opened ErasurePatterns

  // ---------- The fragments of a message ----------

  /** One fragment as it travels: header fields and the zero-padded payload. `flags` carries the number of
      data fragments and `reserved` the real size. */
  datatype Packet = Packet(messageId: nat, index: nat, count: nat, flags: nat, reserved: nat, payload: Bytes)

  /** Payload bytes of one fragment for a given datagram limit. */
  function FragPayload(mtu: nat): (w: nat)
    ensures 4 < w
    ensures mtu >= HEADER_SIZE + 64 ==> w >= 64
  {
    var w := if mtu > HEADER_SIZE then mtu - HEADER_SIZE else 64;
    if w <= 4 then 64 else w
  }

  /** The length prefix and the payload: what is cut into fragments. */
  function Full(payload: Bytes): (f: Bytes)
    ensures |f| == |payload| + 4
  {
    ToBe32(|payload|) + payload
  }

  function DataCount(length: nat, w: nat): (k: nat)
    requires w > 0
  {
    (length + w - 1) / w
  }

  lemma DataCountCovers(length: nat, w: nat)
    requires w > 0 && length > 0
    ensures DataCount(length, w) >= 1
    ensures (DataCount(length, w) - 1) * w < length <= DataCount(length, w) * w
  {
    var n := length + w - 1;
    assert n == (n / w) * w + n % w;
    assert (DataCount(length, w) - 1) * w == (n / w) * w - w;
    assert n / w >= 1;
  }

  /** Fragment j covers the bytes from j*w on, at most w of them. */
  function Piece(full: Bytes, w: nat, j: nat): (f: Bytes)
    requires w > 0 && j * w < |full|
    ensures 0 < |f| <= w
  {
    full[j * w..j * w + PieceLength(full, w, j)]
  }

  function PieceLength(full: Bytes, w: nat, j: nat): (n: nat)
    requires w > 0 && j * w < |full|
    ensures 0 < n <= w && j * w + n <= |full|
  {
    if w < |full| - j * w then w else |full| - j * w
  }

  lemma PieceStarts(full: Bytes, w: nat, j: nat)
    requires w > 0 && |full| > 0 && j < DataCount(|full|, w)
    ensures j * w < |full|
  {
    DataCountCovers(|full|, w);
    var k := DataCount(|full|, w);
    assert j * w <= (k - 1) * w by { MulMonotone(j, k - 1, w); }
  }

  lemma MulMonotone(a: int, b: int, w: nat)
    requires a <= b
    ensures a * w <= b * w
  {}

  function Pieces(full: Bytes, w: nat): (p: seq<Bytes>)
    requires w > 0 && |full| > 0
    ensures |p| == DataCount(|full|, w)
    ensures forall j :: 0 <= j < |p| ==> j * w < |full| && p[j] == Piece(full, w, j)
  {
    assert forall j :: 0 <= j < DataCount(|full|, w) ==> j * w < |full| by {
      forall j | 0 <= j < DataCount(|full|, w)
        ensures j * w < |full|
      {
        PieceStarts(full, w, j);
      }
    }
    seq(DataCount(|full|, w), j requires 0 <= j < DataCount(|full|, w) => Piece(full, w, j))
  }

  function ParityBytes(pieces: seq<Bytes>, p: nat, w: nat): (b: Bytes)
    ensures |b| == w && forall i :: 0 <= i < w ==> b[i] == ParitySum(pieces, p, i, |pieces|)
  {
    seq(w, i requires 0 <= i < w => ParitySum(pieces, p, i, |pieces|))
  }

  /** Packet i of a message: data fragments first, then parities. Header fields are narrowed to 16 bits. */
  function PacketOf(id: nat, pieces: seq<Bytes>, parityCount: nat, w: nat, i: nat): Packet
    requires i < |pieces| + parityCount
  {
    var count := (|pieces| + parityCount) % 0x1_0000;
    var flags := |pieces| % 0x1_0000;
    if i < |pieces|
    then Packet(id, i % 0x1_0000, count, flags, |pieces[i]| % 0x1_0000, Pad(pieces[i], w))
    else Packet(id, i % 0x1_0000, count, flags, w % 0x1_0000, ParityBytes(pieces, i - |pieces|, w))
  }

  function Packets(id: nat, pieces: seq<Bytes>, parityCount: nat, w: nat): (ps: seq<Packet>)
    ensures |ps| == |pieces| + parityCount
    ensures forall i :: 0 <= i < |ps| ==> ps[i] == PacketOf(id, pieces, parityCount, w, i)
  {
    seq(|pieces| + parityCount, i requires 0 <= i < |pieces| + parityCount => PacketOf(id, pieces, parityCount, w, i))
  }

  /** The id that the counter gives, and the counter after it: 31 bits of the counter, zero being passed over. */
  function IdFrom(out: nat): nat { if out % 0x8000_0000 == 0 then 1 else out % 0x8000_0000 }

  function CounterAfter(out: nat): nat { (out + if out % 0x8000_0000 == 0 then 2 else 1) % 0x1_0000_0000 }

  /** The sender side of a peer: the message counter and the reused parity buffers. */
  class Sender {
    var msgIdOut: nat
    var parities: seq<Bytes>

    ghost predicate Valid()
      reads this
    {
      msgIdOut < 0x1_0000_0000
    }

    constructor ()
      ensures Valid() && msgIdOut == 1
    {
      msgIdOut := 1;
      parities := [];
    }

    /** Takes the next message id: 31 bits, never zero. */
    method NextMessageId() returns (id: nat)
      requires Valid()
      modifies this`msgIdOut
      ensures Valid() && msgIdOut == CounterAfter(old(msgIdOut)) && id == IdFrom(old(msgIdOut))
      ensures 0 < id < 0x8000_0000
    {
      id := msgIdOut % 0x8000_0000;
      msgIdOut := (msgIdOut + 1) % 0x1_0000_0000;
      while id == 0
        invariant Valid()
        invariant id == 0 ==> old(msgIdOut) % 0x8000_0000 == 0 && msgIdOut == (old(msgIdOut) + 1) % 0x1_0000_0000
        invariant id != 0 ==> msgIdOut == (old(msgIdOut) + if old(msgIdOut) % 0x8000_0000 == 0 then 2 else 1) % 0x1_0000_0000
        invariant id != 0 ==> id == if old(msgIdOut) % 0x8000_0000 == 0 then 1 else old(msgIdOut) % 0x8000_0000
        invariant id < 0x8000_0000
        decreases if id == 0 then 1 else 0
      {
        id := msgIdOut % 0x8000_0000;
        msgIdOut := (msgIdOut + 1) % 0x1_0000_0000;
      }
    }

    /** Emits every fragment of the message, data first. `parityCount` is what the redundancy formula gave. */
    method FragmentAndSend(t: GfTables, payload: Bytes, mtu: nat, parityCount: nat) returns (sent: seq<Packet>, id: nat)
      requires Valid() && ValidTables(t)
      requires 1 <= parityCount <= 3
      modifies this
      ensures Valid() && 0 < id < 0x8000_0000
      ensures sent == Packets(id, Pieces(Full(payload), FragPayload(mtu)), parityCount, FragPayload(mtu))
    {
      hide ValidTables, ParitySum, PacketOf, Pieces, Piece, PieceLength, DataCount, Full, FragPayload, Pad;
      var w := FragPayload(mtu);
      id := NextMessageId();
      var full := Full(payload);
      var k := DataCount(|full|, w);
      ghost var pieces := Pieces(full, w);
      var spans: seq<Bytes> := [];
      for i := 0 to k
        invariant Valid() && |spans| == i
        invariant forall j :: 0 <= j < i ==> spans[j] == pieces[j]
      {
        PieceStarts(full, w, i);
        spans := spans + [Piece(full, w, i)];
      }
      assert spans == pieces;
      var out := EncodeInto(t, spans, parityCount, w, parities);
      parities := out;
      sent := [];
      for i := 0 to k
        invariant Valid() && |sent| == i
        invariant forall j :: 0 <= j < i ==> sent[j] == PacketOf(id, pieces, parityCount, w, j)
      {
        DataPacket(id, pieces, parityCount, w, i);
        sent := sent + [Packet(id, i % 0x1_0000, (k + parityCount) % 0x1_0000, k % 0x1_0000, |spans[i]| % 0x1_0000, Pad(spans[i], w))];
      }
      for p := 0 to parityCount
        invariant Valid() && |sent| == k + p
        invariant forall j :: 0 <= j < k + p ==> sent[j] == PacketOf(id, pieces, parityCount, w, j)
      {
        ParityPacket(id, pieces, parityCount, w, p, out[p][..w]);
        sent := sent + [Packet(id, (k + p) % 0x1_0000, (k + parityCount) % 0x1_0000, k % 0x1_0000, w % 0x1_0000, Pad(out[p][..w], w))];
      }
    }
  }

  lemma DataPacket(id: nat, pieces: seq<Bytes>, parityCount: nat, w: nat, i: nat)
    requires i < |pieces|
    ensures PacketOf(id, pieces, parityCount, w, i)
         == Packet(id, i % 0x1_0000, (|pieces| + parityCount) % 0x1_0000, |pieces| % 0x1_0000, |pieces[i]| % 0x1_0000, Pad(pieces[i], w))
  {}

  lemma ParityPacket(id: nat, pieces: seq<Bytes>, parityCount: nat, w: nat, p: nat, b: Bytes)
    requires p < parityCount && |b| == w
    requires forall i :: 0 <= i < w ==> b[i] == ParitySum(pieces, p, i, |pieces|)
    ensures PacketOf(id, pieces, parityCount, w, |pieces| + p)
         == Packet(id, (|pieces| + p) % 0x1_0000, (|pieces| + parityCount) % 0x1_0000, |pieces| % 0x1_0000, w % 0x1_0000, Pad(b, w))
  {
    assert ParityBytes(pieces, p, w) == Pad(b, w);
  }
}
