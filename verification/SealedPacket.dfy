/** Encrypted datagrams: build_nonce, build_wire_packet and decrypt_payload of tight/src/transport.cpp. */
module SealedPacket {
  import opened Octets
  import opened WireFormat
  import opened Crc32
  import opened PacketCodec
  import opened GhashField
  import opened Gcm
  import opened Polynomials
  import opened GcmLaws

  const DATA: Byte := 5
  const PARITY: Byte := 6
  const COMMAND: Byte := 10

  // ---------- The encryption flag ----------

  /** Bit 15 of the flags marks an encrypted payload. */
  function SetFlag(f: U16): U16 { if f < 0x8000 then f + 0x8000 else f }

  function ClearFlag(f: U16): U16 { f % 0x8000 }

  predicate HasFlag(f: U16) { f >= 0x8000 }

  lemma FlagLaws(f: U16)
    ensures HasFlag(SetFlag(f)) && ClearFlag(SetFlag(f)) == ClearFlag(f)
    ensures ClearFlag(f) == f <==> !HasFlag(f)
  {}

  // ---------- Nonces ----------

  function NonceOf(h: Header): (n: Bytes)
    ensures |n| == NONCE_SIZE
  {
    if h.kind == COMMAND then ToBe32(h.clientId) + (ToBe32(h.sequence) + [h.kind, 0, 0, 0])
    else ToBe32(h.clientId) + (ToBe32(h.messageId) + (Be16(h.fragmentIndex) + [h.kind, 0]))
  }

  /** What a nonce stands for. */
  predicate SameIdentity(g: Header, h: Header) {
    && g.clientId == h.clientId && g.kind == h.kind
    && if g.kind == COMMAND then g.sequence == h.sequence
       else g.messageId == h.messageId && g.fragmentIndex == h.fragmentIndex
  }

  lemma SameParts<T>(a: seq<T>, b: seq<T>, c: seq<T>, d: seq<T>)
    requires |a| == |c|
    ensures a + b == c + d <==> a == c && b == d
  {
    assert (a + b)[..|a|] == a && (a + b)[|a|..] == b;
    assert (c + d)[..|c|] == c && (c + d)[|c|..] == d;
  }

  /** A command and a packet of type 0 whose fragment index reads as the command type: the two layouts meet. */
  predicate LayoutsMeet(g: Header, h: Header) {
    && g.kind == COMMAND && h.kind == 0 && h.fragmentIndex == 0x0A00
    && g.clientId == h.clientId && g.sequence == h.messageId
  }

  /** Two packets share a nonce if and only if they have the same identity or their layouts meet. */
  lemma NonceIdentifies(g: Header, h: Header)
    ensures NonceOf(g) == NonceOf(h) <==> SameIdentity(g, h) || LayoutsMeet(g, h) || LayoutsMeet(h, g)
  {
    hide ToBe32, Be16, NonceOf;
    if g.kind == COMMAND && h.kind == COMMAND {
      CommandNonces(g, h);
    } else if g.kind != COMMAND && h.kind != COMMAND {
      DataNonces(g, h);
      Same32(g.clientId, h.clientId);
      Same32(g.messageId, h.messageId);
      Same16(g.fragmentIndex, h.fragmentIndex);
    } else if g.kind == COMMAND {
      MixedNonces(g, h);
    } else {
      MixedNonces(h, g);
    }
  }

  lemma CommandNonces(g: Header, h: Header)
    requires g.kind == COMMAND && h.kind == COMMAND
    ensures NonceOf(g) == NonceOf(h) <==> g.clientId == h.clientId && g.sequence == h.sequence
  {
    hide ToBe32, Be16;
    Same32(g.clientId, h.clientId);
    Same32(g.sequence, h.sequence);
    SameParts(ToBe32(g.clientId), ToBe32(g.sequence) + [g.kind, 0, 0, 0], ToBe32(h.clientId), ToBe32(h.sequence) + [h.kind, 0, 0, 0]);
    SameParts(ToBe32(g.sequence), [g.kind, 0, 0, 0], ToBe32(h.sequence), [h.kind, 0, 0, 0]);
  }

  lemma MixedNonces(g: Header, h: Header)
    requires g.kind == COMMAND && h.kind != COMMAND
    ensures NonceOf(g) == NonceOf(h) <==> LayoutsMeet(g, h)
  {
    hide ToBe32, Be16;
    Same32(g.clientId, h.clientId);
    Same32(g.sequence, h.messageId);
    IndexAsCommand(h.fragmentIndex);
    var gt, ht := [g.kind, 0, 0, 0], Be16(h.fragmentIndex) + [h.kind, 0];
    SameParts(ToBe32(g.clientId), ToBe32(g.sequence) + gt, ToBe32(h.clientId), ToBe32(h.messageId) + ht);
    SameParts(ToBe32(g.sequence), gt, ToBe32(h.messageId), ht);
    assert gt == [g.kind, 0] + [0, 0];
    SameParts([g.kind, 0], [0, 0], Be16(h.fragmentIndex), [h.kind, 0]);
    assert [0, 0] == [h.kind, 0] <==> h.kind == 0;
  }

  lemma IndexAsCommand(index: U16)
    ensures [COMMAND, 0] == Be16(index) <==> index == 0x0A00
  {
    hide Be16;
    Same16(index, 0x0A00);
    CommandIndexBytes();
  }

  lemma CommandIndexBytes()
    ensures Be16(0x0A00) == [COMMAND, 0]
  {
    assert Index(COMMAND) == 10 && Index(0) == 0;
    ByteOfIndex(COMMAND);
    LowByteZero(0x0A00);
    hide ByteOf;
  }

  lemma LowByteZero(n: nat)
    requires n % 256 == 0
    ensures ByteOf(n) == 0
  {
    IndexOfByteOf(n);
    IndexInjective(ByteOf(n), 0);
  }

  /** The header of a control packet: only commands and fragments carry a message or fragment number. */
  function ControlHeader(kind: Byte, clientId: U32, sessionId: U64, sequence: U32, size: U16, tick: U32): Header {
    Header(MAGIC, VERSION, kind, 0, clientId, sessionId, sequence, 0, 0, 0, 0, size, 0, tick, 0)
  }

  /** So all control packets of one type and client have the same nonce, whatever their number and payload;
      it is used when such a packet is resent under a session key. */
  lemma ControlNoncesCoincide(kind: Byte, clientId: U32, s: U64, a: U32, n: U16, t: U32, b: U32, m: U16, u: U32)
    requires kind != COMMAND
    ensures NonceOf(ControlHeader(kind, clientId, s, a, n, t)) == NonceOf(ControlHeader(kind, clientId, s, b, m, u))
  {
    NonceIdentifies(ControlHeader(kind, clientId, s, a, n, t), ControlHeader(kind, clientId, s, b, m, u));
  }

  lemma DataNonces(g: Header, h: Header)
    requires g.kind != COMMAND && h.kind != COMMAND
    ensures NonceOf(g) == NonceOf(h)
       <==> (ToBe32(g.clientId) == ToBe32(h.clientId) && ToBe32(g.messageId) == ToBe32(h.messageId)
             && Be16(g.fragmentIndex) == Be16(h.fragmentIndex) && g.kind == h.kind)
  {
    hide ToBe32, Be16;
    var gi, hi := Be16(g.fragmentIndex) + [g.kind, 0], Be16(h.fragmentIndex) + [h.kind, 0];
    SameParts(ToBe32(g.clientId), ToBe32(g.messageId) + gi, ToBe32(h.clientId), ToBe32(h.messageId) + hi);
    SameParts(ToBe32(g.messageId), gi, ToBe32(h.messageId), hi);
    SameParts(Be16(g.fragmentIndex), [g.kind, 0], Be16(h.fragmentIndex), [h.kind, 0]);
    assert [g.kind, 0] == [h.kind, 0] <==> g.kind == h.kind;
  }

  // ---------- Sending and receiving ----------

  /** The header that travels with an encrypted payload of n plaintext bytes. */
  function WireHeader(h: Header, n: nat): Header
    requires n + TAG_SIZE < 0x1_0000
  {
    h.(flags := SetFlag(h.flags), payloadSize := n + TAG_SIZE)
  }

  /** Ciphertext and tag of a payload, authenticated together with the 44 header bytes. */
  function Body(enc: Block -> Block, w: Header, payload: Bytes): (b: Bytes)
    ensures |b| == |payload| + TAG_SIZE
  {
    var j0 := FirstCounter(NonceOf(w));
    var ct := Crypted(enc, j0, payload);
    ct + Tag(enc, j0, Fields(w), ct)
  }

  function WireBytes(enc: Block -> Block, encrypted: bool, h: Header, payload: Bytes): Bytes
    requires encrypted ==> |payload| + TAG_SIZE < 0x1_0000
  {
    if encrypted then
      var w := WireHeader(h, |payload|);
      Encoded(w, Body(enc, w, payload))
    else Encoded(h, payload)
  }

  /** The header fields that encryption changed, put back. */
  function Restored(h: Header, n: nat): Header {
    h.(flags := ClearFlag(h.flags), payloadSize := n % 0x1_0000)
  }

  /** Opens an encrypted payload and restores the header fields that encryption changed. */
  function Unsealed(enc: Block -> Block, ready: bool, h: Header, payload: Bytes)
    : Option<(Header, Bytes)>
  {
    if !ready || |payload| < TAG_SIZE then None
    else
      var n := |payload| - TAG_SIZE;
      match Opened(enc, NonceOf(h), Fields(h), payload[..n], payload[n..])
      case None => None
      case Some(plain) => Some((Restored(h, n), plain))
  }

  /** What the receiver makes of a datagram. */
  function Received(enc: Block -> Block, ready: bool, d: Bytes): Option<(Header, Bytes)> {
    match Parse(d)
    case None => None
    case Some((h, payload)) => if HasFlag(h.flags) then Unsealed(enc, ready, h, payload) else Some((h, payload))
  }

  lemma UnsealBody(enc: Block -> Block, w: Header, sum: Word, payload: Bytes)
    ensures Unsealed(enc, true, w.(checksum := sum), Body(enc, w, payload))
         == Some((Restored(w.(checksum := sum), |payload|), payload))
  {
    hide Crypted, Tag, Fields, Restored;
    var h := w.(checksum := sum);
    var j0 := FirstCounter(NonceOf(w));
    var ct := Crypted(enc, j0, payload);
    var b := Body(enc, w, payload);
    var n := |payload|;
    SumNotAuthenticated(w, sum);
    assert b[..n] == ct && b[n..] == Tag(enc, j0, Fields(w), ct);
    CryptedTwice(enc, j0, payload);
  }

  lemma SumNotAuthenticated(w: Header, sum: Word)
    ensures Fields(w.(checksum := sum)) == Fields(w) && NonceOf(w.(checksum := sum)) == NonceOf(w)
  {}

  /** A sealed payload under another header with the same nonce: it opens exactly when the power sums of the two hashed
      strings, which differ unless the 44 header bytes are the same, agree at the hash key. */
  lemma ChangedHeaderOpensExactly(enc: Block -> Block, w: Header, g: Header, payload: Bytes)
    requires NonceOf(g) == NonceOf(w) && |payload| < 0x1_0000
    ensures var ct, h := Crypted(enc, FirstCounter(NonceOf(w)), payload), Exponents(enc(Zeros(16)));
            && (Unsealed(enc, true, g, Body(enc, w, payload)).Some?
                <==> Congruent(MODULUS, PowerSum(h, TagInput(Fields(g), ct)), PowerSum(h, TagInput(Fields(w), ct))))
            && (TagInput(Fields(g), ct) == TagInput(Fields(w), ct) <==> Fields(g) == Fields(w))
  {
    hide Crypted, Tag, Fields, Restored, NonceOf, TagInput, PowerSum, Congruent, Exponents;
    var j0 := FirstCounter(NonceOf(w));
    var ct := Crypted(enc, j0, payload);
    var b, n := Body(enc, w, payload), |payload|;
    assert b[..n] == ct && b[n..] == Tag(enc, j0, Fields(w), ct);
    TagsMeetExactly(enc, j0, Fields(g), ct, Fields(w), ct);
    TagInputInjective(Fields(g), ct, Fields(w), ct);
  }

  /** The checksum of the encrypted datagram. */
  function WireSum(enc: Block -> Block, h: Header, payload: Bytes): Word
    requires |payload| + TAG_SIZE < 0x1_0000
  {
    var w := WireHeader(h, |payload|);
    Checksum(Covered(Fields(w), Body(enc, w, payload)))
  }

  /** An encrypted packet comes back with its payload and its header, bit 15 of the flags cleared; so the
      whole header comes back exactly when that bit was clear. */
  lemma EncryptedRoundTrip(enc: Block -> Block, h: Header, payload: Bytes, trailing: Bytes)
    requires h.magic == MAGIC && h.version == VERSION && |payload| + TAG_SIZE < 0x1_0000
    ensures Received(enc, true, WireBytes(enc, true, h, payload) + trailing)
         == Some((h.(flags := ClearFlag(h.flags), payloadSize := |payload|, checksum := WireSum(enc, h, payload)),
                  payload))
    ensures ClearFlag(h.flags) == h.flags <==> !HasFlag(h.flags)
  {
    hide Body, Encoded, Parse, Unsealed, Fields, SetFlag, ClearFlag, HasFlag;
    var w := WireHeader(h, |payload|);
    var body := Body(enc, w, payload);
    var sum := Checksum(Covered(Fields(w), body));
    RoundTrip(w, body, trailing);
    FlagLaws(h.flags);
    UnsealBody(enc, w, sum, payload);
  }

  /** Without encryption the packet comes back as it was sent. */
  lemma PlainRoundTrip(enc: Block -> Block, ready: bool, h: Header, payload: Bytes, trailing: Bytes)
    requires WellFormed(h, payload) && !HasFlag(h.flags)
    ensures Received(enc, ready, WireBytes(enc, false, h, payload) + trailing)
         == Some((h.(checksum := Checksum(Covered(Fields(h), payload))), payload))
  {
    hide Encoded, Parse, Unsealed, Fields, HasFlag;
    RoundTrip(h, payload, trailing);
  }

  /** Encrypts the payload straight into the buffer, behind the header. */
  method PutSealed(enc: Block -> Block, w: Header, payload: Bytes, out: array<Byte>,
                   ghost d: Bytes)
    requires |d| == out.Length == HEADER_SIZE + |payload| + TAG_SIZE
    requires out[..] == Fields(w) + ZEROS + d[HEADER_SIZE..]
    modifies out
    ensures out[..] == Fields(w) + ZEROS + Body(enc, w, payload)
  {
    hide Body, Fields, Crypted, Tag, NonceOf, Opened, FirstCounter;
    ghost var q := Fields(w) + ZEROS;
    var head := out[..SUM_AT];
    assert head == Fields(w);
    var ct, tag := Encrypt(enc, NonceOf(w), head, payload);
    Put(out, ct, q, d, HEADER_SIZE);
    Put(out, tag, q + ct, d, HEADER_SIZE + |payload|);
    BodyParts(enc, w, payload, ct, tag);
    assert out[..] == q + (ct + tag);
  }

  /** Builds the datagram in one buffer: header, ciphertext and tag (or plaintext), then the checksum. */
  method BuildWirePacket(t: array<Word>, enc: Block -> Block, encrypted: bool,
                         header: Header, payload: Bytes) returns (d: Bytes)
    requires TableOk(t[..])
    requires if encrypted then |payload| + TAG_SIZE < 0x1_0000 else header.payloadSize == |payload|
    ensures d == WireBytes(enc, encrypted, header, payload)
  {
    hide TableOk, Body, Fields, SetFlag, Encoded, Sealed;
    var w := if encrypted then WireHeader(header, |payload|) else header;
    var out := new Byte[HEADER_SIZE + w.payloadSize];
    ghost var d0 := out[..];
    EncodeHeaderTo(w, out);
    if !encrypted {
      Put(out, payload, Fields(w) + ZEROS, d0, HEADER_SIZE);
      assert out[..] == Fields(w) + ZEROS + payload;
      SealedIsEncoded(w, payload);
    } else {
      PutSealed(enc, w, payload, out, d0);
      SealedIsEncoded(w, Body(enc, w, payload));
    }
    assert out[..out.Length] == out[..];
    FinalizeCrc(t, out, out.Length);
    assert out[..out.Length] == out[..];
    d := out[..];
  }

  lemma BodyParts(enc: Block -> Block, w: Header, payload: Bytes, ct: Bytes, tag: Block)
    requires ct == Crypted(enc, FirstCounter(NonceOf(w)), payload)
    requires tag == Tag(enc, FirstCounter(NonceOf(w)), Fields(w), ct)
    ensures Body(enc, w, payload) == ct + tag
  {}

  /** Checks and decrypts a payload; the authenticated bytes are the header written out again. */
  method DecryptPayload(t: array<Word>, enc: Block -> Block, ready: bool, h: Header, payload: Bytes)
    returns (r: Option<(Header, Bytes)>)
    requires TableOk(t[..])
    ensures r == Unsealed(enc, ready, h, payload)
  {
    hide Opened, Fields, TableOk, Checksum, BeWord;
    if !ready || |payload| < TAG_SIZE {
      return None;
    }
    var n := |payload| - TAG_SIZE;
    var buf := new Byte[HEADER_SIZE];
    var total := EncodeTo(t, h, [], buf);
    var aad := buf[..SUM_AT];
    assert aad == buf[..total][..SUM_AT] == Fields(h);
    var plain := Decrypt(enc, NonceOf(h), aad, payload[..n], payload[n..]);
    match plain {
      case None => return None;
      case Some(text) => return Some((Restored(h, n), text));
    }
  }
}
