/** The datagram format: tight/src/packet_codec.cpp and tight/src/wire_format.hpp. */
module PacketCodec {
  import opened Octets
  import opened WireFormat
  import opened Crc32

  const MAGIC: U32 := 0x5447_4854
  const VERSION: Byte := 1
  const SUM_AT: nat := 44

  datatype Header = Header(magic: U32, version: Byte, kind: Byte, flags: U16, clientId: U32, sessionId: U64, sequence: U32,
                           acknowledgment: U32, messageId: U32, fragmentIndex: U16, fragmentCount: U16,
                           payloadSize: U16, reserved: U16, tick: U32, checksum: Word)

  // ---------- Words ----------

  /** The bytes of a word, most significant first. */
  function BeWord(v: Word): (b: Bytes)
    ensures |b| == 4
  {
    [(v >> 24) as Byte, ((v >> 16) & 0xFF) as Byte, ((v >> 8) & 0xFF) as Byte, (v & 0xFF) as Byte]
  }

  function GetWord(b: Bytes): Word
    requires |b| == 4
  {
    (b[0] as Word << 24) | (b[1] as Word << 16) | (b[2] as Word << 8) | b[3] as Word
  }

  lemma WordRoundTrip(v: Word)
    ensures GetWord(BeWord(v)) == v
  {}

  lemma WordBack(b: Bytes)
    requires |b| == 4
    ensures BeWord(GetWord(b)) == b
  {}

  // ---------- The header ----------

  const ZEROS: Bytes := [0, 0, 0, 0]

  /** Bytes 0 to 5: magic, version, type. */
  function TagPart(h: Header): (b: Bytes)
    ensures |b| == 6
  {
    ToBe32(h.magic) + [h.version] + [h.kind]
  }

  /** Bytes 0 to 11: magic, version, type, flags, client. */
  function FirstPart(h: Header): (b: Bytes)
    ensures |b| == 12
  {
    TagPart(h) + Be16(h.flags) + ToBe32(h.clientId)
  }

  /** Bytes 12 to 27: session, sequence, acknowledgment. */
  function SecondPart(h: Header): (b: Bytes)
    ensures |b| == 16
  {
    Wire64(h.sessionId) + ToBe32(h.sequence) + ToBe32(h.acknowledgment)
  }

  /** Bytes 28 to 43: message, fragment index and count, payload size, reserved, tick. */
  function ThirdPart(h: Header): (b: Bytes)
    ensures |b| == 16
  {
    ToBe32(h.messageId) + (Be16(h.fragmentIndex) + Be16(h.fragmentCount)) + (Be16(h.payloadSize) + Be16(h.reserved))
    + ToBe32(h.tick)
  }

  /** The 44 bytes before the checksum. */
  function Fields(h: Header): (b: Bytes)
    ensures |b| == SUM_AT
  {
    FirstPart(h) + SecondPart(h) + ThirdPart(h)
  }

  function ParseHeader(d: Bytes): Header
    requires |d| >= HEADER_SIZE
  {
    Header(FromBe32(d[0..4]), d[4], d[5], Get16(d[6..8]), FromBe32(d[8..12]), Get64(d[12..20]), FromBe32(d[20..24]),
           FromBe32(d[24..28]), FromBe32(d[28..32]), Get16(d[32..34]), Get16(d[34..36]), Get16(d[36..38]),
           Get16(d[38..40]), FromBe32(d[40..44]), GetWord(d[44..48]))
  }

  lemma SubSlice(d: Bytes, from: nat, to: nat, i: nat, j: nat)
    requires from <= to <= |d| && i <= j <= to - from
    ensures d[from..to][i..j] == d[from + i..from + j]
  {
    forall k | 0 <= k < j - i ensures d[from..to][i..j][k] == d[from + i..from + j][k] {
      assert d[from..to][i + k] == d[from + (i + k)];
    }
  }

  lemma FirstFields(h: Header, d: Bytes)
    requires |d| >= HEADER_SIZE && d[..12] == FirstPart(h)
    ensures FromBe32(d[0..4]) == h.magic && d[4] == h.version && d[5] == h.kind && Get16(d[6..8]) == h.flags
    ensures FromBe32(d[8..12]) == h.clientId
  {
    hide ToBe32, BeWord, FromBe32, GetWord, Be16, Get16;
    var f := d[..12];
    assert d[0..4] == f[0..4] == ToBe32(h.magic);
    assert d[4] == f[4] && d[5] == f[5];
    assert d[6..8] == f[6..8] == Be16(h.flags);
    assert d[8..12] == f[8..12] == ToBe32(h.clientId);
    Be32RoundTrip(h.magic);
    RoundTrip16(h.flags);
    Be32RoundTrip(h.clientId);
  }

  lemma SecondFields(h: Header, d: Bytes)
    requires |d| >= HEADER_SIZE && d[12..28] == SecondPart(h)
    ensures Get64(d[12..20]) == h.sessionId && FromBe32(d[20..24]) == h.sequence
    ensures FromBe32(d[24..28]) == h.acknowledgment
  {
    hide ToBe32, BeWord, FromBe32, GetWord, Wire64, Get64;
    var f := d[12..28];
    SubSlice(d, 12, 28, 0, 8);
    assert f[0..8] == Wire64(h.sessionId);
    SubSlice(d, 12, 28, 8, 12);
    assert f[8..12] == ToBe32(h.sequence);
    SubSlice(d, 12, 28, 12, 16);
    assert f[12..16] == ToBe32(h.acknowledgment);
    RoundTrip64(h.sessionId);
    Be32RoundTrip(h.sequence);
    Be32RoundTrip(h.acknowledgment);
  }

  lemma SliceLeft<T>(x: seq<T>, y: seq<T>, i: nat, j: nat)
    requires i <= j <= |x|
    ensures (x + y)[i..j] == x[i..j]
  {}

  lemma SliceRight<T>(x: seq<T>, y: seq<T>, i: nat, j: nat)
    requires i <= j <= |y|
    ensures (x + y)[|x| + i..|x| + j] == y[i..j]
  {
    forall k | 0 <= k < j - i ensures (x + y)[|x| + i..|x| + j][k] == y[i..j][k] {
      assert (x + y)[|x| + (i + k)] == y[i + k];
    }
  }

  lemma Halves<T>(x: seq<T>, y: seq<T>)
    ensures (x + y)[0..|x|] == x && (x + y)[|x|..|x| + |y|] == y
  {
    SliceRight(x, y, 0, |y|);
  }

  lemma ThirdSlices<T>(a: seq<T>, b: seq<T>, c: seq<T>, d: seq<T>, e: seq<T>, f: seq<T>)
    requires |a| == |f| == 4 && |b| == |c| == |d| == |e| == 2
    ensures var s := a + (b + c) + (d + e) + f;
            && s[0..4] == a && s[4..6] == b && s[6..8] == c && s[8..10] == d && s[10..12] == e && s[12..16] == f
  {
    var q := a + (b + c);
    var p := q + (d + e);
    Halves(p, f);
    Halves(b, c);
    Halves(d, e);
    SliceLeft(p, f, 0, 4);
    SliceLeft(q, d + e, 0, 4);
    Halves(a, b + c);
    SliceLeft(p, f, 4, 6);
    SliceLeft(q, d + e, 4, 6);
    SliceRight(a, b + c, 0, 2);
    SliceLeft(p, f, 6, 8);
    SliceLeft(q, d + e, 6, 8);
    SliceRight(a, b + c, 2, 4);
    SliceLeft(p, f, 8, 10);
    SliceRight(q, d + e, 0, 2);
    SliceLeft(p, f, 10, 12);
    SliceRight(q, d + e, 2, 4);
  }

  lemma ThirdFields(h: Header, d: Bytes)
    requires |d| >= HEADER_SIZE && d[28..44] == ThirdPart(h)
    ensures FromBe32(d[28..32]) == h.messageId && Get16(d[32..34]) == h.fragmentIndex
    ensures Get16(d[34..36]) == h.fragmentCount && Get16(d[36..38]) == h.payloadSize
    ensures Get16(d[38..40]) == h.reserved && FromBe32(d[40..44]) == h.tick
  {
    hide ToBe32, BeWord, FromBe32, GetWord, Be16, Get16;
    ThirdSlices(ToBe32(h.messageId), Be16(h.fragmentIndex), Be16(h.fragmentCount), Be16(h.payloadSize),
                Be16(h.reserved), ToBe32(h.tick));
    SubSlice(d, 28, 44, 0, 4);
    SubSlice(d, 28, 44, 4, 6);
    SubSlice(d, 28, 44, 6, 8);
    SubSlice(d, 28, 44, 8, 10);
    SubSlice(d, 28, 44, 10, 12);
    SubSlice(d, 28, 44, 12, 16);
    Be32RoundTrip(h.messageId);
    RoundTrip16(h.fragmentIndex);
    RoundTrip16(h.fragmentCount);
    RoundTrip16(h.payloadSize);
    RoundTrip16(h.reserved);
    Be32RoundTrip(h.tick);
  }

  /** Reading a written header gives back every field, and the checksum that was stored. */
  lemma HeaderRoundTrip(h: Header, sum: bv32, rest: Bytes)
    ensures ParseHeader(Fields(h) + BeWord(sum) + rest) == h.(checksum := sum)
  {
    hide FirstPart, SecondPart, ThirdPart, ToBe32, BeWord, FromBe32, GetWord, Get16, Get64;
    var d := Fields(h) + BeWord(sum) + rest;
    assert d[..12] == FirstPart(h);
    assert d[12..28] == SecondPart(h);
    assert d[28..44] == ThirdPart(h);
    assert d[44..48] == BeWord(sum);
    FirstFields(h, d);
    SecondFields(h, d);
    ThirdFields(h, d);
    WordRoundTrip(sum);
  }

  // ---------- Datagrams ----------

  /** What the checksum covers: the datagram with the checksum field zero. */
  function Covered(head: Bytes, payload: Bytes): Bytes { head + ZEROS + payload }

  /** Fills in the checksum of a datagram. */
  function Sealed(d: Bytes): (s: Bytes)
    requires |d| >= HEADER_SIZE
    ensures |s| == |d|
  {
    d[..SUM_AT] + BeWord(Checksum(Covered(d[..SUM_AT], d[HEADER_SIZE..]))) + d[HEADER_SIZE..]
  }

  function Encoded(h: Header, payload: Bytes): (d: Bytes)
    ensures |d| == HEADER_SIZE + |payload|
  {
    Fields(h) + BeWord(Checksum(Covered(Fields(h), payload))) + payload
  }

  /** Where every field stands. */
  ghost predicate LaidOut(d: Bytes, h: Header)
    requires |d| >= HEADER_SIZE
  {
    && FromBe32(d[0..4]) == h.magic && d[4] == h.version && d[5] == h.kind && Get16(d[6..8]) == h.flags
    && FromBe32(d[8..12]) == h.clientId && Get64(d[12..20]) == h.sessionId
    && FromBe32(d[20..24]) == h.sequence && FromBe32(d[24..28]) == h.acknowledgment
    && FromBe32(d[28..32]) == h.messageId && Get16(d[32..34]) == h.fragmentIndex && Get16(d[34..36]) == h.fragmentCount
    && Get16(d[36..38]) == h.payloadSize && Get16(d[38..40]) == h.reserved && FromBe32(d[40..44]) == h.tick
  }

  /** An encoded datagram has every field in its place and the payload behind the 48 bytes. */
  lemma DatagramLayout(h: Header, payload: Bytes)
    ensures LaidOut(Encoded(h, payload), h) && Encoded(h, payload)[48..] == payload
  {
    hide FirstPart, SecondPart, ThirdPart, BeWord, FromBe32, Get16, Get64, Checksum, Covered;
    var d := Encoded(h, payload);
    assert d[..12] == FirstPart(h);
    assert d[12..28] == SecondPart(h);
    assert d[28..44] == ThirdPart(h);
    FirstFields(h, d);
    SecondFields(h, d);
    ThirdFields(h, d);
  }

  /** The header and payload of an acceptable datagram; bytes beyond the payload are ignored. */
  function Parse(d: Bytes): Option<(Header, Bytes)> {
    if |d| < HEADER_SIZE then None
    else
      var h := ParseHeader(d);
      if h.magic != MAGIC || h.version != VERSION || |d| < HEADER_SIZE + h.payloadSize then None
      else
        var payload := d[HEADER_SIZE..HEADER_SIZE + h.payloadSize];
        if Checksum(Covered(d[..SUM_AT], payload)) != h.checksum then None else Some((h, payload))
  }

  predicate WellFormed(h: Header, payload: Bytes) {
    h.magic == MAGIC && h.version == VERSION && |payload| == h.payloadSize
  }

  /** Decoding an encoded packet gives back its header, with the checksum filled in, and its payload, whatever
      bytes follow. */
  lemma RoundTrip(h: Header, payload: Bytes, trailing: Bytes)
    requires WellFormed(h, payload)
    ensures Parse(Encoded(h, payload) + trailing)
         == Some((h.(checksum := Checksum(Covered(Fields(h), payload))), payload))
  {
    hide Fields, ParseHeader, ToBe32, BeWord, Checksum, Covered;
    var sum := Checksum(Covered(Fields(h), payload));
    var d := Encoded(h, payload) + trailing;
    assert d == Fields(h) + BeWord(sum) + (payload + trailing);
    HeaderRoundTrip(h, sum, payload + trailing);
    assert d[..SUM_AT] == Fields(h);
    assert d[HEADER_SIZE..HEADER_SIZE + |payload|] == payload;
  }

  // ---------- What a changed datagram gives ----------

  /** d and e agree except on the bytes from..to. */
  predicate DifferWithin(d: Bytes, e: Bytes, from: nat, to: nat)
    requires from <= to <= |d|
  {
    |e| == |d| && d[..from] == e[..from] && d[to..] == e[to..]
  }

  predicate SumRight(d: Bytes) {
    |d| >= HEADER_SIZE &&
    var n := Get16(d[36..38]);
    |d| >= HEADER_SIZE + n && GetWord(d[44..48]) == Checksum(Covered(d[..44], d[48..48 + n]))
  }

  lemma AcceptedSum(d: Bytes)
    requires Parse(d).Some?
    ensures SumRight(d)
  {
    hide Checksum, FromBe32, GetWord, Get64, Get16, Covered;
  }

  /** Two accepted datagrams of equal size with the same length field never differ in at most four consecutive
      bytes of their header, of their checksum or of their payload alone. */
  lemma AcceptedDiffer(d: Bytes, e: Bytes, from: nat, to: nat)
    requires Parse(d).Some? && Parse(e).Some?
    requires from <= to <= HEADER_SIZE + ParseHeader(d).payloadSize && to - from <= 4
    requires to <= SUM_AT || from >= HEADER_SIZE || (from >= SUM_AT && to <= HEADER_SIZE)
    requires DifferWithin(d, e, from, to) && d[36..38] == e[36..38]
    ensures d == e
  {
    hide FromBe32, Get16, Get64, GetWord, Checksum, Parse;
    AcceptedSum(d);
    AcceptedSum(e);
    var n := ParseHeader(d).payloadSize;
    if to <= SUM_AT {
      ChangedHead(d, e, from, to, n);
    } else if from >= HEADER_SIZE {
      ChangedPayload(d, e, from, to, n);
    } else {
      ChangedSum(d, e, from, to, n);
    }
    EqualThroughout(d, e, from, to);
  }

  lemma EqualThroughout(d: Bytes, e: Bytes, from: nat, to: nat)
    requires from <= to <= |d| && DifferWithin(d, e, from, to) && d[from..to] == e[from..to]
    ensures d == e
  {
    assert d == d[..from] + d[from..to] + d[to..];
    assert e == e[..from] + e[from..to] + e[to..];
  }

  lemma ChangedHead(d: Bytes, e: Bytes, from: nat, to: nat, n: nat)
    requires from <= to <= SUM_AT && to - from <= 4 && |d| >= HEADER_SIZE + n && DifferWithin(d, e, from, to)
    requires GetWord(d[44..48]) == Checksum(Covered(d[..44], d[48..48 + n]))
    requires GetWord(e[44..48]) == Checksum(Covered(e[..44], e[48..48 + n]))
    ensures d[from..to] == e[from..to]
  {
    hide FromBe32, GetWord, Checksum;
    SameTail(d, e, to, 44, 48);
    SameTail(d, e, to, 48, 48 + n);
    SameTail(d, e, to, to, 44);
    var post := d[to..44] + ZEROS + d[48..48 + n];
    assert Covered(d[..44], d[48..48 + n]) == d[..from] + d[from..to] + post;
    assert Covered(e[..44], e[48..48 + n]) == e[..from] + e[from..to] + post;
    BurstDetected(d[..from], d[from..to], e[from..to], post);
  }

  lemma ChangedPayload(d: Bytes, e: Bytes, from: nat, to: nat, n: nat)
    requires HEADER_SIZE <= from <= to <= HEADER_SIZE + n <= |d| && to - from <= 4 && DifferWithin(d, e, from, to)
    requires GetWord(d[44..48]) == Checksum(Covered(d[..44], d[48..48 + n]))
    requires GetWord(e[44..48]) == Checksum(Covered(e[..44], e[48..48 + n]))
    ensures d[from..to] == e[from..to]
  {
    hide FromBe32, GetWord, Checksum;
    SameHead(d, e, from, 0, 44);
    SameHead(d, e, from, 44, 48);
    SameHead(d, e, from, 48, from);
    SameTail(d, e, to, to, 48 + n);
    var pre := d[..44] + ZEROS + d[48..from];
    assert d[48..48 + n] == d[48..from] + d[from..to] + d[to..48 + n];
    assert e[48..48 + n] == e[48..from] + e[from..to] + e[to..48 + n];
    assert Covered(d[..44], d[48..48 + n]) == pre + d[from..to] + d[to..48 + n];
    assert Covered(e[..44], e[48..48 + n]) == pre + e[from..to] + e[to..48 + n];
    BurstDetected(pre, d[from..to], e[from..to], d[to..48 + n]);
  }

  lemma ChangedSum(d: Bytes, e: Bytes, from: nat, to: nat, n: nat)
    requires SUM_AT <= from <= to <= HEADER_SIZE && |d| >= HEADER_SIZE + n && DifferWithin(d, e, from, to)
    requires GetWord(d[44..48]) == Checksum(Covered(d[..44], d[48..48 + n]))
    requires GetWord(e[44..48]) == Checksum(Covered(e[..44], e[48..48 + n]))
    ensures d[from..to] == e[from..to]
  {
    hide FromBe32, GetWord, Checksum;
    SameHead(d, e, from, 0, 44);
    SameTail(d, e, to, 48, 48 + n);
    WordBack(d[44..48]);
    WordBack(e[44..48]);
    SubSlice(d, 44, 48, from - 44, to - 44);
    SubSlice(e, 44, 48, from - 44, to - 44);
  }

  lemma SameTail(d: Bytes, e: Bytes, to: nat, i: nat, j: nat)
    requires to <= |d| == |e| && d[to..] == e[to..] && to <= i <= j <= |d|
    ensures d[i..j] == e[i..j]
  {
    SubSlice(d, to, |d|, i - to, j - to);
    SubSlice(e, to, |e|, i - to, j - to);
  }

  lemma SameHead(d: Bytes, e: Bytes, from: nat, i: nat, j: nat)
    requires from <= |d| == |e| && d[..from] == e[..from] && i <= j <= from
    ensures d[i..j] == e[i..j]
  {
    SubSlice(d, 0, from, i, j);
    SubSlice(e, 0, from, i, j);
  }

  /** Changing one byte of an encoded packet, outside the length field, makes decoding fail. */
  lemma ChangedByteRejected(h: Header, payload: Bytes, k: nat, v: Byte)
    requires WellFormed(h, payload)
    requires k < HEADER_SIZE + |payload| && k != 36 && k != 37 && Encoded(h, payload)[k] != v
    ensures Parse(Encoded(h, payload)[k := v]) == None
  {
    var d := Encoded(h, payload);
    RoundTrip(h, payload, []);
    assert d + [] == d;
    var e := d[k := v];
    EncodedSize(h, payload);
    hide Encoded, Parse, ParseHeader, DifferWithin;
    OneByte(d, k, v);
    if Parse(e).Some? {
      AcceptedDiffer(d, e, k, k + 1);
    }
  }

  lemma OneByte(d: Bytes, k: nat, v: Byte)
    requires HEADER_SIZE <= |d| && k < |d| && k != 36 && k != 37
    ensures DifferWithin(d, d[k := v], k, k + 1) && d[36..38] == d[k := v][36..38]
  {}

  lemma EncodedSize(h: Header, payload: Bytes)
    requires WellFormed(h, payload)
    ensures ParseHeader(Encoded(h, payload)).payloadSize == |payload|
  {
    hide Fields, ParseHeader, ToBe32, BeWord, Checksum, Covered;
    HeaderRoundTrip(h, Checksum(Covered(Fields(h), payload)), payload);
  }

  // ---------- Writing and reading buffers ----------

  /** Writes b at the end of the part p of the buffer already written; d is what the buffer held before. */
  method Put(out: array<Byte>, b: Bytes, ghost p: Bytes, ghost d: Bytes, off: nat)
    requires |d| == out.Length && off == |p| && off + |b| <= |d| && out[..] == p + d[off..]
    modifies out
    ensures out[..] == (p + b) + d[off + |b|..]
  {
    forall i | 0 <= i < |b| {
      out[off + i] := b[i];
    }
    assert out[..off] == p;
    assert out[off..off + |b|] == b;
    assert out[off + |b|..] == d[off + |b|..];
    assert out[..] == out[..off] + out[off..off + |b|] + out[off + |b|..];
  }

  /** Writes b at the start of the buffer. */
  method PutStart(out: array<Byte>, b: Bytes, ghost d: Bytes)
    requires out[..] == d && |b| <= |d|
    modifies out
    ensures out[..] == b + d[|b|..]
  {
    EmptyFront(d, b);
    Put(out, b, [], d, 0);
  }

  method PutTag(h: Header, out: array<Byte>, ghost d: Bytes)
    requires |d| == out.Length >= HEADER_SIZE && out[..] == d
    modifies out
    ensures out[..] == TagPart(h) + d[6..]
  {
    hide ToBe32, BeWord;
    PutStart(out, ToBe32(h.magic), d);
    Put(out, [h.version], ToBe32(h.magic), d, 4);
    Put(out, [h.kind], ToBe32(h.magic) + [h.version], d, 5);
  }

  lemma EmptyFront<T>(d: seq<T>, b: seq<T>)
    ensures [] + d[0..] == d && [] + b == b
  {}

  method PutFirst(h: Header, out: array<Byte>, ghost d: Bytes)
    requires |d| == out.Length >= HEADER_SIZE && out[..] == d
    modifies out
    ensures out[..] == FirstPart(h) + d[12..]
  {
    hide ToBe32, BeWord, Be16, TagPart;
    PutTag(h, out, d);
    Put(out, Be16(h.flags), TagPart(h), d, 6);
    Put(out, ToBe32(h.clientId), TagPart(h) + Be16(h.flags), d, 8);
  }

  method PutSecond(h: Header, out: array<Byte>, ghost d: Bytes)
    requires |d| == out.Length >= HEADER_SIZE && out[..] == FirstPart(h) + d[12..]
    modifies out
    ensures out[..] == FirstPart(h) + SecondPart(h) + d[28..]
  {
    hide ToBe32, BeWord, Wire64, FirstPart;
    ghost var p := FirstPart(h);
    Put(out, Wire64(h.sessionId), p, d, 12);
    p := p + Wire64(h.sessionId);
    Put(out, ToBe32(h.sequence), p, d, 20);
    p := p + ToBe32(h.sequence);
    Put(out, ToBe32(h.acknowledgment), p, d, 24);
    assert p + ToBe32(h.acknowledgment) == FirstPart(h) + SecondPart(h);
  }

  method PutThird(h: Header, out: array<Byte>, ghost q: Bytes, ghost d: Bytes)
    requires |d| == out.Length >= HEADER_SIZE && |q| == 28 && out[..] == q + d[28..]
    modifies out
    ensures out[..] == q + ThirdPart(h) + d[44..]
  {
    hide ToBe32, BeWord, Be16;
    ghost var p := q;
    Put(out, ToBe32(h.messageId), p, d, 28);
    p := p + ToBe32(h.messageId);
    Put(out, Be16(h.fragmentIndex), p, d, 32);
    p := p + Be16(h.fragmentIndex);
    Put(out, Be16(h.fragmentCount), p, d, 34);
    p := p + Be16(h.fragmentCount);
    Put(out, Be16(h.payloadSize), p, d, 36);
    p := p + Be16(h.payloadSize);
    Put(out, Be16(h.reserved), p, d, 38);
    p := p + Be16(h.reserved);
    Put(out, ToBe32(h.tick), p, d, 40);
    assert p + ToBe32(h.tick) == q + ThirdPart(h);
  }

  method EncodeHeaderTo(h: Header, out: array<Byte>)
    requires out.Length >= HEADER_SIZE
    modifies out
    ensures out[..] == Fields(h) + ZEROS + old(out[..])[HEADER_SIZE..]
  {
    hide FirstPart, SecondPart, ThirdPart;
    ghost var d := out[..];
    PutFirst(h, out, d);
    PutSecond(h, out, d);
    PutThird(h, out, FirstPart(h) + SecondPart(h), d);
    Put(out, ZEROS, Fields(h), d, SUM_AT);
  }

  /** Computes the checksum of the datagram in the first `size` bytes of the buffer and stores it. */
  method FinalizeCrc(t: array<Word>, out: array<Byte>, size: nat)
    requires TableOk(t[..]) && size <= out.Length
    modifies out
    ensures out[..size] == if size < HEADER_SIZE then old(out[..size]) else Sealed(old(out[..size]))
    ensures out[size..] == old(out[size..])
  {
    hide ToBe32, BeWord, Register, TableOk;
    if size < HEADER_SIZE {
      return;
    }
    ghost var d := out[..];
    assert d == d[..SUM_AT] + d[SUM_AT..];
    Put(out, ZEROS, d[..SUM_AT], d, SUM_AT);
    var crc := Update(t, ONES, out[..size]);
    var sum := BeWord(Xor(crc, ONES));
    ghost var z := out[..];
    Zeroed(d, z, size);
    assert z == z[..SUM_AT] + z[SUM_AT..];
    Put(out, sum, z[..SUM_AT], z, SUM_AT);
    Summed(d, z, sum, out[..], size);
  }

  lemma Zeroed(d: Bytes, z: Bytes, size: nat)
    requires HEADER_SIZE <= size <= |d| && z == d[..SUM_AT] + ZEROS + d[HEADER_SIZE..]
    ensures |z| == |d| && z[..SUM_AT] == d[..SUM_AT] && z[HEADER_SIZE..] == d[HEADER_SIZE..]
    ensures z[..size] == Covered(d[..size][..SUM_AT], d[..size][HEADER_SIZE..])
  {
    assert d[..size][..SUM_AT] == d[..SUM_AT];
    assert d[..size][HEADER_SIZE..] == d[HEADER_SIZE..size];
  }

  lemma Summed(d: Bytes, z: Bytes, sum: Bytes, out: Bytes, size: nat)
    requires HEADER_SIZE <= size <= |d| == |z| && |sum| == 4
    requires z[..SUM_AT] == d[..SUM_AT] && z[HEADER_SIZE..] == d[HEADER_SIZE..]
    requires out == (z[..SUM_AT] + sum) + z[HEADER_SIZE..]
    ensures out[..size] == d[..size][..SUM_AT] + sum + d[..size][HEADER_SIZE..] && out[size..] == d[size..]
  {
    assert d[..size][..SUM_AT] == d[..SUM_AT];
    assert d[..size][HEADER_SIZE..] == d[HEADER_SIZE..size];
    assert z[HEADER_SIZE..][..size - HEADER_SIZE] == d[HEADER_SIZE..][..size - HEADER_SIZE];
    assert z[HEADER_SIZE..][size - HEADER_SIZE..] == d[HEADER_SIZE..][size - HEADER_SIZE..];
  }

  /** Writes a datagram at the start of a buffer and leaves the rest alone. */
  method EncodeTo(t: array<Word>, h: Header, payload: Bytes, out: array<Byte>) returns (total: nat)
    requires TableOk(t[..]) && out.Length >= HEADER_SIZE + |payload|
    modifies out
    ensures total == HEADER_SIZE + |payload|
    ensures out[..total] == Encoded(h, payload) && out[total..] == old(out[..])[total..]
  {
    hide ToBe32, BeWord, Checksum, TableOk, Fields, Sealed, Encoded;
    ghost var d := out[..];
    EncodeHeaderTo(h, out);
    ghost var q := Fields(h) + ZEROS;
    assert q + d[HEADER_SIZE..] == out[..];
    Put(out, payload, q, d, HEADER_SIZE);
    total := HEADER_SIZE + |payload|;
    assert out[..total] == q + payload && out[total..] == d[total..];
    FinalizeCrc(t, out, total);
    SealedIsEncoded(h, payload);
  }

  lemma SealedIsEncoded(w: Header, body: Bytes)
    ensures Sealed(Fields(w) + ZEROS + body) == Encoded(w, body)
  {
    hide Fields, Checksum, ToBe32, BeWord;
    var d := Fields(w) + ZEROS + body;
    assert d[..SUM_AT] == Fields(w) && d[HEADER_SIZE..] == body;
  }

  method Encode(t: array<Word>, h: Header, payload: Bytes) returns (d: Bytes)
    requires TableOk(t[..])
    ensures d == Encoded(h, payload)
  {
    var buf := new Byte[HEADER_SIZE + |payload|];
    var total := EncodeTo(t, h, payload, buf);
    d := buf[..];
    assert d == buf[..total];
  }

  /** Reads a datagram, computing the checksum in three pieces. The caller's header and payload are left as they
      were, except that a datagram with the right magic and version has its header read even if it is refused. */
  method Decode(t: array<Word>, p: Bytes, header: Header, payload: Bytes) returns (ok: bool, h: Header, b: Bytes)
    requires TableOk(t[..])
    ensures ok <==> Parse(p).Some?
    ensures ok ==> Parse(p) == Some((h, b))
    ensures !ok ==> b == payload
    ensures !ok ==> h == if |p| >= HEADER_SIZE && FromBe32(p[0..4]) == MAGIC && p[4] == VERSION then ParseHeader(p) else header
  {
    hide Get16, FromBe32, GetWord, Get64, Register, TableOk;
    h, b := header, payload;
    if |p| < HEADER_SIZE {
      return false, h, b;
    }
    if FromBe32(p[0..4]) != MAGIC {
      return false, h, b;
    }
    if p[4] != VERSION {
      return false, h, b;
    }
    h := ParseHeader(p);
    if |p| < HEADER_SIZE + h.payloadSize {
      return false, h, b;
    }
    var body := p[HEADER_SIZE..HEADER_SIZE + h.payloadSize];
    var crc := Update(t, ONES, p[..SUM_AT]);
    crc := Update(t, crc, ZEROS);
    crc := Update(t, crc, body);
    RegisterConcat(ONES, p[..SUM_AT], ZEROS);
    RegisterConcat(ONES, p[..SUM_AT] + ZEROS, body);
    if Xor(crc, ONES) != h.checksum {
      return false, h, b;
    }
    return true, h, body;
  }
}
