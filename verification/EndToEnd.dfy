/** From the sender's fragments to the delivered message: for every message whose counts fit their 16-bit fields,
    exactly which sets of arrived fragments deliver it, and that they deliver exactly the bytes that were sent. */
module EndToEnd {
  import opened Octets
  import opened WireFormat
  import opened Gf256
  import opened GaussJordan
  import opened ReedSolomon
  import opened ErasurePatterns
  import opened Fragmenter
  import opened Reassembler

  /** A message as sent: id, payload, fragment width and number of parities. */
  datatype Message = Message(id: nat, payload: Bytes, w: nat, parityCount: nat) {
    function K(): nat
      requires w > 0
    {
      DataCount(|payload| + 4, w)
    }

    /** What the sender sees to, with counts that fit their header fields. */
    predicate WithinLimits(maxMessageBytes: nat) {
      && 0 < id
      && 4 < w < 0x1_0000
      && 1 <= parityCount <= 3
      && |payload| <= maxMessageBytes
      && K() + parityCount < 0x1_0000
    }

    function Cut(): (p: seq<Bytes>)
      requires w > 0
      ensures |p| == K()
    {
      Pieces(Full(payload), w)
    }

    function Sent(): (ps: seq<Packet>)
      requires w > 0
      ensures |ps| == K() + parityCount
    {
      Packets(id, Cut(), parityCount, w)
    }
  }

  // ---------- Counting received fragments ----------

  function Count(s: set<nat>, lo: nat, n: nat): nat
    decreases n
  {
    if n == 0 then 0 else Count(s, lo, n - 1) + (if lo + n - 1 in s then 1 else 0)
  }

  lemma {:induction false} CountSplits(s: set<nat>, k: nat, n: nat)
    ensures Count(s, 0, k + n) == Count(s, 0, k) + Count(s, k, n)
    decreases n
  {
    if n > 0 {
      CountSplits(s, k, n - 1);
    }
  }

  lemma {:induction false} CountIsSize(s: set<nat>, n: nat)
    requires forall i :: i in s ==> i < n
    ensures Count(s, 0, n) == |s|
    decreases n
  {
    if n == 0 {
      assert s == {};
    } else {
      CountIsSize(s - {n - 1}, n - 1);
      CountAgrees(s, s - {n - 1}, 0, n - 1);
      assert n - 1 in s ==> s == (s - {n - 1}) + {n - 1};
      assert n - 1 !in s ==> s == s - {n - 1};
    }
  }

  lemma {:induction false} CountAgrees(s: set<nat>, t: set<nat>, lo: nat, n: nat)
    requires forall i :: lo <= i < lo + n ==> (i in s <==> i in t)
    ensures Count(s, lo, n) == Count(t, lo, n)
    decreases n
  {
    if n > 0 {
      CountAgrees(s, t, lo, n - 1);
    }
  }

  // ---------- The entry of a message after some fragments ----------

  /** The receiver's entry once exactly the fragments in `s` have arrived. */
  ghost function EntryOf(m: Message, s: set<nat>, firstSeen: int): (inc: Incoming)
    requires m.w > 0
    ensures inc.WellFormed() && inc.messageId == m.id
    ensures inc.totalCount == m.K() + m.parityCount && inc.dataCount == m.K() && inc.firstSeen == firstSeen
  {
    var n := m.K() + m.parityCount;
    Incoming(m.id, n, m.K(),
             seq(n, i requires 0 <= i < n => if i in s then Some(m.Sent()[i].payload) else None),
             seq(n, i requires 0 <= i < n => if i in s then m.Sent()[i].reserved else 0),
             firstSeen)
  }

  lemma EntryAt(m: Message, s: set<nat>, firstSeen: int, i: nat)
    requires m.w > 0 && i < m.K() + m.parityCount
    ensures EntryOf(m, s, firstSeen).fragments[i] == if i in s then Some(m.Sent()[i].payload) else None
    ensures EntryOf(m, s, firstSeen).sizes[i] == if i in s then m.Sent()[i].reserved else 0
  {
    hide DataCount, Packets, Pieces;
  }

  /** The header fields survive their narrowing to 16 bits. */
  lemma SentFields(m: Message, maxMessageBytes: nat, i: nat)
    requires m.WithinLimits(maxMessageBytes) && i < m.K() + m.parityCount
    ensures m.K() >= 1
    ensures var p := m.Sent()[i];
            && p.messageId == m.id && p.index == i && p.count == m.K() + m.parityCount && p.flags == m.K()
            && |p.payload| == m.w
    ensures i < m.K() ==> m.Sent()[i].payload == Pad(m.Cut()[i], m.w) && m.Sent()[i].reserved == |m.Cut()[i]|
    ensures i >= m.K() ==> m.Sent()[i].payload == ParityBytes(m.Cut(), i - m.K(), m.w)
  {
    hide Pieces, Full, DataCount, ParityBytes, Pad, PacketOf;
    DataCountCovers(|m.payload| + 4, m.w);
    assert m.Sent()[i] == PacketOf(m.id, m.Cut(), m.parityCount, m.w, i);
    if i < m.K() {
      assert m.Cut()[i] == Piece(Full(m.payload), m.w, i);
    }
    PacketFields(m.id, m.Cut(), m.parityCount, m.w, i);
  }

  /** Counts and sizes that fit 16 bits are sent as they are. */
  lemma PacketFields(id: nat, pieces: seq<Bytes>, parityCount: nat, w: nat, i: nat)
    requires i < |pieces| + parityCount < 0x1_0000 && w < 0x1_0000 && (i < |pieces| ==> |pieces[i]| <= w)
    ensures PacketOf(id, pieces, parityCount, w, i)
         == if i < |pieces| then Packet(id, i, |pieces| + parityCount, |pieces|, |pieces[i]|, Pad(pieces[i], w))
            else Packet(id, i, |pieces| + parityCount, |pieces|, w, ParityBytes(pieces, i - |pieces|, w))
  {
    hide Pad, ParityBytes;
    Narrow16(i);
    Narrow16(|pieces| + parityCount);
    Narrow16(|pieces|);
    Narrow16(w);
    if i < |pieces| {
      Narrow16(|pieces[i]|);
    }
  }

  lemma Narrow16(n: nat)
    requires n < 0x1_0000
    ensures n % 0x1_0000 == n
  {}

  // ---------- The stream starts with the original bytes ----------

  /** Padded pieces, with their real or their full sizes, concatenate to a stream that starts with the whole. */
  lemma {:induction false} StreamRebuilds(full: Bytes, w: nat, sizes: seq<nat>, n: nat)
    requires w > 0 && |full| > 0
    requires n <= DataCount(|full|, w) <= |sizes|
    requires forall j :: 0 <= j < DataCount(|full|, w) ==> sizes[j] == |Pieces(full, w)[j]| || sizes[j] == w
    ensures n * w <= |full| ==> StreamOf(Padded(full, w), sizes, n) == full[..n * w]
    ensures n * w > |full| ==> full <= StreamOf(Padded(full, w), sizes, n)
    decreases n
  {
    hide Pieces, DataCount, Padded, Stored, Pad, Piece;
    if n > 0 {
      var j := n - 1;
      PieceStarts(full, w, j);
      StreamRebuilds(full, w, sizes, j);
      assert n * w == j * w + w;
      StoredPadded(Piece(full, w, j), w, sizes[j]);
      AppendPiece(full, w, j, Stored(Padded(full, w)[j], sizes[j]));
    } else {
      assert n * w == 0;
    }
  }

  lemma AppendPiece(full: Bytes, w: nat, j: nat, stored: Bytes)
    requires w > 0 && j * w < |full|
    requires Piece(full, w, j) <= stored && (|Piece(full, w, j)| == w ==> stored == Piece(full, w, j))
    ensures j * w + w <= |full| ==> full[..j * w] + stored == full[..j * w + w]
    ensures j * w + w > |full| ==> full <= full[..j * w] + stored
  {
    var o := j * w;
    assert full == full[..o] + full[o..];
    if o + w > |full| {
      assert Piece(full, w, j) == full[o..];
    }
  }

  function Padded(full: Bytes, w: nat): (p: seq<Bytes>)
    requires w > 0 && |full| > 0
    ensures |p| == DataCount(|full|, w)
    ensures forall j :: 0 <= j < |p| ==> p[j] == Pad(Pieces(full, w)[j], w)
  {
    var ps := Pieces(full, w);
    seq(|ps|, j requires 0 <= j < |ps| => Pad(ps[j], w))
  }

  lemma StoredPadded(piece: Bytes, w: nat, size: nat)
    requires |piece| <= w && (size == |piece| || size == w)
    ensures piece <= Stored(Pad(piece, w), size)
    ensures |piece| == w ==> Stored(Pad(piece, w), size) == piece
  {}

  lemma ExtractRecovers(m: Message, stream: Bytes, maxMessageBytes: nat)
    requires |m.payload| <= maxMessageBytes && |m.payload| < 0x1_0000_0000
    requires Full(m.payload) <= stream
    ensures Extract(stream, maxMessageBytes) == m.payload
  {
    hide FromBe32, ToBe32;
    var full := Full(m.payload);
    assert stream[..4] == full[..4] == ToBe32(|m.payload|);
    Be32RoundTrip(|m.payload|);
    assert stream[4..4 + |m.payload|] == full[4..] == m.payload;
  }

  lemma PayloadFits(m: Message, maxMessageBytes: nat)
    requires m.WithinLimits(maxMessageBytes)
    ensures |m.payload| < 0x1_0000_0000
  {
    DataCountCovers(|m.payload| + 4, m.w);
    assert m.K() * m.w <= 0xFFFF * m.w by { MulMonotone(m.K(), 0xFFFF, m.w); }
  }

  lemma {:induction false} MessageFromPieces(m: Message, sizes: seq<nat>, maxMessageBytes: nat)
    requires m.WithinLimits(maxMessageBytes) && m.K() <= |sizes|
    requires forall j :: 0 <= j < m.K() ==> sizes[j] == |m.Cut()[j]| || sizes[j] == m.w
    ensures Extract(StreamOf(Padded(Full(m.payload), m.w), sizes, m.K()), maxMessageBytes) == m.payload
  {
    hide Extract, StreamOf, Padded, Pieces, Full;
    var full := Full(m.payload);
    PayloadFits(m, maxMessageBytes);
    DataCountCovers(|full|, m.w);
    StreamRebuilds(full, m.w, sizes, m.K());
    var stream := StreamOf(Padded(full, m.w), sizes, m.K());
    if m.K() * m.w == |full| {
      assert full[..m.K() * m.w] == full;
    }
    ExtractRecovers(m, stream, maxMessageBytes);
  }

  // ---------- What the entry yields ----------

  ghost function DataPart(m: Message, s: set<nat>): (d: seq<Option<Bytes>>)
    requires m.w > 0
    ensures |d| == m.K()
    ensures forall j :: 0 <= j < m.K() ==> d[j] == if j in s then Some(m.Sent()[j].payload) else None
  {
    seq(m.K(), j requires 0 <= j < m.K() => if j in s then Some(m.Sent()[j].payload) else None)
  }

  lemma {:induction false} MissingCount(m: Message, s: set<nat>, n: nat)
    requires m.w > 0 && n <= m.K()
    ensures |Missing(DataPart(m, s), n)| == n - Count(s, 0, n)
  {
    hide DataPart, DataCount, Message.Sent;
    NoneCount(DataPart(m, s), s, n);
  }

  lemma {:induction false} NoneCount(data: seq<Option<Bytes>>, s: set<nat>, n: nat)
    requires n <= |data| && forall j :: 0 <= j < |data| ==> (data[j].None? <==> j !in s)
    ensures |Missing(data, n)| == n - Count(s, 0, n)
    decreases n
  {
    if n > 0 {
      NoneCount(data, s, n - 1);
    }
  }

  lemma {:induction false} ParityCount(m: Message, s: set<nat>, firstSeen: int, n: nat)
    requires m.w > 0 && n <= m.parityCount
    ensures |ReceivedParities(EntryOf(m, s, firstSeen).fragments, m.K(), n)| == Count(s, m.K(), n)
    decreases n
  {
    hide EntryOf, DataCount, Packets, Pieces;
    if n > 0 {
      EntryAt(m, s, firstSeen, m.K() + n - 1);
      ParityCount(m, s, firstSeen, n - 1);
    }
  }

  lemma {:induction false} ParityContents(m: Message, maxMessageBytes: nat, s: set<nat>, firstSeen: int, n: nat)
    requires m.WithinLimits(maxMessageBytes) && n <= m.parityCount
    ensures var ps := ReceivedParities(EntryOf(m, s, firstSeen).fragments, m.K(), n);
            && (forall r :: 0 <= r < |ps| ==> ps[r].0 < n && ps[r].1 == ParityBytes(m.Cut(), ps[r].0, m.w))
            && (forall r, q :: 0 <= r < q < |ps| ==> ps[r].0 < ps[q].0)
    decreases n
  {
    hide EntryOf, DataCount, Packets, Pieces, ParityBytes;
    if n > 0 {
      ParityContents(m, maxMessageBytes, s, firstSeen, n - 1);
      EntryAt(m, s, firstSeen, m.K() + n - 1);
      SentFields(m, maxMessageBytes, m.K() + n - 1);
    }
  }

  lemma {:induction false} WidthFound(m: Message, maxMessageBytes: nat, s: set<nat>, firstSeen: int, n: nat)
    requires m.WithinLimits(maxMessageBytes) && n <= m.K() + m.parityCount
    ensures MaxSize(EntryOf(m, s, firstSeen).fragments, n) == if exists i: nat :: i < n && i in s then m.w else 0
    decreases n
  {
    hide EntryOf, DataCount, Packets, Pieces;
    if n > 0 {
      WidthFound(m, maxMessageBytes, s, firstSeen, n - 1);
      EntryAt(m, s, firstSeen, n - 1);
      SentFields(m, maxMessageBytes, n - 1);
    }
  }

  lemma EntrySlices(m: Message, s: set<nat>, firstSeen: int)
    requires m.w > 0
    ensures EntryOf(m, s, firstSeen).fragments[..m.K()] == DataPart(m, s)
  {}

  ghost predicate Within(m: Message, s: set<nat>)
    requires m.w > 0
  {
    forall i :: i in s ==> i < m.K() + m.parityCount
  }

  lemma ReceivedBalance(m: Message, s: set<nat>, firstSeen: int)
    requires m.w > 0 && Within(m, s)
    ensures |Missing(DataPart(m, s), m.K())| <= |ReceivedParities(EntryOf(m, s, firstSeen).fragments, m.K(), m.parityCount)|
            <==> m.K() <= |s|
  {
    hide DataPart, EntryOf, Missing, ReceivedParities;
    MissingCount(m, s, m.K());
    ParityCount(m, s, firstSeen, m.parityCount);
    CountSplits(s, m.K(), m.parityCount);
    CountIsSize(s, m.K() + m.parityCount);
  }

  /** `Assemble` on the entry of a message. */
  lemma AssembleEntry(m: Message, maxMessageBytes: nat, s: set<nat>, firstSeen: int)
    requires m.WithinLimits(maxMessageBytes)
    ensures var inc := EntryOf(m, s, firstSeen);
            var data := DataPart(m, s);
            var width := MaxSize(inc.fragments, m.K() + m.parityCount);
            var decoded := DecodeResult(data, ReceivedParities(inc.fragments, m.K(), m.parityCount), width);
            Assemble(inc, maxMessageBytes) ==
              if AllPresent(data) then Some(Extract(StreamOf(Values(data), inc.sizes, m.K()), maxMessageBytes))
              else if width == 0 || decoded.None? then None
              else Recovered(data, decoded.value, inc.sizes, width, maxMessageBytes)
  {
    hide DecodeResult, ReceivedParities, MaxSize, Recovered, Extract, StreamOf, DataPart, EntryOf, DataCount, Packets, Pieces;
    SentFields(m, maxMessageBytes, 0);
    EntrySlices(m, s, firstSeen);
  }

  // ---------- Which sets of fragments deliver the message ----------

  /** At least as many fragments as there are data fragments; no two missing data fragments whose indices agree in
      the low eight bits; and none with all eight bits set unless parity 0 is there. */
  ghost predicate Ready(m: Message, s: set<nat>)
    requires m.w > 0
  {
    && m.K() <= |s|
    && (forall c, d :: 0 <= c < d < m.K() && c !in s && d !in s ==> c % 256 != d % 256)
    && (m.K() in s || forall c :: 0 <= c < m.K() && c !in s ==> c % 256 != 255)
  }

  /** Up to 255 data fragments, any k fragments will do. */
  lemma ReadyUpTo255(m: Message, s: set<nat>)
    requires m.w > 0 && m.K() <= 255
    ensures Ready(m, s) <==> m.K() <= |s|
  {}

  /** More fragments never make a ready set unready. */
  lemma ReadyGrows(m: Message, s: set<nat>, t: set<nat>)
    requires m.w > 0 && s <= t && Ready(m, s)
    ensures Ready(m, t)
  {
    assert t == s + (t - s);
  }

  lemma MissingPoints(k: nat, s: set<nat>, mis: seq<nat>)
    requires forall i :: 0 <= i < |mis| ==> mis[i] < k && mis[i] !in s
    requires forall i, j :: 0 <= i < j < |mis| ==> mis[i] < mis[j]
    requires forall c: nat :: c < k && c !in s ==> c in mis
    ensures DistinctPoints(mis) <==> forall c, d :: 0 <= c < d < k && c !in s && d !in s ==> c % 256 != d % 256
    ensures (forall i :: 0 <= i < |mis| ==> Point(mis[i]) != 0) <==> forall c :: 0 <= c < k && c !in s ==> c % 256 != 255
  {
    hide Point;
    forall c: nat, d: nat ensures Point(c) == Point(d) <==> c % 256 == d % 256 {
      PointsOfIndices(c, d);
    }
    forall c: nat ensures Point(c) == 0 <==> c % 256 == 255 {
      PointsOfIndices(c, c);
    }
    if DistinctPoints(mis) {
      forall c, d | 0 <= c < d < k && c !in s && d !in s ensures c % 256 != d % 256 {
        var i :| 0 <= i < |mis| && mis[i] == c;
        var j :| 0 <= j < |mis| && mis[j] == d;
        assert i < j;
      }
    }
  }

  /** The rows the decoder uses start with parity 0 exactly if it was received and anything is missing. */
  lemma {:induction false} FirstRow(m: Message, maxMessageBytes: nat, s: set<nat>, firstSeen: int, n: nat)
    requires m.WithinLimits(maxMessageBytes) && 0 < n <= m.parityCount
    ensures var ps := ReceivedParities(EntryOf(m, s, firstSeen).fragments, m.K(), n);
            (|ps| > 0 && ps[0].0 == 0) <==> m.K() in s
    decreases n
  {
    hide EntryOf, DataCount, Packets, Pieces;
    EntryAt(m, s, firstSeen, m.K() + n - 1);
    ParityContents(m, maxMessageBytes, s, firstSeen, n - 1);
    if n > 1 {
      FirstRow(m, maxMessageBytes, s, firstSeen, n - 1);
    }
  }

  lemma ReadyIsRepairable(m: Message, maxMessageBytes: nat, s: set<nat>, firstSeen: int, mis: seq<nat>, rows: seq<nat>)
    requires m.WithinLimits(maxMessageBytes) && Within(m, s) && m.K() <= |s|
    requires mis == Missing(DataPart(m, s), m.K())
    requires var ps := ReceivedParities(EntryOf(m, s, firstSeen).fragments, m.K(), m.parityCount);
             |mis| <= |ps| && rows == RowIndices(ps, |mis|)
    ensures Repairable(rows, mis) <==> Ready(m, s)
  {
    hide ReceivedParities, EntryOf, DataPart, DataCount, Missing, RowIndices, Point, DistinctPoints;
    var ps := ReceivedParities(EntryOf(m, s, firstSeen).fragments, m.K(), m.parityCount);
    MissingPoints(m.K(), s, mis);
    FirstRow(m, maxMessageBytes, s, firstSeen, m.parityCount);
    ParityContents(m, maxMessageBytes, s, firstSeen, m.parityCount);
    if |mis| > 0 {
      assert 0 in rows <==> rows[0] == 0;
    }
  }

  // ---------- Assembly ----------

  lemma {:induction false} PresentMissesNothing(data: seq<Option<Bytes>>)
    requires AllPresent(data)
    ensures |Missing(data, |data|)| == 0
  {
    MissingOfPresent(data, |data|);
  }

  lemma {:induction false} MissingOfPresent(data: seq<Option<Bytes>>, n: nat)
    requires n <= |data| && forall i :: 0 <= i < n ==> data[i].Some?
    ensures Missing(data, n) == []
    decreases n
  {
    if n > 0 {
      MissingOfPresent(data, n - 1);
    }
  }

  /** What was sent completes what arrived. */
  ghost function Completion(m: Message): (full: seq<Option<Bytes>>)
    requires m.w > 0
    ensures |full| == m.K()
    ensures forall j :: 0 <= j < m.K() ==> full[j] == Some(Padded(Full(m.payload), m.w)[j])
  {
    var p := Padded(Full(m.payload), m.w);
    seq(m.K(), j requires 0 <= j < m.K() => Some(p[j]))
  }

  lemma {:induction false} ParityOfPadded(d: seq<Bytes>, e: seq<Bytes>, w: nat, p: nat, i: nat, n: nat)
    requires |d| == |e| && n <= |d| && i < w
    requires forall j :: 0 <= j < |d| ==> e[j] == Pad(d[j], w)
    ensures ParitySum(d, p, i, n) == ParitySum(e, p, i, n)
    decreases n
  {
    hide Add, Mul, Coef;
    if n > 0 {
      ParityOfPadded(d, e, w, p, i, n - 1);
    }
  }

  lemma CompletionSatisfies(m: Message, maxMessageBytes: nat, ps: seq<(nat, Bytes)>, n: nat)
    requires m.WithinLimits(maxMessageBytes) && n <= |ps|
    requires forall r :: 0 <= r < |ps| ==> ps[r].1 == ParityBytes(m.Cut(), ps[r].0, m.w)
    ensures Satisfies(Values(Completion(m)), ps, n, m.w)
  {
    hide ParitySum, Pieces, Full, Pad, DataCount;
    var e := Values(Completion(m));
    forall r, i | 0 <= r < n && 0 <= i < m.w
      ensures ParitySum(e, ps[r].0, i, |e|) == At(ps[r].1, i)
    {
      ParityOfPadded(m.Cut(), e, m.w, ps[r].0, i, |e|);
    }
  }

  lemma CompletionCompletes(m: Message, maxMessageBytes: nat, s: set<nat>)
    requires m.WithinLimits(maxMessageBytes)
    ensures Completes(DataPart(m, s), Completion(m), m.w)
  {
    hide Pieces, Full, Pad, DataCount, Packets, DataPart, Completion, Padded;
    forall j | 0 <= j < m.K()
      ensures j in s ==> Completion(m)[j] == DataPart(m, s)[j]
      ensures |Completion(m)[j].value| == m.w
    {
      SentFields(m, maxMessageBytes, j);
    }
  }

  /** The decoder returns what was sent if the fragments are ready, and nothing otherwise. */
  lemma DecodesExactly(m: Message, maxMessageBytes: nat, s: set<nat>, firstSeen: int)
    requires m.WithinLimits(maxMessageBytes) && Within(m, s)
    ensures var ps := ReceivedParities(EntryOf(m, s, firstSeen).fragments, m.K(), m.parityCount);
            DecodeResult(DataPart(m, s), ps, m.w) == if Ready(m, s) then Some(Completion(m)) else None
  {
    hide ReceivedParities, EntryOf, DataPart, DataCount, Missing, Completion, Recoverable, RowIndices, ParityBytes,
         Pieces, Packets, Satisfies, Completes, DecodeResult, Repairable, Ready;
    var data := DataPart(m, s);
    var ps := ReceivedParities(EntryOf(m, s, firstSeen).fragments, m.K(), m.parityCount);
    ReceivedBalance(m, s, firstSeen);
    ReadyHasEnough(m, s);
    ParityContents(m, maxMessageBytes, s, firstSeen, m.parityCount);
    var mis := Missing(data, |data|);
    if m.K() <= |s| {
      var rows := RowIndices(ps, |mis|);
      SmallRowsExact(rows, mis);
      ReadyIsRepairable(m, maxMessageBytes, s, firstSeen, mis, rows);
      CompletionCompletes(m, maxMessageBytes, s);
      CompletionSatisfies(m, maxMessageBytes, ps, |mis|);
      DecodeIsDecodeResult(data, ps, m.w, Ready(m, s), Completion(m));
    } else {
      DecodeIsDecodeResult(data, ps, m.w, false, Completion(m));
    }
  }

  lemma ReadyHasEnough(m: Message, s: set<nat>)
    requires m.w > 0
    ensures Ready(m, s) ==> m.K() <= |s|
  {}

  /** A set of fragments delivers exactly the payload if it is ready, and nothing otherwise. */
  lemma AssemblesExactly(m: Message, maxMessageBytes: nat, s: set<nat>, firstSeen: int)
    requires m.WithinLimits(maxMessageBytes) && Within(m, s)
    ensures Assemble(EntryOf(m, s, firstSeen), maxMessageBytes) == if Ready(m, s) then Some(m.payload) else None
  {
    hide Assemble, DecodeResult, ReceivedParities, MaxSize, Extract, StreamOf, DataPart, EntryOf, DataCount, Missing,
         Completion, Padded, Pieces, Packets, Full, FilledSizes, Ready;
    var inc := EntryOf(m, s, firstSeen);
    var data := DataPart(m, s);
    AssembleEntry(m, maxMessageBytes, s, firstSeen);
    SizesReceived(m, maxMessageBytes, s, firstSeen);
    ReadyHasEnough(m, s);
    if AllPresent(data) {
      AllPresentIsPadded(m, maxMessageBytes, s);
      MessageFromPieces(m, inc.sizes, maxMessageBytes);
      PresentIsReady(m, s, firstSeen);
    } else {
      DecodesExactly(m, maxMessageBytes, s, firstSeen);
      WidthOrNothing(m, maxMessageBytes, s, firstSeen);
      var sizes := FilledSizes(data, inc.sizes, m.w);
      assert Values(Completion(m)) == Padded(Full(m.payload), m.w);
      MessageFromPieces(m, sizes, maxMessageBytes);
    }
  }

  lemma PresentIsReady(m: Message, s: set<nat>, firstSeen: int)
    requires m.w > 0 && Within(m, s) && AllPresent(DataPart(m, s))
    ensures Ready(m, s)
  {
    hide DataPart, EntryOf, Missing, ReceivedParities, DataCount;
    PresentMissesNothing(DataPart(m, s));
    ReceivedBalance(m, s, firstSeen);
    forall j | 0 <= j < m.K() ensures j in s {
      assert DataPart(m, s)[j].Some?;
    }
  }

  lemma WidthOrNothing(m: Message, maxMessageBytes: nat, s: set<nat>, firstSeen: int)
    requires m.WithinLimits(maxMessageBytes) && Within(m, s)
    ensures var w := MaxSize(EntryOf(m, s, firstSeen).fragments, m.K() + m.parityCount); w == 0 || w == m.w
    ensures Ready(m, s) ==> MaxSize(EntryOf(m, s, firstSeen).fragments, m.K() + m.parityCount) == m.w
  {
    hide EntryOf, MaxSize;
    DataCountCovers(|m.payload| + 4, m.w);
    WidthFound(m, maxMessageBytes, s, firstSeen, m.K() + m.parityCount);
    if Ready(m, s) {
      var i :| i in s;
      assert i < m.K() + m.parityCount;
    }
  }

  lemma SizesReceived(m: Message, maxMessageBytes: nat, s: set<nat>, firstSeen: int)
    requires m.WithinLimits(maxMessageBytes)
    ensures forall j :: 0 <= j < m.K() && j in s ==> EntryOf(m, s, firstSeen).sizes[j] == |m.Cut()[j]|
  {
    hide EntryOf, DataCount, Packets, Pieces;
    forall j | 0 <= j < m.K() && j in s
      ensures EntryOf(m, s, firstSeen).sizes[j] == |m.Cut()[j]|
    {
      EntryAt(m, s, firstSeen, j);
      SentFields(m, maxMessageBytes, j);
    }
  }

  lemma AllPresentIsPadded(m: Message, maxMessageBytes: nat, s: set<nat>)
    requires m.WithinLimits(maxMessageBytes) && AllPresent(DataPart(m, s))
    ensures Values(DataPart(m, s)) == Padded(Full(m.payload), m.w)
    ensures forall j :: 0 <= j < m.K() ==> j in s
  {
    hide DataPart, Packets, Pieces, DataCount, Padded, Full, Pad;
    forall j | 0 <= j < m.K()
      ensures j in s && Values(DataPart(m, s))[j] == Padded(Full(m.payload), m.w)[j]
    {
      assert DataPart(m, s)[j].Some?;
      SentFields(m, maxMessageBytes, j);
    }
  }
}
