/** The bytes of a report: the encoding half of Report::build_payload and the decoding half of Report::handle in
    tight/src/report.cpp. */
module ReportCodec {
  import opened Octets
  import opened WireFormat
  import opened PacketCodec
  import opened AckProtocol

  /** What a report carries: acknowledgment, late ratio in ten-thousandths, lost numbers, measured bandwidth. */
  datatype Report = Report(message: ReportMsg, ratio: U16, bandwidth: nat)

  function Words(s: seq<nat>): (b: Bytes)
    ensures |b| == 4 * |s|
    decreases |s|
  {
    if |s| == 0 then [] else Words(s[..|s| - 1]) + ToBe32(s[|s| - 1])
  }

  /** The n words from offset 12 on. */
  function WordSet(b: Bytes, n: nat): set<nat>
    requires 12 + 4 * n <= |b|
    decreases n
  {
    if n == 0 then {} else WordSet(b, n - 1) + {FromBe32(b[8 + 4 * n..12 + 4 * n])}
  }

  function Payload(ack: nat, ratio: U16, lost: seq<nat>, bandwidth: nat): Bytes {
    var n := LostCount(|lost|);
    ToBe32(ack) + Be16(ratio) + Be16(n) + ToBe32(0) + Words(lost[..n]) + ToBe32(bandwidth)
  }

  /** Reads a report; the bandwidth is optional, anything shorter than its own count says is refused. */
  function Read(b: Bytes): Option<Report> {
    if |b| < 12 then None
    else
      var n := Get16(b[6..8]);
      if |b| < 12 + 4 * n then None
      else
        Some(Report(ReportMsg(FromBe32(b[0..4]), WordSet(b, n)), Get16(b[4..6]),
                    if |b| >= 16 + 4 * n then FromBe32(b[12 + 4 * n..16 + 4 * n]) else 0))
  }

  /** The words that were written are the ones read back. */
  lemma {:induction false} WordsBack(b: Bytes, s: seq<nat>, n: nat)
    requires n <= |s| && 12 + 4 * |s| <= |b| && b[12..12 + 4 * |s|] == Words(s)
    requires forall i :: 0 <= i < |s| ==> s[i] < 0x1_0000_0000
    ensures WordSet(b, n) == set g | g in s[..n]
    decreases n
  {
    hide ToBe32, FromBe32, Words;
    if n > 0 {
      WordsBack(b, s, n - 1);
      WordAt(s, n - 1);
      SubSlice(b, 12, 12 + 4 * |s|, 4 * (n - 1), 4 * n);
      Be32RoundTrip(s[n - 1]);
      assert s[..n] == s[..n - 1] + [s[n - 1]];
    }
  }

  lemma {:induction false} WordAt(s: seq<nat>, i: nat)
    requires i < |s|
    ensures Words(s)[4 * i..4 * i + 4] == ToBe32(s[i])
    decreases |s|
  {
    hide ToBe32;
    var front := s[..|s| - 1];
    var last := ToBe32(s[|s| - 1]);
    if i < |s| - 1 {
      WordAt(front, i);
      assert (Words(front) + last)[4 * i..4 * i + 4] == Words(front)[4 * i..4 * i + 4];
    } else {
      assert (Words(front) + last)[4 * i..4 * i + 4] == last;
    }
  }

  /** The sender reads exactly the report the receiver meant: its acknowledgment and the losses that fit. */
  lemma ReportRoundTrip(ack: nat, ratio: U16, lost: seq<nat>, bandwidth: nat)
    requires ack < 0x1_0000_0000
    requires forall i :: 0 <= i < |lost| ==> lost[i] < 0x1_0000_0000
    ensures Read(Payload(ack, ratio, lost, bandwidth)) == Some(Report(OnWire(ack, lost), ratio, bandwidth % 0x1_0000_0000))
  {
    hide ToBe32, FromBe32, Be16, Get16, Words, LostCount, WordSet;
    var n: U16 := LostCount(|lost|);
    var s := lost[..n];
    var b := Payload(ack, ratio, lost, bandwidth);
    Parts(ToBe32(ack), Be16(ratio), Be16(n), ToBe32(0), Words(s), ToBe32(bandwidth));
    assert |b| == 16 + 4 * n;
    Be32RoundTrip(ack);
    RoundTrip16(ratio);
    RoundTrip16(n);
    Be32LowBits(bandwidth);
    WordsBack(b, s, n);
    assert s[..n] == s;
    assert WordSet(b, n) == OnWire(ack, lost).lost;
  }

  /** Where the fields of a report stand. */
  lemma PayloadLayout(ack: nat, ratio: U16, lost: seq<nat>, bandwidth: nat, i: nat)
    ensures var b, n := Payload(ack, ratio, lost, bandwidth), LostCount(|lost|);
            && |b| == 16 + 4 * n
            && FromBe32(b[0..4]) == ack % 0x1_0000_0000 && Get16(b[4..6]) == ratio && Get16(b[6..8]) == n
            && (i < n ==> FromBe32(b[12 + 4 * i..16 + 4 * i]) == lost[i] % 0x1_0000_0000)
            && FromBe32(b[12 + 4 * n..]) == bandwidth % 0x1_0000_0000
  {
    hide ToBe32, FromBe32, Be16, Get16, Words, LostCount;
    var n: U16 := LostCount(|lost|);
    var s := lost[..n];
    var b := Payload(ack, ratio, lost, bandwidth);
    Parts(ToBe32(ack), Be16(ratio), Be16(n), ToBe32(0), Words(s), ToBe32(bandwidth));
    assert b[12 + 4 * n..] == b[12 + 4 * n..16 + 4 * n];
    Be32LowBits(ack);
    RoundTrip16(ratio);
    RoundTrip16(n);
    Be32LowBits(bandwidth);
    if i < n {
      WordAt(s, i);
      SubSlice(b, 12, 12 + 4 * |s|, 4 * i, 4 * i + 4);
      Be32LowBits(s[i]);
    }
  }

  lemma Parts<T>(a: seq<T>, b: seq<T>, c: seq<T>, d: seq<T>, e: seq<T>, f: seq<T>)
    requires |a| == |d| == |f| == 4 && |b| == |c| == 2
    ensures var s := a + b + c + d + e + f;
            && s[0..4] == a && s[4..6] == b && s[6..8] == c
            && s[12..12 + |e|] == e && s[12 + |e|..16 + |e|] == f
  {}

  method BuildPayload(ack: nat, ratio: U16, lost: seq<nat>, bandwidth: nat) returns (b: Bytes)
    ensures b == Payload(ack, ratio, lost, bandwidth)
  {
    hide ToBe32, Be16;
    var count := |lost| % 0x1_0000;
    if count > 256 {
      count := 256;
    }
    b := ToBe32(ack) + Be16(ratio) + Be16(count) + ToBe32(0);
    ghost var head := b;
    for i := 0 to count
      invariant b == head + Words(lost[..i])
    {
      b := b + ToBe32(lost[i]);
      assert lost[..i + 1][..i] == lost[..i];
    }
    b := b + ToBe32(bandwidth);
  }

  method ReadPayload(b: Bytes) returns (r: Option<Report>)
    ensures r == Read(b)
  {
    hide FromBe32, Get16;
    if |b| < 12 {
      return None;
    }
    var count: nat := Get16(b[6..8]);
    var needed: nat := 12 + count * 4;
    if |b| < needed {
      return None;
    }
    var bandwidth := 0;
    if |b| >= needed + 4 {
      bandwidth := FromBe32(b[needed..needed + 4]);
    }
    var lost: set<nat> := {};
    for i := 0 to count
      invariant lost == WordSet(b, i)
    {
      lost := lost + {FromBe32(b[12 + i * 4..16 + i * 4])};
    }
    return Some(Report(ReportMsg(FromBe32(b[0..4]), lost), Get16(b[4..6]), bandwidth));
  }
}
