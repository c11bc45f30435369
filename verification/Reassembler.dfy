/** Collecting fragments and rebuilding messages: the second half of Reassembler::handle_data and
    try_assemble in tight/src/reassembler.cpp, and the purge loops of check_offline in
    tight/src/transport.cpp.

    Fragments are taken to carry at most as many data fragments as fragments (`flags <= count`). */
module Reassembler {
  import opened Octets
  import opened WireFormat
  import opened Gf256
  import opened ReedSolomon
  import opened ErasurePatterns
  import opened Fragmenter

  // ---------- Cutting the message out of the fragment stream ----------

  function Min(a: nat, b: nat): nat { if a < b then a else b }

  /** The part of a fragment that counts: its recorded size, if that much is there. */
  function Stored(frag: Bytes, size: nat): Bytes { frag[..Min(size, |frag|)] }

  function StreamOf(frags: seq<Bytes>, sizes: seq<nat>, n: nat): Bytes
    requires n <= |frags| && n <= |sizes|
    decreases n
  {
    if n == 0 then [] else StreamOf(frags, sizes, n - 1) + Stored(frags[n - 1], sizes[n - 1])
  }

  lemma {:induction false} StreamPrefix(frags: seq<Bytes>, sizes: seq<nat>, i: nat, n: nat)
    requires i <= n <= |frags| && n <= |sizes|
    ensures StreamOf(frags, sizes, i) <= StreamOf(frags, sizes, n)
    decreases n - i
  {
    hide Stored;
    if i < n {
      StreamPrefix(frags, sizes, i, n - 1);
    }
  }

  /** The message in a stream: the length prefix is dropped, and decides where the message ends. */
  function Extract(stream: Bytes, maxMessageBytes: nat): Bytes {
    if |stream| < 4 then []
    else
      var total := FromBe32(stream[..4]);
      if total > maxMessageBytes then []
      else stream[4..4 + Min(total, |stream| - 4)]
  }

  method ReadPrefix(frags: seq<Bytes>, sizes: seq<nat>) returns (prefix: Bytes)
    requires |frags| == |sizes| && |StreamOf(frags, sizes, |frags|)| >= 4
    ensures prefix == StreamOf(frags, sizes, |frags|)[..4]
  {
    hide FromBe32;
    prefix := [];
    var need := 4;
    var i := 0;
    while i < |frags| && need > 0
      invariant 0 <= i <= |frags| && 0 <= need == 4 - |prefix|
      invariant prefix == StreamOf(frags, sizes, i)[..Min(4, |StreamOf(frags, sizes, i)|)]
    {
      var n := Min(sizes[i], |frags[i]|);
      var take := Min(n, need);
      prefix := prefix + frags[i][..take];
      need := need - take;
      i := i + 1;
    }
    StreamPrefix(frags, sizes, i, |frags|);
  }

  method BuildMsg(frags: seq<Bytes>, sizes: seq<nat>, maxMessageBytes: nat) returns (result: Bytes)
    requires |frags| == |sizes|
    ensures result == Extract(StreamOf(frags, sizes, |frags|), maxMessageBytes)
  {
    hide FromBe32;
    var k := |frags|;
    result := [];
    var streamLen := 0;
    for i := 0 to k
      invariant streamLen == |StreamOf(frags, sizes, i)|
    {
      streamLen := streamLen + Min(sizes[i], |frags[i]|);
    }
    if streamLen < 4 {
      return;
    }
    var prefix := ReadPrefix(frags, sizes);
    var total := FromBe32(prefix);
    if total > maxMessageBytes {
      return;
    }
    total := Min(total, streamLen - 4);
    result := CopyOut(frags, sizes, total);
  }

  /** The copy loop: skips four bytes, then appends fragment after fragment until `total` bytes are there. */
  method CopyOut(frags: seq<Bytes>, sizes: seq<nat>, total: nat) returns (result: Bytes)
    requires |frags| == |sizes|
    requires 4 + total <= |StreamOf(frags, sizes, |frags|)|
    ensures result == StreamOf(frags, sizes, |frags|)[4..4 + total]
  {
    result := [];
    var skip: nat := 4;
    var i := 0;
    while i < |frags| && |result| < total
      invariant 0 <= i <= |frags|
      invariant CopyState(StreamOf(frags, sizes, i), total, skip, result)
    {
      var n := Min(sizes[i], |frags[i]|);
      CopyStep(StreamOf(frags, sizes, i), Stored(frags[i], sizes[i]), total, skip, result);
      if skip >= n {
        skip := skip - n;
      } else {
        var src := frags[i][skip..n];
        skip := 0;
        if |result| + |src| > total {
          src := src[..total - |result|];
        }
        result := result + src;
      }
      i := i + 1;
    }
    StreamPrefix(frags, sizes, i, |frags|);
  }

  ghost predicate CopyState(s: Bytes, total: nat, skip: nat, result: Bytes) {
    && skip == (if |s| < 4 then 4 - |s| else 0)
    && result == (if |s| < 4 then [] else s[4..Min(|s|, 4 + total)])
  }

  lemma CopyStep(s: Bytes, f: Bytes, total: nat, skip: nat, result: Bytes)
    requires CopyState(s, total, skip, result) && |result| < total
    ensures skip >= |f| ==> CopyState(s + f, total, skip - |f|, result)
    ensures skip < |f| ==> CopyState(s + f, total, 0, result + f[skip..][..Min(|f| - skip, total - |result|)])
  {
    var t := s + f;
    if skip < |f| {
      var src := f[skip..][..Min(|f| - skip, total - |result|)];
      assert result + src == t[4..Min(|t|, 4 + total)];
    }
  }

  // ---------- Assembling one message ----------

  datatype Incoming = Incoming(messageId: nat, totalCount: nat, dataCount: nat, fragments: seq<Option<Bytes>>,
                               sizes: seq<nat>, firstSeen: int)
  {
    predicate WellFormed() {
      |fragments| == totalCount && |sizes| == totalCount && dataCount <= totalCount
    }

    /** The number of data fragments; a sender that does not say has one parity. */
    function DataFragments(): (k: nat)
      requires totalCount >= 2
      ensures WellFormed() ==> k <= totalCount
    {
      if dataCount > 0 then dataCount else totalCount - 1
    }
  }

  predicate AllPresent(frags: seq<Option<Bytes>>) {
    forall i :: 0 <= i < |frags| ==> frags[i].Some?
  }

  /** The largest fragment among the first n. */
  function MaxSize(frags: seq<Option<Bytes>>, n: nat): nat
    requires n <= |frags|
    decreases n
  {
    if n == 0 then 0
    else
      var w := MaxSize(frags, n - 1);
      if frags[n - 1].Some? && |frags[n - 1].value| > w then |frags[n - 1].value| else w
  }

  /** The received ones among parities 0..n-1, with their indices. */
  function ReceivedParities(frags: seq<Option<Bytes>>, k: nat, n: nat): (ps: seq<(nat, Bytes)>)
    decreases n
  {
    if n == 0 then []
    else
      var ps := ReceivedParities(frags, k, n - 1);
      if k + n - 1 < |frags| && frags[k + n - 1].Some? then ps + [(n - 1, frags[k + n - 1].value)] else ps
  }

  /** Recovered fragments count with their full width. */
  function FilledSizes(data: seq<Option<Bytes>>, sizes: seq<nat>, width: nat): (r: seq<nat>)
    requires |data| <= |sizes|
    ensures |r| == |data|
    ensures forall i :: 0 <= i < |data| ==> r[i] == if data[i].None? then width % 0x1_0000 else sizes[i]
  {
    seq(|data|, i requires 0 <= i < |data| => if data[i].None? then width % 0x1_0000 else sizes[i])
  }

  /** The message that an entry yields, if it yields one. */
  ghost function Assemble(inc: Incoming, maxMessageBytes: nat): Option<Bytes>
    requires inc.WellFormed()
  {
    if inc.totalCount < 2 then None
    else
      var k := inc.DataFragments();
      var data := inc.fragments[..k];
      if AllPresent(data) then Some(Extract(StreamOf(Values(data), inc.sizes, k), maxMessageBytes))
      else
        var width := MaxSize(inc.fragments, inc.totalCount);
        var parities := ReceivedParities(inc.fragments, k, inc.totalCount - k);
        if width == 0 then None
        else
          match DecodeResult(data, parities, width)
          case None => None
          case Some(full) => Recovered(data, full, inc.sizes, width, maxMessageBytes)
  }

  ghost function Recovered(data: seq<Option<Bytes>>, full: seq<Option<Bytes>>, sizes: seq<nat>, width: nat,
                           maxMessageBytes: nat): Option<Bytes>
    requires |data| <= |sizes|
  {
    if |full| == |data| && AllPresent(full)
    then Some(Extract(StreamOf(Values(full), FilledSizes(data, sizes, width), |data|), maxMessageBytes))
    else None
  }

  method CountPresent(frags: seq<Option<Bytes>>) returns (have: nat)
    ensures have <= |frags|
    ensures have == |frags| <==> AllPresent(frags)
    ensures |Missing(frags, |frags|)| == |frags| - have
  {
    hide Missing;
    have := 0;
    MissingOnce(frags, 0);
    for i := 0 to |frags|
      invariant |Missing(frags, i)| == i - have
    {
      MissingOnce(frags, i + 1);
      if frags[i].Some? {
        have := have + 1;
      }
    }
    MissingNone(frags, Missing(frags, |frags|));
  }

  lemma MissingOnce(frags: seq<Option<Bytes>>, n: nat)
    requires n <= |frags|
    ensures |Missing(frags, n)| == if n == 0 then 0 else |Missing(frags, n - 1)| + if frags[n - 1].None? then 1 else 0
  {}

  lemma {:induction false} MissingNone(frags: seq<Option<Bytes>>, mis: seq<nat>)
    requires mis == Missing(frags, |frags|)
    ensures |mis| == 0 <==> AllPresent(frags)
  {
    hide Missing;
    if |mis| > 0 {
      assert frags[mis[0]].None?;
    }
  }

  method FindWidth(frags: seq<Option<Bytes>>) returns (width: nat)
    ensures width == MaxSize(frags, |frags|)
  {
    width := 0;
    for i := 0 to |frags|
      invariant width == MaxSize(frags, i)
    {
      if frags[i].Some? && |frags[i].value| > width {
        width := |frags[i].value|;
      }
    }
  }

  method CollectParities(frags: seq<Option<Bytes>>, k: nat, n: nat) returns (ps: seq<(nat, Bytes)>)
    ensures ps == ReceivedParities(frags, k, n)
  {
    ps := [];
    for p := 0 to n
      invariant ps == ReceivedParities(frags, k, p)
    {
      if k + p < |frags| && frags[k + p].Some? {
        ps := ps + [(p, frags[k + p].value)];
      }
    }
  }

  lemma {:induction false} FewParities(frags: seq<Option<Bytes>>, k: nat, n: nat)
    ensures |ReceivedParities(frags, k, n)| <= n
    decreases n
  {
    if n > 0 {
      FewParities(frags, k, n - 1);
    }
  }

  lemma {:induction false} TooFewParities(data: seq<Option<Bytes>>, parity: seq<(nat, Bytes)>, width: nat)
    requires |Missing(data, |data|)| > |parity|
    ensures DecodeResult(data, parity, width).None?
  {
    hide Missing;
  }

  method TryAssemble(t: GfTables, inc: Incoming, maxMessageBytes: nat) returns (delivered: Option<Bytes>)
    requires ValidTables(t) && inc.WellFormed()
    ensures delivered == Assemble(inc, maxMessageBytes)
  {
    hide ValidTables, Extract, StreamOf, Recoverable, Satisfies, RowIndices, Missing, MaxSize, ReceivedParities, DecodeResult;
    delivered := None;
    if inc.totalCount < 2 {
      return;
    }
    var k := inc.DataFragments();
    var data := inc.fragments[..k];
    var have := CountPresent(data);
    if have == k {
      var msg := BuildMsg(Values(data), inc.sizes[..k], maxMessageBytes);
      StreamOfSlice(Values(data), inc.sizes, k);
      delivered := Some(msg);
      return;
    }
    var multi := k - have;
    var parityCount := inc.totalCount - k;
    FewParities(inc.fragments, k, parityCount);
    var width := FindWidth(inc.fragments);
    if multi > parityCount {
      TooFewParities(data, ReceivedParities(inc.fragments, k, parityCount), width);
      return;
    }
    if width == 0 {
      return;
    }
    var parities := CollectParities(inc.fragments, k, parityCount);
    if multi > |parities| {
      TooFewParities(data, parities, width);
      return;
    }
    var ok, full := Decode(t, data, parities, width);
    DecodeIsDecodeResult(data, parities, width, ok, full);
    if !ok {
      return;
    }
    var msg := BuildMsg(Values(full), FilledSizes(data, inc.sizes, width), maxMessageBytes);
    delivered := Some(msg);
  }

  lemma {:induction false} StreamOfSlice(frags: seq<Bytes>, sizes: seq<nat>, k: nat)
    requires |frags| == k <= |sizes|
    ensures StreamOf(frags, sizes[..k], k) == StreamOf(frags, sizes, k)
  {
    StreamOfAgrees(frags, sizes[..k], sizes, k);
  }

  lemma {:induction false} StreamOfAgrees(frags: seq<Bytes>, s: seq<nat>, t: seq<nat>, n: nat)
    requires n <= |frags| && n <= |s| && n <= |t|
    requires forall i :: 0 <= i < n ==> s[i] == t[i]
    ensures StreamOf(frags, s, n) == StreamOf(frags, t, n)
    decreases n
  {
    hide Stored;
    if n > 0 {
      StreamOfAgrees(frags, s, t, n - 1);
    }
  }

  // ---------- The receiver state ----------

  datatype State = State(incoming: map<nat, Incoming>, completed: map<nat, int>)

  ghost predicate ValidState(s: State) {
    forall id :: id in s.incoming ==> s.incoming[id].WellFormed()
  }

  const EmptyEntry := Incoming(0, 0, 0, [], [], 0)

  function Start(pkt: Packet, now: int): (inc: Incoming)
    ensures pkt.flags <= pkt.count ==> inc.WellFormed()
  {
    Incoming(pkt.messageId, pkt.count, pkt.flags, seq(pkt.count, _ => None), seq(pkt.count, _ => 0), now)
  }

  /** The entry a fragment belongs to; an entry without an id is set up from the fragment. */
  function EntryFor(incoming: map<nat, Incoming>, pkt: Packet, now: int): Incoming {
    var inc := if pkt.messageId in incoming then incoming[pkt.messageId] else EmptyEntry;
    if inc.messageId == 0 then Start(pkt, now) else inc
  }

  /** Stores a fragment unless its slot is taken. */
  function Store(inc: Incoming, pkt: Packet): (r: Incoming)
    requires inc.WellFormed() && pkt.index < inc.totalCount
    ensures r.WellFormed()
  {
    if inc.fragments[pkt.index].Some? then inc
    else inc.(fragments := inc.fragments[pkt.index := Some(pkt.payload)],
              sizes := inc.sizes[pkt.index := pkt.reserved])
  }

  predicate Accepts(s: State, pkt: Packet, maxMessageBytes: nat) {
    && pkt.count != 0
    && pkt.messageId !in s.completed
    && pkt.index < pkt.count
    && pkt.count <= maxMessageBytes / 64 + 8
  }

  /** What one fragment does to the state, and what it delivers. */
  ghost function Step(s: State, pkt: Packet, now: int, maxMessageBytes: nat): (State, Option<Bytes>)
    requires ValidState(s) && pkt.flags <= pkt.count
  {
    if !Accepts(s, pkt, maxMessageBytes) then (s, None)
    else
      var inc := EntryFor(s.incoming, pkt, now);
      if inc.totalCount != pkt.count then (s.(incoming := s.incoming[pkt.messageId := inc]), None)
      else
        var stored := Store(inc, pkt);
        match Assemble(stored, maxMessageBytes)
        case None => (s.(incoming := s.incoming[pkt.messageId := stored]), None)
        case Some(m) => (State(s.incoming - {pkt.messageId}, s.completed[pkt.messageId := now]), Some(m))
  }

  /** Drops entries and completed marks that have reached the dead timeout. */
  ghost function PurgeStep(s: State, now: int, deadTimeout: int): State {
    State(map id | id in s.incoming && now - s.incoming[id].firstSeen < deadTimeout :: s.incoming[id],
          map id | id in s.completed && now - s.completed[id] < deadTimeout :: s.completed[id])
  }

  class Receiver {
    var incoming: map<nat, Incoming>
    var completed: map<nat, int>

    ghost function Current(): State
      reads this
    {
      State(incoming, completed)
    }

    ghost predicate Valid()
      reads this
    {
      ValidState(Current())
    }

    constructor ()
      ensures Valid() && Current() == State(map[], map[])
    {
      incoming := map[];
      completed := map[];
    }

    method HandleFragment(t: GfTables, pkt: Packet, now: int, maxMessageBytes: nat) returns (delivered: Option<Bytes>)
      requires Valid() && ValidTables(t)
      requires pkt.flags <= pkt.count
      modifies this
      ensures Valid()
      ensures (Current(), delivered) == Step(old(Current()), pkt, now, maxMessageBytes)
    {
      hide ValidTables, Assemble;
      delivered := None;
      if pkt.count == 0 {
        return;
      }
      if pkt.messageId in completed {
        return;
      }
      if pkt.index >= pkt.count {
        return;
      }
      if pkt.count > maxMessageBytes / 64 + 8 {
        return;
      }
      var inc := if pkt.messageId in incoming then incoming[pkt.messageId] else EmptyEntry;
      if inc.messageId == 0 {
        inc := Start(pkt, now);
      }
      incoming := incoming[pkt.messageId := inc];
      if inc.totalCount != pkt.count {
        return;
      }
      if pkt.index >= |inc.fragments| {
        return;
      }
      if inc.fragments[pkt.index].None? {
        inc := inc.(fragments := inc.fragments[pkt.index := Some(pkt.payload)],
                    sizes := inc.sizes[pkt.index := pkt.reserved]);
        incoming := incoming[pkt.messageId := inc];
      }
      assert incoming == old(incoming)[pkt.messageId := inc];
      delivered := TryAssemble(t, inc, maxMessageBytes);
      if delivered.Some? {
        completed := completed[pkt.messageId := now];
        incoming := incoming - {pkt.messageId};
        assert incoming == old(incoming) - {pkt.messageId};
      }
    }

    /** Erases what has reached the timeout, entry by entry. */
    method Purge(now: int, deadTimeout: int)
      requires Valid()
      modifies this
      ensures Valid()
      ensures Current() == PurgeStep(old(Current()), now, deadTimeout)
    {
      var todo := incoming.Keys;
      while todo != {}
        invariant todo <= incoming.Keys && completed == old(completed)
        invariant incoming == map id | id in old(incoming) && (id in todo || now - old(incoming)[id].firstSeen < deadTimeout)
                                :: old(incoming)[id]
      {
        var id :| id in todo;
        if now - incoming[id].firstSeen >= deadTimeout {
          incoming := incoming - {id};
        }
        todo := todo - {id};
      }
      ghost var left := incoming;
      todo := completed.Keys;
      while todo != {}
        invariant todo <= completed.Keys && incoming == left
        invariant completed == map id | id in old(completed) && (id in todo || now - old(completed)[id] < deadTimeout)
                                 :: old(completed)[id]
      {
        var id :| id in todo;
        if now - completed[id] >= deadTimeout {
          completed := completed - {id};
        }
        todo := todo - {id};
      }
      assert Current() == PurgeStep(old(Current()), now, deadTimeout);
    }
  }

  /** Purging often is purging once, at the latest of the times. */
  lemma PurgesCompose(s: State, first: int, second: int, deadTimeout: int)
    requires first <= second
    ensures PurgeStep(PurgeStep(s, first, deadTimeout), second, deadTimeout) == PurgeStep(s, second, deadTimeout)
  {
    var p, q := PurgeStep(PurgeStep(s, first, deadTimeout), second, deadTimeout), PurgeStep(s, second, deadTimeout);
    assert p.incoming == q.incoming && p.completed == q.completed;
  }
}
