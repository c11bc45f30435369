/** The ordered command channel: tight/src/command.cpp.

    Commands come out by sequence number; one that arrives early is held, and the gap before it is skipped
    once the hold buffer has waited three round trips. Time is in microseconds and is passed in. */
module CommandChannel {
  import opened Octets
  import opened SequenceNumbers

  const MAX_WAIT_RTT: nat := 3
  const DEFAULT_RTT_US: nat := 10000

  /** A command with the number it was sent under. */
  datatype Command = Command(number: nat, payload: Bytes)

  datatype Channel = Channel(initialized: bool, next: nat, held: map<nat, Bytes>, gapSince: int)

  const FreshChannel := Channel(false, 0, map[], 0)

  // ---------- The steps as functions ----------

  /** Delivers held commands from the expected number on, as long as they follow each other. */
  function Drain(next: nat, held: map<nat, Bytes>): (r: (nat, map<nat, Bytes>, seq<Command>))
    decreases |held|
  {
    if next !in held then (next, held, [])
    else
      RemoveShrinks(held, next);
      var (n, h, out) := Drain(next + 1, held - {next});
      (n, h, [Command(next, held[next])] + out)
  }

  lemma RemoveShrinks(held: map<nat, Bytes>, k: nat)
    requires k in held
    ensures |held - {k}| < |held|
  {
    assert (held - {k}).Keys == held.Keys - {k};
  }

  function Wait(rttUs: nat): int { MAX_WAIT_RTT * (if rttUs > 0 then rttUs else DEFAULT_RTT_US) }

  predicate Expired(c: Channel, rttUs: nat, now: int) {
    c.held != map[] && now - c.gapSince >= Wait(rttUs)
  }

  /** Skips to the first held command once the wait is over, and drains from there. */
  function Expire(c: Channel, rttUs: nat, now: int): (r: (Channel, seq<Command>)) {
    if !Expired(c, rttUs, now) then (c, [])
    else
      var (n, h, out) := Drain(Least(c.held.Keys), c.held);
      (Channel(c.initialized, n, h, if h != map[] then now else c.gapSince), out)
  }

  function Handle(c: Channel, number: nat, payload: Bytes, rttUs: nat, now: int): (r: (Channel, seq<Command>)) {
    if number == 0 then (c, [])
    else
      var c0 := if c.initialized then c else c.(initialized := true, next := number);
      if number < c0.next then (c0, [])
      else if number == c0.next then
        var (n, h, out) := Drain(number + 1, c0.held);
        (c0.(next := n, held := h), [Command(number, payload)] + out)
      else
        var c1 := if c0.held == map[] then c0.(gapSince := now) else c0;
        var c2 := if number in c1.held then c1 else c1.(held := c1.held[number := payload]);
        Expire(c2, rttUs, now)
  }

  function Payloads(out: seq<Command>): (p: seq<Bytes>)
    ensures |p| == |out| && forall i :: 0 <= i < |out| ==> p[i] == out[i].payload
  {
    seq(|out|, i requires 0 <= i < |out| => out[i].payload)
  }

  lemma DrainOnce(next: nat, held: map<nat, Bytes>)
    ensures next !in held ==> Drain(next, held) == (next, held, [])
    ensures next in held ==> var (n, h, out) := Drain(next + 1, held - {next});
                             Drain(next, held) == (n, h, [Command(next, held[next])] + out)
  {}

  lemma PayloadsAppend(done: seq<Command>, c: Command, rest: seq<Command>, sofar: seq<Bytes>)
    ensures done + ([c] + rest) == (done + [c]) + rest
    ensures sofar + Payloads(done + [c]) == sofar + Payloads(done) + [c.payload]
  {
    assert Payloads(done + [c]) == Payloads(done) + [c.payload];
  }

  // ---------- The peer fields updated in place ----------

  class CommandState {
    var initialized: bool
    var next: nat
    var held: map<nat, Bytes>
    var gapSince: int
    var seqOut: nat

    ghost function Current(): Channel
      reads this
    {
      Channel(initialized, next, held, gapSince)
    }

    constructor ()
      ensures Current() == FreshChannel && seqOut == 1
    {
      initialized, next, held, gapSince, seqOut := false, 0, map[], 0, 1;
    }

    method DrainHeld(sofar: seq<Bytes>) returns (out: seq<Bytes>)
      modifies this`next, this`held
      ensures var (n, h, cs) := Drain(old(next), old(held));
              next == n && held == h && out == sofar + Payloads(cs)
    {
      hide Drain, Payloads;
      out := sofar;
      ghost var goal := Drain(next, held);
      ghost var done: seq<Command> := [];
      assert sofar + Payloads(done) == sofar && done + goal.2 == goal.2;
      while next in held
        invariant var (n, h, cs) := Drain(next, held); n == goal.0 && h == goal.1 && done + cs == goal.2
        invariant out == sofar + Payloads(done)
        decreases |held|
      {
        RemoveShrinks(held, next);
        DrainOnce(next, held);
        ghost var c := Command(next, held[next]);
        PayloadsAppend(done, c, Drain(next + 1, held - {next}).2, sofar);
        done := done + [c];
        out := out + [held[next]];
        held := held - {next};
        next := next + 1;
      }
      DrainOnce(next, held);
      assert done + [] == done;
    }

    method ExpireHeld(rttUs: nat, now: int, sofar: seq<Bytes>) returns (out: seq<Bytes>)
      modifies this`initialized, this`next, this`held, this`gapSince
      ensures var (c, cs) := Expire(old(Current()), rttUs, now); Current() == c && out == sofar + Payloads(cs)
    {
      hide Drain;
      out := sofar;
      assert sofar + [] == sofar;
      if held == map[] {
        return;
      }
      var wait := MAX_WAIT_RTT * (if rttUs > 0 then rttUs else DEFAULT_RTT_US);
      if now - gapSince < wait {
        return;
      }
      next := Least(held.Keys);
      out := DrainHeld(out);
      if held != map[] {
        gapSince := now;
      }
    }

    method HandleCommand(number: nat, payload: Bytes, rttUs: nat, now: int) returns (out: seq<Bytes>)
      requires number < MAX_SEQ
      modifies this`initialized, this`next, this`held, this`gapSince
      ensures var (c, cs) := Handle(old(Current()), number, payload, rttUs, now); Current() == c && out == Payloads(cs)
    {
      hide Drain, Expire;
      out := [];
      if number == 0 {
        return;
      }
      if !initialized {
        next := number;
        initialized := true;
      }
      if number < next {
        return;
      }
      if number == next {
        out := out + [payload];
        next := next + 1;
        ghost var cs := Drain(next, held).2;
        out := DrainHeld(out);
        assert Payloads([Command(number, payload)] + cs) == [payload] + Payloads(cs);
      } else {
        if held == map[] {
          gapSince := now;
        }
        if number !in held {
          held := held[number := payload];
        }
        out := ExpireHeld(rttUs, now, out);
      }
    }

    method FlushExpired(rttUs: nat, now: int) returns (out: seq<Bytes>)
      modifies this`initialized, this`next, this`held, this`gapSince
      ensures var (c, cs) := Expire(old(Current()), rttUs, now); Current() == c && out == Payloads(cs)
    {
      out := ExpireHeld(rttUs, now, []);
    }

    method Reset()
      modifies this
      ensures Current() == FreshChannel && seqOut == 1
    {
      seqOut := 1;
      next := 0;
      initialized := false;
      held := map[];
      gapSince := 0;
    }
  }
}
