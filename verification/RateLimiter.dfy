/** The gateway's token buckets: gateway/gateway_ratelimit.hpp. Times are seconds, amounts are real numbers. */
module RateLimiter {

  datatype Config = Config(rate: real, capacity: real)

  /** A bucket is new while its last refill is at the clock's epoch, time 0. */
  datatype Bucket = Bucket(tokens: real, last: real)

  const NewBucket := Bucket(0.0, 0.0)

  /** Tokens that the time between two moments is worth. */
  function Gain(c: Config, from: real, to: real): real { (to - from) * c.rate }

  /** The tokens at a check, before the cost is taken. */
  function Level(b: Bucket, c: Config, now: real): real {
    var t := if b.last == 0.0 then c.capacity else b.tokens + Gain(c, b.last, now);
    if t > c.capacity then c.capacity else t
  }

  function Checked(b: Bucket, c: Config, now: real, cost: nat): (Bucket, bool) {
    var t := Level(b, c, now);
    if t < cost as real then (Bucket(t, now), false) else (Bucket(t - cost as real, now), true)
  }

  // ---------- The limiter ----------

  datatype Call = Call(device: string, dimension: string, cost: nat, now: real)

  function KeyOf(device: string, dimension: string): string { device + ":" + dimension }

  function BucketIn(buckets: map<string, Bucket>, key: string): Bucket {
    if key in buckets then buckets[key] else NewBucket
  }

  /** One call charges the bucket of its key; an unknown dimension is always allowed and changes nothing. */
  function Charge(configs: map<string, Config>, buckets: map<string, Bucket>, call: Call): (map<string, Bucket>, bool) {
    if call.dimension !in configs then (buckets, true)
    else
      var key := KeyOf(call.device, call.dimension);
      var (b, ok) := Checked(BucketIn(buckets, key), configs[call.dimension], call.now, call.cost);
      (buckets[key := b], ok)
  }

  /** What a new limiter is configured with: connections, bandwidth, daily audio and daily tokens. */
  const DEFAULTS: map<string, Config> :=
    map["connection" := Config(1.0 / 10.0, 1.0), "bandwidth" := Config(32768.0, 32768.0),
        "audio_day" := Config(60.0 / 86400.0, 60.0), "tokens_day" := Config(100000.0 / 86400.0, 100000.0)]

  class Limiter {
    var configs: map<string, Config>
    var buckets: map<string, Bucket>

    constructor ()
      ensures buckets == map[] && configs == DEFAULTS
    {
      configs := DEFAULTS;
      buckets := map[];
    }

    method Configure(dimension: string, config: Config)
      modifies `configs
      ensures configs == old(configs)[dimension := config]
    {
      configs := configs[dimension := config];
    }

    method Check(device: string, dimension: string, cost: nat, now: real) returns (allowed: bool, remaining: int)
      modifies `buckets
      ensures (buckets, allowed) == Charge(configs, old(buckets), Call(device, dimension, cost, now))
      ensures dimension in configs ==> remaining == BucketIn(buckets, KeyOf(device, dimension)).tokens.Floor
    {
      assert forall c: Config :: Gain(c, now, now) == 0.0;
      hide Gain;
      if dimension !in configs {
        return true, 0;
      }
      var cfg := configs[dimension];
      var key := KeyOf(device, dimension);
      var tb := if key in buckets then buckets[key] else NewBucket;
      if tb.last == 0.0 {
        tb := Bucket(cfg.capacity, now);
      }
      var tokens := tb.tokens + Gain(cfg, tb.last, now);
      if tokens > cfg.capacity {
        tokens := cfg.capacity;
      }
      allowed := tokens >= cost as real;
      if allowed {
        tokens := tokens - cost as real;
      }
      buckets := buckets[key := Bucket(tokens, now)];
      remaining := tokens.Floor;
    }
  }

  /** A check allows a cost exactly when capacity and tokens, with what was earned since the last refill, cover it; a
      new bucket is full. */
  lemma AllowedExactly(b: Bucket, c: Config, now: real, cost: nat)
    ensures var (d, ok) := Checked(b, c, now, cost);
            && (ok <==> cost as real <= c.capacity && (b.last == 0.0 || cost as real <= b.tokens + (now - b.last) * c.rate))
            && d.last == now && d.tokens <= c.capacity
  {}

  /** So a cost within capacity is allowed once the bucket has earned it. */
  lemma AllowedAfterWait(b: Bucket, c: Config, now: real, cost: nat)
    requires cost as real <= c.capacity && b.tokens >= 0.0 && (now - b.last) * c.rate >= cost as real
    ensures Checked(b, c, now, cost).1
  {
    AllowedExactly(b, c, now, cost);
  }

  // ---------- Runs ----------

  /** The buckets after the first n of any sequence of calls, for any devices and dimensions. */
  function After(configs: map<string, Config>, calls: seq<Call>, n: nat): map<string, Bucket>
    requires n <= |calls|
    decreases n
  {
    if n == 0 then map[] else Charge(configs, After(configs, calls, n - 1), calls[n - 1]).0
  }

  /** The call is for a configured dimension and charges the bucket of this key. */
  predicate Charges(configs: map<string, Config>, call: Call, key: string) {
    call.dimension in configs && KeyOf(call.device, call.dimension) == key
  }

  /** The cost granted under a key by the calls i, ..., j-1. */
  function Granted(configs: map<string, Config>, calls: seq<Call>, key: string, i: nat, j: nat): real
    requires i <= j <= |calls|
    decreases j
  {
    if i == j then 0.0
    else
      var a := calls[j - 1];
      Granted(configs, calls, key, i, j - 1)
      + if Charges(configs, a, key) && Charge(configs, After(configs, calls, j - 1), a).1 then a.cost as real else 0.0
  }

  /** The calls come in the order of the clock, the first one at or after `start`. */
  ghost predicate ClockRuns(calls: seq<Call>, start: real) {
    && (forall i, j :: 0 <= i <= j < |calls| ==> calls[i].now <= calls[j].now)
    && (|calls| > 0 ==> start <= calls[0].now)
  }

  ghost predicate WithinBound(configs: map<string, Config>, calls: seq<Call>, device: string, dimension: string, i: nat, j: nat)
    requires i < j <= |calls| && dimension in configs
  {
    Granted(configs, calls, KeyOf(device, dimension), i, j)
    <= configs[dimension].capacity + Gain(configs[dimension], calls[i].now, calls[j - 1].now)
  }

  // ---------- Keys ----------

  ghost predicate EndsWith(s: string, t: string) { |t| <= |s| && s[|s| - |t|..] == t }

  /** No name ends with a colon and another one. */
  ghost predicate Unambiguous(names: set<string>) {
    forall d, e :: d in names && e in names ==> !EndsWith(d, ":" + e)
  }

  lemma LongerEnds(u: string, d: string, v: string, e: string)
    requires KeyOf(u, d) == KeyOf(v, e) && |d| >= |e|
    ensures d == e || EndsWith(d, ":" + e)
  {
    var k := KeyOf(u, d);
    assert k[|k| - |d|..] == d && k[|k| - |e|..] == e;
    if |d| == |e| {
    } else {
      assert k[|k| - |e| - 1..] == ":" + e;
      assert d[|d| - |e| - 1..] == k[|k| - |e| - 1..];
    }
  }

  /** Then a key belongs to one dimension only. */
  lemma KeyOfOneDimension(configs: map<string, Config>, call: Call, device: string, dimension: string)
    requires Unambiguous(configs.Keys) && dimension in configs && Charges(configs, call, KeyOf(device, dimension))
    ensures call.dimension == dimension
  {
    if |call.dimension| >= |dimension| {
      LongerEnds(call.device, call.dimension, device, dimension);
    } else {
      LongerEnds(device, dimension, call.device, call.dimension);
    }
  }

  // ---------- The bound ----------

  lemma GainLaws(c: Config, from: real, mid: real, to: real)
    requires c.rate >= 0.0 && from <= mid <= to
    ensures Gain(c, from, mid) >= 0.0 && Gain(c, mid, to) >= 0.0
    ensures Gain(c, from, mid) + Gain(c, mid, to) == Gain(c, from, to)
  {
    GainNonNegative(c, from, mid);
    GainNonNegative(c, mid, to);
    GainAdds(c, from, mid, to);
    hide Gain;
  }

  lemma GainAdds(c: Config, from: real, mid: real, to: real)
    ensures Gain(c, from, mid) + Gain(c, mid, to) == Gain(c, from, to)
  {}

  lemma GainNonNegative(c: Config, from: real, to: real)
    requires c.rate >= 0.0 && from <= to
    ensures Gain(c, from, to) >= 0.0
  {
    var d := to - from;
    assert d >= 0.0;
    assert d * c.rate >= 0.0;
  }

  /** One check takes no more than the bucket held and earned, and leaves it within bounds. */
  lemma CheckBalance(b: Bucket, c: Config, now: real, cost: nat)
    requires c.rate >= 0.0 && c.capacity >= 0.0
    requires b.last == 0.0 || (0.0 <= b.tokens <= c.capacity && b.last <= now)
    ensures var (d, ok) := Checked(b, c, now, cost);
            && d.last == now && 0.0 <= d.tokens <= c.capacity
            && (if ok then cost as real else 0.0) + d.tokens
               <= if b.last == 0.0 then c.capacity else b.tokens + Gain(c, b.last, now)
  {
    if b.last != 0.0 {
      GainLaws(c, b.last, now, now);
    }
    hide Gain;
  }

  lemma WithinCapacity(b: Bucket, c: Config, now: real, cost: nat)
    ensures var (d, ok) := Checked(b, c, now, cost); (if ok then cost as real else 0.0) + d.tokens <= c.capacity
  {
    hide Gain;
  }

  ghost predicate Touched(configs: map<string, Config>, calls: seq<Call>, key: string, i: nat, j: nat)
    requires i <= j <= |calls|
  {
    exists k :: i <= k < j && Charges(configs, calls[k], key)
  }

  lemma {:induction false} TokensBounded(configs: map<string, Config>, calls: seq<Call>, device: string, dimension: string,
                                         n: nat, start: real)
    requires n <= |calls| && ClockRuns(calls, start) && start > 0.0 && Unambiguous(configs.Keys) && dimension in configs
    requires configs[dimension].rate >= 0.0 && configs[dimension].capacity >= 0.0
    ensures var b := BucketIn(After(configs, calls, n), KeyOf(device, dimension));
            b.last == 0.0 || (n > 0 && 0.0 < b.last <= calls[n - 1].now && 0.0 <= b.tokens <= configs[dimension].capacity)
    decreases n
  {
    hide Checked, Unambiguous, KeyOf;
    if n > 0 {
      TokensBounded(configs, calls, device, dimension, n - 1, start);
      var key := KeyOf(device, dimension);
      if Charges(configs, calls[n - 1], key) {
        KeyOfOneDimension(configs, calls[n - 1], device, dimension);
        CheckBalance(BucketIn(After(configs, calls, n - 1), key), configs[dimension], calls[n - 1].now, calls[n - 1].cost);
      }
    }
  }

  /** What a window has granted under a key, together with what its bucket still holds. */
  lemma {:induction false} WindowBalance(configs: map<string, Config>, calls: seq<Call>, device: string, dimension: string,
                                         i: nat, j: nat, start: real)
    requires i <= j <= |calls| && ClockRuns(calls, start) && start > 0.0 && Unambiguous(configs.Keys) && dimension in configs
    requires configs[dimension].rate >= 0.0 && configs[dimension].capacity >= 0.0
    ensures var key, c := KeyOf(device, dimension), configs[dimension];
            var b := BucketIn(After(configs, calls, j), key);
            if Touched(configs, calls, key, i, j) then
              && calls[i].now <= b.last <= calls[j - 1].now
              && Granted(configs, calls, key, i, j) + b.tokens <= c.capacity + Gain(c, calls[i].now, b.last)
            else Granted(configs, calls, key, i, j) == 0.0
    decreases j
  {
    hide Checked, Unambiguous, KeyOf, Gain, Charges;
    var key, c := KeyOf(device, dimension), configs[dimension];
    if i < j {
      WindowBalance(configs, calls, device, dimension, i, j - 1, start);
      TokensBounded(configs, calls, device, dimension, j - 1, start);
      var b, a := BucketIn(After(configs, calls, j - 1), key), calls[j - 1];
      if Charges(configs, a, key) {
        KeyOfOneDimension(configs, a, device, dimension);
        CallBalance(configs, calls, key, dimension, i, j, b);
      } else {
        OtherCall(configs, After(configs, calls, j - 1), a, key);
      }
    }
  }

  lemma OtherCall(configs: map<string, Config>, buckets: map<string, Bucket>, a: Call, key: string)
    requires !Charges(configs, a, key)
    ensures BucketIn(Charge(configs, buckets, a).0, key) == BucketIn(buckets, key)
  {}

  lemma {:induction false} CallBalance(configs: map<string, Config>, calls: seq<Call>, key: string, dimension: string,
                                       i: nat, j: nat, b: Bucket)
    requires i < j <= |calls| && dimension in configs && b == BucketIn(After(configs, calls, j - 1), key)
    requires Charges(configs, calls[j - 1], key) && calls[j - 1].dimension == dimension
    requires forall k, l :: 0 <= k <= l < |calls| ==> calls[k].now <= calls[l].now
    requires calls[0].now > 0.0 && configs[dimension].rate >= 0.0 && configs[dimension].capacity >= 0.0
    requires b.last == 0.0 || (0.0 <= b.tokens <= configs[dimension].capacity && b.last <= calls[j - 1].now)
    requires var c := configs[dimension];
             if Touched(configs, calls, key, i, j - 1) then
               calls[i].now <= b.last <= calls[j - 1].now &&
               Granted(configs, calls, key, i, j - 1) + b.tokens <= c.capacity + Gain(c, calls[i].now, b.last)
             else Granted(configs, calls, key, i, j - 1) == 0.0
    ensures var c := configs[dimension];
            var d := BucketIn(After(configs, calls, j), key);
            && d.last == calls[j - 1].now
            && Granted(configs, calls, key, i, j) + d.tokens <= c.capacity + Gain(c, calls[i].now, d.last)
  {
    var c, a := configs[dimension], calls[j - 1];
    CheckBalance(b, c, a.now, a.cost);
    WithinCapacity(b, c, a.now, a.cost);
    if Touched(configs, calls, key, i, j - 1) {
      GainLaws(c, calls[i].now, b.last, a.now);
    } else {
      GainLaws(c, calls[i].now, a.now, a.now);
    }
    hide Checked, Gain;
  }

  /** For every interleaving of calls that starts after the clock's epoch: in every window, at most
      capacity + rate * length is granted to a device in a dimension. */
  lemma {:induction false} WindowBound(configs: map<string, Config>, calls: seq<Call>, device: string, dimension: string,
                                       i: nat, j: nat, start: real)
    requires i < j <= |calls| && ClockRuns(calls, start) && start > 0.0 && Unambiguous(configs.Keys) && dimension in configs
    requires configs[dimension].rate >= 0.0 && configs[dimension].capacity >= 0.0
    ensures WithinBound(configs, calls, device, dimension, i, j)
  {
    WindowBalance(configs, calls, device, dimension, i, j, start);
    TokensBounded(configs, calls, device, dimension, j, start);
    var key, c := KeyOf(device, dimension), configs[dimension];
    hide KeyOf, After, Granted, Unambiguous;
    if Touched(configs, calls, key, i, j) {
      GainLaws(c, calls[i].now, BucketIn(After(configs, calls, j), key).last, calls[j - 1].now);
    } else {
      GainLaws(c, calls[i].now, calls[j - 1].now, calls[j - 1].now);
    }
    hide Gain;
  }

  // ---------- Where the bound fails ----------

  /** At the epoch the bucket counts as new each time and is filled again. */
  lemma EpochRefills(configs: map<string, Config>, device: string, dimension: string, n: nat, calls: seq<Call>)
    requires dimension in configs && n > 0 && n as real <= configs[dimension].capacity < 2.0 * n as real
    requires calls == [Call(device, dimension, n, 0.0), Call(device, dimension, n, 0.0)]
    ensures !WithinBound(configs, calls, device, dimension, 0, 2)
  {
    var key, c := KeyOf(device, dimension), configs[dimension];
    hide KeyOf;
    assert BucketIn(After(configs, calls, 1), key) == Bucket(c.capacity - n as real, 0.0);
    assert Granted(configs, calls, key, 0, 1) == n as real;
    assert Gain(c, 0.0, 0.0) == 0.0;
  }

  /** Two dimensions that share a key share a bucket: the faster one refills it for the slower one. */
  lemma SharedKeyRefills(configs: map<string, Config>, fast: string, slow: string, x: string, start: real, calls: seq<Call>)
    requires fast == x + ":" + slow && fast in configs && slow in configs && start > 0.0
    requires configs[slow] == Config(0.0, 1.0) && configs[fast] == Config(10.0, 10.0)
    requires calls == [Call(":" + x, slow, 1, start), Call("", fast, 0, start + 1.0), Call(":" + x, slow, 1, start + 1.0)]
    ensures !WithinBound(configs, calls, ":" + x, slow, 0, 3)
  {
    var key := ":" + fast;
    assert KeyOf(":" + x, slow) == key && KeyOf("", fast) == key;
    hide KeyOf;
    var c, d := configs[slow], configs[fast];
    assert Gain(c, start, start + 1.0) == 0.0 && Gain(d, start, start + 1.0) == 10.0;
    assert Gain(c, start + 1.0, start + 1.0) == 0.0;
    hide Gain;
    assert BucketIn(After(configs, calls, 1), key) == Bucket(0.0, start);
    assert BucketIn(After(configs, calls, 2), key) == Bucket(10.0, start + 1.0);
    assert Granted(configs, calls, key, 0, 1) == 1.0;
    assert Granted(configs, calls, key, 0, 2) == 1.0;
    assert Granted(configs, calls, key, 0, 3) == 2.0;
  }

  /** A bucket that holds less than one token grants nothing. */
  lemma {:induction false} SmallGrantsNothing(configs: map<string, Config>, calls: seq<Call>, device: string, dimension: string,
                                              i: nat, j: nat)
    requires i <= j <= |calls| && Unambiguous(configs.Keys) && dimension in configs && configs[dimension].capacity < 1.0
    ensures Granted(configs, calls, KeyOf(device, dimension), i, j) == 0.0
    decreases j
  {
    hide KeyOf, Unambiguous;
    var key := KeyOf(device, dimension);
    if i < j {
      SmallGrantsNothing(configs, calls, device, dimension, i, j - 1);
      var a := calls[j - 1];
      if Charges(configs, a, key) {
        KeyOfOneDimension(configs, a, device, dimension);
        NoTokenNoGrant(BucketIn(After(configs, calls, j - 1), key), configs[dimension], a.now, a.cost);
      }
    }
  }

  lemma NoTokenNoGrant(b: Bucket, c: Config, now: real, cost: nat)
    requires c.capacity < 1.0
    ensures Checked(b, c, now, cost).1 ==> cost == 0
  {
    hide Gain;
  }

  ghost predicate AlwaysBounded(configs: map<string, Config>, device: string, dimension: string, start: real)
    requires dimension in configs
  {
    forall calls: seq<Call>, i: nat, j: nat ::
      i < j <= |calls| && ClockRuns(calls, start) ==> WithinBound(configs, calls, device, dimension, i, j)
  }

  /** The bound holds for every interleaving exactly when the calls start after the epoch, or nothing is granted. */
  lemma {:induction false} EpochExactly(configs: map<string, Config>, device: string, dimension: string, start: real)
    requires Unambiguous(configs.Keys) && dimension in configs && start >= 0.0
    requires configs[dimension].rate >= 0.0 && configs[dimension].capacity >= 0.0
    ensures AlwaysBounded(configs, device, dimension, start) <==> start > 0.0 || configs[dimension].capacity < 1.0
  {
    var c := configs[dimension];
    if start > 0.0 || c.capacity < 1.0 {
      forall calls: seq<Call>, i: nat, j: nat | i < j <= |calls| && ClockRuns(calls, start)
        ensures WithinBound(configs, calls, device, dimension, i, j)
      {
        if start > 0.0 {
          WindowBound(configs, calls, device, dimension, i, j, start);
        } else {
          SmallGrantsNothing(configs, calls, device, dimension, i, j);
          GainLaws(c, calls[i].now, calls[j - 1].now, calls[j - 1].now);
        }
      }
    } else {
      var n: nat := c.capacity.Floor;
      var calls := [Call(device, dimension, n, 0.0), Call(device, dimension, n, 0.0)];
      EpochRefills(configs, device, dimension, n, calls);
      assert ClockRuns(calls, start) && !WithinBound(configs, calls, device, dimension, 0, 2);
    }
  }

  /** Rates and capacities that make sense. */
  ghost predicate NonNegative(configs: map<string, Config>) {
    forall d :: d in configs ==> configs[d].rate >= 0.0 && configs[d].capacity >= 0.0
  }

  /** Whatever rates and capacities these dimensions are given, the bound holds for every device in every
      interleaving that starts at or after `start`. */
  ghost predicate NamesBounded(names: set<string>, start: real) {
    forall configs: map<string, Config>, device: string, dimension: string ::
      configs.Keys == names && NonNegative(configs) && dimension in configs ==>
        AlwaysBounded(configs, device, dimension, start)
  }

  /** The bound holds of a set of dimension names exactly when the calls start after the epoch and no name ends
      with a colon and another. */
  lemma {:induction false} BoundHoldsExactly(names: set<string>, start: real)
    requires names != {} && start >= 0.0
    ensures NamesBounded(names, start) <==> start > 0.0 && Unambiguous(names)
  {
    hide AlwaysBounded, EndsWith;
    if start > 0.0 && Unambiguous(names) {
      forall configs: map<string, Config>, device: string, dimension: string
        | configs.Keys == names && NonNegative(configs) && dimension in configs
        ensures AlwaysBounded(configs, device, dimension, start)
      {
        EpochExactly(configs, device, dimension, start);
      }
    } else if !Unambiguous(names) {
      var d, e :| d in names && e in names && EndsWith(d, ":" + e);
      ClashBreaks(names, d, e, start);
    } else {
      var e :| e in names;
      var configs := map n | n in names :: Config(0.0, 1.0);
      EpochExactly(configs, "", e, start);
      assert configs.Keys == names && NonNegative(configs) && !AlwaysBounded(configs, "", e, start);
    }
  }

  lemma {:induction false} ClashBreaks(names: set<string>, fast: string, slow: string, start: real)
    requires fast in names && slow in names && EndsWith(fast, ":" + slow) && start >= 0.0
    ensures !NamesBounded(names, start)
  {
    var x := fast[..|fast| - |slow| - 1];
    assert fast == x + ":" + slow;
    var configs := map n | n in names :: if n == fast then Config(10.0, 10.0) else Config(0.0, 1.0);
    assert configs.Keys == names;
    var t := start + 1.0;
    var calls := [Call(":" + x, slow, 1, t), Call("", fast, 0, t + 1.0), Call(":" + x, slow, 1, t + 1.0)];
    SharedKeyRefills(configs, fast, slow, x, t, calls);
    hide WithinBound, EndsWith;
    assert ClockRuns(calls, start);
    assert NonNegative(configs) && !AlwaysBounded(configs, ":" + x, slow, start);
  }

  /** So the bound holds of the default dimensions: of every run of a new limiter that starts after the epoch. */
  lemma {:induction false} DefaultsBounded(calls: seq<Call>, device: string, dimension: string, i: nat, j: nat, start: real)
    requires i < j <= |calls| && ClockRuns(calls, start) && start > 0.0 && dimension in DEFAULTS
    ensures WithinBound(DEFAULTS, calls, device, dimension, i, j)
  {
    DefaultNames();
    WindowBound(DEFAULTS, calls, device, dimension, i, j, start);
  }

  /** None of the default names holds a colon. */
  lemma DefaultNames()
    ensures Unambiguous(DEFAULTS.Keys)
  {
    forall d, e | d in DEFAULTS && e in DEFAULTS ensures !EndsWith(d, ":" + e) {
      ColonInside(d, e);
    }
  }

  lemma ColonInside(d: string, e: string)
    ensures EndsWith(d, ":" + e) ==> ':' in d
  {
    if EndsWith(d, ":" + e) {
      assert d[|d| - |e| - 1] == (":" + e)[0];
    }
  }
}
