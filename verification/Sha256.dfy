/** Streaming SHA-256: Sha256Ctx of tight/src/crypto.cpp.

    The message length is kept as an unbounded number. */
module Sha256 {
  import opened Octets
  import opened WireFormat
  import opened Sha256Compression

  /** Section 5.1.1 of FIPS 180-4: a one bit, the fewest zeros that leave room for the length, the length. */
  function Padding(n: nat): (p: Bytes)
    ensures (n + |p|) % 64 == 0
  {
    PaddingFits(n);
    [0x80] + Zeros(ZeroCount(n)) + BitCount(n)
  }

  /** The smallest k for which n bytes, the marker and k zeros end 8 bytes before a block boundary. */
  function ZeroCount(n: nat): (k: nat)
    ensures k < 64 && (n + 1 + k) % 64 == 56
  {
    (119 - n % 64) % 64
  }

  lemma PaddingFits(n: nat)
    ensures (n + 1 + ZeroCount(n) + 8) % 64 == 0
  {
    var m := n + 1 + ZeroCount(n);
    assert m % 64 == 56;
    assert (m + 8) % 64 == 0;
  }

  /** Compresses whole blocks one after the other. */
  function Fold<S>(compress: (S, Block64) -> S, h: S, s: Bytes): S
    requires |s| % 64 == 0
    decreases |s|
  {
    if |s| == 0 then h else Fold(compress, compress(h, s[..64]), s[64..])
  }

  /** The state after a padded message. */
  function Hashed<S>(compress: (S, Block64) -> S, h: S, message: Bytes): S {
    Fold(compress, h, message + Padding(|message|))
  }

  lemma {:induction false} FoldConcat<S>(compress: (S, Block64) -> S, h: S, a: Bytes, b: Bytes)
    requires |a| % 64 == 0 && |b| % 64 == 0
    ensures (|a| + |b|) % 64 == 0
    ensures Fold(compress, h, a + b) == Fold(compress, Fold(compress, h, a), b)
    decreases |a|
  {
    if |a| == 0 {
      assert a + b == b;
    } else {
      assert (a + b)[..64] == a[..64] && (a + b)[64..] == a[64..] + b;
      FoldConcat(compress, compress(h, a[..64]), a[64..], b);
    }
  }

  lemma {:induction false} FoldOne<S>(compress: (S, Block64) -> S, h: S, a: Bytes, block: Bytes)
    requires |a| % 64 == 0 && |block| == 64
    ensures (|a| + 64) % 64 == 0
    ensures Fold(compress, h, a + block) == compress(Fold(compress, h, a), block)
  {
    FoldConcat(compress, h, a, block);
    assert block[..64] == block && block[64..] == [];
    assert Fold(compress, compress(Fold(compress, h, a), block), []) == compress(Fold(compress, h, a), block);
  }

  /** The hashing context over any compression function. */
  class Context<S> {
    const compress: (S, Block64) -> S
    const start: S
    var h: S
    const buf: array<Byte>
    var bufLen: nat
    var totalLen: nat
    ghost var absorbed: Bytes
    ghost var whole: Bytes

    /** The state covers the whole blocks taken in so far, the buffer the rest. */
    ghost predicate Valid()
      reads this, buf
    {
      && buf.Length == 64 && bufLen < 64
      && |whole| % 64 == 0 && h == Fold(compress, start, whole)
      && absorbed == whole + buf[..bufLen]
    }

    constructor (compress: (S, Block64) -> S, start: S)
      ensures Valid() && fresh(buf) && absorbed == [] && totalLen == 0
      ensures this.compress == compress && this.start == start
    {
      this.compress := compress;
      this.start := start;
      h := start;
      buf := new Byte[64];
      bufLen := 0;
      totalLen := 0;
      absorbed := [];
      whole := [];
    }

    /** Takes in more of the message. */
    method Update(data: Bytes)
      requires Valid()
      modifies this, buf
      ensures Valid() && absorbed == old(absorbed) + data && totalLen == old(totalLen) + |data|
    {
      totalLen := totalLen + |data|;
      var rest := data;
      while |rest| > 0
        invariant Valid() && absorbed + rest == old(absorbed) + data && totalLen == old(totalLen) + |data|
      {
        var take := 64 - bufLen;
        if take > |rest| {
          take := |rest|;
        }
        Absorb(rest[..take]);
        assert rest == rest[..take] + rest[take..];
        rest := rest[take..];
      }
    }

    /** Copies bytes that fit into the buffer, and compresses it when it is full. */
    method Absorb(piece: Bytes)
      requires Valid() && bufLen + |piece| <= 64
      modifies `h, `bufLen, `absorbed, `whole, buf
      ensures Valid() && absorbed == old(absorbed) + piece
    {
      ghost var had := buf[..bufLen];
      forall i | 0 <= i < |piece| {
        buf[bufLen + i] := piece[i];
      }
      bufLen := bufLen + |piece|;
      assert buf[..bufLen] == had + piece;
      absorbed := absorbed + piece;
      assert absorbed == whole + buf[..bufLen];
      if bufLen == 64 {
        FoldOne(compress, start, whole, buf[..]);
        assert buf[..64] == buf[..];
        h := compress(h, buf[..]);
        whole := whole + buf[..];
        bufLen := 0;
      }
    }

    lemma BufferFill()
      requires Valid()
      ensures bufLen == |absorbed| % 64
      ensures bufLen == 0 ==> absorbed == whole
    {
      assert |absorbed| == |whole| + bufLen;
    }

    /** Pads the message and gives the final state. */
    method Finish() returns (state: S)
      requires Valid() && totalLen == |absorbed|
      modifies this, buf
      ensures state == Hashed(compress, start, old(absorbed))
    {
      hide BitCount, Fold;
      ghost var message := absorbed;
      var n := totalLen;
      Update([0x80]);
      ghost var k: nat := 0;
      assert absorbed == message + [0x80] + Zeros(0);
      BufferFill();
      while bufLen != 56
        invariant Valid() && k <= ZeroCount(n) && absorbed == message + [0x80] + Zeros(k)
        invariant bufLen == (n + 1 + k) % 64
        decreases ZeroCount(n) - k
      {
        Update([0]);
        k := k + 1;
        assert Zeros(k) == Zeros(k - 1) + [0];
        assert absorbed == message + [0x80] + Zeros(k);
        BufferFill();
      }
      FewestZeros(n, k);
      Update(BitCount(n));
      assert absorbed == message + Padding(n);
      BufferFill();
      state := h;
    }
  }

  /** The padding loop stops after exactly the number of zeros the standard asks for. */
  lemma FewestZeros(n: nat, k: nat)
    requires k <= ZeroCount(n) && (n + 1 + k) % 64 == 56
    ensures k == ZeroCount(n)
  {
    var z := ZeroCount(n);
    assert (n + 1 + z) % 64 == 56;
    assert (z - k) % 64 == 0;
  }

  function Flatten(chunks: seq<Bytes>): Bytes
    decreases |chunks|
  {
    if |chunks| == 0 then [] else chunks[0] + Flatten(chunks[1..])
  }

  /** However the message is cut into pieces, the result is that of the whole message. */
  method HashChunks<S>(compress: (S, Block64) -> S, start: S, chunks: seq<Bytes>) returns (state: S)
    ensures state == Hashed(compress, start, Flatten(chunks))
  {
    hide Fold, Hashed;
    var ctx := new Context(compress, start);
    for i := 0 to |chunks|
      invariant fresh(ctx) && fresh(ctx.buf) && ctx.Valid() && ctx.totalLen == |ctx.absorbed|
      invariant ctx.compress == compress && ctx.start == start
      invariant ctx.absorbed + Flatten(chunks[i..]) == Flatten(chunks)
    {
      ghost var before := ctx.absorbed;
      ctx.Update(chunks[i]);
      assert chunks[i..][0] == chunks[i] && chunks[i..][1..] == chunks[i + 1..];
      assert (before + chunks[i]) + Flatten(chunks[i + 1..]) == before + (chunks[i] + Flatten(chunks[i + 1..]));
    }
    assert ctx.absorbed == Flatten(chunks);
    state := ctx.Finish();
  }

  /** The digest of a message, given in any pieces: the padded message folded through the compression function of
      the standard, written out as 32 bytes. */
  method Digest(chunks: seq<Bytes>) returns (out: Bytes)
    ensures out == WordBytes(Hashed(Compress, INITIAL, Flatten(chunks)), 8) && |out| == 32
  {
    hide *;
    var state := HashChunks(Compress, INITIAL, chunks);
    out := WriteDigest(state);
  }
}
