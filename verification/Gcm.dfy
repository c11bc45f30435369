/** Authenticated encryption of payloads: the GCM part of tight/src/crypto.cpp.

    The cipher `enc` (AES-256 under the session key) is a parameter: everything here holds whatever it computes. */
module Gcm {
  import opened Octets
  import opened WireFormat
  import opened PacketCodec
  import opened GhashField

  const TAG_SIZE: nat := 16
  const NONCE_SIZE: nat := 12

  lemma XorByteTwice(a: Byte, b: Byte)
    ensures XorByte(XorByte(a, b), b) == a
  {}

  // ---------- Counter mode ----------

  /** Adds one to the last 32 bits of a counter block, modulo 2^32. */
  function Inc32(ctr: Block): Block { ctr[..12] + BeWord(GetWord(ctr[12..]) + 1) }

  function Counter(j0: Block, n: nat): Block
    decreases n
  {
    if n == 0 then j0 else Inc32(Counter(j0, n - 1))
  }

  /** Byte i of the key stream that starts after j0. */
  function KeyByte(enc: Block -> Block, j0: Block, i: nat): Byte { enc(Counter(j0, i / 16 + 1))[i % 16] }

  function Crypted(enc: Block -> Block, j0: Block, s: Bytes): (r: Bytes)
    ensures |r| == |s|
  {
    seq(|s|, i requires 0 <= i < |s| => XorByte(s[i], KeyByte(enc, j0, i)))
  }

  /** Encrypting and decrypting are the same operation. */
  lemma CryptedTwice(enc: Block -> Block, j0: Block, s: Bytes)
    ensures Crypted(enc, j0, Crypted(enc, j0, s)) == s
  {
    hide XorByte, KeyByte;
    var r := Crypted(enc, j0, s);
    forall i | 0 <= i < |s| ensures Crypted(enc, j0, r)[i] == s[i] {
      XorByteTwice(s[i], KeyByte(enc, j0, i));
    }
  }

  function Succ(b: Byte): Byte { b + 1 }

  /** The four carry cases of adding one to a big-endian word, byte by byte from the right. */
  function IncList(a: Byte, b: Byte, c: Byte, d: Byte): (r: Bytes)
    ensures |r| == 4
  {
    if Succ(d) != 0 then [a, b, c, Succ(d)]
    else if Succ(c) != 0 then [a, b, Succ(c), Succ(d)]
    else if Succ(b) != 0 then [a, Succ(b), Succ(c), Succ(d)]
    else [Succ(a), Succ(b), Succ(c), Succ(d)]
  }

  lemma IncBytes(b: Bytes)
    requires |b| == 4
    ensures BeWord(GetWord(b) + 1) == IncList(b[0], b[1], b[2], b[3])
  {}

  /** Adds one at byte i and carries to the left, no further than byte 12. */
  function Carry(s: Bytes, i: nat): (r: Bytes)
    requires 12 <= i < |s|
    ensures |r| == |s|
    decreases i
  {
    var t := s[i := Succ(s[i])];
    if t[i] != 0 || i == 12 then t else Carry(t, i - 1)
  }

  lemma LastFour<T>(s: seq<T>, a: T, b: T, c: T, d: T)
    requires |s| == 16
    ensures s[15 := d][14 := c][13 := b][12 := a] == s[..12] + [a, b, c, d]
    ensures s[15 := d][14 := c][13 := b] == s[..12] + [s[12], b, c, d]
    ensures s[15 := d][14 := c] == s[..12] + [s[12], s[13], c, d]
    ensures s[15 := d] == s[..12] + [s[12], s[13], s[14], d]
  {}

  lemma {:induction false} CarryCases(s: Block)
    ensures Carry(s, 15) == s[..12] + IncList(s[12], s[13], s[14], s[15])
  {
    hide Succ, Carry;
    var a, b, c, d := Succ(s[12]), Succ(s[13]), Succ(s[14]), Succ(s[15]);
    LastFour(s, a, b, c, d);
    CarryOnce(s, 15);
    CarryOnce(s[15 := d], 14);
    CarryOnce(s[15 := d][14 := c], 13);
    CarryOnce(s[15 := d][14 := c][13 := b], 12);
  }

  lemma {:induction false} CarryIsInc32(s: Block)
    ensures Carry(s, 15) == Inc32(s)
  {
    hide BeWord, GetWord, Succ, Carry, IncList;
    IncBytes(s[12..]);
    CarryCases(s);
  }

  lemma CarryOnce(s: Bytes, i: nat)
    requires 12 <= i < |s|
    ensures Carry(s, i) == (var t := s[i := Succ(s[i])]; if Succ(s[i]) != 0 || i == 12 then t else Carry(t, i - 1))
  {
    hide Succ;
  }

  /** Increments the counter in place, carrying from the last byte upwards. */
  method Increment(ctr: array<Byte>)
    requires ctr.Length == 16
    modifies ctr
    ensures ctr[..] == Inc32(old(ctr[..]))
  {
    hide Succ, Inc32;
    CarryIsInc32(ctr[..]);
    var i := 15;
    while i >= 12
      invariant 11 <= i <= 15
      invariant i >= 12 ==> Carry(ctr[..], i) == Carry(old(ctr[..]), 15)
      invariant i == 11 ==> ctr[..] == Carry(old(ctr[..]), 15)
    {
      ghost var s := ctr[..];
      ctr[i] := Succ(ctr[i]);
      assert ctr[..] == s[i := Succ(s[i])];
      if ctr[i] != 0 {
        break;
      }
      i := i - 1;
    }
  }

  /** Writes one block: input and key stream added, up to the end of the message. */
  method CryptBlock(input: Bytes, pos: nat, take: nat, ks: Block, out: array<Byte>, ghost r: Bytes)
    requires |input| == out.Length == |r| && pos + take <= |input| && take <= 16
    requires forall i :: 0 <= i < take ==> r[pos + i] == XorByte(input[pos + i], ks[i])
    requires out[..pos] == r[..pos]
    modifies out
    ensures out[..pos + take] == r[..pos + take]
  {
    hide XorByte;
    for i := 0 to take
      invariant out[..pos + i] == r[..pos + i]
    {
      out[pos + i] := XorByte(input[pos + i], ks[i]);
      assert out[..pos + i + 1] == out[..pos + i] + [out[pos + i]];
    }
  }

  /** Counter mode over a message, block by block. */
  method Crypt(enc: Block -> Block, j0: Block, input: Bytes) returns (out: array<Byte>)
    ensures fresh(out) && out[..] == Crypted(enc, j0, input)
  {
    hide Inc32, XorByte, Crypted;
    out := new Byte[|input|];
    var ctr := new Byte[16](i requires 0 <= i < 16 => j0[i]);
    assert ctr[..] == j0;
    ghost var r := Crypted(enc, j0, input);
    var pos, n: nat := 0, 0;
    while pos < |input|
      invariant pos <= |input| && fresh(out) && fresh(ctr) && out != ctr
      invariant pos == 16 * n || pos == |input|
      invariant ctr[..] == Counter(j0, n)
      invariant out[..pos] == r[..pos]
    {
      Increment(ctr);
      n := n + 1;
      var take := if |input| - pos < 16 then |input| - pos else 16;
      assert ctr[..] == Counter(j0, n);
      BlockOfStream(enc, j0, input, pos, n, take);
      CryptBlock(input, pos, take, enc(ctr[..]), out, r);
      pos := pos + take;
    }
    assert out[..] == out[..pos] && r == r[..pos];
  }

  lemma {:induction false} BlockOfStream(enc: Block -> Block, j0: Block, s: Bytes, pos: nat, n: nat, take: nat)
    requires n > 0 && take <= 16 && pos == 16 * (n - 1) && pos + take <= |s|
    ensures forall i :: 0 <= i < take ==> Crypted(enc, j0, s)[pos + i] == XorByte(s[pos + i], enc(Counter(j0, n))[i])
  {
    hide XorByte, Counter;
    forall i | 0 <= i < take
      ensures Crypted(enc, j0, s)[pos + i] == XorByte(s[pos + i], enc(Counter(j0, n))[i])
    {
      Position(n - 1, i);
    }
  }

  lemma Position(n: nat, i: nat)
    requires i < 16
    ensures (16 * n + i) / 16 == n && (16 * n + i) % 16 == i
  {}

  // ---------- The authentication tag ----------

  /** The bytes filled up with zeros to whole blocks. */
  function Padded(s: Bytes): (r: Bytes)
    ensures |r| % 16 == 0 && |s| <= |r| && r[..|s|] == s
  {
    if |s| % 16 == 0 then s else s + Zeros(16 - |s| % 16)
  }

  /** GHASH of whole blocks, as section 6.4 of NIST SP 800-38D defines it. */
  function Ghash(h: Block, x: Block, s: Bytes): Block
    requires |s| % 16 == 0
    decreases |s|
  {
    if |s| == 0 then x else Ghash(h, GhashMul(XorBlock(x, s[..16]), h), s[16..])
  }

  lemma {:induction false} GhashConcat(h: Block, x: Block, a: Bytes, b: Bytes)
    requires |a| % 16 == 0 && |b| % 16 == 0
    ensures Ghash(h, x, a + b) == Ghash(h, Ghash(h, x, a), b)
    decreases |a|
  {
    hide XorBlock, GhashMul;
    if |a| == 0 {
      assert a + b == b;
    } else {
      assert (a + b)[..16] == a[..16] && (a + b)[16..] == a[16..] + b;
      GhashConcat(h, GhashMul(XorBlock(x, a[..16]), h), a[16..], b);
    }
  }

  /** Absorbs bytes into the hash, filling up a short last block with zeros. */
  method GhashUpdate(h: Block, x: array<Byte>, data: Bytes)
    requires x.Length == 16
    modifies x
    ensures x[..] == Ghash(h, old(x[..]), Padded(data))
  {
    hide XorBlock, Padded, GhashMul;
    var rest := data;
    PaddedSteps(data);
    while |rest| > 0
      invariant Ghash(h, x[..], Padded(rest)) == Ghash(h, old(x[..]), Padded(data))
    {
      PaddedSteps(rest);
      var take := if |rest| < 16 then |rest| else 16;
      var block := new Byte[16](i requires 0 <= i < 16 => if i < take then rest[i] else 0);
      assert block[..] == rest[..take] + Zeros(16 - take);
      AddBlock(x, block);
      Multiply(x, h);
      rest := rest[take..];
    }
    PaddedSteps(rest);
  }

  lemma PaddedSteps(s: Bytes)
    ensures |s| == 0 ==> Padded(s) == []
    ensures |s| > 0 ==> (var take := if |s| < 16 then |s| else 16;
                         && |Padded(s)| >= 16
                         && Padded(s)[..16] == s[..take] + Zeros(16 - take)
                         && Padded(s)[16..] == Padded(s[take..]))
  {
    if |s| >= 16 {
      var z := Zeros(16 - |s| % 16);
      assert (s + z)[..16] == s[..16] && (s + z)[16..] == s[16..] + z;
      assert |s[16..]| % 16 == |s| % 16;
    }
  }

  /** What the tag authenticates: both strings in whole blocks, and their lengths. */
  function TagInput(aad: Bytes, ct: Bytes): (s: Bytes)
    ensures |s| % 16 == 0
  {
    WholeSum(|Padded(aad)|, |Padded(ct)|);
    Padded(aad) + Padded(ct) + (BitCount(|aad|) + BitCount(|ct|))
  }

  lemma WholeSum(a: nat, b: nat)
    requires a % 16 == 0 && b % 16 == 0
    ensures (a + b + 16) % 16 == 0
  {}

  function Tag(enc: Block -> Block, j0: Block, aad: Bytes, ct: Bytes): Block {
    XorBlock(Ghash(enc(Zeros(16)), Zeros(16), TagInput(aad, ct)), enc(j0))
  }

  method ComputeTag(enc: Block -> Block, j0: Block, aad: Bytes, ct: Bytes)
    returns (tag: Block)
    ensures tag == Tag(enc, j0, aad, ct)
  {
    hide XorBlock, Ghash, Padded, BitCount;
    var h := enc(Zeros(16));
    var x := new Byte[16](i => 0);
    assert x[..] == Zeros(16);
    GhashUpdate(h, x, aad);
    GhashUpdate(h, x, ct);
    var lengths := BitCount(|aad|) + BitCount(|ct|);
    WholeBlocks(lengths);
    GhashUpdate(h, x, lengths);
    GhashConcat(h, Zeros(16), Padded(aad), Padded(ct));
    GhashConcat(h, Zeros(16), Padded(aad) + Padded(ct), lengths);
    tag := XorBlock(x[..], enc(j0));
  }

  lemma WholeBlocks(s: Bytes)
    requires |s| % 16 == 0
    ensures Padded(s) == s
  {}

  // ---------- Sealing and opening ----------

  function FirstCounter(nonce: Bytes): Block
    requires |nonce| == NONCE_SIZE
  {
    nonce + [0, 0, 0, 1]
  }

  /** The plaintext, if the tag is right. */
  function Opened(enc: Block -> Block, nonce: Bytes, aad: Bytes, ct: Bytes, tag: Block)
    : Option<Bytes>
    requires |nonce| == NONCE_SIZE
  {
    var j0 := FirstCounter(nonce);
    if Tag(enc, j0, aad, ct) == tag then Some(Crypted(enc, j0, ct)) else None
  }

  method Encrypt(enc: Block -> Block, nonce: Bytes, aad: Bytes, plaintext: Bytes)
    returns (ct: Bytes, tag: Block)
    requires |nonce| == NONCE_SIZE
    ensures |ct| == |plaintext| && Opened(enc, nonce, aad, ct, tag) == Some(plaintext)
    ensures ct == Crypted(enc, FirstCounter(nonce), plaintext)
    ensures tag == Tag(enc, FirstCounter(nonce), aad, ct)
  {
    hide Crypted, Tag;
    var j0 := FirstCounter(nonce);
    var out := Crypt(enc, j0, plaintext);
    ct := out[..];
    tag := ComputeTag(enc, j0, aad, ct);
    CryptedTwice(enc, j0, plaintext);
  }

  method Decrypt(enc: Block -> Block, nonce: Bytes, aad: Bytes, ct: Bytes, tag: Block)
    returns (r: Option<Bytes>)
    requires |nonce| == NONCE_SIZE
    ensures r == Opened(enc, nonce, aad, ct, tag)
  {
    hide Crypted, Tag;
    var j0 := FirstCounter(nonce);
    var computed := ComputeTag(enc, j0, aad, ct);
    var same := SameTag(computed, tag);
    if !same {
      return None;
    }
    var out := Crypt(enc, j0, ct);
    return Some(out[..]);
  }

  lemma XorIsZero(a: Byte, b: Byte)
    ensures XorByte(a, b) == 0 <==> a == b
  {}

  /** Compares two tags without stopping early. */
  method SameTag(computed: Block, tag: Block) returns (same: bool)
    ensures same <==> computed == tag
  {
    hide OrByte, XorByte;
    var diff: Byte := 0;
    for i := 0 to 16
      invariant diff == 0 <==> computed[..i] == tag[..i]
    {
      OrIsZero(diff, XorByte(computed[i], tag[i]));
      XorIsZero(computed[i], tag[i]);
      PrefixGrows(computed, tag, i);
      diff := OrByte(diff, XorByte(computed[i], tag[i]));
    }
    same := diff == 0;
    assert computed[..16] == computed && tag[..16] == tag;
  }

  lemma PrefixGrows<T>(a: seq<T>, b: seq<T>, i: nat)
    requires i < |a| == |b|
    ensures a[..i + 1] == b[..i + 1] <==> a[..i] == b[..i] && a[i] == b[i]
  {
    assert a[..i + 1] == a[..i] + [a[i]] && b[..i + 1] == b[..i] + [b[i]];
  }
}
