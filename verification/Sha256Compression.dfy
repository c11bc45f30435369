/** The compression function of SHA-256: sections 4.1.2 and 6.2.2 of FIPS 180-4, and the loops of
    tight/src/crypto.cpp that compute it. */
module Sha256Compression {
  import opened Octets
  import opened Crc32
  import opened PacketCodec

  type State8 = s: seq<Word> | |s| == 8 witness [0, 0, 0, 0, 0, 0, 0, 0]

  type Block64 = b: Bytes | |b| == 64 witness seq(64, _ => 0)

  const INITIAL: State8 := [0x6a09_e667, 0xbb67_ae85, 0x3c6e_f372, 0xa54f_f53a, 0x510e_527f, 0x9b05_688c, 0x1f83_d9ab, 0x5be0_cd19]

  /** Eight constants of the round table. */
  function ConstantRow(r: nat): (row: seq<Word>)
    ensures |row| == 8
  {
    if r == 0 then [0x428a_2f98, 0x7137_4491, 0xb5c0_fbcf, 0xe9b5_dba5, 0x3956_c25b, 0x59f1_11f1, 0x923f_82a4, 0xab1c_5ed5]
    else if r == 1 then [0xd807_aa98, 0x1283_5b01, 0x2431_85be, 0x550c_7dc3, 0x72be_5d74, 0x80de_b1fe, 0x9bdc_06a7, 0xc19b_f174]
    else if r == 2 then [0xe49b_69c1, 0xefbe_4786, 0x0fc1_9dc6, 0x240c_a1cc, 0x2de9_2c6f, 0x4a74_84aa, 0x5cb0_a9dc, 0x76f9_88da]
    else if r == 3 then [0x983e_5152, 0xa831_c66d, 0xb003_27c8, 0xbf59_7fc7, 0xc6e0_0bf3, 0xd5a7_9147, 0x06ca_6351, 0x1429_2967]
    else if r == 4 then [0x27b7_0a85, 0x2e1b_2138, 0x4d2c_6dfc, 0x5338_0d13, 0x650a_7354, 0x766a_0abb, 0x81c2_c92e, 0x9272_2c85]
    else if r == 5 then [0xa2bf_e8a1, 0xa81a_664b, 0xc24b_8b70, 0xc76c_51a3, 0xd192_e819, 0xd699_0624, 0xf40e_3585, 0x106a_a070]
    else if r == 6 then [0x19a4_c116, 0x1e37_6c08, 0x2748_774c, 0x34b0_bcb5, 0x391c_0cb3, 0x4ed8_aa4a, 0x5b9c_ca4f, 0x682e_6ff3]
    else [0x748f_82ee, 0x78a5_636f, 0x84c8_7814, 0x8cc7_0208, 0x90be_fffa, 0xa450_6ceb, 0xbef9_a3f7, 0xc671_78f2]
  }

  function RoundConstant(i: nat): Word
    requires i < 64
  {
    ConstantRow(i / 8)[i % 8]
  }

  // ---------- The functions of the standard ----------

  function Ch(x: Word, y: Word, z: Word): Word { (x & y) ^ (!x & z) }

  function Maj(x: Word, y: Word, z: Word): Word { (x & y) ^ (x & z) ^ (y & z) }

  // Right rotations by n are written as a shift by n and one by 32 - n the other way.

  function BigSigma0(x: Word): Word { ((x >> 2) | (x << 30)) ^ ((x >> 13) | (x << 19)) ^ ((x >> 22) | (x << 10)) }

  function BigSigma1(x: Word): Word { ((x >> 6) | (x << 26)) ^ ((x >> 11) | (x << 21)) ^ ((x >> 25) | (x << 7)) }

  function SmallSigma0(x: Word): Word { ((x >> 7) | (x << 25)) ^ ((x >> 18) | (x << 14)) ^ (x >> 3) }

  function SmallSigma1(x: Word): Word { ((x >> 17) | (x << 15)) ^ ((x >> 19) | (x << 13)) ^ (x >> 10) }

  /** Word t of the message schedule. */
  function Schedule(block: Block64, t: nat): Word
    decreases t
  {
    if t < 16 then GetWord(block[4 * t..4 * t + 4])
    else AddWord(AddWord(AddWord(Schedule(block, t - 16), SmallSigma0(Schedule(block, t - 15))), Schedule(block, t - 7)),
                 SmallSigma1(Schedule(block, t - 2)))
  }

  /** One round on the working variables a, ..., h. */
  function Round(s: State8, k: Word, w: Word): State8 {
    var t1 := AddWord(AddWord(AddWord(AddWord(s[7], BigSigma1(s[4])), Ch(s[4], s[5], s[6])), k), w);
    var t2 := AddWord(BigSigma0(s[0]), Maj(s[0], s[1], s[2]));
    [AddWord(t1, t2), s[0], s[1], s[2], AddWord(s[3], t1), s[4], s[5], s[6]]
  }

  function Rounds(h: State8, block: Block64, t: nat): State8
    requires t <= 64
    decreases t
  {
    if t == 0 then h else Round(Rounds(h, block, t - 1), RoundConstant(t - 1), Schedule(block, t - 1))
  }

  function AddWord(a: Word, b: Word): Word { a + b }

  function AddStates(h: State8, s: State8): State8 {
    [AddWord(h[0], s[0]), AddWord(h[1], s[1]), AddWord(h[2], s[2]), AddWord(h[3], s[3]),
     AddWord(h[4], s[4]), AddWord(h[5], s[5]), AddWord(h[6], s[6]), AddWord(h[7], s[7])]
  }

  /** 64 rounds, added to the state. */
  function Compress(h: State8, block: Block64): State8 { AddStates(h, Rounds(h, block, |block|)) }

  // ---------- The loops ----------

  method BuildSchedule(block: Block64) returns (w: array<Word>)
    ensures fresh(w) && w.Length == 64 && forall t :: 0 <= t < 64 ==> w[t] == Schedule(block, t)
  {
    hide Schedule, AddWord, SmallSigma0, SmallSigma1, GetWord;
    w := new Word[64];
    for i := 0 to 16
      invariant forall t :: 0 <= t < i ==> w[t] == Schedule(block, t)
    {
      ScheduleStarts(block, i);
      w[i] := GetWord(block[i * 4..i * 4 + 4]);
    }
    for i := 16 to 64
      invariant forall t :: 0 <= t < i ==> w[t] == Schedule(block, t)
    {
      ScheduleGoesOn(block, i);
      w[i] := AddWord(AddWord(AddWord(w[i - 16], SmallSigma0(w[i - 15])), w[i - 7]), SmallSigma1(w[i - 2]));
    }
  }

  lemma {:induction false} ScheduleStarts(block: Block64, t: nat)
    requires t < 16
    ensures Schedule(block, t) == GetWord(block[4 * t..4 * t + 4])
  {
    hide AddWord, SmallSigma0, SmallSigma1, GetWord;
  }

  lemma {:induction false} ScheduleGoesOn(block: Block64, t: nat)
    requires 16 <= t
    ensures Schedule(block, t) == AddWord(AddWord(AddWord(Schedule(block, t - 16), SmallSigma0(Schedule(block, t - 15))),
                                                  Schedule(block, t - 7)), SmallSigma1(Schedule(block, t - 2)))
  {
    hide AddWord, SmallSigma0, SmallSigma1, GetWord;
  }

  lemma RoundOf(a: Word, b: Word, c: Word, d: Word, e: Word, f: Word, g: Word, hh: Word, k: Word, w: Word)
    ensures var t1 := AddWord(AddWord(AddWord(AddWord(hh, BigSigma1(e)), Ch(e, f, g)), k), w);
            var t2 := AddWord(BigSigma0(a), Maj(a, b, c));
            Round([a, b, c, d, e, f, g, hh], k, w) == [AddWord(t1, t2), a, b, c, AddWord(d, t1), e, f, g]
  {
    hide AddWord, BigSigma0, BigSigma1, Ch, Maj;
  }

  lemma {:induction false} RoundsStep(h: State8, block: Block64, t: nat)
    requires t < 64
    ensures Rounds(h, block, 0) == h
    ensures Rounds(h, block, t + 1) == Round(Rounds(h, block, t), RoundConstant(t), Schedule(block, t))
  {
    hide Round, RoundConstant, Schedule;
  }

  /** One turn of the loop over the eight working variables. */
  method Turn(a: Word, b: Word, c: Word, d: Word, e: Word, f: Word, g: Word, hh: Word, k: Word, w: Word, ghost s: State8)
    returns (a': Word, b': Word, c': Word, d': Word, e': Word, f': Word, g': Word, hh': Word)
    requires s == [a, b, c, d, e, f, g, hh]
    ensures [a', b', c', d', e', f', g', hh'] == Round(s, k, w)
  {
    hide AddWord, BigSigma0, BigSigma1, Ch, Maj, Round;
    RoundOf(a, b, c, d, e, f, g, hh, k, w);
    var t1 := AddWord(AddWord(AddWord(AddWord(hh, BigSigma1(e)), Ch(e, f, g)), k), w);
    var t2 := AddWord(BigSigma0(a), Maj(a, b, c));
    hh', g', f', e' := g, f, e, AddWord(d, t1);
    d', c', b', a' := c, b, a, AddWord(t1, t2);
  }

  method CompressBlock(h: State8, block: Block64) returns (r: State8)
    ensures r == Compress(h, block)
  {
    hide Schedule, AddWord, RoundConstant, Rounds, Round, AddStates;
    var built := BuildSchedule(block);
    var w := built[..];
    var a, b, c, d, e, f, g, hh := h[0], h[1], h[2], h[3], h[4], h[5], h[6], h[7];
    ghost var s: State8 := h;
    assert s == [a, b, c, d, e, f, g, hh];
    RoundsStep(h, block, 0);
    for i := 0 to 64
      invariant s == [a, b, c, d, e, f, g, hh] && s == Rounds(h, block, i)
    {
      RoundsStep(h, block, i);
      a, b, c, d, e, f, g, hh := Turn(a, b, c, d, e, f, g, hh, RoundConstant(i), w[i], s);
      s := Round(s, RoundConstant(i), w[i]);
    }
    r := AddUp(h, a, b, c, d, e, f, g, hh, s);
  }

  /** Adds the working variables to the state. */
  method AddUp(h: State8, a: Word, b: Word, c: Word, d: Word, e: Word, f: Word, g: Word, hh: Word, ghost s: State8)
    returns (r: State8)
    requires s == [a, b, c, d, e, f, g, hh]
    ensures r == AddStates(h, s)
  {
    hide AddWord;
    r := [AddWord(h[0], a), AddWord(h[1], b), AddWord(h[2], c), AddWord(h[3], d),
          AddWord(h[4], e), AddWord(h[5], f), AddWord(h[6], g), AddWord(h[7], hh)];
  }

  // ---------- The digest ----------

  /** The first n words of a state, most significant byte first. */
  function WordBytes(h: State8, n: nat): (b: Bytes)
    requires n <= 8
    ensures |b| == 4 * n
    decreases n
  {
    if n == 0 then [] else WordBytes(h, n - 1) + BeWord(h[n - 1])
  }

  method WriteDigest(h: State8) returns (out: Bytes)
    ensures out == WordBytes(h, |h|)
  {
    hide BeWord;
    out := [];
    for i := 0 to |h|
      invariant out == WordBytes(h, i)
    {
      out := out + BeWord(h[i]);
    }
  }
}
