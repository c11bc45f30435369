/** The constants of SHA-256 and its example: the initial state and the round constants of tight/src/crypto.cpp are the
    root bits that sections 5.3.3 and 4.2.2 of FIPS 180-4 prescribe, and the digest of "abc" is the one published with
    the standard. */
module Sha256Example {
  import opened Octets
  import opened WireFormat
  import opened Crc32
  import opened PacketCodec
  import opened Sha256Compression
  import opened Sha256

  // ---------- The constants ----------

  const B: nat := 0x1_0000_0000

  /** The first 32 bits of the fractional part of the square root of p, whose whole part is a. */
  predicate SquareRootBits(p: nat, a: nat, k: nat) {
    var r := a * B + k;
    k < B && r * r <= p * (B * B) < (r + 1) * (r + 1)
  }

  /** The same for the cube root. */
  predicate CubeRootBits(p: nat, a: nat, k: nat) {
    var r := a * B + k;
    k < B && r * r * r <= p * (B * B * B) < (r + 1) * (r + 1) * (r + 1)
  }

  function Number(x: Word): nat { x as nat }

  /** The initial words come from the square roots of the first eight primes. */
  lemma InitialIsRoots()
    ensures SquareRootBits(2, 1, Number(INITIAL[0]))
    ensures SquareRootBits(3, 1, Number(INITIAL[1]))
    ensures SquareRootBits(5, 2, Number(INITIAL[2]))
    ensures SquareRootBits(7, 2, Number(INITIAL[3]))
    ensures SquareRootBits(11, 3, Number(INITIAL[4]))
    ensures SquareRootBits(13, 3, Number(INITIAL[5]))
    ensures SquareRootBits(17, 4, Number(INITIAL[6]))
    ensures SquareRootBits(19, 4, Number(INITIAL[7]))
  {}

  /** Round constants 0 to 7 come from the cube roots of the primes 2 to 19. */
  lemma ConstantsFrom0()
    ensures RoundConstant(0) == 0x428a_2f98
    ensures RoundConstant(1) == 0x7137_4491
    ensures RoundConstant(2) == 0xb5c0_fbcf
    ensures RoundConstant(3) == 0xe9b5_dba5
    ensures RoundConstant(4) == 0x3956_c25b
    ensures RoundConstant(5) == 0x59f1_11f1
    ensures RoundConstant(6) == 0x923f_82a4
    ensures RoundConstant(7) == 0xab1c_5ed5
    ensures CubeRootBits(2, 1, Number(RoundConstant(0)))
    ensures CubeRootBits(3, 1, Number(RoundConstant(1)))
    ensures CubeRootBits(5, 1, Number(RoundConstant(2)))
    ensures CubeRootBits(7, 1, Number(RoundConstant(3)))
    ensures CubeRootBits(11, 2, Number(RoundConstant(4)))
    ensures CubeRootBits(13, 2, Number(RoundConstant(5)))
    ensures CubeRootBits(17, 2, Number(RoundConstant(6)))
    ensures CubeRootBits(19, 2, Number(RoundConstant(7)))
  {}

  /** Round constants 8 to 15 come from the cube roots of the primes 23 to 53. */
  lemma ConstantsFrom8()
    ensures RoundConstant(8) == 0xd807_aa98
    ensures RoundConstant(9) == 0x1283_5b01
    ensures RoundConstant(10) == 0x2431_85be
    ensures RoundConstant(11) == 0x550c_7dc3
    ensures RoundConstant(12) == 0x72be_5d74
    ensures RoundConstant(13) == 0x80de_b1fe
    ensures RoundConstant(14) == 0x9bdc_06a7
    ensures RoundConstant(15) == 0xc19b_f174
    ensures CubeRootBits(23, 2, Number(RoundConstant(8)))
    ensures CubeRootBits(29, 3, Number(RoundConstant(9)))
    ensures CubeRootBits(31, 3, Number(RoundConstant(10)))
    ensures CubeRootBits(37, 3, Number(RoundConstant(11)))
    ensures CubeRootBits(41, 3, Number(RoundConstant(12)))
    ensures CubeRootBits(43, 3, Number(RoundConstant(13)))
    ensures CubeRootBits(47, 3, Number(RoundConstant(14)))
    ensures CubeRootBits(53, 3, Number(RoundConstant(15)))
  {}

  /** Round constants 16 to 23 come from the cube roots of the primes 59 to 89. */
  lemma ConstantsFrom16()
    ensures RoundConstant(16) == 0xe49b_69c1
    ensures RoundConstant(17) == 0xefbe_4786
    ensures RoundConstant(18) == 0x0fc1_9dc6
    ensures RoundConstant(19) == 0x240c_a1cc
    ensures RoundConstant(20) == 0x2de9_2c6f
    ensures RoundConstant(21) == 0x4a74_84aa
    ensures RoundConstant(22) == 0x5cb0_a9dc
    ensures RoundConstant(23) == 0x76f9_88da
    ensures CubeRootBits(59, 3, Number(RoundConstant(16)))
    ensures CubeRootBits(61, 3, Number(RoundConstant(17)))
    ensures CubeRootBits(67, 4, Number(RoundConstant(18)))
    ensures CubeRootBits(71, 4, Number(RoundConstant(19)))
    ensures CubeRootBits(73, 4, Number(RoundConstant(20)))
    ensures CubeRootBits(79, 4, Number(RoundConstant(21)))
    ensures CubeRootBits(83, 4, Number(RoundConstant(22)))
    ensures CubeRootBits(89, 4, Number(RoundConstant(23)))
  {}

  /** Round constants 24 to 31 come from the cube roots of the primes 97 to 131. */
  lemma ConstantsFrom24()
    ensures RoundConstant(24) == 0x983e_5152
    ensures RoundConstant(25) == 0xa831_c66d
    ensures RoundConstant(26) == 0xb003_27c8
    ensures RoundConstant(27) == 0xbf59_7fc7
    ensures RoundConstant(28) == 0xc6e0_0bf3
    ensures RoundConstant(29) == 0xd5a7_9147
    ensures RoundConstant(30) == 0x06ca_6351
    ensures RoundConstant(31) == 0x1429_2967
    ensures CubeRootBits(97, 4, Number(RoundConstant(24)))
    ensures CubeRootBits(101, 4, Number(RoundConstant(25)))
    ensures CubeRootBits(103, 4, Number(RoundConstant(26)))
    ensures CubeRootBits(107, 4, Number(RoundConstant(27)))
    ensures CubeRootBits(109, 4, Number(RoundConstant(28)))
    ensures CubeRootBits(113, 4, Number(RoundConstant(29)))
    ensures CubeRootBits(127, 5, Number(RoundConstant(30)))
    ensures CubeRootBits(131, 5, Number(RoundConstant(31)))
  {}

  /** Round constants 32 to 39 come from the cube roots of the primes 137 to 173. */
  lemma ConstantsFrom32()
    ensures RoundConstant(32) == 0x27b7_0a85
    ensures RoundConstant(33) == 0x2e1b_2138
    ensures RoundConstant(34) == 0x4d2c_6dfc
    ensures RoundConstant(35) == 0x5338_0d13
    ensures RoundConstant(36) == 0x650a_7354
    ensures RoundConstant(37) == 0x766a_0abb
    ensures RoundConstant(38) == 0x81c2_c92e
    ensures RoundConstant(39) == 0x9272_2c85
    ensures CubeRootBits(137, 5, Number(RoundConstant(32)))
    ensures CubeRootBits(139, 5, Number(RoundConstant(33)))
    ensures CubeRootBits(149, 5, Number(RoundConstant(34)))
    ensures CubeRootBits(151, 5, Number(RoundConstant(35)))
    ensures CubeRootBits(157, 5, Number(RoundConstant(36)))
    ensures CubeRootBits(163, 5, Number(RoundConstant(37)))
    ensures CubeRootBits(167, 5, Number(RoundConstant(38)))
    ensures CubeRootBits(173, 5, Number(RoundConstant(39)))
  {}

  /** Round constants 40 to 47 come from the cube roots of the primes 179 to 223. */
  lemma ConstantsFrom40()
    ensures RoundConstant(40) == 0xa2bf_e8a1
    ensures RoundConstant(41) == 0xa81a_664b
    ensures RoundConstant(42) == 0xc24b_8b70
    ensures RoundConstant(43) == 0xc76c_51a3
    ensures RoundConstant(44) == 0xd192_e819
    ensures RoundConstant(45) == 0xd699_0624
    ensures RoundConstant(46) == 0xf40e_3585
    ensures RoundConstant(47) == 0x106a_a070
    ensures CubeRootBits(179, 5, Number(RoundConstant(40)))
    ensures CubeRootBits(181, 5, Number(RoundConstant(41)))
    ensures CubeRootBits(191, 5, Number(RoundConstant(42)))
    ensures CubeRootBits(193, 5, Number(RoundConstant(43)))
    ensures CubeRootBits(197, 5, Number(RoundConstant(44)))
    ensures CubeRootBits(199, 5, Number(RoundConstant(45)))
    ensures CubeRootBits(211, 5, Number(RoundConstant(46)))
    ensures CubeRootBits(223, 6, Number(RoundConstant(47)))
  {}

  /** Round constants 48 to 55 come from the cube roots of the primes 227 to 263. */
  lemma ConstantsFrom48()
    ensures RoundConstant(48) == 0x19a4_c116
    ensures RoundConstant(49) == 0x1e37_6c08
    ensures RoundConstant(50) == 0x2748_774c
    ensures RoundConstant(51) == 0x34b0_bcb5
    ensures RoundConstant(52) == 0x391c_0cb3
    ensures RoundConstant(53) == 0x4ed8_aa4a
    ensures RoundConstant(54) == 0x5b9c_ca4f
    ensures RoundConstant(55) == 0x682e_6ff3
    ensures CubeRootBits(227, 6, Number(RoundConstant(48)))
    ensures CubeRootBits(229, 6, Number(RoundConstant(49)))
    ensures CubeRootBits(233, 6, Number(RoundConstant(50)))
    ensures CubeRootBits(239, 6, Number(RoundConstant(51)))
    ensures CubeRootBits(241, 6, Number(RoundConstant(52)))
    ensures CubeRootBits(251, 6, Number(RoundConstant(53)))
    ensures CubeRootBits(257, 6, Number(RoundConstant(54)))
    ensures CubeRootBits(263, 6, Number(RoundConstant(55)))
  {}

  /** Round constants 56 to 63 come from the cube roots of the primes 269 to 311. */
  lemma ConstantsFrom56()
    ensures RoundConstant(56) == 0x748f_82ee
    ensures RoundConstant(57) == 0x78a5_636f
    ensures RoundConstant(58) == 0x84c8_7814
    ensures RoundConstant(59) == 0x8cc7_0208
    ensures RoundConstant(60) == 0x90be_fffa
    ensures RoundConstant(61) == 0xa450_6ceb
    ensures RoundConstant(62) == 0xbef9_a3f7
    ensures RoundConstant(63) == 0xc671_78f2
    ensures CubeRootBits(269, 6, Number(RoundConstant(56)))
    ensures CubeRootBits(271, 6, Number(RoundConstant(57)))
    ensures CubeRootBits(277, 6, Number(RoundConstant(58)))
    ensures CubeRootBits(281, 6, Number(RoundConstant(59)))
    ensures CubeRootBits(283, 6, Number(RoundConstant(60)))
    ensures CubeRootBits(293, 6, Number(RoundConstant(61)))
    ensures CubeRootBits(307, 6, Number(RoundConstant(62)))
    ensures CubeRootBits(311, 6, Number(RoundConstant(63)))
  {}

  // ---------- The example ----------

  const ABC: Bytes := [0x61, 0x62, 0x63]

  /** The one block of the padded message. */
  function AbcBlock(): Block64 { ABC + Padding(|ABC|) }

  lemma AbcBytes()
    ensures AbcBlock()[0..4] == [0x61, 0x62, 0x63, 0x80] && AbcBlock()[60..64] == [0, 0, 0, 24]
    ensures forall i :: 4 <= i < 60 ==> AbcBlock()[i] == 0
  {
    assert |ABC| == 3 && ZeroCount(3) == 52;
    LengthBytes();
    hide BitCount;
    assert AbcBlock() == [0x61, 0x62, 0x63, 0x80] + Zeros(52) + [0, 0, 0, 0, 0, 0, 0, 24];
  }

  lemma LengthBytes()
    ensures BitCount(3) == [0, 0, 0, 0, 0, 0, 0, 24]
  {
    assert ByteOf(0) == 0 && ByteOf(24) == 24;
    hide ByteOf;
  }

  lemma EndWords()
    ensures GetWord([0x61, 0x62, 0x63, 0x80]) == 0x6162_6380 && GetWord([0, 0, 0, 0]) == 0 && GetWord([0, 0, 0, 24]) == 24
  {}

  lemma {:induction false} FirstWords(b: Block64)
    requires b == AbcBlock()
    ensures Schedule(b, 0) == 0x6162_6380
    ensures Schedule(b, 1) == 0x0000_0000
    ensures Schedule(b, 2) == 0x0000_0000
    ensures Schedule(b, 3) == 0x0000_0000
    ensures Schedule(b, 4) == 0x0000_0000
    ensures Schedule(b, 5) == 0x0000_0000
    ensures Schedule(b, 6) == 0x0000_0000
    ensures Schedule(b, 7) == 0x0000_0000
    ensures Schedule(b, 8) == 0x0000_0000
    ensures Schedule(b, 9) == 0x0000_0000
    ensures Schedule(b, 10) == 0x0000_0000
    ensures Schedule(b, 11) == 0x0000_0000
    ensures Schedule(b, 12) == 0x0000_0000
    ensures Schedule(b, 13) == 0x0000_0000
    ensures Schedule(b, 14) == 0x0000_0000
    ensures Schedule(b, 15) == 0x0000_0018
  {
    AbcBytes();
    EndWords();
    hide GetWord, Schedule, AbcBlock;
    forall t | 0 <= t < 16 ensures Schedule(b, t) == if t == 0 then 0x6162_6380 else if t == 15 then 24 else 0 {
      ScheduleStarts(b, t);
      if 0 < t < 15 {
        assert b[4 * t..4 * t + 4] == [0, 0, 0, 0];
      }
    }
  }

  lemma {:induction false} WordsFrom16(b: Block64)
    requires b == AbcBlock()
    ensures Schedule(b, 16) == 0x6162_6380
    ensures Schedule(b, 17) == 0x000f_0000
    ensures Schedule(b, 18) == 0x7da8_6405
    ensures Schedule(b, 19) == 0x6000_03c6
    ensures Schedule(b, 20) == 0x3e9d_7b78
    ensures Schedule(b, 21) == 0x0183_fc00
    ensures Schedule(b, 22) == 0x12dc_bfdb
    ensures Schedule(b, 23) == 0xe2e2_c38e
  {
    hide Schedule, AbcBlock;
    FirstWords(b);
    ScheduleGoesOn(b, 16);
    ScheduleGoesOn(b, 17);
    ScheduleGoesOn(b, 18);
    ScheduleGoesOn(b, 19);
    ScheduleGoesOn(b, 20);
    ScheduleGoesOn(b, 21);
    ScheduleGoesOn(b, 22);
    ScheduleGoesOn(b, 23);
  }

  lemma {:induction false} WordsFrom24(b: Block64)
    requires b == AbcBlock()
    ensures Schedule(b, 24) == 0xc821_5c1a
    ensures Schedule(b, 25) == 0xb736_79a2
    ensures Schedule(b, 26) == 0xe5bc_3909
    ensures Schedule(b, 27) == 0x3266_3c5b
    ensures Schedule(b, 28) == 0x9d20_9d67
    ensures Schedule(b, 29) == 0xec87_26cb
    ensures Schedule(b, 30) == 0x7021_38a4
    ensures Schedule(b, 31) == 0xd3b7_973b
  {
    hide Schedule, AbcBlock;
    FirstWords(b);
    WordsFrom16(b);
    ScheduleGoesOn(b, 24);
    ScheduleGoesOn(b, 25);
    ScheduleGoesOn(b, 26);
    ScheduleGoesOn(b, 27);
    ScheduleGoesOn(b, 28);
    ScheduleGoesOn(b, 29);
    ScheduleGoesOn(b, 30);
    ScheduleGoesOn(b, 31);
  }

  lemma {:induction false} WordsFrom32(b: Block64)
    requires b == AbcBlock()
    ensures Schedule(b, 32) == 0x93f5_997f
    ensures Schedule(b, 33) == 0x3b68_ba73
    ensures Schedule(b, 34) == 0xaff4_ffc1
    ensures Schedule(b, 35) == 0xf10a_5c62
    ensures Schedule(b, 36) == 0x0a8b_3996
    ensures Schedule(b, 37) == 0x72af_830a
    ensures Schedule(b, 38) == 0x9409_e33e
    ensures Schedule(b, 39) == 0x2464_1522
  {
    hide Schedule, AbcBlock;
    WordsFrom16(b);
    WordsFrom24(b);
    ScheduleGoesOn(b, 32);
    ScheduleGoesOn(b, 33);
    ScheduleGoesOn(b, 34);
    ScheduleGoesOn(b, 35);
    ScheduleGoesOn(b, 36);
    ScheduleGoesOn(b, 37);
    ScheduleGoesOn(b, 38);
    ScheduleGoesOn(b, 39);
  }

  lemma {:induction false} WordsFrom40(b: Block64)
    requires b == AbcBlock()
    ensures Schedule(b, 40) == 0x9f47_bf94
    ensures Schedule(b, 41) == 0xf0a6_4f5a
    ensures Schedule(b, 42) == 0x3e24_6a79
    ensures Schedule(b, 43) == 0x2733_3ba3
    ensures Schedule(b, 44) == 0x0c47_63f2
    ensures Schedule(b, 45) == 0x840a_bf27
    ensures Schedule(b, 46) == 0x7a29_0d5d
    ensures Schedule(b, 47) == 0x065c_43da
  {
    hide Schedule, AbcBlock;
    WordsFrom24(b);
    WordsFrom32(b);
    ScheduleGoesOn(b, 40);
    ScheduleGoesOn(b, 41);
    ScheduleGoesOn(b, 42);
    ScheduleGoesOn(b, 43);
    ScheduleGoesOn(b, 44);
    ScheduleGoesOn(b, 45);
    ScheduleGoesOn(b, 46);
    ScheduleGoesOn(b, 47);
  }

  lemma {:induction false} WordsFrom48(b: Block64)
    requires b == AbcBlock()
    ensures Schedule(b, 48) == 0xfb3e_89cb
    ensures Schedule(b, 49) == 0xcc76_17db
    ensures Schedule(b, 50) == 0xb9e6_6c34
    ensures Schedule(b, 51) == 0xa999_3667
    ensures Schedule(b, 52) == 0x84ba_dedd
    ensures Schedule(b, 53) == 0xc214_62bc
    ensures Schedule(b, 54) == 0x1487_472c
    ensures Schedule(b, 55) == 0xb20f_7a99
  {
    hide Schedule, AbcBlock;
    WordsFrom32(b);
    WordsFrom40(b);
    ScheduleGoesOn(b, 48);
    ScheduleGoesOn(b, 49);
    ScheduleGoesOn(b, 50);
    ScheduleGoesOn(b, 51);
    ScheduleGoesOn(b, 52);
    ScheduleGoesOn(b, 53);
    ScheduleGoesOn(b, 54);
    ScheduleGoesOn(b, 55);
  }

  lemma {:induction false} WordsFrom56(b: Block64)
    requires b == AbcBlock()
    ensures Schedule(b, 56) == 0xef57_b9cd
    ensures Schedule(b, 57) == 0xebe6_b238
    ensures Schedule(b, 58) == 0x9fe3_095e
    ensures Schedule(b, 59) == 0x78bc_8d4b
    ensures Schedule(b, 60) == 0xa43f_cf15
    ensures Schedule(b, 61) == 0x668b_2ff8
    ensures Schedule(b, 62) == 0xeeab_a2cc
    ensures Schedule(b, 63) == 0x12b1_edeb
  {
    hide Schedule, AbcBlock;
    WordsFrom40(b);
    WordsFrom48(b);
    ScheduleGoesOn(b, 56);
    ScheduleGoesOn(b, 57);
    ScheduleGoesOn(b, 58);
    ScheduleGoesOn(b, 59);
    ScheduleGoesOn(b, 60);
    ScheduleGoesOn(b, 61);
    ScheduleGoesOn(b, 62);
    ScheduleGoesOn(b, 63);
  }

  lemma {:induction false} RoundsTo8(b: Block64)
    requires b == AbcBlock()
    ensures Rounds(INITIAL, b, 8) ==
            [0x85a0_7b5f, 0xe503_0380, 0x2b42_09f5, 0x0440_9a6a, 0x0c65_7a79, 0x9b27_a401, 0x7142_60ad, 0x43ad_a245]
  {
    hide Schedule, AbcBlock, Rounds, RoundConstant, Number, CubeRootBits;
    ConstantsFrom0();
    FirstWords(b);
    RoundsStep(INITIAL, b, 0);
    RoundsStep(INITIAL, b, 0);
    RoundsStep(INITIAL, b, 1);
    RoundsStep(INITIAL, b, 2);
    RoundsStep(INITIAL, b, 3);
    RoundsStep(INITIAL, b, 4);
    RoundsStep(INITIAL, b, 5);
    RoundsStep(INITIAL, b, 6);
    RoundsStep(INITIAL, b, 7);
  }

  lemma {:induction false} RoundsTo16(b: Block64)
    requires b == AbcBlock()
    ensures Rounds(INITIAL, b, 16) ==
            [0xb0fa_238e, 0xc064_5fde, 0xd932_eb16, 0x8791_2990, 0x0759_0dcd, 0x0b92_f20c, 0x745a_48de, 0x1e57_8218]
  {
    hide Schedule, AbcBlock, Rounds, RoundConstant, Number, CubeRootBits;
    ConstantsFrom8();
    FirstWords(b);
    RoundsTo8(b);
    RoundsStep(INITIAL, b, 8);
    RoundsStep(INITIAL, b, 9);
    RoundsStep(INITIAL, b, 10);
    RoundsStep(INITIAL, b, 11);
    RoundsStep(INITIAL, b, 12);
    RoundsStep(INITIAL, b, 13);
    RoundsStep(INITIAL, b, 14);
    RoundsStep(INITIAL, b, 15);
  }

  lemma {:induction false} RoundsTo24(b: Block64)
    requires b == AbcBlock()
    ensures Rounds(INITIAL, b, 24) ==
            [0xc5d5_3d8d, 0xa7a3_623f, 0xc260_6d6d, 0x9dc6_8b63, 0xaa47_c347, 0x49f5_114a, 0xe125_7970, 0x8ada_8930]
  {
    hide Schedule, AbcBlock, Rounds, RoundConstant, Number, CubeRootBits;
    ConstantsFrom16();
    WordsFrom16(b);
    RoundsTo16(b);
    RoundsStep(INITIAL, b, 16);
    RoundsStep(INITIAL, b, 17);
    RoundsStep(INITIAL, b, 18);
    RoundsStep(INITIAL, b, 19);
    RoundsStep(INITIAL, b, 20);
    RoundsStep(INITIAL, b, 21);
    RoundsStep(INITIAL, b, 22);
    RoundsStep(INITIAL, b, 23);
  }

  lemma {:induction false} RoundsTo32(b: Block64)
    requires b == AbcBlock()
    ensures Rounds(INITIAL, b, 32) ==
            [0x73b3_3bf5, 0xea99_2a22, 0xa006_0b30, 0x3634_82c9, 0xba59_1112, 0x0109_ab3a, 0xade7_9437, 0x6112_a3b7]
  {
    hide Schedule, AbcBlock, Rounds, RoundConstant, Number, CubeRootBits;
    ConstantsFrom24();
    WordsFrom24(b);
    RoundsTo24(b);
    RoundsStep(INITIAL, b, 24);
    RoundsStep(INITIAL, b, 25);
    RoundsStep(INITIAL, b, 26);
    RoundsStep(INITIAL, b, 27);
    RoundsStep(INITIAL, b, 28);
    RoundsStep(INITIAL, b, 29);
    RoundsStep(INITIAL, b, 30);
    RoundsStep(INITIAL, b, 31);
  }

  lemma {:induction false} RoundsTo40(b: Block64)
    requires b == AbcBlock()
    ensures Rounds(INITIAL, b, 40) ==
            [0x79ea_687a, 0x6dc5_7a8a, 0x34df_1604, 0x41a6_5cb1, 0x1efb_c0a0, 0xf078_1bc8, 0xa507_a53d, 0x0772_a26b]
  {
    hide Schedule, AbcBlock, Rounds, RoundConstant, Number, CubeRootBits;
    ConstantsFrom32();
    WordsFrom32(b);
    RoundsTo32(b);
    RoundsStep(INITIAL, b, 32);
    RoundsStep(INITIAL, b, 33);
    RoundsStep(INITIAL, b, 34);
    RoundsStep(INITIAL, b, 35);
    RoundsStep(INITIAL, b, 36);
    RoundsStep(INITIAL, b, 37);
    RoundsStep(INITIAL, b, 38);
    RoundsStep(INITIAL, b, 39);
  }

  lemma {:induction false} RoundsTo48(b: Block64)
    requires b == AbcBlock()
    ensures Rounds(INITIAL, b, 48) ==
            [0x4172_328d, 0xa14c_14b0, 0x72ab_4b91, 0x2662_8815, 0xfecf_0bc6, 0xd57b_94a9, 0xb775_5da1, 0xa80f_11f0]
  {
    hide Schedule, AbcBlock, Rounds, RoundConstant, Number, CubeRootBits;
    ConstantsFrom40();
    WordsFrom40(b);
    RoundsTo40(b);
    RoundsStep(INITIAL, b, 40);
    RoundsStep(INITIAL, b, 41);
    RoundsStep(INITIAL, b, 42);
    RoundsStep(INITIAL, b, 43);
    RoundsStep(INITIAL, b, 44);
    RoundsStep(INITIAL, b, 45);
    RoundsStep(INITIAL, b, 46);
    RoundsStep(INITIAL, b, 47);
  }

  lemma {:induction false} RoundsTo56(b: Block64)
    requires b == AbcBlock()
    ensures Rounds(INITIAL, b, 56) ==
            [0x38cc_9913, 0x3ec4_5cdb, 0xf570_2fdb, 0x101f_d28f, 0x54cb_266b, 0xe50e_1b4f, 0x9f47_87c3, 0x529e_7d00]
  {
    hide Schedule, AbcBlock, Rounds, RoundConstant, Number, CubeRootBits;
    ConstantsFrom48();
    WordsFrom48(b);
    RoundsTo48(b);
    RoundsStep(INITIAL, b, 48);
    RoundsStep(INITIAL, b, 49);
    RoundsStep(INITIAL, b, 50);
    RoundsStep(INITIAL, b, 51);
    RoundsStep(INITIAL, b, 52);
    RoundsStep(INITIAL, b, 53);
    RoundsStep(INITIAL, b, 54);
    RoundsStep(INITIAL, b, 55);
  }

  lemma {:induction false} RoundsTo64(b: Block64)
    requires b == AbcBlock()
    ensures Rounds(INITIAL, b, 64) ==
            [0x506e_3058, 0xd39a_2165, 0x04d2_4d6c, 0xb85e_2ce9, 0x5ef5_0f24, 0xfb12_1210, 0x948d_25b6, 0x961f_4894]
  {
    hide Schedule, AbcBlock, Rounds, RoundConstant, Number, CubeRootBits;
    ConstantsFrom56();
    WordsFrom56(b);
    RoundsTo56(b);
    RoundsStep(INITIAL, b, 56);
    RoundsStep(INITIAL, b, 57);
    RoundsStep(INITIAL, b, 58);
    RoundsStep(INITIAL, b, 59);
    RoundsStep(INITIAL, b, 60);
    RoundsStep(INITIAL, b, 61);
    RoundsStep(INITIAL, b, 62);
    RoundsStep(INITIAL, b, 63);
  }

  /** The state after "abc". */
  lemma {:induction false} AbcHashed()
    ensures Hashed(Compress, INITIAL, ABC) ==
            [0xba78_16bf, 0x8f01_cfea, 0x4141_40de, 0x5dae_2223, 0xb003_61a3, 0x9617_7a9c, 0xb410_ff61, 0xf200_15ad]
  {
    hide Rounds, Padding, Schedule;
    var b := AbcBlock();
    RoundsTo64(b);
    assert b == ABC + Padding(|ABC|);
    assert b[..64] == b && b[64..] == [];
    FoldBlock(b);
    hide Fold, AbcBlock;
  }

  lemma {:induction false} FoldBlock(b: Block64)
    ensures Fold(Compress, INITIAL, b) == Compress(INITIAL, b)
  {
    hide Rounds, AddStates;
    assert b[..64] == b && b[64..] == [];
    assert Fold(Compress, Compress(INITIAL, b), []) == Compress(INITIAL, b);
  }

  /** The digest of "abc", byte by byte, as the standard's example gives it. */
  lemma {:induction false} AbcDigest()
    ensures WordBytes(Hashed(Compress, INITIAL, ABC), 8) ==
            [0xba, 0x78, 0x16, 0xbf, 0x8f, 0x01, 0xcf, 0xea, 0x41, 0x41, 0x40, 0xde, 0x5d, 0xae, 0x22, 0x23,
             0xb0, 0x03, 0x61, 0xa3, 0x96, 0x17, 0x7a, 0x9c, 0xb4, 0x10, 0xff, 0x61, 0xf2, 0x00, 0x15, 0xad]
  {
    hide Hashed;
    AbcHashed();
    DigestWords();
    var h: State8 := Hashed(Compress, INITIAL, ABC);
    hide BeWord, Compress;
    assert WordBytes(h, 1) == WordBytes(h, 0) + BeWord(h[0]);
    assert WordBytes(h, 2) == WordBytes(h, 1) + BeWord(h[1]);
    assert WordBytes(h, 3) == WordBytes(h, 2) + BeWord(h[2]);
    assert WordBytes(h, 4) == WordBytes(h, 3) + BeWord(h[3]);
    assert WordBytes(h, 5) == WordBytes(h, 4) + BeWord(h[4]);
    assert WordBytes(h, 6) == WordBytes(h, 5) + BeWord(h[5]);
    assert WordBytes(h, 7) == WordBytes(h, 6) + BeWord(h[6]);
    assert WordBytes(h, 8) == WordBytes(h, 7) + BeWord(h[7]);
  }

  lemma DigestWords()
    ensures BeWord(0xba78_16bf) == [0xba, 0x78, 0x16, 0xbf]
    ensures BeWord(0x8f01_cfea) == [0x8f, 0x01, 0xcf, 0xea]
    ensures BeWord(0x4141_40de) == [0x41, 0x41, 0x40, 0xde]
    ensures BeWord(0x5dae_2223) == [0x5d, 0xae, 0x22, 0x23]
    ensures BeWord(0xb003_61a3) == [0xb0, 0x03, 0x61, 0xa3]
    ensures BeWord(0x9617_7a9c) == [0x96, 0x17, 0x7a, 0x9c]
    ensures BeWord(0xb410_ff61) == [0xb4, 0x10, 0xff, 0x61]
    ensures BeWord(0xf200_15ad) == [0xf2, 0x00, 0x15, 0xad]
  {}
}
