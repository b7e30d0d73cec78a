/** SHA-512: the 64-bit words, functions and constants, and hashing a message in pieces. */
module Sha512 {
  import opened Bits
  import opened Arith64
  import opened Sha2Rounds
  import opened Sha2Stream
  import opened Sha2Words
  import S = Sha2Standard

  const H0: seq<nat> := [
     0x6a09_e667_f3bc_c908, 0xbb67_ae85_84ca_a73b, 0x3c6e_f372_fe94_f82b, 0xa54f_f53a_5f1d_36f1,
     0x510e_527f_ade6_82d1, 0x9b05_688c_2b3e_6c1f, 0x1f83_d9ab_fb41_bd6b, 0x5be0_cd19_137e_2179
    ]

  const K0: seq<nat> := [
    0x428a_2f98_d728_ae22, 0x7137_4491_23ef_65cd, 0xb5c0_fbcf_ec4d_3b2f, 0xe9b5_dba5_8189_dbbc,
    0x3956_c25b_f348_b538, 0x59f1_11f1_b605_d019, 0x923f_82a4_af19_4f9b, 0xab1c_5ed5_da6d_8118
  ]
  const K1: seq<nat> := [
    0xd807_aa98_a303_0242, 0x1283_5b01_4570_6fbe, 0x2431_85be_4ee4_b28c, 0x550c_7dc3_d5ff_b4e2,
    0x72be_5d74_f27b_896f, 0x80de_b1fe_3b16_96b1, 0x9bdc_06a7_25c7_1235, 0xc19b_f174_cf69_2694
  ]
  const K2: seq<nat> := [
    0xe49b_69c1_9ef1_4ad2, 0xefbe_4786_384f_25e3, 0x0fc1_9dc6_8b8c_d5b5, 0x240c_a1cc_77ac_9c65,
    0x2de9_2c6f_592b_0275, 0x4a74_84aa_6ea6_e483, 0x5cb0_a9dc_bd41_fbd4, 0x76f9_88da_8311_53b5
  ]
  const K3: seq<nat> := [
    0x983e_5152_ee66_dfab, 0xa831_c66d_2db4_3210, 0xb003_27c8_98fb_213f, 0xbf59_7fc7_beef_0ee4,
    0xc6e0_0bf3_3da8_8fc2, 0xd5a7_9147_930a_a725, 0x06ca_6351_e003_826f, 0x1429_2967_0a0e_6e70
  ]
  const K4: seq<nat> := [
    0x27b7_0a85_46d2_2ffc, 0x2e1b_2138_5c26_c926, 0x4d2c_6dfc_5ac4_2aed, 0x5338_0d13_9d95_b3df,
    0x650a_7354_8baf_63de, 0x766a_0abb_3c77_b2a8, 0x81c2_c92e_47ed_aee6, 0x9272_2c85_1482_353b
  ]
  const K5: seq<nat> := [
    0xa2bf_e8a1_4cf1_0364, 0xa81a_664b_bc42_3001, 0xc24b_8b70_d0f8_9791, 0xc76c_51a3_0654_be30,
    0xd192_e819_d6ef_5218, 0xd699_0624_5565_a910, 0xf40e_3585_5771_202a, 0x106a_a070_32bb_d1b8
  ]
  const K6: seq<nat> := [
    0x19a4_c116_b8d2_d0c8, 0x1e37_6c08_5141_ab53, 0x2748_774c_df8e_eb99, 0x34b0_bcb5_e19b_48a8,
    0x391c_0cb3_c5c9_5a63, 0x4ed8_aa4a_e341_8acb, 0x5b9c_ca4f_7763_e373, 0x682e_6ff3_d6b2_b8a3
  ]
  const K7: seq<nat> := [
    0x748f_82ee_5def_b2fc, 0x78a5_636f_4317_2f60, 0x84c8_7814_a1f0_ab72, 0x8cc7_0208_1a64_39ec,
    0x90be_fffa_2363_1e28, 0xa450_6ceb_de82_bde9, 0xbef9_a3f7_b2c6_7915, 0xc671_78f2_e372_532b
  ]
  const K8: seq<nat> := [
    0xca27_3ece_ea26_619c, 0xd186_b8c7_21c0_c207, 0xeada_7dd6_cde0_eb1e, 0xf57d_4f7f_ee6e_d178,
    0x06f0_67aa_7217_6fba, 0x0a63_7dc5_a2c8_98a6, 0x113f_9804_bef9_0dae, 0x1b71_0b35_131c_471b
  ]
  const K9: seq<nat> := [
    0x28db_77f5_2304_7d84, 0x32ca_ab7b_40c7_2493, 0x3c9e_be0a_15c9_bebc, 0x431d_67c4_9c10_0d4c,
    0x4cc5_d4be_cb3e_42b6, 0x597f_299c_fc65_7e2a, 0x5fcb_6fab_3ad6_faec, 0x6c44_198c_4a47_5817
  ]
  const K: seq<nat> := K0 + K1 + K2 + K3 + K4 + K5 + K6 + K7 + K8 + K9

  const OPS: Ops<nat> := Ops(
    (x, y) => Add(x, y, 64),
    x => Rotated(x, 28, 34, 39, 64),
    x => Rotated(x, 14, 18, 41, 64),
    x => Shifted(x, 1, 8, 7, 64),
    x => Shifted(x, 19, 61, 6, 64),
    (x, y, z) => Ch(x, y, z, 64),
    (x, y, z) => Maj(x, y, z),
    K)

  /** `PACK64` and `UNPACK64`: most significant byte first. */
  function Pack(s: seq<Byte>): nat
    requires |s| == 8
  {
    var low := BitOr(BitOr(BitOr(s[7], Shl(s[6], 8)), Shl(s[5], 16)), Shl(s[4], 24));
    BitOr(BitOr(BitOr(BitOr(low, Shl(s[3], 32)), Shl(s[2], 40)), Shl(s[1], 48)), Shl(s[0], 56))
  }

  function Unpack(x: nat): seq<Byte> {
    [Shr(x, 56) % 256, Shr(x, 48) % 256, Shr(x, 40) % 256, Shr(x, 32) % 256,
     Shr(x, 24) % 256, Shr(x, 16) % 256, Shr(x, 8) % 256, x % 256]
  }

  /** The words of a block. */
  function Words(m: seq<Byte>): (w: seq<nat>)
    ensures |m| == 128 ==> |w| == 16
  {
    if |m| == 128 then seq(16, i requires 0 <= i < 16 => Pack(m[8 * i..8 * i + 8])) else []
  }

  function Digest(h: seq<nat>): seq<Byte> {
    if h == [] then [] else Unpack(h[0]) + Digest(h[1..])
  }

  const UNIT: nat := 0x1_0000_0000_0000_0000

  /** The operations are the functions of the standard. */
  lemma OpsStandard()
    ensures S.Proper(S.SHA512) && S.Implements(OPS, S.SHA512)
  {
    hide Add, Rotated, Shifted, Ch, Maj;
  }

  /** The bytes of a block are read as numbers. */
  lemma PackIs(s: seq<Byte>)
    requires |s| == 8
    ensures Pack(s) == S.Number(s)
  {
    hide BitOr, Shl;
    assert s[..4] == [s[0], s[1], s[2], s[3]] && s[4..] == [s[4], s[5], s[6], s[7]] && s == s[..4] + s[4..];
    S.NumberFour(s[0], s[1], s[2], s[3]);
    S.NumberFour(s[4], s[5], s[6], s[7]);
    S.NumberAppend(s[..4], s[4..]);
    assert Pow256(4) == 0x1_0000_0000;
    OrFour(s[7], s[6], s[5], s[4]);
    OrFourMore(((s[4] as int * 256 + s[5]) * 256 + s[6]) * 256 + s[7], s[3], s[2], s[1], s[0]);
  }

  /** The words of the hash value are written out as numbers. */
  lemma UnpackIs(x: nat)
    ensures Unpack(x) == BigEndian(x, 8)
  {
    hide Shr;
    ShrBytes(x);
    ShrBytes(Shr(x, 32));
    ShrTwice(x);
    LastFour(x, 4);
    LastFour(x / 256 / 256 / 256 / 256, 0);
  }

  /** Writing a word out and reading it gives it back. */
  lemma PackUnpack(x: nat)
    requires x < Pow256(8)
    ensures |Unpack(x)| == 8 && Pack(Unpack(x)) == x
  {
    hide Unpack, Pack, Pow256;
    UnpackIs(x);
    PackIs(Unpack(x));
    S.NumberOfBytes(x, 8);
  }

  lemma {:induction false} DigestIs(h: seq<nat>)
    ensures Digest(h) == S.DigestOf(h, 8)
  {
    hide Unpack;
    if h != [] {
      UnpackIs(h[0]);
      DigestIs(h[1..]);
    }
  }

  lemma WordsRead()
    ensures S.Reads(Words, S.SHA512)
  {
    hide Pack, S.Number;
    forall m: seq<Byte> | |m| == S.BlockSize(S.SHA512) ensures Words(m) == S.WordsOf(m, 8) {
      forall i | 0 <= i < 16 ensures Words(m)[i] == S.Number(S.WordAt(m, 8, i)) {
        PackIs(m[8 * i..8 * i + 8]);
      }
    }
  }

  // ---------------------------------------------------------------- constants

  /** The round constants are the first 64 bits of the fractional parts of the cube roots of the first 80
      primes. */
  lemma RoundConstants()
    ensures |K| == 80 && S.CubeRoots(S.P0 + S.P1 + S.P2 + S.P3 + S.P4 + S.P5 + S.P6 + S.P7 + S.P8 + S.P9, K, UNIT)
  {
    hide S.CubeRoots;
    var ps, ks := S.P0, K0;
    Roots0();
    Roots1();
    S.CubeRootsAppend(ps, ks, S.P1, K1, UNIT);
    ps, ks := ps + S.P1, ks + K1;
    Roots2();
    S.CubeRootsAppend(ps, ks, S.P2, K2, UNIT);
    ps, ks := ps + S.P2, ks + K2;
    Roots3();
    S.CubeRootsAppend(ps, ks, S.P3, K3, UNIT);
    ps, ks := ps + S.P3, ks + K3;
    Roots4();
    S.CubeRootsAppend(ps, ks, S.P4, K4, UNIT);
    ps, ks := ps + S.P4, ks + K4;
    Roots5();
    S.CubeRootsAppend(ps, ks, S.P5, K5, UNIT);
    ps, ks := ps + S.P5, ks + K5;
    Roots6();
    S.CubeRootsAppend(ps, ks, S.P6, K6, UNIT);
    ps, ks := ps + S.P6, ks + K6;
    Roots7();
    S.CubeRootsAppend(ps, ks, S.P7, K7, UNIT);
    ps, ks := ps + S.P7, ks + K7;
    Roots8();
    S.CubeRootsAppend(ps, ks, S.P8, K8, UNIT);
    ps, ks := ps + S.P8, ks + K8;
    Roots9();
    S.CubeRootsAppend(ps, ks, S.P9, K9, UNIT);
  }

  lemma Roots0()
    ensures S.CubeRoots(S.P0, K0, UNIT)
  {
    assert S.CubeRootBits(2, 1, 0x428a_2f98_d728_ae22, UNIT);
    assert S.CubeRootBits(3, 1, 0x7137_4491_23ef_65cd, UNIT);
    assert S.CubeRootBits(5, 1, 0xb5c0_fbcf_ec4d_3b2f, UNIT);
    assert S.CubeRootBits(7, 1, 0xe9b5_dba5_8189_dbbc, UNIT);
    assert S.CubeRootBits(11, 2, 0x3956_c25b_f348_b538, UNIT);
    assert S.CubeRootBits(13, 2, 0x59f1_11f1_b605_d019, UNIT);
    assert S.CubeRootBits(17, 2, 0x923f_82a4_af19_4f9b, UNIT);
    assert S.CubeRootBits(19, 2, 0xab1c_5ed5_da6d_8118, UNIT);
    hide S.CubeRootBits;
  }

  lemma Roots1()
    ensures S.CubeRoots(S.P1, K1, UNIT)
  {
    assert S.CubeRootBits(23, 2, 0xd807_aa98_a303_0242, UNIT);
    assert S.CubeRootBits(29, 3, 0x1283_5b01_4570_6fbe, UNIT);
    assert S.CubeRootBits(31, 3, 0x2431_85be_4ee4_b28c, UNIT);
    assert S.CubeRootBits(37, 3, 0x550c_7dc3_d5ff_b4e2, UNIT);
    assert S.CubeRootBits(41, 3, 0x72be_5d74_f27b_896f, UNIT);
    assert S.CubeRootBits(43, 3, 0x80de_b1fe_3b16_96b1, UNIT);
    assert S.CubeRootBits(47, 3, 0x9bdc_06a7_25c7_1235, UNIT);
    assert S.CubeRootBits(53, 3, 0xc19b_f174_cf69_2694, UNIT);
    hide S.CubeRootBits;
  }

  lemma Roots2()
    ensures S.CubeRoots(S.P2, K2, UNIT)
  {
    assert S.CubeRootBits(59, 3, 0xe49b_69c1_9ef1_4ad2, UNIT);
    assert S.CubeRootBits(61, 3, 0xefbe_4786_384f_25e3, UNIT);
    assert S.CubeRootBits(67, 4, 0x0fc1_9dc6_8b8c_d5b5, UNIT);
    assert S.CubeRootBits(71, 4, 0x240c_a1cc_77ac_9c65, UNIT);
    assert S.CubeRootBits(73, 4, 0x2de9_2c6f_592b_0275, UNIT);
    assert S.CubeRootBits(79, 4, 0x4a74_84aa_6ea6_e483, UNIT);
    assert S.CubeRootBits(83, 4, 0x5cb0_a9dc_bd41_fbd4, UNIT);
    assert S.CubeRootBits(89, 4, 0x76f9_88da_8311_53b5, UNIT);
    hide S.CubeRootBits;
  }

  lemma Roots3()
    ensures S.CubeRoots(S.P3, K3, UNIT)
  {
    assert S.CubeRootBits(97, 4, 0x983e_5152_ee66_dfab, UNIT);
    assert S.CubeRootBits(101, 4, 0xa831_c66d_2db4_3210, UNIT);
    assert S.CubeRootBits(103, 4, 0xb003_27c8_98fb_213f, UNIT);
    assert S.CubeRootBits(107, 4, 0xbf59_7fc7_beef_0ee4, UNIT);
    assert S.CubeRootBits(109, 4, 0xc6e0_0bf3_3da8_8fc2, UNIT);
    assert S.CubeRootBits(113, 4, 0xd5a7_9147_930a_a725, UNIT);
    assert S.CubeRootBits(127, 5, 0x06ca_6351_e003_826f, UNIT);
    assert S.CubeRootBits(131, 5, 0x1429_2967_0a0e_6e70, UNIT);
    hide S.CubeRootBits;
  }

  lemma Roots4()
    ensures S.CubeRoots(S.P4, K4, UNIT)
  {
    assert S.CubeRootBits(137, 5, 0x27b7_0a85_46d2_2ffc, UNIT);
    assert S.CubeRootBits(139, 5, 0x2e1b_2138_5c26_c926, UNIT);
    assert S.CubeRootBits(149, 5, 0x4d2c_6dfc_5ac4_2aed, UNIT);
    assert S.CubeRootBits(151, 5, 0x5338_0d13_9d95_b3df, UNIT);
    assert S.CubeRootBits(157, 5, 0x650a_7354_8baf_63de, UNIT);
    assert S.CubeRootBits(163, 5, 0x766a_0abb_3c77_b2a8, UNIT);
    assert S.CubeRootBits(167, 5, 0x81c2_c92e_47ed_aee6, UNIT);
    assert S.CubeRootBits(173, 5, 0x9272_2c85_1482_353b, UNIT);
    hide S.CubeRootBits;
  }

  lemma Roots5()
    ensures S.CubeRoots(S.P5, K5, UNIT)
  {
    assert S.CubeRootBits(179, 5, 0xa2bf_e8a1_4cf1_0364, UNIT);
    assert S.CubeRootBits(181, 5, 0xa81a_664b_bc42_3001, UNIT);
    assert S.CubeRootBits(191, 5, 0xc24b_8b70_d0f8_9791, UNIT);
    assert S.CubeRootBits(193, 5, 0xc76c_51a3_0654_be30, UNIT);
    assert S.CubeRootBits(197, 5, 0xd192_e819_d6ef_5218, UNIT);
    assert S.CubeRootBits(199, 5, 0xd699_0624_5565_a910, UNIT);
    assert S.CubeRootBits(211, 5, 0xf40e_3585_5771_202a, UNIT);
    assert S.CubeRootBits(223, 6, 0x106a_a070_32bb_d1b8, UNIT);
    hide S.CubeRootBits;
  }

  lemma Roots6()
    ensures S.CubeRoots(S.P6, K6, UNIT)
  {
    assert S.CubeRootBits(227, 6, 0x19a4_c116_b8d2_d0c8, UNIT);
    assert S.CubeRootBits(229, 6, 0x1e37_6c08_5141_ab53, UNIT);
    assert S.CubeRootBits(233, 6, 0x2748_774c_df8e_eb99, UNIT);
    assert S.CubeRootBits(239, 6, 0x34b0_bcb5_e19b_48a8, UNIT);
    assert S.CubeRootBits(241, 6, 0x391c_0cb3_c5c9_5a63, UNIT);
    assert S.CubeRootBits(251, 6, 0x4ed8_aa4a_e341_8acb, UNIT);
    assert S.CubeRootBits(257, 6, 0x5b9c_ca4f_7763_e373, UNIT);
    assert S.CubeRootBits(263, 6, 0x682e_6ff3_d6b2_b8a3, UNIT);
    hide S.CubeRootBits;
  }

  lemma Roots7()
    ensures S.CubeRoots(S.P7, K7, UNIT)
  {
    assert S.CubeRootBits(269, 6, 0x748f_82ee_5def_b2fc, UNIT);
    assert S.CubeRootBits(271, 6, 0x78a5_636f_4317_2f60, UNIT);
    assert S.CubeRootBits(277, 6, 0x84c8_7814_a1f0_ab72, UNIT);
    assert S.CubeRootBits(281, 6, 0x8cc7_0208_1a64_39ec, UNIT);
    assert S.CubeRootBits(283, 6, 0x90be_fffa_2363_1e28, UNIT);
    assert S.CubeRootBits(293, 6, 0xa450_6ceb_de82_bde9, UNIT);
    assert S.CubeRootBits(307, 6, 0xbef9_a3f7_b2c6_7915, UNIT);
    assert S.CubeRootBits(311, 6, 0xc671_78f2_e372_532b, UNIT);
    hide S.CubeRootBits;
  }

  lemma Roots8()
    ensures S.CubeRoots(S.P8, K8, UNIT)
  {
    assert S.CubeRootBits(313, 6, 0xca27_3ece_ea26_619c, UNIT);
    assert S.CubeRootBits(317, 6, 0xd186_b8c7_21c0_c207, UNIT);
    assert S.CubeRootBits(331, 6, 0xeada_7dd6_cde0_eb1e, UNIT);
    assert S.CubeRootBits(337, 6, 0xf57d_4f7f_ee6e_d178, UNIT);
    assert S.CubeRootBits(347, 7, 0x06f0_67aa_7217_6fba, UNIT);
    assert S.CubeRootBits(349, 7, 0x0a63_7dc5_a2c8_98a6, UNIT);
    assert S.CubeRootBits(353, 7, 0x113f_9804_bef9_0dae, UNIT);
    assert S.CubeRootBits(359, 7, 0x1b71_0b35_131c_471b, UNIT);
    hide S.CubeRootBits;
  }

  lemma Roots9()
    ensures S.CubeRoots(S.P9, K9, UNIT)
  {
    assert S.CubeRootBits(367, 7, 0x28db_77f5_2304_7d84, UNIT);
    assert S.CubeRootBits(373, 7, 0x32ca_ab7b_40c7_2493, UNIT);
    assert S.CubeRootBits(379, 7, 0x3c9e_be0a_15c9_bebc, UNIT);
    assert S.CubeRootBits(383, 7, 0x431d_67c4_9c10_0d4c, UNIT);
    assert S.CubeRootBits(389, 7, 0x4cc5_d4be_cb3e_42b6, UNIT);
    assert S.CubeRootBits(397, 7, 0x597f_299c_fc65_7e2a, UNIT);
    assert S.CubeRootBits(401, 7, 0x5fcb_6fab_3ad6_faec, UNIT);
    assert S.CubeRootBits(409, 7, 0x6c44_198c_4a47_5817, UNIT);
    hide S.CubeRootBits;
  }

  /** The initial hash value: square roots of the first eight primes. */
  lemma InitialValue()
    ensures |H0| == 8
    ensures S.SquareRootBits(2, 1, H0[0], UNIT)
    ensures S.SquareRootBits(3, 1, H0[1], UNIT)
    ensures S.SquareRootBits(5, 2, H0[2], UNIT)
    ensures S.SquareRootBits(7, 2, H0[3], UNIT)
    ensures S.SquareRootBits(11, 3, H0[4], UNIT)
    ensures S.SquareRootBits(13, 3, H0[5], UNIT)
    ensures S.SquareRootBits(17, 4, H0[6], UNIT)
    ensures S.SquareRootBits(19, 4, H0[7], UNIT)
  {
  }

  lemma InitialWords()
    ensures |H0| == 8 && S.Words(H0, 64)
  {
    WordRange();
    hide Pow2;
    assert forall i :: 0 <= i < 8 ==> H0[i] < UNIT;
  }

  lemma WordRange()
    ensures Pow2(64) == UNIT
  {
    WordIsPow2();
  }

  /** Initialising, any number of updates and finishing, with either form of the rounds: however a
      message shorter than 2^29 bytes is cut into pieces, the digest is the standard's for the whole. */
  method HashPieces(pieces: seq<seq<Byte>>, unroll: bool) returns (digest: seq<Byte>)
    requires |Joined(pieces)| < 0x2000_0000
    ensures S.Proper(S.SHA512) && digest == S.HashOf(S.SHA512, K, H0, Joined(pieces)) && |digest| == 64
  {
    hide Fold, Padding, BlockOf, Digest, Words;
    var ctx := new Context(OPS, Words, unroll, H0, 128, 17);
    for i := 0 to |pieces|
      invariant ctx.Valid() && ctx.f == BlockOf(OPS, Words, 128) && ctx.h0 == H0 && ctx.size == 128 && ctx.field == 17
      invariant fresh(ctx) && fresh(ctx.block) && ctx.fed == Joined(pieces[..i])
    {
      JoinedAppend(pieces, i);
      var ok := ctx.Update(pieces[i]);
    }
    assert pieces[..|pieces|] == pieces;
    var h := ctx.Final();
    digest := Digest(h);
    Finish(Joined(pieces), h);
  }

  lemma Finish(m: seq<Byte>, h: seq<nat>)
    requires h == Fold(BlockOf(OPS, Words, 128), H0, m + Padding(|m|, 128, 17), 128)
    ensures S.Proper(S.SHA512) && Digest(h) == S.HashOf(S.SHA512, K, H0, m) && |Digest(h)| == 64
  {
    hide Fold, Padding, BlockOf, Digest, Words, S.HashOf;
    OpsStandard();
    WordsRead();
    InitialWords();
    S.HashStandard(OPS, Words, S.SHA512, H0, m);
    DigestIs(h);
    S.DigestLength(h, 8);
  }
}
