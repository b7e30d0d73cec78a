/** SHA-256: the 32-bit words, functions and constants, and hashing a message in pieces. */
module Sha256 {
  import opened Bits
  import opened Arith64
  import opened Sha2Rounds
  import opened Sha2Stream
  import opened Sha2Words
  import S = Sha2Standard

  const H0: seq<nat> := [
     0x6a09_e667, 0xbb67_ae85, 0x3c6e_f372, 0xa54f_f53a, 0x510e_527f, 0x9b05_688c, 0x1f83_d9ab, 0x5be0_cd19
    ]

  const K0: seq<nat> := [
    0x428a_2f98, 0x7137_4491, 0xb5c0_fbcf, 0xe9b5_dba5, 0x3956_c25b, 0x59f1_11f1, 0x923f_82a4, 0xab1c_5ed5
  ]
  const K1: seq<nat> := [
    0xd807_aa98, 0x1283_5b01, 0x2431_85be, 0x550c_7dc3, 0x72be_5d74, 0x80de_b1fe, 0x9bdc_06a7, 0xc19b_f174
  ]
  const K2: seq<nat> := [
    0xe49b_69c1, 0xefbe_4786, 0x0fc1_9dc6, 0x240c_a1cc, 0x2de9_2c6f, 0x4a74_84aa, 0x5cb0_a9dc, 0x76f9_88da
  ]
  const K3: seq<nat> := [
    0x983e_5152, 0xa831_c66d, 0xb003_27c8, 0xbf59_7fc7, 0xc6e0_0bf3, 0xd5a7_9147, 0x06ca_6351, 0x1429_2967
  ]
  const K4: seq<nat> := [
    0x27b7_0a85, 0x2e1b_2138, 0x4d2c_6dfc, 0x5338_0d13, 0x650a_7354, 0x766a_0abb, 0x81c2_c92e, 0x9272_2c85
  ]
  const K5: seq<nat> := [
    0xa2bf_e8a1, 0xa81a_664b, 0xc24b_8b70, 0xc76c_51a3, 0xd192_e819, 0xd699_0624, 0xf40e_3585, 0x106a_a070
  ]
  const K6: seq<nat> := [
    0x19a4_c116, 0x1e37_6c08, 0x2748_774c, 0x34b0_bcb5, 0x391c_0cb3, 0x4ed8_aa4a, 0x5b9c_ca4f, 0x682e_6ff3
  ]
  const K7: seq<nat> := [
    0x748f_82ee, 0x78a5_636f, 0x84c8_7814, 0x8cc7_0208, 0x90be_fffa, 0xa450_6ceb, 0xbef9_a3f7, 0xc671_78f2
  ]
  const K: seq<nat> := K0 + K1 + K2 + K3 + K4 + K5 + K6 + K7

  const OPS: Ops<nat> := Ops(
    (x, y) => Add(x, y, 32),
    x => Rotated(x, 2, 13, 22, 32),
    x => Rotated(x, 6, 11, 25, 32),
    x => Shifted(x, 7, 18, 3, 32),
    x => Shifted(x, 17, 19, 10, 32),
    (x, y, z) => Ch(x, y, z, 32),
    (x, y, z) => Maj(x, y, z),
    K)

  /** `PACK32` and `UNPACK32`: most significant byte first. */
  function Pack(s: seq<Byte>): nat
    requires |s| == 4
  {
    BitOr(BitOr(BitOr(s[3], Shl(s[2], 8)), Shl(s[1], 16)), Shl(s[0], 24))
  }

  function Unpack(x: nat): seq<Byte> {
    [Shr(x, 24) % 256, Shr(x, 16) % 256, Shr(x, 8) % 256, x % 256]
  }

  /** The words of a block. */
  function Words(m: seq<Byte>): (w: seq<nat>)
    ensures |m| == 64 ==> |w| == 16
  {
    if |m| == 64 then seq(16, i requires 0 <= i < 16 => Pack(m[4 * i..4 * i + 4])) else []
  }

  function Digest(h: seq<nat>): seq<Byte> {
    if h == [] then [] else Unpack(h[0]) + Digest(h[1..])
  }

  const UNIT: nat := 0x1_0000_0000

  /** The operations are the functions of the standard. */
  lemma OpsStandard()
    ensures S.Proper(S.SHA256) && S.Implements(OPS, S.SHA256)
  {
    hide Add, Rotated, Shifted, Ch, Maj;
  }

  /** The bytes of a block are read as numbers. */
  lemma PackIs(s: seq<Byte>)
    requires |s| == 4
    ensures Pack(s) == S.Number(s)
  {
    assert s == [s[0], s[1], s[2], s[3]];
    S.NumberFour(s[0], s[1], s[2], s[3]);
    OrFour(s[3], s[2], s[1], s[0]);
  }

  /** The words of the hash value are written out as numbers. */
  lemma UnpackIs(x: nat)
    ensures Unpack(x) == BigEndian(x, 4)
  {
    hide Shr;
    ShrBytes(x);
    LastFour(x, 0);
  }

  /** Writing a word out and reading it gives it back. */
  lemma PackUnpack(x: nat)
    requires x < Pow256(4)
    ensures |Unpack(x)| == 4 && Pack(Unpack(x)) == x
  {
    hide Unpack, Pack, Pow256;
    UnpackIs(x);
    PackIs(Unpack(x));
    S.NumberOfBytes(x, 4);
  }

  lemma {:induction false} DigestIs(h: seq<nat>)
    ensures Digest(h) == S.DigestOf(h, 4)
  {
    hide Unpack;
    if h != [] {
      UnpackIs(h[0]);
      DigestIs(h[1..]);
    }
  }

  lemma WordsRead()
    ensures S.Reads(Words, S.SHA256)
  {
    hide Pack, S.Number;
    forall m: seq<Byte> | |m| == S.BlockSize(S.SHA256) ensures Words(m) == S.WordsOf(m, 4) {
      forall i | 0 <= i < 16 ensures Words(m)[i] == S.Number(S.WordAt(m, 4, i)) {
        PackIs(m[4 * i..4 * i + 4]);
      }
    }
  }

  // ---------------------------------------------------------------- constants

  /** The round constants are the first 32 bits of the fractional parts of the cube roots of the first 64
      primes. */
  lemma RoundConstants()
    ensures |K| == 64 && S.CubeRoots(S.P0 + S.P1 + S.P2 + S.P3 + S.P4 + S.P5 + S.P6 + S.P7, K, UNIT)
  {
    hide S.CubeRoots;
    var ps, ks := S.P0, K0;
    Roots0();
    Roots1();
    S.CubeRootsAppend(ps, ks, S.P1, K1, UNIT);
    ps, ks := ps + S.P1, ks + K1;
    Roots2();
    S.CubeRootsAppend(ps, ks, S.P2, K2, UNIT);
    ps, ks := ps + S.P2, ks + K2;
    Roots3();
    S.CubeRootsAppend(ps, ks, S.P3, K3, UNIT);
    ps, ks := ps + S.P3, ks + K3;
    Roots4();
    S.CubeRootsAppend(ps, ks, S.P4, K4, UNIT);
    ps, ks := ps + S.P4, ks + K4;
    Roots5();
    S.CubeRootsAppend(ps, ks, S.P5, K5, UNIT);
    ps, ks := ps + S.P5, ks + K5;
    Roots6();
    S.CubeRootsAppend(ps, ks, S.P6, K6, UNIT);
    ps, ks := ps + S.P6, ks + K6;
    Roots7();
    S.CubeRootsAppend(ps, ks, S.P7, K7, UNIT);
  }

  lemma Roots0()
    ensures S.CubeRoots(S.P0, K0, UNIT)
  {
    assert S.CubeRootBits(2, 1, 0x428a_2f98, UNIT);
    assert S.CubeRootBits(3, 1, 0x7137_4491, UNIT);
    assert S.CubeRootBits(5, 1, 0xb5c0_fbcf, UNIT);
    assert S.CubeRootBits(7, 1, 0xe9b5_dba5, UNIT);
    assert S.CubeRootBits(11, 2, 0x3956_c25b, UNIT);
    assert S.CubeRootBits(13, 2, 0x59f1_11f1, UNIT);
    assert S.CubeRootBits(17, 2, 0x923f_82a4, UNIT);
    assert S.CubeRootBits(19, 2, 0xab1c_5ed5, UNIT);
    hide S.CubeRootBits;
  }

  lemma Roots1()
    ensures S.CubeRoots(S.P1, K1, UNIT)
  {
    assert S.CubeRootBits(23, 2, 0xd807_aa98, UNIT);
    assert S.CubeRootBits(29, 3, 0x1283_5b01, UNIT);
    assert S.CubeRootBits(31, 3, 0x2431_85be, UNIT);
    assert S.CubeRootBits(37, 3, 0x550c_7dc3, UNIT);
    assert S.CubeRootBits(41, 3, 0x72be_5d74, UNIT);
    assert S.CubeRootBits(43, 3, 0x80de_b1fe, UNIT);
    assert S.CubeRootBits(47, 3, 0x9bdc_06a7, UNIT);
    assert S.CubeRootBits(53, 3, 0xc19b_f174, UNIT);
    hide S.CubeRootBits;
  }

  lemma Roots2()
    ensures S.CubeRoots(S.P2, K2, UNIT)
  {
    assert S.CubeRootBits(59, 3, 0xe49b_69c1, UNIT);
    assert S.CubeRootBits(61, 3, 0xefbe_4786, UNIT);
    assert S.CubeRootBits(67, 4, 0x0fc1_9dc6, UNIT);
    assert S.CubeRootBits(71, 4, 0x240c_a1cc, UNIT);
    assert S.CubeRootBits(73, 4, 0x2de9_2c6f, UNIT);
    assert S.CubeRootBits(79, 4, 0x4a74_84aa, UNIT);
    assert S.CubeRootBits(83, 4, 0x5cb0_a9dc, UNIT);
    assert S.CubeRootBits(89, 4, 0x76f9_88da, UNIT);
    hide S.CubeRootBits;
  }

  lemma Roots3()
    ensures S.CubeRoots(S.P3, K3, UNIT)
  {
    assert S.CubeRootBits(97, 4, 0x983e_5152, UNIT);
    assert S.CubeRootBits(101, 4, 0xa831_c66d, UNIT);
    assert S.CubeRootBits(103, 4, 0xb003_27c8, UNIT);
    assert S.CubeRootBits(107, 4, 0xbf59_7fc7, UNIT);
    assert S.CubeRootBits(109, 4, 0xc6e0_0bf3, UNIT);
    assert S.CubeRootBits(113, 4, 0xd5a7_9147, UNIT);
    assert S.CubeRootBits(127, 5, 0x06ca_6351, UNIT);
    assert S.CubeRootBits(131, 5, 0x1429_2967, UNIT);
    hide S.CubeRootBits;
  }

  lemma Roots4()
    ensures S.CubeRoots(S.P4, K4, UNIT)
  {
    assert S.CubeRootBits(137, 5, 0x27b7_0a85, UNIT);
    assert S.CubeRootBits(139, 5, 0x2e1b_2138, UNIT);
    assert S.CubeRootBits(149, 5, 0x4d2c_6dfc, UNIT);
    assert S.CubeRootBits(151, 5, 0x5338_0d13, UNIT);
    assert S.CubeRootBits(157, 5, 0x650a_7354, UNIT);
    assert S.CubeRootBits(163, 5, 0x766a_0abb, UNIT);
    assert S.CubeRootBits(167, 5, 0x81c2_c92e, UNIT);
    assert S.CubeRootBits(173, 5, 0x9272_2c85, UNIT);
    hide S.CubeRootBits;
  }

  lemma Roots5()
    ensures S.CubeRoots(S.P5, K5, UNIT)
  {
    assert S.CubeRootBits(179, 5, 0xa2bf_e8a1, UNIT);
    assert S.CubeRootBits(181, 5, 0xa81a_664b, UNIT);
    assert S.CubeRootBits(191, 5, 0xc24b_8b70, UNIT);
    assert S.CubeRootBits(193, 5, 0xc76c_51a3, UNIT);
    assert S.CubeRootBits(197, 5, 0xd192_e819, UNIT);
    assert S.CubeRootBits(199, 5, 0xd699_0624, UNIT);
    assert S.CubeRootBits(211, 5, 0xf40e_3585, UNIT);
    assert S.CubeRootBits(223, 6, 0x106a_a070, UNIT);
    hide S.CubeRootBits;
  }

  lemma Roots6()
    ensures S.CubeRoots(S.P6, K6, UNIT)
  {
    assert S.CubeRootBits(227, 6, 0x19a4_c116, UNIT);
    assert S.CubeRootBits(229, 6, 0x1e37_6c08, UNIT);
    assert S.CubeRootBits(233, 6, 0x2748_774c, UNIT);
    assert S.CubeRootBits(239, 6, 0x34b0_bcb5, UNIT);
    assert S.CubeRootBits(241, 6, 0x391c_0cb3, UNIT);
    assert S.CubeRootBits(251, 6, 0x4ed8_aa4a, UNIT);
    assert S.CubeRootBits(257, 6, 0x5b9c_ca4f, UNIT);
    assert S.CubeRootBits(263, 6, 0x682e_6ff3, UNIT);
    hide S.CubeRootBits;
  }

  lemma Roots7()
    ensures S.CubeRoots(S.P7, K7, UNIT)
  {
    assert S.CubeRootBits(269, 6, 0x748f_82ee, UNIT);
    assert S.CubeRootBits(271, 6, 0x78a5_636f, UNIT);
    assert S.CubeRootBits(277, 6, 0x84c8_7814, UNIT);
    assert S.CubeRootBits(281, 6, 0x8cc7_0208, UNIT);
    assert S.CubeRootBits(283, 6, 0x90be_fffa, UNIT);
    assert S.CubeRootBits(293, 6, 0xa450_6ceb, UNIT);
    assert S.CubeRootBits(307, 6, 0xbef9_a3f7, UNIT);
    assert S.CubeRootBits(311, 6, 0xc671_78f2, UNIT);
    hide S.CubeRootBits;
  }

  /** The initial hash value: square roots of the first eight primes. */
  lemma InitialValue()
    ensures |H0| == 8
    ensures S.SquareRootBits(2, 1, H0[0], UNIT)
    ensures S.SquareRootBits(3, 1, H0[1], UNIT)
    ensures S.SquareRootBits(5, 2, H0[2], UNIT)
    ensures S.SquareRootBits(7, 2, H0[3], UNIT)
    ensures S.SquareRootBits(11, 3, H0[4], UNIT)
    ensures S.SquareRootBits(13, 3, H0[5], UNIT)
    ensures S.SquareRootBits(17, 4, H0[6], UNIT)
    ensures S.SquareRootBits(19, 4, H0[7], UNIT)
  {
  }

  lemma InitialWords()
    ensures |H0| == 8 && S.Words(H0, 32)
  {
    WordRange();
    hide Pow2;
    assert forall i :: 0 <= i < 8 ==> H0[i] < UNIT;
  }

  lemma WordRange()
    ensures Pow2(32) == UNIT
  {
    assert Pow2(8) == 0x100;
    Pow2Add(8, 8);
    Pow2Add(16, 16);
  }

  /** Initialising, any number of updates and finishing, with either form of the rounds: however a
      message shorter than 2^29 bytes is cut into pieces, the digest is the standard's for the whole. */
  method HashPieces(pieces: seq<seq<Byte>>, unroll: bool) returns (digest: seq<Byte>)
    requires |Joined(pieces)| < 0x2000_0000
    ensures S.Proper(S.SHA256) && digest == S.HashOf(S.SHA256, K, H0, Joined(pieces)) && |digest| == 32
  {
    hide Fold, Padding, BlockOf, Digest, Words;
    var ctx := new Context(OPS, Words, unroll, H0, 64, 9);
    for i := 0 to |pieces|
      invariant ctx.Valid() && ctx.f == BlockOf(OPS, Words, 64) && ctx.h0 == H0 && ctx.size == 64 && ctx.field == 9
      invariant fresh(ctx) && fresh(ctx.block) && ctx.fed == Joined(pieces[..i])
    {
      JoinedAppend(pieces, i);
      var ok := ctx.Update(pieces[i]);
    }
    assert pieces[..|pieces|] == pieces;
    var h := ctx.Final();
    digest := Digest(h);
    Finish(Joined(pieces), h);
  }

  lemma Finish(m: seq<Byte>, h: seq<nat>)
    requires h == Fold(BlockOf(OPS, Words, 64), H0, m + Padding(|m|, 64, 9), 64)
    ensures S.Proper(S.SHA256) && Digest(h) == S.HashOf(S.SHA256, K, H0, m) && |Digest(h)| == 32
  {
    hide Fold, Padding, BlockOf, Digest, Words, S.HashOf;
    OpsStandard();
    WordsRead();
    InitialWords();
    S.HashStandard(OPS, Words, S.SHA256, H0, m);
    DigestIs(h);
    S.DigestLength(h, 4);
  }
}
