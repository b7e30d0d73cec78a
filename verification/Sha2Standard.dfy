/** SHA-2 as FIPS 180-2 defines it: functions bit by bit (section 4.1), sums modulo the word range
    (sections 6.2.2 and 6.3.2), numbers for byte strings; and that the word operations, the rounds and
    the folding of the model compute it. */
module Sha2Standard {
  import opened Bits
  import opened Bitmap
  import opened Sha2Words
  import opened Sha2Rounds
  import opened Sha2Stream

  /** The word size and the distances of the functions of section 4.1. */
  datatype Distances = Distances(w: nat, big0: (nat, nat, nat), big1: (nat, nat, nat),
                                 small0: (nat, nat, nat), small1: (nat, nat, nat))

  /** Sections 4.1.2 and 4.1.3. */
  const SHA256 := Distances(32, (2, 13, 22), (6, 11, 25), (7, 18, 3), (17, 19, 10))
  const SHA512 := Distances(64, (28, 34, 39), (14, 18, 41), (1, 8, 7), (19, 61, 6))

  predicate Below(r: (nat, nat, nat), w: nat) {
    r.0 < w && r.1 < w && r.2 < w
  }

  predicate Proper(q: Distances) {
    q.w > 0 && q.w % 8 == 0 && Below(q.big0, q.w) && Below(q.big1, q.w) && Below(q.small0, q.w) && Below(q.small1, q.w)
  }

  predicate Odd(a: bool, b: bool, c: bool) {
    a != (b != c)
  }

  /** Bit `i` is the sum modulo 2 of the bits at three distances, counted around. */
  ghost function BigSigma(x: nat, r: (nat, nat, nat), w: nat): nat
    requires w > 0
  {
    FromBits(w, (i: nat) => Odd(Bit(x, Around(i, r.0, w)), Bit(x, Around(i, r.1, w)), Bit(x, Around(i, r.2, w))))
  }

  /** The third distance is not counted around. */
  ghost function SmallSigma(x: nat, r: (nat, nat, nat), w: nat): nat
    requires w > 0
  {
    FromBits(w, (i: nat) => Odd(Bit(x, Around(i, r.0, w)), Bit(x, Around(i, r.1, w)), i + r.2 < w && Bit(x, i + r.2)))
  }

  ghost function Choice(x: nat, y: nat, z: nat, w: nat): nat {
    FromBits(w, (i: nat) => if Bit(x, i) then Bit(y, i) else Bit(z, i))
  }

  predicate Most(a: bool, b: bool, c: bool) {
    (a && b) || (a && c) || (b && c)
  }

  ghost function Majority(x: nat, y: nat, z: nat, w: nat): nat {
    FromBits(w, (i: nat) => Most(Bit(x, i), Bit(y, i), Bit(z, i)))
  }

  /** The message schedule. */
  ghost function ScheduleOf(q: Distances, m: seq<nat>, t: nat): nat
    requires q.w > 0 && |m| == 16
  {
    if t < 16 then m[t]
    else
      Reduced(SmallSigma(ScheduleOf(q, m, t - 2), q.small1, q.w) + ScheduleOf(q, m, t - 7)
              + SmallSigma(ScheduleOf(q, m, t - 15), q.small0, q.w) + ScheduleOf(q, m, t - 16), q.w)
  }

  /** One round on the working variables a to h. */
  ghost function RoundOf(q: Distances, v: seq<nat>, k: nat, x: nat): (r: seq<nat>)
    requires q.w > 0 && |v| == 8
    ensures |r| == 8
  {
    var t1 := v[7] + BigSigma(v[4], q.big1, q.w) + Choice(v[4], v[5], v[6], q.w) + k + x;
    var t2 := BigSigma(v[0], q.big0, q.w) + Majority(v[0], v[1], v[2], q.w);
    [Reduced(t1 + t2, q.w), v[0], v[1], v[2], Reduced(v[3] + t1, q.w), v[4], v[5], v[6]]
  }

  ghost function RoundsOf(q: Distances, ks: seq<nat>, v: seq<nat>, m: seq<nat>, n: nat): (r: seq<nat>)
    requires q.w > 0 && |v| == 8 && |m| == 16 && n <= |ks|
    ensures |r| == 8
  {
    if n == 0 then v else RoundOf(q, RoundsOf(q, ks, v, m, n - 1), ks[n - 1], ScheduleOf(q, m, n - 1))
  }

  /** The next hash value. */
  ghost function CompressOf(q: Distances, ks: seq<nat>, h: seq<nat>, m: seq<nat>): (r: seq<nat>)
    requires q.w > 0 && |h| == 8 && |m| == 16
    ensures |r| == 8
  {
    Sums(q, h, RoundsOf(q, ks, h, m, |ks|))
  }

  function Sums(q: Distances, h: seq<nat>, v: seq<nat>): (r: seq<nat>)
    requires |h| == |v| == 8
    ensures |r| == 8
  {
    seq(8, i requires 0 <= i < 8 => Reduced(h[i] + v[i], q.w))
  }

  /** The number that the bytes stand for, most significant first. */
  function Number(s: seq<Byte>): nat {
    if s == [] then 0 else 256 * Number(s[..|s| - 1]) + s[|s| - 1]
  }

  /** The sixteen words of a block of words of `n` bytes. */
  ghost function WordsOf(m: seq<Byte>, n: nat): (r: seq<nat>)
    requires |m| == 16 * n
    ensures |r| == 16
  {
    seq(16, i requires 0 <= i < 16 => Number(WordAt(m, n, i)))
  }

  ghost function WordAt(m: seq<Byte>, n: nat, i: nat): seq<Byte>
    requires |m| == 16 * n && i < 16
  {
    assert i * n <= (i + 1) * n <= 16 * n;
    m[i * n..(i + 1) * n]
  }

  /** The hash value after `b` blocks of the padded message `p`. */
  ghost function StateOf(q: Distances, ks: seq<nat>, h0: seq<nat>, p: seq<Byte>, b: nat): (h: seq<nat>)
    requires Proper(q) && |h0| == 8 && b * BlockSize(q) <= |p|
    ensures |h| == 8
  {
    if b == 0 then h0
    else
      BlockBounds(q, b);
      CompressOf(q, ks, StateOf(q, ks, h0, p, b - 1),
                 WordsOf(p[(b - 1) * BlockSize(q)..b * BlockSize(q)], q.w / 8))
  }

  function BlockSize(q: Distances): nat {
    16 * (q.w / 8)
  }

  lemma BlockBounds(q: Distances, b: nat)
    requires b > 0
    ensures 0 <= (b - 1) * BlockSize(q) && b * BlockSize(q) == (b - 1) * BlockSize(q) + BlockSize(q)
  {
    hide BlockSize;
    MulStep(b, BlockSize(q));
  }

  lemma MulStep(b: nat, n: nat)
    requires b > 0
    ensures 0 <= (b - 1) * n && b * n == (b - 1) * n + n
  {
  }

  /** The words of the hash value, one after the other. */
  ghost function DigestOf(h: seq<nat>, n: nat): seq<Byte> {
    if h == [] then [] else BigEndian(h[0], n) + DigestOf(h[1..], n)
  }

  /** The digest of a message: pad, process the blocks in turn, write out the hash value. */
  ghost function HashOf(q: Distances, ks: seq<nat>, h0: seq<nat>, m: seq<Byte>): seq<Byte>
    requires Proper(q) && |h0| == 8
  {
    var field := 2 * (q.w / 8) + 1;
    var p := m + Padding(|m|, BlockSize(q), field);
    BlockCount(|p|, BlockSize(q));
    DigestOf(StateOf(q, ks, h0, p, |p| / BlockSize(q)), q.w / 8)
  }

  lemma BlockCount(n: nat, size: nat)
    requires size > 0
    ensures n / size * size <= n
    ensures n % size == 0 ==> n / size * size == n
  {
    assert n == size * (n / size) + n % size;
  }

  // ---------------------------------------------------------------- numbers and bytes

  lemma {:induction false} NumberBound(s: seq<Byte>)
    ensures Number(s) < Pow256(|s|)
  {
    if s != [] { NumberBound(s[..|s| - 1]); }
  }

  /** Writing out a number and reading it again. */
  lemma {:induction false} NumberOfBytes(x: nat, n: nat)
    requires x < Pow256(n)
    ensures Number(BigEndian(x, n)) == x
  {
    if n > 0 {
      var s := BigEndian(x, n);
      assert s[..n - 1] == BigEndian(x / 256, n - 1);
      NumberOfBytes(x / 256, n - 1);
    }
  }

  /** Reading bytes and writing the number out again. */
  lemma {:induction false} BytesOfNumber(s: seq<Byte>)
    ensures BigEndian(Number(s), |s|) == s
  {
    if s != [] { BytesOfNumber(s[..|s| - 1]); }
  }

  // ---------------------------------------------------------------- the word operations

  lemma BigSigmaIs(x: nat, r: (nat, nat, nat), w: nat)
    requires x < Pow2(w) && Below(r, w)
    ensures Rotated(x, r.0, r.1, r.2, w) == BigSigma(x, r, w) < Pow2(w)
  {
    hide Bit, FromBits, Pow2, Rotated, Around;
    WordsFit(x, x, x, r.0, r.1, r.2, w);
    var f := (i: nat) => Odd(Bit(x, Around(i, r.0, w)), Bit(x, Around(i, r.1, w)), Bit(x, Around(i, r.2, w)));
    forall j: nat | j < w ensures Bit(Rotated(x, r.0, r.1, r.2, w), j) <==> f(j) {
      RotatedBit(x, r.0, r.1, r.2, w, j);
    }
    IsFromBits(Rotated(x, r.0, r.1, r.2, w), w, f);
    assert BigSigma(x, r, w) == FromBits(w, f);
  }

  lemma SmallSigmaIs(x: nat, r: (nat, nat, nat), w: nat)
    requires x < Pow2(w) && Below(r, w)
    ensures Shifted(x, r.0, r.1, r.2, w) == SmallSigma(x, r, w) < Pow2(w)
  {
    hide Bit, FromBits, Pow2, Shifted, Around;
    WordsFit(x, x, x, r.0, r.1, r.2, w);
    var f := (i: nat) => Odd(Bit(x, Around(i, r.0, w)), Bit(x, Around(i, r.1, w)), i + r.2 < w && Bit(x, i + r.2));
    forall j: nat | j < w ensures Bit(Shifted(x, r.0, r.1, r.2, w), j) <==> f(j) {
      ShiftedBit(x, r.0, r.1, r.2, w, j);
    }
    IsFromBits(Shifted(x, r.0, r.1, r.2, w), w, f);
    assert SmallSigma(x, r, w) == FromBits(w, f);
  }

  lemma ChoiceIs(x: nat, y: nat, z: nat, w: nat)
    requires x < Pow2(w) && y < Pow2(w) && z < Pow2(w)
    ensures Ch(x, y, z, w) == Choice(x, y, z, w) < Pow2(w)
  {
    hide Bit, FromBits, Pow2, Ch;
    WordsFit(x, y, z, 0, 0, 0, w);
    var f := (i: nat) => if Bit(x, i) then Bit(y, i) else Bit(z, i);
    forall j: nat | j < w ensures Bit(Ch(x, y, z, w), j) <==> f(j) { ChBit(x, y, z, w, j); }
    IsFromBits(Ch(x, y, z, w), w, f);
    assert Choice(x, y, z, w) == FromBits(w, f);
  }

  lemma MajorityIs(x: nat, y: nat, z: nat, w: nat)
    requires x < Pow2(w) && y < Pow2(w) && z < Pow2(w)
    ensures Maj(x, y, z) == Majority(x, y, z, w) < Pow2(w)
  {
    hide Bit, FromBits, Pow2, Maj;
    WordsFit(x, y, z, 0, 0, 0, w);
    var f := (i: nat) => Most(Bit(x, i), Bit(y, i), Bit(z, i));
    forall j: nat | j < w ensures Bit(Maj(x, y, z), j) <==> f(j) { MajBit(x, y, z, j); }
    IsFromBits(Maj(x, y, z), w, f);
    assert Majority(x, y, z, w) == FromBits(w, f);
  }

  // ---------------------------------------------------------------- the compression function

  /** The operations are those of the source, with these distances. */
  ghost predicate Implements(ops: Ops<nat>, q: Distances)
    requires Proper(q)
  {
    && (forall x: nat, y: nat :: ops.add(x, y) == Add(x, y, q.w))
    && (forall x: nat :: ops.f1(x) == Rotated(x, q.big0.0, q.big0.1, q.big0.2, q.w))
    && (forall x: nat :: ops.f2(x) == Rotated(x, q.big1.0, q.big1.1, q.big1.2, q.w))
    && (forall x: nat :: ops.f3(x) == Shifted(x, q.small0.0, q.small0.1, q.small0.2, q.w))
    && (forall x: nat :: ops.f4(x) == Shifted(x, q.small1.0, q.small1.1, q.small1.2, q.w))
    && (forall x: nat, y: nat, z: nat :: ops.ch(x, y, z) == Ch(x, y, z, q.w))
    && (forall x: nat, y: nat, z: nat :: ops.maj(x, y, z) == Maj(x, y, z))
  }

  ghost predicate Words(s: seq<nat>, w: nat) {
    forall i :: 0 <= i < |s| ==> s[i] < Pow2(w)
  }

  lemma AddChain(a: nat, b: nat, c: nat, d: nat, w: nat)
    ensures Add(Add(Add(a, b, w), c, w), d, w) == Reduced(a + b + c + d, w)
  {
    hide Add, Reduced;
    AddReduced(a, b, w);
    AddReduced(a + b, c, w);
    AddReduced(a + b + c, d, w);
  }

  lemma {:induction false} ScheduleStandard(ops: Ops<nat>, q: Distances, m: seq<nat>, t: nat)
    requires Proper(q) && Implements(ops, q) && |m| == 16 && Words(m, q.w)
    ensures Schedule(ops, m, t) == ScheduleOf(q, m, t) < Pow2(q.w)
  {
    hide Pow2, Rotated, Shifted, Ch, Maj, SmallSigma, BigSigma, Add, Reduced;
    if t >= 16 {
      ScheduleStandard(ops, q, m, t - 2);
      ScheduleStandard(ops, q, m, t - 7);
      ScheduleStandard(ops, q, m, t - 15);
      ScheduleStandard(ops, q, m, t - 16);
      var a, b := ScheduleOf(q, m, t - 2), ScheduleOf(q, m, t - 15);
      SmallSigmaIs(a, q.small1, q.w);
      SmallSigmaIs(b, q.small0, q.w);
      AddChain(SmallSigma(a, q.small1, q.w), ScheduleOf(q, m, t - 7), SmallSigma(b, q.small0, q.w),
               ScheduleOf(q, m, t - 16), q.w);
    }
  }

  lemma T1Standard(ops: Ops<nat>, q: Distances, h: nat, e: nat, f: nat, g: nat, k: nat, x: nat)
    requires Proper(q) && Implements(ops, q) && e < Pow2(q.w) && f < Pow2(q.w) && g < Pow2(q.w)
    ensures T1(ops, h, e, f, g, k, x) ==
      Reduced(h + BigSigma(e, q.big1, q.w) + Choice(e, f, g, q.w) + k + x, q.w)
  {
    hide Pow2, Rotated, Shifted, Ch, Maj, BigSigma, Choice, Add, Reduced;
    BigSigmaIs(e, q.big1, q.w);
    ChoiceIs(e, f, g, q.w);
    var s := h + BigSigma(e, q.big1, q.w) + Choice(e, f, g, q.w) + k;
    AddChain(h, BigSigma(e, q.big1, q.w), Choice(e, f, g, q.w), k, q.w);
    AddReduced(s, x, q.w);
  }

  lemma T2Standard(ops: Ops<nat>, q: Distances, a: nat, b: nat, c: nat)
    requires Proper(q) && Implements(ops, q) && a < Pow2(q.w) && b < Pow2(q.w) && c < Pow2(q.w)
    ensures T2(ops, a, b, c) == Reduced(BigSigma(a, q.big0, q.w) + Majority(a, b, c, q.w), q.w)
  {
    hide Pow2, Rotated, Shifted, Ch, Maj, BigSigma, Majority, Add, Reduced;
    BigSigmaIs(a, q.big0, q.w);
    MajorityIs(a, b, c, q.w);
    AddReduced(BigSigma(a, q.big0, q.w), Majority(a, b, c, q.w), q.w);
  }

  lemma RoundStandard(ops: Ops<nat>, q: Distances, v: Vars<nat>, k: nat, x: nat)
    requires Proper(q) && Implements(ops, q) && Words(ToSeq(v), q.w)
    ensures ToSeq(Round(ops, v, k, x)) == RoundOf(q, ToSeq(v), k, x) && Words(RoundOf(q, ToSeq(v), k, x), q.w)
  {
    hide Pow2, Rotated, Shifted, Ch, Maj, BigSigma, Majority, Choice, T1, T2, Add, Reduced;
    var s := ToSeq(v);
    assert s[0] == v.a && s[1] == v.b && s[2] == v.c && s[4] == v.e && s[5] == v.f && s[6] == v.g;
    T1Standard(ops, q, v.h, v.e, v.f, v.g, k, x);
    T2Standard(ops, q, v.a, v.b, v.c);
    var t1 := v.h + BigSigma(v.e, q.big1, q.w) + Choice(v.e, v.f, v.g, q.w) + k + x;
    var t2 := BigSigma(v.a, q.big0, q.w) + Majority(v.a, v.b, v.c, q.w);
    AddBoth(t1, t2, q.w);
    AddReduced(t1, v.d, q.w);
  }

  lemma {:induction false} RoundsStandard(ops: Ops<nat>, q: Distances, v: Vars<nat>, m: seq<nat>, n: nat)
    requires Proper(q) && Implements(ops, q) && Words(ToSeq(v), q.w) && |m| == 16 && Words(m, q.w) && n <= |ops.k|
    ensures ToSeq(Rounds(ops, v, m, n)) == RoundsOf(q, ops.k, ToSeq(v), m, n)
    ensures Words(RoundsOf(q, ops.k, ToSeq(v), m, n), q.w)
  {
    hide Pow2, Implements, Round, RoundOf, Schedule, ScheduleOf, Words, ToSeq;
    if n > 0 {
      RoundsStandard(ops, q, v, m, n - 1);
      ScheduleStandard(ops, q, m, n - 1);
      RoundStandard(ops, q, Rounds(ops, v, m, n - 1), ops.k[n - 1], Schedule(ops, m, n - 1));
    }
  }

  lemma FromToSeq(h: seq<nat>)
    requires |h| == 8
    ensures ToSeq(FromSeq(h)) == h
  {
  }

  lemma CompressStandard(ops: Ops<nat>, q: Distances, h: seq<nat>, m: seq<nat>)
    requires Proper(q) && Implements(ops, q) && |h| == 8 && Words(h, q.w) && |m| == 16 && Words(m, q.w)
    ensures Compress(ops, h, m) == CompressOf(q, ops.k, h, m) && Words(CompressOf(q, ops.k, h, m), q.w)
  {
    hide Pow2, Rounds, RoundsOf, Implements, ToSeq, FromSeq, Sums;
    FromToSeq(h);
    RoundsStandard(ops, q, FromSeq(h), m, |ops.k|);
    SumsStandard(ops, q, h, RoundsOf(q, ops.k, h, m, |ops.k|), Compress(ops, h, m));
  }

  lemma SumsStandard(ops: Ops<nat>, q: Distances, h: seq<nat>, v: seq<nat>, r: seq<nat>)
    requires Proper(q) && Implements(ops, q) && |h| == |v| == |r| == 8
    requires forall i :: 0 <= i < 8 ==> r[i] == ops.add(h[i], v[i])
    ensures r == Sums(q, h, v) && Words(r, q.w)
  {
    hide Pow2, Reduced, Implements;
    forall i | 0 <= i < 8 ensures r[i] == Reduced(h[i] + v[i], q.w) { AddStandard(ops, q, h[i], v[i]); }
  }

  lemma AddStandard(ops: Ops<nat>, q: Distances, x: nat, y: nat)
    requires Proper(q) && Implements(ops, q)
    ensures ops.add(x, y) == Reduced(x + y, q.w)
  {
    hide Pow2, Reduced, Add, Rotated, Shifted, Ch, Maj;
    AddReduced(x, y, q.w);
  }

  // ---------------------------------------------------------------- the message

  /** The words that the model reads from a block are the numbers that its bytes stand for. */
  ghost predicate Reads(words: seq<Byte> -> seq<nat>, q: Distances) {
    forall m :: |m| == BlockSize(q) ==> words(m) == WordsOf(m, q.w / 8)
  }

  lemma WordsAreWords(m: seq<Byte>, q: Distances)
    requires Proper(q) && |m| == BlockSize(q)
    ensures Words(WordsOf(m, q.w / 8), q.w)
  {
    hide Pow2, Number;
    var n := q.w / 8;
    forall i | 0 <= i < 16 ensures Number(WordAt(m, n, i)) < Pow2(q.w) {
      WordLength(m, n, i);
      NumberBound(WordAt(m, n, i));
      Pow256Is(n);
    }
  }

  lemma WordLength(m: seq<Byte>, n: nat, i: nat)
    requires |m| == 16 * n && i < 16
    ensures |WordAt(m, n, i)| == n
  {
    assert (i + 1) * n == i * n + n;
  }

  lemma {:induction false} Pow256Is(n: nat)
    ensures Pow256(n) == Pow2(8 * n)
  {
    if n > 0 {
      Pow256Is(n - 1);
      Pow2Add(8, 8 * (n - 1));
      assert Pow2(8) == 256;
    }
  }

  /** One block. */
  lemma BlockStandard(ops: Ops<nat>, words: seq<Byte> -> seq<nat>, q: Distances, h: seq<nat>, m: seq<Byte>)
    requires Proper(q) && Implements(ops, q) && Reads(words, q) && |h| == 8 && Words(h, q.w) && |m| == BlockSize(q)
    ensures Fold(BlockOf(ops, words, BlockSize(q)), h, m, BlockSize(q)) == CompressOf(q, ops.k, h, WordsOf(m, q.w / 8))
    ensures Words(CompressOf(q, ops.k, h, WordsOf(m, q.w / 8)), q.w)
  {
    hide Implements, Compress, CompressOf, Words, WordsOf, Pow2, Fold, BlockOf;
    FoldOne(BlockOf(ops, words, BlockSize(q)), h, m, BlockSize(q));
    BlockIs(ops, words, BlockSize(q), h, m);
    WordsAreWords(m, q);
    CompressStandard(ops, q, h, WordsOf(m, q.w / 8));
  }

  lemma {:induction false} FoldStandard(ops: Ops<nat>, words: seq<Byte> -> seq<nat>, q: Distances, h0: seq<nat>,
                                        p: seq<Byte>, b: nat)
    requires Proper(q) && Implements(ops, q) && Reads(words, q) && |h0| == 8 && Words(h0, q.w)
    requires b * BlockSize(q) <= |p|
    ensures Fold(BlockOf(ops, words, BlockSize(q)), h0, p[..b * BlockSize(q)], BlockSize(q)) ==
      StateOf(q, ops.k, h0, p, b)
    ensures Words(StateOf(q, ops.k, h0, p, b), q.w)
  {
    hide Implements, CompressOf, Words, WordsOf, Pow2, Fold, BlockOf, Reads, StateOf, BlockSize;
    var size := BlockSize(q);
    BlockPositive(q);
    var f := BlockOf(ops, words, size);
    if b == 0 {
      FoldNone(f, h0, size);
      StateFirst(q, ops.k, h0, p);
    } else {
      StateNext(q, ops.k, h0, p, b);
      FoldStandard(ops, words, q, h0, p, b - 1);
      var a, last := p[..(b - 1) * size], p[(b - 1) * size..b * size];
      assert p[..b * size] == a + last;
      ModUnique(|a|, size, b - 1, 0);
      FoldAppend(f, h0, a, last, size);
      BlockStandard(ops, words, q, StateOf(q, ops.k, h0, p, b - 1), last);
    }
  }

  lemma BlockPositive(q: Distances)
    requires Proper(q)
    ensures BlockSize(q) > 0
  {
  }

  lemma StateFirst(q: Distances, ks: seq<nat>, h0: seq<nat>, p: seq<Byte>)
    requires Proper(q) && |h0| == 8
    ensures StateOf(q, ks, h0, p, 0) == h0
  {
  }

  lemma StateNext(q: Distances, ks: seq<nat>, h0: seq<nat>, p: seq<Byte>, b: nat)
    requires Proper(q) && |h0| == 8 && b * BlockSize(q) <= |p| && b > 0
    ensures 0 <= (b - 1) * BlockSize(q) && b * BlockSize(q) == (b - 1) * BlockSize(q) + BlockSize(q)
    ensures StateOf(q, ks, h0, p, b) ==
      CompressOf(q, ks, StateOf(q, ks, h0, p, b - 1), WordsOf(p[(b - 1) * BlockSize(q)..b * BlockSize(q)], q.w / 8))
  {
    BlockBounds(q, b);
  }

  /** Operations, words and initial value of an implementation that are the standard's. */
  lemma HashStandard(ops: Ops<nat>, words: seq<Byte> -> seq<nat>, q: Distances, h0: seq<nat>, m: seq<Byte>)
    requires Proper(q) && Implements(ops, q) && Reads(words, q) && |h0| == 8 && Words(h0, q.w)
    ensures var p := m + Padding(|m|, BlockSize(q), 2 * (q.w / 8) + 1);
      && DigestOf(Fold(BlockOf(ops, words, BlockSize(q)), h0, p, BlockSize(q)), q.w / 8) == HashOf(q, ops.k, h0, m)
      && |Fold(BlockOf(ops, words, BlockSize(q)), h0, p, BlockSize(q))| == 8
  {
    hide Implements, Words, Fold, BlockOf, StateOf, Pow2, DigestOf, Padding;
    var size := BlockSize(q);
    var p := m + Padding(|m|, size, 2 * (q.w / 8) + 1);
    PaddedLength(|m|, size, 2 * (q.w / 8) + 1);
    BlockCount(|p|, size);
    assert p[..|p| / size * size] == p;
    FoldStandard(ops, words, q, h0, p, |p| / size);
  }

  lemma PaddedLength(length: nat, size: nat, field: nat)
    requires 0 < field <= size
    ensures field <= |Padding(length, size, field)| < field + size
    ensures (length + |Padding(length, size, field)|) % size == 0
  {
  }

  /** The padding: a one bit, zeros, and the length in bits as a number, so that whole blocks are filled and
      no block too many. */
  lemma PaddingMeans(length: nat, size: nat, field: nat)
    requires 0 < field <= size && 8 * length < Pow256(field - 1)
    ensures var p := Padding(length, size, field);
      && field <= |p| < field + size && (length + |p|) % size == 0 && p[0] == 0x80
      && (forall i :: 1 <= i < |p| - (field - 1) ==> p[i] == 0) && Number(p[|p| - (field - 1)..]) == 8 * length
  {
    hide Number, BigEndian, Pow256;
    PaddedLength(length, size, field);
    NumberOfBytes(8 * length, field - 1);
    var p := Padding(length, size, field);
    assert p[|p| - (field - 1)..] == BigEndian(8 * length, field - 1);
  }

  /** The `i`-th word of a digest of words of `n` bytes. */
  ghost function DigestWord(d: seq<Byte>, n: nat, i: nat): seq<Byte>
    requires (i + 1) * n <= |d|
  {
    MulStep(i + 1, n);
    d[i * n..(i + 1) * n]
  }

  /** Read as numbers, the digest is the hash value again. */
  lemma {:induction false} DigestMeans(h: seq<nat>, n: nat, i: nat)
    requires i < |h| && h[i] < Pow256(n)
    ensures |DigestOf(h, n)| == |h| * n && (i + 1) * n <= |h| * n
    ensures Number(DigestWord(DigestOf(h, n), n, i)) == h[i]
  {
    hide Number, BigEndian, Pow256;
    DigestLength(h, n);
    MulBetween(i, |h|, n);
    MulStep(i + 1, n);
    var d := DigestOf(h, n);
    if i == 0 {
      assert 0 * n == 0 && 1 * n == n;
      assert DigestWord(d, n, 0) == BigEndian(h[0], n);
      NumberOfBytes(h[0], n);
    } else {
      DigestMeans(h[1..], n, i - 1);
      MulStep(i, n);
      assert DigestWord(d, n, i) == DigestWord(DigestOf(h[1..], n), n, i - 1);
    }
  }

  lemma {:induction false} MulBetween(i: nat, k: nat, n: nat)
    requires i < k
    ensures 0 <= i * n <= (i + 1) * n <= k * n
    decreases k
  {
    MulStep(i + 1, n);
    MulStep(k, n);
    if i + 1 < k { MulBetween(i, k - 1, n); }
  }

  lemma {:induction false} DigestLength(h: seq<nat>, n: nat)
    ensures |DigestOf(h, n)| == |h| * n
  {
    if h != [] {
      DigestLength(h[1..], n);
      MulStep(|h|, n);
    }
  }

  lemma NumberFour(a: Byte, b: Byte, c: Byte, d: Byte)
    ensures Number([a, b, c, d]) == ((a as int * 256 + b) * 256 + c) * 256 + d
  {
    assert Number([]) == 0;
    hide Number;
    NumberLast([a]);
    NumberLast([a, b]);
    NumberLast([a, b, c]);
    NumberLast([a, b, c, d]);
    assert [a, b, c, d][..3] == [a, b, c] && [a, b, c][..2] == [a, b] && [a, b][..1] == [a] && [a][..0] == [];
  }

  lemma NumberLast(s: seq<Byte>)
    requires s != []
    ensures Number(s) == 256 * Number(s[..|s| - 1]) + s[|s| - 1]
  {
  }

  lemma Pow256Next(n: nat)
    ensures Pow256(0) == 1 && Pow256(n + 1) == 256 * Pow256(n)
  {
  }

  lemma OneMore(x: nat, p: nat, y: nat, l: nat)
    ensures 256 * (x * p + y) + l == x * (256 * p) + (256 * y + l)
  {
  }

  lemma {:induction false} NumberAppend(s: seq<Byte>, t: seq<Byte>)
    ensures Number(s + t) == Number(s) * Pow256(|t|) + Number(t)
  {
    if t == [] {
      assert s + t == s;
    } else {
      hide Number, Pow256;
      var r := t[..|t| - 1];
      assert (s + t)[..|s + t| - 1] == s + r;
      NumberLast(s + t);
      NumberLast(t);
      NumberAppend(s, r);
      Pow256Next(|r|);
      OneMore(Number(s), Pow256(|r|), Number(r), t[|t| - 1]);
    }
  }

  // ---------------------------------------------------------------- constants

  /** The first eighty primes. */
  const P0: seq<nat> := [2, 3, 5, 7, 11, 13, 17, 19]
  const P1: seq<nat> := [23, 29, 31, 37, 41, 43, 47, 53]
  const P2: seq<nat> := [59, 61, 67, 71, 73, 79, 83, 89]
  const P3: seq<nat> := [97, 101, 103, 107, 109, 113, 127, 131]
  const P4: seq<nat> := [137, 139, 149, 151, 157, 163, 167, 173]
  const P5: seq<nat> := [179, 181, 191, 193, 197, 199, 211, 223]
  const P6: seq<nat> := [227, 229, 233, 239, 241, 251, 257, 263]
  const P7: seq<nat> := [269, 271, 277, 281, 283, 293, 307, 311]
  const P8: seq<nat> := [313, 317, 331, 337, 347, 349, 353, 359]
  const P9: seq<nat> := [367, 373, 379, 383, 389, 397, 401, 409]

  function Cube(x: nat): nat {
    x * x * x
  }

  /** The cube root of `p` is `n` and a fraction, of which `k` are the first bits, in units of `1 / unit`. */
  predicate CubeRootBits(p: nat, n: nat, k: nat, unit: nat) {
    k < unit && Cube(n * unit + k) <= p * Cube(unit) < Cube(n * unit + k + 1)
  }

  ghost predicate CubeRoot(p: nat, k: nat, unit: nat) {
    exists n: nat :: CubeRootBits(p, n, k, unit)
  }

  /** The same for the square root. */
  predicate SquareRootBits(p: nat, n: nat, k: nat, unit: nat) {
    k < unit && (n * unit + k) * (n * unit + k) <= p * (unit * unit) < (n * unit + k + 1) * (n * unit + k + 1)
  }

  /** The words are such bits for the primes, one for one. */
  ghost predicate CubeRoots(ps: seq<nat>, ks: seq<nat>, unit: nat) {
    |ps| == |ks| && forall i :: 0 <= i < |ks| ==> CubeRoot(ps[i], ks[i], unit)
  }

  lemma CubeRootsAppend(ps: seq<nat>, ks: seq<nat>, qs: seq<nat>, ls: seq<nat>, unit: nat)
    requires CubeRoots(ps, ks, unit) && CubeRoots(qs, ls, unit)
    ensures CubeRoots(ps + qs, ks + ls, unit)
  {
    hide CubeRoot;
  }
}
