/** Hashing a message in pieces: the buffering of `sha256_update` and `sha256_final`, and of their
    SHA-512 counterparts, which differ only in the block size and the length field. */
module Sha2Stream {
  import opened Bits
  import opened Sha2Rounds

  type Byte = x: int | 0 <= x < 256

  const UINT: int := 0x1_0000_0000
  const INT: int := 0x8000_0000

  // ---------------------------------------------------------------- the standard

  /** The compression function folded over the whole blocks of `m`. */
  ghost function Fold<H>(f: (H, seq<Byte>) -> H, h: H, m: seq<Byte>, size: nat): H
    requires size > 0
  {
    if |m| < size then h else Fold(f, f(h, m[..size]), m[size..], size)
  }

  function Zeros(n: nat): (z: seq<Byte>)
    ensures |z| == n && forall i :: 0 <= i < n ==> z[i] == 0
  {
    seq(n, _ => 0)
  }

  /** `n` bytes of `x`, most significant first. */
  function BigEndian(x: nat, n: nat): (s: seq<Byte>)
    ensures |s| == n
  {
    if n == 0 then [] else BigEndian(x / 256, n - 1) + [x % 256]
  }

  /** How many zero bytes follow the 0x80, so that with the length field (of `field - 1` bytes) the
      message fills whole blocks. */
  function PadZeros(length: nat, size: nat, field: nat): (k: nat)
    requires 0 < field <= size
    ensures k < size
    ensures (length + field + k) % size == 0
  {
    var r := (length + field) % size;
    PadFills(length + field, size);
    if r == 0 then 0 else size - r
  }

  lemma PadFills(n: nat, size: nat)
    requires size > 0
    ensures var r := n % size; (n + (if r == 0 then 0 else size - r)) % size == 0
  {
    var q, r := n / size, n % size;
    assert n == size * q + r;
    if r != 0 {
      assert n + (size - r) == size * (q + 1);
      ModUnique(n + (size - r), size, q + 1, 0);
    }
  }

  /** The padding of section 5.1 of FIPS 180-2. */
  function Padding(length: nat, size: nat, field: nat): seq<Byte>
    requires 0 < field <= size
  {
    [0x80] + Zeros(PadZeros(length, size, field)) + BigEndian(8 * length, field - 1)
  }

  ghost function Joined(pieces: seq<seq<Byte>>): seq<Byte> {
    if pieces == [] then [] else Joined(pieces[..|pieces| - 1]) + pieces[|pieces| - 1]
  }

  // ---------------------------------------------------------------- lemmas

  lemma JoinedAppend(pieces: seq<seq<Byte>>, i: int)
    requires 0 <= i < |pieces|
    ensures Joined(pieces[..i + 1]) == Joined(pieces[..i]) + pieces[i]
    ensures |Joined(pieces[..i + 1])| <= |Joined(pieces)|
  {
    assert pieces[..i + 1][..i] == pieces[..i];
    JoinedPrefix(pieces, i + 1);
  }

  lemma {:induction false} JoinedPrefix(pieces: seq<seq<Byte>>, i: int)
    requires 0 <= i <= |pieces|
    ensures |Joined(pieces[..i])| <= |Joined(pieces)|
    decreases |pieces|
  {
    if i < |pieces| {
      var front := pieces[..|pieces| - 1];
      JoinedPrefix(front, i);
      assert front[..i] == pieces[..i];
    } else {
      assert pieces[..i] == pieces;
    }
  }

  lemma {:induction false} FoldAppend<H>(f: (H, seq<Byte>) -> H, h: H, a: seq<Byte>, b: seq<Byte>, size: nat)
    requires size > 0 && |a| % size == 0
    ensures Fold(f, h, a + b, size) == Fold(f, Fold(f, h, a, size), b, size)
    decreases |a|
  {
    if |a| < size {
      ModUnique(|a|, size, 0, |a|);
      assert a + b == b;
    } else {
      assert (a + b)[..size] == a[..size] && (a + b)[size..] == a[size..] + b;
      MultipleLess(|a|, size);
      FoldAppend(f, f(h, a[..size]), a[size..], b, size);
    }
  }

  lemma MultipleLess(n: nat, size: nat)
    requires size > 0 && n >= size && n % size == 0
    ensures (n - size) % size == 0
  {
    var q := n / size;
    assert n - size == size * (q - 1);
    ModUnique(n - size, size, q - 1, 0);
  }

  lemma FoldNone<H>(f: (H, seq<Byte>) -> H, h: H, size: nat)
    requires size > 0
    ensures Fold(f, h, [], size) == h
  {
  }

  lemma FoldOne<H>(f: (H, seq<Byte>) -> H, h: H, m: seq<Byte>, size: nat)
    requires size > 0 && |m| == size
    ensures Fold(f, h, m, size) == f(h, m)
  {
    assert m[..size] == m;
  }

  // ---------------------------------------------------------------- the padding the code writes

  /** The padding with only the low 32 bits of the length. */
  function ShortPadding(length: nat, size: nat, field: nat): seq<Byte>
    requires 5 <= field <= size
  {
    [0x80] + Zeros(PadZeros(length, size, field) + (field - 5)) + BigEndian((8 * length) % UINT, 4)
  }

  function Pow256(n: nat): (p: nat)
    ensures p > 0
  {
    if n == 0 then 1 else 256 * Pow256(n - 1)
  }

  lemma {:induction false} BigEndianZero(x: nat, n: nat)
    requires x < Pow256(n)
    ensures BigEndian(x, n) == Zeros(n) <==> x == 0
  {
    if n > 0 {
      BigEndianZero(x / 256, n - 1);
      var s := BigEndian(x, n);
      assert s[..n - 1] == BigEndian(x / 256, n - 1) && s[n - 1] == x % 256;
      assert Zeros(n)[..n - 1] == Zeros(n - 1) && Zeros(n)[n - 1] == 0;
      assert s == s[..n - 1] + [s[n - 1]] && Zeros(n) == Zeros(n)[..n - 1] + [Zeros(n)[n - 1]];
    }
  }

  /** The last four bytes depend on the low 32 bits only. */
  lemma BigEndianSplit(x: nat, n: nat)
    ensures BigEndian(x, n + 4) == BigEndian(x / UINT, n) + BigEndian(x % UINT, 4)
  {
    hide BigEndian;
    LastFour(x, n);
    var a, b, c := x / 256, x / 256 / 256, x / 256 / 256 / 256;
    var low := ((c % 256 * 256 + b % 256) * 256 + a % 256) * 256 + x % 256;
    ModUnique(x, UINT, c / 256, low);
    FourDigits(c % 256, b % 256, a % 256, x % 256);
  }

  lemma FourDigits(d: Byte, c: Byte, b: Byte, a: Byte)
    ensures BigEndian(((d * 256 + c) * 256 + b) * 256 + a, 4) == [d, c, b, a]
  {
    assert BigEndian(0, 0) == [];
    assert BigEndian(d, 1) == [d];
    assert BigEndian(d * 256 + c, 2) == [d, c];
    assert BigEndian((d * 256 + c) * 256 + b, 3) == [d, c, b];
  }

  lemma LastFour(x: nat, n: nat)
    ensures BigEndian(x, n + 4) == BigEndian(x / 256 / 256 / 256 / 256, n)
              + [x / 256 / 256 / 256 % 256, x / 256 / 256 % 256, x / 256 % 256, x % 256]
  {
    var a, b, c := x / 256, x / 256 / 256, x / 256 / 256 / 256;
    assert BigEndian(c, n + 1) == BigEndian(c / 256, n) + [c % 256];
    assert BigEndian(b, n + 2) == BigEndian(c, n + 1) + [b % 256];
    assert BigEndian(a, n + 3) == BigEndian(b, n + 2) + [a % 256];
    assert BigEndian(x, n + 4) == BigEndian(a, n + 3) + [x % 256];
  }

  /** The code pads as the standard says exactly when the message is shorter than 2^29 bytes. */
  lemma PaddingIff(length: nat, size: nat, field: nat)
    requires 9 <= field <= size && 8 * length < Pow256(field - 1)
    ensures ShortPadding(length, size, field) == Padding(length, size, field) <==> length < 0x2000_0000
  {
    hide BigEndian, PadZeros, Pow256;
    var x, n := 8 * length, field - 5;
    BigEndianSplit(x, n);
    HighPart(x, n);
    BigEndianZero(x / UINT, n);
    Paddings(length, size, field, BigEndian(x / UINT, n), BigEndian(x % UINT, 4));
  }

  /** The two paddings differ in the high bytes of the length, which one of them leaves zero. */
  lemma Paddings(length: nat, size: nat, field: nat, high: seq<Byte>, low: seq<Byte>)
    requires 9 <= field <= size && |high| == field - 5
    requires BigEndian(8 * length, field - 1) == high + low && BigEndian((8 * length) % UINT, 4) == low
    ensures ShortPadding(length, size, field) == Padding(length, size, field) <==> high == Zeros(field - 5)
  {
    hide BigEndian, PadZeros;
    var z, n := PadZeros(length, size, field), field - 5;
    var head := [0x80] + Zeros(z);
    assert Zeros(z + n) == Zeros(z) + Zeros(n);
    assert ShortPadding(length, size, field) == head + (Zeros(n) + low);
    assert Padding(length, size, field) == head + (high + low);
    SameMiddle(head, Zeros(n), high, low);
  }

  lemma SameMiddle(head: seq<Byte>, a: seq<Byte>, b: seq<Byte>, low: seq<Byte>)
    requires |a| == |b|
    ensures head + (a + low) == head + (b + low) <==> a == b
  {
    if head + (a + low) == head + (b + low) {
      assert (head + (a + low))[|head|..] == a + low;
      assert (head + (b + low))[|head|..] == b + low;
      assert (a + low)[..|a|] == a && (b + low)[..|a|] == b;
    }
  }

  lemma HighPart(x: nat, n: nat)
    requires x < Pow256(n + 4)
    ensures x / UINT < Pow256(n)
  {
    assert Pow256(n + 4) == 256 * Pow256(n + 3) == 256 * (256 * Pow256(n + 2)) == 256 * (256 * (256 * Pow256(n + 1)));
    assert Pow256(n + 4) == UINT * Pow256(n);
  }

  // ---------------------------------------------------------------- the context

  /** Copies `src` into the buffer from index `at`. */
  method CopyIn(block: array<Byte>, at: nat, src: seq<Byte>)
    requires at + |src| <= block.Length
    modifies block
    ensures block[..at] == old(block[..at]) && block[at..at + |src|] == src
    ensures block[at + |src|..] == old(block[at + |src|..])
  {
    for i := 0 to |src|
      invariant block[..at] == old(block[..at]) && block[at..at + i] == src[..i]
      invariant block[at + i..] == old(block[at + i..])
    {
      ghost var rest := block[at + i..];
      block[at + i] := src[i];
      assert block[at..at + i + 1] == src[..i] + [src[i]];
      assert block[at + i + 1..] == rest[1..];
    }
  }

  function Bytes(n: nat, size: nat): nat {
    n * size
  }

  /** The offset of the last of `n` blocks fits an `int`. */
  predicate Fits(n: nat, size: nat) {
    n == 0 || (n - 1) * size < INT
  }

  /** One block of the message folded into a hash value. */
  ghost function BlockOf<W>(ops: Ops<W>, words: seq<Byte> -> seq<W>, size: nat): (seq<W>, seq<Byte>) -> seq<W> {
    (h, m) => if |h| == 8 && |m| == size && |words(m)| == 16 then Compress(ops, h, words(m)) else h
  }

  lemma BlockIs<W>(ops: Ops<W>, words: seq<Byte> -> seq<W>, size: nat, h: seq<W>, m: seq<Byte>)
    requires |h| == 8 && |m| == size && |words(m)| == 16
    ensures BlockOf(ops, words, size)(h, m) == Compress(ops, h, words(m))
  {
  }

  /** `sha256_ctx` or `sha512_ctx`: `ops` and `words` are those of the word size, `unroll` is the choice
      between the two forms of the rounds, `size` is the block size, `field` one more than the size of
      the length field. `fed` is everything passed to `update` so far. */
  class Context<W> {
    const ops: Ops<W>
    const words: seq<Byte> -> seq<W>
    const unroll: bool
    const h0: seq<W>
    const size: nat
    const field: nat
    const block: array<Byte>
    var totLen: int
    var len: nat
    var h: seq<W>
    ghost const f: (seq<W>, seq<Byte>) -> seq<W>
    ghost var fed: seq<Byte>

    ghost predicate Sized() {
      9 <= field <= size < INT && INT % size == 0 && block.Length == 2 * size
    }

    /** The hash value and the operations fit the word size. */
    ghost predicate Shaped()
      reads this`h
    {
      && |h| == 8 && |ops.k| >= 16 && |ops.k| % 8 == 0 && f == BlockOf(ops, words, size)
      && forall m :: |m| == size ==> |words(m)| == 16
    }

    /** The whole blocks of the message are folded into `h`; the rest of it is in the buffer. */
    ghost predicate Valid()
      reads this, block
    {
      Buffering() && block[..len] == fed[|fed| - len..]
    }

    ghost predicate Buffering()
      reads this
    {
      && Sized() && Shaped() && len < size && len <= |fed|
      && (|fed| - len) % size == 0 && h == Fold(f, h0, fed[..|fed| - len], size)
      && totLen == (|fed| - len) % UINT
    }

    constructor (ops: Ops<W>, words: seq<Byte> -> seq<W>, unroll: bool, h0: seq<W>, size: nat, field: nat)
      requires 9 <= field <= size < INT && INT % size == 0 && |h0| == 8 && |ops.k| >= 16 && |ops.k| % 8 == 0
      requires forall m :: |m| == size ==> |words(m)| == 16
      ensures Valid() && fed == [] && fresh(block) && f == BlockOf(ops, words, size)
      ensures this.h0 == h0 && this.size == size && this.field == field
    {
      this.ops, this.words, this.unroll, this.h0, this.size, this.field := ops, words, unroll, h0, size, field;
      block := new Byte[2 * size];
      totLen, len, h, fed := 0, 0, h0, [];
      f := BlockOf(ops, words, size);
    }

    /** One block of `transf`, in either form. */
    method Rounds(sub: seq<Byte>)
      requires Shaped() && |sub| == size
      modifies this`h
      ensures Shaped() && h == f(old(h), sub)
    {
      hide Compress;
      BlockIs(ops, words, size, h, sub);
      if unroll {
        h := Unrolled(ops, h, words(sub));
      } else {
        h := Rolled(ops, h, words(sub));
      }
    }

    /** `transf`: folds `n` blocks of the bytes into the hash value. The offset of a block is computed
        in an `int`; `ok` is false where that overflows. */
    method Transf(m: seq<Byte>, n: nat) returns (ok: bool)
      requires size > 0 && Shaped() && Bytes(n, size) <= |m|
      modifies this`h
      ensures Shaped() && (ok <==> Fits(n, size))
      ensures ok ==> h == Fold(f, old(h), m[..Bytes(n, size)], size)
    {
      hide Fold, BlockOf, Shaped;
      FoldNone(f, h, size);
      assert m[..0 * size] == [];
      for i := 0 to n
        invariant Shaped() && i * size <= |m| && h == Fold(f, old(h), m[..i * size], size)
        invariant i == 0 || (i - 1) * size < INT
      {
        NextBlock(i, n, size);
        if i * size >= INT {
          return false;
        }
        var sub := m[i * size..(i + 1) * size];
        assert m[..(i + 1) * size] == m[..i * size] + sub;
        FoldAppend(f, old(h), m[..i * size], sub, size);
        FoldOne(f, h, sub, size);
        Rounds(sub);
      }
      ok := true;
    }

    /** `update`. The sum of lengths is taken in 32 bits; if it wraps, the call undoes the end of what was
        fed before. A call that brings in 2^31 bytes and two blocks, or more, overflows the offset. */
    method Update(m: seq<Byte>) returns (ok: bool)
      requires Valid() && |m| < UINT
      modifies this`totLen, this`len, this`h, this`fed, block
      ensures ok <==> old(len) + |m| >= UINT || old(len) + |m| < INT + 2 * size
      ensures ok && old(len) + |m| < UINT ==> Valid() && fed == old(fed) + m
      ensures old(len) + |m| >= UINT ==>
        UINT - |m| <= |old(fed)| && Valid() && fed == old(fed)[..|old(fed)| - (UINT - |m|)]
    {
      hide Fold, BlockOf, Shaped, Buffering;
      BufferFacts();
      var tmp := size - len;
      var rem := if |m| < tmp then |m| else tmp;
      ghost var was := block[..len];
      CopyIn(block, len, m[..rem]);
      SumWraps(len, |m|);
      if (len + |m|) % UINT < size {
        assert rem == |m| ==> m[..rem] == m;
        Absorb(m);
        return true;
      }
      FirstBlock(was, m[..rem], block[..], len, size);
      ok := LongUpdate(m, rem);
    }

    lemma BufferFacts()
      requires Buffering()
      ensures 0 <= len < size < INT && len <= |fed| && block.Length == 2 * size
    {
    }

    /** The end of `update` when the sum of lengths stays below a block. */
    method Absorb(m: seq<Byte>)
      requires Buffering() && block[..len] == fed[|fed| - len..] && |m| < UINT && (len + |m|) % UINT < size
      requires len + |m| < UINT ==> len + |m| <= block.Length && block[len..len + |m|] == m
      modifies this`len, this`fed
      ensures old(len) + |m| < UINT ==> Valid() && fed == old(fed) + m
      ensures old(len) + |m| >= UINT ==>
        UINT - |m| <= |old(fed)| && Valid() && fed == old(fed)[..|old(fed)| - (UINT - |m|)]
    {
      hide Fold, BlockOf, Shaped;
      ghost var k, was := |fed| - len, block[..len];
      SumWraps(len, |m|);
      var n := (len + |m|) % UINT;
      if len + |m| < UINT {
        ShortUpdate(fed, m, k, was, block[..], |m|);
        fed := fed + m;
      } else {
        Undone(fed, k, was, block[..], n);
        fed := fed[..k + n];
      }
      len := n;
    }

    /** The rest of `update` once the buffer is full. */
    method LongUpdate(m: seq<Byte>, rem: nat) returns (ok: bool)
      requires Buffering()
      requires rem == size - len <= |m| && block[..size] == fed[|fed| - len..] + m[..rem]
      modifies this`totLen, this`len, this`h, this`fed, block
      ensures ok <==> old(len) + |m| < INT + 2 * size
      ensures ok ==> Valid() && fed == old(fed) + m
    {
      hide Fold, BlockOf, Shaped, Bytes, Fits;
      var newLen := |m| - rem;
      var nb, whole := newLen / size, Bytes(newLen / size, size);
      WholeBlocks(newLen, size);
      FitsBelow(newLen, size);
      ok := TransfBlocks(m, rem, nb);
      if !ok {
        return;
      }
      UpdateTotal(|fed| - len, totLen, nb, size);
      CopyIn(block, 0, m[rem..][whole..]);
      fed := fed + m;
      len := newLen - whole;
      totLen := (totLen + Bytes(nb + 1, size)) % UINT;
    }

    /** The full buffer and the whole blocks of the rest of the message. */
    method TransfBlocks(m: seq<Byte>, rem: nat, nb: nat) returns (ok: bool)
      requires Buffering() && rem == size - len <= |m| && Bytes(nb, size) <= |m| - rem
      requires block[..size] == fed[|fed| - len..] + m[..rem]
      modifies this`h
      ensures Shaped() && (ok <==> Fits(nb, size))
      ensures ok ==>
        var k := |fed| - len + size + Bytes(nb, size);
        && k % size == 0 && k <= |fed + m| && (fed + m)[k..] == m[rem..][Bytes(nb, size)..]
        && h == Fold(f, h0, (fed + m)[..k], size)
    {
      hide Fold, BlockOf, Shaped;
      UpdateFold(f, h0, fed, |fed| - len, m, rem, nb, size);
      assert Bytes(1, size) == size && block[..][..size] == block[..size];
      ok := Transf(block[..], 1);
      ok := Transf(m[rem..], nb);
    }

    /** Writes the padding behind the buffered bytes, up to index `pm`. */
    method WritePadding(pm: nat, lenB: nat)
      requires len + 5 <= pm <= block.Length
      modifies block
      ensures block[..pm] == old(block[..len]) + ([0x80] + Zeros(pm - len - 5) + BigEndian(lenB, 4))
    {
      hide BigEndian;
      ghost var tail := block[..len];
      CopyIn(block, len, Zeros(pm - len));
      ghost var cleared := block[..];
      block[len] := 0x80;
      ghost var mid := block[..];
      CopyIn(block, pm - 4, BigEndian(lenB, 4));
      PaddedBuffer(tail, cleared, mid, block[..], len, pm, BigEndian(lenB, 4));
    }

    /** `final`: pads in the buffer and folds it in. The result is the hash of everything fed, padded
        as the standard says when that is shorter than 2^29 bytes. */
    method Final() returns (r: seq<W>)
      requires Valid()
      modifies this`h, block
      ensures r == Fold(f, h0, fed + ShortPadding(|fed|, size, field), size)
      ensures |fed| < 0x2000_0000 ==> r == Fold(f, h0, fed + Padding(|fed|, size, field), size)
    {
      hide Fold, ShortPadding, Padding, BigEndian, Zeros, BlockOf, Shaped;
      var nb := 1 + (if size - field < len % size then 1 else 0);
      var lenB := (8 * ((totLen + len) % UINT)) % UINT;
      var pm := nb * size;
      ghost var k, tail := |fed| - len, block[..len];
      LengthBits(k, len, totLen);
      PadLength(k, len, size, field);
      OneOrTwo(nb, size);
      WritePadding(pm, lenB);
      FinalPadding(fed, k, tail, size, field, block[..pm]);
      FinalFold(f, h0, fed, k, ShortPadding(|fed|, size, field), size);
      assert block[..][..pm] == block[..pm];
      assert Bytes(nb, size) == pm;
      var ok := Transf(block[..], nb);
      r := h;
      if |fed| < 0x2000_0000 {
        FieldHolds(|fed|, field);
        PaddingIff(|fed|, size, field);
      }
    }
  }

  lemma SumWraps(a: nat, b: nat)
    ensures a + b < UINT ==> (a + b) % UINT == a + b
    ensures UINT <= a + b < 2 * UINT ==> (a + b) % UINT == a + b - UINT
  {
    if a + b < UINT { ModUnique(a + b, UINT, 0, a + b); }
    if UINT <= a + b < 2 * UINT { ModUnique(a + b, UINT, 1, a + b - UINT); }
  }

  lemma WholeBlocks(n: nat, size: nat)
    requires size > 0
    ensures Bytes(n / size, size) <= n && n - Bytes(n / size, size) == n % size < size
  {
    assert n == size * (n / size) + n % size;
  }

  /** The message still fits into the buffer. */
  lemma ShortUpdate(fed: seq<Byte>, m: seq<Byte>, k: int, was: seq<Byte>, buffer: seq<Byte>, rem: int)
    requires 0 <= k <= |fed| && was == fed[k..] && 0 <= rem <= |m| && |was| + rem <= |buffer|
    requires buffer[..|was|] == was && buffer[|was|..|was| + rem] == m[..rem]
    ensures rem == |m| ==> buffer[..|was| + |m|] == (fed + m)[k..] && (fed + m)[..k] == fed[..k]
  {
    if rem == |m| {
      assert buffer[..|was| + |m|] == buffer[..|was|] + buffer[|was|..|was| + |m|];
      assert m[..rem] == m;
    }
  }

  lemma OneOrTwo(nb: nat, size: nat)
    requires 1 <= nb <= 2 && size < INT
    ensures Fits(nb, size)
  {
  }

  /** A shorter part of what is in the buffer is the end of a shorter message. */
  lemma Undone(fed: seq<Byte>, k: int, was: seq<Byte>, buffer: seq<Byte>, n: int)
    requires 0 <= k <= |fed| && was == fed[k..] && 0 <= n <= |was| <= |buffer| && buffer[..|was|] == was
    ensures buffer[..n] == fed[..k + n][k..] && fed[..k + n][..k] == fed[..k]
  {
    assert buffer[..n] == was[..n];
  }

  /** The offset of the last block fits an `int` exactly below 2^31 bytes and one block. */
  lemma FitsBelow(newLen: nat, size: nat)
    requires 0 < size < INT && INT % size == 0
    ensures Fits(newLen / size, size) <==> newLen < INT + size
  {
    var nb, q := newLen / size, INT / size;
    assert INT == size * q && newLen == size * nb + newLen % size;
    if nb >= q + 1 {
      MulGap(size, q, nb);
    } else {
      MulGap(size, nb, q + 1);
    }
  }

  lemma FirstBlock(was: seq<Byte>, part: seq<Byte>, buffer: seq<Byte>, len: int, size: int)
    requires |was| == len && len + |part| == size <= |buffer|
    requires buffer[..len] == was && buffer[len..size] == part
    ensures buffer[..size] == was + part
  {
    assert buffer[..size] == buffer[..len] + buffer[len..size];
  }

  /** The buffer filled up, then the whole blocks of the new bytes, continue the fold. */
  lemma UpdateFold<H>(f: (H, seq<Byte>) -> H, h0: H, fed: seq<Byte>, k: int, m: seq<Byte>, rem: int, nb: nat, size: nat)
    requires size > 0 && 0 <= k <= |fed| && k % size == 0 && 0 <= rem <= |m| && |fed| - k + rem == size
    requires nb * size <= |m| - rem
    ensures var fed', k' := fed + m, k + size + nb * size;
      && k' % size == 0 && k' <= |fed'| && fed'[k'..] == m[rem..][nb * size..]
      && Fold(f, h0, fed'[..k'], size)
         == Fold(f, Fold(f, Fold(f, h0, fed[..k], size), fed[k..] + m[..rem], size), m[rem..][..nb * size], size)
  {
    var fed', k' := fed + m, k + size + nb * size;
    var a, b, c := fed[..k], fed[k..] + m[..rem], m[rem..][..nb * size];
    assert fed'[..k'] == (a + b) + c;
    MultipleSum(k, size, nb);
    FoldAppend(f, h0, a + b, c, size);
    FoldAppend(f, h0, a, b, size);
  }

  lemma MultipleSum(k: nat, size: nat, nb: nat)
    requires size > 0 && k % size == 0
    ensures (k + size) % size == 0 && (k + size + nb * size) % size == 0
  {
    var q := k / size;
    assert k == size * q;
    assert k + size == size * (q + 1) && k + size + nb * size == size * (q + 1 + nb);
    ModUnique(k + size, size, q + 1, 0);
    ModUnique(k + size + nb * size, size, q + 1 + nb, 0);
  }

  lemma UpdateTotal(k: nat, total: int, nb: nat, size: nat)
    requires total == k % UINT
    ensures (total + Bytes(nb + 1, size)) % UINT == (k + size + Bytes(nb, size)) % UINT
  {
    assert (nb + 1) * size == size + nb * size;
    ModAdd(k, (nb + 1) * size, UINT);
  }

  lemma NextBlock(i: nat, n: nat, size: nat)
    requires i < n && size > 0
    ensures (i + 1) * size == i * size + size <= n * size && (i * size) % size == 0
  {
    MulGap(size, i, n);
    ModUnique(i * size, size, i, 0);
  }

  lemma LengthBits(k: nat, len: nat, total: int)
    requires total == k % UINT
    ensures (8 * ((total + len) % UINT)) % UINT == (8 * (k + len)) % UINT
  {
    ModAdd(k, len, UINT);
    var n := k + len;
    var q, r := n / UINT, n % UINT;
    var u, t := (8 * r) / UINT, (8 * r) % UINT;
    ModUnique(8 * n, UINT, 8 * q + u, t);
  }

  /** The code leaves room for exactly the zeros that the standard asks for. */
  lemma PadLength(k: nat, len: nat, size: nat, field: nat)
    requires 9 <= field <= size && k % size == 0 && len < size
    ensures var nb := 1 + (if size - field < len % size then 1 else 0);
      && nb * size == (if size - field < len then 2 * size else size)
      && PadZeros(k + len, size, field) == nb * size - len - field && len + field <= nb * size
  {
    ModUnique(len, size, 0, len);
    var q := k / size;
    assert k == size * q;
    if size - field < len {
      assert k + len + field == size * (q + 1) + (len + field - size);
      ModUnique(k + len + field, size, q + 1, len + field - size);
    } else if len + field == size {
      assert size * (q + 1) == size * q + size;
      ModUnique(k + len + field, size, q + 1, 0);
    } else {
      ModUnique(k + len + field, size, q, len + field);
    }
  }

  /** The buffer after clearing, marking the end and writing the length. */
  lemma PaddedBuffer(tail: seq<Byte>, cleared: seq<Byte>, mid: seq<Byte>, buffer: seq<Byte>, len: nat, pm: nat,
                     low: seq<Byte>)
    requires |tail| == len && len + 5 <= pm <= |cleared| == |buffer| && |low| == 4
    requires cleared[..len] == tail && cleared[len..pm] == Zeros(pm - len) && mid == cleared[len := 0x80]
    requires buffer[..pm - 4] == mid[..pm - 4] && buffer[pm - 4..pm] == low
    ensures buffer[..pm] == tail + ([0x80] + Zeros(pm - len - 5) + low)
  {
    assert forall i :: 0 <= i < pm - 4 ==> buffer[i] == buffer[..pm - 4][i] == mid[i];
    assert forall i :: len < i < pm - 4 ==> mid[i] == cleared[len..pm][i - len];
    assert buffer[..len] == cleared[..len];
    FinalBuffer(tail, buffer, len, pm, low);
  }

  lemma FinalBuffer(tail: seq<Byte>, buffer: seq<Byte>, len: nat, pm: nat, low: seq<Byte>)
    requires |tail| == len && len + 5 <= pm <= |buffer| && |low| == 4
    requires buffer[..len] == tail && buffer[len] == 0x80 && buffer[pm - 4..pm] == low
    requires forall i :: len < i < pm - 4 ==> buffer[i] == 0
    ensures buffer[..pm] == tail + ([0x80] + Zeros(pm - len - 5) + low)
  {
    var r := tail + ([0x80] + Zeros(pm - len - 5) + low);
    forall i | 0 <= i < pm ensures buffer[i] == r[i] {
      if i < len {
        assert buffer[i] == buffer[..len][i];
      } else if i >= pm - 4 {
        assert buffer[i] == buffer[pm - 4..pm][i - (pm - 4)];
      }
    }
  }

  lemma FinalPadding(fed: seq<Byte>, k: nat, tail: seq<Byte>, size: nat, field: nat, buffer: seq<Byte>)
    requires 9 <= field <= size && k <= |fed| && k % size == 0 && tail == fed[k..] && |tail| < size
    requires |buffer| >= |tail| + field && PadZeros(|fed|, size, field) == |buffer| - |tail| - field
    requires buffer == tail + ([0x80] + Zeros(|buffer| - |tail| - 5) + BigEndian((8 * |fed|) % UINT, 4))
    ensures buffer == tail + ShortPadding(|fed|, size, field)
  {
  }

  lemma FinalFold<H>(f: (H, seq<Byte>) -> H, h0: H, fed: seq<Byte>, k: nat, pad: seq<Byte>, size: nat)
    requires size > 0 && k <= |fed| && k % size == 0
    ensures Fold(f, h0, fed + pad, size) == Fold(f, Fold(f, h0, fed[..k], size), fed[k..] + pad, size)
  {
    assert fed + pad == fed[..k] + (fed[k..] + pad);
    FoldAppend(f, h0, fed[..k], fed[k..] + pad, size);
  }

  lemma FieldHolds(length: nat, field: nat)
    requires length < 0x2000_0000 && 9 <= field
    ensures 8 * length < Pow256(field - 1)
  {
    assert Pow256(8) == 0x1_0000_0000_0000_0000;
    Pow256Monotone(8, field - 1);
  }

  lemma {:induction false} Pow256Monotone(a: nat, b: nat)
    requires a <= b
    ensures Pow256(a) <= Pow256(b)
  {
    if a < b { Pow256Monotone(a, b - 1); }
  }
}
