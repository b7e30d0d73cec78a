/** The wire format that idlc generates for the arguments of a remote call: fixed fields in
    declaration order, then the data of strings, blobs and custom types. */
module Serialization {

  type Byte = x: int | 0 <= x < 256

  const UINT32: int := 0x1_0000_0000

  datatype Type =
    | Bool | Int8 | Int16 | Int32 | Int64 | UInt8 | UInt16 | UInt32 | UInt64 | Float32 | Float64
    | String | Blob | Custom

  predicate IsBlob(t: Type) {
    t == String || t == Blob || t == Custom
  }

  /** Bytes of the fixed field; blobs have an offset and a length there. */
  function WireSize(t: Type): (n: nat)
    ensures 1 <= n <= 8 && (IsBlob(t) ==> n == 8)
  {
    match t
    case Bool | Int8 | UInt8 => 1
    case Int16 | UInt16 => 2
    case Int32 | UInt32 | Float32 => 4
    case _ => 8
  }

  /** Bits of a scalar type. */
  function BitsOf(t: Type): nat {
    match t
    case Int8 | UInt8 => 8
    case Int16 | UInt16 => 16
    case Int32 | UInt32 | Float32 => 32
    case Int64 | UInt64 | Float64 => 64
    case _ => 0
  }

  /** A number takes its bits, a truth value one byte, and a blob two 32-bit words. */
  lemma FieldWidths(t: Type)
    ensures 8 * WireSize(t) == if t == Bool then 8 else if IsBlob(t) then 2 * 32 else BitsOf(t)
  {
  }

  /** Values are given by their bytes: as many as the field has for a scalar, any number for a blob.
      A custom type stands for what its own serializer writes. */
  ghost predicate WellTyped(types: seq<Type>, values: seq<seq<Byte>>) {
    |values| == |types| && forall i :: 0 <= i < |types| && !IsBlob(types[i]) ==> |values[i]| == WireSize(types[i])
  }

  // ---------------------------------------------------------------- layout

  /** Where the fixed field of argument `i` starts. */
  function Offset(types: seq<Type>, i: int): nat
    requires 0 <= i <= |types|
  {
    if i == 0 then 0 else Offset(types, i - 1) + WireSize(types[i - 1])
  }

  function ScalarBytes(types: seq<Type>): nat {
    Offset(types, |types|)
  }

  function BlobStart(types: seq<Type>): nat {
    ((ScalarBytes(types) + 7) / 8) * 8
  }

  function BlobSize(types: seq<Type>, values: seq<seq<Byte>>, i: int): nat
    requires |values| == |types| && 0 <= i < |types|
  {
    if IsBlob(types[i]) then |values[i]| else 0
  }

  /** Where the blob of argument `i` starts. */
  function BlobOffset(types: seq<Type>, values: seq<seq<Byte>>, i: int): nat
    requires |values| == |types| && 0 <= i <= |types|
  {
    if i == 0 then BlobStart(types) else BlobOffset(types, values, i - 1) + BlobSize(types, values, i - 1)
  }

  function TotalBytes(types: seq<Type>, values: seq<seq<Byte>>): nat
    requires |values| == |types|
  {
    BlobOffset(types, values, |types|)
  }

  lemma {:induction false} OffsetOrder(types: seq<Type>, i: int, j: int)
    requires 0 <= i < j <= |types|
    ensures Offset(types, i) + WireSize(types[i]) <= Offset(types, j)
    decreases j
  {
    if i < j - 1 { OffsetOrder(types, i, j - 1); }
  }

  lemma {:induction false} BlobOrder(types: seq<Type>, values: seq<seq<Byte>>, i: int, j: int)
    requires |values| == |types| && 0 <= i < j <= |types|
    ensures BlobOffset(types, values, i) + BlobSize(types, values, i) <= BlobOffset(types, values, j)
    decreases j
  {
    if i < j - 1 { BlobOrder(types, values, i, j - 1); }
  }

  lemma OffsetZero(types: seq<Type>)
    ensures Offset(types, 0) == 0
  {
  }

  lemma OffsetNext(types: seq<Type>, i: int)
    requires 0 <= i < |types|
    ensures Offset(types, i + 1) == Offset(types, i) + WireSize(types[i])
  {
  }

  lemma FieldInside(types: seq<Type>, i: int)
    requires 0 <= i < |types|
    ensures Offset(types, i) + WireSize(types[i]) <= ScalarBytes(types) <= BlobStart(types)
  {
    OffsetOrder(types, i, |types|);
  }

  lemma BlobInside(types: seq<Type>, values: seq<seq<Byte>>, i: int)
    requires |values| == |types| && 0 <= i < |types|
    ensures BlobStart(types) <= BlobOffset(types, values, i)
    ensures BlobOffset(types, values, i) + BlobSize(types, values, i) <= TotalBytes(types, values)
  {
    BlobOrder(types, values, i, |types|);
    if i > 0 { BlobOrder(types, values, 0, i); }
  }

  /** Fields and blobs lie inside the message, and no two of them overlap. */
  lemma Extents(types: seq<Type>, values: seq<seq<Byte>>, i: int, j: int)
    requires |values| == |types| && 0 <= i < j < |types|
    ensures Offset(types, i) + WireSize(types[i]) <= Offset(types, j)
    ensures Offset(types, j) + WireSize(types[j]) <= BlobOffset(types, values, i)
    ensures BlobOffset(types, values, i) + BlobSize(types, values, i) <= BlobOffset(types, values, j)
    ensures BlobOffset(types, values, j) + BlobSize(types, values, j) <= TotalBytes(types, values)
  {
    OffsetOrder(types, i, j);
    FieldInside(types, j);
    BlobOrder(types, values, i, j);
    BlobInside(types, values, i);
    BlobInside(types, values, j);
  }

  /** The next field starts where this one ends. */
  predicate Packed(sizes: seq<nat>, ends: seq<nat>, i: int) {
    0 <= i < |sizes| && i + 1 < |ends| && ends[i + 1] == ends[i] + sizes[i]
  }

  /** `serWriteArgs`: the tables of sizes and offsets that go into the generated structure. */
  method Layout(types: seq<Type>) returns (sizes: seq<nat>, offsets: seq<nat>, scalarBytes: nat, blobStart: nat)
    ensures |sizes| == |offsets| == |types|
    ensures forall i :: 0 <= i < |types| ==> sizes[i] == WireSize(types[i]) && offsets[i] == Offset(types, i)
    ensures scalarBytes == ScalarBytes(types) && blobStart == BlobStart(types)
    ensures blobStart % 8 == 0 && scalarBytes <= blobStart < scalarBytes + 8
    ensures forall i :: 0 <= i < |types| ==> Packed(sizes, offsets + [scalarBytes], i)
    ensures if types == [] then scalarBytes == 0 else offsets[0] == 0
  {
    hide WireSize, Offset;
    sizes, offsets, scalarBytes := [], [], 0;
    OffsetZero(types);
    for i := 0 to |types|
      invariant |sizes| == |offsets| == i && scalarBytes == Offset(types, i)
      invariant forall j :: 0 <= j < i ==> sizes[j] == WireSize(types[j])
      invariant forall j :: 0 <= j < i ==> offsets[j] == Offset(types, j)
    {
      var bytes := WireSize(types[i]);
      sizes, offsets := sizes + [bytes], offsets + [scalarBytes];
      OffsetNext(types, i);
      scalarBytes := scalarBytes + bytes;
    }
    blobStart := ((scalarBytes + 7) / 8) * 8;
    forall i | 0 <= i < |types| ensures Packed(sizes, offsets + [scalarBytes], i) {
      OffsetNext(types, i);
    }
  }

  /** The generated `bytesFor`. */
  method BytesFor(types: seq<Type>, values: seq<seq<Byte>>) returns (len: nat)
    requires |values| == |types|
    ensures len == TotalBytes(types, values)
  {
    len := BlobStart(types);
    for i := 0 to |types|
      invariant len == BlobOffset(types, values, i)
    {
      if IsBlob(types[i]) {
        len := len + |values[i]|;
      }
    }
  }

  // ---------------------------------------------------------------- encoding

  /** A 32-bit number in memory, least significant byte first. */
  function Le32(x: int): (s: seq<Byte>)
    requires 0 <= x < UINT32
    ensures |s| == 4
  {
    [x % 256, x / 256 % 256, x / 256 / 256 % 256, x / 256 / 256 / 256]
  }

  function FromLe32(s: seq<Byte>): (x: int)
    requires |s| == 4
    ensures 0 <= x < UINT32
  {
    var d: int, c: int, b: int, a: int := s[0], s[1], s[2], s[3];
    d + 256 * (c + 256 * (b + 256 * a))
  }

  /** The four bytes are the digits of the number in base 256, the lowest first; reading them adds up the
      same way. */
  lemma Le32Bytes(x: int, s: seq<Byte>)
    requires 0 <= x < UINT32 && |s| == 4
    ensures var t := Le32(x); x == t[0] as int + 0x100 * t[1] as int + 0x1_0000 * t[2] as int + 0x100_0000 * t[3] as int
    ensures FromLe32(s) == s[0] as int + 0x100 * s[1] as int + 0x1_0000 * s[2] as int + 0x100_0000 * s[3] as int
    ensures Le32(FromLe32(s)) == s
  {
    Le32Unique(s[0], s[1], s[2], s[3]);
  }

  lemma Le32Unique(d: Byte, c: Byte, b: Byte, a: Byte)
    ensures var x := d as int + 256 * (c as int + 256 * (b as int + 256 * a as int));
      0 <= x < UINT32 && Le32(x) == [d, c, b, a]
  {
    var x := d as int + 256 * (c as int + 256 * (b as int + 256 * a as int));
    assert x / 256 == c as int + 256 * (b as int + 256 * a as int);
    assert x / 256 / 256 == b as int + 256 * a as int;
  }

  lemma Le32RoundTrip(x: int)
    requires 0 <= x < UINT32
    ensures FromLe32(Le32(x)) == x
  {
  }

  /** The bytes `[at, at + |s|)` of the message are `s`. */
  ghost predicate At(m: seq<Byte>, at: nat, s: seq<Byte>) {
    at + |s| <= |m| && m[at..at + |s|] == s
  }

  /** The message holds argument `i`. */
  ghost predicate Holds(m: seq<Byte>, types: seq<Type>, values: seq<seq<Byte>>, i: int)
    requires WellTyped(types, values) && TotalBytes(types, values) < UINT32 && 0 <= i < |types|
  {
    if IsBlob(types[i]) then
      BlobInside(types, values, i);
      && At(m, Offset(types, i), Le32(BlobOffset(types, values, i)) + Le32(|values[i]|))
      && At(m, BlobOffset(types, values, i), values[i])
    else At(m, Offset(types, i), values[i])
  }

  ghost predicate Encodes(m: seq<Byte>, types: seq<Type>, values: seq<seq<Byte>>)
    requires WellTyped(types, values) && TotalBytes(types, values) < UINT32
  {
    |m| >= TotalBytes(types, values) && forall i :: 0 <= i < |types| ==> Holds(m, types, values, i)
  }

  /** Writing elsewhere leaves a stretch as it was. */
  lemma AtKept(m: seq<Byte>, m': seq<Byte>, at: nat, s: seq<Byte>, from: nat, stop: nat)
    requires At(m, at, s) && |m'| == |m| && from <= stop <= |m|
    requires m'[..from] == m[..from] && m'[stop..] == m[stop..]
    requires at + |s| <= from || stop <= at
    ensures At(m', at, s)
  {
    var n := at + |s|;
    forall i | at <= i < n ensures m'[i] == m[i] {
      if n <= from {
        assert m'[..from][i] == m[..from][i];
      } else {
        assert m'[stop..][i - stop] == m[stop..][i - stop];
      }
    }
    assert m'[at..n] == m[at..n];
  }

  /** The two messages differ at most in `[at, at + n)`. */
  ghost predicate Outside(m: seq<Byte>, m': seq<Byte>, at: nat, n: nat) {
    at + n <= |m| == |m'| && m'[..at] == m[..at] && m'[at + n..] == m[at + n..]
  }

  method Copy(out: array<Byte>, at: nat, s: seq<Byte>)
    requires at + |s| <= out.Length
    modifies out
    ensures At(out[..], at, s) && Outside(old(out[..]), out[..], at, |s|)
  {
    for i := 0 to |s|
      invariant out[..at] == old(out[..at]) && out[at..at + i] == s[..i]
      invariant out[at + i..] == old(out[at + i..])
    {
      ghost var rest := out[at + i..];
      out[at + i] := s[i];
      assert out[at..at + i + 1] == s[..i] + [s[i]];
      assert out[at + i + 1..] == rest[1..];
    }
    assert out[..][at..at + |s|] == out[at..at + |s|];
    assert out[..][..at] == out[..at] && out[..][at + |s|..] == out[at + |s|..];
  }

  predicate Disjoint(at: nat, n: nat, at': nat, n': nat) {
    at + n <= at' || at' + n' <= at
  }

  /** An argument stays when its field and its blob are not written to. */
  lemma HoldsOutside(m: seq<Byte>, m': seq<Byte>, types: seq<Type>, values: seq<seq<Byte>>, j: int, at: nat, n: nat)
    requires WellTyped(types, values) && TotalBytes(types, values) < UINT32 && 0 <= j < |types|
    requires Holds(m, types, values, j) && Outside(m, m', at, n)
    requires Disjoint(Offset(types, j), WireSize(types[j]), at, n)
    requires IsBlob(types[j]) ==> Disjoint(BlobOffset(types, values, j), |values[j]|, at, n)
    ensures Holds(m', types, values, j)
  {
    hide Offset, BlobOffset, WireSize, Le32, At, BlobStart;
    if IsBlob(types[j]) {
      BlobInside(types, values, j);
      AtKept(m, m', Offset(types, j), Le32(BlobOffset(types, values, j)) + Le32(|values[j]|), at, at + n);
      AtKept(m, m', BlobOffset(types, values, j), values[j], at, at + n);
    } else {
      AtKept(m, m', Offset(types, j), values[j], at, at + n);
    }
  }

  /** The message holds the first `n` arguments. */
  ghost predicate HoldsTo(m: seq<Byte>, types: seq<Type>, values: seq<seq<Byte>>, n: int)
    requires WellTyped(types, values) && TotalBytes(types, values) < UINT32 && 0 <= n <= |types|
  {
    forall j :: 0 <= j < n ==> Holds(m, types, values, j)
  }

  /** Writing the field or the blob of argument `i` keeps the arguments before it. */
  lemma HoldsToOutside(m: seq<Byte>, m': seq<Byte>, types: seq<Type>, values: seq<seq<Byte>>, i: int, at: nat, n: nat)
    requires WellTyped(types, values) && TotalBytes(types, values) < UINT32 && 0 <= i < |types|
    requires HoldsTo(m, types, values, i) && Outside(m, m', at, n)
    requires
      || (at == Offset(types, i) && n == WireSize(types[i]))
      || (at == BlobOffset(types, values, i) && n == BlobSize(types, values, i))
    ensures HoldsTo(m', types, values, i)
  {
    hide Offset, BlobOffset, WireSize, Le32, At, Holds, Outside, BlobStart;
    forall j | 0 <= j < i ensures Holds(m', types, values, j) {
      Extents(types, values, j, i);
      FieldInside(types, j);
      BlobInside(types, values, i);
      HoldsOutside(m, m', types, values, j, at, n);
    }
  }

  /** The generated `serialize`: the data of each blob, then its offset and length; scalars as they
      are. Only the message's own bytes change. */
  method Serialize(out: array<Byte>, types: seq<Type>, values: seq<seq<Byte>>)
    requires WellTyped(types, values) && TotalBytes(types, values) < UINT32
    requires out.Length >= TotalBytes(types, values)
    modifies out
    ensures Encodes(out[..], types, values)
    ensures out[..][TotalBytes(types, values)..] == old(out[..])[TotalBytes(types, values)..]
  {
    hide Offset, BlobOffset, WireSize, Le32, At, Holds, BlobStart;
    var blobOff := BlobStart(types);
    BlobAtStart(types, values);
    for i := 0 to |types|
      invariant blobOff == BlobOffset(types, values, i) && HoldsTo(out[..], types, values, i)
      invariant out[..][TotalBytes(types, values)..] == old(out[..])[TotalBytes(types, values)..]
    {
      FieldInside(types, i);
      BlobInside(types, values, i);
      SerializeOne(out, types, values, i, blobOff);
      BlobNext(types, values, i);
      if IsBlob(types[i]) {
        blobOff := blobOff + |values[i]|;
      }
    }
  }

  lemma BlobAtStart(types: seq<Type>, values: seq<seq<Byte>>)
    requires |values| == |types|
    ensures BlobOffset(types, values, 0) == BlobStart(types)
  {
  }

  lemma BlobNext(types: seq<Type>, values: seq<seq<Byte>>, i: int)
    requires |values| == |types| && 0 <= i < |types|
    ensures BlobOffset(types, values, i + 1) == BlobOffset(types, values, i) + BlobSize(types, values, i)
  {
  }

  lemma TailKept(m: seq<Byte>, m': seq<Byte>, at: nat, n: nat, total: nat)
    requires Outside(m, m', at, n) && at + n <= total <= |m|
    ensures m'[total..] == m[total..]
  {
    assert m'[total..] == m'[at + n..][total - at - n..];
    assert m[total..] == m[at + n..][total - at - n..];
  }

  lemma HoldsNext(m: seq<Byte>, types: seq<Type>, values: seq<seq<Byte>>, i: int)
    requires WellTyped(types, values) && TotalBytes(types, values) < UINT32 && 0 <= i < |types|
    requires HoldsTo(m, types, values, i) && Holds(m, types, values, i)
    ensures HoldsTo(m, types, values, i + 1)
  {
  }

  /** The code generated for one argument. */
  method SerializeOne(out: array<Byte>, types: seq<Type>, values: seq<seq<Byte>>, i: int, blobOff: nat)
    requires WellTyped(types, values) && TotalBytes(types, values) < UINT32 && 0 <= i < |types|
    requires out.Length >= TotalBytes(types, values) && blobOff == BlobOffset(types, values, i)
    requires HoldsTo(out[..], types, values, i)
    modifies out
    ensures HoldsTo(out[..], types, values, i + 1)
    ensures out[..][TotalBytes(types, values)..] == old(out[..])[TotalBytes(types, values)..]
  {
    hide Offset, BlobOffset, WireSize, Le32, BlobStart, TotalBytes, At, Outside, HoldsTo;
    FieldInside(types, i);
    BlobInside(types, values, i);
    var off := Offset(types, i);
    ghost var total, m0 := TotalBytes(types, values), out[..];
    if IsBlob(types[i]) {
      Copy(out, blobOff, values[i]);
      ghost var m1 := out[..];
      HoldsToOutside(m0, m1, types, values, i, blobOff, |values[i]|);
      TailKept(m0, m1, blobOff, |values[i]|, total);
      Copy(out, off, Le32(blobOff) + Le32(|values[i]|));
      HoldsToOutside(m1, out[..], types, values, i, off, 8);
      TailKept(m1, out[..], off, 8, total);
      AtOutside(m1, out[..], blobOff, values[i], off, 8);
    } else {
      Copy(out, off, values[i]);
      HoldsToOutside(m0, out[..], types, values, i, off, WireSize(types[i]));
      TailKept(m0, out[..], off, |values[i]|, total);
    }
    HoldsNext(out[..], types, values, i);
  }

  lemma AtOutside(m: seq<Byte>, m': seq<Byte>, at: nat, s: seq<Byte>, from: nat, n: nat)
    requires At(m, at, s) && Outside(m, m', from, n) && from + n <= at
    ensures At(m', at, s)
  {
    AtKept(m, m', at, s, from, from + n);
  }

  // ---------------------------------------------------------------- decoding

  /** `OutOfBounds` is a span beyond the message, which the generated code does not check for. */
  datatype Outcome = Decoded(values: seq<seq<Byte>>) | Refused | OutOfBounds

  /** The values fit the types and the message is an encoding of them. */
  ghost predicate Legit(m: seq<Byte>, types: seq<Type>, values: seq<seq<Byte>>) {
    WellTyped(types, values) && TotalBytes(types, values) < UINT32 && Encodes(m, types, values)
  }

  /** The fixed field of blob argument `i` points beyond the message. */
  predicate PointsOutside(m: seq<Byte>, types: seq<Type>, i: int)
    requires 0 <= i < |types| && ScalarBytes(types) <= |m|
  {
    FieldInside(types, i);
    var off := Offset(types, i);
    IsBlob(types[i]) && FromLe32(m[off..off + 4]) + FromLe32(m[off + 4..off + 8]) > |m|
  }

  lemma LegitLong(m: seq<Byte>, types: seq<Type>, values: seq<seq<Byte>>)
    requires Legit(m, types, values)
    ensures |values| == |types| && ScalarBytes(types) <= BlobStart(types) <= |m|
  {
    if types != [] { BlobInside(types, values, 0); }
  }

  /** What is found where argument `i` belongs. */
  ghost predicate Found(m: seq<Byte>, types: seq<Type>, value: seq<Byte>, i: int)
    requires 0 <= i < |types| && ScalarBytes(types) <= |m|
  {
    FieldInside(types, i);
    var off := Offset(types, i);
    if IsBlob(types[i]) then
      var at, n := FromLe32(m[off..off + 4]), FromLe32(m[off + 4..off + 8]);
      at + n <= |m| && m[at..at + n] == value
    else m[off..off + WireSize(types[i])] == value
  }

  lemma LegitFound(m: seq<Byte>, types: seq<Type>, values: seq<seq<Byte>>, i: int)
    requires Legit(m, types, values) && 0 <= i < |types|
    ensures |values| == |types| && ScalarBytes(types) <= |m| && Found(m, types, values[i], i)
  {
    LegitLong(m, types, values);
    hide Offset, BlobOffset, WireSize, BlobStart, Le32, FromLe32;
    FieldInside(types, i);
    BlobInside(types, values, i);
    assert Holds(m, types, values, i);
    if IsBlob(types[i]) {
      var off, a, b := Offset(types, i), Le32(BlobOffset(types, values, i)), Le32(|values[i]|);
      assert m[off..off + 8] == a + b;
      assert m[off..off + 4] == m[off..off + 8][..4] == a;
      assert m[off + 4..off + 8] == m[off..off + 8][4..] == b;
      Le32RoundTrip(BlobOffset(types, values, i));
      Le32RoundTrip(|values[i]|);
    }
  }

  /** The generated `deserialize`. Whatever values the message encodes, it gives them back. */
  method Deserialize(m: seq<Byte>, types: seq<Type>) returns (r: Outcome)
    ensures forall values :: Legit(m, types, values) ==> r == Decoded(values)
    ensures r == Refused <==> |m| < ScalarBytes(types)
    ensures r == OutOfBounds <==> Dangling(m, types)
    ensures r.Decoded? ==> |r.values| == |types|
    ensures r.Decoded? ==> forall i :: 0 <= i < |types| ==> Found(m, types, r.values[i], i)
  {
    hide Offset, BlobOffset, WireSize, FromLe32, BlobStart, Legit, PointsOutside, Found;
    forall values | Legit(m, types, values)
      ensures |values| == |types| && ScalarBytes(types) <= BlobStart(types) <= |m|
    {
      LegitLong(m, types, values);
    }
    if |m| < ScalarBytes(types) {
      return Refused;
    }
    if |m| < BlobStart(types) {
      return OutOfBounds;
    }
    var done: seq<seq<Byte>> := [];
    for i := 0 to |types|
      invariant |done| == i && forall values :: Legit(m, types, values) ==> done == values[..i]
      invariant forall j :: 0 <= j < i ==> !PointsOutside(m, types, j) && Found(m, types, done[j], j)
    {
      var bad, v := DeserializeOne(m, types, i);
      if bad {
        return OutOfBounds;
      }
      done := done + [v];
    }
    r := Decoded(done);
  }

  /** Some span that the code takes reaches beyond the message. */
  ghost predicate Dangling(m: seq<Byte>, types: seq<Type>) {
    && |m| >= ScalarBytes(types)
    && (|m| < BlobStart(types) || exists i :: 0 <= i < |types| && PointsOutside(m, types, i))
  }

  /** The code generated for one argument. */
  method DeserializeOne(m: seq<Byte>, types: seq<Type>, i: int) returns (bad: bool, v: seq<Byte>)
    requires 0 <= i < |types| && ScalarBytes(types) <= |m|
    ensures bad <==> PointsOutside(m, types, i)
    ensures !bad ==> Found(m, types, v, i)
    ensures forall values :: Legit(m, types, values) ==> !bad && |values| == |types| && v == values[i]
  {
    hide Offset, BlobOffset, WireSize, FromLe32, BlobStart, Legit;
    FieldInside(types, i);
    forall values | Legit(m, types, values) ensures |values| == |types| && Found(m, types, values[i], i) {
      LegitFound(m, types, values, i);
    }
    var off := Offset(types, i);
    if IsBlob(types[i]) {
      var at, n := FromLe32(m[off..off + 4]), FromLe32(m[off + 4..off + 8]);
      if at + n > |m| {
        return true, [];
      }
      return false, m[at..at + n];
    }
    return false, m[off..off + WireSize(types[i])];
  }

  /** Serializing and then deserializing gives back the arguments. */
  method RoundTrip(types: seq<Type>, values: seq<seq<Byte>>) returns (r: Outcome)
    requires WellTyped(types, values) && TotalBytes(types, values) < UINT32
    ensures r == Decoded(values)
  {
    var len := BytesFor(types, values);
    var out := new Byte[len];
    Serialize(out, types, values);
    r := Deserialize(out[..], types);
  }

  /** A message of eight bytes whose only argument claims to start behind them. */
  method SpanOutside() returns (r: Outcome)
    ensures r == OutOfBounds
  {
    var m: seq<Byte> := [16, 0, 0, 0, 1, 0, 0, 0];
    assert Offset([Blob], 0) == 0 && ScalarBytes([Blob]) == 8;
    assert m[0..4] == [16, 0, 0, 0] && m[4..8] == [1, 0, 0, 0];
    assert PointsOutside(m, [Blob], 0);
    r := Deserialize(m, [Blob]);
  }
}
