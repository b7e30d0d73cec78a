/** The word operations of SHA-2 as the source writes them, on words of `w` bits as natural numbers, and
    what they do to every bit. */
module Sha2Words {
  import opened Bits
  import opened Bitmap
  import opened Arith64

  function BitXor(x: nat, y: nat): (r: nat)
    decreases x + y
  {
    if x == 0 then y
    else if y == 0 then x
    else 2 * BitXor(x / 2, y / 2) + (if x % 2 != y % 2 then 1 else 0)
  }

  function Add(x: nat, y: nat, w: nat): nat {
    (x + y) % Pow2(w)
  }

  function Not(x: nat, w: nat): nat {
    Pow2(w) - 1 - x % Pow2(w)
  }

  function Rotr(x: nat, n: nat, w: nat): nat
    requires n <= w
  {
    BitOr(Shr(x, n), Shl(x, w - n) % Pow2(w))
  }

  function Ch(x: nat, y: nat, z: nat, w: nat): nat {
    BitXor(BitAnd(x, y), BitAnd(Not(x, w), z))
  }

  function Maj(x: nat, y: nat, z: nat): nat {
    BitXor(BitXor(BitAnd(x, y), BitAnd(x, z)), BitAnd(y, z))
  }

  /** Three rotations, and two rotations and a shift. */
  function Rotated(x: nat, a: nat, b: nat, c: nat, w: nat): nat
    requires a <= w && b <= w && c <= w
  {
    BitXor(BitXor(Rotr(x, a, w), Rotr(x, b, w)), Rotr(x, c, w))
  }

  function Shifted(x: nat, a: nat, b: nat, c: nat, w: nat): nat
    requires a <= w && b <= w
  {
    BitXor(BitXor(Rotr(x, a, w), Rotr(x, b, w)), Shr(x, c))
  }

  /** A number reduced to the word. */
  function Reduced(x: nat, w: nat): (r: nat)
    ensures r < Pow2(w)
  {
    x % Pow2(w)
  }

  lemma AddReduced(s: nat, x: nat, w: nat)
    ensures Add(s, x, w) == Reduced(s + x, w)
    ensures Add(Reduced(s, w), x, w) == Reduced(s + x, w)
    ensures Add(x, Reduced(s, w), w) == Reduced(s + x, w)
  {
    hide Pow2;
    ModAdd(s, x, Pow2(w));
  }

  lemma AddBoth(s: nat, t: nat, w: nat)
    ensures Add(Reduced(s, w), Reduced(t, w), w) == Reduced(s + t, w)
  {
    hide Pow2, Add, Reduced;
    AddReduced(s, Reduced(t, w), w);
    AddReduced(t, s, w);
  }

  // ---------------------------------------------------------------- bit by bit

  /** Position `j + n`, counted around. */
  function Around(j: nat, n: nat, w: nat): nat
    requires w > 0
  {
    (j + n) % w
  }

  lemma XorStep(x: nat, y: nat)
    ensures BitXor(x, y) == 2 * BitXor(x / 2, y / 2) + if x % 2 != y % 2 then 1 else 0
  {
    if x == 0 || y == 0 { assert BitXor(x / 2, y / 2) == x / 2 + y / 2; }
  }

  lemma {:induction false} BitOfXor(x: nat, y: nat, j: nat)
    ensures Bit(BitXor(x, y), j) <==> Bit(x, j) != Bit(y, j)
  {
    hide BitXor;
    XorStep(x, y);
    if j > 0 { BitOfXor(x / 2, y / 2, j - 1); }
  }

  lemma {:induction false} XorBound(x: nat, y: nat, n: nat)
    requires x < Pow2(n) && y < Pow2(n)
    ensures BitXor(x, y) < Pow2(n)
  {
    if x != 0 && y != 0 && n > 0 { XorBound(x / 2, y / 2, n - 1); }
  }

  lemma {:induction false} BitOfShr(x: nat, k: nat, j: nat)
    ensures Bit(Shr(x, k), j) <==> Bit(x, j + k)
  {
    if k > 0 { BitOfShr(x / 2, k - 1, j); }
  }

  lemma {:induction false} BitOfShl(x: nat, k: nat, j: nat)
    ensures Bit(Shl(x, k), j) <==> j >= k && Bit(x, j - k)
  {
    if k > 0 {
      Twice(x, Pow2(k - 1));
      if j > 0 { BitOfShl(x, k - 1, j - 1); }
    }
  }

  lemma {:induction false} BitOfMod(x: nat, w: nat, j: nat)
    ensures Bit(x % Pow2(w), j) <==> j < w && Bit(x, j)
  {
    if w == 0 {
      NoBits(j);
    } else {
      var p := Pow2(w - 1);
      assert Pow2(w) == 2 * p;
      hide Pow2, Bit;
      HalveMod(x, p);
      BitStep(x / 2 % p, x % 2, j);
      BitStep(x / 2, x % 2, j);
      if j > 0 { BitOfMod(x / 2, w - 1, j - 1); }
    }
  }

  lemma BitStep(h: nat, b: nat, j: nat)
    requires b < 2
    ensures Bit(2 * h + b, j) <==> if j == 0 then b == 1 else Bit(h, j - 1)
  {
  }

  /** A word that may not have bits at or above `w`. */
  lemma NoHighBit(x: nat, w: nat, j: nat)
    requires x < Pow2(w) && w <= j
    ensures !Bit(x, j)
  {
    if Bit(x, j) { BitBound(x, w, j); }
  }

  lemma RotrBound(x: nat, n: nat, w: nat)
    requires x < Pow2(w) && n <= w
    ensures Rotr(x, n, w) < Pow2(w)
  {
    hide BitOr, Shr, Pow2;
    OrBound(Shr(x, n), Shl(x, w - n) % Pow2(w), w);
  }

  /** Bit `j` of a rotated word is bit `j + n`, counted around. */
  lemma BitOfRotr(x: nat, n: nat, w: nat, j: nat)
    requires x < Pow2(w) && n < w && j < w
    ensures Bit(Rotr(x, n, w), j) <==> Bit(x, Around(j, n, w))
  {
    hide BitOr, Shr, Pow2, Bit;
    BitOfOr(Shr(x, n), Shl(x, w - n) % Pow2(w), j);
    BitOfShr(x, n, j);
    BitOfMod(Shl(x, w - n), w, j);
    BitOfShl(x, w - n, j);
    if j + n < w {
      ModUnique(j + n, w, 0, j + n);
    } else {
      ModUnique(j + n, w, 1, j + n - w);
      NoHighBit(x, w, j + n);
    }
  }

  lemma BitOfNotWord(x: nat, w: nat, j: nat)
    requires x < Pow2(w) && j < w
    ensures Bit(Not(x, w), j) <==> !Bit(x, j)
  {
    hide Pow2, Bit;
    ModUnique(x, Pow2(w), 0, x);
    BitOfNot(x, w, j);
  }

  lemma ChBit(x: nat, y: nat, z: nat, w: nat, j: nat)
    requires x < Pow2(w) && j < w
    ensures Bit(Ch(x, y, z, w), j) <==> if Bit(x, j) then Bit(y, j) else Bit(z, j)
  {
    hide Bit, BitAnd, BitXor, Not;
    BitOfXor(BitAnd(x, y), BitAnd(Not(x, w), z), j);
    BitOfAnd(x, y, j);
    BitOfAnd(Not(x, w), z, j);
    BitOfNotWord(x, w, j);
  }

  lemma MajBit(x: nat, y: nat, z: nat, j: nat)
    ensures Bit(Maj(x, y, z), j) <==> (Bit(x, j) && Bit(y, j)) || (Bit(x, j) && Bit(z, j)) || (Bit(y, j) && Bit(z, j))
  {
    hide Bit, BitAnd, BitXor;
    BitOfXor(BitXor(BitAnd(x, y), BitAnd(x, z)), BitAnd(y, z), j);
    BitOfXor(BitAnd(x, y), BitAnd(x, z), j);
    BitOfAnd(x, y, j);
    BitOfAnd(x, z, j);
    BitOfAnd(y, z, j);
  }

  lemma RotatedBit(x: nat, a: nat, b: nat, c: nat, w: nat, j: nat)
    requires x < Pow2(w) && a < w && b < w && c < w && j < w
    ensures Bit(Rotated(x, a, b, c, w), j) <==>
      (Bit(x, Around(j, a, w)) != (Bit(x, Around(j, b, w)) != Bit(x, Around(j, c, w))))
  {
    hide Bit, BitXor, Rotr, Pow2, Around;
    BitOfXor(BitXor(Rotr(x, a, w), Rotr(x, b, w)), Rotr(x, c, w), j);
    BitOfXor(Rotr(x, a, w), Rotr(x, b, w), j);
    BitOfRotr(x, a, w, j);
    BitOfRotr(x, b, w, j);
    BitOfRotr(x, c, w, j);
  }

  lemma ShiftedBit(x: nat, a: nat, b: nat, c: nat, w: nat, j: nat)
    requires x < Pow2(w) && a < w && b < w && j < w
    ensures Bit(Shifted(x, a, b, c, w), j) <==>
      (Bit(x, Around(j, a, w)) != (Bit(x, Around(j, b, w)) != (j + c < w && Bit(x, j + c))))
  {
    hide Bit, BitXor, Rotr, Pow2, Shr, Around;
    BitOfXor(BitXor(Rotr(x, a, w), Rotr(x, b, w)), Shr(x, c), j);
    BitOfXor(Rotr(x, a, w), Rotr(x, b, w), j);
    BitOfRotr(x, a, w, j);
    BitOfRotr(x, b, w, j);
    BitOfShr(x, c, j);
    if j + c >= w { NoHighBit(x, w, j + c); }
  }

  lemma AndFits(x: nat, y: nat, w: nat)
    requires x < Pow2(w) || y < Pow2(w)
    ensures BitAnd(x, y) < Pow2(w)
  {
    AndBound(x, y);
    AndCommutes(x, y);
    AndBound(y, x);
  }

  lemma {:induction false} AndCommutes(x: nat, y: nat)
    ensures BitAnd(x, y) == BitAnd(y, x)
  {
    if x != 0 && y != 0 { AndCommutes(x / 2, y / 2); }
  }

  /** The operations stay within the word. */
  lemma WordsFit(x: nat, y: nat, z: nat, a: nat, b: nat, c: nat, w: nat)
    requires x < Pow2(w) && y < Pow2(w) && z < Pow2(w) && a <= w && b <= w && c <= w
    ensures Ch(x, y, z, w) < Pow2(w) && Maj(x, y, z) < Pow2(w)
    ensures Rotated(x, a, b, c, w) < Pow2(w) && Shifted(x, a, b, c, w) < Pow2(w)
  {
    hide BitAnd, BitXor, Rotr, Pow2, Shr, Not;
    AndFits(x, y, w);
    AndFits(x, z, w);
    AndFits(y, z, w);
    AndFits(Not(x, w), z, w);
    XorBound(BitAnd(x, y), BitAnd(Not(x, w), z), w);
    XorBound(BitAnd(x, y), BitAnd(x, z), w);
    XorBound(BitXor(BitAnd(x, y), BitAnd(x, z)), BitAnd(y, z), w);
    RotrBound(x, a, w);
    RotrBound(x, b, w);
    RotrBound(x, c, w);
    XorBound(Rotr(x, a, w), Rotr(x, b, w), w);
    XorBound(BitXor(Rotr(x, a, w), Rotr(x, b, w)), Rotr(x, c, w), w);
    XorBound(BitXor(Rotr(x, a, w), Rotr(x, b, w)), Shr(x, c), w);
  }

  // ---------------------------------------------------------------- words from bits

  /** The number with the bits `f(0), .., f(n - 1)`. */
  ghost function FromBits(n: nat, f: nat -> bool): nat {
    if n == 0 then 0 else (if f(0) then 1 else 0) + 2 * FromBits(n - 1, (i: nat) => f(i + 1))
  }

  lemma {:induction false} FromBitsBit(n: nat, f: nat -> bool, j: nat)
    requires j < n
    ensures Bit(FromBits(n, f), j) <==> f(j)
  {
    var g, b := (i: nat) => f(i + 1), if f(0) then 1 else 0;
    assert FromBits(n, f) == 2 * FromBits(n - 1, g) + b;
    hide Bit, FromBits;
    BitStep(FromBits(n - 1, g), b, j);
    if j > 0 { FromBitsBit(n - 1, g, j - 1); }
  }

  lemma {:induction false} FromBitsBound(n: nat, f: nat -> bool)
    ensures FromBits(n, f) < Pow2(n)
  {
    if n > 0 { FromBitsBound(n - 1, (i: nat) => f(i + 1)); }
  }

  /** A word is determined by its bits. */
  lemma {:induction false} SameBits(x: nat, y: nat, w: nat)
    requires x < Pow2(w) && y < Pow2(w) && forall j: nat :: j < w ==> (Bit(x, j) <==> Bit(y, j))
    ensures x == y
  {
    if w > 0 {
      forall j: nat | j < w - 1 ensures Bit(x / 2, j) <==> Bit(y / 2, j) { assert Bit(x, j + 1) <==> Bit(y, j + 1); }
      SameBits(x / 2, y / 2, w - 1);
      assert Bit(x, 0) <==> Bit(y, 0);
    }
  }

  lemma IsFromBits(x: nat, w: nat, f: nat -> bool)
    requires x < Pow2(w) && forall j: nat :: j < w ==> (Bit(x, j) <==> f(j))
    ensures x == FromBits(w, f)
  {
    hide Bit, FromBits, Pow2;
    FromBitsBound(w, f);
    forall j: nat | j < w ensures Bit(x, j) <==> Bit(FromBits(w, f), j) { FromBitsBit(w, f, j); }
    SameBits(x, FromBits(w, f), w);
  }

  /** Shifts by whole bytes. */
  lemma ShrBytes(x: nat)
    ensures Shr(x, 8) == x / 256 && Shr(x, 16) == x / 256 / 256 && Shr(x, 24) == x / 256 / 256 / 256
    ensures Shr(x, 32) == x / 256 / 256 / 256 / 256
  {
    ShrByte(x, 0);
    ShrByte(x, 8);
    ShrByte(x, 16);
    ShrByte(x, 24);
  }

  lemma ShrByte(x: nat, k: nat)
    ensures Shr(x, k + 8) == Shr(x, k) / 256
  {
    hide Shr;
    ShrHalf(x, k);
    ShrHalf(x, k + 1);
    ShrHalf(x, k + 2);
    ShrHalf(x, k + 3);
    ShrHalf(x, k + 4);
    ShrHalf(x, k + 5);
    ShrHalf(x, k + 6);
    ShrHalf(x, k + 7);
  }

  lemma ShrTwice(x: nat)
    ensures Shr(x, 40) == Shr(Shr(x, 32), 8) && Shr(x, 48) == Shr(Shr(x, 32), 16) && Shr(x, 56) == Shr(Shr(x, 32), 24)
  {
    hide Shr;
    ShrByte(x, 32);
    ShrByte(x, 40);
    ShrByte(x, 48);
    ShrBytes(Shr(x, 32));
  }

  // ---------------------------------------------------------------- words from bytes

  lemma BytePowers()
    ensures Pow2(8) == 0x100 && Pow2(16) == 0x1_0000 && Pow2(24) == 0x100_0000 && Pow2(32) == 0x1_0000_0000
    ensures Pow2(40) == 0x100_0000_0000 && Pow2(48) == 0x1_0000_0000_0000 && Pow2(56) == 0x100_0000_0000_0000
  {
    assert Pow2(8) == 0x100;
    Pow2Add(8, 8);
    Pow2Add(16, 8);
    Pow2Add(24, 8);
    Pow2Add(32, 8);
    Pow2Add(40, 8);
    Pow2Add(48, 8);
  }

  /** Four bytes side by side, the first one lowest. */
  lemma OrFour(a: nat, b: nat, c: nat, d: nat)
    requires a < 256 && b < 256 && c < 256 && d < 256
    ensures BitOr(BitOr(BitOr(a, Shl(b, 8)), Shl(c, 16)), Shl(d, 24)) == ((d * 256 + c) * 256 + b) * 256 + a
  {
    BytePowers();
    hide Pow2, BitOr;
    OrDisjoint(a, b, 8);
    OrDisjoint(a + b * 0x100, c, 16);
    OrDisjoint(a + b * 0x100 + c * 0x1_0000, d, 24);
  }

  /** Four more above a 32-bit number. */
  lemma OrFourMore(low: nat, a: nat, b: nat, c: nat, d: nat)
    requires low < 0x1_0000_0000 && a < 256 && b < 256 && c < 256 && d < 256
    ensures BitOr(BitOr(BitOr(BitOr(low, Shl(a, 32)), Shl(b, 40)), Shl(c, 48)), Shl(d, 56)) ==
      (((d * 256 + c) * 256 + b) * 256 + a) * 0x1_0000_0000 + low
  {
    BytePowers();
    hide Pow2, BitOr;
    OrDisjoint(low, a, 32);
    OrDisjoint(low + a * 0x1_0000_0000, b, 40);
    OrDisjoint(low + a * 0x1_0000_0000 + b * 0x100_0000_0000, c, 48);
    OrDisjoint(low + a * 0x1_0000_0000 + b * 0x100_0000_0000 + c * 0x1_0000_0000_0000, d, 56);
  }
}
