/** Single bits of machine words, and what the bitwise operators do to them. */
module Bitmap {
  import opened Bits

  predicate Bit(w: nat, j: nat) {
    if j == 0 then w % 2 == 1 else Bit(w / 2, j - 1)
  }

  lemma {:induction false} NoBits(j: nat)
    ensures !Bit(0, j)
  {
    if j > 0 { NoBits(j - 1); }
  }

  lemma {:induction false} BitOfOr(x: nat, y: nat, j: nat)
    ensures Bit(BitOr(x, y), j) <==> Bit(x, j) || Bit(y, j)
  {
    if x == 0 || y == 0 {
      NoBits(j);
    } else if j > 0 {
      BitOfOr(x / 2, y / 2, j - 1);
    }
  }

  lemma {:induction false} BitOfAnd(x: nat, y: nat, j: nat)
    ensures Bit(BitAnd(x, y), j) <==> Bit(x, j) && Bit(y, j)
  {
    if x == 0 || y == 0 {
      NoBits(j);
    } else {
      hide BitAnd;
      AndStep(x, y);
      if j > 0 { BitOfAnd(x / 2, y / 2, j - 1); }
    }
  }

  lemma {:induction false} BitOfPow2(k: nat, j: nat)
    ensures Bit(Pow2(k), j) <==> j == k
  {
    if k == 0 {
      if j > 0 { NoBits(j - 1); }
    } else if j > 0 {
      BitOfPow2(k - 1, j - 1);
    }
  }

  lemma Complement(x: nat, n: nat)
    requires x < Pow2(n) && n > 0
    ensures x / 2 < Pow2(n - 1) && (Pow2(n) - 1 - x) / 2 == Pow2(n - 1) - 1 - x / 2
    ensures (Pow2(n) - 1 - x) % 2 == 1 - x % 2
  {
  }

  /** `~x` on `n` bits. */
  lemma {:induction false} BitOfNot(x: nat, n: nat, j: nat)
    requires x < Pow2(n) && j < n
    ensures Bit(Pow2(n) - 1 - x, j) <==> !Bit(x, j)
  {
    var c := Pow2(n) - 1 - x;
    Complement(x, n);
    hide Pow2;
    if j > 0 { BitOfNot(x / 2, n - 1, j - 1); }
  }

  lemma {:induction false} OrBound(x: nat, y: nat, n: nat)
    requires x < Pow2(n) && y < Pow2(n)
    ensures BitOr(x, y) < Pow2(n)
  {
    if x != 0 && y != 0 && n > 0 { OrBound(x / 2, y / 2, n - 1); }
  }

  lemma {:induction false} AndBound(x: nat, y: nat)
    ensures BitAnd(x, y) <= x
  {
    if x != 0 && y != 0 { AndBound(x / 2, y / 2); }
  }

  /** `ffs` less one: the lowest one bit. */
  function Lowest(w: nat): (j: nat)
    requires w > 0
    ensures Bit(w, j) && (forall i :: 0 <= i < j ==> !Bit(w, i))
  {
    if w % 2 == 1 then 0 else 1 + Lowest(w / 2)
  }

  lemma {:induction false} BitBound(w: nat, n: nat, j: nat)
    requires w < Pow2(n) && Bit(w, j)
    ensures j < n
  {
    if j > 0 && n > 0 {
      BitBound(w / 2, n - 1, j - 1);
    } else if n == 0 {
      NoBits(j);
    }
  }

  /** Setting and clearing one bit of a word, as the bitmap code does. */
  function WithBit(w: nat, k: nat): nat {
    BitOr(w, Pow2(k))
  }

  function WithoutBit(w: nat, k: nat): nat
    requires k < 64
  {
    Pow2Monotone(k, 64);
    BitAnd(w, Pow2(64) - 1 - Pow2(k))
  }

  lemma WithBitIs(w: nat, k: nat)
    requires w < Pow2(64) && k < 64
    ensures WithBit(w, k) < Pow2(64) && forall j :: 0 <= j < 64 ==> (Bit(WithBit(w, k), j) <==> Bit(w, j) || j == k)
  {
    hide Pow2, Bit, BitOr;
    Pow2Monotone(k, 64);
    OrBound(w, Pow2(k), 64);
    forall j | 0 <= j < 64 ensures Bit(WithBit(w, k), j) <==> Bit(w, j) || j == k {
      BitOfOr(w, Pow2(k), j);
      BitOfPow2(k, j);
    }
  }

  lemma WithoutBitIs(w: nat, k: nat)
    requires w < Pow2(64) && k < 64
    ensures WithoutBit(w, k) < Pow2(64)
    ensures forall j :: 0 <= j < 64 ==> (Bit(WithoutBit(w, k), j) <==> Bit(w, j) && j != k)
  {
    hide Pow2, Bit, BitAnd;
    Pow2Monotone(k, 64);
    AndBound(w, Pow2(64) - 1 - Pow2(k));
    forall j | 0 <= j < 64 ensures Bit(WithoutBit(w, k), j) <==> Bit(w, j) && j != k {
      BitOfAnd(w, Pow2(64) - 1 - Pow2(k), j);
      BitOfNot(Pow2(k), 64, j);
      BitOfPow2(k, j);
    }
  }
}
