/** Unsigned machine words as natural numbers: the bitwise operators are defined digit by digit
    in base two, and related to division and remainder. */
module Bits {

  function Pow2(n: nat): (r: nat)
    ensures r > 0
  {
    if n == 0 then 1 else 2 * Pow2(n - 1)
  }

  /** Range of a `size_t`, `uintptr_t` or `uint64_t` on amd64. */
  const WORD: nat := 0x1_0000_0000_0000_0000

  function BitAnd(x: nat, y: nat): (r: nat)
  {
    if x == 0 || y == 0 then 0
    else 2 * BitAnd(x / 2, y / 2) + (if x % 2 == 1 && y % 2 == 1 then 1 else 0)
  }

  function BitOr(x: nat, y: nat): (r: nat)
    decreases x + y
  {
    if x == 0 then y
    else if y == 0 then x
    else 2 * BitOr(x / 2, y / 2) + (if x % 2 == 1 || y % 2 == 1 then 1 else 0)
  }

  /** `ispow2` of the lock-free queue: nonzero, and clearing the lowest set bit leaves nothing. */
  predicate IsPow2(v: nat)
  {
    v != 0 && BitAnd(v, v - 1) == 0
  }

  lemma {:induction false} Pow2Add(a: nat, b: nat)
    ensures Pow2(a + b) == Pow2(a) * Pow2(b)
  {
    if a > 0 {
      Pow2Add(a - 1, b);
      assert Pow2(a + b) == 2 * Pow2(a - 1 + b);
    }
  }

  lemma {:induction false} Pow2Monotone(a: nat, b: nat)
    requires a <= b
    ensures Pow2(a) <= Pow2(b)
    ensures a < b ==> 2 * Pow2(a) <= Pow2(b)
  {
    if a < b {
      Pow2Monotone(a, b - 1);
    }
  }

  lemma WordIsPow2()
    ensures WORD == Pow2(64)
  {
    assert Pow2(8) == 0x100;
    Pow2Add(8, 8);
    assert Pow2(16) == 0x1_0000;
    Pow2Add(16, 16);
    assert Pow2(32) == 0x1_0000_0000;
    Pow2Add(32, 32);
  }

  /** A number is a power of two exactly when `ispow2` accepts it. */
  lemma IsPow2Iff(v: nat)
    ensures IsPow2(v) <==> exists b: nat :: v == Pow2(b)
  {
    hide Pow2, IsPow2;
    if IsPow2(v) {
      var b := Exponent(v);
      assert v == Pow2(b);
    }
    if b: nat :| v == Pow2(b) { PowerPasses(b); }
  }

  /** Halving keeps the answer of `ispow2` for even numbers; it rejects the other odd ones. */
  lemma IsPow2Half(v: nat)
    requires v > 1
    ensures v % 2 == 1 ==> !IsPow2(v)
    ensures v % 2 == 0 ==> (IsPow2(v) <==> IsPow2(v / 2))
  {
    hide BitAnd;
    BitAndPred(v);
  }

  lemma {:induction false} Exponent(v: nat) returns (b: nat)
    requires IsPow2(v)
    ensures v == Pow2(b)
  {
    hide BitAnd;
    if v == 1 {
      b := 0;
    } else {
      IsPow2Half(v);
      b := Exponent(v / 2);
      b := b + 1;
    }
  }

  lemma {:induction false} PowerPasses(b: nat)
    ensures IsPow2(Pow2(b))
  {
    if b == 0 {
      assert BitAnd(1, 0) == 0;
    } else {
      hide BitAnd, IsPow2;
      PowerPasses(b - 1);
      IsPow2Half(Pow2(b));
    }
  }

  /** One digit of the conjunction. */
  lemma AndStep(x: nat, y: nat)
    ensures BitAnd(x, y) == 2 * BitAnd(x / 2, y / 2) + if x % 2 == 1 && y % 2 == 1 then 1 else 0
  {
    if x == 0 || y == 0 { assert BitAnd(x / 2, y / 2) == 0; }
  }

  lemma BitAndPred(v: nat)
    requires v > 1
    ensures v % 2 == 1 ==> BitAnd(v, v - 1) > 0
    ensures v % 2 == 0 ==> BitAnd(v, v - 1) == 2 * BitAnd(v / 2, v / 2 - 1)
  {
    hide BitAnd;
    AndStep(v, v - 1);
    if v % 2 == 1 {
      BitAndSelf(v / 2);
      assert (v - 1) / 2 == v / 2;
    } else {
      assert (v - 1) / 2 == v / 2 - 1;
    }
  }

  lemma {:induction false} BitAndSelf(x: nat)
    ensures BitAnd(x, x) == x
  {
    if x == 0 {
      AndZero();
    } else {
      hide BitAnd;
      AndStep(x, x);
      BitAndSelf(x / 2);
    }
  }

  lemma AndZero()
    ensures BitAnd(0, 0) == 0
  {
  }

  /** Masking with `2^b - 1` keeps the remainder modulo `2^b`. */
  lemma {:induction false} MaskIsMod(x: nat, b: nat)
    ensures BitAnd(x, Pow2(b) - 1) == x % Pow2(b)
  {
    if b > 0 {
      var h := Pow2(b - 1);
      assert Pow2(b) == 2 * h;
      hide BitAnd, Pow2;
      MaskIsMod(x / 2, b - 1);
      AndStep(x, Pow2(b) - 1);
      assert (Pow2(b) - 1) / 2 == h - 1 && (Pow2(b) - 1) % 2 == 1;
      HalveMod(x, h);
    }
  }

  lemma HalveMod(x: nat, h: nat)
    requires h > 0
    ensures x % (2 * h) == 2 * ((x / 2) % h) + x % 2
  {
    var q, r := (x / 2) / h, (x / 2) % h;
    assert x == (2 * h) * q + (2 * r + x % 2);
    ModUnique(x, 2 * h, q, 2 * r + x % 2);
  }

  /** Quotient and remainder are determined by the division identity. */
  lemma ModUnique(x: int, d: int, q: int, r: int)
    requires 0 <= r < d
    requires x == d * q + r
    ensures x / d == q && x % d == r
  {
    var q', r' := x / d, x % d;
    assert x == d * q' + r';
    if q > q' {
      MulGap(d, q', q);
    } else if q < q' {
      MulGap(d, q, q');
    }
  }

  lemma MulGap(d: int, a: int, b: int)
    requires d > 0 && a < b
    ensures d * a + d <= d * b
  {
    var k := b - a - 1;
    assert d * k >= 0;
    assert d * b == d * (a + 1 + k) == d * a + d + d * k;
  }

  /** Reducing a summand first does not change a sum modulo `m`. */
  lemma ModAdd(x: int, y: int, m: nat)
    requires m > 0
    ensures (x % m + y) % m == (x + y) % m
  {
    var q, u, t := x / m, (x + y) / m, (x + y) % m;
    assert x == m * q + x % m && x + y == m * u + t;
    assert m * (u - q) == m * u - m * q;
    ModUnique(x % m + y, m, u - q, t);
  }

  /** Reducing modulo a multiple first does not change the remainder. */
  lemma ModOfMod(x: nat, d: nat, k: nat)
    requires d > 0 && k > 0
    ensures d * k > 0
    ensures (x % (d * k)) % d == x % d
  {
    assert d * k >= d;
    var m := d * k;
    var q, r := x / m, x % m;
    assert x == m * q + r;
    assert x == d * (k * q + r / d) + r % d;
    ModUnique(x, d, k * q + r / d, r % d);
  }

  /** A power of two that fits a word divides the word range. */
  lemma Pow2DividesWord(b: nat) returns (k: nat)
    requires Pow2(b) <= WORD
    ensures k > 0 && WORD == Pow2(b) * k
  {
    WordIsPow2();
    if b > 64 {
      Pow2Monotone(64, b);
    }
    Pow2Add(b, 64 - b);
    k := Pow2(64 - b);
  }
}
