/** The 64-bit arithmetic helpers of 32-bit builds: leading zeros and shift-subtract division. */
module Arith64 {
  import opened Bits

  const HALF: nat := 0x8000_0000_0000_0000

  /** `x << k` before anything is lost, and `x >> k`. */
  function Shl(x: nat, k: nat): nat {
    x * Pow2(k)
  }

  function Shr(x: nat, k: nat): (r: nat)
    ensures r <= x
  {
    if k == 0 then x else Shr(x / 2, k - 1)
  }

  // ---------------------------------------------------------------- shifts and masks

  lemma {:induction false} ShrHalf(x: nat, k: nat)
    ensures Shr(x, k + 1) == Shr(x, k) / 2
  {
    if k > 0 {
      ShrHalf(x / 2, k - 1);
    }
  }

  /** A right shift is division by a power of two. */
  lemma {:induction false} ShrSplit(x: nat, k: nat)
    ensures Shr(x, k) * Pow2(k) <= x < Shr(x, k) * Pow2(k) + Pow2(k)
  {
    if k > 0 {
      ShrSplit(x / 2, k - 1);
      Twice(Shr(x, k), Pow2(k - 1));
    }
  }

  lemma Twice(a: int, p: int)
    ensures a * (2 * p) == 2 * (a * p)
  {
  }

  lemma MulMono(a: int, b: int, d: nat)
    requires a <= b
    ensures a * d <= b * d
  {
    assert (b - a) * d >= 0;
    assert (b - a) * d == b * d - a * d;
  }

  lemma MulAssoc(a: int, b: int, c: int)
    ensures a * (b * c) == (a * b) * c
  {
  }

  lemma ShrNext(x: nat, k: nat)
    ensures Shr(x, k) == if k == 0 then x else Shr(x / 2, k - 1)
  {
  }

  lemma HalfAnd(x: nat, y: nat)
    ensures BitAnd(x, 2 * y) == 2 * BitAnd(x / 2, y)
  {
    assert (2 * y) / 2 == y && (2 * y) % 2 == 0;
  }

  /** A mask of `j` ones at position `k` picks out a field. */
  lemma {:induction false} FieldAnd(x: nat, j: nat, k: nat)
    ensures BitAnd(x, Shl(Pow2(j) - 1, k)) == Shl(Shr(x, k) % Pow2(j), k)
  {
    hide BitAnd, Shr;
    ShrNext(x, k);
    if k == 0 {
      MaskIsMod(x, j);
    } else {
      FieldAnd(x / 2, j, k - 1);
      Twice(Pow2(j) - 1, Pow2(k - 1));
      HalfAnd(x, Shl(Pow2(j) - 1, k - 1));
      Twice(Shr(x, k) % Pow2(j), Pow2(k - 1));
    }
  }

  /** Or is a sum where no bits meet. */
  lemma {:induction false} OrDisjoint(x: nat, y: nat, k: nat)
    requires x < Pow2(k)
    ensures BitOr(x, y * Pow2(k)) == x + y * Pow2(k)
  {
    if x == 0 || y == 0 || k == 0 {
    } else {
      var h := Pow2(k - 1);
      Twice(y, h);
      OrDisjoint(x / 2, y, k - 1);
      assert (2 * (y * h)) / 2 == y * h && (2 * (y * h)) % 2 == 0;
    }
  }

  lemma {:induction false} ShrSum(x: nat, y: nat, k: nat)
    requires x < Pow2(k)
    ensures Shr(x + y * Pow2(k), k) == y
  {
    if k > 0 {
      Twice(y, Pow2(k - 1));
      assert (x + 2 * (y * Pow2(k - 1))) / 2 == x / 2 + y * Pow2(k - 1);
      ShrSum(x / 2, y, k - 1);
    }
  }

  /** Such a mask tests whether a word reaches `2^k`. */
  lemma HighMask(x: nat, k: nat)
    requires x < WORD && k <= 64
    ensures WORD >= Pow2(k) && (BitAnd(x, WORD - Pow2(k)) == 0 <==> x < Pow2(k))
  {
    hide Pow2, BitAnd, Shr;
    WordIsPow2();
    Pow2Monotone(k, 64);
    Pow2Add(64 - k, k);
    var s, p, q := Shr(x, k), Pow2(k), Pow2(64 - k);
    FieldAnd(x, 64 - k, k);
    MaskValue(q, p);
    ShrSplit(x, k);
    assert s < q by { if s >= q { MulMono(q, s, p); } }
    ModUnique(s, q, 0, s);
    if s > 0 { MulMono(1, s, p); }
  }

  lemma MaskValue(a: nat, p: nat)
    ensures (a - 1) * p == a * p - p
  {
  }

  // ---------------------------------------------------------------- leading zeros

  lemma Scale(a: nat, p: nat, d: nat, e: nat)
    requires e <= a < p && d > 0
    ensures e * d <= a * d < p * d
  {
    MulMono(e, a, d);
    MulMono(a + 1, p, d);
    assert (a + 1) * d == a * d + d;
  }

  lemma ScaleWord(a: nat, k: nat)
    requires 32 <= k < 64 && Pow2(2 * k - 64) <= a < Pow2(k)
    ensures Pow2(k) <= a * Pow2(64 - k) < WORD
  {
    hide Pow2;
    WordIsPow2();
    Pow2Add(k, 64 - k);
    Pow2Add(2 * k - 64, 64 - k);
    Scale(a, Pow2(k), Pow2(64 - k), Pow2(2 * k - 64));
  }

  /** One line of `__clzdi2`: unless the top `64 - k` bits have a one, shift them out. */
  method ClzStep(a: nat, n: nat, k: nat, ghost a0: nat) returns (a': nat, n': nat)
    requires 32 <= k < 64 && a == a0 * Pow2(n) && Pow2(2 * k - 64) <= a < WORD
    ensures n' == n || n' == n + (64 - k)
    ensures a' == a0 * Pow2(n') && Pow2(k) <= a' < WORD
  {
    hide Pow2, BitAnd;
    HighMask(a, k);
    if BitAnd(a, WORD - Pow2(k)) == 0 {
      ScaleWord(a, k);
      Pow2Add(n, 64 - k);
      MulAssoc(a0, Pow2(n), Pow2(64 - k));
      ModUnique(Shl(a, 64 - k), WORD, 0, Shl(a, 64 - k));
      a', n' := Shl(a, 64 - k) % WORD, n + (64 - k);
    } else {
      a', n' := a, n;
    }
  }

  /** `__clzdi2`: shifting by the result brings the highest one to the top. */
  method Clz(a0: nat) returns (n: nat)
    requires 0 < a0 < WORD
    ensures n < 64 && HALF <= a0 * Pow2(n) < WORD
  {
    hide BitAnd, Pow2;
    var a;
    PowersUsed();
    assert a0 * Pow2(0) == a0;
    a, n := ClzStep(a0, 0, 32, a0);
    a, n := ClzStep(a, n, 48, a0);
    a, n := ClzStep(a, n, 56, a0);
    a, n := ClzStep(a, n, 60, a0);
    a, n := ClzStep(a, n, 62, a0);
    HighMask(a, 63);
    if BitAnd(a, WORD - Pow2(63)) == 0 {
      Pow2Add(n, 1);
      MulAssoc(a0, Pow2(n), 2);
      n := n + 1;
    }
  }

  lemma PowersUsed()
    ensures Pow2(0) == 1 && Pow2(1) == 2 && Pow2(63) == HALF && Pow2(63) == 2 * Pow2(62)
  {
    WordIsPow2();
  }

  // ---------------------------------------------------------------- division

  /** The low `m` bits. */
  function Rest(x: nat, m: nat): int {
    x - Shr(x, m) * Pow2(m)
  }

  /** One more bit of the prefix is the top one of the rest. */
  lemma RestStep(x: nat, m: nat) returns (bit: nat)
    requires m > 0
    ensures bit <= 1 && Shr(x, m - 1) == 2 * Shr(x, m) + bit
    ensures Rest(x, m) == bit * Pow2(m - 1) + Rest(x, m - 1)
    ensures 0 <= Rest(x, m - 1) < Pow2(m - 1) && 0 <= Rest(x, m) < Pow2(m)
  {
    hide Shr, Pow2;
    ShrHalf(x, m - 1);
    ShrSplit(x, m - 1);
    ShrSplit(x, m);
    Pow2Add(1, m - 1);
    PowersUsed();
    bit := Shr(x, m - 1) % 2;
    Distribute(Shr(x, m), bit, Pow2(m - 1));
  }

  lemma Distribute(s: int, bit: int, p: int)
    ensures (2 * s + bit) * p == s * (2 * p) + bit * p
  {
  }

  /** The numerator register: unread bits on top, quotient bits below. */
  lemma Register(bit: nat, rest: nat, m: nat, low: nat)
    requires bit <= 1 && 1 <= m <= 64 && rest < Pow2(m - 1) && low < Pow2(64 - m)
    ensures var a := (bit * Pow2(m - 1) + rest) * Pow2(64 - m) + low;
      a < WORD && a / HALF == bit && (2 * a) % WORD == rest * Pow2(65 - m) + 2 * low
  {
    hide Pow2;
    PowersUsed();
    WordIsPow2();
    Pow2Add(m - 1, 64 - m);
    Pow2Add(1, 64 - m);
    var p, d := Pow2(m - 1), Pow2(64 - m);
    RegisterValue(bit, rest, p, d);
    MulMono(rest + 1, p, d);
    var tail := rest * d + low;
    assert (rest + 1) * d == rest * d + d;
    assert tail < HALF;
    MulAssoc(rest, 2, d);
    Twice(rest, d);
    ModUnique(bit * HALF + tail, HALF, bit, tail);
    ModUnique(2 * (bit * HALF + tail), WORD, bit, 2 * tail);
  }

  lemma RegisterValue(bit: nat, rest: nat, p: nat, d: nat)
    ensures (bit * p + rest) * d == bit * (p * d) + rest * d
  {
  }

  /** The sign of `b - rem - 1` tells whether the divisor goes into the remainder. */
  lemma WrapTrick(b: nat, rem: nat)
    requires (b < HALF && rem < 2 * b) || (HALF <= b <= rem < WORD && b < WORD)
    ensures (b - rem - 1) % WORD >= HALF <==> rem >= b
  {
    if rem >= b {
      ModUnique(b - rem - 1, WORD, -1, b - rem - 1 + WORD);
    } else {
      ModUnique(b - rem - 1, WORD, 0, b - rem - 1);
    }
  }

  lemma OrBit(x: nat, bit: nat)
    requires bit <= 1
    ensures BitOr(2 * x, bit) == 2 * x + bit
  {
    assert (2 * x) / 2 == x && bit / 2 == 0;
  }

  lemma AndOnes(b: nat)
    requires b < WORD
    ensures BitAnd(b, WORD - 1) == b && BitAnd(b, 0) == 0
  {
    hide Pow2;
    WordIsPow2();
    MaskIsMod(b, 64);
    ModUnique(b, WORD, 0, b);
  }

  /** State of the long division with `m` of `n` bits of the numerator `x` to go: the bits read so far
      are `q` times the divisor plus a smaller remainder. */
  ghost predicate Dividing(x: nat, b: nat, n: nat, m: nat, q: nat, rem: nat, a: nat, wrap: nat) {
    && m <= n < 64 && 0 < b < WORD && x < WORD && (b < HALF || (n == 1 && b <= x))
    && rem < b && Shr(x, m) == q * b + rem && q < Pow2(n - m)
    && a == Rest(x, m) * Pow2(64 - m) + q / 2
    && wrap == (if q % 2 == 1 then WORD - 1 else 0)
  }

  /** `(int64_t) v >> 63` of a word. */
  function SignFill(v: nat): nat {
    if v >= HALF then WORD - 1 else 0
  }

  /** Next quotient and remainder when a bit is brought down. */
  lemma BringDown(q: nat, b: nat, rem: nat, bit: nat, S: nat, S': nat)
    requires rem < b && S == q * b + rem && bit <= 1 && S' == 2 * S + bit
    ensures var r := 2 * rem + bit;
      && (r >= b ==> S' == (2 * q + 1) * b + (r - b) && r - b < b)
      && (r < b ==> S' == (2 * q) * b + r) && S' == (2 * q) * b + r && r < 2 * b
  {
    assert (2 * q) * b == 2 * (q * b);
    assert (2 * q + 1) * b == (2 * q) * b + b;
  }

  /** Shifting the register reads one bit of the numerator and takes in one of the quotient. */
  lemma RegisterStep(x: nat, n: nat, m: nat, q: nat, a: nat)
    requires 0 < m <= n < 64 && q < Pow2(n - m) && a == Rest(x, m) * Pow2(64 - m) + q / 2
    ensures a < WORD && a / HALF <= 1 && Shr(x, m - 1) == 2 * Shr(x, m) + a / HALF
    ensures (2 * a) % WORD + q % 2 == Rest(x, m - 1) * Pow2(65 - m) + q
  {
    hide Pow2, Shr, Rest;
    var bit := RestStep(x, m);
    Pow2Monotone(n - m, 63 - m);
    Pow2Add(1, 63 - m);
    PowersUsed();
    Register(bit, Rest(x, m - 1), m, q / 2);
  }

  /** Appending a bit to the quotient. */
  lemma AppendBit(q: nat, w: nat, k: nat)
    requires w <= 1 && q < Pow2(k)
    ensures 2 * q + w < Pow2(k + 1) && (2 * q + w) / 2 == q && (2 * q + w) % 2 == w
  {
  }

  /** What the register, remainder and wrap become, each by its own formula. */
  lemma DivideStep(x: nat, b: nat, n: nat, m: nat, q: nat, rem: nat, a: nat, wrap: nat)
    requires Dividing(x, b, n, m, q, rem, a, wrap) && m > 0
    ensures var r := 2 * rem + a / HALF;
      var q' := 2 * q + (if r >= b then 1 else 0);
      && a < WORD && a / HALF <= 1 && r < WORD && 0 <= q'
      && ((b - r - 1) % WORD >= HALF <==> r >= b)
      && Dividing(x, b, n, m - 1, q', if r >= b then r - b else r, (2 * a) % WORD + q % 2,
                  if r >= b then WORD - 1 else 0)
  {
    hide Pow2, Shr, Rest;
    RegisterStep(x, n, m, q, a);
    var r := 2 * rem + a / HALF;
    BringDown(q, b, rem, a / HALF, Shr(x, m), Shr(x, m - 1));
    if b >= HALF { WholeNumerator(x, m, n, q, b, r); }
    WrapTrick(b, r);
    AppendBit(q, if r >= b then 1 else 0, n - m);
  }

  /** With a divisor of 64 bits the single step looks at the whole numerator. */
  lemma WholeNumerator(x: nat, m: nat, n: nat, q: nat, b: nat, r: nat)
    requires n == 1 && m == 1 && q < Pow2(n - m) && Shr(x, m - 1) == (2 * q) * b + r
    ensures r == x
  {
  }

  /** The long division starts with less than the divisor, and takes fewer than 64 steps. */
  lemma DivideStart(x: nat, b: nat, cx: nat, cb: nat)
    requires 2 <= b <= x < WORD && cx < 64 && cb < 64
    requires HALF <= x * Pow2(cx) < WORD && HALF <= b * Pow2(cb) < WORD
    ensures 1 <= cb - cx + 1 < 64
    ensures var n := cb - cx + 1;
      Dividing(x, b, n, n, 0, Shr(x, n), (x * Pow2(64 - n)) % WORD, 0)
  {
    hide Shr;
    ClzOrder(x, b, cx, cb);
    var n := cb - cx + 1;
    PowersUsed();
    SmallStart(x, b, cx, cb);
    FirstRegister(x, n);
    if n > 1 { ShortDivisor(b, cb); }
  }

  lemma ClzOrder(x: nat, b: nat, cx: nat, cb: nat)
    requires 2 <= b <= x && x * Pow2(cx) < WORD && HALF <= b * Pow2(cb) < WORD
    ensures cx <= cb <= 62
  {
    hide Pow2;
    PowersUsed();
    if cx > cb {
      Pow2Monotone(cb, cx);
      MulMono(b, x, Pow2(cx));
      MulMonoRight(b, 2 * Pow2(cb), Pow2(cx));
      Twice(b, Pow2(cb));
    }
    if cb > 62 {
      Pow2Monotone(63, cb);
      MulMono(2, b, Pow2(cb));
    }
  }

  lemma MulMonoRight(a: nat, b: int, d: int)
    requires b <= d
    ensures a * b <= a * d
  {
    MulMono(b, d, a);
  }

  lemma ShortDivisor(b: nat, cb: nat)
    requires cb > 0 && b * Pow2(cb) < WORD
    ensures b < HALF
  {
    hide Pow2;
    PowersUsed();
    Pow2Monotone(1, cb);
    MulMonoRight(b, 2, Pow2(cb));
  }

  lemma SmallStart(x: nat, b: nat, cx: nat, cb: nat)
    requires x * Pow2(cx) < WORD && HALF <= b * Pow2(cb) && cx <= cb
    ensures Shr(x, cb - cx + 1) < b
  {
    hide Pow2, Shr;
    var n, S := cb - cx + 1, Shr(x, cb - cx + 1);
    ShrSplit(x, n);
    MulMono(S * Pow2(n), x, Pow2(cx));
    MulAssoc(S, Pow2(n), Pow2(cx));
    Pow2Add(n, cx);
    Pow2Add(1, cb);
    PowersUsed();
    Twice(b, Pow2(cb));
    assert S * Pow2(cb + 1) < b * Pow2(cb + 1);
    if S >= b { MulMono(b, S, Pow2(cb + 1)); }
  }

  lemma FirstRegister(x: nat, n: nat)
    requires 1 <= n < 64
    ensures (x * Pow2(64 - n)) % WORD == Rest(x, n) * Pow2(64 - n)
  {
    hide Pow2, Shr;
    var S, p, d := Shr(x, n), Pow2(n), Pow2(64 - n);
    ShrSplit(x, n);
    WordIsPow2();
    Pow2Add(n, 64 - n);
    var rest := x - S * p;
    MulMono(rest + 1, p, d);
    assert (rest + 1) * d == rest * d + d;
    MulAssoc(S, p, d);
    assert x * d == (S * p + rest) * d == (S * p) * d + rest * d;
    ModUnique(x * d, WORD, S, rest * d);
  }

  datatype DivResult = DivideByZero | Quotient(q: nat, r: nat)

  /** `__divmoddi4`: quotient and remainder of words, or the exception for a zero divisor. */
  method DivMod(x: nat, b: nat) returns (d: DivResult)
    requires x < WORD && b < WORD
    ensures d == DivideByZero <==> b == 0
    ensures d.Quotient? ==> x == d.q * b + d.r && d.r < b
  {
    if b > x {
      return Quotient(0, x);
    }
    if b < 0x1_0000_0000 {
      if b == 0 {
        return DivideByZero;
      }
      if b == 1 {
        return Quotient(x, 0);
      }
      if x < 0x1_0000_0000 {
        return Quotient(x / b, x % b);
      }
    }
    d := LongDivision(x, b);
  }

  /** The shift-subtract loop, without a branch on the comparison. */
  method LongDivision(x: nat, b: nat) returns (d: DivResult)
    requires 2 <= b <= x < WORD
    ensures d.Quotient? && x == d.q * b + d.r && d.r < b
  {
    hide Pow2, Shr, BitAnd, BitOr, Rest;
    var cb := Clz(b);
    var cx := Clz(x);
    DivideStart(x, b, cx, cb);
    var bits := cb - cx + 1;
    var rem: nat := Shr(x, bits);
    var a: nat := Shl(x, 64 - bits) % WORD;
    var wrap: nat := 0;
    ghost var q: nat := 0;
    while bits > 0
      invariant 0 <= bits <= cb - cx + 1
      invariant Dividing(x, b, cb - cx + 1, bits, q, rem, a, wrap)
    {
      bits := bits - 1;
      rem, a, wrap, q := Round(x, b, cb - cx + 1, bits + 1, q, rem, a, wrap);
    }
    DivideEnd(x, b, cb - cx + 1, q, rem, a, wrap);
    d := Quotient(BitOr((2 * a) % WORD, BitAnd(wrap, 1)), rem);
  }

  /** One turn of the loop: shifts in a bit and subtracts the divisor if it goes in. */
  method Round(ghost x: nat, b: nat, ghost n: nat, ghost m: nat, ghost q: nat, rem: nat, a: nat, wrap: nat)
    returns (rem': nat, a': nat, wrap': nat, ghost q': nat)
    requires m > 0 && Dividing(x, b, n, m, q, rem, a, wrap)
    ensures Dividing(x, b, n, m - 1, q', rem', a', wrap')
  {
    hide Pow2, Shr, BitAnd, BitOr, Rest;
    DivideStep(x, b, n, m, q, rem, a, wrap);
    BitForms(rem, a, wrap, q);
    AndOnes(b);
    var r := BitOr((2 * rem) % WORD, a / HALF);
    a' := BitOr((2 * a) % WORD, BitAnd(wrap, 1));
    wrap' := SignFill((b - r - 1) % WORD);
    q' := 2 * q + (if r >= b then 1 else 0);
    rem' := r - BitAnd(b, wrap');
  }

  /** The bitwise expressions of the loop as sums. */
  lemma BitForms(rem: nat, a: nat, wrap: nat, q: nat)
    requires 2 * rem + a / HALF < WORD && a < WORD && wrap == (if q % 2 == 1 then WORD - 1 else 0)
    ensures BitOr((2 * rem) % WORD, a / HALF) == 2 * rem + a / HALF
    ensures BitOr((2 * a) % WORD, BitAnd(wrap, 1)) == (2 * a) % WORD + q % 2
  {
    ModUnique(2 * rem, WORD, 0, 2 * rem);
    OrBit(rem, a / HALF);
    OddMask(wrap);
    var h := (2 * a) % WORD / 2;
    assert (2 * a) % WORD == 2 * h;
    OrBit(h, q % 2);
  }

  lemma OddMask(w: nat)
    ensures BitAnd(w, 1) == w % 2
  {
    assert BitAnd(w / 2, 0) == 0;
  }

  lemma DivideEnd(x: nat, b: nat, n: nat, q: nat, rem: nat, a: nat, wrap: nat)
    requires Dividing(x, b, n, 0, q, rem, a, wrap)
    ensures x == q * b + rem && rem < b && BitOr((2 * a) % WORD, BitAnd(wrap, 1)) == q
  {
    hide Pow2, Shr, Rest, BitAnd, BitOr;
    NothingLeft(x);
    Pow2Monotone(n, 63);
    PowersUsed();
    assert a == q / 2;
    ModUnique(2 * a, WORD, 0, 2 * a);
    OrBit(a, q % 2);
    OddMask(wrap);
  }

  lemma NothingLeft(x: nat)
    ensures Shr(x, 0) == x && Rest(x, 0) == 0
  {
    PowersUsed();
  }

  // ---------------------------------------------------------------- signed division

  predicate Int64(s: int) {
    0 - HALF <= s < HALF
  }

  /** The value of a word read as a signed number. */
  function Signed(u: nat): int {
    if u < HALF then u else u - WORD
  }

  /** The `negate` macro: inverts and adds one when `negative` holds. */
  function NegateIf(u: nat, negative: bool): nat
    requires u < WORD
  {
    ((if negative then WORD - 1 - u else u) + (if negative then 1 else 0)) % WORD
  }

  function Word64(s: int): nat
    requires Int64(s)
  {
    if s >= 0 then s else s + WORD
  }

  function Magnitude(s: int): nat {
    if s >= 0 then s else 0 - s
  }

  /** The `abs` macro gives the magnitude, that of the smallest number included. */
  lemma AbsValue(s: int)
    requires Int64(s)
    ensures Word64(s) < WORD && NegateIf(Word64(s), s < 0) == Magnitude(s) <= HALF
  {
    if s < 0 { ModUnique(0 - s, WORD, 0, 0 - s); } else { ModUnique(s, WORD, 0, s); }
  }

  lemma NegateValue(u: nat)
    requires u <= HALF
    ensures Signed(NegateIf(u, true)) == 0 - u
    ensures Signed(NegateIf(u, false)) == if u == HALF then 0 - HALF else u
  {
    if u == 0 { ModUnique(WORD, WORD, 1, 0); } else { ModUnique(WORD - u, WORD, 0, WORD - u); }
    ModUnique(u, WORD, 0, u);
  }

  /** Division that truncates toward zero, and its remainder. */
  function Truncated(a: int, b: int): int
    requires b != 0
  {
    var q := Magnitude(a) / Magnitude(b);
    if (a < 0) == (b < 0) then q else 0 - q
  }

  lemma MagnitudeQuotient(a: int, b: int, q: nat, r: nat)
    requires Int64(a) && Int64(b) && b != 0 && Magnitude(a) == q * Magnitude(b) + r && r < Magnitude(b)
    ensures q == Magnitude(a) / Magnitude(b) && r == Magnitude(a) % Magnitude(b)
    ensures q <= Magnitude(a) <= HALF && r < HALF && (q == HALF ==> a == 0 - HALF && Magnitude(b) == 1)
  {
    ModUnique(Magnitude(a), Magnitude(b), q, r);
    MulMonoRight(q, 1, Magnitude(b));
    if Magnitude(b) >= 2 { MulMonoRight(q, 2, Magnitude(b)); }
  }

  datatype SignedResult = Trap | Value(v: int)

  /** `__divdi3`: truncates toward zero, except that the one quotient that does not fit wraps. */
  method Div(a: int, b: int) returns (d: SignedResult)
    requires Int64(a) && Int64(b)
    ensures d == Trap <==> b == 0
    ensures b != 0 ==> (d == Value(Truncated(a, b)) <==> !(a == 0 - HALF && b == -1))
    ensures a == 0 - HALF && b == -1 ==> d == Value(0 - HALF)
  {
    AbsValue(a);
    AbsValue(b);
    var u := DivMod(NegateIf(Word64(a), a < 0), NegateIf(Word64(b), b < 0));
    if u == DivideByZero {
      return Trap;
    }
    MagnitudeQuotient(a, b, u.q, u.r);
    NegateValue(u.q);
    d := Value(Signed(NegateIf(u.q, (a < 0) != (b < 0))));
  }

  /** `__moddi3`: the remainder that goes with truncation; it has the sign of the numerator. */
  method Mod(a: int, b: int) returns (d: SignedResult)
    requires Int64(a) && Int64(b)
    ensures d == Trap <==> b == 0
    ensures b != 0 ==> d.Value? && a == Truncated(a, b) * b + d.v
    ensures b != 0 ==> Magnitude(d.v) < Magnitude(b) && (d.v != 0 ==> (d.v < 0) == (a < 0))
  {
    AbsValue(a);
    AbsValue(b);
    var u := DivMod(NegateIf(Word64(a), a < 0), NegateIf(Word64(b), b < 0));
    if u == DivideByZero {
      return Trap;
    }
    MagnitudeQuotient(a, b, u.q, u.r);
    NegateValue(u.r);
    d := Value(Signed(NegateIf(u.r, a < 0)));
    SignedIdentity(a, b, u.q, u.r);
  }

  lemma SignedIdentity(a: int, b: int, q: nat, r: nat)
    requires b != 0 && Magnitude(a) == q * Magnitude(b) + r && q == Magnitude(a) / Magnitude(b)
    ensures a == Truncated(a, b) * b + (if a < 0 then 0 - r else r)
  {
    assert (0 - q) * b == 0 - q * b && q * (0 - b) == 0 - q * b;
  }
}
