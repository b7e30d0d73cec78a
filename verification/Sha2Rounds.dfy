/** The compression function of SHA-2, for either word size: sections 6.2.2 and 6.3.2 of FIPS 180-2
    as functions, and the rolled and unrolled loops that compute them. */
module Sha2Rounds {

  /** What depends on the word size: addition, the functions of section 4.1, the round constants. */
  datatype Ops<!W> = Ops(add: (W, W) -> W, f1: W -> W, f2: W -> W, f3: W -> W, f4: W -> W,
                         ch: (W, W, W) -> W, maj: (W, W, W) -> W, k: seq<W>)

  /** The working variables. */
  datatype Vars<W> = Vars(a: W, b: W, c: W, d: W, e: W, f: W, g: W, h: W)

  // ---------------------------------------------------------------- the standard

  /** The message schedule of a block of 16 words. */
  function Schedule<W>(ops: Ops<W>, m: seq<W>, t: nat): W
    requires |m| == 16
  {
    if t < 16 then m[t]
    else ops.add(ops.add(ops.add(ops.f4(Schedule(ops, m, t - 2)), Schedule(ops, m, t - 7)),
                         ops.f3(Schedule(ops, m, t - 15))), Schedule(ops, m, t - 16))
  }

  function T1<W>(ops: Ops<W>, h: W, e: W, f: W, g: W, k: W, w: W): W {
    ops.add(ops.add(ops.add(ops.add(h, ops.f2(e)), ops.ch(e, f, g)), k), w)
  }

  function T2<W>(ops: Ops<W>, a: W, b: W, c: W): W {
    ops.add(ops.f1(a), ops.maj(a, b, c))
  }

  function Round<W>(ops: Ops<W>, v: Vars<W>, k: W, w: W): Vars<W> {
    var t1, t2 := T1(ops, v.h, v.e, v.f, v.g, k, w), T2(ops, v.a, v.b, v.c);
    Vars(ops.add(t1, t2), v.a, v.b, v.c, ops.add(v.d, t1), v.e, v.f, v.g)
  }

  function Rounds<W>(ops: Ops<W>, v: Vars<W>, m: seq<W>, n: nat): Vars<W>
    requires |m| == 16 && n <= |ops.k|
  {
    if n == 0 then v else Round(ops, Rounds(ops, v, m, n - 1), ops.k[n - 1], Schedule(ops, m, n - 1))
  }

  function FromSeq<W>(s: seq<W>): Vars<W>
    requires |s| == 8
  {
    Vars(s[0], s[1], s[2], s[3], s[4], s[5], s[6], s[7])
  }

  function ToSeq<W>(v: Vars<W>): seq<W> {
    [v.a, v.b, v.c, v.d, v.e, v.f, v.g, v.h]
  }

  function Compress<W>(ops: Ops<W>, h: seq<W>, m: seq<W>): (r: seq<W>)
    requires |h| == 8 && |m| == 16
    ensures |r| == 8
  {
    var v := ToSeq(Rounds(ops, FromSeq(h), m, |ops.k|));
    seq(8, i requires 0 <= i < 8 => ops.add(h[i], v[i]))
  }

  // ---------------------------------------------------------------- loops common to both forms

  /** The `SCR` loop fills in the schedule. */
  method Expand<W>(ops: Ops<W>, m: seq<W>, n: nat) returns (w: array<W>)
    requires |m| == 16 && n >= 16
    ensures fresh(w) && w.Length == n && forall t :: 0 <= t < n ==> w[t] == Schedule(ops, m, t)
  {
    w := new W[n](_ => m[0]);
    for j := 0 to 16
      invariant forall t :: 0 <= t < j ==> w[t] == m[t]
    {
      w[j] := m[j];
    }
    for j := 16 to n
      invariant forall t :: 0 <= t < j ==> w[t] == Schedule(ops, m, t)
    {
      w[j] := ops.add(ops.add(ops.add(ops.f4(w[j - 2]), w[j - 7]), ops.f3(w[j - 15])), w[j - 16]);
    }
  }

  /** The last loop adds the working variables to the hash value. */
  method AddTo<W>(ops: Ops<W>, h: seq<W>, wv: seq<W>) returns (r: seq<W>)
    requires |h| == 8 && |wv| == 8
    ensures |r| == 8 && forall i :: 0 <= i < 8 ==> r[i] == ops.add(h[i], wv[i])
  {
    r := h;
    for j := 0 to 8
      invariant |r| == 8 && (forall i :: 0 <= i < j ==> r[i] == ops.add(h[i], wv[i]))
      invariant forall i :: j <= i < 8 ==> r[i] == h[i]
    {
      r := r[j := ops.add(r[j], wv[j])];
    }
  }

  lemma CompressIs<W>(ops: Ops<W>, h: seq<W>, m: seq<W>, wv: seq<W>, r: seq<W>)
    requires |h| == 8 && |m| == 16 && |wv| == 8 && FromSeq(wv) == Rounds(ops, FromSeq(h), m, |ops.k|)
    requires |r| == 8 && forall i :: 0 <= i < 8 ==> r[i] == ops.add(h[i], wv[i])
    ensures r == Compress(ops, h, m)
  {
    hide Rounds;
    assert ToSeq(FromSeq(wv)) == wv;
  }

  // ---------------------------------------------------------------- rolled

  /** The rolled form moves every working variable along in each round. */
  method Rolled<W>(ops: Ops<W>, h: seq<W>, m: seq<W>) returns (r: seq<W>)
    requires |h| == 8 && |m| == 16 && |ops.k| >= 16
    ensures r == Compress(ops, h, m)
  {
    hide Schedule, T1, T2, Compress;
    var w := Expand(ops, m, |ops.k|);
    var wv := h;
    for j := 0 to |ops.k|
      invariant |wv| == 8 && FromSeq(wv) == Rounds(ops, FromSeq(h), m, j)
      invariant forall t :: 0 <= t < |ops.k| ==> w[t] == Schedule(ops, m, t)
    {
      var t1 := T1(ops, wv[7], wv[4], wv[5], wv[6], ops.k[j], w[j]);
      var t2 := T2(ops, wv[0], wv[1], wv[2]);
      wv := [ops.add(t1, t2), wv[0], wv[1], wv[2], ops.add(wv[3], t1), wv[4], wv[5], wv[6]];
    }
    r := AddTo(ops, h, wv);
    CompressIs(ops, h, m, wv, r);
  }

  // ---------------------------------------------------------------- unrolled

  /** Eight different registers, in the order of the working variables. */
  predicate Registers(x: seq<int>) {
    |x| == 8 && (forall i :: 0 <= i < 8 ==> 0 <= x[i] < 8) && (forall i, j :: 0 <= i < j < 8 ==> x[i] != x[j])
  }

  /** The working variables as the registers hold them. */
  ghost function View<W>(s: seq<W>, x: seq<int>): Vars<W>
    requires |s| == 8 && Registers(x)
  {
    Vars(s[x[0]], s[x[1]], s[x[2]], s[x[3]], s[x[4]], s[x[5]], s[x[6]], s[x[7]])
  }

  /** The next round finds each variable where its predecessor was. */
  function Turned(x: seq<int>): seq<int>
    requires |x| == 8
  {
    [x[7], x[0], x[1], x[2], x[3], x[4], x[5], x[6]]
  }

  lemma TurnedRegisters(x: seq<int>)
    requires Registers(x)
    ensures Registers(Turned(x))
  {
  }

  /** The `EXP` macro: only two registers change. */
  method Exp<W>(ops: Ops<W>, s: seq<W>, x: seq<int>, kt: W, wt: W) returns (s': seq<W>)
    requires |s| == 8 && Registers(x)
    ensures |s'| == 8 && Registers(Turned(x)) && View(s', Turned(x)) == Round(ops, View(s, x), kt, wt)
  {
    hide T1, T2;
    TurnedRegisters(x);
    var t1 := T1(ops, s[x[7]], s[x[4]], s[x[5]], s[x[6]], kt, wt);
    var t2 := T2(ops, s[x[0]], s[x[1]], s[x[2]]);
    s' := s[x[3] := ops.add(s[x[3]], t1)];
    s' := s'[x[7] := ops.add(t1, t2)];
  }

  /** One `EXP` is one round of the standard. */
  method ExpRound<W>(ops: Ops<W>, s: seq<W>, x: seq<int>, w: seq<W>, j: nat, ghost v: Vars<W>, ghost m: seq<W>)
    returns (s': seq<W>)
    requires |s| == 8 && |m| == 16 && j < |ops.k| == |w| && Registers(x)
    requires w[j] == Schedule(ops, m, j) && View(s, x) == Rounds(ops, v, m, j)
    ensures |s'| == 8 && Registers(Turned(x)) && View(s', Turned(x)) == Rounds(ops, v, m, j + 1)
  {
    hide Schedule, Round, Registers, View;
    s' := Exp(ops, s, x, ops.k[j], w[j]);
  }

  /** Eight rounds turn the registers once around. */
  method ExpEight<W>(ops: Ops<W>, s: seq<W>, w: seq<W>, j: nat, ghost v: Vars<W>, ghost m: seq<W>) returns (s': seq<W>)
    requires |s| == 8 && |m| == 16 && j + 8 <= |ops.k| == |w|
    requires forall t :: 0 <= t < |w| ==> w[t] == Schedule(ops, m, t)
    requires FromSeq(s) == Rounds(ops, v, m, j)
    ensures |s'| == 8 && FromSeq(s') == Rounds(ops, v, m, j + 8)
  {
    hide Schedule, Round, Registers, View, Rounds, FromSeq;
    Unturned(s);
    s' := ExpRound(ops, s, [0, 1, 2, 3, 4, 5, 6, 7], w, j, v, m);
    s' := ExpRound(ops, s', [7, 0, 1, 2, 3, 4, 5, 6], w, j + 1, v, m);
    s' := ExpRound(ops, s', [6, 7, 0, 1, 2, 3, 4, 5], w, j + 2, v, m);
    s' := ExpRound(ops, s', [5, 6, 7, 0, 1, 2, 3, 4], w, j + 3, v, m);
    s' := ExpRound(ops, s', [4, 5, 6, 7, 0, 1, 2, 3], w, j + 4, v, m);
    s' := ExpRound(ops, s', [3, 4, 5, 6, 7, 0, 1, 2], w, j + 5, v, m);
    s' := ExpRound(ops, s', [2, 3, 4, 5, 6, 7, 0, 1], w, j + 6, v, m);
    s' := ExpRound(ops, s', [1, 2, 3, 4, 5, 6, 7, 0], w, j + 7, v, m);
    Unturned(s');
  }

  lemma Unturned<W>(s: seq<W>)
    requires |s| == 8
    ensures Registers([0, 1, 2, 3, 4, 5, 6, 7]) && View(s, [0, 1, 2, 3, 4, 5, 6, 7]) == FromSeq(s)
  {
  }

  /** The unrolled form leaves the variables in place and turns the registers instead. */
  method Unrolled<W>(ops: Ops<W>, h: seq<W>, m: seq<W>) returns (r: seq<W>)
    requires |h| == 8 && |m| == 16 && |ops.k| >= 16 && |ops.k| % 8 == 0
    ensures r == Compress(ops, h, m)
  {
    hide Schedule, Round, Rounds, Compress, FromSeq;
    var schedule := Expand(ops, m, |ops.k|);
    var w := schedule[..];
    var wv := h;
    var j := 0;
    NoRounds(ops, FromSeq(h), m);
    while j < |ops.k|
      invariant 0 <= j <= |ops.k| && j % 8 == 0 && |wv| == 8
      invariant FromSeq(wv) == Rounds(ops, FromSeq(h), m, j)
    {
      wv := ExpEight(ops, wv, w, j, FromSeq(h), m);
      j := j + 8;
    }
    r := AddTo(ops, h, wv);
    CompressIs(ops, h, m, wv, r);
  }

  lemma NoRounds<W>(ops: Ops<W>, v: Vars<W>, m: seq<W>)
    requires |m| == 16
    ensures Rounds(ops, v, m, 0) == v
  {
  }
}
