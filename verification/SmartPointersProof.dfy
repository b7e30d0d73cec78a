/** Every step of the smart pointer machine keeps its invariant. */
module SmartPointersProof {
  import opened SmartPointers

  // ---------------------------------------------------------------- counting

  lemma HoldersAdd(m: map<int, int>, v: int, b: int)
    requires v !in m
    ensures forall c :: |Holders(m[v := b], c)| == |Holders(m, c)| + (if c == b then 1 else 0)
  {
    forall c ensures |Holders(m[v := b], c)| == |Holders(m, c)| + (if c == b then 1 else 0) {
      HoldersWith(m, v, b, c);
      hide Holders;
    }
  }

  lemma HoldersWith(m: map<int, int>, v: int, b: int, c: int)
    requires v !in m
    ensures v !in Holders(m, c) && Holders(m[v := b], c) == if c == b then Holders(m, c) + {v} else Holders(m, c)
  {
  }

  lemma HoldersWithout(m: map<int, int>, v: int, c: int)
    requires v in m
    ensures (v in Holders(m, c) <==> c == m[v])
    ensures Holders(m - {v}, c) == if c == m[v] then Holders(m, c) - {v} else Holders(m, c)
  {
  }

  lemma HoldersRemove(m: map<int, int>, v: int)
    requires v in m
    ensures forall c :: |Holders(m - {v}, c)| == |Holders(m, c)| - (if c == m[v] then 1 else 0)
  {
    forall c ensures |Holders(m - {v}, c)| == |Holders(m, c)| - (if c == m[v] then 1 else 0) {
      HoldersWithout(m, v, c);
      hide Holders;
    }
  }

  lemma HolderCounts(m: map<int, int>, v: int)
    requires v in m
    ensures |Holders(m, m[v])| > 0
  {
    assert v in Holders(m, m[v]);
  }

  lemma NoHolders(m: map<int, int>, b: int)
    requires forall v :: v in m ==> m[v] != b
    ensures |Holders(m, b)| == 0
  {
    forall v ensures v !in Holders(m, b) {}
    assert Holders(m, b) == {};
  }

  // ---------------------------------------------------------------- frames

  /** Outside the claims `C` the two states agree on everything an operation relies on. */
  ghost predicate Agree(s: State, s': State, C: set<Claim>) {
    && (forall c :: c !in C ==> (c in s.owner <==> c in s'.owner))
    && (forall c :: c !in C && c in s.owner ==> s'.owner[c] == s.owner[c])
    && (forall v :: Strong(v) !in C ==> (v in s.strong <==> v in s'.strong))
    && (forall w :: Weak(w) !in C ==> (w in s.weak <==> w in s'.weak))
    && (forall b :: End(b) !in C && b in s.blocks ==> b in s'.blocks && s'.blocks[b].phase == s.blocks[b].phase)
  }

  lemma FrameStable(s: State, s': State, C: set<Claim>, f: Frame, t: int, i: int)
    requires FrameOk(s, f, t, i) && Agree(s, s', C)
    requires forall c :: Claims(f, c) ==> c !in C
    requires f.Locking? ==> Weak(f.w) !in C
    ensures FrameOk(s', f, t, i)
  {
    assert forall c :: Claims(f, c) ==> (c in s.owner ==> Owns(s', c, t, i));
  }

  /** Thread `t` keeps its operations below depth `n`, and has at most one more; the other threads
      keep theirs. */
  ghost predicate SameBelow(s: State, s': State, t: int, n: int) {
    && Thread(s, t) && 0 <= n <= |s.stacks[t]| && |s'.stacks| == |s.stacks|
    && n <= |s'.stacks[t]| <= n + 1
    && (forall i :: 0 <= i < n ==> s'.stacks[t][i] == s.stacks[t][i])
    && (forall t' :: 0 <= t' < |s.stacks| && t' != t ==> s'.stacks[t'] == s.stacks[t'])
  }

  /** The changed claims belong to the operation at depth `n` of thread `t`, or to nobody. */
  ghost predicate Mine(s: State, C: set<Claim>, t: int, n: int) {
    && (forall c :: c in C && c in s.owner ==> s.owner[c] == (t, n))
    && (forall w :: Weak(w) in C ==> !Borrowed(s, w))
  }

  ghost predicate TopOk(s: State, t: int, n: int) {
    Thread(s, t) && 0 <= n <= |s.stacks[t]| && (n < |s.stacks[t]| ==> FrameOk(s, s.stacks[t][n], t, n))
  }

  lemma OwnClaim(s: State, f: Frame, t: int, i: int, c: Claim)
    requires FrameOk(s, f, t, i) && Claims(f, c)
    ensures Owns(s, c, t, i)
  {
  }

  lemma FramesAfter(s: State, s': State, C: set<Claim>, t: int, n: int)
    requires Frames(s) && Agree(s, s', C) && SameBelow(s, s', t, n) && Mine(s, C, t, n) && TopOk(s', t, n)
    ensures Frames(s')
  {
    forall t', i | 0 <= t' < |s'.stacks| && 0 <= i < |s'.stacks[t']|
      ensures FrameOk(s', s'.stacks[t'][i], t', i)
    {
      if t' != t || i < n {
        var f := s.stacks[t'][i];
        assert FrameOk(s, f, t', i);
        forall c | Claims(f, c) ensures c !in C { OwnClaim(s, f, t', i, c); }
        FrameStable(s, s', C, f, t', i);
      }
    }
  }

  // ---------------------------------------------------------------- claims

  /** Claims given up or changed are all in `C`, and those of `C` that remain are held by the
      operation now at depth `n`. */
  ghost predicate Handover(s: State, s': State, C: set<Claim>, t: int, n: int)
    requires Thread(s, t) && Thread(s', t) && 0 <= n
  {
    && (forall c :: c in s.owner && s.owner[c].0 == t && s.owner[c].1 >= n ==> c in C)
    && (forall c :: c in C && c in s'.owner ==>
          s'.owner[c] == (t, n) && n < |s'.stacks[t]| && Claims(s'.stacks[t][n], c))
  }

  ghost predicate EndsOk(s: State, C: set<Claim>) {
    forall b :: End(b) in C && b in s.blocks ==>
      (s.blocks[b].phase in {Doomed, Destroyed, Final} <==> End(b) in s.owner)
  }

  lemma HeldAfter(s: State, s': State, C: set<Claim>, t: int, n: int)
    requires Held(s) && Agree(s, s', C) && SameBelow(s, s', t, n) && 0 <= n && Handover(s, s', C, t, n) && EndsOk(s', C)
    requires forall b :: b in s'.blocks && b !in s.blocks ==> End(b) in C
    ensures Held(s')
  {
    forall c | c in s'.owner
      ensures var (t', i) := s'.owner[c];
        0 <= t' < |s'.stacks| && 0 <= i < |s'.stacks[t']| && Claims(s'.stacks[t'][i], c)
    {
      if c !in C {
        var (t', i) := s.owner[c];
        assert 0 <= t' < |s.stacks| && 0 <= i < |s.stacks[t']| && Claims(s.stacks[t'][i], c);
      }
    }
  }

  /** The end of a block can only be claimed when the block exists. */
  lemma EndExists(s: State, b: int)
    requires Frames(s) && Held(s) && End(b) in s.owner
    ensures b in s.blocks
  {
    var (t, i) := s.owner[End(b)];
    assert FrameOk(s, s.stacks[t][i], t, i);
  }

  /** What the step lemmas have in common: the counts are checked by each, the rest follows from
      which claims change. */
  lemma InvAfter(s: State, s': State, C: set<Claim>, t: int, n: int)
    requires Inv(s) && !s'.bad && Counted(s') && Pointing(s')
    requires Agree(s, s', C) && SameBelow(s, s', t, n) && Mine(s, C, t, n) && TopOk(s', t, n)
    requires 0 <= n && Handover(s, s', C, t, n) && EndsOk(s', C)
    requires forall b :: b in s'.blocks && b !in s.blocks ==> End(b) in C
    ensures Inv(s')
  {
    FramesAfter(s, s', C, t, n);
    HeldAfter(s, s', C, t, n);
  }

  /** Claims of thread `t` are held below its depth, and those at the top are claims of the top. */
  lemma ClaimDepths(s: State, t: int)
    requires Held(s) && Thread(s, t)
    ensures forall c :: c in s.owner && s.owner[c].0 == t ==> s.owner[c].1 < Depth(s, t)
    ensures s.stacks[t] != [] ==>
      forall c :: c in s.owner && s.owner[c].0 == t && s.owner[c].1 >= Depth(s, t) - 1 ==> Claims(Top(s, t), c)
  {
  }

  /** A borrowed weak pointer is not null and nobody is dropping it. */
  lemma BorrowedStays(s: State, w: int)
    requires Frames(s) && Borrowed(s, w)
    ensures w in s.weak && Weak(w) !in s.owner
  {
    var t, i :| Thread(s, t) && 0 <= i < |s.stacks[t]| && s.stacks[t][i].Locking? && s.stacks[t][i].w == w;
    assert FrameOk(s, s.stacks[t][i], t, i);
  }

  /** A block with a strong pointer is alive; one with a weak pointer is not freed. */
  lemma StrongAlive(s: State, v: int)
    requires Counted(s) && Pointing(s) && v in s.strong
    ensures s.strong[v] in s.blocks
    ensures var k := s.blocks[s.strong[v]]; k.phase == Alive && k.use > 0 && k.destroys == 0 && k.frees == 0
  {
    HolderCounts(s.strong, v);
  }

  lemma WeakUnfreed(s: State, w: int)
    requires Counted(s) && Pointing(s) && w in s.weak
    ensures s.weak[w] in s.blocks
    ensures var k := s.blocks[s.weak[w]]; k.frees == 0 && k.weak > 0 && k.phase != Final && k.phase != Freed
  {
    HolderCounts(s.weak, w);
  }

  // ---------------------------------------------------------------- the steps

  lemma NewInv(s: State, t: int, v: int, b: int)
    requires Inv(s) && Enabled(s, New(t, v, b))
    ensures Inv(Step(s, New(t, v, b)))
  {
    hide Frames, Held, Holders, AdvanceTop, Borrowed;
    var s' := Step(s, New(t, v, b));
    var C := {Strong(v), End(b)};
    assert End(b) !in s.owner by { if End(b) in s.owner { EndExists(s, b); } }
    NoHolders(s.strong, b);
    NoHolders(s.weak, b);
    HoldersAdd(s.strong, v, b);
    ClaimDepths(s, t);
    InvAfter(s, s', C, t, Depth(s, t));
  }

  lemma CopyInv(s: State, t: int, v: int, src: int)
    requires Inv(s) && Enabled(s, Copy(t, v, src))
    ensures Inv(Step(s, Copy(t, v, src)))
  {
    hide Frames, Held, Holders, AdvanceTop, Borrowed;
    var s' := Step(s, Copy(t, v, src));
    StrongAlive(s, src);
    HoldersAdd(s.strong, v, s.strong[src]);
    ClaimDepths(s, t);
    InvAfter(s, s', {Strong(v)}, t, Depth(s, t));
  }

  lemma MakeWeakInv(s: State, t: int, w: int, src: int)
    requires Inv(s) && Enabled(s, MakeWeak(t, w, src))
    ensures Inv(Step(s, MakeWeak(t, w, src)))
  {
    hide Frames, Held, Holders, AdvanceTop, Borrowed;
    var s' := Step(s, MakeWeak(t, w, src));
    StrongAlive(s, src);
    HoldersAdd(s.weak, w, s.strong[src]);
    ClaimDepths(s, t);
    if Borrowed(s, w) { BorrowedStays(s, w); }
    InvAfter(s, s', {Weak(w)}, t, Depth(s, t));
  }

  lemma CopyWeakInv(s: State, t: int, w: int, src: int)
    requires Inv(s) && Enabled(s, CopyWeak(t, w, src))
    ensures Inv(Step(s, CopyWeak(t, w, src)))
  {
    hide Frames, Held, Holders, AdvanceTop, Borrowed;
    var s' := Step(s, CopyWeak(t, w, src));
    WeakUnfreed(s, src);
    HoldersAdd(s.weak, w, s.weak[src]);
    ClaimDepths(s, t);
    if Borrowed(s, w) { BorrowedStays(s, w); }
    InvAfter(s, s', {Weak(w)}, t, Depth(s, t));
  }

  lemma BeginDropInv(s: State, t: int, v: int)
    requires Inv(s) && Enabled(s, BeginDrop(t, v))
    ensures Inv(Step(s, BeginDrop(t, v)))
  {
    hide Frames, Held, Holders, AdvanceTop, Borrowed;
    var s' := Step(s, BeginDrop(t, v));
    ClaimDepths(s, t);
    InvAfter(s, s', {Strong(v)}, t, Depth(s, t));
  }

  lemma BeginDropWeakInv(s: State, t: int, w: int)
    requires Inv(s) && Enabled(s, BeginDropWeak(t, w))
    ensures Inv(Step(s, BeginDropWeak(t, w)))
  {
    hide Frames, Held, Holders, AdvanceTop, Borrowed;
    var s' := Step(s, BeginDropWeak(t, w));
    ClaimDepths(s, t);
    InvAfter(s, s', {Weak(w)}, t, Depth(s, t));
  }

  lemma BeginLockInv(s: State, t: int, w: int, v: int)
    requires Inv(s) && Enabled(s, BeginLock(t, w, v))
    ensures Inv(Step(s, BeginLock(t, w, v)))
  {
    hide Frames, Held, Holders, AdvanceTop, Borrowed;
    var s' := Step(s, BeginLock(t, w, v));
    WeakUnfreed(s, w);
    ClaimDepths(s, t);
    InvAfter(s, s', {Strong(v)}, t, Depth(s, t));
  }

  lemma EndDestroyInv(s: State, t: int)
    requires Inv(s) && Enabled(s, EndDestroy(t))
    ensures Inv(Step(s, EndDestroy(t)))
  {
    hide Held, Holders, AdvanceTop, Borrowed;
    var s' := Step(s, EndDestroy(t));
    var n := Depth(s, t) - 1;
    assert FrameOk(s, s.stacks[t][n], t, n);
    ClaimDepths(s, t);
    InvAfter(s, s', {End(Top(s, t).b)}, t, n);
  }

  /** A block that is alive or merely released has nobody at work on its end. */
  lemma NoEnd(s: State, b: int)
    requires Held(s) && b in s.blocks && s.blocks[b].phase in {Alive, Released, Freed}
    ensures End(b) !in s.owner
  {
  }

  lemma SubUseInv(s: State, t: int, v: int)
    requires Inv(s) && Thread(s, t) && s.stacks[t] != [] && Top(s, t) == Dropping(v)
    ensures Inv(SubUse(s, t, v))
  {
    hide SubUse, Frames, Held, Holders, Counted, FrameOk;
    TopFrame(s, t);
    DroppingHolds(s, t, v);
    StrongAlive(s, v);
    if s.blocks[s.strong[v]].use == 1 { SubUseLast(s, t, v); } else { SubUseOther(s, t, v); }
  }

  lemma DroppingHolds(s: State, t: int, v: int)
    requires Thread(s, t) && FrameOk(s, Dropping(v), t, Depth(s, t) - 1)
    ensures v in s.strong
  {
  }

  lemma SubUseLast(s: State, t: int, v: int)
    requires Inv(s) && Thread(s, t) && s.stacks[t] != [] && Top(s, t) == Dropping(v)
    requires v in s.strong && s.strong[v] in s.blocks && s.blocks[s.strong[v]].use == 1
    ensures Inv(SubUse(s, t, v))
  {
    hide Frames, Held, Holders, Borrowed;
    var b := s.strong[v];
    TopFrame(s, t);
    StrongAlive(s, v);
    NoEnd(s, b);
    HoldersRemove(s.strong, v);
    ClaimDepths(s, t);
    InvAfter(s, SubUse(s, t, v), {Strong(v), End(b)}, t, Depth(s, t) - 1);
  }

  lemma SubUseOther(s: State, t: int, v: int)
    requires Inv(s) && Thread(s, t) && s.stacks[t] != [] && Top(s, t) == Dropping(v)
    requires v in s.strong && s.strong[v] in s.blocks && s.blocks[s.strong[v]].use != 1
    ensures Inv(SubUse(s, t, v))
  {
    hide Frames, Held, Holders, Borrowed;
    TopFrame(s, t);
    StrongAlive(s, v);
    HoldersRemove(s.strong, v);
    ClaimDepths(s, t);
    InvAfter(s, SubUse(s, t, v), {Strong(v)}, t, Depth(s, t) - 1);
  }

  lemma TopFrame(s: State, t: int)
    requires Frames(s) && Thread(s, t) && s.stacks[t] != []
    ensures FrameOk(s, Top(s, t), t, Depth(s, t) - 1)
  {
  }

  lemma CallDestroyInv(s: State, t: int, b: int)
    requires Inv(s) && Thread(s, t) && s.stacks[t] != [] && Top(s, t) == Destroying(b)
    ensures Inv(CallDestroy(s, t, b))
  {
    hide Frames, Held, Holders, Borrowed;
    var s' := CallDestroy(s, t, b);
    TopFrame(s, t);
    ClaimDepths(s, t);
    InvAfter(s, s', {End(b)}, t, Depth(s, t) - 1);
  }

  lemma UnweakInv(s: State, t: int, b: int)
    requires Inv(s) && Thread(s, t) && s.stacks[t] != [] && Top(s, t) == Unweak(b)
    ensures Inv(SubWeak(Give(s, End(b)), t, b))
  {
    hide SubWeak, Frames, Held, Holders, Counted;
    TopFrame(s, t);
    if s.blocks[b].weak == 1 { UnweakLast(s, t, b); } else { UnweakOther(s, t, b); }
  }

  lemma UnweakLast(s: State, t: int, b: int)
    requires Inv(s) && Thread(s, t) && s.stacks[t] != [] && Top(s, t) == Unweak(b)
    requires b in s.blocks && s.blocks[b].weak == 1
    ensures Inv(SubWeak(Give(s, End(b)), t, b))
  {
    hide Frames, Held, Holders, Borrowed;
    TopFrame(s, t);
    ClaimDepths(s, t);
    InvAfter(s, SubWeak(Give(s, End(b)), t, b), {End(b)}, t, Depth(s, t) - 1);
  }

  lemma UnweakOther(s: State, t: int, b: int)
    requires Inv(s) && Thread(s, t) && s.stacks[t] != [] && Top(s, t) == Unweak(b)
    requires b in s.blocks && s.blocks[b].weak != 1
    ensures Inv(SubWeak(Give(s, End(b)), t, b))
  {
    hide Frames, Held, Holders, Borrowed;
    TopFrame(s, t);
    ClaimDepths(s, t);
    InvAfter(s, SubWeak(Give(s, End(b)), t, b), {End(b)}, t, Depth(s, t) - 1);
  }

  lemma DeleteInv(s: State, t: int, b: int)
    requires Inv(s) && Thread(s, t) && s.stacks[t] != [] && Top(s, t) == Freeing(b)
    ensures Inv(Delete(s, t, b))
  {
    hide Frames, Held, Holders, Borrowed;
    var s' := Delete(s, t, b);
    TopFrame(s, t);
    ClaimDepths(s, t);
    InvAfter(s, s', {End(b)}, t, Depth(s, t) - 1);
  }

  /** The step of a weak pointer that is dropped. */
  function DropWeak(s: State, t: int, w: int): State
    requires Thread(s, t) && s.stacks[t] != [] && w in s.weak
  {
    SubWeak(Give(s.(weak := s.weak - {w}), Weak(w)), t, s.weak[w])
  }

  lemma DropWeakInv(s: State, t: int, w: int)
    requires Inv(s) && Thread(s, t) && s.stacks[t] != [] && Top(s, t) == DroppingWeak(w)
    ensures w in s.weak && Inv(DropWeak(s, t, w))
  {
    hide DropWeak, Frames, Held, Holders, Counted;
    TopFrame(s, t);
    WeakUnfreed(s, w);
    if s.blocks[s.weak[w]].weak == 1 { DropWeakLast(s, t, w); } else { DropWeakOther(s, t, w); }
  }

  lemma DropWeakCounts(s: State, t: int, w: int)
    requires Inv(s) && Thread(s, t) && s.stacks[t] != [] && Top(s, t) == DroppingWeak(w) && w in s.weak
    ensures Counted(DropWeak(s, t, w)) && Pointing(DropWeak(s, t, w)) && !DropWeak(s, t, w).bad
    ensures s.weak[w] in s.blocks && (s.blocks[s.weak[w]].weak == 1 ==> s.blocks[s.weak[w]].phase == Released)
  {
    hide Frames, Held, Holders;
    HoldersRemove(s.weak, w);
    HolderCounts(s.weak, w);
  }

  lemma DropWeakLast(s: State, t: int, w: int)
    requires Inv(s) && Thread(s, t) && s.stacks[t] != [] && Top(s, t) == DroppingWeak(w)
    requires w in s.weak && s.weak[w] in s.blocks && s.blocks[s.weak[w]].weak == 1
    ensures Inv(DropWeak(s, t, w))
  {
    hide Frames, Held, Holders, Borrowed, Counted, Pointing;
    var b := s.weak[w];
    TopFrame(s, t);
    DropWeakCounts(s, t, w);
    NoEnd(s, b);
    ClaimDepths(s, t);
    if Borrowed(s, w) { BorrowedStays(s, w); }
    InvAfter(s, DropWeak(s, t, w), {Weak(w), End(b)}, t, Depth(s, t) - 1);
  }

  lemma DropWeakOther(s: State, t: int, w: int)
    requires Inv(s) && Thread(s, t) && s.stacks[t] != [] && Top(s, t) == DroppingWeak(w)
    requires w in s.weak && s.weak[w] in s.blocks && s.blocks[s.weak[w]].weak != 1
    ensures Inv(DropWeak(s, t, w))
  {
    hide Frames, Held, Holders, Borrowed, Counted, Pointing;
    TopFrame(s, t);
    DropWeakCounts(s, t, w);
    WeakUnfreed(s, w);
    ClaimDepths(s, t);
    if Borrowed(s, w) { BorrowedStays(s, w); }
    InvAfter(s, DropWeak(s, t, w), {Weak(w)}, t, Depth(s, t) - 1);
  }

  lemma TryLockInv(s: State, t: int)
    requires Inv(s) && Thread(s, t) && s.stacks[t] != [] && Top(s, t).Locking?
    ensures Inv(TryLock(s, t, Top(s, t)))
  {
    hide TryLock, Frames, Held, Holders, Counted;
    TopFrame(s, t);
    var f := Top(s, t);
    WeakUnfreed(s, f.w);
    if f.seen != 0 && s.blocks[s.weak[f.w]].use == f.seen { LockWins(s, t); } else { LockWaits(s, t); }
  }

  lemma LockWins(s: State, t: int)
    requires Inv(s) && Thread(s, t) && s.stacks[t] != [] && Top(s, t).Locking? && Top(s, t).seen != 0
    requires Top(s, t).w in s.weak && s.weak[Top(s, t).w] in s.blocks
    requires s.blocks[s.weak[Top(s, t).w]].use == Top(s, t).seen
    ensures Inv(TryLock(s, t, Top(s, t)))
  {
    hide Frames, Held, Holders, Borrowed;
    TopFrame(s, t);
    var f := Top(s, t);
    WeakUnfreed(s, f.w);
    HoldersAdd(s.strong, f.dst, s.weak[f.w]);
    ClaimDepths(s, t);
    InvAfter(s, TryLock(s, t, f), {Strong(f.dst)}, t, Depth(s, t) - 1);
  }

  lemma LockWaits(s: State, t: int)
    requires Inv(s) && Thread(s, t) && s.stacks[t] != [] && Top(s, t).Locking?
    requires Top(s, t).w in s.weak && s.weak[Top(s, t).w] in s.blocks
    requires Top(s, t).seen == 0 || s.blocks[s.weak[Top(s, t).w]].use != Top(s, t).seen
    ensures Inv(TryLock(s, t, Top(s, t)))
  {
    hide Frames, Held, Holders, Borrowed, AddUse;
    TopFrame(s, t);
    var f := Top(s, t);
    WeakUnfreed(s, f.w);
    ClaimDepths(s, t);
    InvAfter(s, TryLock(s, t, f), {Strong(f.dst)}, t, Depth(s, t) - 1);
  }

  lemma AdvanceInv(s: State, t: int)
    requires Inv(s) && Enabled(s, Advance(t))
    ensures Inv(Step(s, Advance(t)))
  {
    hide Inv, SubUse, CallDestroy, SubWeak, Delete, TryLock;
    match Top(s, t)
    case Dropping(v) => SubUseInv(s, t, v);
    case Destroying(b) => CallDestroyInv(s, t, b);
    case InDestroy(b) =>
    case Unweak(b) => UnweakInv(s, t, b);
    case Freeing(b) => DeleteInv(s, t, b);
    case DroppingWeak(w) => DropWeakInv(s, t, w);
    case Locking(w, seen, dst) => TryLockInv(s, t);
  }

  lemma DereferenceInv(s: State, t: int, v: int)
    requires Inv(s) && Enabled(s, Dereference(t, v))
    ensures Step(s, Dereference(t, v)) == s
  {
    StrongAlive(s, v);
  }

  /** Every step of every thread keeps the invariant. */
  lemma StepInv(s: State, a: Action)
    requires Inv(s) && Enabled(s, a)
    ensures Inv(Step(s, a))
  {
    hide Inv, Step, Enabled;
    match a
    case New(t, v, b) => NewInv(s, t, v, b);
    case Copy(t, v, src) => CopyInv(s, t, v, src);
    case MakeWeak(t, w, src) => MakeWeakInv(s, t, w, src);
    case CopyWeak(t, w, src) => CopyWeakInv(s, t, w, src);
    case BeginDrop(t, v) => BeginDropInv(s, t, v);
    case BeginDropWeak(t, w) => BeginDropWeakInv(s, t, w);
    case BeginLock(t, w, v) => BeginLockInv(s, t, w, v);
    case Dereference(t, v) => DereferenceInv(s, t, v);
    case EndDestroy(t) => EndDestroyInv(s, t);
    case Advance(t) => AdvanceInv(s, t);
  }
}
