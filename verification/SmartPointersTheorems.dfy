/** What the smart pointers promise, over every run of every number of threads. */
module SmartPointersTheorems {
  import opened SmartPointers
  import opened SmartPointersProof

  /** The state after the actions, each of which must have been possible in turn. */
  ghost predicate Runs(s: State, acts: seq<Action>, s': State)
    decreases |acts|
  {
    if acts == [] then s' == s
    else Enabled(s, acts[0]) && Runs(Step(s, acts[0]), acts[1..], s')
  }

  lemma InitInv(s: State)
    requires Init(s)
    ensures Inv(s)
  {
  }

  lemma {:induction false} RunInv(s: State, acts: seq<Action>, s': State)
    requires Inv(s) && Runs(s, acts, s')
    ensures Inv(s')
    decreases |acts|
  {
    if acts != [] {
      StepInv(s, acts[0]);
      RunInv(Step(s, acts[0]), acts[1..], s');
    }
  }

  /** An operation that has taken the last strong pointer of `b` and not yet given up the extra weak
      count. */
  ghost predicate Finishing(s: State, b: int) {
    exists t, i :: 0 <= t < |s.stacks| && 0 <= i < |s.stacks[t]| &&
      (s.stacks[t][i] == Destroying(b) || s.stacks[t][i] == InDestroy(b) || s.stacks[t][i] == Unweak(b))
  }

  lemma FinishingIff(s: State, b: int)
    requires Inv(s) && b in s.blocks
    ensures Finishing(s, b) <==> s.blocks[b].phase == Doomed || s.blocks[b].phase == Destroyed
  {
    if s.blocks[b].phase == Doomed || s.blocks[b].phase == Destroyed {
      var (t, i) := s.owner[End(b)];
      assert FrameOk(s, s.stacks[t][i], t, i);
    }
    if Finishing(s, b) {
      var t, i :| 0 <= t < |s.stacks| && 0 <= i < |s.stacks[t]| &&
        (s.stacks[t][i] == Destroying(b) || s.stacks[t][i] == InDestroy(b) || s.stacks[t][i] == Unweak(b));
      assert FrameOk(s, s.stacks[t][i], t, i);
    }
  }

  /** In every reachable state the counts are exact, nothing is destroyed or freed twice, nothing is
      touched after that, and no strong pointer exists once destruction has begun. */
  lemma Safety(s: State, acts: seq<Action>, s': State, b: int)
    requires Init(s) && Runs(s, acts, s') && b in s'.blocks
    ensures !s'.bad
    ensures var k := s'.blocks[b];
      && k.use == |Holders(s'.strong, b)|
      && k.weak == |Holders(s'.weak, b)| + (if k.use > 0 || Finishing(s', b) then 1 else 0)
      && 0 <= k.destroys <= 1 && 0 <= k.frees <= k.destroys
      && (k.destroys == 1 ==> Holders(s'.strong, b) == {})
      && (k.frees == 1 ==> Holders(s'.weak, b) == {} && !Finishing(s', b))
  {
    InitInv(s);
    RunInv(s, acts, s');
    FinishingIff(s', b);
    EmptyIff(Holders(s'.strong, b));
    EmptyIff(Holders(s'.weak, b));
  }

  lemma EmptyIff(x: set<int>)
    ensures |x| == 0 <==> x == {}
  {
  }

  /** With no operation in progress, an object without strong pointers has been destroyed exactly
      once, and a block without any pointers freed exactly once. */
  lemma NoLeak(s: State, acts: seq<Action>, s': State, b: int)
    requires Init(s) && Runs(s, acts, s') && b in s'.blocks
    requires forall t :: 0 <= t < |s'.stacks| ==> s'.stacks[t] == []
    requires Holders(s'.strong, b) == {}
    ensures s'.blocks[b].destroys == 1
    ensures Holders(s'.weak, b) == {} ==> s'.blocks[b].frees == 1
  {
    InitInv(s);
    RunInv(s, acts, s');
    hide Frames, Holders, FrameOk;
    EmptyIff(Holders(s'.strong, b));
    assert End(b) !in s'.owner;
  }

  /** A use count of zero is final, whatever any thread does. */
  lemma UseStaysZero(s: State, a: Action, b: int)
    requires Inv(s) && Enabled(s, a) && b in s.blocks && s.blocks[b].use == 0
    ensures var s' := Step(s, a);
      b in s'.blocks && s'.blocks[b].use == 0 && s'.blocks[b].destroys >= s.blocks[b].destroys
  {
    StepInv(s, a);
    PhaseStep(s, a, b);
  }

  /** The block has not come back to life. */
  ghost predicate StaysDead(s: State, s': State, b: int) {
    b in s.blocks && s.blocks[b].phase != Alive ==>
      b in s'.blocks && s'.blocks[b].phase != Alive && s'.blocks[b].destroys >= s.blocks[b].destroys
  }

  lemma PhaseStep(s: State, a: Action, b: int)
    requires Enabled(s, a)
    ensures StaysDead(s, Step(s, a), b)
  {
    hide AdvanceTop, Borrowed;
    if a.Advance? { PhaseAdvance(s, a.t, b); }
  }

  lemma PhaseAdvance(s: State, t: int, b: int)
    requires Thread(s, t) && s.stacks[t] != []
    ensures StaysDead(s, AdvanceTop(s, t), b)
  {
    hide SubUse, CallDestroy, SubWeak, Delete, TryLock;
    match Top(s, t)
    case Dropping(v) => PhaseSubUse(s, t, v, b);
    case Destroying(c) => PhaseCallDestroy(s, t, c, b);
    case InDestroy(c) =>
    case Unweak(c) => PhaseSubWeak(Give(s, End(c)), t, c, b);
    case Freeing(c) => PhaseDelete(s, t, c, b);
    case DroppingWeak(w) =>
      if w in s.weak { PhaseSubWeak(Give(s.(weak := s.weak - {w}), Weak(w)), t, s.weak[w], b); }
    case Locking(w, seen, dst) => PhaseTryLock(s, t, b);
  }

  lemma PhaseSubUse(s: State, t: int, v: int, b: int)
    requires Thread(s, t) && s.stacks[t] != []
    ensures StaysDead(s, SubUse(s, t, v), b)
  {
  }

  lemma PhaseCallDestroy(s: State, t: int, c: int, b: int)
    requires Thread(s, t) && s.stacks[t] != []
    ensures StaysDead(s, CallDestroy(s, t, c), b)
  {
  }

  lemma PhaseSubWeak(s: State, t: int, c: int, b: int)
    requires Thread(s, t) && s.stacks[t] != []
    ensures StaysDead(s, SubWeak(s, t, c), b)
  {
  }

  lemma PhaseDelete(s: State, t: int, c: int, b: int)
    requires Thread(s, t) && s.stacks[t] != []
    ensures StaysDead(s, Delete(s, t, c), b)
  {
  }

  lemma PhaseTryLock(s: State, t: int, b: int)
    requires Thread(s, t) && s.stacks[t] != [] && Top(s, t).Locking?
    ensures StaysDead(s, TryLock(s, t, Top(s, t)), b)
  {
    hide AddUse;
    var f := Top(s, t);
    if f.w in s.weak {
      PhaseAddUse(s, s.weak[f.w], f.dst, b);
      PhaseAddUse(Touch(s, s.weak[f.w]), s.weak[f.w], f.dst, b);
    }
  }

  lemma PhaseAddUse(s: State, c: int, v: int, b: int)
    ensures StaysDead(s, AddUse(s, c, v), b)
  {
  }

  lemma {:induction false} UseStaysZeroForever(s: State, acts: seq<Action>, s': State, b: int)
    requires Inv(s) && Runs(s, acts, s') && b in s.blocks && s.blocks[b].use == 0
    ensures b in s'.blocks && s'.blocks[b].use == 0
    decreases |acts|
  {
    if acts != [] {
      UseStaysZero(s, acts[0], b);
      StepInv(s, acts[0]);
      UseStaysZeroForever(Step(s, acts[0]), acts[1..], s', b);
    }
  }

  /** Once the object of a weak pointer has begun to be destroyed, no turn of a `lock` on it yields a
      strong pointer, even if the count it saw was not zero. */
  lemma LockAfterDestruction(s: State, acts: seq<Action>, s': State, t: int)
    requires Init(s) && Runs(s, acts, s') && Thread(s', t) && s'.stacks[t] != [] && Top(s', t).Locking?
    requires Top(s', t).w in s'.weak && s'.weak[Top(s', t).w] in s'.blocks
    requires s'.blocks[s'.weak[Top(s', t).w]].use == 0
    ensures Step(s', Advance(t)).strong == s'.strong
  {
    InitInv(s);
    RunInv(s, acts, s');
  }

  // ---------------------------------------------------------------- from a raw pointer

  /** The constructor that takes a raw pointer to an object which knows its own weak pointer: it
      adds to the use count without looking at it. The caller may have nothing but the raw
      pointer. */
  ghost predicate CanShareRaw(s: State, b: int, v: int) {
    b in s.blocks && s.blocks[b].destroys == 0 && v !in s.strong && Strong(v) !in s.owner
  }

  /** It is safe exactly when some strong pointer exists. */
  lemma ShareRawIff(s: State, b: int, v: int)
    requires Inv(s) && CanShareRaw(s, b, v) && 0 < |s.stacks|
    ensures Inv(AddUse(s, b, v)) <==> s.blocks[b].use > 0
  {
    hide Frames, Held, Holders, Borrowed;
    HoldersAdd(s.strong, v, b);
    if s.blocks[b].use > 0 {
      ClaimDepths(s, 0);
      InvAfter(s, AddUse(s, b, v), {Strong(v)}, 0, Depth(s, 0));
    }
  }

  /** Otherwise, when the last owner is about to destroy the object, the new pointer is left
      dangling: destroying goes ahead and the next dereference touches a destroyed object. */
  lemma ShareRawDangles(s: State, b: int, v: int, t: int, t': int)
    requires Inv(s) && CanShareRaw(s, b, v) && Thread(s, t) && s.stacks[t] != [] && Top(s, t) == Destroying(b)
    requires t' != t && CanStart(s, t')
    ensures var s1 := AddUse(s, b, v);
      && Enabled(s1, Advance(t))
      && Enabled(Step(s1, Advance(t)), Dereference(t', v))
      && Step(Step(s1, Advance(t)), Dereference(t', v)).bad
  {
    hide Inv, Borrowed;
    var s1 := AddUse(s, b, v);
    assert s1.stacks == s.stacks && s1.strong[v] == b && b in s1.blocks && s1.blocks[b].destroys == 0;
    hide AddUse;
    DestroyGoesAhead(s1, t, b);
  }

  lemma DestroyGoesAhead(s: State, t: int, b: int)
    requires Thread(s, t) && s.stacks[t] != [] && Top(s, t) == Destroying(b)
    requires b in s.blocks && s.blocks[b].destroys == 0
    ensures var s' := Step(s, Advance(t));
      && s'.strong == s.strong && s'.owner == s.owner && b in s'.blocks && s'.blocks[b].destroys == 1
      && |s'.stacks| == |s.stacks| && forall u :: 0 <= u < |s.stacks| && u != t ==> s'.stacks[u] == s.stacks[u]
  {
    hide Borrowed, SubUse, SubWeak, Delete, TryLock;
  }

  /** Such a state is reached: one thread makes an object and drops its only pointer, another is idle. */
  lemma ShareRawReached() returns (s: State, acts: seq<Action>, s': State)
    ensures Init(s) && Runs(s, acts, s') && CanShareRaw(s', 0, 1)
    ensures Thread(s', 0) && s'.stacks[0] != [] && Top(s', 0) == Destroying(0) && CanStart(s', 1)
  {
    hide Borrowed, AdvanceTop;
    s := State(map[], map[], map[], [[], []], map[], false);
    var s1 := State(map[0 := Block(1, 1, 0, 0, Alive)], map[0 := 0], map[], [[], []], map[], false);
    assert Enabled(s, New(0, 0, 0)) && Step(s, New(0, 0, 0)) == s1;
    var s2 := s1.(stacks := [[Dropping(0)], []], owner := map[Strong(0) := (0, 0)]);
    assert Enabled(s1, BeginDrop(0, 0)) && Step(s1, BeginDrop(0, 0)) == s2 by {
      assert s1.stacks[0] + [Dropping(0)] == [Dropping(0)];
      assert s1.stacks[0 := [Dropping(0)]] == s2.stacks;
    }
    s' := AdvanceTop(s2, 0);
    LastDrop(s2);
    assert Enabled(s2, Advance(0)) && Step(s2, Advance(0)) == s';
    hide Step, Enabled;
    acts := [New(0, 0, 0), BeginDrop(0, 0), Advance(0)];
    assert acts[1..] == [BeginDrop(0, 0), Advance(0)] && acts[1..][1..] == [Advance(0)] && acts[1..][1..][1..] == [];
    assert Runs(s', [], s') && Runs(s2, [Advance(0)], s');
    assert Runs(s1, [BeginDrop(0, 0), Advance(0)], s');
  }

  lemma LastDrop(s: State)
    requires s == State(map[0 := Block(1, 1, 0, 0, Alive)], map[0 := 0], map[], [[Dropping(0)], []],
                        map[Strong(0) := (0, 0)], false)
    ensures var s' := AdvanceTop(s, 0);
      && s'.stacks == [[Destroying(0)], []] && CanShareRaw(s', 0, 1)
  {
    hide CallDestroy, SubWeak, Delete, TryLock;
    assert s.stacks[0][..0] + [Destroying(0)] == [Destroying(0)];
    assert s.stacks[0 := [Destroying(0)]] == [[Destroying(0)], []];
  }
}
