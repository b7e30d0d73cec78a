/** What every pointer operation leaves in its target, and when `lock` yields a pointer. */
module SmartPointersCalls {
  import opened SmartPointers
  import opened SmartPointersProof
  import opened SmartPointersTheorems

  // ---------------------------------------------------------------- targets

  /** The strong and the weak pointers after an action. Only the pointer that the operation names changes:
      a copy points where its source does, a dropped pointer is gone, a lock fills its target or not. */
  ghost predicate Effect(s: State, a: Action, s': State)
    requires Enabled(s, a)
  {
    match a
    case New(_, v, b) => s'.strong == s.strong[v := b] && s'.weak == s.weak
    case Copy(_, v, src) => s'.strong == s.strong[v := s.strong[src]] && s'.weak == s.weak
    case MakeWeak(_, w, src) => s'.weak == s.weak[w := s.strong[src]] && s'.strong == s.strong
    case CopyWeak(_, w, src) => s'.weak == s.weak[w := s.weak[src]] && s'.strong == s.strong
    case Advance(t) => TopEffect(s, Top(s, t), s')
    case _ => s'.strong == s.strong && s'.weak == s.weak
  }

  ghost predicate TopEffect(s: State, f: Frame, s': State) {
    match f
    case Dropping(v) => s'.strong == s.strong - {v} && s'.weak == s.weak
    case DroppingWeak(w) => s'.strong == s.strong && s'.weak == s.weak - {w}
    case Locking(w, _, v) =>
      s'.weak == s.weak && (s'.strong == s.strong || (w in s.weak && s'.strong == s.strong[v := s.weak[w]]))
    case _ => s'.strong == s.strong && s'.weak == s.weak
  }

  lemma EffectStep(s: State, a: Action)
    requires Inv(s) && Enabled(s, a)
    ensures Effect(s, a, Step(s, a))
  {
    hide AdvanceTop, Borrowed, Frames, Held, Counted;
    if a.Advance? {
      AdvanceEffect(s, a.t);
    }
  }

  lemma AdvanceEffect(s: State, t: int)
    requires Inv(s) && Thread(s, t) && s.stacks[t] != []
    ensures TopEffect(s, Top(s, t), AdvanceTop(s, t))
  {
    hide Borrowed, Frames, Held, Counted, SubUse, CallDestroy, SubWeak, Delete, TryLock;
    TopFrame(s, t);
    AdvanceParts(s, t);
  }

  /** The threads other than `t` are where they were. */
  predicate Elsewhere(s: State, s': State, t: int) {
    |s'.stacks| == |s.stacks| && forall u :: 0 <= u < |s.stacks| && u != t ==> s'.stacks[u] == s.stacks[u]
  }

  predicate TargetsExist(s: State, f: Frame) {
    && (f.Dropping? ==> f.v in s.strong && s.strong[f.v] in s.blocks)
    && (f.DroppingWeak? ==> f.w in s.weak)
  }

  lemma AdvanceParts(s: State, t: int)
    requires Thread(s, t) && s.stacks[t] != []
    ensures Elsewhere(s, AdvanceTop(s, t), t)
    ensures TargetsExist(s, Top(s, t)) ==> TopEffect(s, Top(s, t), AdvanceTop(s, t))
  {
    hide SubUse, CallDestroy, SubWeak, Delete, TryLock;
    match Top(s, t)
    case Dropping(v) => SubUseParts(s, t, v);
    case Destroying(b) => CallDestroyParts(s, t, b);
    case InDestroy(b) =>
    case Unweak(b) => SubWeakParts(Give(s, End(b)), t, b);
    case Freeing(b) => DeleteParts(s, t, b);
    case DroppingWeak(w) =>
      if w in s.weak { SubWeakParts(Give(s.(weak := s.weak - {w}), Weak(w)), t, s.weak[w]); }
    case Locking(w, seen, dst) => TryLockParts(s, t);
  }

  lemma SubUseParts(s: State, t: int, v: int)
    requires Thread(s, t) && s.stacks[t] != []
    ensures Elsewhere(s, SubUse(s, t, v), t)
    ensures v in s.strong && s.strong[v] in s.blocks ==> TopEffect(s, Dropping(v), SubUse(s, t, v))
  {
  }

  lemma CallDestroyParts(s: State, t: int, b: int)
    requires Thread(s, t) && s.stacks[t] != []
    ensures Elsewhere(s, CallDestroy(s, t, b), t) && TopEffect(s, Destroying(b), CallDestroy(s, t, b))
  {
  }

  lemma SubWeakParts(s: State, t: int, b: int)
    requires Thread(s, t) && s.stacks[t] != []
    ensures Elsewhere(s, SubWeak(s, t, b), t) && TopEffect(s, Unweak(b), SubWeak(s, t, b))
  {
  }

  lemma DeleteParts(s: State, t: int, b: int)
    requires Thread(s, t) && s.stacks[t] != []
    ensures Elsewhere(s, Delete(s, t, b), t) && TopEffect(s, Freeing(b), Delete(s, t, b))
  {
  }

  lemma TryLockParts(s: State, t: int)
    requires Thread(s, t) && s.stacks[t] != [] && Top(s, t).Locking?
    ensures Elsewhere(s, TryLock(s, t, Top(s, t)), t) && TopEffect(s, Top(s, t), TryLock(s, t, Top(s, t)))
  {
    hide AddUse;
    var f := Top(s, t);
    if f.w in s.weak { AddUseParts(Touch(s, s.weak[f.w]), s.weak[f.w], f.dst); }
  }

  lemma AddUseParts(s: State, b: int, v: int)
    ensures AddUse(s, b, v).stacks == s.stacks && AddUse(s, b, v).weak == s.weak
    ensures b in s.blocks ==> AddUse(s, b, v).strong == s.strong[v := b]
  {
  }

  /** In every reachable state every action has exactly this effect on the pointers. */
  lemma Targets(s0: State, acts: seq<Action>, s: State, a: Action)
    requires Init(s0) && Runs(s0, acts, s) && Enabled(s, a)
    ensures Effect(s, a, Step(s, a))
  {
    InitInv(s0);
    RunInv(s0, acts, s);
    EffectStep(s, a);
  }

  // ---------------------------------------------------------------- lock

  /** Thread `t` is locking `w` into `v`, at depth `d` of its stack. */
  predicate InCall(s: State, t: int, d: int, w: int, v: int) {
    Thread(s, t) && Depth(s, t) == d + 1 && d >= 0 && Top(s, t).Locking? && Top(s, t).w == w && Top(s, t).dst == v
  }

  /** The run takes `s` to `s'` and the thread is in that call all the while. */
  ghost predicate Within(s: State, acts: seq<Action>, s': State, t: int, d: int, w: int, v: int)
    decreases |acts|
  {
    InCall(s, t, d, w, v) &&
    if acts == [] then s' == s
    else Enabled(s, acts[0]) && Within(Step(s, acts[0]), acts[1..], s', t, d, w, v)
  }

  /** The weak pointer points to `b`, and a count of zero that the call has seen is still zero. */
  ghost predicate Watches(s: State, t: int, w: int, b: int)
    requires Thread(s, t) && s.stacks[t] != [] && Top(s, t).Locking?
  {
    w in s.weak && s.weak[w] == b && b in s.blocks && (Top(s, t).seen == 0 ==> s.blocks[b].use == 0)
  }

  /** One turn: without a strong pointer to the object the call does not get one; with one it gets a
      further one, or the count has changed since the call last saw it and the call goes on. */
  ghost predicate Turn(s: State, s': State, t: int, d: int, w: int, v: int, b: int)
    requires InCall(s, t, d, w, v)
  {
    if Holders(s.strong, b) == {} then s'.strong == s.strong
    else if InCall(s', t, d, w, v) then
      s'.strong == s.strong && Top(s, t).seen != |Holders(s.strong, b)| == Top(s', t).seen
    else
      Thread(s', t) && Depth(s', t) == d && s'.strong == s.strong[v := b]
  }

  lemma TurnStep(s: State, t: int, d: int, w: int, v: int, b: int)
    requires Inv(s) && InCall(s, t, d, w, v) && Watches(s, t, w, b)
    ensures Enabled(s, Advance(t)) && Turn(s, Step(s, Advance(t)), t, d, w, v, b)
    ensures var s' := Step(s, Advance(t)); InCall(s', t, d, w, v) ==> Watches(s', t, w, b)
    ensures var s' := Step(s, Advance(t)); !InCall(s', t, d, w, v) ==> Thread(s', t) && Depth(s', t) == d
  {
    hide Borrowed, Frames, Held, SubUse, CallDestroy, SubWeak, Delete;
    TopFrame(s, t);
    WeakUnfreed(s, w);
    EmptyIff(Holders(s.strong, b));
  }

  lemma OtherStack(s: State, a: Action, t: int)
    requires Enabled(s, a) && a.t != t && Thread(s, t)
    ensures Thread(Step(s, a), t) && Step(s, a).stacks[t] == s.stacks[t]
  {
    hide Borrowed, AdvanceTop;
    if a.Advance? { AdvanceParts(s, a.t); }
  }

  /** Nobody takes away or redirects a weak pointer that is not being dropped. */
  lemma WeakStays(s: State, a: Action, w: int)
    requires Inv(s) && Enabled(s, a) && w in s.weak && Weak(w) !in s.owner
    ensures w in Step(s, a).weak && Step(s, a).weak[w] == s.weak[w]
  {
    EffectStep(s, a);
    hide Step, Borrowed, Frames, Held, Counted;
    if a.Advance? { TopFrame(s, a.t); }
  }

  lemma CallStep(s: State, a: Action, t: int, d: int, w: int, v: int, b: int)
    requires Inv(s) && Enabled(s, a) && InCall(s, t, d, w, v) && Watches(s, t, w, b)
    requires InCall(Step(s, a), t, d, w, v)
    ensures Inv(Step(s, a)) && Watches(Step(s, a), t, w, b)
  {
    StepInv(s, a);
    if a.t == t {
      OnlyAdvance(s, a, t);
      TurnStep(s, t, d, w, v, b);
    } else {
      TopFrame(s, t);
      hide Step, Inv, Enabled;
      OtherStack(s, a, t);
      WeakStays(s, a, w);
      if s.blocks[b].use == 0 { UseStaysZero(s, a, b); }
      InvPoints(Step(s, a), w);
    }
  }

  lemma InvPoints(s: State, w: int)
    requires Inv(s) && w in s.weak
    ensures s.weak[w] in s.blocks
  {
  }

  lemma OnlyAdvance(s: State, a: Action, t: int)
    requires Enabled(s, a) && a.t == t && Thread(s, t) && s.stacks[t] != [] && Top(s, t).Locking?
    ensures a == Advance(t)
  {
  }

  lemma {:induction false} CallRun(s: State, acts: seq<Action>, s': State, t: int, d: int, w: int, v: int, b: int)
    requires Inv(s) && Within(s, acts, s', t, d, w, v) && Watches(s, t, w, b)
    ensures Inv(s') && InCall(s', t, d, w, v) && Watches(s', t, w, b)
    decreases |acts|
  {
    hide Inv, Step, Enabled, Watches;
    if acts != [] {
      CallStep(s, acts[0], t, d, w, v, b);
      CallRun(Step(s, acts[0]), acts[1..], s', t, d, w, v, b);
    }
  }

  lemma CallBegins(s: State, t: int, w: int, v: int)
    requires Inv(s) && Enabled(s, BeginLock(t, w, v))
    ensures var s' := Step(s, BeginLock(t, w, v));
      Inv(s') && InCall(s', t, Depth(s, t), w, v) && Watches(s', t, w, s.weak[w])
  {
    hide Borrowed, Frames, Held;
    BeginLockInv(s, t, w, v);
    WeakUnfreed(s, w);
  }

  /** Over every run, at every turn of a `lock`: while the object has no strong pointer the call gets none;
      while it has one, the call gets a further one to the object of the weak pointer it was made for,
      unless the count has changed since the last turn. */
  lemma LockTurns(s0: State, x: seq<Action>, s: State, t: int, w: int, v: int, y: seq<Action>, m: State)
    requires Init(s0) && Runs(s0, x, s) && Enabled(s, BeginLock(t, w, v))
    requires Within(Step(s, BeginLock(t, w, v)), y, m, t, Depth(s, t), w, v)
    ensures InCall(m, t, Depth(s, t), w, v) && Enabled(m, Advance(t))
    ensures Turn(m, Step(m, Advance(t)), t, Depth(s, t), w, v, s.weak[w])
  {
    InitInv(s0);
    RunInv(s0, x, s);
    CallBegins(s, t, w, v);
    hide Step, Inv, Enabled, Watches, Turn;
    CallRun(Step(s, BeginLock(t, w, v)), y, m, t, Depth(s, t), w, v, s.weak[w]);
    TurnStep(m, t, Depth(s, t), w, v, s.weak[w]);
  }

  /** So a `lock` that ends without a pointer ends in a state without strong pointers to the object, and
      one that ends with a pointer has it to that object, which is alive. */
  lemma LockOutcome(s0: State, x: seq<Action>, s: State, t: int, w: int, v: int, y: seq<Action>, m: State)
    requires Init(s0) && Runs(s0, x, s) && Enabled(s, BeginLock(t, w, v))
    requires Within(Step(s, BeginLock(t, w, v)), y, m, t, Depth(s, t), w, v)
    ensures InCall(m, t, Depth(s, t), w, v) && Enabled(m, Advance(t))
    ensures var b, s' := s.weak[w], Step(m, Advance(t));
      !InCall(s', t, Depth(s, t), w, v) ==>
        if v in s'.strong
        then s'.strong == m.strong[v := b] && Holders(m.strong, b) != {} && b in s'.blocks && s'.blocks[b].destroys == 0
        else s'.strong == m.strong && Holders(m.strong, b) == {}
  {
    LockTurns(s0, x, s, t, w, v, y, m);
    InitInv(s0);
    RunInv(s0, x, s);
    CallBegins(s, t, w, v);
    hide Step, Enabled, Frames, Held, Holders, Watches;
    CallRun(Step(s, BeginLock(t, w, v)), y, m, t, Depth(s, t), w, v, s.weak[w]);
    TopFrame(m, t);
    StepInv(m, Advance(t));
    if v in Step(m, Advance(t)).strong { StrongAlive(Step(m, Advance(t)), v); }
  }
}
