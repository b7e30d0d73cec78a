/** `rt::SharedPtr` and `rt::WeakPtr` as a step machine: any number of threads, pointers and info
    blocks, one step for each atomic access to a count. A destructor run by the last owner may
    itself start pointer operations, so every thread has a stack of operations in progress. */
module SmartPointers {

  /** How far a block has come; bookkeeping that no step looks at. */
  datatype Phase = Alive | Doomed | Destroyed | Released | Final | Freed

  /** `InfoBlock`: the counts, and how often the object was destroyed and the block deleted. */
  datatype Block = Block(use: int, weak: int, destroys: int, frees: int, phase: Phase)

  /** An operation in progress, named by what it does next. */
  datatype Frame =
    | Dropping(v: int)                         // subtract from the use count of strong pointer v
    | Destroying(b: int)                       // call destroy()
    | InDestroy(b: int)                        // inside destroy()
    | Unweak(b: int)                           // give up the extra weak count
    | Freeing(b: int)                          // delete the info block
    | DroppingWeak(w: int)                     // subtract from the weak count of weak pointer w
    | Locking(w: int, seen: int, dst: int)     // compare-exchange of lock()

  /** What an operation has to itself: the pointer it changes, or the end of a block. */
  datatype Claim = Strong(v: int) | Weak(w: int) | End(b: int)

  /** Pointers that are null are absent from `strong` and `weak`; `owner` says which operation (thread
      and depth in its stack) holds each claim. `bad` records a touch of freed or destroyed memory. */
  datatype State = State(blocks: map<int, Block>, strong: map<int, int>, weak: map<int, int>,
                         stacks: seq<seq<Frame>>, owner: map<Claim, (int, int)>, bad: bool)

  datatype Action =
    | New(t: int, v: int, b: int)
    | Copy(t: int, v: int, src: int)
    | MakeWeak(t: int, w: int, src: int)
    | CopyWeak(t: int, w: int, src: int)
    | BeginDrop(t: int, v: int)
    | BeginDropWeak(t: int, w: int)
    | BeginLock(t: int, w: int, v: int)
    | Dereference(t: int, v: int)
    | EndDestroy(t: int)
    | Advance(t: int)

  // ---------------------------------------------------------------- stacks

  predicate Thread(s: State, t: int) {
    0 <= t < |s.stacks|
  }

  function Top(s: State, t: int): Frame
    requires Thread(s, t) && s.stacks[t] != []
  {
    s.stacks[t][|s.stacks[t]| - 1]
  }

  /** A thread starts an operation when it has none in progress, or from inside a destructor. */
  predicate CanStart(s: State, t: int) {
    Thread(s, t) && (s.stacks[t] == [] || Top(s, t).InDestroy?)
  }

  function Depth(s: State, t: int): int
    requires Thread(s, t)
  {
    |s.stacks[t]|
  }

  function Push(s: State, t: int, f: Frame): State
    requires Thread(s, t)
  {
    s.(stacks := s.stacks[t := s.stacks[t] + [f]])
  }

  function Replace(s: State, t: int, f: Frame): State
    requires Thread(s, t) && s.stacks[t] != []
  {
    s.(stacks := s.stacks[t := s.stacks[t][..Depth(s, t) - 1] + [f]])
  }

  function Pop(s: State, t: int): State
    requires Thread(s, t) && s.stacks[t] != []
  {
    s.(stacks := s.stacks[t := s.stacks[t][..Depth(s, t) - 1]])
  }

  // ---------------------------------------------------------------- steps

  /** Access to the info block of `b`. */
  function Touch(s: State, b: int): State {
    if b in s.blocks && s.blocks[b].frees == 0 then s else s.(bad := true)
  }

  function SetBlock(s: State, b: int, k: Block): State {
    s.(blocks := s.blocks[b := k])
  }

  function Take(s: State, c: Claim, t: int, i: int): State {
    s.(owner := s.owner[c := (t, i)])
  }

  function Give(s: State, c: Claim): State {
    s.(owner := s.owner - {c})
  }

  /** A weak pointer that some thread is locking must stay as it is. */
  ghost predicate Borrowed(s: State, w: int) {
    exists t, i :: Thread(s, t) && 0 <= i < |s.stacks[t]| && s.stacks[t][i].Locking? && s.stacks[t][i].w == w
  }

  ghost predicate Enabled(s: State, a: Action) {
    match a
    case New(t, v, b) => CanStart(s, t) && v !in s.strong && Strong(v) !in s.owner && b !in s.blocks
    case Copy(t, v, src) =>
      CanStart(s, t) && v !in s.strong && Strong(v) !in s.owner && src in s.strong && Strong(src) !in s.owner
    case MakeWeak(t, w, src) =>
      CanStart(s, t) && w !in s.weak && Weak(w) !in s.owner && src in s.strong && Strong(src) !in s.owner
    case CopyWeak(t, w, src) =>
      CanStart(s, t) && w !in s.weak && Weak(w) !in s.owner && src in s.weak && Weak(src) !in s.owner
    case BeginDrop(t, v) => CanStart(s, t) && v in s.strong && Strong(v) !in s.owner
    case BeginDropWeak(t, w) => CanStart(s, t) && w in s.weak && Weak(w) !in s.owner && !Borrowed(s, w)
    case BeginLock(t, w, v) =>
      CanStart(s, t) && w in s.weak && Weak(w) !in s.owner && v !in s.strong && Strong(v) !in s.owner
    case Dereference(t, v) => CanStart(s, t) && v in s.strong && Strong(v) !in s.owner
    case EndDestroy(t) => Thread(s, t) && s.stacks[t] != [] && Top(s, t).InDestroy?
    case Advance(t) => Thread(s, t) && s.stacks[t] != [] && !Top(s, t).InDestroy?
  }

  function AddUse(s: State, b: int, v: int): State {
    var s := Touch(s, b);
    if b !in s.blocks then s
    else SetBlock(s, b, s.blocks[b].(use := s.blocks[b].use + 1)).(strong := s.strong[v := b])
  }

  function AddWeak(s: State, b: int, w: int): State {
    var s := Touch(s, b);
    if b !in s.blocks then s
    else SetBlock(s, b, s.blocks[b].(weak := s.blocks[b].weak + 1)).(weak := s.weak[w := b])
  }

  /** `decrementStrongRefs`, the first subtraction: the pointer no longer counts, and if it was the
      last one the thread goes on to destroy the object. */
  function SubUse(s: State, t: int, v: int): State
    requires Thread(s, t) && s.stacks[t] != []
  {
    if v !in s.strong || s.strong[v] !in s.blocks then s.(bad := true)
    else
      var b := s.strong[v];
      var s := Give(Touch(s, b).(strong := s.strong - {v}), Strong(v));
      var k := s.blocks[b].(use := s.blocks[b].use - 1);
      if k.use == 0
      then Take(Replace(SetBlock(s, b, k.(phase := Doomed)), t, Destroying(b)), End(b), t, Depth(s, t) - 1)
      else Pop(SetBlock(s, b, k), t)
  }

  function CallDestroy(s: State, t: int, b: int): State
    requires Thread(s, t) && s.stacks[t] != []
  {
    var s := Touch(s, b);
    if b !in s.blocks then s
    else
      var k := s.blocks[b];
      Replace(SetBlock(s, b, k.(destroys := k.destroys + 1, phase := Destroyed)), t, InDestroy(b))
  }

  /** The subtraction from the weak count, by the last strong owner or by a weak pointer; whoever
      takes it to zero goes on to delete the block. */
  function SubWeak(s: State, t: int, b: int): State
    requires Thread(s, t) && s.stacks[t] != []
  {
    var s := Touch(s, b);
    if b !in s.blocks then s
    else
      var k := s.blocks[b].(weak := s.blocks[b].weak - 1);
      if k.weak == 0
      then Take(Replace(SetBlock(s, b, k.(phase := Final)), t, Freeing(b)), End(b), t, Depth(s, t) - 1)
      else Pop(SetBlock(s, b, k.(phase := if k.phase == Destroyed && Top(s, t).Unweak? then Released else k.phase)), t)
  }

  function Delete(s: State, t: int, b: int): State
    requires Thread(s, t) && s.stacks[t] != []
  {
    var s := Touch(s, b);
    if b !in s.blocks then s
    else
      var k := s.blocks[b];
      Pop(Give(SetBlock(s, b, k.(frees := k.frees + 1, phase := Freed)), End(b)), t)
  }

  /** One turn of the loop in `lock`: gives up at zero, otherwise tries to add one to the count it
      last saw. */
  function TryLock(s: State, t: int, f: Frame): State
    requires Thread(s, t) && s.stacks[t] != [] && f.Locking?
  {
    if f.seen == 0 then Pop(Give(s, Strong(f.dst)), t)
    else if f.w !in s.weak || s.weak[f.w] !in s.blocks then s.(bad := true)
    else
      var b := s.weak[f.w];
      var s := Touch(s, b);
      if s.blocks[b].use == f.seen then Pop(Give(AddUse(s, b, f.dst), Strong(f.dst)), t)
      else Replace(s, t, f.(seen := s.blocks[b].use))
  }

  function AdvanceTop(s: State, t: int): State
    requires Thread(s, t) && s.stacks[t] != []
  {
    match Top(s, t)
    case Dropping(v) => SubUse(s, t, v)
    case Destroying(b) => CallDestroy(s, t, b)
    case InDestroy(b) => s
    case Unweak(b) => SubWeak(Give(s, End(b)), t, b)
    case Freeing(b) => Delete(s, t, b)
    case DroppingWeak(w) =>
      if w !in s.weak then s.(bad := true)
      else SubWeak(Give(s.(weak := s.weak - {w}), Weak(w)), t, s.weak[w])
    case Locking(w, seen, dst) => TryLock(s, t, Top(s, t))
  }

  function Step(s: State, a: Action): State
    requires Enabled(s, a)
  {
    match a
    case New(t, v, b) => SetBlock(s, b, Block(1, 1, 0, 0, Alive)).(strong := s.strong[v := b])
    case Copy(t, v, src) => AddUse(s, s.strong[src], v)
    case MakeWeak(t, w, src) => AddWeak(s, s.strong[src], w)
    case CopyWeak(t, w, src) => AddWeak(s, s.weak[src], w)
    case BeginDrop(t, v) => Push(Take(s, Strong(v), t, Depth(s, t)), t, Dropping(v))
    case BeginDropWeak(t, w) => Push(Take(s, Weak(w), t, Depth(s, t)), t, DroppingWeak(w))
    case BeginLock(t, w, v) =>
      var b := s.weak[w];
      var seen := if b in s.blocks then s.blocks[b].use else 0;
      Push(Take(Touch(s, b), Strong(v), t, Depth(s, t)), t, Locking(w, seen, v))
    case Dereference(t, v) =>
      if s.strong[v] in s.blocks && s.blocks[s.strong[v]].destroys == 0 then s else s.(bad := true)
    case EndDestroy(t) => Replace(s, t, Unweak(Top(s, t).b))
    case Advance(t) => AdvanceTop(s, t)
  }

  // ---------------------------------------------------------------- invariant

  /** Pointers to `b`. */
  ghost function Holders(m: map<int, int>, b: int): set<int> {
    set v | v in m && m[v] == b
  }

  /** The extra weak count is still there. */
  predicate Extra(p: Phase) {
    p == Alive || p == Doomed || p == Destroyed
  }

  /** Counts of a block with `n` strong and `m` weak pointers. */
  predicate Counts(k: Block, n: int, m: int) {
    && k.use == n && k.weak == m + (if Extra(k.phase) then 1 else 0)
    && (n > 0 <==> k.phase == Alive) && (k.weak == 0 <==> k.phase == Final || k.phase == Freed)
    && k.destroys == (if k.phase == Alive || k.phase == Doomed then 0 else 1)
    && k.frees == (if k.phase == Freed then 1 else 0)
  }

  ghost predicate Counted(s: State) {
    forall b :: b in s.blocks ==> Counts(s.blocks[b], |Holders(s.strong, b)|, |Holders(s.weak, b)|)
  }

  ghost predicate Pointing(s: State) {
    && (forall v :: v in s.strong ==> s.strong[v] in s.blocks)
    && (forall w :: w in s.weak ==> s.weak[w] in s.blocks)
  }

  ghost predicate Owns(s: State, c: Claim, t: int, i: int) {
    c in s.owner && s.owner[c] == (t, i)
  }

  ghost predicate InPhase(s: State, b: int, p: Phase) {
    b in s.blocks && s.blocks[b].phase == p
  }

  /** What each operation in progress relies on. */
  ghost predicate FrameOk(s: State, f: Frame, t: int, i: int) {
    match f
    case Dropping(v) => v in s.strong && Owns(s, Strong(v), t, i)
    case Destroying(b) => InPhase(s, b, Doomed) && Owns(s, End(b), t, i)
    case InDestroy(b) => InPhase(s, b, Destroyed) && Owns(s, End(b), t, i)
    case Unweak(b) => InPhase(s, b, Destroyed) && Owns(s, End(b), t, i)
    case Freeing(b) => InPhase(s, b, Final) && Owns(s, End(b), t, i)
    case DroppingWeak(w) => w in s.weak && Owns(s, Weak(w), t, i)
    case Locking(w, seen, dst) => w in s.weak && Weak(w) !in s.owner && dst !in s.strong && Owns(s, Strong(dst), t, i)
  }

  ghost predicate Frames(s: State) {
    forall t, i :: 0 <= t < |s.stacks| && 0 <= i < |s.stacks[t]| ==> FrameOk(s, s.stacks[t][i], t, i)
  }

  predicate Claims(f: Frame, c: Claim) {
    match f
    case Dropping(v) => c == Strong(v)
    case DroppingWeak(w) => c == Weak(w)
    case Locking(w, seen, dst) => c == Strong(dst)
    case _ => c == End(f.b)
  }

  /** Claims are held by operations in progress, and a block between its last strong pointer and its
      end always has someone to finish it. */
  ghost predicate Held(s: State) {
    && (forall c :: c in s.owner ==>
          var (t, i) := s.owner[c];
          0 <= t < |s.stacks| && 0 <= i < |s.stacks[t]| && Claims(s.stacks[t][i], c))
    && (forall b :: b in s.blocks ==>
          (s.blocks[b].phase in {Doomed, Destroyed, Final} <==> End(b) in s.owner))
  }

  ghost predicate Inv(s: State) {
    !s.bad && Counted(s) && Pointing(s) && Frames(s) && Held(s)
  }

  ghost predicate Init(s: State) {
    s.blocks == map[] && s.strong == map[] && s.weak == map[] && s.owner == map[] && !s.bad
    && forall t :: 0 <= t < |s.stacks| ==> s.stacks[t] == []
  }
}
