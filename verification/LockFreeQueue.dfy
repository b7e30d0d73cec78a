/** The multi-producer multi-consumer ring `rt::LockFreeQueue` as a machine with one step per
    access to shared memory (sequentially consistent), any number of threads and 64-bit counters
    that wrap.

    A counter is kept as the unbounded number of items it has counted; every computation of the
    program sees it modulo `WORD`. */
module LockFreeQueue {
  import opened Bits
  import opened Options

  type Item(!new)
  type Tid = nat

  /** `size` storage slots; a sole producer (consumer) passes the single-producer
      (single-consumer) flag on each of its calls and is then the only thread to insert (pop). */
  datatype Config = Config(size: nat, soleProducer: Option<Tid>, soleConsumer: Option<Tid>)

  predicate ValidConfig(c: Config) {
    IsPow2(c.size) && c.size < WORD
  }

  /** Outcome of a thread's latest call, with the stream position at which it took effect. */
  datatype Result =
    | NotRun
    | Inserted(data: seq<Item>, n: nat, at: nat)
    | Popped(count: nat, items: seq<Item>, at: nat)

  /** Program counter and local variables of one thread. `head` is the loaded head counter, `tail`
      the opposite tail counter it was checked against, `n` the reserved length. */
  datatype Local =
    | Idle(last: Result)
    | PLoad(data: seq<Item>, partial: bool, head: nat)
    | PSwap(data: seq<Item>, partial: bool, head: nat, tail: nat, n: nat)
    | PCheck(data: seq<Item>, head: nat, tail: nat, n: nat)
    | PCopy(data: seq<Item>, head: nat, n: nat, i: nat)
    | PWait(data: seq<Item>, head: nat, n: nat)
    | PCommit(data: seq<Item>, head: nat, n: nat)
    | CLoad(count: nat, partial: bool, head: nat)
    | CSwap(count: nat, partial: bool, head: nat, tail: nat, n: nat)
    | CCheck(count: nat, head: nat, tail: nat, n: nat)
    | CRead(count: nat, head: nat, n: nat, out: seq<Item>)
    | CDestroy(count: nat, head: nat, n: nat, out: seq<Item>)
    | CWait(count: nat, head: nat, n: nat, out: seq<Item>)
    | CCommit(count: nat, head: nat, n: nat, out: seq<Item>)
    | Overflow  // the ready-entries check of `pop` failed
    | Broken    // any other check failed, or a slot was read dead or overwritten live
  {
    /** The thread owns stream positions `head..head + n` for writing. */
    predicate Writes() { PCheck? || PCopy? || PWait? || PCommit? }

    /** The thread owns stream positions `head..head + n` for reading. */
    predicate Reads() { CCheck? || CRead? || CDestroy? || CWait? || CCommit? }

    /** Position `k`, owned for writing, already holds its item. */
    predicate Written(k: int) {
      PWait? || PCommit? || (PCopy? && k < head + i)
    }

    /** The item at position `k`, owned for reading, has been destroyed. */
    predicate Destroyed(k: int) {
      CWait? || CCommit? || (CRead? && k < head + |out|) || (CDestroy? && k < head + |out| - 1)
    }
  }

  /** The four counters and the history of reservations: `log` lists every item in the order its
      position was reserved, `writer` and `reader` the thread that reserved each position. */
  datatype Ring = Ring(
    prodHead: nat, prodTail: nat, consHead: nat, consTail: nat,
    log: seq<Item>, writer: seq<Tid>, reader: seq<Tid>)

  /** Shared memory and thread states. A slot is `None` while no object lives in it; `delivered`
      is the history of items returned by committed pops, in commit order. */
  datatype State = State(
    ring: Ring, storage: seq<Option<Item>>, threads: map<Tid, Local>, delivered: seq<Item>)

  datatype Action =
    | Insert(data: seq<Item>, partial: bool)
    | Pop(count: nat, partial: bool)
    | Advance

  /** The storage index of a stream position, as the program computes it. */
  function Slot(c: Config, k: nat): (r: nat)
    requires ValidConfig(c)
    ensures r == k % c.size < c.size
  {
    SlotIsRemainder(c, k);
    BitAnd(k % WORD, c.size - 1)
  }

  lemma SlotIsRemainder(c: Config, k: nat)
    requires ValidConfig(c)
    ensures BitAnd(k % WORD, c.size - 1) == k % c.size
  {
    IsPow2Iff(c.size);
    var b: nat :| c.size == Pow2(b);
    MaskIsMod(k % WORD, b);
    var m := Pow2DividesWord(b);
    ModOfMod(k, c.size, m);
  }

  ghost predicate Enabled(c: Config, s: State, t: Tid, a: Action)
  {
    && t in s.threads
    && match a
       case Insert(data, _) => s.threads[t].Idle? && |data| < WORD
                               && (c.soleProducer.None? || c.soleProducer == Some(t))
       case Pop(count, _) => s.threads[t].Idle? && count < WORD
                             && (c.soleConsumer.None? || c.soleConsumer == Some(t))
       case Advance => !s.threads[t].Idle? && !s.threads[t].Overflow? && !s.threads[t].Broken?
  }

  /** One step of thread `t`. */
  ghost function Step(c: Config, s: State, t: Tid, a: Action): (s': State)
    requires ValidConfig(c) && |s.storage| == c.size
    requires Enabled(c, s, t, a)
  {
    match a
    case Insert(data, partial) => SetLocal(s, t, PLoad(data, partial, s.ring.prodHead))
    case Pop(count, partial) => SetLocal(s, t, CLoad(count, partial, s.ring.consHead))
    case Advance =>
      var l := s.threads[t];
      if l.PLoad? then SetLocal(s, t, LoadConsTail(c, s, l))
      else if l.PSwap? then StepPSwap(c, s, t, l)
      else if l.PCheck? then SetLocal(s, t, CheckWrite(c, s, l))
      else if l.PCopy? then StepPCopy(c, s, t, l)
      else if l.PWait? then
        if s.ring.prodTail % WORD == l.head % WORD then SetLocal(s, t, PCommit(l.data, l.head, l.n)) else s
      else if l.PCommit? then
        SetLocal(s, t, Idle(Inserted(l.data, l.n, l.head))).(ring := s.ring.(prodTail := l.head + l.n))
      else if l.CLoad? then SetLocal(s, t, LoadProdTail(c, s, l))
      else if l.CSwap? then StepCSwap(c, s, t, l)
      else if l.CCheck? then SetLocal(s, t, CheckRead(c, s, l))
      else if l.CRead? then StepCRead(c, s, t, l)
      else if l.CDestroy? then StepCDestroy(c, s, t, l)
      else if l.CWait? then
        if s.ring.consTail % WORD == l.head % WORD then SetLocal(s, t, CCommit(l.count, l.head, l.n, l.out)) else s
      else
        SetLocal(s, t, Idle(Popped(l.count, l.out, l.head))).(
          ring := s.ring.(consTail := l.head + l.n), delivered := s.delivered + l.out)
  }

  function SetLocal(s: State, t: Tid, l: Local): State {
    s.(threads := s.threads[t := l])
  }

  /** Free entries as `insert` computes them from a head and a tail counter. */
  function Free(c: Config, tail: nat, head: nat): int {
    (c.size - 1 + tail - head) % WORD
  }

  /** Ready entries as `pop` computes them. */
  function Ready(tail: nat, head: nat): int {
    (tail - head) % WORD
  }

  function LoadConsTail(c: Config, s: State, l: Local): (r: Local)
    requires l.PLoad?
  {
    var free := Free(c, s.ring.consTail, l.head);
    var n := if free < |l.data| && l.partial then free else |l.data|;
    if free == 0 || n == 0 || free < n then Idle(Inserted(l.data, 0, l.head))
    else PSwap(l.data, l.partial, l.head, s.ring.consTail, n)
  }

  function StepPSwap(c: Config, s: State, t: Tid, l: Local): State
    requires l.PSwap?
  {
    if c.soleProducer == Some(t) || s.ring.prodHead % WORD == l.head % WORD then
      SetLocal(s, t, PCheck(l.data, l.head, l.tail, l.n)).(
        ring := s.ring.(
          prodHead := l.head + l.n,
          log := s.ring.log + (if l.n <= |l.data| then l.data[..l.n] else []),
          writer := s.ring.writer + seq(l.n, _ => t)))
    else
      SetLocal(s, t, PLoad(l.data, l.partial, s.ring.prodHead))
  }

  function CheckWrite(c: Config, s: State, l: Local): (r: Local)
    requires l.PCheck?
  {
    if l.n <= Free(c, s.ring.consTail, l.head) && 0 < l.n <= |l.data| && l.n <= Free(c, l.tail, l.head)
    then PCopy(l.data, l.head, l.n, 0)
    else Broken
  }

  function StepPCopy(c: Config, s: State, t: Tid, l: Local): State
    requires ValidConfig(c) && |s.storage| == c.size && l.PCopy?
  {
    var k := Slot(c, l.head + l.i);
    if s.storage[k].None? && l.i < |l.data| then
      SetLocal(s, t,
               if l.i + 1 < l.n then PCopy(l.data, l.head, l.n, l.i + 1) else PWait(l.data, l.head, l.n)).(
        storage := s.storage[k := Some(l.data[l.i])])
    else
      SetLocal(s, t, Broken)
  }

  function LoadProdTail(c: Config, s: State, l: Local): (r: Local)
    requires l.CLoad?
  {
    var ready := Ready(s.ring.prodTail, l.head);
    if !(ready < c.size) then Overflow
    else
      var n := if ready < l.count && l.partial then ready else l.count;
      if ready == 0 || n == 0 || ready < n then Idle(Popped(l.count, [], l.head))
      else CSwap(l.count, l.partial, l.head, s.ring.prodTail, n)
  }

  function StepCSwap(c: Config, s: State, t: Tid, l: Local): State
    requires l.CSwap?
  {
    if c.soleConsumer == Some(t) || s.ring.consHead % WORD == l.head % WORD then
      SetLocal(s, t, CCheck(l.count, l.head, l.tail, l.n)).(
        ring := s.ring.(consHead := l.head + l.n, reader := s.ring.reader + seq(l.n, _ => t)))
    else
      SetLocal(s, t, CLoad(l.count, l.partial, s.ring.consHead))
  }

  function CheckRead(c: Config, s: State, l: Local): (r: Local)
    requires l.CCheck?
  {
    if l.n <= Ready(s.ring.prodTail, l.head) && 0 < l.n <= l.count && l.n <= Ready(l.tail, l.head)
    then CRead(l.count, l.head, l.n, [])
    else Broken
  }

  function StepCRead(c: Config, s: State, t: Tid, l: Local): State
    requires ValidConfig(c) && |s.storage| == c.size && l.CRead?
  {
    var k := Slot(c, l.head + |l.out|);
    SetLocal(s, t,
             if s.storage[k].Some? then CDestroy(l.count, l.head, l.n, l.out + [s.storage[k].value]) else Broken)
  }

  function StepCDestroy(c: Config, s: State, t: Tid, l: Local): State
    requires ValidConfig(c) && |s.storage| == c.size && l.CDestroy?
  {
    if |l.out| == 0 then SetLocal(s, t, Broken)
    else
      var k := Slot(c, l.head + |l.out| - 1);
      if s.storage[k].Some? then
        SetLocal(s, t,
                 if |l.out| < l.n then CRead(l.count, l.head, l.n, l.out) else CWait(l.count, l.head, l.n, l.out)).(
          storage := s.storage[k := None])
      else
        SetLocal(s, t, Broken)
  }

  ghost predicate Init(c: Config, s: State)
  {
    && s.ring.prodHead == s.ring.prodTail == s.ring.consHead == s.ring.consTail == 0
    && |s.storage| == c.size
    && (forall k :: 0 <= k < c.size ==> s.storage[k] == None)
    && (forall t :: t in s.threads ==> s.threads[t] == Idle(NotRun))
    && s.ring.log == [] && s.ring.writer == [] && s.ring.reader == [] && s.delivered == []
  }

  // ---------------------------------------------------------------- invariant

  ghost predicate Lengths(r: Ring)
  {
    && r.consTail <= r.consHead <= r.prodTail <= r.prodHead
    && |r.log| == |r.writer| == r.prodHead
    && |r.reader| == r.consHead
  }

  ghost predicate Counters(c: Config, s: State)
  {
    && Lengths(s.ring)
    && s.ring.prodHead <= s.ring.consTail + c.size - 1
    && |s.storage| == c.size
    && s.delivered == s.ring.log[..s.ring.consTail]
  }

  /** The first `n` of `items` stand in `log` from position `at` on. */
  ghost predicate Logged(log: seq<Item>, at: nat, items: seq<Item>, n: nat)
  {
    && at + n <= |log| && n <= |items|
    && forall i :: 0 <= i < n ==> log[at + i] == items[i]
  }

  ghost predicate ResultOk(q: Ring, r: Result)
  {
    match r
    case NotRun => true
    case Inserted(data, n, at) =>
      n == 0 || (at + n <= q.prodTail && Logged(q.log, at, data, n))
    case Popped(count, items, at) =>
      |items| <= count && (items == [] || (at + |items| <= q.consTail && Logged(q.log, at, items, |items|)))
  }

  /** Write reservation of `t`: inside the pending range, owned by `t`, holding the data in the log. */
  ghost predicate WriterOk(c: Config, q: Ring, t: Tid, l: Local)
    requires Lengths(q) && l.Writes()
  {
    && q.prodTail <= l.head && 0 < l.n <= |l.data| && l.head + l.n <= q.prodHead
    && (forall k :: l.head <= k < l.head + l.n ==> q.writer[k] == t)
    && Logged(q.log, l.head, l.data, l.n)
    && (l.PCheck? ==> l.tail <= q.consTail && l.head + l.n <= l.tail + c.size - 1)
    && (l.PCopy? ==> l.i < l.n)
    && (l.PCommit? ==> l.head == q.prodTail)
  }

  ghost predicate ReaderOk(c: Config, q: Ring, t: Tid, l: Local)
    requires Lengths(q) && l.Reads()
  {
    && q.consTail <= l.head && 0 < l.n <= l.count && l.head + l.n <= q.consHead
    && (forall k :: l.head <= k < l.head + l.n ==> q.reader[k] == t)
    && (l.CCheck? ==> l.tail <= q.prodTail && l.head + l.n <= l.tail < l.head + c.size)
    && (!l.CCheck? ==> |l.out| <= l.n && Logged(q.log, l.head, l.out, |l.out|))
    && (l.CRead? ==> |l.out| < l.n)
    && (l.CDestroy? ==> 0 < |l.out|)
    && (l.CWait? || l.CCommit? ==> |l.out| == l.n)
    && (l.CCommit? ==> l.head == q.consTail)
  }

  ghost predicate LocalOk(c: Config, q: Ring, t: Tid, l: Local)
    requires Lengths(q)
  {
    match l
    case Idle(r) => ResultOk(q, r)
    case PLoad(_, _, head) =>
      head <= q.prodHead && head <= q.consTail + c.size - 1
      && (c.soleProducer == Some(t) ==> head == q.prodHead)
    case PSwap(data, _, head, tail, n) =>
      head <= q.prodHead && tail <= q.consTail && head <= tail + c.size - 1 && 0 < n <= |data|
      && n <= Free(c, tail, head)
      && (c.soleProducer == Some(t) ==> head == q.prodHead)
    case CLoad(_, _, head) =>
      head <= q.consHead && (c.soleConsumer == Some(t) ==> head == q.consHead)
    case CSwap(count, _, head, tail, n) =>
      head <= q.consHead && head <= tail <= q.prodTail && 0 < n <= count && n <= Ready(tail, head) < c.size
      && (c.soleConsumer == Some(t) ==> head == q.consHead)
    case Overflow => true
    case Broken => false
    case _ => if l.Writes() then WriterOk(c, q, t, l) else l.Reads() && ReaderOk(c, q, t, l)
  }

  ghost predicate Locals(c: Config, s: State)
    requires Counters(c, s)
  {
    forall t :: t in s.threads ==> LocalOk(c, s.ring, t, s.threads[t])
  }

  /** Pending write reservations cover `prodTail..prodHead`, read reservations `consTail..consHead`. */
  ghost predicate Tiled(c: Config, s: State)
    requires Counters(c, s)
  {
    && (forall k :: s.ring.prodTail <= k < s.ring.prodHead ==> WriteOwned(s, k))
    && (forall k :: s.ring.consTail <= k < s.ring.consHead ==> ReadOwned(s, k))
  }

  ghost predicate WriteOwned(s: State, k: int)
    requires 0 <= k < |s.ring.writer|
  {
    var t := s.ring.writer[k];
    t in s.threads && s.threads[t].Writes() && s.threads[t].head <= k < s.threads[t].head + s.threads[t].n
  }

  ghost predicate ReadOwned(s: State, k: int)
    requires 0 <= k < |s.ring.reader|
  {
    var t := s.ring.reader[k];
    t in s.threads && s.threads[t].Reads() && s.threads[t].head <= k < s.threads[t].head + s.threads[t].n
  }

  /** No other thread is inside `insert` (`pop`) when the configuration names a sole one. */
  ghost predicate Sole(c: Config, s: State)
  {
    forall t :: t in s.threads ==>
      && (c.soleProducer.Some? && t != c.soleProducer.value ==>
            !s.threads[t].PLoad? && !s.threads[t].PSwap?)
      && (c.soleConsumer.Some? && t != c.soleConsumer.value ==>
            !s.threads[t].CLoad? && !s.threads[t].CSwap?)
  }

  /** An object for position `k` lives in its slot. */
  ghost predicate Live(s: State, k: int)
    requires 0 <= k && |s.ring.writer| == s.ring.prodHead && |s.ring.reader| == s.ring.consHead
    requires s.ring.prodTail <= k < s.ring.prodHead ==> WriteOwned(s, k)
    requires s.ring.consTail <= k < s.ring.consHead ==> ReadOwned(s, k)
  {
    if k < s.ring.consTail || k >= s.ring.prodHead then false
    else if k >= s.ring.prodTail then s.threads[s.ring.writer[k]].Written(k)
    else if k >= s.ring.consHead then true
    else !s.threads[s.ring.reader[k]].Destroyed(k)
  }

  ghost predicate SlotOk(c: Config, s: State, k: int)
    requires ValidConfig(c) && Counters(c, s) && Tiled(c, s)
    requires 0 <= k
  {
    s.storage[Slot(c, k)] == if Live(s, k) then Some(s.ring.log[k]) else None
  }

  ghost predicate Slots(c: Config, s: State)
    requires ValidConfig(c) && Counters(c, s) && Tiled(c, s)
  {
    forall k :: s.ring.consTail <= k < s.ring.consTail + c.size ==> SlotOk(c, s, k)
  }

  ghost predicate Inv(c: Config, s: State)
    requires ValidConfig(c)
  {
    && Counters(c, s) && Locals(c, s) && Tiled(c, s) && Sole(c, s) && Slots(c, s)
  }

  /** No thread between loading a head counter and swapping it is overtaken by a full turn of the
      64-bit counter. */
  ghost predicate NotLapped(c: Config, s: State)
  {
    forall t :: t in s.threads ==>
      && (s.threads[t].PLoad? || s.threads[t].PSwap? ==> s.ring.prodHead - s.threads[t].head + c.size <= WORD)
      && (s.threads[t].CLoad? || s.threads[t].CSwap? ==> s.ring.consHead - s.threads[t].head + c.size <= WORD)
  }
}
