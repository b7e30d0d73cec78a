/** Every step of the ring keeps its invariant. */
module LockFreeQueueProof {
  import opened Bits
  import opened LockFreeQueue
  import opened Options

  lemma ModSmall(x: int)
    requires 0 <= x < WORD
    ensures x % WORD == x
  {
  }

  /** Two values closer than a full turn are equal when their wrapped forms are. */
  lemma WrapInjective(x: nat, y: nat)
    requires y <= x < y + WORD
    requires x % WORD == y % WORD
    ensures x == y
  {
    var d := x - y;
    var qx, qy := x / WORD, y / WORD;
    assert x == WORD * qx + x % WORD && y == WORD * qy + y % WORD;
    if qx > qy {
      MulGap(WORD, qy, qx);
    } else if qx < qy {
      MulGap(WORD, qx, qy);
    }
  }

  /** Positions of one window of `size` have distinct slots. */
  lemma SlotInjective(c: Config, j: nat, k: nat)
    requires ValidConfig(c) && j < k < j + c.size
    ensures Slot(c, j) != Slot(c, k)
  {
    RemaindersDiffer(c.size, j, k);
  }

  lemma RemaindersDiffer(d: nat, j: nat, k: nat)
    requires j < k < j + d
    ensures j % d != k % d
  {
    if j % d == k % d {
      var qj, qk := j / d, k / d;
      assert j == d * qj + j % d && k == d * qk + k % d;
      if qj < qk {
        MulGap(d, qj, qk);
      } else if qk < qj {
        MulGap(d, qk, qj);
      }
    }
  }

  lemma SlotPeriodic(c: Config, k: nat)
    requires ValidConfig(c)
    ensures Slot(c, k + c.size) == Slot(c, k)
  {
    var q, r := k / c.size, k % c.size;
    assert k + c.size == c.size * (q + 1) + r;
    ModUnique(k + c.size, c.size, q + 1, r);
  }

  /** The two local states hold the same reservation. */
  ghost predicate SameRange(l: Local, l': Local)
  {
    && l.Writes() == l'.Writes() && l.Reads() == l'.Reads()
    && (l.Writes() || l.Reads() ==> l.head == l'.head && l.n == l'.n)
  }

  /** ... with the same slots filled. */
  ghost predicate SameHold(l: Local, l': Local)
  {
    && SameRange(l, l')
    && (l.Writes() ==> forall k :: l.head <= k < l.head + l.n ==> l.Written(k) == l'.Written(k))
    && (l.Reads() ==> forall k :: l.head <= k < l.head + l.n ==> l.Destroyed(k) == l'.Destroyed(k))
  }

  ghost predicate MayHold(c: Config, t: Tid, l: Local)
  {
    && (c.soleProducer.Some? && t != c.soleProducer.value ==> !l.PLoad? && !l.PSwap?)
    && (c.soleConsumer.Some? && t != c.soleConsumer.value ==> !l.CLoad? && !l.CSwap?)
  }

  /** A step of `t` to `l'` leaves the ownership of every position as it was. */
  lemma KeepTiled(c: Config, s: State, t: Tid, s': State)
    requires Counters(c, s) && Tiled(c, s) && t in s.threads && t in s'.threads
    requires SameRange(s.threads[t], s'.threads[t])
    requires s'.ring == s.ring && s'.threads == s.threads[t := s'.threads[t]]
    requires s'.delivered == s.delivered && |s'.storage| == c.size
    ensures Counters(c, s') && Tiled(c, s')
  {
    forall k | s.ring.prodTail <= k < s.ring.prodHead ensures WriteOwned(s', k) { assert WriteOwned(s, k); }
    forall k | s.ring.consTail <= k < s.ring.consHead ensures ReadOwned(s', k) { assert ReadOwned(s, k); }
  }

  lemma KeepSlots(c: Config, s: State, t: Tid, l': Local)
    requires ValidConfig(c) && Counters(c, s) && Tiled(c, s) && Slots(c, s)
    requires t in s.threads && SameHold(s.threads[t], l')
    requires Counters(c, SetLocal(s, t, l')) && Tiled(c, SetLocal(s, t, l'))
    ensures Slots(c, SetLocal(s, t, l'))
  {
    var s' := SetLocal(s, t, l');
    forall k | s.ring.consTail <= k < s.ring.consTail + c.size ensures SlotOk(c, s', k) {
      assert SlotOk(c, s, k);
      if s.ring.prodTail <= k < s.ring.prodHead { assert WriteOwned(s, k); }
      if s.ring.consTail <= k < s.ring.consHead { assert ReadOwned(s, k); }
    }
  }

  /** A step that only changes local variables. */
  lemma LocalStep(c: Config, s: State, t: Tid, l': Local)
    requires ValidConfig(c) && Inv(c, s) && t in s.threads
    requires LocalOk(c, s.ring, t, l') && SameHold(s.threads[t], l') && MayHold(c, t, l')
    ensures Inv(c, SetLocal(s, t, l'))
  {
    KeepTiled(c, s, t, SetLocal(s, t, l'));
    KeepSlots(c, s, t, l');
  }

  // ---------------------------------------------------------------- local steps

  lemma StepStart(c: Config, s: State, t: Tid, a: Action)
    requires ValidConfig(c) && Inv(c, s) && Enabled(c, s, t, a) && !a.Advance?
    ensures Inv(c, Step(c, s, t, a))
  {
    hide Tiled, Slots, Slot;
    var l' :=
      if a.Insert? then PLoad(a.data, a.partial, s.ring.prodHead) else CLoad(a.count, a.partial, s.ring.consHead);
    LocalStep(c, s, t, l');
  }

  lemma StepPLoad(c: Config, s: State, t: Tid)
    requires ValidConfig(c) && Inv(c, s) && t in s.threads && s.threads[t].PLoad?
    ensures Inv(c, Step(c, s, t, Advance))
  {
    hide Tiled, Slots, Slot;
    assert LocalOk(c, s.ring, t, s.threads[t]);
    LocalStep(c, s, t, LoadConsTail(c, s, s.threads[t]));
  }

  lemma StepCLoad(c: Config, s: State, t: Tid)
    requires ValidConfig(c) && Inv(c, s) && t in s.threads && s.threads[t].CLoad?
    ensures Inv(c, Step(c, s, t, Advance))
  {
    hide Tiled, Slots, Slot;
    assert LocalOk(c, s.ring, t, s.threads[t]);
    LocalStep(c, s, t, LoadProdTail(c, s, s.threads[t]));
  }

  /** The checks after a write reservation cannot fail. */
  lemma CheckWritePasses(c: Config, s: State, t: Tid)
    requires ValidConfig(c) && Inv(c, s) && t in s.threads && s.threads[t].PCheck?
    ensures CheckWrite(c, s, s.threads[t]).PCopy?
  {
    var l := s.threads[t];
    assert LocalOk(c, s.ring, t, l);
    ModSmall(c.size - 1 + l.tail - l.head);
    ModSmall(c.size - 1 + s.ring.consTail - l.head);
  }

  lemma StepPCheck(c: Config, s: State, t: Tid)
    requires ValidConfig(c) && Inv(c, s) && t in s.threads && s.threads[t].PCheck?
    ensures Inv(c, Step(c, s, t, Advance))
  {
    hide Tiled, Slots, Slot;
    assert LocalOk(c, s.ring, t, s.threads[t]);
    CheckWritePasses(c, s, t);
    LocalStep(c, s, t, CheckWrite(c, s, s.threads[t]));
  }

  /** The checks after a read reservation cannot fail. */
  lemma CheckReadPasses(c: Config, s: State, t: Tid)
    requires ValidConfig(c) && Inv(c, s) && t in s.threads && s.threads[t].CCheck?
    ensures CheckRead(c, s, s.threads[t]).CRead?
  {
    var l := s.threads[t];
    assert LocalOk(c, s.ring, t, l);
    ModSmall(l.tail - l.head);
    ModSmall(s.ring.prodTail - l.head);
  }

  lemma StepCCheck(c: Config, s: State, t: Tid)
    requires ValidConfig(c) && Inv(c, s) && t in s.threads && s.threads[t].CCheck?
    ensures Inv(c, Step(c, s, t, Advance))
  {
    hide Tiled, Slots, Slot;
    assert LocalOk(c, s.ring, t, s.threads[t]);
    CheckReadPasses(c, s, t);
    LocalStep(c, s, t, CheckRead(c, s, s.threads[t]));
  }

  lemma StepPWait(c: Config, s: State, t: Tid)
    requires ValidConfig(c) && Inv(c, s) && t in s.threads && s.threads[t].PWait?
    ensures Inv(c, Step(c, s, t, Advance))
  {
    hide Tiled, Slots, Slot;
    var l := s.threads[t];
    assert LocalOk(c, s.ring, t, l);
    if s.ring.prodTail % WORD == l.head % WORD {
      WrapInjective(l.head, s.ring.prodTail);
      LocalStep(c, s, t, PCommit(l.data, l.head, l.n));
    }
  }

  lemma StepCWait(c: Config, s: State, t: Tid)
    requires ValidConfig(c) && Inv(c, s) && t in s.threads && s.threads[t].CWait?
    ensures Inv(c, Step(c, s, t, Advance))
  {
    hide Tiled, Slots, Slot;
    var l := s.threads[t];
    assert LocalOk(c, s.ring, t, l);
    if s.ring.consTail % WORD == l.head % WORD {
      WrapInjective(l.head, s.ring.consTail);
      LocalStep(c, s, t, CCommit(l.count, l.head, l.n, l.out));
    }
  }

  // ---------------------------------------------------------------- reservations

  lemma LocalGrowsWrite(c: Config, q: Ring, q': Ring, u: Tid, l: Local)
    requires Lengths(q) && Lengths(q') && LocalOk(c, q, u, l)
    requires q' == q.(prodHead := q'.prodHead, log := q'.log, writer := q'.writer)
    requires q.log <= q'.log && q.writer <= q'.writer
    requires c.soleProducer == Some(u) ==> !l.PLoad? && !l.PSwap?
    ensures LocalOk(c, q', u, l)
  {
    hide Logged, ResultOk, Free, Ready;
    if l.Idle? {
      ResultGrows(q, q', l.last);
    } else if l.Writes() {
      assert WriterOk(c, q, u, l);
      LoggedGrows(q.log, q'.log, l.head, l.data, l.n);
      assert WriterOk(c, q', u, l);
    } else if l.Reads() {
      assert ReaderOk(c, q, u, l);
      if !l.CCheck? { LoggedGrows(q.log, q'.log, l.head, l.out, |l.out|); }
      assert ReaderOk(c, q', u, l);
    }
  }

  lemma ResultGrows(q: Ring, q': Ring, r: Result)
    requires ResultOk(q, r) && q.log <= q'.log && q.prodTail <= q'.prodTail && q.consTail <= q'.consTail
    ensures ResultOk(q', r)
  {
  }

  lemma LoggedGrows(log: seq<Item>, log': seq<Item>, at: nat, items: seq<Item>, n: nat)
    requires log <= log' && Logged(log, at, items, n)
    ensures Logged(log', at, items, n)
  {
  }

  /** A successful reservation starts at the current head and fits the free space. */
  lemma SwapWriteFits(c: Config, s: State, t: Tid)
    requires ValidConfig(c) && Inv(c, s) && NotLapped(c, s) && t in s.threads && s.threads[t].PSwap?
    requires c.soleProducer == Some(t) || s.ring.prodHead % WORD == s.threads[t].head % WORD
    ensures var l := s.threads[t];
      && l.head == s.ring.prodHead && 0 < l.n <= |l.data|
      && l.head + l.n <= l.tail + c.size - 1 && l.tail <= s.ring.consTail
  {
    var l := s.threads[t];
    assert LocalOk(c, s.ring, t, l);
    if c.soleProducer != Some(t) {
      WrapInjective(s.ring.prodHead, l.head);
    }
    ModSmall(c.size - 1 + l.tail - l.head);
  }

  lemma StepPSwapTiled(c: Config, s: State, t: Tid, s': State)
    requires ValidConfig(c) && Counters(c, s) && Tiled(c, s) && t in s.threads && s.threads[t].PSwap?
    requires s.threads[t].head == s.ring.prodHead && 0 < s.threads[t].n <= |s.threads[t].data|
    requires s.threads[t].head + s.threads[t].n <= s.ring.consTail + c.size - 1
    requires s' == StepPSwap(c, s, t, s.threads[t])
    ensures Counters(c, s') && Tiled(c, s')
  {
    assert s'.ring.log[..s'.ring.consTail] == s.ring.log[..s.ring.consTail];
    forall k | s'.ring.prodTail <= k < s'.ring.prodHead ensures WriteOwned(s', k) {
      if k < s.ring.prodHead { assert WriteOwned(s, k); }
    }
    forall k | s'.ring.consTail <= k < s'.ring.consHead ensures ReadOwned(s', k) { assert ReadOwned(s, k); }
  }

  lemma StepPSwapSlots(c: Config, s: State, t: Tid, s': State)
    requires ValidConfig(c) && Counters(c, s) && Tiled(c, s) && Slots(c, s) && t in s.threads && s.threads[t].PSwap?
    requires s.threads[t].head == s.ring.prodHead
    requires s' == StepPSwap(c, s, t, s.threads[t])
    requires Counters(c, s') && Tiled(c, s')
    ensures Slots(c, s')
  {
    forall k | s'.ring.consTail <= k < s'.ring.consTail + c.size ensures SlotOk(c, s', k) {
      assert SlotOk(c, s, k);
      if s.ring.prodTail <= k < s.ring.prodHead { assert WriteOwned(s, k); }
      if s.ring.consTail <= k < s.ring.consHead { assert ReadOwned(s, k); }
    }
  }

  lemma StepPSwapLocals(c: Config, s: State, t: Tid, s': State)
    requires ValidConfig(c) && Counters(c, s) && Locals(c, s) && Sole(c, s) && t in s.threads && s.threads[t].PSwap?
    requires s' == StepPSwap(c, s, t, s.threads[t]) && s'.threads[t].PCheck?
    requires Counters(c, s') && LocalOk(c, s'.ring, t, s'.threads[t])
    ensures Locals(c, s')
  {
    forall u | u in s'.threads ensures LocalOk(c, s'.ring, u, s'.threads[u]) {
      if u != t {
        assert LocalOk(c, s.ring, u, s.threads[u]);
        LocalGrowsWrite(c, s.ring, s'.ring, u, s.threads[u]);
      }
    }
  }

  lemma PSwapTaken(c: Config, s: State, t: Tid)
    requires ValidConfig(c) && Inv(c, s) && NotLapped(c, s) && t in s.threads && s.threads[t].PSwap?
    requires c.soleProducer == Some(t) || s.ring.prodHead % WORD == s.threads[t].head % WORD
    ensures Inv(c, StepPSwap(c, s, t, s.threads[t]))
  {
    hide Tiled, Slots, Slot, Locals, NotLapped;
    var s' := StepPSwap(c, s, t, s.threads[t]);
    SwapWriteFits(c, s, t);
    StepPSwapTiled(c, s, t, s');
    StepPSwapSlots(c, s, t, s');
    StepPSwapLocals(c, s, t, s');
  }

  lemma StepPSwapInv(c: Config, s: State, t: Tid)
    requires ValidConfig(c) && Inv(c, s) && NotLapped(c, s) && t in s.threads && s.threads[t].PSwap?
    ensures Inv(c, Step(c, s, t, Advance))
  {
    var l := s.threads[t];
    if c.soleProducer == Some(t) || s.ring.prodHead % WORD == l.head % WORD {
      PSwapTaken(c, s, t);
      hide Inv;
    } else {
      PSwapAgain(c, s, t);
      hide Inv;
    }
  }

  lemma PSwapAgain(c: Config, s: State, t: Tid)
    requires ValidConfig(c) && Inv(c, s) && t in s.threads && s.threads[t].PSwap? && c.soleProducer != Some(t)
    ensures var l := s.threads[t]; Inv(c, SetLocal(s, t, PLoad(l.data, l.partial, s.ring.prodHead)))
  {
    hide Tiled, Slots, Slot;
    var l := s.threads[t];
    assert LocalOk(c, s.ring, t, l);
    LocalStep(c, s, t, PLoad(l.data, l.partial, s.ring.prodHead));
  }

  lemma LocalGrowsRead(c: Config, q: Ring, q': Ring, u: Tid, l: Local)
    requires Lengths(q) && Lengths(q') && LocalOk(c, q, u, l)
    requires q' == q.(consHead := q'.consHead, reader := q'.reader)
    requires q.reader <= q'.reader
    requires c.soleConsumer == Some(u) ==> !l.CLoad? && !l.CSwap?
    ensures LocalOk(c, q', u, l)
  {
    hide Logged, ResultOk, Free, Ready;
    if l.Idle? {
      ResultGrows(q, q', l.last);
    } else if l.Writes() {
      assert WriterOk(c, q', u, l);
    } else if l.Reads() {
      assert ReaderOk(c, q, u, l);
      assert ReaderOk(c, q', u, l);
    }
  }

  lemma SwapReadFits(c: Config, s: State, t: Tid)
    requires ValidConfig(c) && Inv(c, s) && NotLapped(c, s) && t in s.threads && s.threads[t].CSwap?
    requires c.soleConsumer == Some(t) || s.ring.consHead % WORD == s.threads[t].head % WORD
    ensures var l := s.threads[t];
      && l.head == s.ring.consHead && 0 < l.n <= l.count
      && l.head + l.n <= l.tail <= s.ring.prodTail && l.tail < l.head + c.size
  {
    var l := s.threads[t];
    assert LocalOk(c, s.ring, t, l);
    if c.soleConsumer != Some(t) {
      WrapInjective(s.ring.consHead, l.head);
    }
    ModSmall(l.tail - l.head);
  }

  lemma StepCSwapTiled(c: Config, s: State, t: Tid, s': State)
    requires ValidConfig(c) && Counters(c, s) && Tiled(c, s) && t in s.threads && s.threads[t].CSwap?
    requires s.threads[t].head == s.ring.consHead && s.threads[t].head + s.threads[t].n <= s.ring.prodTail
    requires s' == StepCSwap(c, s, t, s.threads[t])
    ensures Counters(c, s') && Tiled(c, s')
  {
    forall k | s'.ring.prodTail <= k < s'.ring.prodHead ensures WriteOwned(s', k) { assert WriteOwned(s, k); }
    forall k | s'.ring.consTail <= k < s'.ring.consHead ensures ReadOwned(s', k) {
      if k < s.ring.consHead { assert ReadOwned(s, k); }
    }
  }

  lemma StepCSwapSlots(c: Config, s: State, t: Tid, s': State)
    requires ValidConfig(c) && Counters(c, s) && Tiled(c, s) && Slots(c, s) && t in s.threads && s.threads[t].CSwap?
    requires s.threads[t].head == s.ring.consHead && s.threads[t].head + s.threads[t].n <= s.ring.prodTail
    requires s' == StepCSwap(c, s, t, s.threads[t])
    requires Counters(c, s') && Tiled(c, s')
    ensures Slots(c, s')
  {
    forall k | s'.ring.consTail <= k < s'.ring.consTail + c.size ensures SlotOk(c, s', k) {
      assert SlotOk(c, s, k);
      if s.ring.prodTail <= k < s.ring.prodHead { assert WriteOwned(s, k); }
      if s.ring.consTail <= k < s.ring.consHead { assert ReadOwned(s, k); }
    }
  }

  lemma StepCSwapLocals(c: Config, s: State, t: Tid, s': State)
    requires ValidConfig(c) && Counters(c, s) && Locals(c, s) && Sole(c, s) && t in s.threads && s.threads[t].CSwap?
    requires s' == StepCSwap(c, s, t, s.threads[t]) && s'.threads[t].CCheck?
    requires Counters(c, s') && LocalOk(c, s'.ring, t, s'.threads[t])
    ensures Locals(c, s')
  {
    forall u | u in s'.threads ensures LocalOk(c, s'.ring, u, s'.threads[u]) {
      if u != t {
        assert LocalOk(c, s.ring, u, s.threads[u]);
        LocalGrowsRead(c, s.ring, s'.ring, u, s.threads[u]);
      }
    }
  }

  lemma CSwapTaken(c: Config, s: State, t: Tid)
    requires ValidConfig(c) && Inv(c, s) && NotLapped(c, s) && t in s.threads && s.threads[t].CSwap?
    requires c.soleConsumer == Some(t) || s.ring.consHead % WORD == s.threads[t].head % WORD
    ensures Inv(c, StepCSwap(c, s, t, s.threads[t]))
  {
    hide Tiled, Slots, Slot, Locals, NotLapped;
    var s' := StepCSwap(c, s, t, s.threads[t]);
    SwapReadFits(c, s, t);
    StepCSwapTiled(c, s, t, s');
    StepCSwapSlots(c, s, t, s');
    StepCSwapLocals(c, s, t, s');
  }

  lemma StepCSwapInv(c: Config, s: State, t: Tid)
    requires ValidConfig(c) && Inv(c, s) && NotLapped(c, s) && t in s.threads && s.threads[t].CSwap?
    ensures Inv(c, Step(c, s, t, Advance))
  {
    var l := s.threads[t];
    if c.soleConsumer == Some(t) || s.ring.consHead % WORD == l.head % WORD {
      CSwapTaken(c, s, t);
      hide Inv;
    } else {
      CSwapAgain(c, s, t);
      hide Inv;
    }
  }

  lemma CSwapAgain(c: Config, s: State, t: Tid)
    requires ValidConfig(c) && Inv(c, s) && t in s.threads && s.threads[t].CSwap? && c.soleConsumer != Some(t)
    ensures var l := s.threads[t]; Inv(c, SetLocal(s, t, CLoad(l.count, l.partial, s.ring.consHead)))
  {
    hide Tiled, Slots, Slot;
    var l := s.threads[t];
    assert LocalOk(c, s.ring, t, l);
    LocalStep(c, s, t, CLoad(l.count, l.partial, s.ring.consHead));
  }

  // ---------------------------------------------------------------- slots

  /** The next slot to write holds no object. */
  lemma CopyTarget(c: Config, s: State, t: Tid)
    requires ValidConfig(c) && Inv(c, s) && t in s.threads && s.threads[t].PCopy?
    ensures var l := s.threads[t];
      && l.i < l.n <= |l.data| && s.ring.prodTail <= l.head + l.i < s.ring.prodHead
      && s.ring.writer[l.head + l.i] == t
      && s.storage[Slot(c, l.head + l.i)] == None
      && s.ring.log[l.head + l.i] == l.data[l.i]
  {
    var l := s.threads[t];
    assert LocalOk(c, s.ring, t, l);
    assert WriterOk(c, s.ring, t, l);
    var k := l.head + l.i;
    assert SlotOk(c, s, k);
  }

  lemma StepPCopySlots(c: Config, s: State, t: Tid, s': State)
    requires ValidConfig(c) && Counters(c, s) && Tiled(c, s) && Slots(c, s) && t in s.threads && s.threads[t].PCopy?
    requires Counters(c, s') && Tiled(c, s')
    requires s.threads[t].i < s.threads[t].n <= |s.threads[t].data|
    requires t in s'.threads && s'.ring == s.ring && s'.threads == s.threads[t := s'.threads[t]]
    requires s.ring.prodTail <= s.threads[t].head + s.threads[t].i < s.ring.prodHead
    requires s.ring.writer[s.threads[t].head + s.threads[t].i] == t
    requires s.ring.log[s.threads[t].head + s.threads[t].i] == s.threads[t].data[s.threads[t].i]
    requires s' == StepPCopy(c, s, t, s.threads[t]) && !s'.threads[t].Broken?
    ensures Slots(c, s')
  {
    var l := s.threads[t];
    var k0 := l.head + l.i;
    forall k | s'.ring.consTail <= k < s'.ring.consTail + c.size ensures SlotOk(c, s', k) {
      assert SlotOk(c, s, k);
      if s.ring.prodTail <= k < s.ring.prodHead { assert WriteOwned(s, k); }
      if s.ring.consTail <= k < s.ring.consHead { assert ReadOwned(s, k); }
      if k < k0 {
        SlotInjective(c, k, k0);
      } else if k0 < k {
        SlotInjective(c, k0, k);
      }
    }
  }

  lemma StepPCopyInv(c: Config, s: State, t: Tid)
    requires ValidConfig(c) && Inv(c, s) && t in s.threads && s.threads[t].PCopy?
    ensures Inv(c, Step(c, s, t, Advance))
  {
    hide Tiled, Slots, Slot;
    var l := s.threads[t];
    assert LocalOk(c, s.ring, t, l);
    var s' := StepPCopy(c, s, t, l);
    CopyTarget(c, s, t);
    KeepTiled(c, s, t, s');
    StepPCopySlots(c, s, t, s');
    assert LocalOk(c, s.ring, t, s'.threads[t]);
  }

  /** The next slot to read holds the item logged for its position. */
  lemma ReadTarget(c: Config, s: State, t: Tid, k: int)
    requires ValidConfig(c) && Inv(c, s) && t in s.threads && s.threads[t].Reads()
    requires s.threads[t].head <= k < s.threads[t].head + s.threads[t].n && !s.threads[t].Destroyed(k)
    ensures s.ring.consTail <= k < s.ring.consHead && s.ring.reader[k] == t
    ensures s.storage[Slot(c, k)] == Some(s.ring.log[k])
  {
    var l := s.threads[t];
    assert LocalOk(c, s.ring, t, l);
    assert ReaderOk(c, s.ring, t, l);
    assert SlotOk(c, s, k);
  }

  lemma StepCReadInv(c: Config, s: State, t: Tid)
    requires ValidConfig(c) && Inv(c, s) && t in s.threads && s.threads[t].CRead?
    ensures Inv(c, Step(c, s, t, Advance))
  {
    hide Tiled, Slots, Slot;
    var l := s.threads[t];
    assert LocalOk(c, s.ring, t, l);
    assert ReaderOk(c, s.ring, t, l);
    ReadTarget(c, s, t, l.head + |l.out|);
    var l' := CDestroy(l.count, l.head, l.n, l.out + [s.ring.log[l.head + |l.out|]]);
    assert ReaderOk(c, s.ring, t, l');
    LocalStep(c, s, t, l');
  }

  lemma StepCDestroySlots(c: Config, s: State, t: Tid, s': State)
    requires ValidConfig(c) && Counters(c, s) && Tiled(c, s) && Slots(c, s) && t in s.threads && s.threads[t].CDestroy?
    requires Counters(c, s') && Tiled(c, s')
    requires t in s'.threads && s'.ring == s.ring && s'.threads == s.threads[t := s'.threads[t]]
    requires 0 < |s.threads[t].out| <= s.threads[t].n
    requires s.ring.consTail <= s.threads[t].head + |s.threads[t].out| - 1 < s.ring.consHead
    requires s.ring.reader[s.threads[t].head + |s.threads[t].out| - 1] == t
    requires s' == StepCDestroy(c, s, t, s.threads[t]) && !s'.threads[t].Broken?
    ensures Slots(c, s')
  {
    var l := s.threads[t];
    var k0 := l.head + |l.out| - 1;
    forall k | s'.ring.consTail <= k < s'.ring.consTail + c.size ensures SlotOk(c, s', k) {
      assert SlotOk(c, s, k);
      if s.ring.prodTail <= k < s.ring.prodHead { assert WriteOwned(s, k); }
      if s.ring.consTail <= k < s.ring.consHead { assert ReadOwned(s, k); }
      if k < k0 {
        SlotInjective(c, k, k0);
      } else if k0 < k {
        SlotInjective(c, k0, k);
      }
    }
  }

  lemma StepCDestroyInv(c: Config, s: State, t: Tid)
    requires ValidConfig(c) && Inv(c, s) && t in s.threads && s.threads[t].CDestroy?
    ensures Inv(c, Step(c, s, t, Advance))
  {
    hide Tiled, Slots, Slot;
    var l := s.threads[t];
    assert LocalOk(c, s.ring, t, l);
    assert ReaderOk(c, s.ring, t, l);
    var s' := StepCDestroy(c, s, t, l);
    ReadTarget(c, s, t, l.head + |l.out| - 1);
    KeepTiled(c, s, t, s');
    StepCDestroySlots(c, s, t, s');
    assert LocalOk(c, s.ring, t, s'.threads[t]);
  }

  // ---------------------------------------------------------------- commits

  lemma LocalCommitsWrite(c: Config, s: State, t: Tid, q': Ring, u: Tid)
    requires Lengths(s.ring) && Lengths(q') && t in s.threads && u in s.threads && u != t
    requires s.threads[t].PCommit? && LocalOk(c, s.ring, t, s.threads[t]) && LocalOk(c, s.ring, u, s.threads[u])
    requires q' == s.ring.(prodTail := s.threads[t].head + s.threads[t].n)
    ensures LocalOk(c, q', u, s.threads[u])
  {
    hide Logged, ResultOk, Free, Ready;
    var l, m := s.threads[t], s.threads[u];
    assert WriterOk(c, s.ring, t, l);
    if m.Idle? {
      ResultGrows(s.ring, q', m.last);
    } else if m.Writes() {
      assert WriterOk(c, s.ring, u, m);
      assert s.ring.writer[m.head] == u && s.ring.writer[l.head] == t;
      assert m.head >= q'.prodTail;
      assert WriterOk(c, q', u, m);
    } else if m.Reads() {
      assert ReaderOk(c, s.ring, u, m);
      assert ReaderOk(c, q', u, m);
    }
  }

  lemma StepPCommitTiled(c: Config, s: State, t: Tid, s': State)
    requires ValidConfig(c) && Counters(c, s) && Tiled(c, s) && t in s.threads && s.threads[t].PCommit?
    requires LocalOk(c, s.ring, t, s.threads[t])
    requires s' == Step(c, s, t, Advance)
    ensures Counters(c, s') && Tiled(c, s')
  {
    forall k | s'.ring.prodTail <= k < s'.ring.prodHead ensures WriteOwned(s', k) { assert WriteOwned(s, k); }
    forall k | s'.ring.consTail <= k < s'.ring.consHead ensures ReadOwned(s', k) { assert ReadOwned(s, k); }
  }

  lemma StepPCommitSlots(c: Config, s: State, t: Tid, s': State)
    requires ValidConfig(c) && Counters(c, s) && Tiled(c, s) && Slots(c, s) && t in s.threads && s.threads[t].PCommit?
    requires LocalOk(c, s.ring, t, s.threads[t])
    requires s' == Step(c, s, t, Advance) && Counters(c, s') && Tiled(c, s')
    ensures Slots(c, s')
  {
    assert WriterOk(c, s.ring, t, s.threads[t]);
    forall k | s'.ring.consTail <= k < s'.ring.consTail + c.size ensures SlotOk(c, s', k) {
      assert SlotOk(c, s, k);
      if s.ring.prodTail <= k < s.ring.prodHead { assert WriteOwned(s, k); }
      if s.ring.consTail <= k < s.ring.consHead { assert ReadOwned(s, k); }
    }
  }

  lemma StepPCommitInv(c: Config, s: State, t: Tid)
    requires ValidConfig(c) && Inv(c, s) && t in s.threads && s.threads[t].PCommit?
    ensures Inv(c, Step(c, s, t, Advance))
  {
    hide Tiled, Slots, Slot;
    var s' := Step(c, s, t, Advance);
    assert LocalOk(c, s.ring, t, s.threads[t]);
    StepPCommitTiled(c, s, t, s');
    StepPCommitSlots(c, s, t, s');
    forall u | u in s'.threads ensures LocalOk(c, s'.ring, u, s'.threads[u]) {
      if u != t {
        assert LocalOk(c, s.ring, u, s.threads[u]);
        LocalCommitsWrite(c, s, t, s'.ring, u);
      }
    }
  }

  lemma LocalCommitsRead(c: Config, s: State, t: Tid, q': Ring, u: Tid)
    requires Lengths(s.ring) && Lengths(q') && t in s.threads && u in s.threads && u != t
    requires s.threads[t].CCommit? && LocalOk(c, s.ring, t, s.threads[t]) && LocalOk(c, s.ring, u, s.threads[u])
    requires q' == s.ring.(consTail := s.threads[t].head + s.threads[t].n)
    ensures LocalOk(c, q', u, s.threads[u])
  {
    hide Logged, ResultOk, Free, Ready;
    var l, m := s.threads[t], s.threads[u];
    assert ReaderOk(c, s.ring, t, l);
    if m.Idle? {
      ResultGrows(s.ring, q', m.last);
    } else if m.Writes() {
      assert WriterOk(c, s.ring, u, m);
      assert WriterOk(c, q', u, m);
    } else if m.Reads() {
      assert ReaderOk(c, s.ring, u, m);
      assert s.ring.reader[m.head] == u && s.ring.reader[l.head] == t;
      assert m.head >= q'.consTail;
      assert ReaderOk(c, q', u, m);
    }
  }

  lemma StepCCommitTiled(c: Config, s: State, t: Tid, s': State)
    requires ValidConfig(c) && Counters(c, s) && Tiled(c, s) && t in s.threads && s.threads[t].CCommit?
    requires LocalOk(c, s.ring, t, s.threads[t])
    requires s' == Step(c, s, t, Advance)
    ensures Counters(c, s') && Tiled(c, s')
  {
    var l := s.threads[t];
    assert ReaderOk(c, s.ring, t, l);
    assert s.ring.log[..s'.ring.consTail] == s.ring.log[..s.ring.consTail] + l.out;
    forall k | s'.ring.prodTail <= k < s'.ring.prodHead ensures WriteOwned(s', k) { assert WriteOwned(s, k); }
    forall k | s'.ring.consTail <= k < s'.ring.consHead ensures ReadOwned(s', k) { assert ReadOwned(s, k); }
  }

  lemma StepCCommitSlots(c: Config, s: State, t: Tid, s': State)
    requires ValidConfig(c) && Counters(c, s) && Tiled(c, s) && Slots(c, s) && t in s.threads && s.threads[t].CCommit?
    requires LocalOk(c, s.ring, t, s.threads[t])
    requires s' == Step(c, s, t, Advance) && Counters(c, s') && Tiled(c, s')
    ensures Slots(c, s')
  {
    var l := s.threads[t];
    assert ReaderOk(c, s.ring, t, l);
    forall k | s'.ring.consTail <= k < s'.ring.consTail + c.size ensures SlotOk(c, s', k) {
      if k < s.ring.consTail + c.size {
        assert SlotOk(c, s, k);
        if s.ring.prodTail <= k < s.ring.prodHead { assert WriteOwned(s, k); }
        if s.ring.consTail <= k < s.ring.consHead { assert ReadOwned(s, k); }
      } else {
        var j := k - c.size;
        SlotPeriodic(c, j);
        assert SlotOk(c, s, j);
        assert s.ring.reader[j] == t;
      }
    }
  }

  lemma StepCCommitInv(c: Config, s: State, t: Tid)
    requires ValidConfig(c) && Inv(c, s) && t in s.threads && s.threads[t].CCommit?
    ensures Inv(c, Step(c, s, t, Advance))
  {
    hide Tiled, Slots, Slot;
    var s' := Step(c, s, t, Advance);
    assert LocalOk(c, s.ring, t, s.threads[t]);
    StepCCommitTiled(c, s, t, s');
    StepCCommitSlots(c, s, t, s');
    forall u | u in s'.threads ensures LocalOk(c, s'.ring, u, s'.threads[u]) {
      if u != t {
        assert LocalOk(c, s.ring, u, s.threads[u]);
        LocalCommitsRead(c, s, t, s'.ring, u);
      }
    }
  }

  // ---------------------------------------------------------------- all steps

  lemma InitInv(c: Config, s: State)
    requires ValidConfig(c) && Init(c, s)
    ensures Inv(c, s)
  {
    forall k | s.ring.consTail <= k < s.ring.consTail + c.size ensures SlotOk(c, s, k) {
    }
  }

  /** Every enabled step of every thread keeps the invariant. */
  lemma StepInv(c: Config, s: State, t: Tid, a: Action)
    requires ValidConfig(c) && Inv(c, s) && NotLapped(c, s) && Enabled(c, s, t, a)
    ensures Inv(c, Step(c, s, t, a))
  {
    var l := s.threads[t];
    if !a.Advance? { StepStart(c, s, t, a); }
    else {
      match l {
        case PLoad(_, _, _) => StepPLoad(c, s, t);
        case PSwap(_, _, _, _, _) => StepPSwapInv(c, s, t);
        case PCheck(_, _, _, _) => StepPCheck(c, s, t);
        case PCopy(_, _, _, _) => StepPCopyInv(c, s, t);
        case PWait(_, _, _) => StepPWait(c, s, t);
        case PCommit(_, _, _) => StepPCommitInv(c, s, t);
        case CLoad(_, _, _) => StepCLoad(c, s, t);
        case CSwap(_, _, _, _, _) => StepCSwapInv(c, s, t);
        case CCheck(_, _, _, _) => StepCCheck(c, s, t);
        case CRead(_, _, _, _) => StepCReadInv(c, s, t);
        case CDestroy(_, _, _, _) => StepCDestroyInv(c, s, t);
        case CWait(_, _, _, _) => StepCWait(c, s, t);
        case CCommit(_, _, _, _) => StepCCommitInv(c, s, t);
      }
    }
  }
}
