/** A thread that runs alone finishes its call; built on that, the ready-entries check of `pop`
    fires in some run whenever two threads may pop, and in none when only one does. */
module LockFreeQueueSolo {
  import opened Bits
  import opened LockFreeQueue
  import opened LockFreeQueueProof
  import opened LockFreeQueueTheorems
  import opened Options

  lemma {:induction false} RunsExtend(c: Config, s: State, sched: seq<(Tid, Action)>, m: State, t: Tid, a: Action)
    requires ValidConfig(c) && Runs(c, s, sched, m)
    requires |m.storage| == c.size && Enabled(c, m, t, a) && NotLapped(c, Step(c, m, t, a))
    ensures Runs(c, s, sched + [(t, a)], Step(c, m, t, a))
    decreases |sched|
  {
    if sched != [] {
      var (t0, a0) := sched[0];
      RunsExtend(c, Step(c, s, t0, a0), sched[1..], m, t, a);
      assert (sched + [(t, a)])[1..] == sched[1..] + [(t, a)];
    } else {
      assert Runs(c, Step(c, m, t, a), [], Step(c, m, t, a));
      assert (sched + [(t, a)])[1..] == [];
    }
  }

  lemma {:induction false} RunsAppend(c: Config, s: State, x: seq<(Tid, Action)>, m: State, y: seq<(Tid, Action)>,
                                      s': State)
    requires ValidConfig(c) && Runs(c, s, x, m) && Runs(c, m, y, s')
    ensures Runs(c, s, x + y, s')
    decreases |x|
  {
    if x != [] {
      var (t, a) := x[0];
      RunsAppend(c, Step(c, s, t, a), x[1..], m, y, s');
      assert (x + y)[1..] == x[1..] + y;
    } else {
      assert x + y == y;
    }
  }

  /** `s'` differs from `s` by the counters of the ring, its storage and thread `t`. */
  ghost predicate OnlyThread(s: State, s': State, t: Tid)
  {
    t in s.threads && t in s'.threads && s'.threads == s.threads[t := s'.threads[t]]
  }

  /** Other threads keep clear of being lapped when the heads advance by `p` and `q`. */
  ghost predicate Slack(c: Config, s: State, t: Tid, p: nat, q: nat)
  {
    forall u :: u in s.threads && u != t ==>
      && (s.threads[u].PLoad? || s.threads[u].PSwap? ==> s.ring.prodHead + p - s.threads[u].head + c.size <= WORD)
      && (s.threads[u].CLoad? || s.threads[u].CSwap? ==> s.ring.consHead + q - s.threads[u].head + c.size <= WORD)
  }

  lemma SlackNotLapped(c: Config, s: State, s': State, t: Tid)
    requires ValidConfig(c) && OnlyThread(s, s', t)
    requires s.ring.prodHead <= s'.ring.prodHead && s.ring.consHead <= s'.ring.consHead
    requires Slack(c, s, t, s'.ring.prodHead - s.ring.prodHead, s'.ring.consHead - s.ring.consHead)
    requires s'.threads[t].PLoad? || s'.threads[t].PSwap? ==> s'.threads[t].head == s'.ring.prodHead
    requires s'.threads[t].CLoad? || s'.threads[t].CSwap? ==> s'.threads[t].head == s'.ring.consHead
    ensures NotLapped(c, s')
  {
  }

  /** Thread `t`, running alone, takes `s` to `s'`. */
  ghost predicate Solo(c: Config, s: State, t: Tid, s': State)
    requires ValidConfig(c)
  {
    && Inv(c, s') && NotLapped(c, s') && OnlyThread(s, s', t)
    && exists sched :: Runs(c, s, sched, s')
  }

  lemma SoloTrans(c: Config, s: State, t: Tid, m: State, s': State)
    requires ValidConfig(c) && Solo(c, s, t, m) && Solo(c, m, t, s')
    ensures Solo(c, s, t, s')
  {
    hide Inv, NotLapped, Runs;
    var x :| Runs(c, s, x, m);
    var y :| Runs(c, m, y, s');
    RunsAppend(c, s, x, m, y, s');
  }

  lemma SoloStep(c: Config, s: State, t: Tid, a: Action, s': State)
    requires ValidConfig(c) && Inv(c, s) && NotLapped(c, s) && Enabled(c, s, t, a)
    requires s' == Step(c, s, t, a) && NotLapped(c, s') && OnlyThread(s, s', t)
    ensures Solo(c, s, t, s')
  {
    assert |s.storage| == c.size;
    hide Inv, NotLapped, Step, Enabled;
    StepInv(c, s, t, a);
    assert Runs(c, s', [], s');
    assert [(t, a)][1..] == [];
    assert Runs(c, s, [(t, a)], s');
  }

  // ---------------------------------------------------------------- single steps

  lemma StepsOwn(c: Config, s: State, t: Tid, a: Action)
    requires ValidConfig(c) && |s.storage| == c.size && Enabled(c, s, t, a)
    ensures OnlyThread(s, Step(c, s, t, a), t)
  {
    hide Slot, Free, Ready, CheckWrite, CheckRead, LoadConsTail, LoadProdTail;
  }

  lemma AtPCopy(c: Config, s: State, t: Tid)
    requires ValidConfig(c) && |s.storage| == c.size && t in s.threads && s.threads[t].PCopy?
    ensures Step(c, s, t, Advance) == StepPCopy(c, s, t, s.threads[t])
  {
  }

  lemma AtPWait(c: Config, s: State, t: Tid)
    requires ValidConfig(c) && |s.storage| == c.size && t in s.threads && s.threads[t].PWait?
    requires s.threads[t].head == s.ring.prodTail
    ensures var l := s.threads[t]; Step(c, s, t, Advance) == SetLocal(s, t, PCommit(l.data, l.head, l.n))
  {
  }

  lemma AtPCommit(c: Config, s: State, t: Tid)
    requires ValidConfig(c) && |s.storage| == c.size && t in s.threads && s.threads[t].PCommit?
    ensures var l := s.threads[t];
      Step(c, s, t, Advance) ==
        SetLocal(s, t, Idle(Inserted(l.data, l.n, l.head))).(ring := s.ring.(prodTail := l.head + l.n))
  {
  }

  lemma AtCRead(c: Config, s: State, t: Tid)
    requires ValidConfig(c) && |s.storage| == c.size && t in s.threads && s.threads[t].CRead?
    ensures Step(c, s, t, Advance) == StepCRead(c, s, t, s.threads[t])
  {
  }

  lemma AtCDestroy(c: Config, s: State, t: Tid)
    requires ValidConfig(c) && |s.storage| == c.size && t in s.threads && s.threads[t].CDestroy?
    ensures Step(c, s, t, Advance) == StepCDestroy(c, s, t, s.threads[t])
  {
  }

  lemma AtCWait(c: Config, s: State, t: Tid)
    requires ValidConfig(c) && |s.storage| == c.size && t in s.threads && s.threads[t].CWait?
    requires s.threads[t].head == s.ring.consTail
    ensures var l := s.threads[t]; Step(c, s, t, Advance) == SetLocal(s, t, CCommit(l.count, l.head, l.n, l.out))
  {
  }

  lemma AtCCommit(c: Config, s: State, t: Tid)
    requires ValidConfig(c) && |s.storage| == c.size && t in s.threads && s.threads[t].CCommit?
    ensures var l := s.threads[t];
      Step(c, s, t, Advance) ==
        SetLocal(s, t, Idle(Popped(l.count, l.out, l.head))).(
          ring := s.ring.(consTail := l.head + l.n), delivered := s.delivered + l.out)
  {
  }

  /** Past its reservation a thread neither looks at the heads nor moves them. */
  lemma HeadsKept(c: Config, s: State, t: Tid)
    requires ValidConfig(c) && |s.storage| == c.size && t in s.threads
    requires s.threads[t].Writes() || s.threads[t].Reads()
    ensures var s' := Step(c, s, t, Advance);
      && t in s'.threads && s'.ring.prodHead == s.ring.prodHead && s'.ring.consHead == s.ring.consHead
      && !s'.threads[t].PLoad? && !s'.threads[t].PSwap? && !s'.threads[t].CLoad? && !s'.threads[t].CSwap?
      && !s'.threads[t].Overflow? && (s'.threads[t].Reads() ==> s.threads[t].Reads())
  {
    hide Slot, Free, Ready;
  }

  lemma HeadsKeptNotLapped(c: Config, s: State, s': State, t: Tid)
    requires NotLapped(c, s) && OnlyThread(s, s', t)
    requires s'.ring.prodHead == s.ring.prodHead && s'.ring.consHead == s.ring.consHead
    requires !s'.threads[t].PLoad? && !s'.threads[t].PSwap? && !s'.threads[t].CLoad? && !s'.threads[t].CSwap?
    ensures NotLapped(c, s')
  {
  }

  // ---------------------------------------------------------------- a lone thread

  /** One step of a lone thread past its reservation. */
  lemma Quiet(c: Config, s: State, t: Tid) returns (s': State)
    requires ValidConfig(c) && Inv(c, s) && NotLapped(c, s) && t in s.threads
    requires s.threads[t].Writes() || s.threads[t].Reads()
    ensures |s.storage| == c.size && s' == Step(c, s, t, Advance) && Solo(c, s, t, s')
  {
    hide Inv, NotLapped, Step;
    InvStorage(c, s);
    s' := Step(c, s, t, Advance);
    StepsOwn(c, s, t, Advance);
    HeadsKept(c, s, t);
    HeadsKeptNotLapped(c, s, s', t);
    SoloStep(c, s, t, Advance, s');
  }

  /** The copy loop of `insert`. */
  lemma {:induction false} SoloCopy(c: Config, s: State, t: Tid) returns (s': State)
    requires ValidConfig(c) && Inv(c, s) && NotLapped(c, s) && t in s.threads && s.threads[t].PCopy?
    ensures Solo(c, s, t, s') && s'.ring == s.ring
    ensures s'.threads[t] == PWait(s.threads[t].data, s.threads[t].head, s.threads[t].n)
    decreases s.threads[t].n - s.threads[t].i
  {
    hide Inv, NotLapped, Runs, Step, Solo, Slot;
    CopyTarget(c, s, t);
    s' := Quiet(c, s, t);
    AtPCopy(c, s, t);
    SoloFacts(c, s, t, s');
    if !s'.threads[t].PWait? {
      var m := s';
      s' := SoloCopy(c, m, t);
      SoloTrans(c, s, t, m, s');
    }
  }

  lemma SoloFacts(c: Config, s: State, t: Tid, s': State)
    requires ValidConfig(c) && Solo(c, s, t, s')
    ensures Inv(c, s') && NotLapped(c, s') && t in s'.threads
  {
  }

  lemma ReadProgress(c: Config, s: State, t: Tid)
    requires ValidConfig(c) && Inv(c, s) && t in s.threads && s.threads[t].CRead?
    ensures |s.threads[t].out| < s.threads[t].n
  {
    assert LocalOk(c, s.ring, t, s.threads[t]);
  }

  /** One round of the copy-out loop of `pop`. */
  lemma SoloReadOne(c: Config, s: State, t: Tid) returns (s': State)
    requires ValidConfig(c) && Inv(c, s) && NotLapped(c, s) && t in s.threads && s.threads[t].CRead?
    ensures |s.threads[t].out| < s.threads[t].n
    ensures Solo(c, s, t, s') && s'.ring == s.ring
    ensures var l, l' := s.threads[t], s'.threads[t];
      && (if |l.out| + 1 < l.n then l'.CRead? && |l'.out| == |l.out| + 1 else l'.CWait?)
      && l'.count == l.count && l'.head == l.head && l'.n == l.n
  {
    hide Inv, NotLapped, Runs, Step, Solo, Slot;
    ReadProgress(c, s, t);
    ReadTarget(c, s, t, s.threads[t].head + |s.threads[t].out|);
    var m := Quiet(c, s, t);
    AtCRead(c, s, t);
    SoloFacts(c, s, t, m);
    ReadTarget(c, m, t, m.threads[t].head + |m.threads[t].out| - 1);
    s' := Quiet(c, m, t);
    AtCDestroy(c, m, t);
    SoloTrans(c, s, t, m, s');
  }

  /** The copy-out loop of `pop`. */
  lemma {:induction false} SoloRead(c: Config, s: State, t: Tid) returns (s': State)
    requires ValidConfig(c) && Inv(c, s) && NotLapped(c, s) && t in s.threads && s.threads[t].CRead?
    ensures Solo(c, s, t, s') && s'.ring == s.ring
    ensures var l, l' := s.threads[t], s'.threads[t];
      l'.CWait? && l'.count == l.count && l'.head == l.head && l'.n == l.n
    decreases s.threads[t].n - |s.threads[t].out|
  {
    hide Inv, NotLapped, Runs, Step, Solo;
    s' := SoloReadOne(c, s, t);
    SoloFacts(c, s, t, s');
    if s'.threads[t].CRead? {
      var m := s';
      s' := SoloRead(c, m, t);
      SoloTrans(c, s, t, m, s');
    }
  }

  /** `insert` with room for all items: from the start to the reservation. */
  lemma SoloReserve(c: Config, s: State, t: Tid, data: seq<Item>) returns (s': State)
    requires ValidConfig(c) && Inv(c, s) && NotLapped(c, s) && Enabled(c, s, t, Insert(data, false))
    requires 0 < |data| <= s.ring.consTail + c.size - 1 - s.ring.prodHead
    requires Slack(c, s, t, |data|, 0)
    ensures Solo(c, s, t, s')
    ensures s'.threads[t] == PCheck(data, s.ring.prodHead, s.ring.consTail, |data|)
    ensures s'.ring.prodHead == s.ring.prodHead + |data|
    ensures s'.ring == s.ring.(prodHead := s'.ring.prodHead, log := s'.ring.log, writer := s'.ring.writer)
  {
    hide Inv, NotLapped, Runs, Step, Solo;
    InvStorage(c, s);
    var s1 := SetLocal(s, t, PLoad(data, false, s.ring.prodHead));
    AtInsert(c, s, t, data);
    SlackNotLapped(c, s, s1, t);
    SoloStep(c, s, t, Insert(data, false), s1);
    SoloFacts(c, s, t, s1);
    var s2 := SetLocal(s1, t, PSwap(data, false, s.ring.prodHead, s.ring.consTail, |data|));
    RoomFor(c, s1, t);
    SlackNotLapped(c, s, s2, t);
    SoloStep(c, s1, t, Advance, s2);
    SoloFacts(c, s1, t, s2);
    s' := StepPSwap(c, s2, t, s2.threads[t]);
    AtPSwap(c, s2, t);
    SlackNotLapped(c, s, s', t);
    SoloStep(c, s2, t, Advance, s');
    SoloTrans(c, s, t, s1, s2);
    SoloTrans(c, s, t, s2, s');
  }

  lemma AtInsert(c: Config, s: State, t: Tid, data: seq<Item>)
    requires ValidConfig(c) && |s.storage| == c.size && Enabled(c, s, t, Insert(data, false))
    ensures Step(c, s, t, Insert(data, false)) == SetLocal(s, t, PLoad(data, false, s.ring.prodHead))
  {
  }

  lemma RoomFor(c: Config, s: State, t: Tid)
    requires ValidConfig(c) && Inv(c, s) && t in s.threads
    requires s.threads[t].PLoad? && s.threads[t].head == s.ring.prodHead
    requires 0 < |s.threads[t].data| <= s.ring.consTail + c.size - 1 - s.ring.prodHead
    ensures var l := s.threads[t];
      Step(c, s, t, Advance) == SetLocal(s, t, PSwap(l.data, l.partial, l.head, s.ring.consTail, |l.data|))
  {
    ModSmall(c.size - 1 + s.ring.consTail - s.ring.prodHead);
  }

  lemma AtPSwap(c: Config, s: State, t: Tid)
    requires ValidConfig(c) && |s.storage| == c.size && t in s.threads && s.threads[t].PSwap?
    ensures Step(c, s, t, Advance) == StepPSwap(c, s, t, s.threads[t])
  {
  }

  /** From the end of the copy loop to the return of `insert`. */
  lemma SoloFinish(c: Config, s: State, t: Tid) returns (s': State)
    requires ValidConfig(c) && Inv(c, s) && NotLapped(c, s) && t in s.threads && s.threads[t].PWait?
    requires s.threads[t].head == s.ring.prodTail
    ensures var l := s.threads[t];
      && Solo(c, s, t, s') && s'.threads[t] == Idle(Inserted(l.data, l.n, l.head))
      && s'.ring == s.ring.(prodTail := l.head + l.n)
  {
    hide Inv, NotLapped, Runs, Step, Solo;
    var m := Quiet(c, s, t);
    AtPWait(c, s, t);
    SoloFacts(c, s, t, m);
    s' := Quiet(c, m, t);
    AtPCommit(c, m, t);
    SoloTrans(c, s, t, m, s');
  }

  /** With no other write reservation pending, `insert` run alone finishes and has inserted. */
  lemma SoloInsert(c: Config, s: State, t: Tid, data: seq<Item>) returns (s': State)
    requires ValidConfig(c) && Inv(c, s) && NotLapped(c, s) && Enabled(c, s, t, Insert(data, false))
    requires s.ring.prodTail == s.ring.prodHead
    requires 0 < |data| <= s.ring.consTail + c.size - 1 - s.ring.prodHead
    requires Slack(c, s, t, |data|, 0)
    ensures Solo(c, s, t, s')
    ensures s'.threads[t] == Idle(Inserted(data, |data|, s.ring.prodHead))
    ensures s'.ring.prodHead == s'.ring.prodTail == s.ring.prodHead + |data|
    ensures s'.ring.consHead == s.ring.consHead && s'.ring.consTail == s.ring.consTail
  {
    hide Inv, NotLapped, Runs, Enabled, Slack;
    var s1 := SoloReserve(c, s, t, data);
    CheckWritePasses(c, s1, t);
    var s2 := Quiet(c, s1, t);
    assert s2.threads[t] == PCopy(data, s.ring.prodHead, |data|, 0) && s2.ring == s1.ring;
    hide Step;
    var s3 := SoloCopy(c, s2, t);
    s' := SoloFinish(c, s3, t);
    SoloTrans(c, s, t, s1, s2);
    SoloTrans(c, s, t, s2, s3);
    SoloTrans(c, s, t, s3, s');
  }

  lemma SoloClaim(c: Config, s: State, t: Tid, count: nat) returns (s': State)
    requires ValidConfig(c) && Inv(c, s) && NotLapped(c, s) && Enabled(c, s, t, Pop(count, false))
    requires 0 < count <= s.ring.prodTail - s.ring.consHead
    requires Slack(c, s, t, 0, count)
    ensures Solo(c, s, t, s')
    ensures s'.threads[t] == CCheck(count, s.ring.consHead, s.ring.prodTail, count)
    ensures s'.ring.consHead == s.ring.consHead + count
    ensures s'.ring == s.ring.(consHead := s'.ring.consHead, reader := s'.ring.reader)
  {
    hide Inv, NotLapped, Runs, Step, Solo;
    InvStorage(c, s);
    var s1 := SetLocal(s, t, CLoad(count, false, s.ring.consHead));
    AtPop(c, s, t, count);
    SlackNotLapped(c, s, s1, t);
    SoloStep(c, s, t, Pop(count, false), s1);
    SoloFacts(c, s, t, s1);
    var s2 := SetLocal(s1, t, CSwap(count, false, s.ring.consHead, s.ring.prodTail, count));
    ItemsFor(c, s1, t);
    SlackNotLapped(c, s, s2, t);
    SoloStep(c, s1, t, Advance, s2);
    SoloFacts(c, s1, t, s2);
    s' := StepCSwap(c, s2, t, s2.threads[t]);
    AtCSwap(c, s2, t);
    SlackNotLapped(c, s, s', t);
    SoloStep(c, s2, t, Advance, s');
    SoloTrans(c, s, t, s1, s2);
    SoloTrans(c, s, t, s2, s');
  }

  lemma AtPop(c: Config, s: State, t: Tid, count: nat)
    requires ValidConfig(c) && |s.storage| == c.size && Enabled(c, s, t, Pop(count, false))
    ensures Step(c, s, t, Pop(count, false)) == SetLocal(s, t, CLoad(count, false, s.ring.consHead))
  {
  }

  lemma ItemsFor(c: Config, s: State, t: Tid)
    requires ValidConfig(c) && Inv(c, s) && t in s.threads
    requires s.threads[t].CLoad? && s.threads[t].head == s.ring.consHead
    requires 0 < s.threads[t].count <= s.ring.prodTail - s.ring.consHead
    ensures var l := s.threads[t];
      Step(c, s, t, Advance) == SetLocal(s, t, CSwap(l.count, l.partial, l.head, s.ring.prodTail, l.count))
  {
    ModSmall(s.ring.prodTail - s.ring.consHead);
    assert s.ring.prodTail - s.ring.consHead < c.size;
  }

  lemma AtCSwap(c: Config, s: State, t: Tid)
    requires ValidConfig(c) && |s.storage| == c.size && t in s.threads && s.threads[t].CSwap?
    ensures Step(c, s, t, Advance) == StepCSwap(c, s, t, s.threads[t])
  {
  }

  lemma SoloReturn(c: Config, s: State, t: Tid) returns (s': State)
    requires ValidConfig(c) && Inv(c, s) && NotLapped(c, s) && t in s.threads && s.threads[t].CWait?
    requires s.threads[t].head == s.ring.consTail
    ensures var l := s.threads[t];
      && l.head + l.n <= |s.ring.log|
      && Solo(c, s, t, s') && s'.threads[t] == Idle(Popped(l.count, s.ring.log[l.head..l.head + l.n], l.head))
      && s'.ring == s.ring.(consTail := l.head + l.n)
  {
    hide Inv, NotLapped, Runs, Step, Solo;
    ReadItems(c, s, t);
    var m := Quiet(c, s, t);
    AtCWait(c, s, t);
    SoloFacts(c, s, t, m);
    s' := Quiet(c, m, t);
    AtCCommit(c, m, t);
    SoloTrans(c, s, t, m, s');
  }

  lemma ReadItems(c: Config, s: State, t: Tid)
    requires ValidConfig(c) && Inv(c, s) && t in s.threads && s.threads[t].CWait?
    ensures var l := s.threads[t]; l.head + l.n <= |s.ring.log| && l.out == s.ring.log[l.head..l.head + l.n]
  {
    assert LocalOk(c, s.ring, t, s.threads[t]);
  }

  /** With no other read reservation pending, `pop` run alone finishes and has removed. */
  lemma SoloPop(c: Config, s: State, t: Tid, count: nat) returns (s': State)
    requires ValidConfig(c) && Inv(c, s) && NotLapped(c, s) && Enabled(c, s, t, Pop(count, false))
    requires s.ring.consTail == s.ring.consHead
    requires 0 < count <= s.ring.prodTail - s.ring.consHead
    requires Slack(c, s, t, 0, count)
    ensures Solo(c, s, t, s')
    ensures s.ring.consHead + count <= |s.ring.log|
    ensures s'.threads[t] == Idle(Popped(count, s.ring.log[s.ring.consHead..s.ring.consHead + count], s.ring.consHead))
    ensures s'.ring.consHead == s'.ring.consTail == s.ring.consHead + count
    ensures s'.ring.prodHead == s.ring.prodHead && s'.ring.prodTail == s.ring.prodTail
  {
    hide Inv, NotLapped, Runs, Enabled, Slack;
    var s1 := SoloClaim(c, s, t, count);
    CheckReadPasses(c, s1, t);
    var s2 := Quiet(c, s1, t);
    assert s2.threads[t] == CRead(count, s.ring.consHead, count, []) && s2.ring == s1.ring;
    hide Step;
    var s3 := SoloRead(c, s2, t);
    s' := SoloReturn(c, s3, t);
    SoloTrans(c, s, t, s1, s2);
    SoloTrans(c, s, t, s2, s3);
    SoloTrans(c, s, t, s3, s');
  }

  // ---------------------------------------------------------------- the ready-entries check

  lemma SizeDoubles(c: Config)
    requires ValidConfig(c)
    ensures 2 * c.size <= WORD
  {
    IsPow2Iff(c.size);
    var b: nat :| c.size == Pow2(b);
    WordIsPow2();
    if b >= 64 {
      Pow2Monotone(64, b);
    }
    Pow2Monotone(b, 64);
  }

  /** The threads `w` and `b`, which may be the same, take `s` to `s'`; the others stay as they are. */
  ghost predicate Pair(c: Config, s: State, w: Tid, b: Tid, s': State)
    requires ValidConfig(c)
  {
    && Inv(c, s') && NotLapped(c, s') && s'.threads.Keys == s.threads.Keys
    && (forall u :: u in s.threads && u != w && u != b ==> u in s'.threads && s'.threads[u] == s.threads[u])
    && exists sched :: Runs(c, s, sched, s')
  }

  lemma PairTrans(c: Config, s: State, w: Tid, b: Tid, m: State, s': State)
    requires ValidConfig(c) && Pair(c, s, w, b, m) && (Solo(c, m, w, s') || Solo(c, m, b, s'))
    ensures Pair(c, s, w, b, s')
  {
    hide Inv, NotLapped, Runs;
    var x :| Runs(c, s, x, m);
    var y :| Runs(c, m, y, s');
    RunsAppend(c, s, x, m, y, s');
  }

  /** Both are idle and may insert and pop; nobody else is lapped by a turn of the ring. */
  ghost predicate Poised(c: Config, s: State, w: Tid, b: Tid, p: nat, q: nat) {
    && w in s.threads && s.threads[w].Idle? && b in s.threads && s.threads[b].Idle?
    && (c.soleProducer.None? || c.soleProducer == Some(w)) && c.soleConsumer.None?
    && forall u :: u in s.threads && u != w && u != b ==>
         && (s.threads[u].PLoad? || s.threads[u].PSwap? ==> s.ring.prodHead + p - s.threads[u].head + c.size <= WORD)
         && (s.threads[u].CLoad? || s.threads[u].CSwap? ==> s.ring.consHead + q - s.threads[u].head + c.size <= WORD)
  }

  lemma PoisedSlack(c: Config, s: State, w: Tid, b: Tid, p: nat, q: nat, x: seq<Item>)
    requires Poised(c, s, w, b, p, q) && |x| < WORD
    ensures Enabled(c, s, w, Insert(x, false)) && (|x| <= p ==> Slack(c, s, w, |x|, 0))
    ensures forall k: nat :: k < WORD && k <= q ==> Enabled(c, s, b, Pop(k, false)) && Slack(c, s, b, 0, k)
  {
  }

  lemma PoisedNext(c: Config, s: State, w: Tid, b: Tid, p: nat, q: nat, s': State, t: Tid)
    requires Poised(c, s, w, b, p, q) && OnlyThread(s, s', t) && (t == w || t == b) && s'.threads[t].Idle?
    requires s.ring.prodHead <= s'.ring.prodHead <= s.ring.prodHead + p
    requires s.ring.consHead <= s'.ring.consHead <= s.ring.consHead + q
    ensures Poised(c, s', w, b, s.ring.prodHead + p - s'.ring.prodHead, s.ring.consHead + q - s'.ring.consHead)
  {
  }

  lemma PairNone(c: Config, s: State, w: Tid, b: Tid)
    requires ValidConfig(c) && Inv(c, s) && NotLapped(c, s)
    ensures Pair(c, s, w, b, s)
  {
    hide Inv;
    assert Runs(c, s, [], s);
  }

  /** A producer `w` and a consumer `b` move the ring on by one full turn: `size - 1` items in, the same
      out, and one more in. */
  lemma FullTurn(c: Config, s: State, w: Tid, b: Tid, x: Item) returns (s': State)
    requires ValidConfig(c) && Inv(c, s) && NotLapped(c, s) && c.size >= 2 && Poised(c, s, w, b, c.size, c.size)
    requires s.ring.prodHead == s.ring.prodTail == s.ring.consHead == s.ring.consTail
    ensures Pair(c, s, w, b, s') && s'.ring.prodTail == s.ring.prodTail + c.size
  {
    hide Inv, NotLapped, Runs, Enabled, Slack, Poised, Pair, Step;
    var items := seq(c.size - 1, _ => x);
    PairNone(c, s, w, b);
    PoisedSlack(c, s, w, b, c.size, c.size, items);
    var s1 := SoloInsert(c, s, w, items);
    PairTrans(c, s, w, b, s, s1);
    PoisedNext(c, s, w, b, c.size, c.size, s1, w);
    PoisedSlack(c, s1, w, b, 1, c.size, []);
    var s2 := SoloPop(c, s1, b, c.size - 1);
    PairTrans(c, s, w, b, s1, s2);
    PoisedNext(c, s1, w, b, 1, c.size, s2, b);
    PoisedSlack(c, s2, w, b, 1, 1, [x]);
    s' := SoloInsert(c, s2, w, [x]);
    PairTrans(c, s, w, b, s2, s');
  }

  lemma LoadHead(c: Config, s0: State, a: Tid) returns (s1: State)
    requires ValidConfig(c) && Init(c, s0) && a in s0.threads && c.soleConsumer == None
    ensures s1 == Step(c, s0, a, Pop(1, false)) && Solo(c, s0, a, s1)
  {
    InitInv(c, s0);
    SizeDoubles(c);
    s1 := Step(c, s0, a, Pop(1, false));
    assert NotLapped(c, s0) && NotLapped(c, s1);
    hide Inv, NotLapped, Runs;
    SoloStep(c, s0, a, Pop(1, false), s1);
  }

  lemma PoisedToTurn(c: Config, s0: State, s1: State, a: Tid, w: Tid, b: Tid)
    requires ValidConfig(c) && Init(c, s0) && 2 * c.size <= WORD
    requires a in s0.threads && b in s0.threads && w in s0.threads && a != b && a != w
    requires c.soleConsumer == None && (c.soleProducer == None || c.soleProducer == Some(w))
    requires s1 == Step(c, s0, a, Pop(1, false))
    ensures Poised(c, s1, w, b, c.size, c.size)
    ensures s1.ring.prodHead == s1.ring.prodTail == s1.ring.consHead == s1.ring.consTail == 0
    ensures s1.threads[a] == CLoad(1, false, 0)
  {
  }

  /** Whenever two threads `a` and `b` may pop and another than `a` may insert, some run makes the
      ready-entries check of `a` fail. */
  lemma OverflowReachable(c: Config, s0: State, a: Tid, b: Tid, w: Tid, x: Item)
    returns (sched: seq<(Tid, Action)>, s: State)
    requires ValidConfig(c) && Init(c, s0) && c.size >= 2
    requires a in s0.threads && b in s0.threads && w in s0.threads && a != b && a != w
    requires c.soleConsumer == None && (c.soleProducer == None || c.soleProducer == Some(w))
    ensures Runs(c, s0, sched, s) && a in s.threads && s.threads[a].Overflow?
  {
    var s1 := LoadHead(c, s0, a);
    SizeDoubles(c);
    PoisedToTurn(c, s0, s1, a, w, b);
    hide Init, Inv, NotLapped, Runs, Poised, Step;
    var s2 := FullTurn(c, s1, w, b, x);
    assert a in s1.threads && s2.threads[a] == CLoad(1, false, 0) && s2.ring.prodTail == c.size;
    InvStorage(c, s2);
    s := SetLocal(s2, a, Overflow);
    AtOverflow(c, s2, a);
    StillNotLapped(c, s2, s, a);
    var y :| Runs(c, s0, y, s1);
    var z :| Runs(c, s1, z, s2);
    RunsAppend(c, s0, y, s1, z, s2);
    RunsExtend(c, s0, y + z, s2, a, Advance);
    sched := y + z + [(a, Advance)];
  }

  lemma AtOverflow(c: Config, s: State, t: Tid)
    requires ValidConfig(c) && |s.storage| == c.size && t in s.threads
    requires s.threads[t] == CLoad(1, false, 0) && s.ring.prodTail == c.size
    ensures Step(c, s, t, Advance) == SetLocal(s, t, Overflow)
  {
    ModSmall(c.size);
  }

  lemma StillNotLapped(c: Config, s: State, s': State, a: Tid)
    requires NotLapped(c, s) && OnlyThread(s, s', a) && s'.ring == s.ring && s'.threads[a].Overflow?
    ensures NotLapped(c, s')
  {
  }

  lemma InvStorage(c: Config, s: State)
    requires ValidConfig(c) && Inv(c, s)
    ensures |s.storage| == c.size
  {
  }

  /** Only `p` pops, and its loaded head is the current one. */
  ghost predicate OneConsumer(s: State, p: Tid)
  {
    forall t :: t in s.threads ==>
      && !s.threads[t].Overflow?
      && (t != p ==> !s.threads[t].CLoad? && !s.threads[t].CSwap? && !s.threads[t].Reads())
      && (s.threads[t].CLoad? || s.threads[t].CSwap? ==> s.threads[t].head == s.ring.consHead)
  }

  lemma OneConsumerStep(c: Config, s: State, p: Tid, t: Tid, a: Action)
    requires ValidConfig(c) && Inv(c, s) && NotLapped(c, s) && OneConsumer(s, p) && Enabled(c, s, t, a)
    requires a.Pop? ==> t == p
    ensures OneConsumer(Step(c, s, t, a), p)
  {
    if s.threads[t].CLoad? && a.Advance? {
      OverflowIff(c, s, t);
    }
    hide Inv, NotLapped;
    StepEffect(c, s, t, a);
    StepsOwn(c, s, t, a);
    hide Step;
  }

  /** Which thread state, and which change of the consumer head, one step can bring about. */
  lemma StepEffect(c: Config, s: State, t: Tid, a: Action)
    requires ValidConfig(c) && |s.storage| == c.size && Enabled(c, s, t, a)
    ensures var s', l := Step(c, s, t, a), s.threads[t];
      && t in s'.threads && (s'.ring.consHead == s.ring.consHead || (l.CSwap? && s'.threads[t].CCheck?))
      && (s'.threads[t].Overflow? ==> l.CLoad?)
      && (s'.threads[t].CLoad? ==> s'.threads[t].head == s.ring.consHead && (a.Pop? || l.CSwap?))
      && (s'.threads[t].CSwap? ==> l.CLoad? && s'.threads[t].head == l.head)
      && (s'.threads[t].Reads() ==> l.Reads() || l.CSwap?)
  {
    if s.threads[t].Writes() || s.threads[t].Reads() {
      HeadsKept(c, s, t);
    } else {
      EffectEarly(c, s, t, a);
    }
    hide Step;
  }

  /** The same for a thread without a reservation. */
  lemma EffectEarly(c: Config, s: State, t: Tid, a: Action)
    requires ValidConfig(c) && |s.storage| == c.size && Enabled(c, s, t, a)
    requires !s.threads[t].Writes() && !s.threads[t].Reads()
    ensures var s', l := Step(c, s, t, a), s.threads[t];
      && t in s'.threads && (s'.ring.consHead == s.ring.consHead || (l.CSwap? && s'.threads[t].CCheck?))
      && (s'.threads[t].Overflow? ==> l.CLoad?)
      && (s'.threads[t].CLoad? ==> s'.threads[t].head == s.ring.consHead && (a.Pop? || l.CSwap?))
      && (s'.threads[t].CSwap? ==> l.CLoad? && s'.threads[t].head == l.head)
      && (s'.threads[t].Reads() ==> l.CSwap?)
  {
    hide Slot, Free, Ready, StepPCopy, StepCRead, StepCDestroy, CheckWrite, CheckRead;
  }

  /** When a single thread does all the popping, the ready-entries check never fails. */
  lemma {:induction false} OneConsumerNeverOverflows(
      c: Config, s: State, sched: seq<(Tid, Action)>, s': State, p: Tid)
    requires ValidConfig(c) && Inv(c, s) && OneConsumer(s, p) && Runs(c, s, sched, s')
    requires forall i :: 0 <= i < |sched| && sched[i].1.Pop? ==> sched[i].0 == p
    ensures forall t :: t in s'.threads ==> !s'.threads[t].Overflow?
    decreases |sched|
  {
    if sched != [] {
      var (t, a) := sched[0];
      OneConsumerStep(c, s, p, t, a);
      StepInv(c, s, t, a);
      hide Inv, NotLapped, Step, Enabled;
      OneConsumerNeverOverflows(c, Step(c, s, t, a), sched[1..], s', p);
    }
  }
}
