/** What the ring guarantees over whole runs: safety, first-in first-out delivery, progress, and
    the exact condition under which the ready-entries check of `pop` fires. */
module LockFreeQueueTheorems {
  import opened LockFreeQueue
  import opened LockFreeQueueProof

  /** `sched` takes `s` to `s'`; in no state on the way is a thread lapped. */
  ghost predicate Runs(c: Config, s: State, sched: seq<(Tid, Action)>, s': State)
    requires ValidConfig(c)
    decreases |sched|
  {
    NotLapped(c, s) &&
    if sched == [] then s' == s
    else
      var (t, a) := sched[0];
      |s.storage| == c.size && Enabled(c, s, t, a) && Runs(c, Step(c, s, t, a), sched[1..], s')
  }

  lemma {:induction false} RunInv(c: Config, s: State, sched: seq<(Tid, Action)>, s': State)
    requires ValidConfig(c) && Inv(c, s) && Runs(c, s, sched, s')
    ensures Inv(c, s')
    decreases |sched|
  {
    if sched != [] {
      var (t, a) := sched[0];
      StepInv(c, s, t, a);
      RunInv(c, Step(c, s, t, a), sched[1..], s');
    }
  }

  /** Over every run: the counters stay ordered and within one turn of the ring, no check other
      than the ready-entries one fails, and no slot is read dead or overwritten live. */
  lemma Safety(c: Config, s0: State, sched: seq<(Tid, Action)>, s: State)
    requires ValidConfig(c) && Init(c, s0)
    requires Runs(c, s0, sched, s)
    ensures s.ring.consTail <= s.ring.consHead <= s.ring.prodTail <= s.ring.prodHead <= s.ring.consTail + c.size - 1
    ensures forall t :: t in s.threads ==> !s.threads[t].Broken?
  {
    hide Tiled, Slots, Sole, Runs, ResultOk, WriterOk, ReaderOk;
    InitInv(c, s0);
    RunInv(c, s0, sched, s);
    forall t | t in s.threads ensures !s.threads[t].Broken? {
      assert LocalOk(c, s.ring, t, s.threads[t]);
    }
  }

  /** The stretch of the stream that a finished call reports. */
  ghost predicate Reported(s: State, r: Result) {
    match r
    case NotRun => true
    case Inserted(data, n, at) =>
      n > 0 ==> n <= |data| && at + n <= s.ring.prodTail <= |s.ring.log| && s.ring.log[at..at + n] == data[..n]
    case Popped(count, items, at) =>
      && |items| <= count
      && (items != [] ==> at + |items| <= |s.delivered| && s.delivered[at..at + |items|] == items)
  }

  lemma ReportOk(c: Config, s: State, t: Tid)
    requires ValidConfig(c) && Inv(c, s) && t in s.threads && s.threads[t].Idle?
    ensures Reported(s, s.threads[t].last)
  {
    hide Tiled, Slots, Sole;
    assert LocalOk(c, s.ring, t, s.threads[t]);
  }

  /** Over every run the ring is a first-in first-out queue: the items handed out by committed
      pops, in commit order, are exactly the oldest reserved items, each once; and every finished
      call reports the stretch of the stream it inserted or removed. */
  lemma Fifo(c: Config, s0: State, sched: seq<(Tid, Action)>, s: State)
    requires ValidConfig(c) && Init(c, s0)
    requires Runs(c, s0, sched, s)
    ensures s.ring.consTail <= |s.ring.log| && s.delivered == s.ring.log[..s.ring.consTail]
    ensures forall t :: t in s.threads && s.threads[t].Idle? ==> Reported(s, s.threads[t].last)
  {
    hide Tiled, Slots, Sole, Locals, Runs, Reported;
    InitInv(c, s0);
    RunInv(c, s0, sched, s);
    forall t | t in s.threads && s.threads[t].Idle? ensures Reported(s, s.threads[t].last) {
      ReportOk(c, s, t);
    }
  }

  ghost predicate Owns(l: Local, k: int) {
    (l.Writes() || l.Reads()) && l.head <= k < l.head + l.n
  }

  /** Two threads never own positions that share a slot. */
  lemma Exclusive(c: Config, s: State, t: Tid, u: Tid, j: nat, k: nat)
    requires ValidConfig(c) && Inv(c, s)
    requires t in s.threads && u in s.threads && t != u
    requires Owns(s.threads[t], j) && Owns(s.threads[u], k)
    ensures Slot(c, j) != Slot(c, k)
  {
    assert LocalOk(c, s.ring, t, s.threads[t]);
    assert LocalOk(c, s.ring, u, s.threads[u]);
    OwnedInWindow(c, s, t, j);
    OwnedInWindow(c, s, u, k);
    if j < k {
      SlotInjective(c, j, k);
    } else if k < j {
      SlotInjective(c, k, j);
    }
  }

  lemma OwnedInWindow(c: Config, s: State, t: Tid, k: nat)
    requires ValidConfig(c) && Inv(c, s) && t in s.threads && Owns(s.threads[t], k)
    ensures s.threads[t].Writes() ==> s.ring.prodTail <= k < s.ring.prodHead && s.ring.writer[k] == t
    ensures s.threads[t].Reads() ==> s.ring.consTail <= k < s.ring.consHead && s.ring.reader[k] == t
    ensures s.ring.consTail <= k < s.ring.consTail + c.size
  {
    assert LocalOk(c, s.ring, t, s.threads[t]);
  }

  /** Whenever a write reservation is pending, the thread holding the oldest one can step, so a
      waiting committer is never stuck behind nobody. */
  lemma WriterProgress(c: Config, s: State) returns (t: Tid)
    requires ValidConfig(c) && Inv(c, s) && s.ring.prodTail < s.ring.prodHead
    ensures t in s.threads && s.threads[t].Writes() && s.threads[t].head == s.ring.prodTail
    ensures Enabled(c, s, t, Advance) && Step(c, s, t, Advance).threads[t] != s.threads[t]
  {
    var k := s.ring.prodTail;
    assert WriteOwned(s, k);
    t := s.ring.writer[k];
    assert LocalOk(c, s.ring, t, s.threads[t]);
    if s.threads[t].PCopy? { CopyTarget(c, s, t); }
  }

  lemma ReaderProgress(c: Config, s: State) returns (t: Tid)
    requires ValidConfig(c) && Inv(c, s) && s.ring.consTail < s.ring.consHead
    ensures t in s.threads && s.threads[t].Reads() && s.threads[t].head == s.ring.consTail
    ensures Enabled(c, s, t, Advance) && Step(c, s, t, Advance).threads[t] != s.threads[t]
  {
    var k := s.ring.consTail;
    assert ReadOwned(s, k);
    t := s.ring.reader[k];
    assert LocalOk(c, s.ring, t, s.threads[t]);
  }

  /** `insert` gives up only in a state that lacks room: nothing to insert, no free slot, or too few
      of them when all items are wanted at once. With an up to date head it then always does. */
  lemma InsertRefusedWhenFull(c: Config, s: State, t: Tid)
    requires ValidConfig(c) && Inv(c, s) && NotLapped(c, s) && t in s.threads && s.threads[t].PLoad?
    ensures var room, want := s.ring.consTail + c.size - 1 - s.ring.prodHead, |s.threads[t].data|;
      var full := want == 0 || room == 0 || (!s.threads[t].partial && room < want);
      && (Step(c, s, t, Advance).threads[t].Idle? ==> full)
      && (full && s.threads[t].head == s.ring.prodHead ==> Step(c, s, t, Advance).threads[t].Idle?)
  {
    hide Tiled, Slots, Slot;
    var l := s.threads[t];
    assert LocalOk(c, s.ring, t, l);
    ModSmall(c.size - 1 + s.ring.consTail - l.head);
  }

  /** `pop` gives up only in a state that lacks ready items, and with an up to date head it then
      always does. */
  lemma PopRefusedWhenEmpty(c: Config, s: State, t: Tid)
    requires ValidConfig(c) && Inv(c, s) && NotLapped(c, s) && t in s.threads && s.threads[t].CLoad?
    ensures var ready, want := s.ring.prodTail - s.ring.consHead, s.threads[t].count;
      var empty := want == 0 || ready == 0 || (!s.threads[t].partial && ready < want);
      && (Step(c, s, t, Advance).threads[t].Idle? ==> empty)
      && (empty && s.threads[t].head == s.ring.consHead ==> Step(c, s, t, Advance).threads[t].Idle?)
  {
    hide Tiled, Slots, Slot;
    var l := s.threads[t];
    assert LocalOk(c, s.ring, t, l);
    ModSmall(s.ring.prodTail - l.head);
  }

  /** The ready-entries check fires exactly when other consumers moved on far enough since this
      thread loaded the head. */
  lemma OverflowIff(c: Config, s: State, t: Tid)
    requires ValidConfig(c) && Inv(c, s) && NotLapped(c, s) && t in s.threads && s.threads[t].CLoad?
    ensures Step(c, s, t, Advance).threads[t].Overflow? <==> s.ring.prodTail - s.threads[t].head >= c.size
    ensures s.threads[t].head == s.ring.consHead ==> !Step(c, s, t, Advance).threads[t].Overflow?
  {
    hide Tiled, Slots, Slot;
    var l := s.threads[t];
    assert LocalOk(c, s.ring, t, l);
    ModSmall(s.ring.prodTail - l.head);
  }
}
