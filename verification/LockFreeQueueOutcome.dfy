/** What a finished call has done with its arguments: everything, or less after it saw too little room or
    too few items. */
module LockFreeQueueOutcome {
  import opened Bits
  import opened LockFreeQueue
  import opened LockFreeQueueProof
  import opened LockFreeQueueTheorems
  import opened LockFreeQueueOrder
  import opened LockFreeQueueSolo

  /** How many items fit into the ring. */
  function Room(c: Config, s: State): int {
    s.ring.consTail + c.size - 1 - s.ring.prodHead
  }

  /** How many items can be popped. */
  function Available(s: State): int {
    s.ring.prodTail - s.ring.consHead
  }

  /** A call that gets no more than `n` of the `want` items when this many are there. */
  predicate Short(there: int, want: nat, partial: bool, n: nat) {
    if partial then there <= n else n == 0 && there < want
  }

  /** All, or part of it if that is asked for, or nothing. */
  predicate Amount(want: nat, partial: bool, n: nat) {
    n <= want && (partial || n == 0 || n == want)
  }

  /** Thread `t` is about to look at the ring and there is no room for more than `n`. */
  ghost predicate NoRoom(c: Config, s: State, t: Tid, want: nat, partial: bool, n: nat) {
    t in s.threads && s.threads[t].PLoad? && Short(Room(c, s), want, partial, n)
  }

  ghost predicate NoItems(s: State, t: Tid, want: nat, partial: bool, n: nat) {
    t in s.threads && s.threads[t].CLoad? && Short(Available(s), want, partial, n)
  }

  /** Some state of the run is like that. */
  ghost predicate SeesNoRoom(c: Config, s: State, sched: seq<(Tid, Action)>, t: Tid, want: nat, partial: bool, n: nat)
    requires ValidConfig(c)
    decreases |sched|
  {
    || NoRoom(c, s, t, want, partial, n)
    || (sched != [] && |s.storage| == c.size && Enabled(c, s, sched[0].0, sched[0].1)
        && SeesNoRoom(c, Step(c, s, sched[0].0, sched[0].1), sched[1..], t, want, partial, n))
  }

  ghost predicate SeesNoItems(c: Config, s: State, sched: seq<(Tid, Action)>, t: Tid, want: nat, partial: bool, n: nat)
    requires ValidConfig(c)
    decreases |sched|
  {
    || NoItems(s, t, want, partial, n)
    || (sched != [] && |s.storage| == c.size && Enabled(c, s, sched[0].0, sched[0].1)
        && SeesNoItems(c, Step(c, s, sched[0].0, sched[0].1), sched[1..], t, want, partial, n))
  }

  /** The thread only goes on with its call. */
  ghost predicate OnlyAdvances(sched: seq<(Tid, Action)>, t: Tid) {
    forall i :: 0 <= i < |sched| && sched[i].0 == t ==> sched[i].1 == Advance
  }

  lemma {:induction false} IdleStays(c: Config, s: State, sched: seq<(Tid, Action)>, s': State, t: Tid)
    requires ValidConfig(c) && Runs(c, s, sched, s') && OnlyAdvances(sched, t) && t in s.threads && s.threads[t].Idle?
    ensures t in s'.threads && s'.threads[t] == s.threads[t]
    decreases |sched|
  {
    hide NotLapped, Step;
    if sched != [] {
      OthersKept(c, s, sched[0].0, sched[0].1, t);
      IdleStays(c, Step(c, s, sched[0].0, sched[0].1), sched[1..], s', t);
    }
  }

  // ---------------------------------------------------------------- insert

  /** Inside `insert` of these items; `PSwap` and what follows hold how many it takes. */
  ghost predicate Inserting(l: Local, data: seq<Item>, partial: bool) {
    || (l.PLoad? && l.data == data && l.partial == partial)
    || (l.PSwap? && l.data == data && l.partial == partial && Amount(|data|, partial, l.n))
    || (l.Writes() && l.data == data && Amount(|data|, partial, l.n))
  }

  ghost predicate InsertOk(l: Local, data: seq<Item>, partial: bool) {
    l.Idle? && l.last.Inserted? && l.last.data == data && Amount(|data|, partial, l.last.n)
  }

  /** The length that is decided on, if it is. */
  ghost predicate Takes(l: Local, n: nat) {
    (l.PSwap? || l.CSwap? || l.Writes() || l.Reads()) && l.n == n
  }

  /** A step inside `insert` stays in it, or ends it with an outcome that the state explains; the number
      of items is decided on when the state explains that it is not larger. */
  ghost predicate InsertNext(c: Config, s: State, t: Tid, data: seq<Item>, partial: bool, l': Local)
    requires t in s.threads
  {
    && (Inserting(l', data, partial) || InsertOk(l', data, partial))
    && (forall n: nat :: Takes(l', n) && n < |data| ==> Explained(c, s, t, data, partial, n))
    && (InsertOk(l', data, partial) && l'.last.n < |data| ==> Explained(c, s, t, data, partial, l'.last.n))
  }

  ghost predicate Explained(c: Config, s: State, t: Tid, data: seq<Item>, partial: bool, n: nat)
    requires t in s.threads
  {
    Takes(s.threads[t], n) || NoRoom(c, s, t, |data|, partial, n)
  }

  lemma InsertLook(c: Config, s: State, t: Tid, data: seq<Item>, partial: bool)
    requires ValidConfig(c) && Inv(c, s) && NotLapped(c, s) && t in s.threads && s.threads[t].PLoad?
    requires Inserting(s.threads[t], data, partial)
    ensures InsertNext(c, s, t, data, partial, LoadConsTail(c, s, s.threads[t]))
  {
    hide Tiled, Slots, Slot, WriterOk, ReaderOk, ResultOk, Sole;
    var l := s.threads[t];
    assert LocalOk(c, s.ring, t, l);
    ModSmall(c.size - 1 + s.ring.consTail - l.head);
  }

  lemma InsertStep(c: Config, s: State, t: Tid, data: seq<Item>, partial: bool)
    requires ValidConfig(c) && Inv(c, s) && NotLapped(c, s) && Enabled(c, s, t, Advance)
    requires Inserting(s.threads[t], data, partial)
    ensures InsertNext(c, s, t, data, partial, Step(c, s, t, Advance).threads[t])
  {
    hide Tiled, Slots, Slot, ReaderOk, ResultOk, Sole, Free, NotLapped;
    var l := s.threads[t];
    assert LocalOk(c, s.ring, t, l);
    if l.PLoad? {
      InsertLook(c, s, t, data, partial);
    } else if l.PCheck? {
      CheckWritePasses(c, s, t);
    } else if l.PCopy? {
      CopyTarget(c, s, t);
    }
  }

  /** Whoever makes the step. */
  lemma InsertAny(c: Config, s: State, u: Tid, a: Action, t: Tid, data: seq<Item>, partial: bool)
    requires ValidConfig(c) && Inv(c, s) && NotLapped(c, s) && Enabled(c, s, u, a) && (u == t ==> a == Advance)
    requires t in s.threads && Inserting(s.threads[t], data, partial)
    ensures |s.storage| == c.size
    ensures var m := Step(c, s, u, a); Inv(c, m) && t in m.threads && InsertNext(c, s, t, data, partial, m.threads[t])
  {
    InvStorage(c, s);
    StepInv(c, s, u, a);
    if u == t {
      InsertStep(c, s, t, data, partial);
      ThreadKept(c, s, t, a);
    } else {
      hide Inv, Enabled, Step;
      OthersKept(c, s, u, a, t);
    }
  }

  lemma {:induction false} InsertRun(c: Config, s: State, sched: seq<(Tid, Action)>, s': State, t: Tid,
                                     data: seq<Item>, partial: bool)
    requires ValidConfig(c) && Inv(c, s) && Runs(c, s, sched, s') && OnlyAdvances(sched, t)
    requires t in s.threads && Inserting(s.threads[t], data, partial)
    requires t in s'.threads && s'.threads[t].Idle?
    ensures InsertOk(s'.threads[t], data, partial)
    ensures var n := s'.threads[t].last.n;
      n < |data| ==> Takes(s.threads[t], n) || SeesNoRoom(c, s, sched, t, |data|, partial, n)
    decreases |sched|
  {
    hide Inv, NotLapped, Step, Enabled, NoRoom, NoItems, Takes;
    if sched != [] {
      var (u, a) := sched[0];
      InsertAny(c, s, u, a, t, data, partial);
      var m := Step(c, s, u, a);
      if m.threads[t].Idle? {
        IdleStays(c, m, sched[1..], s', t);
      } else {
        InsertRun(c, m, sched[1..], s', t, data, partial);
      }
    }
  }

  /** Over every run: a finished `insert` has inserted all its items, or part of them if that was asked
      for, or none; and if not all, it has passed through a state in which the ring had no room for more. */
  lemma InsertOutcome(c: Config, s0: State, x: seq<(Tid, Action)>, s: State, t: Tid, data: seq<Item>, partial: bool,
                      y: seq<(Tid, Action)>, s': State)
    requires ValidConfig(c) && Init(c, s0) && Runs(c, s0, x, s)
    requires |s.storage| == c.size && Enabled(c, s, t, Insert(data, partial))
    requires Runs(c, Step(c, s, t, Insert(data, partial)), y, s') && OnlyAdvances(y, t)
    requires t in s'.threads && s'.threads[t].Idle?
    ensures var r := s'.threads[t].last;
      && r.Inserted? && r.data == data && Amount(|data|, partial, r.n)
      && (r.n < |data| ==> SeesNoRoom(c, Step(c, s, t, Insert(data, partial)), y, t, |data|, partial, r.n))
  {
    InitInv(c, s0);
    RunInv(c, s0, x, s);
    RunsEnd(c, s0, x, s);
    StepInv(c, s, t, Insert(data, partial));
    hide Inv, NotLapped, Runs, Enabled, SeesNoRoom;
    InsertRun(c, Step(c, s, t, Insert(data, partial)), y, s', t, data, partial);
  }

  /** Two undisturbed steps of the thread reserve the positions up to `head`. */
  ghost predicate ReservesIn2(c: Config, s: State, t: Tid, head: nat)
    requires ValidConfig(c)
  {
    && |s.storage| == c.size && Enabled(c, s, t, Advance)
    && var m := Step(c, s, t, Advance);
    && |m.storage| == c.size && Enabled(c, m, t, Advance)
    && Step(c, m, t, Advance).threads[t].Writes() && Step(c, m, t, Advance).ring.prodHead == head
  }

  ghost predicate ClaimsIn2(c: Config, s: State, t: Tid, head: nat)
    requires ValidConfig(c)
  {
    && |s.storage| == c.size && Enabled(c, s, t, Advance)
    && var m := Step(c, s, t, Advance);
    && |m.storage| == c.size && Enabled(c, m, t, Advance)
    && Step(c, m, t, Advance).threads[t].Reads() && Step(c, m, t, Advance).ring.consHead == head
  }

  /** A swap fails only because the head has moved on; three undisturbed steps later the items are
      reserved, if the ring has room for them. */
  lemma RetryReserves(c: Config, s: State, t: Tid)
    requires ValidConfig(c) && Inv(c, s) && NotLapped(c, s) && t in s.threads && s.threads[t].PSwap?
    requires !s.threads[t].partial && |s.threads[t].data| <= Room(c, s)
    ensures var s1 := Step(c, s, t, Advance);
      && |s1.storage| == c.size && (s1.threads[t].Writes() <==> s.threads[t].head == s.ring.prodHead)
      && (!s1.threads[t].Writes() ==> s.threads[t].head < s.ring.prodHead)
      && (!s1.threads[t].Writes() ==> ReservesIn2(c, s1, t, s.ring.prodHead + |s.threads[t].data|))
  {
    hide Tiled, Slots, Slot;
    var l := s.threads[t];
    assert LocalOk(c, s.ring, t, l);
    StepInv(c, s, t, Advance);
    AtPSwap(c, s, t);
    if s.ring.prodHead % WORD == l.head % WORD { WrapInjective(s.ring.prodHead, l.head); }
    var s1 := Step(c, s, t, Advance);
    if l.head < s.ring.prodHead {
      hide Inv, NotLapped, Step;
      RoomFor(c, s1, t);
      AtPSwap(c, Step(c, s1, t, Advance), t);
    }
  }

  // ---------------------------------------------------------------- pop

  ghost predicate Popping(l: Local, count: nat, partial: bool) {
    || (l.CLoad? && l.count == count && l.partial == partial)
    || (l.CSwap? && l.count == count && l.partial == partial && Amount(count, partial, l.n))
    || (l.Reads() && l.count == count && Amount(count, partial, l.n))
  }

  ghost predicate PopOk(l: Local, count: nat, partial: bool) {
    l.Idle? && l.last.Popped? && l.last.count == count && Amount(count, partial, |l.last.items|)
  }

  ghost predicate PopNext(s: State, t: Tid, count: nat, partial: bool, l': Local)
    requires t in s.threads
  {
    && (Popping(l', count, partial) || PopOk(l', count, partial) || l'.Overflow?)
    && (forall n: nat :: Takes(l', n) && n < count ==> Accounted(s, t, count, partial, n))
    && (PopOk(l', count, partial) && |l'.last.items| < count ==> Accounted(s, t, count, partial, |l'.last.items|))
  }

  ghost predicate Accounted(s: State, t: Tid, count: nat, partial: bool, n: nat)
    requires t in s.threads
  {
    Takes(s.threads[t], n) || NoItems(s, t, count, partial, n)
  }

  lemma PopLook(c: Config, s: State, t: Tid, count: nat, partial: bool)
    requires ValidConfig(c) && Inv(c, s) && NotLapped(c, s) && t in s.threads && s.threads[t].CLoad?
    requires Popping(s.threads[t], count, partial)
    ensures PopNext(s, t, count, partial, LoadProdTail(c, s, s.threads[t]))
  {
    hide Tiled, Slots, Slot, WriterOk, ReaderOk, ResultOk, Sole;
    var l := s.threads[t];
    assert LocalOk(c, s.ring, t, l);
    ModSmall(s.ring.prodTail - l.head);
  }

  lemma PopItem(c: Config, s: State, t: Tid)
    requires ValidConfig(c) && Inv(c, s) && t in s.threads && (s.threads[t].CRead? || s.threads[t].CDestroy?)
    ensures var l := s.threads[t];
      && (l.CRead? ==> s.storage[Slot(c, l.head + |l.out|)].Some?)
      && (l.CDestroy? ==> 0 < |l.out| && s.storage[Slot(c, l.head + |l.out| - 1)].Some?)
  {
    hide Tiled, Slots, Slot, WriterOk, ResultOk, Sole;
    var l := s.threads[t];
    assert LocalOk(c, s.ring, t, l);
    ReadTarget(c, s, t, if l.CRead? then l.head + |l.out| else l.head + |l.out| - 1);
  }

  lemma PopStep(c: Config, s: State, t: Tid, count: nat, partial: bool)
    requires ValidConfig(c) && Inv(c, s) && NotLapped(c, s) && Enabled(c, s, t, Advance)
    requires Popping(s.threads[t], count, partial)
    ensures PopNext(s, t, count, partial, Step(c, s, t, Advance).threads[t])
  {
    hide Tiled, Slots, Slot, WriterOk, ResultOk, Sole, Ready, NotLapped;
    var l := s.threads[t];
    assert LocalOk(c, s.ring, t, l);
    if l.CLoad? {
      PopLook(c, s, t, count, partial);
    } else if l.CCheck? {
      CheckReadPasses(c, s, t);
    } else if l.CRead? || l.CDestroy? {
      PopItem(c, s, t);
    }
  }

  lemma {:induction false} OverflowStays(c: Config, s: State, sched: seq<(Tid, Action)>, s': State, t: Tid)
    requires ValidConfig(c) && Runs(c, s, sched, s') && t in s.threads && s.threads[t].Overflow?
    ensures t in s'.threads && s'.threads[t].Overflow?
    decreases |sched|
  {
    hide NotLapped, Step;
    if sched != [] {
      OthersKept(c, s, sched[0].0, sched[0].1, t);
      OverflowStays(c, Step(c, s, sched[0].0, sched[0].1), sched[1..], s', t);
    }
  }

  /** Whoever makes the step. */
  lemma PopAny(c: Config, s: State, u: Tid, a: Action, t: Tid, count: nat, partial: bool)
    requires ValidConfig(c) && Inv(c, s) && NotLapped(c, s) && Enabled(c, s, u, a) && (u == t ==> a == Advance)
    requires t in s.threads && Popping(s.threads[t], count, partial)
    ensures |s.storage| == c.size
    ensures var m := Step(c, s, u, a); Inv(c, m) && t in m.threads && PopNext(s, t, count, partial, m.threads[t])
  {
    InvStorage(c, s);
    StepInv(c, s, u, a);
    if u == t {
      PopStep(c, s, t, count, partial);
      ThreadKept(c, s, t, a);
    } else {
      hide Inv, Enabled, Step;
      OthersKept(c, s, u, a, t);
    }
  }

  lemma {:induction false} PopRun(c: Config, s: State, sched: seq<(Tid, Action)>, s': State, t: Tid,
                                  count: nat, partial: bool)
    requires ValidConfig(c) && Inv(c, s) && Runs(c, s, sched, s') && OnlyAdvances(sched, t)
    requires t in s.threads && Popping(s.threads[t], count, partial)
    requires t in s'.threads && s'.threads[t].Idle?
    ensures PopOk(s'.threads[t], count, partial)
    ensures var n := |s'.threads[t].last.items|;
      n < count ==> Takes(s.threads[t], n) || SeesNoItems(c, s, sched, t, count, partial, n)
    decreases |sched|
  {
    hide Inv, NotLapped, Step, Enabled, NoRoom, NoItems, Takes;
    if sched != [] {
      var (u, a) := sched[0];
      PopAny(c, s, u, a, t, count, partial);
      var m := Step(c, s, u, a);
      if m.threads[t].Idle? {
        IdleStays(c, m, sched[1..], s', t);
      } else if m.threads[t].Overflow? {
        OverflowStays(c, m, sched[1..], s', t);
      } else {
        PopRun(c, m, sched[1..], s', t, count, partial);
      }
    }
  }

  /** The same for `pop`. */
  lemma RetryClaims(c: Config, s: State, t: Tid)
    requires ValidConfig(c) && Inv(c, s) && NotLapped(c, s) && t in s.threads && s.threads[t].CSwap?
    requires !s.threads[t].partial && s.threads[t].count <= Available(s)
    ensures var s1 := Step(c, s, t, Advance);
      && |s1.storage| == c.size && (s1.threads[t].Reads() <==> s.threads[t].head == s.ring.consHead)
      && (!s1.threads[t].Reads() ==> s.threads[t].head < s.ring.consHead)
      && (!s1.threads[t].Reads() ==> ClaimsIn2(c, s1, t, s.ring.consHead + s.threads[t].count))
  {
    hide Tiled, Slots, Slot;
    var l := s.threads[t];
    assert LocalOk(c, s.ring, t, l);
    StepInv(c, s, t, Advance);
    AtCSwap(c, s, t);
    if s.ring.consHead % WORD == l.head % WORD { WrapInjective(s.ring.consHead, l.head); }
    var s1 := Step(c, s, t, Advance);
    if l.head < s.ring.consHead {
      hide Inv, NotLapped, Step;
      ItemsFor(c, s1, t);
      AtCSwap(c, Step(c, s1, t, Advance), t);
    }
  }

  /** Over every run: a finished `pop` has popped as many items as it was asked for, or fewer if that was
      allowed, or none; and if not all, it has passed through a state in which no more were ready. */
  lemma PopOutcome(c: Config, s0: State, x: seq<(Tid, Action)>, s: State, t: Tid, count: nat, partial: bool,
                   y: seq<(Tid, Action)>, s': State)
    requires ValidConfig(c) && Init(c, s0) && Runs(c, s0, x, s)
    requires |s.storage| == c.size && Enabled(c, s, t, Pop(count, partial))
    requires Runs(c, Step(c, s, t, Pop(count, partial)), y, s') && OnlyAdvances(y, t)
    requires t in s'.threads && s'.threads[t].Idle?
    ensures var r := s'.threads[t].last;
      && r.Popped? && r.count == count && Amount(count, partial, |r.items|)
      && (|r.items| < count ==> SeesNoItems(c, Step(c, s, t, Pop(count, partial)), y, t, count, partial, |r.items|))
  {
    InitInv(c, s0);
    RunInv(c, s0, x, s);
    RunsEnd(c, s0, x, s);
    StepInv(c, s, t, Pop(count, partial));
    hide Inv, NotLapped, Runs, Enabled, SeesNoItems;
    PopRun(c, Step(c, s, t, Pop(count, partial)), y, s', t, count, partial);
  }
}
