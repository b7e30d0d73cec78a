/** Real-time order: a call that finished before another began has the earlier stretch of the stream. */
module LockFreeQueueOrder {
  import opened LockFreeQueue
  import opened LockFreeQueueProof
  import opened LockFreeQueueTheorems

  /** The call that the thread is in, or has finished last, is about positions from `p` on if it is an
      insert, and from `q` on if it is a pop. */
  ghost predicate From(l: Local, p: nat, q: nat) {
    if l.Idle? then
      match l.last
      case NotRun => true
      case Inserted(_, _, at) => p <= at
      case Popped(_, _, at) => q <= at
    else if l.PLoad? || l.PSwap? || l.Writes() then p <= l.head
    else l.CLoad? || l.CSwap? || l.Reads() ==> q <= l.head
  }

  /** The heads never go back. */
  lemma HeadsGrow(c: Config, s: State, t: Tid, a: Action)
    requires ValidConfig(c) && Inv(c, s) && NotLapped(c, s) && Enabled(c, s, t, a)
    ensures var s' := Step(c, s, t, a); s.ring.prodHead <= s'.ring.prodHead && s.ring.consHead <= s'.ring.consHead
  {
    StepInv(c, s, t, a);
    RingGrows(c, s, t, a);
    var s' := Step(c, s, t, a);
    assert Lengths(s.ring) && Lengths(s'.ring);
  }

  lemma RingGrows(c: Config, s: State, t: Tid, a: Action)
    requires ValidConfig(c) && |s.storage| == c.size && Enabled(c, s, t, a)
    ensures var s' := Step(c, s, t, a); s.ring.log <= s'.ring.log && s.ring.reader <= s'.ring.reader
  {
  }

  lemma FromStep(c: Config, s: State, t: Tid, p: nat, q: nat)
    requires ValidConfig(c) && |s.storage| == c.size && Enabled(c, s, t, Advance)
    requires p <= s.ring.prodHead && q <= s.ring.consHead && From(s.threads[t], p, q)
    ensures From(Step(c, s, t, Advance).threads[t], p, q)
  {
  }

  lemma OthersKept(c: Config, s: State, t: Tid, a: Action, u: Tid)
    requires ValidConfig(c) && |s.storage| == c.size && Enabled(c, s, t, a) && u != t && u in s.threads
    ensures u in Step(c, s, t, a).threads && Step(c, s, t, a).threads[u] == s.threads[u]
  {
  }

  lemma ThreadKept(c: Config, s: State, t: Tid, a: Action)
    requires ValidConfig(c) && |s.storage| == c.size && Enabled(c, s, t, a)
    ensures t in Step(c, s, t, a).threads
  {
  }

  lemma {:induction false} FromRun(c: Config, s: State, sched: seq<(Tid, Action)>, s': State, t: Tid, p: nat, q: nat)
    requires ValidConfig(c) && Inv(c, s) && Runs(c, s, sched, s') && t in s.threads
    requires forall i :: 0 <= i < |sched| && sched[i].0 == t ==> sched[i].1 == Advance
    requires p <= s.ring.prodHead && q <= s.ring.consHead && From(s.threads[t], p, q)
    ensures t in s'.threads && From(s'.threads[t], p, q)
    decreases |sched|
  {
    if sched != [] {
      var (u, a) := sched[0];
      StepInv(c, s, u, a);
      HeadsGrow(c, s, u, a);
      hide Inv, NotLapped, From, Step, Enabled;
      if u == t {
        assert sched[0].0 == t;
        FromStep(c, s, t, p, q);
        ThreadKept(c, s, t, a);
      } else {
        OthersKept(c, s, u, a, t);
      }
      FromRun(c, Step(c, s, u, a), sched[1..], s', t, p, q);
    }
  }

  lemma CallFrom(c: Config, s: State, t: Tid, a: Action)
    requires ValidConfig(c) && |s.storage| == c.size && Enabled(c, s, t, a) && a != Advance
    ensures var s' := Step(c, s, t, a);
      t in s'.threads && s'.ring == s.ring && From(s'.threads[t], s.ring.prodHead, s.ring.consHead)
  {
  }

  /** The stretch of the stream that one finished call reports ends where that of another starts, or
      before: inserts among each other, pops among each other, and a pop against an insert. */
  ghost predicate Precedes(r: Result, r': Result) {
    match (r, r')
    case (Inserted(_, n, at), Inserted(_, _, at')) => n > 0 ==> at + n <= at'
    case (Popped(_, items, at), Popped(_, _, at')) => items != [] ==> at + |items| <= at'
    case (Popped(_, items, at), Inserted(_, _, at')) => items != [] ==> at + |items| <= at'
    case _ => true
  }

  lemma Follows(c: Config, s: State, u: Tid, l: Local)
    requires ValidConfig(c) && Inv(c, s) && u in s.threads && s.threads[u].Idle?
    requires l.Idle? && From(l, s.ring.prodHead, s.ring.consHead)
    ensures Precedes(s.threads[u].last, l.last)
  {
    assert LocalOk(c, s.ring, u, s.threads[u]);
  }

  /** A call of thread `t` begins in state `s` of a run and is finished in `s'`: the calls that were
      finished in `s` precede it in the stream. */
  lemma RealTime(c: Config, s0: State, x: seq<(Tid, Action)>, s: State, t: Tid, a: Action,
                 y: seq<(Tid, Action)>, s': State)
    requires ValidConfig(c) && Init(c, s0) && Runs(c, s0, x, s) && a != Advance
    requires |s.storage| == c.size && Enabled(c, s, t, a) && Runs(c, Step(c, s, t, a), y, s')
    requires forall i :: 0 <= i < |y| && y[i].0 == t ==> y[i].1 == Advance
    requires t in s'.threads && s'.threads[t].Idle?
    ensures forall u :: u in s.threads && s.threads[u].Idle? ==> Precedes(s.threads[u].last, s'.threads[t].last)
  {
    InitInv(c, s0);
    RunInv(c, s0, x, s);
    RunsEnd(c, s0, x, s);
    StepInv(c, s, t, a);
    CallFrom(c, s, t, a);
    hide Inv, NotLapped, From, Step, Enabled, Precedes, Runs;
    FromRun(c, Step(c, s, t, a), y, s', t, s.ring.prodHead, s.ring.consHead);
    forall u | u in s.threads && s.threads[u].Idle? ensures Precedes(s.threads[u].last, s'.threads[t].last) {
      Follows(c, s, u, s'.threads[t]);
    }
  }

  lemma {:induction false} RunsEnd(c: Config, s: State, sched: seq<(Tid, Action)>, s': State)
    requires ValidConfig(c) && Runs(c, s, sched, s')
    ensures NotLapped(c, s')
    decreases |sched|
  {
    hide NotLapped, Step, Enabled;
    if sched != [] {
      var (t, a) := sched[0];
      RunsEnd(c, Step(c, s, t, a), sched[1..], s');
    }
  }
}
