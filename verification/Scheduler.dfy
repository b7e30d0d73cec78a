/** `sched::Scheduler`: run queue levels, time quanta, selection of the next thread, deadlines. */
module Scheduler {
  import opened Bits
  import opened MinHeap

  const NUM_LEVELS := 32
  const USER_LEVEL := 4
  const MAX_LOOPS := 5
  const SLACK := 500

  /** Quantum of each level, in milliseconds; the source writes them in nanoseconds. */
  const QUANTA: seq<int> :=
    [3, 6, 12, 20, 5, 10, 15, 20, 25, 30, 35, 40, 45, 50, 55, 60,
     70, 80, 90, 100, 110, 120, 130, 140, 150, 175, 200, 225, 250, 300, 400, 500]

  function Quantum(level: int): (q: int)
    requires 0 <= level < NUM_LEVELS
    ensures 3_000_000 <= q <= 500_000_000
  {
    1_000_000 * QUANTA[level]
  }

  /** The kernel levels have quanta of 3, 6, 12 and 20 milliseconds; the user levels grow by 5, then by 10, 25
      and 100. */
  lemma QuantumSteps(level: int)
    requires 0 <= level < NUM_LEVELS
    ensures Quantum(level) == 1_000_000 *
      (if level < 3 then 3 * Pow2(level) else if level == 3 then 20
       else if level < 16 then 5 * (level - 3) else if level < 25 then 10 * (level - 9)
       else if level < 29 then 25 * (level - 18) else 100 * (level - 26))
  {
  }

  /** `getLevelFor`: clamps to the levels that exist and the thread may have; a level among those is
      kept. */
  function LevelFor(level: int, maxLevel: int): (l: int)
    ensures 0 <= maxLevel < NUM_LEVELS ==> maxLevel <= l < NUM_LEVELS
    ensures maxLevel <= level < NUM_LEVELS ==> l == level
  {
    var l := if level >= NUM_LEVELS then NUM_LEVELS - 1 else level;
    if l < maxLevel then maxLevel else l
  }

  // ---------------------------------------------------------------- threads

  /** A thread and its scheduler data. `expired` sums up the quanta it has used up. */
  class Thread {
    const kernelMode: bool
    const maxLevel: int
    var level: int
    var lastLevel: int
    var cpuTime: int
    var quantumTotal: int
    var quantumUsed: int
    var idle: bool
    var doNotSchedule: bool
    var runnable: bool
    var needsToDie: bool
    ghost var expired: int

    /** The level stays between the best one the thread may have and the last; the quantum is that of
        its level once it has one; every nanosecond of processor time is in a quantum. */
    ghost predicate Valid()
      reads this
    {
      && maxLevel == (if kernelMode then 0 else USER_LEVEL) && maxLevel <= level < NUM_LEVELS
      && (quantumTotal == 0 || quantumTotal == Quantum(level))
      && 0 <= cpuTime < WORD && 0 <= quantumUsed < WORD
      && cpuTime == (expired + quantumUsed) % WORD
    }

    /** `threadWasCreated`: a new thread starts at its best level. */
    constructor (kernelMode: bool)
      ensures Valid() && this.kernelMode == kernelMode && level == maxLevel && quantumTotal == quantumUsed == 0
      ensures !idle && !doNotSchedule && !runnable && !needsToDie
    {
      this.kernelMode := kernelMode;
      maxLevel := if kernelMode then 0 else USER_LEVEL;
      level := if kernelMode then 0 else USER_LEVEL;
      lastLevel := WORD - 1;
      cpuTime, quantumTotal, quantumUsed, expired := 0, 0, 0, 0;
      idle, doNotSchedule, runnable, needsToDie := false, false, false, false;
    }

    method UpdateQuantumLength()
      requires 0 <= maxLevel <= level < NUM_LEVELS
      modifies this`quantumTotal
      ensures quantumTotal == Quantum(level)
    {
      hide Quantum;
      quantumTotal := Quantum(LevelFor(level, maxLevel));
    }

    /** `updateQuantumUsed`: charges `nsec`; a thread that has used more than its quantum moves down
        one level, carries the excess over and gets the quantum of the new level. */
    method UpdateQuantumUsed(nsec: int) returns (spent: bool)
      requires Valid() && 0 <= nsec < WORD
      modifies this`level, this`lastLevel, this`cpuTime, this`quantumTotal, this`quantumUsed, this`expired
      ensures Valid() && cpuTime == (old(cpuTime) + nsec) % WORD
      ensures spent <==> (old(quantumUsed) + nsec) % WORD > old(quantumTotal)
      ensures level == if spent && old(level) < NUM_LEVELS - 1 then old(level) + 1 else old(level)
      ensures expired == old(expired) + (if spent then old(quantumTotal) else 0)
      ensures spent ==> quantumTotal == Quantum(level) && lastLevel == old(level)
      ensures !spent ==> lastLevel == old(lastLevel)
      ensures !spent ==> quantumTotal == old(quantumTotal) && quantumUsed <= quantumTotal
      ensures spent ==>
        (quantumUsed <= quantumTotal <==> (old(quantumUsed) + nsec) % WORD <= old(quantumTotal) + Quantum(level))
    {
      hide Quantum;
      Ledger(cpuTime, expired, quantumUsed, nsec, quantumTotal);
      cpuTime := (cpuTime + nsec) % WORD;
      var used := (quantumUsed + nsec) % WORD;
      if used > quantumTotal {
        lastLevel := level;
        level := level + 1;
        if level >= NUM_LEVELS {
          level := NUM_LEVELS - 1;
        }
        quantumUsed := used - quantumTotal;
        expired := expired + quantumTotal;
        UpdateQuantumLength();
        spent := true;
      } else {
        quantumUsed := used;
        spent := false;
      }
    }
  }

  /** The ledger balances modulo the word size, wrap-around included. */
  lemma Ledger(cpu: int, expired: int, used: int, nsec: int, total: int)
    requires cpu == (expired + used) % WORD
    ensures (cpu + nsec) % WORD == (expired + (used + nsec) % WORD) % WORD
  {
    ModAdd(expired + used, nsec, WORD);
    ModAdd(used + nsec, expired, WORD);
  }

  /** A thread that is charged one second at once is left with more used than its next quantum. */
  method ExcessOutgrows() returns (t: Thread, spent: bool)
    ensures spent && t.quantumUsed > t.quantumTotal
  {
    t := new Thread(false);
    t.UpdateQuantumLength();
    assert Quantum(USER_LEVEL) == 5_000_000 && Quantum(USER_LEVEL + 1) == 10_000_000;
    spent := t.UpdateQuantumUsed(1_000_000_000);
  }

  // ---------------------------------------------------------------- run queues

  predicate Eligible(t: Thread)
    reads t
  {
    !t.needsToDie && t.runnable
  }

  /** How many threads at the front of a queue are passed over. */
  ghost function Skip(q: seq<Thread>): (k: int)
    reads q
    ensures 0 <= k <= |q|
    ensures k < |q| ==> Eligible(q[k])
    ensures forall i :: 0 <= i < k ==> !Eligible(q[i])
  {
    if q == [] || Eligible(q[0]) then 0 else 1 + Skip(q[1..])
  }

  /** Those threads that are supposed to terminate, in order. */
  ghost function Dying(q: seq<Thread>): seq<Thread>
    reads q
  {
    if q == [] then [] else (if q[0].needsToDie then [q[0]] else []) + Dying(q[1..])
  }

  lemma {:induction false} DyingAppend(q: seq<Thread>, t: Thread)
    ensures Dying(q + [t]) == Dying(q) + (if t.needsToDie then [t] else [])
  {
    if q == [] {
    } else {
      assert (q + [t])[1..] == q[1..] + [t];
      DyingAppend(q[1..], t);
    }
  }

  ghost predicate NotTooGood(levels: seq<seq<Thread>>) {
    forall i, j :: 0 <= i < |levels| && 0 <= j < |levels[i]| ==> levels[i][j].maxLevel <= i
  }

  lemma NotTooGoodRest(levels: seq<seq<Thread>>, i: int, rest: seq<Thread>)
    requires NotTooGood(levels) && 0 <= i < |levels| && forall j :: 0 <= j < |rest| ==> rest[j] in levels[i]
    ensures NotTooGood(levels[i := rest])
  {
  }

  datatype ScheduleResult = Queued | Refused | Overflow

  /** What `schedule` on another core does to this one: it first pushes a thread onto a level's queue and
      only later moves the epoch. Anything may happen in between. */
  datatype Event = Push(core: int, level: int, thread: Thread) | Step(core: int)

  /** What other cores did in the meantime. */
  type Arrivals = seq<Event>

  class Scheduler {
    const capacity: int
    var levels: seq<seq<Thread>>
    var epoch: int
    var currentLevel: int
    var maxScheduledLevel: int
    ghost var terminated: seq<Thread>

    /** A queue per level; no thread waits at a better level than it may have. */
    ghost predicate Valid()
      reads this
    {
      |levels| == NUM_LEVELS && NotTooGood(levels)
    }

    constructor (capacity: int)
      ensures Valid() && levels == Nothing() && epoch == 0 && this.capacity == capacity
      ensures currentLevel == NUM_LEVELS && maxScheduledLevel == NUM_LEVELS
    {
      this.capacity := capacity;
      levels := seq(NUM_LEVELS, _ => []);
      epoch, currentLevel, maxScheduledLevel, terminated := 0, NUM_LEVELS, NUM_LEVELS, [];
    }

    /** `schedule`: brings the quantum up to date and appends the thread to the queue of its level. */
    method Schedule(t: Thread) returns (r: ScheduleResult)
      requires Valid() && t.Valid()
      modifies this`levels, this`epoch, this`maxScheduledLevel, t`quantumTotal, t`lastLevel
      ensures Valid() && t.Valid() && t.quantumTotal == Quantum(t.level) && t.lastLevel == t.level
      ensures r == Refused <==> t.idle || t.doNotSchedule
      ensures r == Overflow <==> r != Refused && |old(levels)[t.level]| >= capacity
      ensures r != Queued ==>
        levels == old(levels) && epoch == old(epoch) && maxScheduledLevel == old(maxScheduledLevel)
      ensures r == Queued ==> levels == old(levels)[t.level := old(levels)[t.level] + [t]]
      ensures r == Queued ==> epoch == (old(epoch) + 1) % WORD
      ensures r == Queued ==>
        maxScheduledLevel == if t.level < old(maxScheduledLevel) then t.level else old(maxScheduledLevel)
    {
      hide Quantum;
      var levelNum := LevelFor(t.level, t.maxLevel);
      if levelNum != t.lastLevel || t.quantumTotal == 0 {
        t.UpdateQuantumLength();
        t.lastLevel := levelNum;
      }
      if t.idle || t.doNotSchedule {
        return Refused;
      }
      if |levels[levelNum]| >= capacity {
        return Overflow;
      }
      levels := levels[levelNum := levels[levelNum] + [t]];
      epoch := (epoch + 1) % WORD;
      if levelNum < maxScheduledLevel {
        maxScheduledLevel := levelNum;
      }
      r := Queued;
    }

    /** Pops a queue until an eligible thread comes out; dying threads are terminated on the way,
        others that are not runnable just dropped. */
    method PopEligible(q: seq<Thread>) returns (thread: Thread?, rest: seq<Thread>)
      modifies this`terminated
      ensures Drained(q, thread, rest) && terminated == old(terminated) + Dying(q[..Skip(q)])
    {
      ghost var k := 0;
      rest := q;
      while rest != []
        invariant 0 <= k <= |q| && rest == q[k..]
        invariant forall j :: 0 <= j < k ==> !Eligible(q[j])
        invariant terminated == old(terminated) + Dying(q[..k])
        decreases |rest|
      {
        thread := rest[0];
        rest := rest[1..];
        if !thread.needsToDie && thread.runnable {
          SkipIs(q, k);
          return;
        }
        DyingAppend(q[..k], q[k]);
        assert q[..k + 1] == q[..k] + [q[k]];
        if thread.needsToDie {
          terminated := terminated + [thread];
        }
        k := k + 1;
      }
      SkipIs(q, k);
      thread := null;
    }

    /** One pass over the levels, best first. Other cores push threads and move the epoch all the while:
        `during[i]` before level `i` is looked at, the last one after the pass. */
    method Pass(during: seq<Arrivals>) returns (thread: Thread?)
      requires Valid() && 0 <= epoch < WORD && AllFit(during)
      modifies this`levels, this`terminated, this`currentLevel, this`epoch
      ensures Valid() && 0 <= epoch < WORD
      ensures thread == null ==> Exhausted(Met(old(levels), during))
      ensures thread == null ==> levels == Before(old(levels), during, NUM_LEVELS)
      ensures thread == null ==> epoch == Moved(old(epoch), Count(during, NUM_LEVELS + 1))
      ensures thread != null ==>
        0 <= currentLevel < NUM_LEVELS && Picked(old(levels), during, levels, currentLevel, thread)
      ensures terminated ==
        old(terminated) + EndedIn(Met(old(levels), during), if thread == null then NUM_LEVELS else currentLevel)
    {
      hide Skip, Eligible, Dying, Drained, NoneEligible, NotTooGood, Before, Arrived, Fits, AllFit, Met, Count,
        Exhausted, Picked, EndedIn, DyingBelow, Moved, Get, Steps;
      ghost var was, met := levels, Met(levels, during);
      GetFits(during, 0);
      BeforeFirst(was, during);
      Arrive(Get(during, 0));
      DyingNone(met);
      for i := 0 to NUM_LEVELS
        invariant Valid() && 0 <= epoch < WORD && levels == Before(was, during, i)
        invariant epoch == Moved(old(epoch), Count(during, i + 1))
        invariant allocated(met) && forall j :: 0 <= j < i ==> NoneEligible(met[j])
        invariant terminated == old(terminated) + DyingBelow(met, i)
      {
        MetAt(was, during, i);
        GetFits(during, i + 1);
        BeforeNext(was, during, i);
        MovedOn(old(epoch), Count(during, i + 1), Steps(Get(during, i + 1)));
        thread := PassLevel(i, Get(during, i + 1));
        if thread != null {
          IsPicked(was, during, levels, i, thread);
          return;
        }
        DyingNext(met, i);
      }
      IsExhausted(met);
      thread := null;
    }

    /** One level of a pass, and what arrives after it. */
    method PassLevel(i: int, a: Arrivals) returns (thread: Thread?)
      requires Valid() && 0 <= i < NUM_LEVELS && Fits(a) && 0 <= epoch < WORD
      modifies this`levels, this`terminated, this`currentLevel, this`epoch
      ensures Valid() && 0 <= epoch < WORD
      ensures thread != null ==>
        levels == old(levels)[i := levels[i]] && Drained(old(levels)[i], thread, levels[i]) && currentLevel == i
      ensures thread != null ==> terminated == old(terminated) + Dying(old(levels)[i][..Skip(old(levels)[i])])
      ensures thread == null ==> NoneEligible(old(levels)[i]) && levels == Arrived(old(levels)[i := []], a)
      ensures thread == null ==> epoch == Moved(old(epoch), Steps(a))
      ensures thread == null ==> terminated == old(terminated) + Dying(old(levels)[i])
    {
      hide Skip, Eligible, Dying, Drained, NoneEligible, NotTooGood, Arrived, Fits;
      var rest;
      thread, rest := PopEligible(levels[i]);
      DrainedFacts(levels[i], thread, rest);
      NotTooGoodRest(levels, i, rest);
      levels := levels[i := rest];
      if thread != null {
        currentLevel := i;
        return;
      }
      Arrive(a);
    }

    /** One pop of a level: nothing, an eligible thread, or one that is passed over. */
    method PopOne(i: int) returns (thread: Thread?, done: bool)
      requires Valid() && 0 <= i < NUM_LEVELS
      modifies this`levels, this`terminated
      ensures Valid() && levels == old(levels)[i := levels[i]]
      ensures old(levels)[i] == [] ==> thread == null && done && levels[i] == [] && terminated == old(terminated)
      ensures old(levels)[i] != [] ==> thread != null && old(levels)[i] == [thread] + levels[i]
      ensures old(levels)[i] != [] ==> (done <==> Eligible(thread))
      ensures old(levels)[i] != [] ==> terminated == old(terminated) + if thread.needsToDie then [thread] else []
    {
      hide NotTooGood;
      if levels[i] == [] {
        return null, true;
      }
      thread := levels[i][0];
      NotTooGoodRest(levels, i, levels[i][1..]);
      levels := levels[i := levels[i][1..]];
      if thread.needsToDie {
        terminated := terminated + [thread];
      }
      done := !thread.needsToDie && thread.runnable;
    }

    /** A level that is popped while other cores push threads and move the epoch, `between[k]` before the
        `k`-th pop: as if all that happens before the last pop had happened before the first. */
    method PopBetween(i: int, between: seq<Arrivals>) returns (thread: Thread?, ghost a: Arrivals)
      requires Valid() && 0 <= i < NUM_LEVELS && 0 <= epoch < WORD && AllFit(between)
      modifies this`levels, this`terminated, this`epoch
      ensures Valid() && 0 <= epoch < WORD && epoch == Moved(old(epoch), Steps(a))
      ensures Fits(a) && exists n: nat :: a == Joined(between, n)
      ensures var q := Arrived(old(levels), a)[i];
        && levels == Arrived(old(levels), a)[i := levels[i]] && Drained(q, thread, levels[i])
        && terminated == old(terminated) + Dying(q[..Skip(q)])
    {
      hide Eligible, Dying, NotTooGood, Arrived, Fits, AllFit, Steps, Moved, Joined, Get, NoneEligible, Drained, Skip;
      var n: nat := 0;
      ghost var popped: seq<Thread>;
      a, popped := [], [];
      PopsBegin(levels, epoch, between, i);
      while true
        invariant Valid() && 0 <= epoch < WORD && epoch == Moved(old(epoch), Steps(a))
        invariant Fits(a) && a == Joined(between, n)
        invariant levels == Arrived(old(levels), a)[i := levels[i]] && Arrived(old(levels), a)[i] == popped + levels[i]
        invariant NoneEligible(popped) && terminated == old(terminated) + Dying(popped)
        decreases if n < |between| then |between| - n else 0, |levels[i]|
      {
        GetFits(between, n);
        PopsGoOn(old(levels), old(epoch), a, Get(between, n), i, popped, levels[i]);
        JoinedNext(between, n);
        Arrive(Get(between, n));
        a := a + Get(between, n);
        n := n + 1;
        ghost var rest := levels[i];
        var done;
        thread, done := PopOne(i);
        if done {
          PopsEnd(popped, rest);
          return;
        }
        PopsPass(popped, thread);
        assert popped + [thread] + levels[i] == popped + rest;
        popped := popped + [thread];
      }
    }

    /** Other cores push threads and move the epoch. */
    method Arrive(a: Arrivals)
      requires Valid() && Fits(a) && 0 <= epoch < WORD
      modifies this`levels, this`epoch
      ensures Valid() && levels == Arrived(old(levels), a)
      ensures 0 <= epoch < WORD && epoch == Moved(old(epoch), Steps(a))
    {
      hide NotTooGood;
      EpochStays(epoch);
      for i := 0 to |a|
        invariant |levels| == NUM_LEVELS && NotTooGood(levels) && levels == Arrived(old(levels), a[..i])
        invariant epoch == Moved(old(epoch), Steps(a[..i]))
      {
        assert a[..i + 1][..i] == a[..i];
        match a[i] {
          case Push(_, l, t) =>
            NotTooGoodMore(levels, l, t);
            levels := levels[l := levels[l] + [t]];
          case Step(_) =>
            MovedOn(old(epoch), Steps(a[..i]), 1);
            epoch := (epoch + 1) % WORD;
        }
      }
      assert a[..|a|] == a;
    }

    /** `findRunnableThread`: scans again while the epoch moves behind its back, at most five times.
        `arrivals[p]` is what other cores do during pass `p`, and `waiting` are the cores that have pushed
        before the search and not yet moved the epoch. `seen` are the queues before the last pass and
        `ended[p]` the threads that pass `p` terminates. */
    method FindRunnableThread(arrivals: seq<seq<Arrivals>>, ghost waiting: set<int>)
      returns (thread: Thread?, passes: int, ghost seen: seq<seq<Thread>>, ghost ended: seq<seq<Thread>>)
      requires Valid() && 0 <= epoch < WORD && forall p :: 0 <= p < |arrivals| ==> AllFit(arrivals[p])
      modifies this
      ensures Valid() && 1 <= passes <= MAX_LOOPS + 1 && seen == Seen(old(levels), arrivals, passes - 1)
      ensures forall p :: 0 <= p < passes - 1 ==>
        old(Exhausted(Met(Seen(levels, arrivals, p), During(arrivals, p)))) && !Quiet(During(arrivals, p))
      ensures thread != null ==> Picked(seen, During(arrivals, passes - 1), levels, currentLevel, thread)
      ensures thread == null ==> Exhausted(Met(seen, During(arrivals, passes - 1))) && currentLevel == NUM_LEVELS
      ensures thread == null ==> forall l :: 0 <= l < NUM_LEVELS ==>
        levels[l] == PushedIn(During(arrivals, passes - 1), l, l + 1, NUM_LEVELS + 1)
      ensures thread == null && passes <= MAX_LOOPS ==> Quiet(During(arrivals, passes - 1))
      ensures thread == null && passes <= MAX_LOOPS && Count(During(arrivals, passes - 1), NUM_LEVELS + 1) < WORD ==>
        (levels == Nothing() <==> !Missed(WaitingBefore(waiting, arrivals, passes - 1), During(arrivals, passes - 1)))
      ensures thread == null ==> epoch == Moved(old(epoch), CountAll(arrivals, passes) +
        if Quiet(During(arrivals, passes - 1)) then 1 else 0)
      ensures |ended| == passes && terminated == old(terminated) + Flat(ended)
      ensures forall p :: 0 <= p < passes - 1 ==>
        ended[p] == old(EndedIn(Met(Seen(levels, arrivals, p), During(arrivals, p)), NUM_LEVELS))
      ensures 0 <= currentLevel <= NUM_LEVELS
      ensures ended[passes - 1] == EndedIn(Met(seen, During(arrivals, passes - 1)), currentLevel)
    {
      hide Eligible, Dying, Skip, DyingBelow, Exhausted, Picked, NotTooGood, Arrived, EndedIn, Seen, Before, Met, Fits,
        AllFit, Flat, Nothing, Count, Quiet, During, Missed, PushedIn, WaitingBefore, CountAll, Moved;
      var tries := 0;
      passes, seen, ended := 0, levels, [];
      SeenFirst(levels, arrivals);
      NoneCounted(epoch, arrivals);
      forall p ensures AllFit(During(arrivals, p)) { DuringFits(arrivals, p); }
      while true
        invariant Valid() && 0 <= epoch < WORD && 0 <= passes == tries <= MAX_LOOPS
        invariant levels == Seen(old(levels), arrivals, passes)
        invariant epoch == Moved(old(epoch), CountAll(arrivals, passes))
        invariant forall p :: 0 <= p < passes ==>
          old(Exhausted(Met(Seen(levels, arrivals, p), During(arrivals, p)))) && !Quiet(During(arrivals, p))
        invariant |ended| == passes && terminated == old(terminated) + Flat(ended)
        invariant forall p :: 0 <= p < passes ==>
          ended[p] == old(EndedIn(Met(Seen(levels, arrivals, p), During(arrivals, p)), NUM_LEVELS))
        decreases MAX_LOOPS - tries
      {
        var e, during := epoch, During(arrivals, passes);
        DuringFits(arrivals, passes);
        seen := levels;
        ghost var met := old(Met(Seen(levels, arrivals, passes), During(arrivals, passes)));
        Frozen(met);
        thread := Pass(during);
        passes := passes + 1;
        ghost var last := if thread == null then NUM_LEVELS else currentLevel;
        FlatMore(ended, EndedIn(met, last));
        ended := ended + [EndedIn(met, last)];
        if thread != null {
          return;
        }
        SeenNext(old(levels), arrivals, passes);
        CountNext(old(epoch), arrivals, passes);
        EpochTells(e, during);
        LeftBehind(WaitingBefore(waiting, arrivals, passes - 1), seen, during);
        if epoch == e {
          MovedOn(old(epoch), CountAll(arrivals, passes), 1);
          epoch := Next(e);
          break;
        }
        tries := tries + 1;
        if tries > MAX_LOOPS {
          break;
        }
      }
      currentLevel := NUM_LEVELS;
    }
  }

  /** The next value of the epoch. */
  function Next(e: int): (r: int)
    ensures r == Moved(e, 1)
  {
    (e + 1) % WORD
  }

  /** One thread pushed onto the best level right after the look at it, and no step. */
  function LatePush(t: Thread): seq<Arrivals> {
    [[], [Push(1, 0, t)]]
  }

  lemma {:induction false} LatePushedIn(t: Thread, l: int, m: nat, n: nat)
    ensures PushedIn(LatePush(t), l, m, n) == if l == 0 && m <= 1 < n then [t] else []
    ensures Count(LatePush(t), n) == 0
    decreases n
  {
    assert forall i :: Get(LatePush(t), i) == if i == 1 then [Push(1, 0, t)] else [];
    assert [Push(1, 0, t)][..0] == [];
    if n > 0 { LatePushedIn(t, l, m, n - 1); }
  }

  /** Such a pass meets nothing and sees the epoch unmoved. */
  lemma LatePushUnseen(t: Thread)
    requires t.maxLevel <= 0
    ensures AllFit(LatePush(t)) && Met(Nothing(), LatePush(t)) == Nothing() && Quiet(LatePush(t))
    ensures Count(LatePush(t), NUM_LEVELS + 1) == 0
  {
    hide Before, PushedIn, Count;
    LatePushedIn(t, 0, 0, NUM_LEVELS + 1);
    forall l | 0 <= l < NUM_LEVELS ensures Met(Nothing(), LatePush(t))[l] == [] {
      BeforeAt(Nothing(), LatePush(t), l, l);
      LatePushedIn(t, l, 0, l + 1);
    }
  }

  lemma NonePicked(during: seq<Arrivals>, now: seq<seq<Thread>>, level: int, thread: Thread)
    requires AllFit(during) && Met(Nothing(), during) == Nothing()
    ensures !Picked(Nothing(), during, now, level, thread)
  {
    hide Met, Before;
  }

  /** A core pushes a thread onto the best level right after that was looked at, and moves the epoch only
      later: the search gives up after one pass although the thread waits in its queue. */
  method PushedBehind(t: Thread) returns (s: Scheduler, thread: Thread?, passes: int)
    requires t.maxLevel == 0 && Eligible(t)
    ensures fresh(s) && thread == null && passes == 1
    ensures s.levels == Nothing()[0 := [t]] && Eligible(t)
  {
    hide Picked, Exhausted, Met, Missed, Seen, EndedIn, Flat, CountAll, Moved, WaitingBefore, Count, PushedIn, Quiet,
      LatePush, AllFit;
    s := new Scheduler(1);
    var arrivals := [LatePush(t)];
    LatePushUnseen(t);
    SeenFirst(Nothing(), arrivals);
    assert During(arrivals, 0) == LatePush(t);
    ghost var seen, ended;
    thread, passes, seen, ended := s.FindRunnableThread(arrivals, {});
    assert passes == 1;
    if thread != null {
      NonePicked(LatePush(t), s.levels, s.currentLevel, thread);
    }
    forall l | 0 <= l < NUM_LEVELS ensures s.levels[l] == Nothing()[0 := [t]][l] {
      LatePushedIn(t, l, l + 1, NUM_LEVELS + 1);
    }
  }

  /** Threads pushed onto levels that exist and that they may have. */
  ghost predicate Fits(a: Arrivals) {
    forall i :: 0 <= i < |a| && a[i].Push? ==> 0 <= a[i].level < NUM_LEVELS && a[i].thread.maxLevel <= a[i].level
  }

  lemma NotTooGoodMore(levels: seq<seq<Thread>>, l: int, t: Thread)
    requires NotTooGood(levels) && 0 <= l < |levels| && t.maxLevel <= l
    ensures NotTooGood(levels[l := levels[l] + [t]])
  {
  }

  /** The queues after the arrivals; only pushes change them. */
  ghost function Arrived(levels: seq<seq<Thread>>, a: Arrivals): (r: seq<seq<Thread>>)
    requires |levels| == NUM_LEVELS && Fits(a)
    ensures |r| == NUM_LEVELS
  {
    if a == [] then levels else
      var r, e := Arrived(levels, a[..|a| - 1]), a[|a| - 1];
      if e.Push? then r[e.level := r[e.level] + [e.thread]] else r
  }

  /** How often the epoch moves. */
  ghost function Steps(a: Arrivals): nat {
    if a == [] then 0 else Steps(a[..|a| - 1]) + if a[|a| - 1].Step? then 1 else 0
  }

  /** The threads pushed onto level `l`, in order. */
  ghost function Pushed(a: Arrivals, l: int): seq<Thread> {
    if a == [] then [] else
      var e := a[|a| - 1];
      Pushed(a[..|a| - 1], l) + if e.Push? && e.level == l then [e.thread] else []
  }

  lemma {:induction false} ArrivedAt(levels: seq<seq<Thread>>, a: Arrivals, l: int)
    requires |levels| == NUM_LEVELS && Fits(a) && 0 <= l < NUM_LEVELS
    ensures Arrived(levels, a)[l] == levels[l] + Pushed(a, l)
  {
    if a != [] { ArrivedAt(levels, a[..|a| - 1], l); }
  }

  lemma {:induction false} ArrivedMore(levels: seq<seq<Thread>>, a: Arrivals, b: Arrivals)
    requires |levels| == NUM_LEVELS && Fits(a) && Fits(b)
    ensures Fits(a + b) && Arrived(levels, a + b) == Arrived(Arrived(levels, a), b)
    ensures Steps(a + b) == Steps(a) + Steps(b)
  {
    if b == [] {
      assert a + b == a;
    } else {
      assert (a + b)[..|a + b| - 1] == a + b[..|b| - 1];
      ArrivedMore(levels, a, b[..|b| - 1]);
    }
  }

  /** What happens before the first `n` pops of a level. */
  ghost function Joined(between: seq<Arrivals>, n: nat): Arrivals {
    if n == 0 then [] else Joined(between, n - 1) + Get(between, n - 1)
  }

  lemma JoinedNext(between: seq<Arrivals>, n: nat)
    ensures Joined(between, n + 1) == Joined(between, n) + Get(between, n)
    ensures n >= |between| ==> Get(between, n) == []
  {
  }

  lemma PopsBegin(levels: seq<seq<Thread>>, e: int, between: seq<Arrivals>, i: int)
    requires |levels| == NUM_LEVELS && 0 <= i < NUM_LEVELS && 0 <= e < WORD
    ensures Fits([]) && Arrived(levels, []) == levels && levels[i := levels[i]] == levels
    ensures e == Moved(e, Steps([])) && Joined(between, 0) == [] && Dying([]) == [] && NoneEligible([])
  {
    EpochStays(e);
  }

  /** Pushing onto what is left of a queue leaves the same as pushing onto the whole queue. */
  lemma PopsGoOn(levels: seq<seq<Thread>>, e: int, a: Arrivals, b: Arrivals, i: int, popped: seq<Thread>,
                 rest: seq<Thread>)
    requires |levels| == NUM_LEVELS && Fits(a) && Fits(b) && 0 <= i < NUM_LEVELS
    requires Arrived(levels, a)[i] == popped + rest
    ensures Fits(a + b) && Moved(Moved(e, Steps(a)), Steps(b)) == Moved(e, Steps(a + b))
    ensures var left := Arrived(Arrived(levels, a)[i := rest], b);
      && left == Arrived(levels, a + b)[i := left[i]] && Arrived(levels, a + b)[i] == popped + left[i]
      && (b == [] ==> left[i] == rest)
  {
    hide Arrived, Moved, Steps, Fits;
    ArrivedMore(levels, a, b);
    MovedOn(e, Steps(a), Steps(b));
    var was := Arrived(levels, a);
    forall l | 0 <= l < NUM_LEVELS
      ensures Arrived(was[i := rest], b)[l] == was[i := rest][l] + Pushed(b, l)
      ensures Arrived(was, b)[l] == was[l] + Pushed(b, l)
    {
      ArrivedAt(was[i := rest], b, l);
      ArrivedAt(was, b, l);
    }
    assert popped + rest + Pushed(b, i) == popped + (rest + Pushed(b, i));
  }

  lemma PopsPass(popped: seq<Thread>, t: Thread)
    requires NoneEligible(popped) && !Eligible(t)
    ensures NoneEligible(popped + [t])
    ensures Dying(popped + [t]) == Dying(popped) + if t.needsToDie then [t] else []
  {
    DyingAppend(popped, t);
  }

  lemma PopsEnd(popped: seq<Thread>, rest: seq<Thread>)
    requires NoneEligible(popped) && (rest != [] ==> Eligible(rest[0]))
    ensures (popped + rest)[..Skip(popped + rest)] == popped
    ensures rest == [] ==> Drained(popped + rest, null, [])
    ensures rest != [] ==> Drained(popped + rest, rest[0], rest[1..]) && !rest[0].needsToDie
  {
    SkipIs(popped + rest, |popped|);
  }

  lemma {:induction false} PushedSome(a: Arrivals, l: int)
    ensures Pushed(a, l) != [] <==> exists j :: PushAt(a, j, l)
  {
    if a != [] {
      var b := a[..|a| - 1];
      PushedSome(b, l);
      assert PushAt(a, |a| - 1, l) ==> Pushed(a, l) != [];
      assert forall j :: 0 <= j < |b| ==> PushAt(b, j, l) == PushAt(a, j, l);
    }
  }

  ghost predicate PushAt(a: Arrivals, j: int, l: int) {
    0 <= j < |a| && a[j].Push? && a[j].level == l
  }

  /** The arrivals of one moment, none where the list does not reach. */
  function Get(during: seq<Arrivals>, i: int): Arrivals {
    if 0 <= i < |during| then during[i] else []
  }

  ghost predicate AllFit(during: seq<Arrivals>) {
    forall i :: 0 <= i < |during| ==> Fits(during[i])
  }

  lemma GetFits(during: seq<Arrivals>, i: int)
    requires AllFit(during)
    ensures Fits(Get(during, i))
  {
  }

  /** How often the epoch moves in the first `n` moments. */
  ghost function Count(during: seq<Arrivals>, n: nat): nat {
    if n == 0 then 0 else Count(during, n - 1) + Steps(Get(during, n - 1))
  }

  /** The epoch comes back to what it was. */
  ghost predicate Quiet(during: seq<Arrivals>) {
    Count(during, NUM_LEVELS + 1) % WORD == 0
  }

  /** The threads pushed onto level `l` from moment `m` up to `n`, in order. */
  ghost function PushedIn(during: seq<Arrivals>, l: int, m: nat, n: nat): seq<Thread> {
    if n <= m then [] else PushedIn(during, l, m, n - 1) + Pushed(Get(during, n - 1), l)
  }

  /** The queues when level `n` is looked at, in a pass that has found nothing so far. */
  ghost function Before(levels: seq<seq<Thread>>, during: seq<Arrivals>, n: nat): (r: seq<seq<Thread>>)
    requires |levels| == NUM_LEVELS && AllFit(during) && n <= NUM_LEVELS
    ensures |r| == NUM_LEVELS
  {
    GetFits(during, n);
    Arrived(if n == 0 then levels else Before(levels, during, n - 1)[n - 1 := []], Get(during, n))
  }

  /** What such a pass meets at each level. */
  ghost function Met(levels: seq<seq<Thread>>, during: seq<Arrivals>): (r: seq<seq<Thread>>)
    requires |levels| == NUM_LEVELS && AllFit(during)
    ensures |r| == NUM_LEVELS
  {
    seq(NUM_LEVELS, i requires 0 <= i < NUM_LEVELS => Before(levels, during, i)[i])
  }

  lemma MetAt(levels: seq<seq<Thread>>, during: seq<Arrivals>, i: nat)
    requires |levels| == NUM_LEVELS && AllFit(during) && i < NUM_LEVELS
    ensures Met(levels, during)[i] == Before(levels, during, i)[i]
  {
  }

  lemma BeforeFirst(levels: seq<seq<Thread>>, during: seq<Arrivals>)
    requires |levels| == NUM_LEVELS && AllFit(during) && Fits(Get(during, 0))
    ensures Before(levels, during, 0) == Arrived(levels, Get(during, 0)) && Count(during, 1) == Steps(Get(during, 0))
  {
  }

  lemma BeforeNext(levels: seq<seq<Thread>>, during: seq<Arrivals>, i: nat)
    requires |levels| == NUM_LEVELS && AllFit(during) && i < NUM_LEVELS && Fits(Get(during, i + 1))
    ensures Before(levels, during, i + 1) == Arrived(Before(levels, during, i)[i := []], Get(during, i + 1))
    ensures Count(during, i + 2) == Count(during, i + 1) + Steps(Get(during, i + 1))
  {
  }

  /** A level that was looked at holds what was pushed onto it since; one that was not, what it had and
      what was pushed onto it all the while. */
  lemma {:induction false} BeforeAt(levels: seq<seq<Thread>>, during: seq<Arrivals>, n: nat, l: nat)
    requires |levels| == NUM_LEVELS && AllFit(during) && n <= NUM_LEVELS && l < NUM_LEVELS
    ensures Before(levels, during, n)[l] ==
      if l < n then PushedIn(during, l, l + 1, n + 1) else levels[l] + PushedIn(during, l, 0, n + 1)
  {
    hide Arrived, Pushed, Get, Fits, AllFit;
    GetFits(during, n);
    if n == 0 {
      ArrivedAt(levels, Get(during, 0), l);
    } else {
      BeforeAt(levels, during, n - 1, l);
      ArrivedAt(Before(levels, during, n - 1)[n - 1 := []], Get(during, n), l);
    }
  }

  /** The push at `during[i][j]` comes after the look at its level. */
  ghost predicate Behind(during: seq<Arrivals>, i: int, j: int) {
    0 <= i <= NUM_LEVELS && 0 <= j < |Get(during, i)| && Get(during, i)[j].Push? && Get(during, i)[j].level < i
  }

  lemma {:induction false} PushedInSome(during: seq<Arrivals>, l: int, m: nat, n: nat)
    ensures PushedIn(during, l, m, n) != [] <==> exists i, j :: m <= i < n && PushAt(Get(during, i), j, l)
    decreases n
  {
    hide Pushed, Get, PushAt;
    if n > m {
      PushedInSome(during, l, m, n - 1);
      PushedSome(Get(during, n - 1), l);
    }
  }

  /** A pass without success leaves exactly the threads that were pushed behind it. */
  lemma BehindIff(levels: seq<seq<Thread>>, during: seq<Arrivals>)
    requires |levels| == NUM_LEVELS && AllFit(during)
    ensures forall l :: 0 <= l < NUM_LEVELS ==>
      Before(levels, during, NUM_LEVELS)[l] == PushedIn(during, l, l + 1, NUM_LEVELS + 1)
    ensures Before(levels, during, NUM_LEVELS) == Nothing() <==> !exists i, j :: Behind(during, i, j)
  {
    hide Before, PushedIn, Get, AllFit;
    var left := Before(levels, during, NUM_LEVELS);
    forall l | 0 <= l < NUM_LEVELS
      ensures left[l] == PushedIn(during, l, l + 1, NUM_LEVELS + 1)
      ensures left[l] == [] <==> !exists i, j :: l + 1 <= i < NUM_LEVELS + 1 && PushAt(Get(during, i), j, l)
    {
      BeforeAt(levels, during, NUM_LEVELS, l);
      PushedInSome(during, l, l + 1, NUM_LEVELS + 1);
    }
    assert forall l, i, j :: 0 <= l < i <= NUM_LEVELS && PushAt(Get(during, i), j, l) ==> Behind(during, i, j);
    if i, j :| Behind(during, i, j) {
      BehindLevel(during, i, j);
      assert left[Get(during, i)[j].level] != [];
    }
  }

  lemma BehindLevel(during: seq<Arrivals>, i: int, j: int)
    requires AllFit(during) && Behind(during, i, j)
    ensures 0 <= Get(during, i)[j].level < i && PushAt(Get(during, i), j, Get(during, i)[j].level)
  {
  }

  // ---------------------------------------------------------------- cores between push and step

  /** The cores that have pushed and not moved the epoch since. */
  ghost function Waiting(w: set<int>, a: Arrivals): set<int> {
    if a == [] then w else
      var e := a[|a| - 1];
      if e.Push? then Waiting(w, a[..|a| - 1]) + {e.core} else Waiting(w, a[..|a| - 1]) - {e.core}
  }

  ghost function WaitingAt(w: set<int>, during: seq<Arrivals>, n: nat): set<int> {
    if n == 0 then w else Waiting(WaitingAt(w, during, n - 1), Get(during, n - 1))
  }

  ghost function WaitingBefore(w: set<int>, arrivals: seq<seq<Arrivals>>, p: nat): set<int> {
    if p == 0 then w else WaitingAt(WaitingBefore(w, arrivals, p - 1), During(arrivals, p - 1), NUM_LEVELS + 1)
  }

  /** Some thread was pushed behind the look at its level by a core that at the end of the pass has not
      moved the epoch yet. */
  ghost predicate Missed(w: set<int>, during: seq<Arrivals>) {
    exists i, j :: Behind(during, i, j) && Get(during, i)[j].core in WaitingAt(w, during, NUM_LEVELS + 1)
  }

  lemma {:induction false} WaitingGrows(w: set<int>, a: Arrivals)
    requires Steps(a) == 0
    ensures w <= Waiting(w, a) && forall j :: 0 <= j < |a| && a[j].Push? ==> a[j].core in Waiting(w, a)
  {
    if a != [] {
      var b := a[..|a| - 1];
      WaitingGrows(w, b);
      assert forall j :: 0 <= j < |b| ==> b[j] == a[j];
    }
  }

  /** While the epoch stands still every core that pushes is left waiting. */
  lemma {:induction false} PushersWait(w: set<int>, during: seq<Arrivals>, n: nat)
    requires Count(during, n) == 0
    ensures forall i, j :: 0 <= i < n && 0 <= j < |Get(during, i)| && Get(during, i)[j].Push? ==>
      Get(during, i)[j].core in WaitingAt(w, during, n)
  {
    hide Get, Waiting, Steps;
    if n > 0 {
      PushersWait(w, during, n - 1);
      WaitingGrows(WaitingAt(w, during, n - 1), Get(during, n - 1));
    }
  }

  /** A pass without success in which the epoch stood still leaves the queues empty if and only if no
      thread was pushed behind the look at its level with its step of the epoch still outstanding. */
  lemma MissedIff(w: set<int>, levels: seq<seq<Thread>>, during: seq<Arrivals>)
    requires |levels| == NUM_LEVELS && AllFit(during) && Count(during, NUM_LEVELS + 1) == 0
    ensures Before(levels, during, NUM_LEVELS) == Nothing() <==> !Missed(w, during)
  {
    hide Before, AllFit, Get, WaitingAt, Nothing;
    BehindIff(levels, during);
    PushersWait(w, during, NUM_LEVELS + 1);
  }

  lemma LeftBehind(w: set<int>, levels: seq<seq<Thread>>, during: seq<Arrivals>)
    requires |levels| == NUM_LEVELS && AllFit(during)
    ensures forall l :: 0 <= l < NUM_LEVELS ==>
      Before(levels, during, NUM_LEVELS)[l] == PushedIn(during, l, l + 1, NUM_LEVELS + 1)
    ensures Quiet(during) && Count(during, NUM_LEVELS + 1) < WORD ==>
      (Before(levels, during, NUM_LEVELS) == Nothing() <==> !Missed(w, during))
  {
    hide Before, AllFit, Get, WaitingAt, Nothing, PushedIn, Count, Missed;
    BehindIff(levels, during);
    if Quiet(during) && Count(during, NUM_LEVELS + 1) < WORD {
      EpochStays(Count(during, NUM_LEVELS + 1));
      MissedIff(w, levels, during);
    }
  }

  /** Every push directly followed by its step: what an interrupt on the searching core does. */
  ghost predicate Whole(a: Arrivals) {
    a == [] || (|a| >= 2 && a[|a| - 2].Push? && a[|a| - 1] == Step(a[|a| - 2].core) && Whole(a[..|a| - 2]))
  }

  lemma {:induction false} WholeQuiet(during: seq<Arrivals>, n: nat)
    requires (forall i :: 0 <= i < |during| ==> Whole(during[i])) && Count(during, n) == 0
    ensures forall i :: 0 <= i < n ==> Get(during, i) == []
  {
    hide Whole;
    if n > 0 {
      WholeQuiet(during, n - 1);
      WholeSteps(Get(during, n - 1));
    }
  }

  lemma WholeSteps(a: Arrivals)
    requires Whole(a)
    ensures Steps(a) == 0 ==> a == []
  {
  }

  /** Interrupts of the same core are never missed. */
  lemma InterruptsSeen(levels: seq<seq<Thread>>, during: seq<Arrivals>)
    requires |levels| == NUM_LEVELS && AllFit(during) && forall i :: 0 <= i < |during| ==> Whole(during[i])
    requires Count(during, NUM_LEVELS + 1) == 0
    ensures Before(levels, during, NUM_LEVELS) == Nothing()
  {
    hide Before, AllFit, Get, Nothing, Count, Whole;
    WholeQuiet(during, NUM_LEVELS + 1);
    BehindIff(levels, during);
  }

  /** The epoch after `n` more steps. */
  ghost function Moved(e: int, n: int): int {
    (e + n) % WORD
  }

  lemma MovedOn(e: int, m: int, n: int)
    ensures Moved(Moved(e, m), n) == Moved(e, m + n)
  {
    ModAdd(e + m, n, WORD);
  }

  /** The compare-exchange succeeds if and only if the number of steps is a multiple of 2^64. */
  lemma EpochTells(e: int, during: seq<Arrivals>)
    requires 0 <= e < WORD
    ensures Moved(e, Count(during, NUM_LEVELS + 1)) == e <==> Quiet(during)
  {
    hide Count;
    var n := Count(during, NUM_LEVELS + 1);
    ModAdd(n, e, WORD);
    if n % WORD == 0 { EpochStays(e); } else { EpochMoves(e, n % WORD); }
  }

  lemma EpochStays(e: int)
    requires 0 <= e < WORD
    ensures e % WORD == e
  {
    ModUnique(e, WORD, 0, e);
  }

  function During(arrivals: seq<seq<Arrivals>>, p: int): seq<Arrivals> {
    if 0 <= p < |arrivals| then arrivals[p] else []
  }

  lemma DuringFits(arrivals: seq<seq<Arrivals>>, p: int)
    requires forall p :: 0 <= p < |arrivals| ==> AllFit(arrivals[p])
    ensures AllFit(During(arrivals, p))
  {
  }

  /** The steps of the first `p` passes. */
  ghost function CountAll(arrivals: seq<seq<Arrivals>>, p: nat): nat {
    if p == 0 then 0 else CountAll(arrivals, p - 1) + Count(During(arrivals, p - 1), NUM_LEVELS + 1)
  }

  lemma NoneCounted(e: int, arrivals: seq<seq<Arrivals>>)
    requires 0 <= e < WORD
    ensures Moved(e, CountAll(arrivals, 0)) == e
  {
    EpochStays(e);
  }

  lemma CountNext(e: int, arrivals: seq<seq<Arrivals>>, p: nat)
    requires p > 0
    ensures Moved(Moved(e, CountAll(arrivals, p - 1)), Count(During(arrivals, p - 1), NUM_LEVELS + 1)) ==
      Moved(e, CountAll(arrivals, p))
  {
    hide Moved, Count;
    MovedOn(e, CountAll(arrivals, p - 1), Count(During(arrivals, p - 1), NUM_LEVELS + 1));
  }

  ghost function Nothing(): seq<seq<Thread>> {
    seq(NUM_LEVELS, _ => [])
  }

  /** The queues before pass `p`, if all passes before it found nothing. */
  ghost function Seen(levels: seq<seq<Thread>>, arrivals: seq<seq<Arrivals>>, p: nat): (r: seq<seq<Thread>>)
    requires |levels| == NUM_LEVELS && forall p :: 0 <= p < |arrivals| ==> AllFit(arrivals[p])
    ensures |r| == NUM_LEVELS
  {
    if p == 0 then levels else Before(Seen(levels, arrivals, p - 1), During(arrivals, p - 1), NUM_LEVELS)
  }

  ghost function Flat(lists: seq<seq<Thread>>): seq<Thread> {
    if lists == [] then [] else Flat(lists[..|lists| - 1]) + lists[|lists| - 1]
  }

  lemma FlatMore(lists: seq<seq<Thread>>, l: seq<Thread>)
    ensures Flat(lists + [l]) == Flat(lists) + l
  {
    assert (lists + [l])[..|lists|] == lists;
  }

  /** Threads that do not change are judged the same. */
  twostate lemma Frozen(levels: seq<seq<Thread>>)
    requires forall i, j :: 0 <= i < |levels| && 0 <= j < |levels[i]| ==> unchanged(levels[i][j])
    ensures Exhausted(levels) == old(Exhausted(levels))
    ensures EndedIn(levels, |levels|) == old(EndedIn(levels, |levels|))
  {
  }

  lemma SeenNext(levels: seq<seq<Thread>>, arrivals: seq<seq<Arrivals>>, p: nat)
    requires |levels| == NUM_LEVELS && p > 0 && forall p :: 0 <= p < |arrivals| ==> AllFit(arrivals[p])
    ensures Seen(levels, arrivals, p) == Before(Seen(levels, arrivals, p - 1), During(arrivals, p - 1), NUM_LEVELS)
  {
  }

  lemma SeenFirst(levels: seq<seq<Thread>>, arrivals: seq<seq<Arrivals>>)
    requires |levels| == NUM_LEVELS && forall p :: 0 <= p < |arrivals| ==> AllFit(arrivals[p])
    ensures Seen(levels, arrivals, 0) == levels && Flat([]) == []
  {
  }

  lemma IsExhausted(met: seq<seq<Thread>>)
    requires forall j :: 0 <= j < |met| ==> NoneEligible(met[j])
    ensures Exhausted(met) && EndedIn(met, |met|) == DyingBelow(met, |met|)
  {
  }

  lemma IsPicked(was: seq<seq<Thread>>, during: seq<Arrivals>, now: seq<seq<Thread>>, level: int, thread: Thread)
    requires |was| == |now| == NUM_LEVELS && AllFit(during) && 0 <= level < NUM_LEVELS
    requires forall j :: 0 <= j < level ==> NoneEligible(Met(was, during)[j])
    requires Drained(Met(was, during)[level], thread, now[level])
    requires now == Before(was, during, level)[level := now[level]]
    ensures Picked(was, during, now, level, thread)
    ensures var met := Met(was, during);
      EndedIn(met, level) == DyingBelow(met, level) + Dying(met[level][..Skip(met[level])])
  {
    hide Met, Before, Drained, NoneEligible, Skip, Dying, DyingBelow;
  }

  lemma DyingNone(met: seq<seq<Thread>>)
    ensures DyingBelow(met, 0) == []
  {
  }

  lemma DyingNext(met: seq<seq<Thread>>, i: int)
    requires 0 <= i < |met|
    ensures DyingBelow(met, i + 1) == DyingBelow(met, i) + Dying(met[i])
  {
  }

  /** The threads terminated by a pass that ends at `level`. */
  ghost function EndedIn(levels: seq<seq<Thread>>, level: int): seq<Thread>
    requires 0 <= level <= |levels|
    reads set i, j | 0 <= i < |levels| && 0 <= j < |levels[i]| :: levels[i][j]
  {
    DyingBelow(levels, level) + if level == |levels| then [] else Dying(levels[level][..Skip(levels[level])])
  }

  lemma EpochMoves(e: int, n: int)
    requires 0 <= e < WORD && 0 < n < WORD
    ensures (e + n) % WORD != e
  {
    if e + n < WORD {
      ModUnique(e + n, WORD, 0, e + n);
    } else {
      ModUnique(e + n, WORD, 1, e + n - WORD);
    }
  }

  // ---------------------------------------------------------------- deadlines

  datatype Deadline = Deadline(expires: int, id: int)

  /** A deadline in the past or within the slack. */
  predicate Due(d: Deadline, now: int) {
    d.expires <= now || d.expires - now <= SLACK
  }

  /** `processDeadlines`: fires exactly the deadlines that are due, in order, and keeps the others. */
  method ProcessDeadlines(deadlines: MinHeap<Deadline>, now: int) returns (fired: seq<Deadline>)
    requires deadlines.Valid() && deadlines.key == ((d: Deadline) => d.expires)
    modifies deadlines
    ensures deadlines.Valid()
    ensures multiset(fired) + multiset(deadlines.storage) == old(multiset(deadlines.storage))
    ensures forall d :: d in fired ==> d.expires <= now + 500
    ensures forall d :: d in deadlines.storage ==> now + 500 < d.expires
    ensures forall i, j :: 0 <= i < j < |fired| ==> fired[i].expires <= fired[j].expires
  {
    hide Heap, Progress;
    fired := [];
    var doNext := true;
    ghost var all := multiset(deadlines.storage);
    NothingFired(deadlines.storage, now);
    while deadlines.storage != [] && doNext
      invariant deadlines.Valid()
      invariant multiset(fired) + multiset(deadlines.storage) == all
      invariant Progress(fired, deadlines.storage, now)
      invariant !doNext ==> forall d :: d in deadlines.storage ==> !Due(d, now)
      decreases |deadlines.storage|, doNext
    {
      var next := deadlines.Min();
      ghost var before := deadlines.storage;
      if Due(next, now) {
        deadlines.Extract();
        FireNext(fired, before, deadlines.storage, next, now);
        fired := fired + [next];
      } else {
        NoneDue(before, next, now);
        doNext := false;
      }
    }
    Fired(fired, deadlines.storage, now);
  }

  /** What has fired was due, in order, and before everything left. */
  ghost predicate Progress(fired: seq<Deadline>, rest: seq<Deadline>, now: int) {
    && (forall d :: d in fired ==> Due(d, now))
    && (forall d, e :: d in fired && e in rest ==> d.expires <= e.expires)
    && (forall i, j :: 0 <= i < j < |fired| ==> fired[i].expires <= fired[j].expires)
  }

  lemma Fired(fired: seq<Deadline>, rest: seq<Deadline>, now: int)
    requires Progress(fired, rest, now)
    ensures forall d :: d in fired ==> Due(d, now)
    ensures forall i, j :: 0 <= i < j < |fired| ==> fired[i].expires <= fired[j].expires
  {
  }

  lemma NothingFired(rest: seq<Deadline>, now: int)
    ensures Progress([], rest, now)
  {
  }

  lemma NoneDue(rest: seq<Deadline>, next: Deadline, now: int)
    requires !Due(next, now) && forall e :: e in rest ==> next.expires <= e.expires
    ensures forall d :: d in rest ==> !Due(d, now)
  {
  }

  lemma FireNext(fired: seq<Deadline>, before: seq<Deadline>, rest: seq<Deadline>, next: Deadline, now: int)
    requires Progress(fired, before, now) && Due(next, now) && next in before
    requires forall e :: e in before ==> next.expires <= e.expires
    requires multiset(rest) == multiset(before) - multiset{next}
    ensures Progress(fired + [next], rest, now)
    ensures multiset(fired + [next]) + multiset(rest) == multiset(fired) + multiset(before)
  {
    forall e | e in rest ensures e in before { FromMultiset(before, rest, next, e); }
    assert next in multiset(before);
  }

  lemma FromMultiset<T>(s: seq<T>, s': seq<T>, x: T, e: T)
    requires multiset(s') == multiset(s) - multiset{x} && e in s'
    ensures e in s
  {
    assert e in multiset(s');
  }

  lemma SkipIs(q: seq<Thread>, k: int)
    requires 0 <= k <= |q| && (forall j :: 0 <= j < k ==> !Eligible(q[j])) && (k < |q| ==> Eligible(q[k]))
    ensures Skip(q) == k
  {
  }

  ghost predicate NoneEligible(q: seq<Thread>)
    reads q
  {
    forall j :: 0 <= j < |q| ==> !Eligible(q[j])
  }

  /** The first eligible thread of the queue and what is behind it, or nothing. */
  ghost predicate Drained(q: seq<Thread>, thread: Thread?, rest: seq<Thread>)
    reads q
  {
    var k := Skip(q);
    if k == |q| then thread == null && rest == [] else thread == q[k] && rest == q[k + 1..]
  }

  lemma DrainedFacts(q: seq<Thread>, thread: Thread?, rest: seq<Thread>)
    requires Drained(q, thread, rest)
    ensures thread == null <==> NoneEligible(q)
    ensures thread == null ==> rest == []
    ensures NoneEligible(q) ==> q[..Skip(q)] == q
    ensures thread != null ==> Eligible(thread)
    ensures |rest| <= |q| && forall j :: 0 <= j < |rest| ==> rest[j] in q
  {
  }

  /** No level has an eligible thread. */
  ghost predicate Exhausted(levels: seq<seq<Thread>>)
    reads set i, j | 0 <= i < |levels| && 0 <= j < |levels[i]| :: levels[i][j]
  {
    forall i :: 0 <= i < |levels| ==> NoneEligible(levels[i])
  }

  /** Threads of the first `n` levels that are supposed to terminate. */
  ghost function DyingBelow(levels: seq<seq<Thread>>, n: int): seq<Thread>
    requires 0 <= n <= |levels|
    reads set i, j | 0 <= i < |levels| && 0 <= j < |levels[i]| :: levels[i][j]
  {
    if n == 0 then [] else DyingBelow(levels, n - 1) + Dying(levels[n - 1])
  }

  /** `thread` is the first eligible one of the best level that has one when it is looked at; better
      levels lose what they had then, its own loses the threads up to and including it. */
  ghost predicate Picked(was: seq<seq<Thread>>, during: seq<Arrivals>, now: seq<seq<Thread>>, level: int,
                         thread: Thread)
    requires |was| == NUM_LEVELS && AllFit(during)
    reads var met := Met(was, during); set i, j | 0 <= i < |met| && 0 <= j < |met[i]| :: met[i][j]
  {
    var met := Met(was, during);
    && 0 <= level < NUM_LEVELS && |now| == NUM_LEVELS
    && (forall i :: 0 <= i < level ==> NoneEligible(met[i]))
    && Drained(met[level], thread, now[level]) && now == Before(was, during, level)[level := now[level]]
  }
}
