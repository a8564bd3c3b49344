/**
 The scheduler of kernel/task.c, kernel/clock.c and the interrupt exits of kernel/entry.S
 as a step system over the order of the run ring.  The pointer-level methods of
 KernelTasks.dfy are proved to take exactly these steps.
 */
module Scheduling {

  /** The slice schedule() hands out; a tick that finds it used up forces a reschedule. */
  const TIMESLICE := 100
  const ULONG_MAX := 0xFFFF_FFFF

  /** `ring` lists the runnable tasks in link order, beginning with the idle task; `queues`
      lists the tasks blocked on each wait queue, in blocking order. */
  datatype Sched<T, Q> = Sched(
    ring: seq<T>, current: T, slice: map<T, int>, resched: map<T, bool>, queues: map<Q, seq<T>>)

  /** One interrupt-free stretch of kernel code.  A new task's need_resched is whatever kalloc
      left in its memory.  EnterIdle is system_idle, which gives up the idle task's slice. */
  datatype Op<T, Q> =
    | Tick
    | Interrupt
    | Create(task: T, garbage: bool)
    | Block(on: Q)
    | Wake(queue: Q)
    | EnterIdle

  ghost predicate Distinct<T>(s: seq<T>) {
    forall i, j :: 0 <= i < j < |s| ==> s[i] != s[j]
  }

  /** Position of an element. */
  function Pos<T(==)>(s: seq<T>, t: T): (k: nat)
    requires t in s
    ensures k < |s| && s[k] == t
    ensures forall i :: 0 <= i < k ==> s[i] != t
  {
    if s[0] == t then 0 else 1 + Pos(s[1..], t)
  }

  function Without<T>(s: seq<T>, k: nat): seq<T>
    requires k < |s|
  {
    s[..k] + s[k + 1..]
  }

  /** Every task there is stands in exactly one place, the run ring or one wait queue, and
      slices never exceed a full one. */
  ghost predicate WellFormed<T, Q>(s: Sched<T, Q>) {
    && s.ring != [] && Distinct(s.ring) && s.current in s.ring
    && (forall t :: t in s.ring ==> t in s.slice && t in s.resched && 0 <= s.slice[t] <= TIMESLICE)
    && (forall q :: q in s.queues ==> Distinct(s.queues[q]))
    && (forall q, t :: q in s.queues && t in s.queues[q] ==>
          t !in s.ring && t in s.slice && t in s.resched && 0 <= s.slice[t] <= TIMESLICE)
    && (forall q, r, t :: q in s.queues && r in s.queues && t in s.queues[q] && t in s.queues[r] ==> q == r)
    && (forall t :: t in s.slice ==> t in s.ring || Blocked(s, t))
  }

  ghost predicate Blocked<T, Q>(s: Sched<T, Q>, t: T) {
    exists q :: q in s.queues && t in s.queues[q]
  }

  // ---------------------------------------------------------------- the steps

  /** The task schedule() switches to from position k: cyclic order, skipping the idle task
      unless it is alone. */
  function After<T>(ring: seq<T>, k: nat): T
    requires k < |ring|
  {
    if k + 1 < |ring| then ring[k + 1] else if |ring| > 1 then ring[1] else ring[0]
  }

  /** schedule() when the outgoing task is still runnable. */
  function Schedule<T(==), Q>(s: Sched<T, Q>): Sched<T, Q>
    requires s.ring != [] && s.current in s.ring
  {
    s.(current := After(s.ring, Pos(s.ring, s.current)),
       slice := s.slice[s.current := TIMESLICE],
       resched := s.resched[s.current := false])
  }

  /** ret_from_intr: schedule only if the current task asks for it. */
  function Return<T(==), Q>(s: Sched<T, Q>): Sched<T, Q>
    requires s.ring != [] && s.current in s.ring && s.current in s.resched
  {
    if s.resched[s.current] then Schedule(s) else s
  }

  function Enabled<T(==), Q>(s: Sched<T, Q>, op: Op<T, Q>): bool {
    && s.ring != [] && s.current in s.ring && s.current in s.slice && s.current in s.resched
    && match op
       case Tick => true
       case Interrupt => true
       case Create(t, _) => t !in s.slice
       case Block(q) => q in s.queues && Pos(s.ring, s.current) > 0
       case Wake(q) => q in s.queues
       case EnterIdle => s.current == s.ring[0]
  }

  function Step<T(==), Q>(s: Sched<T, Q>, op: Op<T, Q>): Sched<T, Q>
    requires Enabled(s, op)
  {
    match op
    case Tick =>
      var left := s.slice[s.current];
      if left == 0
      then Return(s.(slice := s.slice[s.current := ULONG_MAX], resched := s.resched[s.current := true]))
      else Return(s.(slice := s.slice[s.current := left - 1]))
    case Interrupt => Return(s)
    case Create(t, garbage) =>
      s.(ring := s.ring + [t], slice := s.slice[t := TIMESLICE], resched := s.resched[t := garbage])
    case Block(q) =>
      var k := Pos(s.ring, s.current);
      var ring := Without(s.ring, k);
      s.(ring := ring, current := After(ring, k - 1), resched := s.resched[s.current := true],
         queues := s.queues[q := s.queues[q] + [s.current]])
    case Wake(q) =>
      s.(ring := s.ring + s.queues[q], queues := s.queues[q := []])
    case EnterIdle => s.(slice := s.slice[s.current := 0])
  }

  function Run<T(==), Q>(s: Sched<T, Q>, ops: seq<Op<T, Q>>): Sched<T, Q>
    requires Possible(s, ops)
    decreases |ops|
  {
    if ops == [] then s else Run(Step(s, ops[0]), ops[1..])
  }

  /** The ops can be taken one after the other. */
  predicate Possible<T(==), Q>(s: Sched<T, Q>, ops: seq<Op<T, Q>>)
    decreases |ops|
  {
    ops == [] || (Enabled(s, ops[0]) && Possible(Step(s, ops[0]), ops[1..]))
  }

  function Ticks<T, Q>(ops: seq<Op<T, Q>>): nat {
    if ops == [] then 0 else (if ops[0].Tick? then 1 else 0) + Ticks(ops[1..])
  }

  // ---------------------------------------------------------------- every run keeps the invariant

  lemma AfterInRing<T>(ring: seq<T>, k: nat)
    requires k < |ring|
    ensures After(ring, k) in ring
  {
  }

  lemma ScheduleKeeps<T, Q>(s: Sched<T, Q>)
    requires s.ring != [] && s.current in s.ring
    requires WellFormed(s.(slice := s.slice[s.current := TIMESLICE]))
    ensures WellFormed(Schedule(s))
  {
    AfterInRing(s.ring, Pos(s.ring, s.current));
    var u := s.(slice := s.slice[s.current := TIMESLICE]);
    forall t | t in u.slice && t !in u.ring
      ensures Blocked(Schedule(s), t)
    {
      assert Blocked(u, t);
      var q :| q in u.queues && t in u.queues[q];
      assert q in Schedule(s).queues;
    }
  }

  /** Changing the current task's own slice, within bounds, keeps the invariant. */
  lemma SliceKeeps<T, Q>(s: Sched<T, Q>, v: int)
    requires WellFormed(s) && 0 <= v <= TIMESLICE
    ensures WellFormed(s.(slice := s.slice[s.current := v]))
  {
    var u := s.(slice := s.slice[s.current := v]);
    forall t | t in u.slice && t !in u.ring
      ensures Blocked(u, t)
    {
      assert Blocked(s, t);
      var q :| q in s.queues && t in s.queues[q];
      assert q in u.queues;
    }
  }

  lemma CurrentKnown<T, Q>(s: Sched<T, Q>)
    requires WellFormed(s)
    ensures s.ring != [] && s.current in s.ring && s.current in s.slice && s.current in s.resched
    ensures 0 <= s.slice[s.current] <= TIMESLICE
  {
  }

  lemma TickKeeps<T, Q>(s: Sched<T, Q>)
    requires WellFormed(s)
    ensures Enabled(s, Tick) && WellFormed(Step(s, Tick))
  {
    hide WellFormed;
    CurrentKnown(s);
    var left := s.slice[s.current];
    SliceKeeps(s, TIMESLICE);
    if left == 0 {
      var u := s.(slice := s.slice[s.current := ULONG_MAX], resched := s.resched[s.current := true]);
      assert u.slice[s.current := TIMESLICE] == s.slice[s.current := TIMESLICE];
      ReschedKeeps(s.(slice := s.slice[s.current := TIMESLICE]), true);
      ScheduleKeeps(u);
    } else {
      var u := s.(slice := s.slice[s.current := left - 1]);
      SliceKeeps(s, left - 1);
      assert u.slice[s.current := TIMESLICE] == s.slice[s.current := TIMESLICE];
      ScheduleKeeps(u);
    }
  }

  lemma ReschedKeeps<T, Q>(s: Sched<T, Q>, v: bool)
    requires WellFormed(s)
    ensures WellFormed(s.(resched := s.resched[s.current := v]))
  {
    var u := s.(resched := s.resched[s.current := v]);
    forall t | t in u.slice && t !in u.ring
      ensures Blocked(u, t)
    {
      assert Blocked(s, t);
      var q :| q in s.queues && t in s.queues[q];
      assert q in u.queues;
    }
  }

  lemma InterruptKeeps<T, Q>(s: Sched<T, Q>)
    requires WellFormed(s)
    ensures Enabled(s, Interrupt) && WellFormed(Step(s, Interrupt))
  {
    SliceKeeps(s, TIMESLICE);
    ScheduleKeeps(s);
  }

  lemma EnterIdleKeeps<T, Q>(s: Sched<T, Q>)
    requires WellFormed(s) && Enabled(s, EnterIdle)
    ensures WellFormed(Step(s, EnterIdle))
  {
    SliceKeeps(s, 0);
  }

  lemma CreateKeeps<T, Q>(s: Sched<T, Q>, t: T, garbage: bool)
    requires WellFormed(s) && Enabled(s, Create(t, garbage))
    ensures WellFormed(Step(s, Create(t, garbage)))
  {
    var u := Step(s, Create(t, garbage));
    forall x | x in u.slice && x !in u.ring
      ensures Blocked(u, x)
    {
      assert x in s.slice;
      assert u.ring[|s.ring|] == t;
      assert forall y :: y in s.ring ==> y in u.ring;
      assert Blocked(s, x);
      var q :| q in s.queues && x in s.queues[q];
      assert q in u.queues;
    }
  }

  lemma WithoutIn<T>(s: seq<T>, k: nat, t: T)
    requires k < |s| && Distinct(s)
    ensures t in Without(s, k) <==> t in s && t != s[k]
    ensures Distinct(Without(s, k))
  {
    var w := Without(s, k);
    if t in s && t != s[k] {
      var i :| 0 <= i < |s| && s[i] == t;
      assert if i < k then w[i] == t else w[i - 1] == t;
    }
  }

  lemma BlockPlaces<T, Q>(s: Sched<T, Q>, q: Q, t: T)
    requires WellFormed(s) && Enabled(s, Block(q)) && t in s.slice
    ensures t in Step(s, Block(q)).ring || Blocked(Step(s, Block(q)), t)
  {
    var k := Pos(s.ring, s.current);
    var u := Step(s, Block(q));
    WithoutIn(s.ring, k, t);
    if t == s.current {
      assert u.queues[q][|s.queues[q]|] == t;
    } else if t !in s.ring {
      assert Blocked(s, t);
      var r :| r in s.queues && t in s.queues[r];
      assert r in u.queues && t in u.queues[r];
    }
  }

  lemma BlockKeeps<T, Q>(s: Sched<T, Q>, q: Q)
    requires WellFormed(s) && Enabled(s, Block(q))
    ensures WellFormed(Step(s, Block(q)))
  {
    hide Blocked, After;
    var k := Pos(s.ring, s.current);
    var u := Step(s, Block(q));
    AfterInRing(Without(s.ring, k), k - 1);
    WithoutIn(s.ring, k, s.current);
    assert forall t :: t in u.ring ==> t in s.ring && t != s.current;
    forall t | t in u.slice
      ensures t in u.ring || Blocked(u, t)
    {
      BlockPlaces(s, q, t);
    }
  }

  lemma DistinctConcat<T>(a: seq<T>, b: seq<T>)
    requires Distinct(a) && Distinct(b) && (forall t :: t in b ==> t !in a)
    ensures Distinct(a + b)
  {
    var s := a + b;
    forall i, j | 0 <= i < j < |s|
      ensures s[i] != s[j]
    {
      if i < |a| <= j { assert b[j - |a|] in b && a[i] in a; }
    }
  }

  lemma WakePlaces<T, Q>(s: Sched<T, Q>, q: Q, t: T)
    requires WellFormed(s) && Enabled(s, Wake(q)) && t in s.slice
    ensures t in Step(s, Wake(q)).ring || Blocked(Step(s, Wake(q)), t)
  {
    var u := Step(s, Wake(q));
    if t !in s.ring {
      assert Blocked(s, t);
      var r :| r in s.queues && t in s.queues[r];
      assert r in u.queues;
      assert r != q ==> t in u.queues[r];
    }
  }

  lemma WakeKeeps<T, Q>(s: Sched<T, Q>, q: Q)
    requires WellFormed(s) && Enabled(s, Wake(q))
    ensures WellFormed(Step(s, Wake(q)))
  {
    var u := Step(s, Wake(q));
    DistinctConcat(s.ring, s.queues[q]);
    assert forall t :: t in u.ring <==> t in s.ring || t in s.queues[q];
    forall t | t in u.slice
      ensures t in u.ring || Blocked(u, t)
    {
      WakePlaces(s, q, t);
    }
  }

  lemma StepKeeps<T, Q>(s: Sched<T, Q>, op: Op<T, Q>)
    requires WellFormed(s) && Enabled(s, op)
    ensures WellFormed(Step(s, op))
  {
    hide Step, WellFormed;
    match op
    case Tick => TickKeeps(s);
    case Interrupt => InterruptKeeps(s);
    case Create(t, garbage) => CreateKeeps(s, t, garbage);
    case Block(q) => BlockKeeps(s, q);
    case Wake(q) => WakeKeeps(s, q);
    case EnterIdle => EnterIdleKeeps(s);
  }

  lemma {:induction false} RunKeeps<T, Q>(s: Sched<T, Q>, ops: seq<Op<T, Q>>)
    requires WellFormed(s) && Possible(s, ops)
    ensures WellFormed(Run(s, ops))
    decreases |ops|
  {
    hide Step, WellFormed;
    if ops != [] {
      StepKeeps(s, ops[0]);
      RunKeeps(Step(s, ops[0]), ops[1..]);
    }
  }

  // ---------------------------------------------------------------- whom schedule() picks

  lemma PosUnique<T>(s: seq<T>, k: nat)
    requires Distinct(s) && k < |s|
    ensures Pos(s, s[k]) == k
  {
  }

  /** The idle task runs exactly when no other task is runnable, whether the outgoing task
      has just blocked or not. */
  lemma IdleOnlyWhenAlone<T, Q>(s: Sched<T, Q>, q: Q)
    requires WellFormed(s)
    ensures Schedule(s).current == s.ring[0] <==> |s.ring| == 1
    ensures Enabled(s, Block(q)) ==>
              var u := Step(s, Block(q));
              u.ring[0] == s.ring[0] && (u.current == u.ring[0] <==> |u.ring| == 1)
  {
    if Enabled(s, Block(q)) {
      WithoutIn(s.ring, Pos(s.ring, s.current), s.current);
    }
  }

  /** schedule() goes round the runnable tasks, skipping the idle task at the front of the ring, and a
      task that blocks hands over to the same successor. */
  lemma ScheduleRotates<T, Q>(s: Sched<T, Q>, q: Q)
    requires WellFormed(s)
    ensures var k, n := Pos(s.ring, s.current), |s.ring| - 1;
            && Schedule(s).current == (if n > 0 then s.ring[1 + k % n] else s.ring[0])
            && (Enabled(s, Block(q)) ==> Step(s, Block(q)).current == if n > 1 then s.ring[1 + k % n] else s.ring[0])
  {
    var k, n := Pos(s.ring, s.current), |s.ring| - 1;
    Rotates(s);
    if Enabled(s, Block(q)) {
      var u := Without(s.ring, k);
      assert Step(s, Block(q)).current == After(u, k - 1);
      RoundAbout(k, n);
    }
  }

  lemma RoundAbout(k: int, n: int)
    requires 0 < n && 0 <= k <= n
    ensures k % n == if k < n then k else 0
  {
  }

  /** The slices schedule() and create_process hand out, and the requests they leave. */
  lemma FreshSlices<T, Q>(s: Sched<T, Q>, op: Op<T, Q>)
    requires WellFormed(s) && Enabled(s, op)
    ensures Schedule(s).slice[s.current] == 100 && !Schedule(s).resched[s.current]
    ensures op.Create? ==> Step(s, op).slice[op.task] == 100 && Step(s, op).resched[op.task] == op.garbage
    ensures op.Block? ==> Step(s, op).resched[s.current]
  {
  }

  /** The request a blocking task leaves makes it yield at the first interrupt after it is woken. */
  lemma RequestIsHonoured<T, Q>(s: Sched<T, Q>)
    requires WellFormed(s)
    ensures Step(s, Interrupt) == if s.resched[s.current] then Schedule(s) else s
  {
  }

  /** A wait queue is first in, first out: when it is woken, the tasks that blocked on it stand in the
      ring behind all others, in the order in which they blocked. */
  lemma QueueIsFifo<T, Q>(s: Sched<T, Q>, q: Q, t: T, x: T)
    requires WellFormed(s) && Enabled(s, Block(q)) && t in s.queues[q]
    requires x in s.ring && x != s.current
    ensures var u := Step(s, Block(q));
            var w := Step(u, Wake(q));
            && t in w.ring && s.current in w.ring && x in w.ring && w.queues[q] == []
            && Pos(w.ring, x) < Pos(w.ring, t) < Pos(w.ring, s.current)
  {
    var u := Step(s, Block(q));
    StepKeeps(s, Block(q));
    var w := Step(u, Wake(q));
    StepKeeps(u, Wake(q));
    WithoutIn(s.ring, Pos(s.ring, s.current), x);
    AppendKeepsPos(u.ring, u.queues[q], x);
    var i := Pos(s.queues[q], t);
    assert u.queues[q][i] == t && u.queues[q][|u.queues[q]| - 1] == s.current;
    assert w.ring[|u.ring| + i] == t && w.ring[|w.ring| - 1] == s.current;
    PosUnique(w.ring, |u.ring| + i);
    PosUnique(w.ring, |w.ring| - 1);
  }

  /** system_idle lets the first runnable task in at the next tick. */
  lemma IdleYields<T, Q>(s: Sched<T, Q>)
    requires WellFormed(s) && Enabled(s, EnterIdle) && |s.ring| > 1
    ensures Step(Step(s, EnterIdle), Tick).current == s.ring[1]
  {
    assert Pos(s.ring, s.ring[0]) == 0;
  }

  // ---------------------------------------------------------------- turns

  function TickRun<T, Q>(n: nat): seq<Op<T, Q>> { if n == 0 then [] else [Tick] + TickRun(n - 1) }

  /** A slice of v lets a task run through v ticks; the next one switches. */
  lemma {:induction false} TurnLasts<T, Q>(s: Sched<T, Q>, n: nat)
    requires WellFormed(s) && !s.resched[s.current] && n <= s.slice[s.current]
    ensures Possible(s, TickRun<T, Q>(n))
    ensures Run(s, TickRun(n)) == s.(slice := s.slice[s.current := s.slice[s.current] - n])
    decreases n
  {
    hide WellFormed, Step;
    CurrentKnown(s);
    var c := s.current;
    if n == 0 {
      assert s.slice[c := s.slice[c]] == s.slice;
    } else {
      var u := s.(slice := s.slice[c := s.slice[c] - 1]);
      TickCountsDown(s);
      StepKeeps(s, Tick);
      TurnLasts(u, n - 1);
      assert TickRun<T, Q>(n)[0] == Tick && TickRun<T, Q>(n)[1..] == TickRun<T, Q>(n - 1);
      assert u.slice[c := u.slice[c] - (n - 1)] == s.slice[c := s.slice[c] - n];
    }
  }

  lemma TickCountsDown<T, Q>(s: Sched<T, Q>)
    requires WellFormed(s) && !s.resched[s.current] && 0 < s.slice[s.current]
    ensures Enabled(s, Tick) && Step(s, Tick) == s.(slice := s.slice[s.current := s.slice[s.current] - 1])
  {
  }

  /** Left to the clock, a task with a full slice keeps the processor for exactly 101 ticks; then the
      next one in the ring has it, and nothing else has changed. */
  lemma FullTurn<T, Q>(s: Sched<T, Q>)
    requires WellFormed(s) && !s.resched[s.current] && s.slice[s.current] == 100
    ensures Possible(s, TickRun<T, Q>(100)) && Run(s, TickRun(100)).current == s.current
    ensures Enabled(Run(s, TickRun(100)), Tick)
    ensures Step(Run(s, TickRun(100)), Tick)
            == s.(current := if |s.ring| > 1 then s.ring[1 + Pos(s.ring, s.current) % (|s.ring| - 1)] else s.ring[0])
  {
    hide Run, Possible, Step, WellFormed, TickRun, After, Distinct;
    var c := s.current;
    CurrentKnown(s);
    TurnLasts(s, 100);
    var u := s.(slice := s.slice[c := 0]);
    assert Run(s, TickRun(100)) == u;
    LastTick(s);
    Rotates(s);
  }

  lemma LastTick<T, Q>(s: Sched<T, Q>)
    requires WellFormed(s) && !s.resched[s.current] && s.slice[s.current] == 100
    ensures var u := s.(slice := s.slice[s.current := 0]);
            Enabled(u, Tick) && Step(u, Tick) == s.(current := After(s.ring, Pos(s.ring, s.current)))
  {
    hide WellFormed, After, Pos;
    CurrentKnown(s);
    var c := s.current;
    var u := s.(slice := s.slice[c := 0]);
    var v := u.(slice := u.slice[c := ULONG_MAX], resched := u.resched[c := true]);
    assert Step(u, Tick) == Schedule(v);
    assert v.slice[c := TIMESLICE] == s.slice && v.resched[c := false] == s.resched;
  }

  lemma Rotates<T, Q>(s: Sched<T, Q>)
    requires s.ring != [] && s.current in s.ring
    ensures var k, n := Pos(s.ring, s.current), |s.ring| - 1;
            After(s.ring, k) == if n > 0 then s.ring[1 + k % n] else s.ring[0]
  {
    var k, n := Pos(s.ring, s.current), |s.ring| - 1;
    if n > 0 { RoundAbout(k, n); }
  }

  // ---------------------------------------------------------------- bounded waiting

  /** t is ahead of the current task in the ring. */
  predicate Ahead<T(==), Q>(s: Sched<T, Q>, t: T) {
    s.current in s.ring && t in s.ring && Pos(s.ring, s.current) < Pos(s.ring, t)
  }

  function Distance<T(==), Q>(s: Sched<T, Q>, t: T): int
    requires Ahead(s, t)
  {
    Pos(s.ring, t) - Pos(s.ring, s.current)
  }

  /** An upper bound on the ticks until t runs: full turns for the tasks between, and what is
      left of the current one. */
  function Budget<T(==), Q>(s: Sched<T, Q>, t: T): int
    requires Ahead(s, t) && s.current in s.slice
  {
    (TIMESLICE + 1) * (Distance(s, t) - 1) + s.slice[s.current] + 1
  }

  lemma ScheduleProgress<T, Q>(s: Sched<T, Q>, t: T)
    requires s.ring != [] && Distinct(s.ring) && Ahead(s, t)
    requires forall x :: x in s.ring && x != s.current ==> x in s.slice && 0 <= s.slice[x] <= TIMESLICE
    ensures var u := Schedule(s);
            u.current == t || (Ahead(u, t) && u.current in u.slice
                               && Budget(u, t) <= (TIMESLICE + 1) * (Distance(s, t) - 1))
  {
    var k := Pos(s.ring, s.current);
    PosUnique(s.ring, k + 1);
  }

  lemma AppendKeepsPos<T>(ring: seq<T>, more: seq<T>, t: T)
    requires t in ring
    ensures t in ring + more && Pos(ring + more, t) == Pos(ring, t)
    decreases ring
  {
    assert (ring + more)[Pos(ring, t)] == t;
    if ring[0] != t {
      assert (ring + more)[1..] == ring[1..] + more;
      AppendKeepsPos(ring[1..], more, t);
    }
  }

  lemma BlockProgress<T, Q>(s: Sched<T, Q>, q: Q, t: T)
    requires WellFormed(s) && Enabled(s, Block(q)) && Ahead(s, t)
    ensures var u := Step(s, Block(q));
            u.current == t || (Ahead(u, t) && u.current in u.slice && Budget(u, t) <= Budget(s, t))
  {
    var k, j := Pos(s.ring, s.current), Pos(s.ring, t);
    var u := Step(s, Block(q));
    WithoutIn(s.ring, k, t);
    assert u.ring[j - 1] == t && u.current == u.ring[k];
    PosUnique(u.ring, j - 1);
    PosUnique(u.ring, k);
    assert u.current == s.ring[k + 1];
  }

  lemma TickProgress<T, Q>(s: Sched<T, Q>, t: T)
    requires WellFormed(s) && Ahead(s, t)
    ensures var u := Step(s, Tick);
            u.current == t || (Ahead(u, t) && u.current in u.slice && Budget(u, t) < Budget(s, t))
  {
    var left := s.slice[s.current];
    if left == 0 {
      ScheduleProgress(s.(slice := s.slice[s.current := ULONG_MAX], resched := s.resched[s.current := true]), t);
    } else {
      ScheduleProgress(s.(slice := s.slice[s.current := left - 1]), t);
    }
  }

  /** No step puts t further from its turn, and each tick brings it closer. */
  lemma StepProgress<T, Q>(s: Sched<T, Q>, op: Op<T, Q>, t: T)
    requires WellFormed(s) && Enabled(s, op) && Ahead(s, t)
    ensures var u := Step(s, op);
            u.current == t
            || (Ahead(u, t) && u.current in u.slice
                && Budget(u, t) <= Budget(s, t) - if op.Tick? then 1 else 0)
  {
    match op
    case Tick => TickProgress(s, t);
    case Interrupt => ScheduleProgress(s, t);
    case Create(x, garbage) =>
      AppendKeepsPos(s.ring, [x], t);
      AppendKeepsPos(s.ring, [x], s.current);
    case Block(q) => BlockProgress(s, q, t);
    case Wake(q) =>
      AppendKeepsPos(s.ring, s.queues[q], t);
      AppendKeepsPos(s.ring, s.queues[q], s.current);
    case EnterIdle =>
  }

  lemma {:induction false} RunsWithinBudget<T, Q>(s: Sched<T, Q>, ops: seq<Op<T, Q>>, t: T) returns (n: nat)
    requires WellFormed(s) && Possible(s, ops) && Ahead(s, t) && Budget(s, t) <= Ticks(ops)
    ensures 0 < n <= |ops| && Possible(s, ops[..n]) && Run(s, ops[..n]).current == t
    ensures Ticks(ops[..n]) <= Budget(s, t)
    decreases |ops|
  {
    hide WellFormed, Step;
    assert 0 < Budget(s, t) by { BudgetPositive(s, t); }
    var u := Step(s, ops[0]);
    StepKeeps(s, ops[0]);
    StepProgress(s, ops[0], t);
    if u.current == t {
      n := 1;
      assert ops[..1] == [ops[0]];
      assert Run(u, []) == u;
    } else {
      var m := RunsWithinBudget(u, ops[1..], t);
      n := m + 1;
      assert ops[..n][0] == ops[0] && ops[..n][1..] == ops[1..][..m];
    }
  }

  lemma BudgetPositive<T, Q>(s: Sched<T, Q>, t: T)
    requires WellFormed(s) && Ahead(s, t)
    ensures s.current in s.slice && 0 < Budget(s, t) <= (TIMESLICE + 1) * Distance(s, t)
  {
  }

  /** Bounded waiting: a task at forward distance d becomes current within 101 * d timer ticks,
      whatever blocks, wakes, creations and other interrupts happen in between. */
  lemma BoundedWaiting<T, Q>(s: Sched<T, Q>, ops: seq<Op<T, Q>>, t: T) returns (n: nat)
    requires WellFormed(s) && Possible(s, ops) && Ahead(s, t)
    requires 101 * Distance(s, t) <= Ticks(ops)
    ensures 0 < n <= |ops| && Possible(s, ops[..n]) && Run(s, ops[..n]).current == t
    ensures Ticks(ops[..n]) <= 101 * Distance(s, t)
  {
    BudgetPositive(s, t);
    n := RunsWithinBudget(s, ops, t);
  }

  /** A new or woken task joins the ring ahead of the current one, behind all that were there. */
  lemma ArrivalsJoinAhead<T, Q>(s: Sched<T, Q>, op: Op<T, Q>, t: T)
    requires WellFormed(s) && Enabled(s, op)
    requires match op case Create(x, _) => t == x case Wake(q) => t in s.queues[q] case _ => false
    ensures var u := Step(s, op);
            && Ahead(u, t)
            && Distance(u, t) == |s.ring| - Pos(s.ring, s.current)
                                 + if op.Create? then 0 else Pos(s.queues[op.queue], t)
  {
    StepKeeps(s, op);
    var u := Step(s, op);
    var more := if op.Create? then [t] else s.queues[op.queue];
    AppendKeepsPos(s.ring, more, s.current);
    var j := if op.Create? then 0 else Pos(s.queues[op.queue], t);
    assert u.ring[|s.ring| + j] == t;
    PosUnique(u.ring, |s.ring| + j);
  }

  // ---------------------------------------------------------------- everyone gets a turn

  /** How many tasks join the ring. */
  function Joining<T(==), Q>(s: Sched<T, Q>, op: Op<T, Q>): nat
    requires Enabled(s, op)
  {
    match op
    case Create(_, _) => 1
    case Wake(q) => |s.queues[q]|
    case _ => 0
  }

  function Arrivals<T(==), Q>(s: Sched<T, Q>, ops: seq<Op<T, Q>>): nat
    requires Possible(s, ops)
    decreases |ops|
  {
    if ops == [] then 0 else Joining(s, ops[0]) + Arrivals(Step(s, ops[0]), ops[1..])
  }

  /** A runnable task other than the idle and the current one. */
  predicate Waiting<T(==), Q>(s: Sched<T, Q>, t: T) {
    s.current in s.ring && t in s.ring && t != s.current && Pos(s.ring, t) > 0
  }

  /** How many turns away t is, going round the ring. */
  function Turns<T(==), Q>(s: Sched<T, Q>, t: T): (n: int)
    requires Waiting(s, t)
    ensures 0 < n < |s.ring|
  {
    var k, j := Pos(s.ring, s.current), Pos(s.ring, t);
    if k < j then j - k else |s.ring| - 1 - k + j
  }

  function Patience<T(==), Q>(s: Sched<T, Q>, t: T): int
    requires Waiting(s, t) && s.current in s.slice
  {
    101 * (Turns(s, t) - 1) + s.slice[s.current] + 1
  }

  lemma RotateProgress<T, Q>(s: Sched<T, Q>, t: T)
    requires s.ring != [] && Distinct(s.ring) && Waiting(s, t)
    requires forall x :: x in s.ring && x != s.current ==> x in s.slice && 0 <= s.slice[x] <= 100
    ensures var u := Schedule(s);
            u.current == t || (Waiting(u, t) && u.current in u.slice && Patience(u, t) <= 101 * (Turns(s, t) - 1))
  {
    var k, n := Pos(s.ring, s.current), |s.ring| - 1;
    if k < n { PosUnique(s.ring, k + 1); } else { PosUnique(s.ring, 1); }
  }

  lemma BlockTurns<T, Q>(s: Sched<T, Q>, q: Q, t: T)
    requires WellFormed(s) && Enabled(s, Block(q)) && Waiting(s, t)
    ensures var u := Step(s, Block(q));
            u.current == t || (Waiting(u, t) && u.current in u.slice && Patience(u, t) <= Patience(s, t))
  {
    var k, j := Pos(s.ring, s.current), Pos(s.ring, t);
    var u := Step(s, Block(q));
    WithoutIn(s.ring, k, t);
    var j' := if k < j then j - 1 else j;
    assert u.ring[j'] == t;
    PosUnique(u.ring, j');
    var k' := if k < |u.ring| then k else 1;
    assert u.current == u.ring[k'];
    PosUnique(u.ring, k');
  }

  lemma JoinTurns<T, Q>(s: Sched<T, Q>, more: seq<T>, t: T, u: Sched<T, Q>)
    requires s.current in s.slice && Waiting(s, t) && u.ring == s.ring + more && u.current == s.current
    requires s.current in u.slice && u.slice[s.current] == s.slice[s.current]
    ensures Waiting(u, t) && Patience(u, t) <= Patience(s, t) + 101 * |more|
  {
    AppendKeepsPos(s.ring, more, t);
    AppendKeepsPos(s.ring, more, s.current);
  }

  lemma TickTurns<T, Q>(s: Sched<T, Q>, t: T)
    requires WellFormed(s) && Waiting(s, t)
    ensures Enabled(s, Tick)
    ensures var u := Step(s, Tick);
            u.current == t || (Waiting(u, t) && u.current in u.slice && Patience(u, t) < Patience(s, t))
  {
    var left := s.slice[s.current];
    if left == 0 {
      RotateProgress(s.(slice := s.slice[s.current := ULONG_MAX], resched := s.resched[s.current := true]), t);
    } else {
      RotateProgress(s.(slice := s.slice[s.current := left - 1]), t);
    }
  }

  /** Each step brings a waiting task closer to its turn, up to a turn for every task that joins. */
  lemma StepTurns<T, Q>(s: Sched<T, Q>, op: Op<T, Q>, t: T)
    requires WellFormed(s) && Enabled(s, op) && Waiting(s, t)
    ensures var u := Step(s, op);
            u.current == t
            || (Waiting(u, t) && u.current in u.slice
                && Patience(u, t) <= Patience(s, t) + 101 * Joining(s, op) - if op.Tick? then 1 else 0)
  {
    match op
    case Tick => TickTurns(s, t);
    case Interrupt => RotateProgress(s, t);
    case Create(x, garbage) => JoinTurns(s, [x], t, Step(s, op));
    case Block(q) => BlockTurns(s, q, t);
    case Wake(q) => JoinTurns(s, s.queues[q], t, Step(s, op));
    case EnterIdle =>
  }

  /** Every waiting task, also one that current has already passed, becomes current within 101 ticks
      for each turn it is away and for each task that joins meanwhile. */
  lemma {:induction false} EveryoneGetsATurn<T, Q>(s: Sched<T, Q>, ops: seq<Op<T, Q>>, t: T) returns (n: nat)
    requires WellFormed(s) && Possible(s, ops) && Waiting(s, t)
    requires 101 * (Turns(s, t) - 1) + s.slice[s.current] + 1 + 101 * Arrivals(s, ops) <= Ticks(ops)
    ensures 0 < n <= |ops| && Possible(s, ops[..n]) && Run(s, ops[..n]).current == t
    ensures Ticks(ops[..n]) <= 101 * (Turns(s, t) + Arrivals(s, ops))
    decreases |ops|
  {
    n := WithinPatience(s, ops, t);
    TurnsBound(s, t);
  }

  lemma TurnsBound<T, Q>(s: Sched<T, Q>, t: T)
    requires WellFormed(s) && Waiting(s, t)
    ensures s.current in s.slice && 0 < Patience(s, t) <= 101 * Turns(s, t)
  {
  }

  lemma {:induction false} WithinPatience<T, Q>(s: Sched<T, Q>, ops: seq<Op<T, Q>>, t: T) returns (n: nat)
    requires WellFormed(s) && Possible(s, ops) && Waiting(s, t)
    requires Patience(s, t) + 101 * Arrivals(s, ops) <= Ticks(ops)
    ensures 0 < n <= |ops| && Possible(s, ops[..n]) && Run(s, ops[..n]).current == t
    ensures Ticks(ops[..n]) <= Patience(s, t) + 101 * Arrivals(s, ops)
    decreases |ops|
  {
    hide WellFormed, Step, Joining, Patience;
    TurnsBound(s, t);
    var u := Step(s, ops[0]);
    StepKeeps(s, ops[0]);
    StepTurns(s, ops[0], t);
    if u.current == t {
      n := 1;
      assert ops[..1] == [ops[0]];
      assert Run(u, []) == u;
    } else {
      var m := WithinPatience(u, ops[1..], t);
      n := m + 1;
      assert ops[..n][0] == ops[0] && ops[..n][1..] == ops[1..][..m];
    }
  }
}
