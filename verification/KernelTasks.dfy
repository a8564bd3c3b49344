/**
 The scheduler's data structures: tasks linked into the run ring and into wait-queue
 rings, and the operations of kernel/task.c, kernel/clock.c and kernel/entry.S on them.
 */
module KernelTasks {
  import opened Scheduling

  datatype TaskState = Running | Interruptible | Uninterruptible

  class Task {
    var timeslice: int
    var time: int
    var needResched: bool
    var state: TaskState
    var queue: Queue?
    var runNext: Task?
    var runPrev: Task?
    var queueNext: Task?
    var queuePrev: Task?

    /** The fields create_process sets; need_resched keeps what the memory held. */
    constructor (garbage: bool)
      ensures timeslice == TIMESLICE && time == 0 && needResched == garbage && state == Running
      ensures queue == null && runNext == null && runPrev == null && queueNext == null && queuePrev == null
    {
      timeslice, time, needResched, state := TIMESLICE, 0, garbage, Running;
      queue, runNext, runPrev, queueNext, queuePrev := null, null, null, null, null;
    }
  }

  class Queue {
    var first: Task?

    constructor ()
      ensures first == null
    {
      first := null;
    }
  }

  /** The run links of s form one ring in this order, in both directions. */
  ghost predicate RunLinked(s: seq<Task>)
    requires s != []
    reads s
  {
    && (forall i {:trigger s[i].runNext} :: 0 <= i < |s| - 1 ==> s[i].runNext == s[i + 1])
    && (forall i {:trigger s[i].runPrev} :: 1 <= i < |s| ==> s[i].runPrev == s[i - 1])
    && s[|s| - 1].runNext == s[0] && s[0].runPrev == s[|s| - 1]
  }

  ghost predicate QueueLinked(s: seq<Task>)
    requires s != []
    reads s
  {
    && (forall i {:trigger s[i].queueNext} :: 0 <= i < |s| - 1 ==> s[i].queueNext == s[i + 1])
    && (forall i {:trigger s[i].queuePrev} :: 1 <= i < |s| ==> s[i].queuePrev == s[i - 1])
    && s[|s| - 1].queueNext == s[0] && s[0].queuePrev == s[|s| - 1]
  }

  /** q holds the waiters w: nothing, one task with null links, or a ring. */
  ghost predicate Waiters(q: Queue, w: seq<Task>)
    reads q, w
  {
    if w == [] then q.first == null
    else
      && q.first == w[0]
      && if |w| == 1 then w[0].queueNext == null && w[0].queuePrev == null else QueueLinked(w)
  }

  class Tasks {
    const idle: Task
    var current: Task
    ghost var ring: seq<Task>
    ghost var all: set<Task>
    ghost var queues: map<Queue, seq<Task>>
    var jiffies: int

    /** The run ring, with both encodings of "no runnable task": null links before the first
        process exists, a self-loop afterwards. */
    ghost predicate RunRing()
      reads this`ring, ring
    {
      && ring != [] && ring[0] == idle && Distinct(ring)
      && (RunLinked(ring) || (|ring| == 1 && idle.runNext == null && idle.runPrev == null))
    }

    /** The static idle_task: no slice, asking to be rescheduled, links null. */
    constructor ()
      ensures Valid() && fresh(idle) && ring == [idle] && current == idle && all == {idle} && queues == map[]
      ensures idle.timeslice == 0 && idle.needResched && idle.runNext == null && idle.runPrev == null
    {
      var t := new Task(true);
      t.timeslice := 0;
      idle, current := t, t;
      ring, all, queues, jiffies := [t], {t}, map[], 0;
    }

    /** schedule's removal of a task that is no longer runnable from the run ring. */
    method Unlink(t: Task, ghost k: nat)
      requires RunRing() && 0 < k < |ring| && ring[k] == t
      modifies this`ring, ring`runNext, ring`runPrev
      ensures RunRing() && RunLinked(ring) && ring == Without(old(ring), k)
      ensures t.runNext == null && t.runPrev == null
    {
      ghost var s := ring;
      RemovedRing(s, k);
      t.runPrev.runNext := t.runNext;
      t.runNext.runPrev := t.runPrev;
      t.runNext := null;
      t.runPrev := null;
      ring := Without(s, k);
    }

    /** kernel/task.c, schedule. */
    method Schedule()
      requires RunRing() && current in ring && (current.state != Running ==> current != idle)
      modifies this`current, this`ring, ring`runNext, ring`runPrev, current`needResched, current`timeslice
      ensures RunRing()
      ensures var k := Pos(old(ring), old(current));
              if old(current.state) == Running then
                && ring == old(ring) && current == After(ring, k)
                && !old(current).needResched && old(current).timeslice == TIMESLICE
                && (forall t :: t in ring ==> t.runNext == old(t.runNext) && t.runPrev == old(t.runPrev))
              else
                && 0 < k && ring == Without(old(ring), k) && current == After(ring, k - 1)
                && old(current).runNext == null && old(current).runPrev == null
                && old(current).needResched == old(current.needResched)
                && old(current).timeslice == old(current.timeslice)
    {
      hide Without;
      var prev := current;
      ghost var s, k := ring, Pos(ring, current);
      var next := prev.runNext;
      if prev.state != Running {
        RemovedRing(s, k);
        Unlink(prev, k);
      } else {
        prev.needResched := false;
        prev.timeslice := TIMESLICE;
      }
      if prev == idle || next == idle {
        if idle.runNext != null {
          next := idle.runNext;
        } else {
          next := idle;
        }
      }
      current := next;
    }

    // ---------------------------------------------------------------- the whole invariant

    ghost function Abs(): Sched<Task, Queue>
      reads this, all
    {
      Sched(ring, current, map t | t in all :: t.timeslice, map t | t in all :: t.needResched, queues)
    }

    /** A task's fields say where it stands. */
    ghost predicate InPlace(t: Task)
      reads this`ring, t
    {
      && (t in ring <==> t.state == Running)
      && (if t in ring then t.queueNext == null && t.queuePrev == null else t.runNext == null && t.runPrev == null)
    }

    ghost predicate QueueInPlace(q: Queue)
      requires q in queues
      reads this, q, all
    {
      && (forall t :: t in queues[q] ==> t in all && t.queue == q)
      && Waiters(q, queues[q])
    }

    ghost predicate Valid()
      reads this, all, ring, queues.Keys
    {
      && RunRing() && WellFormed(Abs())
      && (forall t :: t in all ==> InPlace(t))
      && (forall q :: q in queues ==> QueueInPlace(q))
    }

    // ---------------------------------------------------------------- waking

    /** kernel/task.c, wake_up; the same list surgery ends create_process. */
    method WakeUp(t: Task)
      requires RunRing() && t !in ring
      modifies this`ring, t`state, t`runNext, t`runPrev, ring`runNext, ring`runPrev
      ensures RunRing() && RunLinked(ring) && ring == old(ring) + [t] && t.state == Running
    {
      t.state := Running;
      if idle.runNext == null {
        idle.runNext := t;
        idle.runPrev := t;
        t.runNext := idle;
        t.runPrev := idle;
      } else {
        idle.runPrev.runNext := t;
        t.runPrev := idle.runPrev;
        idle.runPrev := t;
        t.runNext := idle;
      }
      ring := ring + [t];
    }

    /** The walk of wake_up_queue, which clears the links it is following. */
    method WakeWaiters(q: Queue, ghost w: seq<Task>)
      requires RunRing() && Waiters(q, w) && Distinct(w) && (forall t :: t in w ==> t !in ring)
      modifies this`ring, q`first, w`queueNext, w`queuePrev, w`state, w`runNext, w`runPrev, ring`runNext, ring`runPrev
      ensures RunRing() && ring == old(ring) + w && q.first == null
      ensures forall i :: 0 <= i < |w| ==> w[i].queueNext == null && w[i].queuePrev == null && w[i].state == Running
    {
      hide RunLinked;
      var t := q.first;
      ghost var i := 0;
      while t != null
        invariant 0 <= i <= |w| && RunRing() && ring == old(ring) + w[..i] && q.first == old(q.first)
        invariant t == if i < |w| then w[i] else null
        invariant forall j :: 0 <= j < i ==> w[j].queueNext == null && w[j].queuePrev == null && w[j].state == Running
        invariant forall j {:trigger w[j].queueNext} :: i <= j < |w| ==> w[j].queueNext == old(w[j].queueNext)
        decreases |w| - i
      {
        NotYetWoken(old(ring), w, i);
        var next := t.queueNext;
        t.queuePrev := null;
        t.queueNext := null;
        WakeUp(t);
        t := next;
        i := i + 1;
        if t == q.first {
          break;
        }
      }
      assert w[..|w|] == w;
      q.first := null;
    }

    /** kernel/task.c, wake_up_queue. */
    method WakeUpQueue(q: Queue)
      requires Valid() && q in queues
      modifies this`ring, this`queues, q`first, queues[q], ring`runNext, ring`runPrev
      ensures Valid() && Enabled(old(Abs()), Wake(q)) && Abs() == Step(old(Abs()), Wake(q))
      ensures q.first == null
    {
      hide *;
      WakeReady(q);
      WakeWaiters(q, queues[q]);
      queues := queues[q := []];
      WokenValid(q);
    }

    lemma WakeReady(q: Queue)
      requires Valid() && q in queues
      ensures RunRing() && Waiters(q, queues[q]) && Distinct(queues[q])
      ensures forall t :: t in queues[q] ==> t !in ring
    {
      WakeFacts(Abs(), q);
      assert QueueInPlace(q);
    }

    twostate lemma WokenValid(q: Queue)
      requires old(Valid()) && q in old(queues)
      requires RunRing() && ring == old(ring) + old(queues[q]) && all == old(all) && current == old(current)
      requires queues == old(queues)[q := []] && q.first == null
      requires forall t :: t in old(queues[q]) ==> t.queueNext == null && t.queuePrev == null && t.state == Running
      requires forall t :: t in all ==>
                 t.timeslice == old(t.timeslice) && t.needResched == old(t.needResched) && t.queue == old(t.queue)
      requires forall t :: t in all && t !in old(queues[q]) ==>
                 && t.state == old(t.state) && t.queueNext == old(t.queueNext) && t.queuePrev == old(t.queuePrev)
                 && (t !in old(ring) ==> t.runNext == old(t.runNext) && t.runPrev == old(t.runPrev))
      requires forall r :: r in queues && r != q ==> r.first == old(r.first)
      ensures Valid() && Enabled(old(Abs()), Wake(q)) && Abs() == Step(old(Abs()), Wake(q))
    {
      hide WellFormed, RunLinked, InPlace, QueueInPlace, QueueLinked, Waiters, Step;
      var s, w := old(Abs()), old(queues[q]);
      WakeFacts(s, q);
      StepKeeps(s, Wake(q));
      WakeIs(s, q);
      assert Abs() == Step(s, Wake(q));
      assert s.slice.Keys == all;
      WokenInPlace(w);
      forall r, t | r in queues && r != q && t in queues[r]
        ensures t in all && t !in w
      {
        assert t in s.queues[r];
      }
      WokenQueues(q);
    }

    /** After waking w, every task stands where its fields say ... */
    twostate lemma WokenInPlace(w: seq<Task>)
      requires old(all) == all && (forall t :: t in old(all) ==> old(InPlace(t))) && ring == old(ring) + w
      requires forall t :: t in w ==> t.queueNext == null && t.queuePrev == null && t.state == Running
      requires forall t :: t in all && t !in w ==>
                 && t.state == old(t.state) && t.queueNext == old(t.queueNext) && t.queuePrev == old(t.queuePrev)
                 && (t !in old(ring) ==> t.runNext == old(t.runNext) && t.runPrev == old(t.runPrev))
      ensures forall t :: t in all ==> InPlace(t)
    {
    }

    /** ... and the other queues are as they were. */
    twostate lemma WokenQueues(q: Queue)
      requires (forall r :: r in old(queues) ==> old(QueueInPlace(r))) && q in old(queues)
               && queues == old(queues)[q := []]
      requires q.first == null && old(all) == all
      requires forall r :: r in queues && r != q ==> r.first == old(r.first) && forall t :: t in queues[r] ==>
                 t.queue == old(t.queue) && t.queueNext == old(t.queueNext) && t.queuePrev == old(t.queuePrev)
      ensures forall r :: r in queues ==> QueueInPlace(r)
    {
      forall r | r in queues && r != q
        ensures QueueInPlace(r)
      {
        assert old(QueueInPlace(r));
      }
    }

    // ---------------------------------------------------------------- blocking

    /** kernel/task.c, do_block. */
    method DoBlock(q: Queue)
      requires q in queues && Waiters(q, queues[q]) && Distinct(queues[q]) && current !in queues[q]
      requires current.queueNext == null && current.queuePrev == null
      modifies current`state, current`needResched, current`queue, current`queueNext, current`queuePrev
      modifies queues[q]`queueNext, queues[q]`queuePrev, q`first, this`queues
      ensures queues == old(queues)[q := old(queues[q]) + [current]] && Waiters(q, queues[q])
      ensures current.state == Interruptible && current.needResched && current.queue == q
    {
      current.state := Interruptible;
      current.needResched := true;
      current.queue := q;
      if q.first == null {
        q.first := current;
      } else {
        var first := q.first;
        if first.queueNext == null {
          first.queueNext := current;
          first.queuePrev := current;
          current.queueNext := first;
          current.queuePrev := first;
        } else {
          first.queuePrev.queueNext := current;
          current.queuePrev := first.queuePrev;
          first.queuePrev := current;
          current.queueNext := first;
        }
      }
      queues := queues[q := queues[q] + [current]];
    }

    /** kernel/entry.S, block_lowlevel: do_block and schedule with interrupts off. */
    method Block(q: Queue)
      requires Valid() && q in queues && current != idle
      modifies this`current, this`ring, this`queues, q`first, queues[q]`queueNext, queues[q]`queuePrev
      modifies current, ring`runNext, ring`runPrev
      ensures Valid() && Enabled(old(Abs()), Scheduling.Block(q)) && Abs() == Step(old(Abs()), Scheduling.Block(q))
    {
      hide *;
      BlockReady(q);
      DoBlock(q);
      ScheduleReady();
      label Queued:
      Schedule();
      WaitersKept@Queued(q);
      BlockedValid(q);
    }

    twostate lemma WaitersKept(q: Queue)
      requires q in old(queues) && queues == old(queues) && old(Waiters(q, queues[q])) && q.first == old(q.first)
      requires forall t :: t in queues[q] ==> t.queueNext == old(t.queueNext) && t.queuePrev == old(t.queuePrev)
      ensures Waiters(q, queues[q])
    {
    }

    lemma BlockReady(q: Queue)
      requires Valid() && q in queues
      ensures RunRing() && current in ring && Waiters(q, queues[q]) && Distinct(queues[q])
      ensures current !in queues[q] && current.queueNext == null && current.queuePrev == null
    {
      WakeFacts(Abs(), q);
      assert QueueInPlace(q);
      assert InPlace(current);
    }

    twostate lemma ScheduleReady()
      requires old(RunRing()) && ring == old(ring)
      requires forall t :: t in ring ==> t.runNext == old(t.runNext) && t.runPrev == old(t.runPrev)
      ensures RunRing()
    {
    }

    twostate lemma BlockedValid(q: Queue)
      requires old(Valid()) && q in old(queues) && old(current) != idle
      requires RunRing() && all == old(all)
      requires var k := Pos(old(ring), old(current));
               0 < k && ring == Without(old(ring), k) && current == After(ring, k - 1)
      requires queues == old(queues)[q := old(queues[q]) + [old(current)]] && Waiters(q, queues[q])
      requires var c := old(current);
               && c.state == Interruptible && c.needResched && c.queue == q && c.timeslice == old(c.timeslice)
               && c.runNext == null && c.runPrev == null
      requires forall t :: t in all && t != old(current) ==>
                 && t.timeslice == old(t.timeslice) && t.needResched == old(t.needResched)
                 && t.state == old(t.state) && t.queue == old(t.queue)
                 && (t !in old(queues[q]) ==> t.queueNext == old(t.queueNext) && t.queuePrev == old(t.queuePrev))
                 && (t !in old(ring) ==> t.runNext == old(t.runNext) && t.runPrev == old(t.runPrev))
      requires forall r :: r in queues && r != q ==> r.first == old(r.first)
      ensures Valid() && Enabled(old(Abs()), Scheduling.Block(q)) && Abs() == Step(old(Abs()), Scheduling.Block(q))
    {
      hide WellFormed, RunLinked, InPlace, QueueInPlace, QueueLinked, Waiters, Step, After, Without, Distinct;
      var s, c := old(Abs()), old(current);
      BlockFacts(s, q);
      StepKeeps(s, Scheduling.Block(q));
      BlockIs(s, q);
      assert s.slice.Keys == all && s.resched.Keys == all;
      assert Abs().resched == s.resched[c := true];
      assert Abs() == Step(s, Scheduling.Block(q));
      BlockedInPlace(q);
      BlockedQueues(q);
    }

    twostate lemma BlockedInPlace(q: Queue)
      requires old(all) == all && (forall t :: t in old(all) ==> old(InPlace(t))) && q in old(queues)
               && old(current) in all
      requires forall t :: t in ring <==> t in old(ring) && t != old(current)
      requires forall t :: t in old(queues[q]) ==> t !in old(ring)
      requires var c := old(current); c.state != Running && c.runNext == null && c.runPrev == null
      requires forall t :: t in all && t != old(current) ==>
                 && t.state == old(t.state)
                 && (t !in old(queues[q]) ==> t.queueNext == old(t.queueNext) && t.queuePrev == old(t.queuePrev))
                 && (t !in old(ring) ==> t.runNext == old(t.runNext) && t.runPrev == old(t.runPrev))
      ensures forall t :: t in all ==> InPlace(t)
    {
    }

    twostate lemma BlockedQueues(q: Queue)
      requires (forall r :: r in old(queues) ==> old(QueueInPlace(r))) && q in old(queues) && old(current) in all
      requires queues == old(queues)[q := old(queues[q]) + [old(current)]] && Waiters(q, queues[q]) && old(all) == all
      requires old(current).queue == q && forall t :: t in old(queues[q]) ==> t.queue == old(t.queue)
      requires forall r :: r in queues && r != q ==> r.first == old(r.first) && forall t :: t in queues[r] ==>
                 t.queue == old(t.queue) && t.queueNext == old(t.queueNext) && t.queuePrev == old(t.queuePrev)
      ensures forall r :: r in queues ==> QueueInPlace(r)
    {
      forall r | r in queues
        ensures QueueInPlace(r)
      {
        assert old(QueueInPlace(r));
      }
    }

    // ---------------------------------------------------------------- interrupts

    /** kernel/clock.c, do_timer_int, and the exit through ret_from_intr. */
    method TimerInterrupt()
      requires Valid()
      modifies this`current, this`ring, this`jiffies, current, ring`runNext, ring`runPrev
      ensures Valid() && Enabled(old(Abs()), Tick) && Abs() == Step(old(Abs()), Tick)
      ensures jiffies == (old(jiffies) + 1) % 0x1_0000_0000
              && old(current).time == (old(current.time) + 1) % 0x1_0000_0000
    {
      hide *;
      ReadyToSchedule();
      jiffies := (jiffies + 1) % 0x1_0000_0000;
      current.time := (current.time + 1) % 0x1_0000_0000;
      if current.timeslice == 0 {
        current.timeslice := ULONG_MAX;
        current.needResched := true;
      } else {
        current.timeslice := current.timeslice - 1;
      }
      ScheduleReady();
      ghost var switched := current.needResched;
      if current.needResched {
        Schedule();
      }
      OnlyCurrentChanged(switched);
      TickIs(old(Abs()));
    }

    /** Any other interrupt: its handler leaves the tasks alone, ret_from_intr may schedule. */
    method OtherInterrupt()
      requires Valid()
      modifies this`current, this`ring, current`needResched, current`timeslice, ring`runNext, ring`runPrev
      ensures Valid() && Enabled(old(Abs()), Interrupt) && Abs() == Step(old(Abs()), Interrupt)
    {
      hide *;
      ReadyToSchedule();
      ghost var switched := current.needResched;
      if current.needResched {
        Schedule();
      }
      OnlyCurrentChanged(switched);
      InterruptIs(old(Abs()));
    }

    /** init/main.c, system_idle: the idle task gives up the rest of its slice and waits for ticks. */
    method SystemIdle()
      requires Valid() && current == idle
      modifies current`timeslice
      ensures Valid() && Enabled(old(Abs()), EnterIdle) && Abs() == Step(old(Abs()), EnterIdle)
    {
      hide *;
      ReadyToSchedule();
      IdleFirst();
      current.timeslice := 0;
      ScheduleReady();
      OnlyCurrentChanged(false);
      EnterIdleIs(old(Abs()));
    }

    lemma IdleFirst()
      requires Valid() && current == idle
      ensures Enabled(Abs(), EnterIdle)
    {
    }

    lemma ReadyToSchedule()
      requires Valid()
      ensures RunRing() && current in ring && current in all && current.state == Running
      ensures 0 <= current.timeslice && (forall t :: t in ring ==> t in all)
      ensures Abs().current == current && current in Abs().slice && current in Abs().resched
      ensures Abs().slice[current] == current.timeslice && Abs().resched[current] == current.needResched
      ensures WellFormed(Abs())
    {
      assert current in Abs().slice;
      assert InPlace(current);
    }

    /** An interrupt that touched nothing but the current task's slice and request, and perhaps
        switched to the next task. */
    twostate lemma OnlyCurrentChanged(switched: bool)
      requires old(Valid()) && ring == old(ring) && all == old(all) && queues == old(queues) && RunRing()
      requires forall t :: t in all ==>
                 && t.state == old(t.state) && t.queue == old(t.queue) && t.queueNext == old(t.queueNext)
                 && t.queuePrev == old(t.queuePrev) && t.runNext == old(t.runNext) && t.runPrev == old(t.runPrev)
      requires forall q :: q in queues ==> q.first == old(q.first)
      requires forall t :: t in all && t != old(current) ==>
                 t.timeslice == old(t.timeslice) && t.needResched == old(t.needResched)
      requires old(current) in ring
      requires if switched
               then old(current).timeslice == TIMESLICE && !old(current).needResched
                    && current == After(ring, Pos(ring, old(current)))
               else current == old(current) && current.needResched == old(current.needResched)
      ensures Abs() == Turned(old(Abs()), switched, old(current).timeslice)
      ensures WellFormed(Abs()) ==> Valid()
    {
      hide WellFormed, RunLinked, After, InPlace, QueueInPlace;
      var s, c := old(Abs()), old(current);
      assert c in all by { OldRingKnown(); }
      assert Abs().slice == s.slice[c := c.timeslice];
      assert Abs().resched == if switched then s.resched[c := false] else s.resched;
      PlacesKept();
    }

    twostate lemma OldRingKnown()
      requires old(Valid()) && all == old(all)
      ensures forall t :: t in old(ring) ==> t in all
    {
      assert forall t :: t in old(ring) ==> t in old(Abs()).slice;
    }

    twostate lemma PlacesKept()
      requires ring == old(ring) && all == old(all) && queues == old(queues)
      requires (forall t :: t in old(all) ==> old(InPlace(t)))
               && (forall q :: q in old(queues) ==> old(QueueInPlace(q)))
      requires forall t :: t in all ==>
                 && t.state == old(t.state) && t.queue == old(t.queue) && t.queueNext == old(t.queueNext)
                 && t.queuePrev == old(t.queuePrev) && t.runNext == old(t.runNext) && t.runPrev == old(t.runPrev)
      requires forall q :: q in queues ==> q.first == old(q.first)
      ensures (forall t :: t in all ==> InPlace(t)) && (forall q :: q in queues ==> QueueInPlace(q))
    {
      forall r | r in queues
        ensures QueueInPlace(r)
      {
        assert old(QueueInPlace(r));
      }
      forall t | t in all
        ensures InPlace(t)
      {
        assert old(InPlace(t));
      }
    }

    // ---------------------------------------------------------------- creation

    /** kernel/task.c, create_process: the new task joins the run ring just before idle.  Its
        need_resched is whatever the memory held. */
    method CreateProcess(garbage: bool) returns (t: Task)
      requires Valid()
      modifies this`ring, this`all, ring`runNext, ring`runPrev
      ensures fresh(t) && Valid()
      ensures Enabled(old(Abs()), Create(t, garbage)) && Abs() == Step(old(Abs()), Create(t, garbage))
    {
      hide *;
      ReadyToSchedule();
      t := new Task(garbage);
      WakeUp(t);
      all := all + {t};
      CreatedValid(t);
    }

    twostate lemma CreatedValid(new t: Task)
      requires old(Valid()) && t !in old(all) && all == old(all) + {t} && ring == old(ring) + [t] && RunRing()
      requires queues == old(queues) && current == old(current)
      requires t.timeslice == TIMESLICE && t.state == Running && t.queueNext == null && t.queuePrev == null
      requires forall x :: x in old(all) ==>
                 && x.timeslice == old(x.timeslice) && x.needResched == old(x.needResched) && x.state == old(x.state)
                 && x.queue == old(x.queue) && x.queueNext == old(x.queueNext) && x.queuePrev == old(x.queuePrev)
                 && (x !in old(ring) ==> x.runNext == old(x.runNext) && x.runPrev == old(x.runPrev))
      requires forall q :: q in queues ==> q.first == old(q.first)
      ensures Valid() && Enabled(old(Abs()), Create(t, t.needResched))
              && Abs() == Step(old(Abs()), Create(t, t.needResched))
    {
      hide WellFormed, RunLinked, After;
      var s := old(Abs());
      CurrentKnown(s);
      assert s.slice.Keys == old(all);
      StepKeeps(s, Create(t, t.needResched));
      assert Abs().slice == s.slice[t := TIMESLICE] && Abs().resched == s.resched[t := t.needResched];
      assert Abs() == Step(s, Create(t, t.needResched));
      forall r | r in queues
        ensures QueueInPlace(r)
      {
        assert old(QueueInPlace(r));
      }
      forall x | x in all
        ensures InPlace(x)
      {
        assert x != t ==> old(InPlace(x));
      }
    }

    /** include/kernel/task.h, queue_init. */
    method InitQueue(q: Queue)
      requires Valid() && q !in queues
      modifies q`first, this`queues
      ensures Valid() && Abs() == old(Abs()).(queues := old(queues)[q := []])
    {
      hide *;
      q.first := null;
      queues := queues[q := []];
      QueueAdded(q);
    }

    twostate lemma QueueAdded(q: Queue)
      requires old(Valid()) && q !in old(queues) && queues == old(queues)[q := []] && q.first == null
      requires ring == old(ring) && all == old(all) && current == old(current)
      requires forall t :: t in all ==>
                 && unchanged(t) && t.queue == old(t.queue)
                 && t.queueNext == old(t.queueNext) && t.queuePrev == old(t.queuePrev)
      requires forall r :: r in old(queues) ==> r.first == old(r.first)
      ensures Valid() && Abs() == old(Abs()).(queues := old(queues)[q := []])
    {
      hide WellFormed, RunLinked, InPlace;
      OldRingKnown();
      AddedQueueKeeps(old(Abs()), q);
      assert Abs().slice == old(Abs()).slice && Abs().resched == old(Abs()).resched;
      ScheduleReady();
      AllInPlace();
      forall r | r in queues
        ensures QueueInPlace(r)
      {
        if r != q { assert old(QueueInPlace(r)); }
      }
    }

    twostate lemma AllInPlace()
      requires ring == old(ring) && all == old(all) && (forall t :: t in old(all) ==> old(InPlace(t)))
      requires forall t :: t in all ==> unchanged(t)
      ensures forall t :: t in all ==> InPlace(t)
    {
      forall t | t in all
        ensures InPlace(t)
      {
        assert old(InPlace(t));
      }
    }
  }

  lemma AddedQueueKeeps(s: Sched<Task, Queue>, q: Queue)
    requires WellFormed(s) && q !in s.queues
    ensures WellFormed(s.(queues := s.queues[q := []]))
  {
    var u := s.(queues := s.queues[q := []]);
    forall t | t in u.slice && t !in u.ring
      ensures Blocked(u, t)
    {
      assert Blocked(s, t);
      var r :| r in s.queues && t in s.queues[r];
      assert r in u.queues;
    }
  }

  /** An interrupt's effect: a new slice for the current task, or a switch away from it. */
  ghost function Turned(s: Sched<Task, Queue>, switched: bool, slice: int): Sched<Task, Queue>
    requires s.current in s.ring
  {
    if switched
    then s.(current := After(s.ring, Pos(s.ring, s.current)),
            slice := s.slice[s.current := slice], resched := s.resched[s.current := false])
    else s.(slice := s.slice[s.current := slice])
  }

  lemma TickIs(s: Sched<Task, Queue>)
    requires WellFormed(s)
    ensures Enabled(s, Tick) && WellFormed(Step(s, Tick))
    ensures var left := s.slice[s.current];
            var switched := left == 0 || s.resched[s.current];
            Step(s, Tick) == Turned(s, switched, if switched then TIMESLICE else left - 1)
  {
    hide WellFormed;
    CurrentKnown(s);
    StepKeeps(s, Tick);
    var c := s.current;
    assert s.slice[c := ULONG_MAX][c := TIMESLICE] == s.slice[c := TIMESLICE];
    assert s.slice[c := s.slice[c] - 1][c := TIMESLICE] == s.slice[c := TIMESLICE];
    assert s.resched[c := true][c := false] == s.resched[c := false];
  }

  lemma EnterIdleIs(s: Sched<Task, Queue>)
    requires WellFormed(s) && Enabled(s, EnterIdle)
    ensures WellFormed(Step(s, EnterIdle)) && Step(s, EnterIdle) == Turned(s, false, 0)
  {
    StepKeeps(s, EnterIdle);
  }

  lemma InterruptIs(s: Sched<Task, Queue>)
    requires WellFormed(s)
    ensures Enabled(s, Interrupt) && WellFormed(Step(s, Interrupt))
    ensures var switched := s.resched[s.current];
            Step(s, Interrupt) == Turned(s, switched, if switched then TIMESLICE else s.slice[s.current])
  {
    StepKeeps(s, Interrupt);
    assert s.slice[s.current := s.slice[s.current]] == s.slice;
  }

  lemma BlockFacts(s: Sched<Task, Queue>, q: Queue)
    requires WellFormed(s) && q in s.queues && s.ring != [] && Pos(s.ring, s.current) > 0
    ensures Enabled(s, Scheduling.Block(q)) && s.current in s.slice
    ensures forall t :: t in s.queues[q] ==> t !in s.ring && t in s.slice
    ensures forall r, t :: r in s.queues && r != q && t in s.queues[r] ==>
              t !in s.queues[q] && t !in s.ring && t in s.slice
    ensures forall t :: t in s.ring ==> t in s.slice
    ensures forall t :: t in Without(s.ring, Pos(s.ring, s.current)) <==> t in s.ring && t != s.current
  {
    forall t
      ensures t in Without(s.ring, Pos(s.ring, s.current)) <==> t in s.ring && t != s.current
    {
      WithoutIn(s.ring, Pos(s.ring, s.current), t);
    }
  }

  lemma BlockIs(s: Sched<Task, Queue>, q: Queue)
    requires Enabled(s, Scheduling.Block(q))
    ensures var k := Pos(s.ring, s.current);
            Step(s, Scheduling.Block(q))
            == Sched(Without(s.ring, k), After(Without(s.ring, k), k - 1), s.slice, s.resched[s.current := true],
                     s.queues[q := s.queues[q] + [s.current]])
  {
  }

  lemma WakeFacts(s: Sched<Task, Queue>, q: Queue)
    requires WellFormed(s) && q in s.queues
    ensures Enabled(s, Wake(q)) && Distinct(s.queues[q])
    ensures forall t :: t in s.queues[q] ==> t !in s.ring && t in s.slice
    ensures forall r, t :: r in s.queues && r != q && t in s.queues[r] ==>
              t !in s.queues[q] && t !in s.ring && t in s.slice
    ensures forall t :: t in s.ring ==> t in s.slice
  {
  }

  lemma WakeIs(s: Sched<Task, Queue>, q: Queue)
    requires Enabled(s, Wake(q))
    ensures Step(s, Wake(q)) == s.(ring := s.ring + s.queues[q], queues := s.queues[q := []])
  {
  }

  lemma NotYetWoken(ring: seq<Task>, w: seq<Task>, i: nat)
    requires Distinct(w) && i < |w| && (forall t :: t in w ==> t !in ring)
    ensures w[i] !in ring + w[..i] && w[..i + 1] == w[..i] + [w[i]]
    ensures ring + w[..i] + [w[i]] == ring + w[..i + 1]
    ensures forall j :: 0 <= j < |w| && j != i ==> w[j] != w[i]
  {
  }

  lemma RemovedRing(s: seq<Task>, k: nat)
    requires Distinct(s) && 0 < k < |s|
    ensures Distinct(Without(s, k)) && |Without(s, k)| == |s| - 1 && Without(s, k)[0] == s[0]
    ensures k < |s| - 1 ==> Without(s, k)[k] == s[k + 1]
  {
  }
}
