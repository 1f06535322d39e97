/** What every run of the scheduler keeps. */
module SchedulingLaws {
  import opened Bits
  import opened Scheduling

  // ---- The invariant ----

  ghost function Total(queues: seq<seq<nat>>): nat {
    if queues == [] then 0 else |queues[0]| + Total(queues[1..])
  }

  ghost predicate NoRepeats(q: seq<nat>) {
    forall i, j :: 0 <= i < j < |q| ==> q[i] != q[j]
  }

  predicate Runnable(task: Task) {
    task.state == Ready || task.state == Running
  }

  /** A task is on exactly one queue, that of its priority, and once, iff it is ready or running;
      only the current task is running; the ready counter is the total queue length. */
  ghost predicate Inv(s: Sched) {
    && Shaped(s)
    && (forall l: nat, t: nat :: l < LEVELS && t < MAX_TASKS ==>
          (t in s.queues[l] <==> l == LevelOf(s, t) && Runnable(s.pool[t])))
    && Counted(s)
    && OnlyCurrentRuns(s)
    && CurrentHeld(s)
  }

  ghost predicate Counted(s: Sched)
    requires Shaped(s)
  {
    (forall l :: 0 <= l < LEVELS ==> NoRepeats(s.queues[l])) && s.ready == Total(s.queues)
  }

  ghost predicate OnlyCurrentRuns(s: Sched)
    requires Shaped(s)
  {
    forall t :: 0 <= t < MAX_TASKS && s.pool[t].state == Running ==> t == s.current
  }

  /** Every slot in use holds a task, and the current slice is at most a full one. */
  ghost predicate CurrentHeld(s: Sched)
    requires Shaped(s)
  {
    && (forall t: nat :: t < MAX_TASKS && s.pool[t].state != Terminated ==> s.pool[t].handle != 0)
    && (s.current >= 0 ==> s.pool[s.current].handle != 0 && s.pool[s.current].slice <= TIME_SLICE)
  }

  /** The queue part of the invariant, with slot t on its queue or off it regardless of its state. */
  ghost predicate Placed(s: Sched, t: nat, on: bool)
    requires t < MAX_TASKS
  {
    && Shaped(s)
    && (forall l: nat, u: nat :: l < LEVELS && u < MAX_TASKS ==>
          (u in s.queues[l] <==> l == LevelOf(s, u) && if u == t then on else Runnable(s.pool[u])))
    && Counted(s)
  }

  lemma {:induction false} TotalUpdate(queues: seq<seq<nat>>, l: nat, q: seq<nat>)
    requires l < |queues|
    ensures Total(queues[l := q]) == Total(queues) - |queues[l]| + |q|
    ensures Total(queues) >= |queues[l]|
  {
    if l > 0 {
      assert queues[l := q][1..] == queues[1..][l - 1 := q];
      TotalUpdate(queues[1..], l - 1, q);
    } else {
      assert queues[l := q][1..] == queues[1..];
    }
  }

  /** Unlinking removes one occurrence and keeps the others in order. */
  lemma {:induction false} WithoutEffect(q: seq<nat>, t: nat)
    requires NoRepeats(q) && t in q
    ensures var r := Without(q, t);
            && |r| == |q| - 1 && NoRepeats(r)
            && forall u :: u in r <==> u in q && u != t
  {
    var tail := q[1..];
    assert q == [q[0]] + tail && q[0] !in tail;
    if q[0] != t {
      WithoutEffect(tail, t);
      Prepended(q[0], Without(tail, t));
    }
  }

  lemma Prepended(t: nat, q: seq<nat>)
    requires NoRepeats(q) && t !in q
    ensures NoRepeats([t] + q)
  {
  }

  lemma PlacedDequeue(s: Sched, t: nat)
    requires t < MAX_TASKS && Placed(s, t, true)
    ensures Placed(Dequeue(s, t), t, false)
  {
    var l := LevelOf(s, t);
    WithoutEffect(s.queues[l], t);
    TotalUpdate(s.queues, l, Without(s.queues[l], t));
  }

  lemma PlacedEnqueue(s: Sched, t: nat)
    requires t < MAX_TASKS && Placed(s, t, false)
    ensures Placed(Enqueue(s, t), t, true)
  {
    var l := LevelOf(s, t);
    TotalUpdate(s.queues, l, s.queues[l] + [t]);
    assert NoRepeats(s.queues[l] + [t]);
  }

  lemma PlacedPool(s: Sched, t: nat, on: bool, task: Task)
    requires t < MAX_TASKS && Placed(s, t, on) && (on ==> task.priority == s.pool[t].priority)
    ensures Placed(s.(pool := s.pool[t := task]), t, on)
  {
    hide Counted;
    var r := s.(pool := s.pool[t := task]);
    CountedSame(s, r);
    forall l: nat, u: nat | l < LEVELS && u < MAX_TASKS
      ensures u in r.queues[l] <==> l == LevelOf(r, u) && if u == t then on else Runnable(r.pool[u])
    {
      PlacedSlot(s, t, on, l, u);
      if u != t {
        assert r.pool[u] == s.pool[u];
        assert LevelOf(r, u) == LevelOf(s, u);
      } else {
        assert r.pool[t] == task;
      }
    }
  }

  lemma PlacedSlot(s: Sched, t: nat, on: bool, l: nat, u: nat)
    requires t < MAX_TASKS && Placed(s, t, on) && l < LEVELS && u < MAX_TASKS
    ensures u in s.queues[l] <==> l == LevelOf(s, u) && if u == t then on else Runnable(s.pool[u])
  {
    var q := s.queues[l];
    assert u in q <==> l == LevelOf(s, u) && if u == t then on else Runnable(s.pool[u]);
  }

  lemma CountedSame(s: Sched, r: Sched)
    requires Shaped(s) && Shaped(r) && r.queues == s.queues && r.ready == s.ready
    ensures Counted(s) <==> Counted(r)
  {
  }

  /** The invariant says where every slot is placed. */
  lemma InvIsPlaced(s: Sched, t: nat)
    requires Shaped(s) && t < MAX_TASKS
    ensures Inv(s) <==> Placed(s, t, Runnable(s.pool[t])) && OnlyCurrentRuns(s) && CurrentHeld(s)
  {
  }

  lemma TopIsHighest(s: Sched)
    requires Shaped(s)
    ensures var n := Next(s);
            && (n < 0 <==> forall l :: 0 <= l < LEVELS ==> s.queues[l] == [])
            && (n >= 0 ==> exists l :: 0 <= l < LEVELS && s.queues[l] != [] && s.queues[l][0] == n
                                       && forall m :: l < m < LEVELS ==> s.queues[m] == [])
  {
    var top := TopBelow(s.queues, LEVELS);
    if top >= 0 {
      assert s.queues[top] != [];
    }
  }

  // ---- Each step keeps it ----

  lemma RequeueKeeps(s: Sched, t: nat)
    requires Inv(s) && t < MAX_TASKS && s.pool[t].state == Running
    ensures Inv(Requeue(s, t)) && Requeue(s, t).pool == s.pool[t := s.pool[t].(state := Ready)]
    ensures Requeue(s, t).current == s.current
  {
    hide Placed, Counted;
    InvIsPlaced(s, t);
    PlacedPool(s, t, true, s.pool[t].(state := Ready));
    PlacedDequeue(WithState(s, t, Ready), t);
    PlacedEnqueue(Dequeue(WithState(s, t, Ready), t), t);
    InvIsPlaced(Requeue(s, t), t);
  }

  /** Handing the CPU to a ready task when none is running. */
  lemma DispatchKeeps(s: Sched, t: nat)
    requires Inv(s) && t < MAX_TASKS && s.pool[t].state == Ready && s.pool[t].handle != 0
    requires forall u :: 0 <= u < MAX_TASKS ==> s.pool[u].state != Running
    ensures Inv(Dispatch(s, t))
  {
    hide Placed, Counted;
    var task := s.pool[t].(state := Running, slice := TIME_SLICE);
    InvIsPlaced(s, t);
    PlacedPool(s, t, true, task);
    PlacedCurrent(s.(pool := s.pool[t := task]), t, true, t);
    InvIsPlaced(Dispatch(s, t), t);
  }

  lemma PlacedCurrent(s: Sched, t: nat, on: bool, current: nat)
    requires t < MAX_TASKS && current < MAX_TASKS && Placed(s, t, on)
    ensures Placed(s.(current := current), t, on)
  {
    assert forall u :: 0 <= u < MAX_TASKS ==> LevelOf(s.(current := current), u) == LevelOf(s, u);
  }

  lemma NextIsReady(s: Sched)
    requires Inv(s) && Next(s) >= 0 && Next(s) != s.current
    ensures s.pool[Next(s)].state == Ready
  {
    var top := TopBelow(s.queues, LEVELS);
    assert Next(s) in s.queues[top];
  }

  lemma YieldKeeps(s: Sched)
    requires Inv(s)
    ensures Inv(Yield(s))
  {
    hide Counted;
    var next := Next(s);
    if s.current >= 0 && next >= 0 && next != s.current {
      NextIsReady(s);
      if s.pool[s.current].state == Running {
        RequeueKeeps(s, s.current);
        DispatchKeeps(Requeue(s, s.current), next);
      } else {
        DispatchKeeps(s, next);
      }
    }
  }

  /** The current task, stored with a new state and wake time. */
  function Stored(s: Sched, state: State, wake: uint32): (r: Sched)
    requires Shaped(s) && s.current >= 0
    ensures Shaped(r)
  {
    s.(pool := s.pool[s.current := s.pool[s.current].(state := state, wake := wake)])
  }

  /** The current task leaves its queue for a state in which it is not runnable. */
  lemma UnqueueKeeps(s: Sched, state: State, wake: uint32)
    requires Inv(s) && s.current >= 0 && Runnable(s.pool[s.current])
    requires state != Ready && state != Running
    ensures Placed(Stored(s, state, wake), s.current, true)
    ensures Inv(Dequeue(Stored(s, state, wake), s.current))
  {
    hide Placed, Counted;
    var t := s.current;
    var s1 := Stored(s, state, wake);
    InvIsPlaced(s, t);
    PlacedPool(s, t, true, s1.pool[t]);
    PlacedDequeue(s1, t);
    InvIsPlaced(Dequeue(s1, t), t);
  }

  lemma LeaveKeeps(s: Sched, state: State, wake: uint32)
    requires Inv(s) && s.current >= 0 && Runnable(s.pool[s.current])
    requires state != Ready && state != Running
    ensures Inv(Leave(s, state, wake))
  {
    hide Placed, Counted, Yield, Dequeue;
    UnqueueKeeps(s, state, wake);
    YieldKeeps(Dequeue(Stored(s, state, wake), s.current));
  }

  lemma QueuedIsRunnable(s: Sched, t: nat)
    requires Inv(s) && t < MAX_TASKS
    ensures Queued(s, t) <==> Runnable(s.pool[t])
  {
  }

  /** A slot off its queue becomes ready and joins it. */
  lemma ReadyKeeps(s: Sched, t: nat, task: Task)
    requires Inv(s) && t < MAX_TASKS && !Runnable(s.pool[t])
    requires task.state == Ready && task.handle != 0 && (t == s.current ==> task.slice <= TIME_SLICE)
    ensures Inv(Enqueue(s.(pool := s.pool[t := task]), t))
  {
    hide Placed, Counted;
    var s1 := s.(pool := s.pool[t := task]);
    InvIsPlaced(s, t);
    PlacedPool(s, t, false, task);
    PlacedEnqueue(s1, t);
    InvIsPlaced(Enqueue(s1, t), t);
  }

  lemma {:induction false} FreeSlotIsFree(pool: seq<Task>, i: nat)
    requires i <= |pool|
    ensures var t := FreeSlot(pool, i);
            if t < 0 then forall u :: i <= u < |pool| ==> pool[u].handle != 0 || pool[u].state != Terminated
            else pool[t].handle == 0 && pool[t].state == Terminated
    decreases |pool| - i
  {
    if i < |pool| { FreeSlotIsFree(pool, i + 1); }
  }

  lemma AddKeeps(s: Sched, handle: nat, priority: nat)
    requires Inv(s)
    ensures Inv(Add(s, handle, priority))
  {
    hide Counted;
    FreeSlotIsFree(s.pool, 0);
    var t := FreeSlot(s.pool, 0);
    if handle != 0 && t >= 0 {
      ReadyKeeps(s, t, Task(handle, priority, Ready, TIME_SLICE, 0));
    }
  }

  lemma RemoveKeeps(s: Sched, handle: nat)
    requires Inv(s)
    requires (Lookup(s, handle) >= 0 ==> s.pool[Lookup(s, handle)].state == Ready && Lookup(s, handle) != s.current)
    ensures Inv(Remove(s, handle))
  {
    hide Placed, Counted;
    var t := Lookup(s, handle);
    if t >= 0 {
      var d := Dequeue(s, t);
      InvIsPlaced(s, t);
      PlacedDequeue(s, t);
      PlacedPool(d, t, false, d.pool[t].(handle := 0, state := Terminated));
      InvIsPlaced(Remove(s, handle), t);
    }
  }

  lemma SetPriorityKeeps(s: Sched, handle: nat, priority: nat)
    requires Inv(s) && (Lookup(s, handle) >= 0 ==> s.pool[Lookup(s, handle)].state != Running)
    ensures Inv(SetPriority(s, handle, priority))
  {
    hide Placed, Counted;
    var t := Lookup(s, handle);
    if t >= 0 {
      InvIsPlaced(s, t);
      if s.pool[t].state == Ready {
        var d := Dequeue(s, t);
        PlacedDequeue(s, t);
        PlacedPool(d, t, false, d.pool[t].(priority := priority));
        PlacedEnqueue(d.(pool := d.pool[t := d.pool[t].(priority := priority)]), t);
      } else {
        PlacedPool(s, t, false, s.pool[t].(priority := priority));
      }
      InvIsPlaced(SetPriority(s, handle, priority), t);
    }
  }

  lemma WakeKeeps(s: Sched, handle: nat)
    requires Inv(s)
    ensures Inv(Wake(s, handle))
  {
    hide Counted;
    var t := Lookup(s, handle);
    if t >= 0 && s.pool[t].state == Blocked {
      ReadyKeeps(s, t, s.pool[t].(state := Ready));
    }
  }

  lemma {:induction false} WakeFromKeeps(s: Sched, t: nat)
    requires Inv(s) && t <= MAX_TASKS
    ensures Inv(WakeFrom(s, t))
    decreases MAX_TASKS - t
  {
    hide Counted, Expired;
    if t < MAX_TASKS {
      if Expired(s, t) { WakeOneKeeps(s, t); }
      WakeFromKeeps(WakeOne(s, t), t + 1);
    }
  }

  lemma WakeOneKeeps(s: Sched, t: nat)
    requires Inv(s) && t < MAX_TASKS && Expired(s, t)
    ensures Inv(WakeOne(s, t))
  {
    hide Counted;
    ReadyKeeps(s, t, s.pool[t].(state := Ready, wake := 0));
  }

  lemma ChargeTickKeeps(s: Sched)
    requires Inv(s)
    ensures Inv(ChargeTick(s))
  {
    hide Counted, Placed;
    if s.current >= 0 {
      var c := s.current;
      var left := if s.pool[c].slice > 0 then s.pool[c].slice - 1 else 0;
      var s1 := s.(pool := s.pool[c := s.pool[c].(slice := left)]);
      InvIsPlaced(s, c);
      PlacedPool(s, c, Runnable(s.pool[c]), s.pool[c].(slice := left));
      InvIsPlaced(s1, c);
      YieldKeeps(s1);
    }
  }

  lemma ClockKeeps(s: Sched, ticks: uint64)
    requires Inv(s)
    ensures Inv(s.(ticks := ticks))
  {
    assert forall t: nat :: t < MAX_TASKS ==> LevelOf(s.(ticks := ticks), t) == LevelOf(s, t);
  }

  lemma StartKeeps(s: Sched)
    requires Inv(s)
    ensures Inv(Start(s))
  {
    hide Counted;
    if s.current < 0 && Next(s) >= 0 {
      NextIsReady(s);
      DispatchKeeps(s, Next(s));
    }
  }

  /** Every step that meets its callers' obligations keeps the invariant. */
  lemma StepKeeps(s: Sched, e: Event)
    requires Inv(s) && Allowed(s, e)
    ensures Inv(Step(s, e))
  {
    hide Counted, Yield, Leave, Dequeue, Enqueue, Next;
    if s.current >= 0 { QueuedIsRunnable(s, s.current); }
    match e
    case EAdd(handle, priority) => AddKeeps(s, handle, priority);
    case ERemove(handle) => RemoveKeeps(s, handle);
    case ESetPriority(handle, priority) => SetPriorityKeeps(s, handle, priority);
    case EYield => YieldKeeps(s);
    case EBlock => if s.current >= 0 { LeaveKeeps(s, Blocked, s.pool[s.current].wake); }
    case EExit => if s.current >= 0 { LeaveKeeps(s, Zombie, s.pool[s.current].wake); }
    case ESleep(ms) => if s.current >= 0 { LeaveKeeps(s, Sleeping, Wrap32(s.ticks + SleepTicks(ms))); }
    case EWake(handle) => WakeKeeps(s, handle);
    case ETick => TickKeeps(s);
    case EStart => StartKeeps(s);
  }

  lemma TickKeeps(s: Sched)
    requires Inv(s)
    ensures Inv(Tick(s))
  {
    hide Inv, WakeFrom, ChargeTick;
    var s1 := s.(ticks := (s.ticks + 1) % 0x1_0000_0000_0000_0000);
    ClockKeeps(s, s1.ticks);
    WakeFromKeeps(s1, 0);
    ChargeTickKeeps(WakeFrom(s1, 0));
  }

  /** The state after initialisation. */
  ghost function Initial(): (s: Sched)
    ensures Inv(s)
  {
    var s := Sched(-1, seq(LEVELS, _ => []), seq(MAX_TASKS, _ => Task(0, 0, Terminated, 0, 0)), 0, 0);
    assert Total(s.queues) == 0 by { NothingQueued(s.queues); }
    s
  }

  lemma {:induction false} NothingQueued(queues: seq<seq<nat>>)
    requires forall l :: 0 <= l < |queues| ==> queues[l] == []
    ensures Total(queues) == 0
  {
    if queues != [] { NothingQueued(queues[1..]); }
  }

  /** The events of a run are each allowed in the state they meet. */
  ghost predicate Lawful(s: Sched, es: seq<Event>)
    requires Shaped(s)
    decreases |es|
  {
    es == [] || (Allowed(s, es[0]) && Lawful(Step(s, es[0]), es[1..]))
  }

  ghost function Run(s: Sched, es: seq<Event>): (r: Sched)
    requires Shaped(s)
    ensures Shaped(r)
    decreases |es|
  {
    if es == [] then s else Run(Step(s, es[0]), es[1..])
  }

  lemma {:induction false} RunKeeps(s: Sched, es: seq<Event>)
    requires Inv(s) && Lawful(s, es)
    ensures Inv(Run(s, es))
    decreases |es|
  {
    hide Step, Allowed;
    if es != [] {
      StepKeeps(s, es[0]);
      RunKeeps(Step(s, es[0]), es[1..]);
    }
  }
}
