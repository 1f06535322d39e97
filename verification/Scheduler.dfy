/** The scheduler as it is stored: a pool of task slots linked into eight doubly linked run
    queues. A pointer into the pool is a slot number, and NULL is -1. */
module Scheduler {
  import opened Bits
  import Spec = Scheduling
  import Laws = SchedulingLaws
  import Promises = SchedulingPromises

  datatype Slot = Slot(task: Spec.Task, next: int, prev: int)

  // ---- Links ----

  /** The k-th element of a queue, or the null pointer. */
  function At(q: seq<nat>, k: int): int {
    if 0 <= k < |q| then q[k] else -1
  }

  /** The slots of q point at their neighbours in q. */
  ghost predicate Links(pool: seq<Slot>, q: seq<nat>) {
    forall i :: 0 <= i < |q| ==> q[i] < |pool| && pool[q[i]].prev == At(q, i - 1) && pool[q[i]].next == At(q, i + 1)
  }

  predicate SameLinks(a: Slot, b: Slot) {
    a.next == b.next && a.prev == b.prev
  }

  /** Changing slots outside q keeps its links. */
  lemma LinksElsewhere(pool: seq<Slot>, after: seq<Slot>, q: seq<nat>)
    requires Links(pool, q) && |after| == |pool|
    requires forall u :: u in q && u < |pool| ==> SameLinks(after[u], pool[u])
    ensures Links(after, q)
  {
    assert forall i :: 0 <= i < |q| ==> q[i] in q;
  }

  lemma LinksAppend(pool: seq<Slot>, after: seq<Slot>, q: seq<nat>, t: nat)
    requires Links(pool, q) && |after| == |pool| && t < |pool| && q != []
    requires forall k :: 0 <= k < |q| - 1 ==> SameLinks(after[q[k]], pool[q[k]])
    requires after[q[|q| - 1]].next == t && after[q[|q| - 1]].prev == pool[q[|q| - 1]].prev
    requires after[t].next == -1 && after[t].prev == q[|q| - 1]
    ensures Links(after, q + [t])
  {
    var r := q + [t];
    forall i | 0 <= i < |r|
      ensures r[i] < |pool| && after[r[i]].prev == At(r, i - 1) && after[r[i]].next == At(r, i + 1)
    {
      if i < |q| {
        assert pool[q[i]].prev == At(q, i - 1) == At(r, i - 1);
        assert i < |q| - 1 ==> At(q, i + 1) == At(r, i + 1);
      }
    }
  }

  lemma {:induction false} WithoutAt(q: seq<nat>, i: nat)
    requires i < |q| && Laws.NoRepeats(q)
    ensures Spec.Without(q, q[i]) == q[..i] + q[i + 1..]
  {
    if i > 0 {
      WithoutAt(q[1..], i - 1);
      assert q[1..][..i - 1] == q[1..i] && [q[0]] + q[1..i] == q[..i];
    }
  }

  /** Slot i of q is bypassed: its neighbours point at each other. */
  ghost predicate Bypassed(pool: seq<Slot>, after: seq<Slot>, q: seq<nat>, i: nat)
    requires Links(pool, q) && |after| == |pool| && i < |q|
  {
    && (forall k :: 0 <= k < |q| && k != i - 1 && k != i && k != i + 1 ==> SameLinks(after[q[k]], pool[q[k]]))
    && (i > 0 ==> after[q[i - 1]].next == At(q, i + 1) && after[q[i - 1]].prev == pool[q[i - 1]].prev)
    && (i + 1 < |q| ==> after[q[i + 1]].prev == At(q, i - 1) && after[q[i + 1]].next == pool[q[i + 1]].next)
  }

  lemma LinksRemove(pool: seq<Slot>, after: seq<Slot>, q: seq<nat>, i: nat)
    requires Links(pool, q) && |after| == |pool| && i < |q| && Bypassed(pool, after, q, i)
    ensures Links(after, q[..i] + q[i + 1..])
  {
    hide Bypassed, Links;
    var r := q[..i] + q[i + 1..];
    forall k | 0 <= k < |r|
      ensures r[k] < |pool| && after[r[k]].prev == At(r, k - 1) && after[r[k]].next == At(r, k + 1)
    {
      LinkAfterRemoval(pool, after, q, i, r, k);
    }
    LinksIntro(after, r);
  }

  lemma LinksIntro(pool: seq<Slot>, q: seq<nat>)
    requires forall i :: 0 <= i < |q| ==>
                (q[i] < |pool| && pool[q[i]].prev == At(q, i - 1) && pool[q[i]].next == At(q, i + 1))
    ensures Links(pool, q)
  {
  }

  lemma LinkAfterRemoval(pool: seq<Slot>, after: seq<Slot>, q: seq<nat>, i: nat, r: seq<nat>, k: nat)
    requires Links(pool, q) && |after| == |pool| && i < |q| && Bypassed(pool, after, q, i)
    requires r == q[..i] + q[i + 1..] && k < |r|
    ensures r[k] < |pool| && after[r[k]].prev == At(r, k - 1) && after[r[k]].next == At(r, k + 1)
  {
    hide At;
    var j := if k < i then k else k + 1;
    assert r[k] == q[j];
    assert pool[q[j]].prev == At(q, j - 1) && pool[q[j]].next == At(q, j + 1);
    AtAfterRemoval(q, i, r, k - 1);
    AtAfterRemoval(q, i, r, k + 1);
    if k + 1 < i || k > i {
      assert SameLinks(after[q[j]], pool[q[j]]);
    }
  }

  lemma AtAfterRemoval(q: seq<nat>, i: nat, r: seq<nat>, k: int)
    requires i < |q| && r == q[..i] + q[i + 1..]
    ensures At(r, k) == At(q, if k < i then k else k + 1)
  {
  }

  /** The heads and links of the pool represent the eight queues. */
  ghost predicate Chained(pool: seq<Slot>, heads: seq<int>, queues: seq<seq<nat>>) {
    && |pool| == Spec.MAX_TASKS && |heads| == Spec.LEVELS == |queues|
    && (forall l :: 0 <= l < Spec.LEVELS ==> heads[l] == At(queues[l], 0) && Links(pool, queues[l]))
  }

  /** A slot on no queue has null links. */
  ghost predicate Loose(pool: seq<Slot>, queues: seq<seq<nat>>) {
    forall t: nat :: t < |pool| && OnNone(queues, t) ==> pool[t].next == -1 && pool[t].prev == -1
  }

  ghost predicate OnNone(queues: seq<seq<nat>>, t: nat) {
    forall l :: 0 <= l < |queues| ==> t !in queues[l]
  }

  ghost function Tasks(pool: seq<Slot>): (tasks: seq<Spec.Task>)
    ensures |tasks| == |pool| && forall t :: 0 <= t < |pool| ==> tasks[t] == pool[t].task
  {
    seq(|pool|, t requires 0 <= t < |pool| => pool[t].task)
  }

  class Scheduler {
    var current: int
    const runQueues: array<int>
    const pool: array<Slot>
    var readyTasks: nat
    var ticks: uint64
    ghost var queues: seq<seq<nat>>

    /** The state of the specification that this object is in. */
    ghost function Abs(): Spec.Sched
      reads this, pool
    {
      Spec.Sched(current, queues, Tasks(pool[..]), readyTasks, ticks)
    }

    /** The queues are as the heads and links say. */
    ghost predicate Woven()
      reads this, runQueues, pool
    {
      runQueues.Length == Spec.LEVELS && pool.Length == Spec.MAX_TASKS && Chained(pool[..], runQueues[..], queues)
    }

    /** And no slot off the queues is linked to any other. */
    ghost predicate Linked()
      reads this, runQueues, pool
    {
      Woven() && Loose(pool[..], queues)
    }

    /** What every operation keeps when its callers meet their obligations. */
    ghost predicate Valid()
      reads this, runQueues, pool
    {
      Linked() && Laws.Inv(Abs())
    }

    /** scheduler_init. */
    constructor ()
      ensures Valid() && Abs() == Laws.Initial()
      ensures fresh(runQueues) && fresh(pool)
    {
      current := -1;
      runQueues := new int[Spec.LEVELS](_ => -1);
      pool := new Slot[Spec.MAX_TASKS](_ => Slot(Spec.Task(0, 0, Spec.Terminated, 0, 0), -1, -1));
      readyTasks, ticks := 0, 0;
      queues := seq(Spec.LEVELS, _ => []);
      new;
      hide Laws.Inv;
      ghost var initial := Laws.Initial();
      assert Tasks(pool[..]) == initial.pool && queues == initial.queues;
    }

    /** The last slot of a queue that is not empty. */
    method WalkToEnd(level: nat) returns (last: nat)
      requires Woven() && level < Spec.LEVELS && runQueues[level] != -1
      ensures queues[level] != [] && last == queues[level][|queues[level]| - 1] < Spec.MAX_TASKS
    {
      ghost var q := queues[level];
      assert runQueues[..][level] == At(q, 0) && Links(pool[..], q);
      last := runQueues[level];
      ghost var i := 0;
      while pool[last].next != -1
        invariant 0 <= i < |q| && last == q[i] < Spec.MAX_TASKS
        decreases |q| - i
      {
        assert pool[..][q[i]].next == At(q, i + 1);
        last, i := pool[last].next, i + 1;
      }
      assert pool[..][q[i]].next == At(q, i + 1);
    }

    /** Links an unqueued slot after the last one of a level's queue. */
    method LinkAtEnd(level: nat, t: nat)
      requires Linked() && level < Spec.LEVELS && t < Spec.MAX_TASKS && Apart(queues, level, t)
      modifies runQueues, pool
      ensures Chained(pool[..], runQueues[..], queues[level := queues[level] + [t]])
      ensures Loose(pool[..], queues[level := queues[level] + [t]])
      ensures Tasks(pool[..]) == old(Tasks(pool[..]))
    {
      hide Apart, Loose;
      ghost var before, q := pool[..], queues[level];
      assert runQueues[..][level] == At(q, 0) && Links(before, q);
      QueueInPool(before, q);
      ChainHead(q, runQueues[level]);
      if runQueues[level] == -1 {
        pool[t] := pool[t].(next := -1, prev := -1);
        runQueues[level] := t;
      } else {
        var last := WalkToEnd(level);
        OffQueue(queues, level, t);
        pool[last] := pool[last].(next := t);
        pool[t] := pool[t].(next := -1, prev := last);
      }
      assert Appended(before, pool[..], q, t);
      ChainAppend(before, pool[..], old(runQueues[..]), queues, level, t);
      LooseAppend(before, pool[..], queues, level, t);
    }

    /** enqueue_task. */
    method EnqueueTask(t: nat)
      requires Linked() && t < Spec.MAX_TASKS && Laws.Placed(Abs(), t, false)
      modifies this`readyTasks, this`queues, runQueues, pool
      ensures Linked() && Abs() == Spec.Enqueue(old(Abs()), t)
    {
      hide Laws.Placed, Chained, Apart, Loose, Spec.LevelOf;
      PlacedApart(Abs(), t);
      LevelIs(t);
      var level := Spec.Level(pool[t].task.priority);
      LinkAtEnd(level, t);
      readyTasks := readyTasks + 1;
      queues := queues[level := queues[level] + [t]];
    }

    /** Bypasses a slot: its neighbours, or its level's head, point past it. */
    method UnlinkSlot(level: nat, t: nat)
      requires runQueues.Length == Spec.LEVELS && pool.Length == Spec.MAX_TASKS
      requires level < Spec.LEVELS && t < Spec.MAX_TASKS && Pointers(pool[..], t)
      modifies runQueues, pool
      ensures pool[..] == Unlinked(old(pool[..]), t)
      ensures runQueues[..] == old(if pool[t].prev >= 0 then runQueues[..] else runQueues[..][level := pool[t].next])
    {
      var prev, next := pool[t].prev, pool[t].next;
      if prev >= 0 {
        pool[prev] := pool[prev].(next := next);
      } else {
        runQueues[level] := next;
      }
      if next >= 0 {
        pool[next] := pool[next].(prev := prev);
      }
      pool[t] := pool[t].(next := -1, prev := -1);
    }

    /** dequeue_task. A slot that is on no queue has null links: its level's head becomes null, and the
        whole level is dropped. */
    method DequeueTask(t: nat)
      requires Linked() && t < Spec.MAX_TASKS
      requires Laws.Placed(Abs(), t, true) || Laws.Placed(Abs(), t, false)
      modifies this`readyTasks, this`queues, runQueues, pool
      ensures Woven() && Abs() == Spec.Dequeue(old(Abs()), t)
      ensures old(Laws.Placed(Abs(), t, true) || queues[Spec.LevelOf(Abs(), t)] == []) ==> Linked()
    {
      hide Laws.Placed, Chained, Unlinked, Pointers, Loose, Spec.Without, Spec.LevelOf, Spec.Dequeue,
        Spec.Shaped, Tasks;
      LevelIs(t);
      var level := Spec.Level(pool[t].task.priority);
      ghost var s, before := Abs(), pool[..];
      ghost var rest := queues[level := if t in queues[level] then Spec.Without(queues[level], t) else []];
      ChainUnlink(before, runQueues[..], s, t);
      UnlinkFrom(level, t, rest);
      if readyTasks > 0 {
        readyTasks := readyTasks - 1;
      }
      DequeueIs(s, t, rest);
    }

    lemma LevelIs(t: nat)
      requires Woven() && t < Spec.MAX_TASKS && (Laws.Placed(Abs(), t, true) || Laws.Placed(Abs(), t, false))
      ensures Spec.Shaped(Abs()) && |queues| == Spec.LEVELS == |Abs().queues|
      ensures Spec.Level(pool[t].task.priority) == Spec.LevelOf(Abs(), t)
    {
    }

    method UnlinkFrom(level: nat, t: nat, ghost rest: seq<seq<nat>>)
      requires runQueues.Length == Spec.LEVELS && pool.Length == Spec.MAX_TASKS
      requires level < Spec.LEVELS && t < Spec.MAX_TASKS && Pointers(pool[..], t)
      requires Chained(Unlinked(pool[..], t),
                       if pool[t].prev >= 0 then runQueues[..] else runQueues[..][level := pool[t].next], rest)
      modifies this`queues, runQueues, pool
      ensures queues == rest && Woven()
      ensures pool[..] == Unlinked(old(pool[..]), t) && Tasks(pool[..]) == old(Tasks(pool[..]))
    {
      hide Chained, Unlinked, Pointers;
      UnlinkSlot(level, t);
      queues := rest;
    }

    /** Stores a slot's task fields; links are unaffected. */
    method SetTask(t: nat, task: Spec.Task)
      requires Woven() && t < Spec.MAX_TASKS
      modifies pool
      ensures Woven() && Abs() == old(Abs()).(pool := old(Abs()).pool[t := task])
      ensures old(Linked()) ==> Linked()
    {
      hide Chained, Loose;
      ghost var before := pool[..];
      PoolSize();
      pool[t] := pool[t].(task := task);
      ChainedTask(before, runQueues[..], queues, t, task);
      assert pool[..] == before[t := before[t].(task := task)];
      assert Tasks(pool[..]) == Tasks(before)[t := task];
    }

    lemma PoolSize()
      requires Woven()
      ensures pool.Length == Spec.MAX_TASKS && runQueues.Length == Spec.LEVELS
    {
    }

    /** find_next_task. */
    method FindNextTask() returns (t: int)
      requires Woven() && Spec.Shaped(Abs())
      ensures t == Spec.Next(Abs())
    {
      var prio := Spec.LEVELS - 1;
      while prio >= 0
        invariant -1 <= prio < Spec.LEVELS
        invariant Spec.TopBelow(queues, Spec.LEVELS) == Spec.TopBelow(queues, prio + 1)
      {
        assert runQueues[..][prio] == At(queues[prio], 0);
        if runQueues[prio] >= 0 {
          return runQueues[prio];
        }
        prio := prio - 1;
      }
      return -1;
    }

    /** A task that is not running only hands the CPU on, which needs no more than the heads. */
    method Yield()
      requires Woven() && Spec.Shaped(Abs())
      requires current >= 0 && pool[current].task.state == Spec.Running ==> Valid()
      modifies this, runQueues, pool
      ensures Woven() && Abs() == Spec.Yield(old(Abs()))
      ensures old(Valid()) ==> Valid()
    {
      hide Laws.Placed, Laws.Counted, Chained, Loose, Spec.Next;
      if Valid() { Laws.YieldKeeps(Abs()); }
      if current < 0 {
        return;
      }
      var next := FindNextTask();
      if next < 0 || next == current {
        return;
      }
      if pool[current].task.state == Spec.Running {
        Requeue(current);
      }
      Dispatch(next);
    }

    /** A running task goes to the end of its queue, ready. */
    method Requeue(t: nat)
      requires Valid() && t < Spec.MAX_TASKS && pool[t].task.state == Spec.Running
      modifies this`readyTasks, this`queues, runQueues, pool
      ensures Valid() && Abs() == Spec.Requeue(old(Abs()), t)
    {
      hide Laws.Placed, Laws.Counted, Chained, Loose, Spec.Dequeue, Spec.Enqueue;
      ghost var s := Abs();
      Laws.RequeueKeeps(s, t);
      Laws.InvIsPlaced(s, t);
      Laws.PlacedPool(s, t, true, s.pool[t].(state := Spec.Ready));
      Laws.PlacedDequeue(Spec.WithState(s, t, Spec.Ready), t);
      SetTask(t, pool[t].task.(state := Spec.Ready));
      DequeueTask(t);
      EnqueueTask(t);
    }

    method Dispatch(t: nat)
      requires Woven() && t < Spec.MAX_TASKS && Spec.Shaped(Abs())
      modifies this`current, pool
      ensures Woven() && Abs() == Spec.Dispatch(old(Abs()), t)
      ensures old(Linked()) ==> Linked()
    {
      hide Chained, Loose;
      SetTask(t, pool[t].task.(state := Spec.Running, slice := Spec.TIME_SLICE));
      current := t;
    }

    /** What block, sleep and exit share: the current task is stored with its new state, leaves
        its queue, and another is chosen. */
    method Leave(state: Spec.State, wake: uint32)
      requires Valid() && current >= 0
      requires state != Spec.Ready && state != Spec.Running
      modifies this, runQueues, pool
      ensures Woven() && Abs() == Spec.Leave(old(Abs()), state, wake)
      ensures old(Spec.Queued(Abs(), current)) ==> Valid()
    {
      hide Laws.Placed, Laws.Counted, Chained, Loose, Spec.Dequeue, Spec.Yield;
      DequeueKeepsTasks(Laws.Stored(Abs(), state, wake), current);
      Laws.QueuedIsRunnable(Abs(), current);
      if Spec.Queued(Abs(), current) {
        Laws.UnqueueKeeps(Abs(), state, wake);
      } else {
        UnqueuedStays(Abs(), state, wake);
      }
      SetTask(current, pool[current].task.(state := state, wake := wake));
      DequeueTask(current);
      Yield();
    }

    lemma CurrentIsSlot()
      requires Valid()
      ensures Spec.Shaped(Abs()) && -1 <= current < pool.Length
      ensures current >= 0 ==> Abs().pool[current] == pool[current].task
    {
    }

    /** A current task that has left its queue already drops its level's. */
    method Block()
      requires Valid()
      modifies this, runQueues, pool
      ensures Woven() && Abs() == Spec.Block(old(Abs()))
      ensures Spec.Allowed(old(Abs()), Spec.EBlock) ==> Valid()
    {
      hide Laws.Inv, Chained, Loose, Spec.Leave, Tasks;
      CurrentIsSlot();
      if current < 0 {
        return;
      }
      Leave(Spec.Blocked, pool[current].task.wake);
    }

    method Exit()
      requires Valid()
      modifies this, runQueues, pool
      ensures Woven() && Abs() == Spec.Exit(old(Abs()))
      ensures Spec.Allowed(old(Abs()), Spec.EExit) ==> Valid()
    {
      hide Laws.Inv, Chained, Loose, Spec.Leave, Tasks;
      CurrentIsSlot();
      if current < 0 {
        return;
      }
      Leave(Spec.Zombie, pool[current].task.wake);
    }

    method Sleep(ms: uint32)
      requires Valid()
      modifies this, runQueues, pool
      ensures Woven() && Abs() == Spec.Sleep(old(Abs()), ms)
      ensures Spec.Allowed(old(Abs()), Spec.ESleep(ms)) ==> Valid()
    {
      hide Laws.Inv, Chained, Loose, Spec.Leave;
      if current < 0 || ms == 0 {
        return;
      }
      var capped := if ms > Spec.MAX_SLEEP_MS then Spec.MAX_SLEEP_MS else ms;
      var wakeTick := ticks + capped / 10;
      Leave(Spec.Sleeping, Wrap32(wakeTick));
    }

    /** find_sched_task. */
    method FindSchedTask(handle: nat) returns (t: int)
      requires Woven() && Spec.Shaped(Abs())
      ensures t == Spec.Lookup(Abs(), handle)
    {
      if handle == 0 {
        return -1;
      }
      ghost var tasks := Tasks(pool[..]);
      t := 0;
      while t < Spec.MAX_TASKS
        invariant 0 <= t <= Spec.MAX_TASKS && Spec.FindTask(tasks, handle, 0) == Spec.FindTask(tasks, handle, t)
      {
        if pool[t].task.handle == handle {
          return;
        }
        t := t + 1;
      }
      return -1;
    }

    method FindFreeSlot() returns (t: int)
      requires Woven()
      ensures t == Spec.FreeSlot(Abs().pool, 0)
    {
      ghost var tasks := Tasks(pool[..]);
      t := 0;
      while t < Spec.MAX_TASKS
        invariant 0 <= t <= Spec.MAX_TASKS && Spec.FreeSlot(tasks, 0) == Spec.FreeSlot(tasks, t)
      {
        if pool[t].task.handle == 0 && pool[t].task.state == Spec.Terminated {
          return;
        }
        t := t + 1;
      }
      return -1;
    }

    /** A slot that is not runnable becomes ready and joins its queue. */
    method MakeReady(t: nat, task: Spec.Task)
      requires Valid() && t < Spec.MAX_TASKS && !Laws.Runnable(pool[t].task)
      requires task.state == Spec.Ready && task.handle != 0 && (t == current ==> task.slice <= Spec.TIME_SLICE)
      modifies this`readyTasks, this`queues, runQueues, pool
      ensures Valid() && Abs() == Spec.Enqueue(old(Abs()).(pool := old(Abs()).pool[t := task]), t)
    {
      hide Laws.Placed, Laws.Counted, Chained, Loose, Spec.Enqueue;
      Laws.ReadyKeeps(Abs(), t, task);
      Laws.InvIsPlaced(Abs(), t);
      Laws.PlacedPool(Abs(), t, false, task);
      SetTask(t, task);
      EnqueueTask(t);
    }

    method AddTask(handle: nat, priority: nat) returns (status: int)
      requires Valid()
      modifies this`readyTasks, this`queues, runQueues, pool
      ensures Valid() && Abs() == Spec.Add(old(Abs()), handle, priority)
      ensures status == if handle == 0 || Spec.FreeSlot(old(Abs()).pool, 0) < 0 then -1 else 0
    {
      hide Laws.Counted, Chained, Loose;
      if handle == 0 {
        return -1;
      }
      var t := FindFreeSlot();
      if t < 0 {
        return -1;
      }
      Laws.FreeSlotIsFree(Abs().pool, 0);
      MakeReady(t, Spec.Task(handle, priority, Spec.Ready, Spec.TIME_SLICE, 0));
      return 0;
    }

    /** Whatever the task's state: one that is on no queue takes its whole level's queue with it. */
    method RemoveTask(handle: nat)
      requires Valid()
      modifies this`readyTasks, this`queues, runQueues, pool
      ensures Woven() && Abs() == Spec.Remove(old(Abs()), handle)
      ensures Laws.Inv(Abs()) ==> Valid()
    {
      hide Laws.Placed, Laws.Counted, Chained, Loose, Spec.Dequeue;
      ghost var s := Abs();
      Promises.RemoveKeepsIff(s, handle);
      var t := FindSchedTask(handle);
      if t < 0 {
        return;
      }
      Laws.InvIsPlaced(s, t);
      DequeueTask(t);
      SetTask(t, pool[t].task.(handle := 0, state := Spec.Terminated));
    }

    /** Whatever the task's state: a running one keeps its place on the queue of its old priority. */
    method SetPriority(handle: nat, priority: nat)
      requires Valid()
      modifies this`readyTasks, this`queues, runQueues, pool
      ensures Linked() && Abs() == Spec.SetPriority(old(Abs()), handle, priority)
      ensures Spec.Allowed(old(Abs()), Spec.ESetPriority(handle, priority)) ==> Valid()
    {
      hide Laws.Placed, Laws.Counted, Chained, Loose, Spec.Dequeue, Spec.Enqueue;
      ghost var s := Abs();
      if Spec.Allowed(s, Spec.ESetPriority(handle, priority)) {
        Laws.SetPriorityKeeps(s, handle, priority);
      }
      var t := FindSchedTask(handle);
      if t < 0 {
        return;
      }
      Laws.InvIsPlaced(s, t);
      if pool[t].task.state == Spec.Ready {
        Laws.PlacedDequeue(s, t);
        Laws.PlacedPool(Spec.Dequeue(s, t), t, false, Spec.Dequeue(s, t).pool[t].(priority := priority));
        DequeueTask(t);
        SetTask(t, pool[t].task.(priority := priority));
        EnqueueTask(t);
      } else {
        SetTask(t, pool[t].task.(priority := priority));
      }
    }

    method Wake(handle: nat)
      requires Valid()
      modifies this`readyTasks, this`queues, runQueues, pool
      ensures Valid() && Abs() == Spec.Wake(old(Abs()), handle)
    {
      hide Laws.Counted, Chained, Loose;
      var t := FindSchedTask(handle);
      if t < 0 || pool[t].task.state != Spec.Blocked {
        return;
      }
      MakeReady(t, pool[t].task.(state := Spec.Ready));
    }

    method WakeIfExpired(t: nat)
      requires Valid() && t < Spec.MAX_TASKS
      modifies this`readyTasks, this`queues, runQueues, pool
      ensures Valid() && Abs() == Spec.WakeOne(old(Abs()), t)
    {
      hide Laws.Counted, Chained, Loose, Spec.Enqueue;
      if pool[t].task.state == Spec.Sleeping && pool[t].task.wake <= Wrap32(ticks) {
        MakeReady(t, pool[t].task.(state := Spec.Ready, wake := 0));
      }
    }

    /** The wake-up loop of scheduler_tick. */
    method WakeSleepers()
      requires Valid()
      modifies this`readyTasks, this`queues, runQueues, pool
      ensures Valid() && Abs() == Spec.WakeFrom(old(Abs()), 0)
    {
      hide Laws.Counted, Laws.CurrentHeld, Laws.OnlyCurrentRuns, Chained, Loose, Spec.WakeOne;
      ghost var outcome := Spec.WakeFrom(Abs(), 0);
      var i := 0;
      while i < Spec.MAX_TASKS
        invariant 0 <= i <= Spec.MAX_TASKS && Valid() && Spec.WakeFrom(Abs(), i) == outcome
      {
        WakeIfExpired(i);
        i := i + 1;
      }
    }

    method Tick()
      requires Valid()
      modifies this, runQueues, pool
      ensures Valid() && Abs() == Spec.Tick(old(Abs()))
    {
      hide Laws.Inv, Chained, Loose, Spec.WakeFrom, Spec.Yield;
      Laws.TickKeeps(Abs());
      Laws.ClockKeeps(Abs(), (ticks + 1) % 0x1_0000_0000_0000_0000);
      ticks := (ticks + 1) % 0x1_0000_0000_0000_0000;
      WakeSleepers();
      if current >= 0 {
        ChargeCurrent();
      }
    }

    /** The end of scheduler_tick, with a current task. */
    method ChargeCurrent()
      requires Valid() && current >= 0
      modifies this, runQueues, pool
      ensures Valid() && Abs() == Spec.ChargeTick(old(Abs()))
    {
      hide Laws.Counted, Chained, Loose, Spec.Yield;
      var left := if pool[current].task.slice > 0 then pool[current].task.slice - 1 else 0;
      Promises.SliceKeeps(Abs(), left);
      SetTask(current, pool[current].task.(slice := left));
      if pool[current].task.slice == 0 {
        Yield();
      }
    }

    /** The first dispatch: the source leaves choosing the first current task to its caller. */
    method Start()
      requires Valid()
      modifies this`current, pool
      ensures Valid() && Abs() == Spec.Start(old(Abs()))
    {
      hide Laws.Counted, Chained, Loose;
      Laws.StartKeeps(Abs());
      var next := FindNextTask();
      if current < 0 && next >= 0 {
        Dispatch(next);
      }
    }
  }

  lemma ChainedTask(pool: seq<Slot>, heads: seq<int>, queues: seq<seq<nat>>, t: nat, task: Spec.Task)
    requires Chained(pool, heads, queues) && t < |pool|
    ensures Chained(pool[t := pool[t].(task := task)], heads, queues)
    ensures Loose(pool, queues) ==> Loose(pool[t := pool[t].(task := task)], queues)
  {
    forall l | 0 <= l < Spec.LEVELS ensures Links(pool[t := pool[t].(task := task)], queues[l]) {
      LinksElsewhere(pool, pool[t := pool[t].(task := task)], queues[l]);
    }
  }

  // ---- Unlinking ----

  /** A slot's pointers are null or lead to other slots. */
  predicate Pointers(pool: seq<Slot>, t: nat)
    requires t < |pool|
  {
    -1 <= pool[t].prev < |pool| && -1 <= pool[t].next < |pool|
  }

  /** The pool after bypassing slot t. */
  function Unlinked(pool: seq<Slot>, t: nat): (after: seq<Slot>)
    requires t < |pool| && Pointers(pool, t)
    ensures |after| == |pool| && Tasks(after) == Tasks(pool)
  {
    var prev, next := pool[t].prev, pool[t].next;
    var a := if prev >= 0 then pool[prev := pool[prev].(next := next)] else pool;
    var b := if next >= 0 then a[next := a[next].(prev := prev)] else a;
    b[t := b[t].(next := -1, prev := -1)]
  }

  /** Level l's queue repeats no slot and shares none with the others. */
  ghost predicate Alone(queues: seq<seq<nat>>, l: nat)
    requires |queues| == Spec.LEVELS && l < Spec.LEVELS
  {
    && Laws.NoRepeats(queues[l])
    && forall m: nat, u: nat :: m < Spec.LEVELS && m != l && u in queues[m] ==> u !in queues[l]
  }

  lemma PlacedIndex(s: Spec.Sched, t: nat) returns (i: nat)
    requires t < Spec.MAX_TASKS && Laws.Placed(s, t, true)
    ensures var l := Spec.LevelOf(s, t);
            i < |s.queues[l]| && s.queues[l][i] == t && Alone(s.queues, l)
  {
    var l := Spec.LevelOf(s, t);
    assert t in s.queues[l];
    i :| i < |s.queues[l]| && s.queues[l][i] == t;
    forall m: nat, u: nat | m < Spec.LEVELS && m != l && u in s.queues[m] ensures u !in s.queues[l] {
      assert m == Spec.LevelOf(s, u);
    }
  }

  lemma ChainRemove(pool: seq<Slot>, heads: seq<int>, queues: seq<seq<nat>>, l: nat, i: nat)
    requires Chained(pool, heads, queues) && l < Spec.LEVELS && i < |queues[l]| && Alone(queues, l)
    ensures var t := queues[l][i];
            && t < |pool| && Pointers(pool, t) && t in queues[l]
            && Chained(Unlinked(pool, t), if pool[t].prev >= 0 then heads else heads[l := pool[t].next],
                       queues[l := Spec.Without(queues[l], t)])
  {
    hide Unlinked;
    var q := queues[l];
    var t := q[i];
    QueueSlots(pool, q, i);
    var after := Unlinked(pool, t);
    BypassBypasses(pool, q, i);
    LinksRemove(pool, after, q, i);
    WithoutAt(q, i);
    forall m: nat | m < Spec.LEVELS && m != l ensures Links(after, queues[m]) {
      UnlinkedElsewhere(pool, q, i, queues[m]);
    }
  }

  /** Slots off the queues keep their null links, and the one just taken off gets them. */
  lemma LooseRemove(pool: seq<Slot>, queues: seq<seq<nat>>, l: nat, i: nat)
    requires |queues| == Spec.LEVELS && l < Spec.LEVELS && i < |queues[l]| && Links(pool, queues[l]) && Alone(queues, l)
    requires Loose(pool, queues)
    ensures queues[l][i] < |pool| && Pointers(pool, queues[l][i])
    ensures Loose(Unlinked(pool, queues[l][i]), queues[l := Spec.Without(queues[l], queues[l][i])])
  {
    hide Links, Alone;
    var q := queues[l];
    var t := q[i];
    QueueSlots(pool, q, i);
    var after, rest := Unlinked(pool, t), queues[l := Spec.Without(q, t)];
    forall u: nat | u < |pool| && OnNone(rest, u) ensures after[u].next == -1 && after[u].prev == -1 {
      if u != t {
        WithoutKeeps(q, t, u);
        assert OnNone(queues, u) by { OffRest(queues, l, rest, u); }
        Neighbours(pool, q, i, u);
      }
    }
  }

  lemma {:induction false} WithoutKeeps(q: seq<nat>, t: nat, u: nat)
    requires u != t
    ensures u in q <==> u in Spec.Without(q, t)
  {
    if q != [] {
      assert q == [q[0]] + q[1..];
      WithoutKeeps(q[1..], t, u);
    }
  }

  lemma OffRest(queues: seq<seq<nat>>, l: nat, rest: seq<seq<nat>>, u: nat)
    requires l < |queues| == |rest| && rest == queues[l := rest[l]] && OnNone(rest, u) && u !in queues[l]
    ensures OnNone(queues, u)
  {
    forall m | 0 <= m < |queues| ensures u !in queues[m] {
      assert m != l ==> rest[m] == queues[m];
    }
  }

  /** A slot that is not in q is not next to one of q's. */
  lemma Neighbours(pool: seq<Slot>, q: seq<nat>, i: nat, u: nat)
    requires Links(pool, q) && i < |q| && u !in q
    ensures q[i] < |pool| && pool[q[i]].prev != u && pool[q[i]].next != u
  {
    assert At(q, i - 1) != u && At(q, i + 1) != u;
  }

  /** Unlinking a slot with null links changes no link: it only empties its level's head. */
  lemma DropLevel(pool: seq<Slot>, heads: seq<int>, queues: seq<seq<nat>>, l: nat, t: nat)
    requires Chained(pool, heads, queues) && Loose(pool, queues)
    requires l < Spec.LEVELS && t < Spec.MAX_TASKS && Apart(queues, l, t)
    ensures Pointers(pool, t) && pool[t].prev == -1 && Unlinked(pool, t) == pool
    ensures Chained(pool, heads[l := pool[t].next], queues[l := []])
    ensures queues[l] == [] ==> heads[l := pool[t].next] == heads && queues[l := []] == queues
    ensures t !in queues[l]
  {
    hide Links;
    assert OnNone(queues, t);
    NoLinks(pool);
  }

  /** What unlinking does to the chains, whether or not the slot is on its queue. */
  lemma ChainUnlink(pool: seq<Slot>, heads: seq<int>, s: Spec.Sched, t: nat)
    requires Chained(pool, heads, s.queues) && Loose(pool, s.queues) && t < Spec.MAX_TASKS
    requires Laws.Placed(s, t, true) || Laws.Placed(s, t, false)
    ensures Pointers(pool, t)
    ensures var l := Spec.LevelOf(s, t);
            var q := s.queues[l];
            var rest := s.queues[l := if t in q then Spec.Without(q, t) else []];
            && Chained(Unlinked(pool, t), if pool[t].prev >= 0 then heads else heads[l := pool[t].next], rest)
            && (Laws.Placed(s, t, true) || q == [] ==> Loose(Unlinked(pool, t), rest))
  {
    var l := Spec.LevelOf(s, t);
    if Laws.Placed(s, t, true) {
      var i := PlacedIndex(s, t);
      assert Links(pool, s.queues[l]);
      hide Chained, Loose, Links, Unlinked, Laws.Placed, Alone;
      ChainRemove(pool, heads, s.queues, l, i);
      LooseRemove(pool, s.queues, l, i);
    } else {
      PlacedApart(s, t);
      hide Chained, Loose, Links, Unlinked, Laws.Placed, Apart;
      DropLevel(pool, heads, s.queues, l, t);
    }
  }

  lemma NoLinks(pool: seq<Slot>)
    ensures Links(pool, [])
  {
  }

  lemma QueueSlots(pool: seq<Slot>, q: seq<nat>, i: nat)
    requires Links(pool, q) && i < |q|
    ensures q[i] < |pool| && pool[q[i]].prev == At(q, i - 1) && pool[q[i]].next == At(q, i + 1)
    ensures Pointers(pool, q[i]) && q[i] in q
  {
    assert i > 0 ==> q[i - 1] < |pool|;
  }

  lemma BypassBypasses(pool: seq<Slot>, q: seq<nat>, i: nat)
    requires Links(pool, q) && i < |q| && Laws.NoRepeats(q) && q[i] < |pool| && Pointers(pool, q[i])
    ensures Bypassed(pool, Unlinked(pool, q[i]), q, i)
  {
    QueueSlots(pool, q, i);
  }

  lemma UnlinkedOutside(pool: seq<Slot>, t: nat, u: nat)
    requires t < |pool| && Pointers(pool, t) && u < |pool| && u != t && u != pool[t].prev && u != pool[t].next
    ensures SameLinks(Unlinked(pool, t)[u], pool[u])
  {
  }

  lemma UnlinkedElsewhere(pool: seq<Slot>, q: seq<nat>, i: nat, other: seq<nat>)
    requires Links(pool, q) && i < |q| && q[i] < |pool| && Pointers(pool, q[i])
    requires Links(pool, other) && forall u :: u in other ==> u !in q
    ensures Links(Unlinked(pool, q[i]), other)
  {
    hide Links, Unlinked, Pointers, SameLinks;
    QueueSlots(pool, q, i);
    forall u | u in other && u < |pool| ensures SameLinks(Unlinked(pool, q[i])[u], pool[u]) {
      Neighbours(pool, q, i, u);
      UnlinkedOutside(pool, q[i], u);
    }
    LinksElsewhere(pool, Unlinked(pool, q[i]), other);
  }

  /** t is on no queue, and level l's queue stands alone. */
  ghost predicate Apart(queues: seq<seq<nat>>, l: nat, t: nat)
    requires |queues| == Spec.LEVELS && l < Spec.LEVELS
  {
    Alone(queues, l) && forall m: nat :: m < Spec.LEVELS ==> t !in queues[m]
  }

  lemma PlacedApart(s: Spec.Sched, t: nat)
    requires t < Spec.MAX_TASKS && Laws.Placed(s, t, false)
    ensures Apart(s.queues, Spec.LevelOf(s, t), t)
  {
    var l := Spec.LevelOf(s, t);
    forall m: nat, u: nat | m < Spec.LEVELS && m != l && u in s.queues[m] ensures u !in s.queues[l] {
      assert m == Spec.LevelOf(s, u);
    }
  }

  lemma OffQueue(queues: seq<seq<nat>>, l: nat, t: nat)
    requires |queues| == Spec.LEVELS && l < Spec.LEVELS && Apart(queues, l, t)
    ensures t !in queues[l]
  {
  }

  lemma ChainHead(q: seq<nat>, head: int)
    requires head == At(q, 0)
    ensures head == -1 <==> q == []
  {
  }

  lemma ApartLast(queues: seq<seq<nat>>, l: nat, t: nat)
    requires |queues| == Spec.LEVELS && l < Spec.LEVELS && Apart(queues, l, t)
    ensures Laws.NoRepeats(queues[l])
    ensures forall m :: 0 <= m < Spec.LEVELS ==> t !in queues[m]
    ensures forall m :: 0 <= m < Spec.LEVELS && m != l && queues[l] != [] ==> queues[l][|queues[l]| - 1] !in queues[m]
  {
    assert queues[l] != [] ==> queues[l][|queues[l]| - 1] in queues[l];
  }

  predicate InPool(pool: seq<Slot>, q: seq<nat>) {
    forall i :: 0 <= i < |q| ==> q[i] < |pool|
  }

  /** Slot t has been linked after the last slot of q. */
  ghost predicate Appended(pool: seq<Slot>, after: seq<Slot>, q: seq<nat>, t: nat)
    requires t < |pool| == |after| && InPool(pool, q)
  {
    && after[t].next == -1 && after[t].prev == At(q, |q| - 1)
    && (q != [] ==> after[q[|q| - 1]].next == t && after[q[|q| - 1]].prev == pool[q[|q| - 1]].prev)
    && forall u: nat :: u < |pool| && u != t && (q != [] ==> u != q[|q| - 1]) ==> SameLinks(after[u], pool[u])
  }

  lemma QueueInPool(pool: seq<Slot>, q: seq<nat>)
    requires Links(pool, q)
    ensures InPool(pool, q)
  {
  }

  lemma AppendElsewhere(pool: seq<Slot>, after: seq<Slot>, q: seq<nat>, t: nat, other: seq<nat>)
    requires t < |pool| == |after| && InPool(pool, q) && Appended(pool, after, q, t)
    requires Links(pool, other) && t !in other && (q != [] ==> q[|q| - 1] !in other)
    ensures Links(after, other)
  {
    hide Links, SameLinks;
    LinksElsewhere(pool, after, other);
  }

  lemma AppendHere(pool: seq<Slot>, after: seq<Slot>, q: seq<nat>, t: nat)
    requires t < |pool| == |after| && InPool(pool, q) && Appended(pool, after, q, t)
    requires Links(pool, q) && Laws.NoRepeats(q) && t !in q
    ensures Links(after, q + [t])
  {
    if q == [] {
      OneLinked(after, t);
      assert q + [t] == [t];
    } else {
      hide Links, SameLinks;
      assert forall k :: 0 <= k < |q| - 1 ==> q[k] in q && q[k] != q[|q| - 1];
      LinksAppend(pool, after, q, t);
    }
  }

  lemma OneLinked(pool: seq<Slot>, t: nat)
    requires t < |pool| && pool[t].next == -1 && pool[t].prev == -1
    ensures Links(pool, [t])
  {
  }

  lemma ChainAppend(pool: seq<Slot>, after: seq<Slot>, heads: seq<int>, queues: seq<seq<nat>>, l: nat, t: nat)
    requires Chained(pool, heads, queues) && l < Spec.LEVELS && t < |pool| == |after| && Apart(queues, l, t)
    requires InPool(pool, queues[l]) && Appended(pool, after, queues[l], t)
    ensures Chained(after, if queues[l] == [] then heads[l := t] else heads, queues[l := queues[l] + [t]])
  {
    hide Links, Appended;
    ApartLast(queues, l, t);
    hide Apart;
    AppendHere(pool, after, queues[l], t);
    forall m | 0 <= m < Spec.LEVELS && m != l ensures Links(after, queues[m]) {
      AppendElsewhere(pool, after, queues[l], t, queues[m]);
    }
  }

  /** Appending a slot leaves the links of every slot still off the queues. */
  lemma LooseAppend(pool: seq<Slot>, after: seq<Slot>, queues: seq<seq<nat>>, l: nat, t: nat)
    requires Loose(pool, queues) && l < |queues| && t < |pool| == |after|
    requires InPool(pool, queues[l]) && Appended(pool, after, queues[l], t)
    ensures Loose(after, queues[l := queues[l] + [t]])
  {
    var q := queues[l];
    var rest := queues[l := q + [t]];
    forall u: nat | u < |pool| && OnNone(rest, u) ensures after[u].next == -1 && after[u].prev == -1 {
      assert u !in rest[l];
      assert t in rest[l] && forall v :: v in q ==> v in rest[l];
      OffRest(queues, l, rest, u);
      assert q != [] ==> q[|q| - 1] in q;
    }
  }

  lemma DequeueIs(s: Spec.Sched, t: nat, rest: seq<seq<nat>>)
    requires Spec.Shaped(s) && t < Spec.MAX_TASKS
    requires var l := Spec.LevelOf(s, t);
             rest == s.queues[l := if t in s.queues[l] then Spec.Without(s.queues[l], t) else []]
    ensures Spec.Dequeue(s, t) == s.(queues := rest, ready := if s.ready > 0 then s.ready - 1 else 0)
  {
    hide Spec.Without, Spec.LevelOf;
  }

  lemma DequeueKeepsTasks(s: Spec.Sched, t: nat)
    requires Spec.Shaped(s) && t < Spec.MAX_TASKS
    ensures Spec.Dequeue(s, t).pool == s.pool && Spec.Dequeue(s, t).current == s.current
  {
  }

  /** Storing a state in which the task is not runnable leaves an unqueued slot unqueued. */
  lemma UnqueuedStays(s: Spec.Sched, state: Spec.State, wake: uint32)
    requires Laws.Inv(s) && s.current >= 0 && !Laws.Runnable(s.pool[s.current])
    ensures Laws.Placed(Laws.Stored(s, state, wake), s.current, false)
  {
    hide Laws.Placed;
    Laws.InvIsPlaced(s, s.current);
    Laws.PlacedPool(s, s.current, false, s.pool[s.current].(state := state, wake := wake));
  }
}
