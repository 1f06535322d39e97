/** What the scheduler's operations do to the queues, and which of them undo each other. */
module SchedulingEffects {
  import opened Bits
  import opened Scheduling
  import opened SchedulingLaws
  import opened SchedulingPromises

  lemma WithoutAbsent(q: seq<nat>, t: nat)
    requires t !in q
    ensures Without(q + [t], t) == q
  {
    if q != [] {
      WithoutAbsent(q[1..], t);
      assert (q + [t])[1..] == q[1..] + [t];
      assert [q[0]] + q[1..] == q;
    } else {
      assert (q + [t])[1..] == [];
    }
  }

  /** Lookups depend on the slots' handles alone. */
  lemma {:induction false} SameHandles(a: seq<Task>, b: seq<Task>, handle: nat, i: nat)
    requires |a| == |b| && i <= |a| && forall u :: 0 <= u < |a| ==> a[u].handle == b[u].handle
    ensures FindTask(a, handle, i) == FindTask(b, handle, i)
    decreases |a| - i
  {
    if i < |a| { SameHandles(a, b, handle, i + 1); }
  }

  lemma InvIsShaped(s: Sched)
    requires Inv(s)
    ensures Shaped(s)
  {
  }

  /** The queues once slot t has left its own. */
  function Left(s: Sched, t: nat): (queues: seq<seq<nat>>)
    requires Shaped(s) && t < MAX_TASKS
    ensures |queues| == LEVELS
  {
    var l := LevelOf(s, t);
    s.queues[l := Without(s.queues[l], t)]
  }

  lemma DequeueQueued(s: Sched, t: nat)
    requires Inv(s) && t < MAX_TASKS && Runnable(s.pool[t])
    ensures s.ready >= 1 && Dequeue(s, t) == s.(queues := Left(s, t), ready := s.ready - 1)
  {
    hide Without, Placed;
    var l := LevelOf(s, t);
    assert t in s.queues[l];
    TotalUpdate(s.queues, l, []);
  }

  /** Blocking, sleeping and exiting: the current task leaves its queue, every other queue position is
      as it was, and the CPU goes to the head of the highest queue left, if there is one. */
  lemma LeaveEffect(s: Sched, state: State, wake: uint32, u: nat)
    requires Inv(s) && s.current >= 0 && Runnable(s.pool[s.current]) && u < MAX_TASKS
    requires state != Ready && state != Running
    ensures var r := Leave(s, state, wake);
            && r.queues == Left(s, s.current) && r.ready == s.ready - 1
            && (r.current == s.current <==> forall l :: 0 <= l < LEVELS ==> r.queues[l] == [])
            && (r.current != s.current ==> r.current == Next(r))
            && r.pool[u] == if u == s.current then s.pool[u].(state := state, wake := wake)
                            else if u == r.current then s.pool[u].(state := Running, slice := 10)
                            else s.pool[u]
  {
    hide Without, Placed, Counted, Yield, Next, Dequeue;
    UnqueueKeeps(s, state, wake);
    var d := Dequeue(Stored(s, state, wake), s.current);
    StoredDequeue(s, state, wake);
    YieldEffect(d, u);
    YieldKeepsQueues(d);
    TopIsHighest(d);
    NextIsQueued(d);
    if Switches(d) { SameNext(Leave(s, state, wake), d); }
  }

  /** What state the current task is left in by each. */
  lemma LeavingStates(s: Sched, ms: uint32, n: nat)
    requires Inv(s) && s.current >= 0 && Runnable(s.pool[s.current]) && ms > 0 && WholeTicks(ms, n)
    ensures var c := s.current;
            && Block(s).pool[c] == s.pool[c].(state := Blocked)
            && Exit(s).pool[c] == s.pool[c].(state := Zombie)
            && Sleep(s, ms).pool[c] == s.pool[c].(state := Sleeping, wake := (s.ticks + n) % TWO_32)
            && Sleep(s, 0) == s
  {
    hide Leave, Placed, Counted, SleepTicks;
    var wake := s.pool[s.current].wake;
    SleepTicksIs(ms, n);
    LeaveKeepsSleeper(s, s.current, Blocked, wake);
    LeaveKeepsSleeper(s, s.current, Zombie, wake);
    LeaveKeepsSleeper(s, s.current, Sleeping, Wrap32(s.ticks + n));
  }

  lemma YieldKeepsZombie(s: Sched, t: nat)
    requires Inv(s) && t < MAX_TASKS && s.pool[t].state == Zombie
    ensures Yield(s).pool[t] == s.pool[t]
  {
    hide Yield, Counted;
    YieldEffect(s, t);
    if Switches(s) { NextIsReady(s); }
  }

  lemma LeaveKeepsZombie(s: Sched, state: State, wake: uint32, t: nat)
    requires Inv(s) && s.current >= 0 && Runnable(s.pool[s.current]) && state != Ready && state != Running
    requires t < MAX_TASKS && s.pool[t].state == Zombie
    ensures Leave(s, state, wake).pool[t] == s.pool[t]
  {
    hide Placed, Counted, Yield;
    UnqueueKeeps(s, state, wake);
    YieldKeepsZombie(Dequeue(Stored(s, state, wake), s.current), t);
  }

  lemma TickKeepsZombie(s: Sched, t: nat)
    requires Inv(s) && t < MAX_TASKS && s.pool[t].state == Zombie
    ensures Tick(s).pool[t].state == Zombie
  {
    hide WakeFrom, Yield, Counted;
    var s0 := s.(ticks := (s.ticks + 1) % 0x1_0000_0000_0000_0000);
    var w := WakeFrom(s0, 0);
    TickEffect(s, t);
    ClockKeeps(s, s0.ticks);
    WakeFromKeeps(s0, 0);
    if w.current >= 0 {
      var left := if w.pool[w.current].slice > 0 then w.pool[w.current].slice - 1 else 0;
      SliceKeeps(w, left);
      YieldKeepsZombie(w.(pool := w.pool[w.current := w.pool[w.current].(slice := left)]), t);
    }
  }

  lemma QuietKeepsZombie(s: Sched, e: Event, t: nat)
    requires Inv(s) && Allowed(s, e) && t < MAX_TASKS && s.pool[t].state == Zombie && s.pool[t].handle != 0
    requires e.EAdd? || e.ERemove? || e.ESetPriority? || e.EWake? || e.EStart?
    ensures Step(s, e).pool[t].state == Zombie && Step(s, e).pool[t].handle != 0
  {
    hide Counted, Next;
    FreeSlotIsFree(s.pool, 0);
    if e.EStart? && s.current < 0 && Next(s) >= 0 { NextIsReady(s); }
  }

  lemma StepKeepsZombie(s: Sched, e: Event, t: nat)
    requires Inv(s) && Allowed(s, e) && t < MAX_TASKS && s.pool[t].state == Zombie && s.pool[t].handle != 0
    ensures Step(s, e).pool[t].state == Zombie && Step(s, e).pool[t].handle != 0
  {
    hide Yield, Leave, Dequeue, Enqueue, Next, WakeFrom, Counted, Dispatch;
    if s.current >= 0 { QueuedIsRunnable(s, s.current); }
    match e
    case EYield => YieldKeepsZombie(s, t);
    case EBlock => if s.current >= 0 { LeaveKeepsZombie(s, Blocked, s.pool[s.current].wake, t); }
    case EExit => if s.current >= 0 { LeaveKeepsZombie(s, Zombie, s.pool[s.current].wake, t); }
    case ESleep(ms) =>
      if s.current >= 0 && ms > 0 { LeaveKeepsZombie(s, Sleeping, Wrap32(s.ticks + SleepTicks(ms)), t); }
    case ETick => TickKeepsZombie(s, t); StepKeepsHandle(s, t);
    case _ => QuietKeepsZombie(s, e, t);
  }

  lemma StepKeepsHandle(s: Sched, t: nat)
    requires Inv(s) && t < MAX_TASKS
    ensures Tick(s).pool[t].handle == s.pool[t].handle
  {
    hide WakeFrom, Yield, Counted;
    TickEffect(s, t);
    var w := WakeFrom(s.(ticks := (s.ticks + 1) % 0x1_0000_0000_0000_0000), 0);
    if w.current >= 0 {
      var left := if w.pool[w.current].slice > 0 then w.pool[w.current].slice - 1 else 0;
      YieldKeepsHandle(w.(pool := w.pool[w.current := w.pool[w.current].(slice := left)]), t);
    }
  }

  lemma YieldKeepsHandle(s: Sched, t: nat)
    requires Shaped(s) && t < MAX_TASKS
    ensures Yield(s).pool[t].handle == s.pool[t].handle
  {
    hide Next;
  }

  /** A task that has exited is a zombie for good: no lawful run lets it run again, or gives its slot to
      another. */
  lemma {:induction false} ExitIsFinal(s: Sched, es: seq<Event>, t: nat)
    requires Inv(s) && Lawful(s, es) && t < MAX_TASKS && s.pool[t].state == Zombie && s.pool[t].handle != 0
    ensures Run(s, es).pool[t].state == Zombie
    decreases |es|
  {
    hide Step, Allowed, Counted;
    if es != [] {
      StepKeepsZombie(s, es[0], t);
      StepKeeps(s, es[0]);
      ExitIsFinal(Step(s, es[0]), es[1..], t);
    }
  }

  lemma StoredDequeue(s: Sched, state: State, wake: uint32)
    requires Inv(s) && s.current >= 0 && Runnable(s.pool[s.current])
    ensures var d := Dequeue(Stored(s, state, wake), s.current);
            s.ready >= 1 && d == Stored(s, state, wake).(queues := Left(s, s.current), ready := s.ready - 1)
  {
    hide Without, Placed, Counted;
    DequeueQueued(s, s.current);
  }

  /** A yield from a task that no longer runs only dispatches. */
  lemma YieldKeepsQueues(s: Sched)
    requires Shaped(s) && s.current >= 0 && s.pool[s.current].state != Running
    ensures Yield(s).queues == s.queues && Yield(s).ready == s.ready
  {
    hide Next;
  }

  lemma NextIsQueued(s: Sched)
    requires Inv(s) && s.current >= 0 && !Runnable(s.pool[s.current])
    ensures Next(s) != s.current
  {
    if Next(s) >= 0 {
      assert Next(s) in s.queues[TopBelow(s.queues, LEVELS)];
    }
  }

  lemma SameNext(r: Sched, d: Sched)
    requires Shaped(r) && Shaped(d) && r.queues == d.queues
    ensures Next(r) == Next(d)
  {
  }

  /** Waking the task that just blocked puts it at the end of its own queue; the other tasks, the ready
      count and the choice made meanwhile stand. */
  lemma WakeUndoesBlock(s: Sched, handle: nat)
    requires Inv(s) && s.current >= 0 && Runnable(s.pool[s.current]) && Lookup(s, handle) == s.current
    ensures var c, b := s.current, Block(s);
            var r := Wake(b, handle);
            && r.queues == s.queues[LevelOf(s, c) := Without(s.queues[LevelOf(s, c)], c) + [c]]
            && r.ready == s.ready && r.current == b.current && r.pool[c].state == Ready && Inv(r)
  {
    InvIsShaped(s);
    hide Without, Placed, Counted, Leave, Next, Inv;
    var c, wake := s.current, s.pool[s.current].wake;
    var b := Block(s);
    forall u: nat | u < MAX_TASKS ensures b.pool[u].handle == s.pool[u].handle {
      LeaveEffect(s, Blocked, wake, u);
    }
    LeaveEffect(s, Blocked, wake, c);
    SameHandles(b.pool, s.pool, handle, 0);
    LeaveKeeps(s, Blocked, wake);
    WakeKeeps(b, handle);
    DequeueQueued(s, c);
  }

  /** A new task goes to the end of its level; with every slot taken nothing changes. */
  lemma AddEffect(s: Sched, handle: nat, priority: nat)
    requires Inv(s) && handle != 0
    ensures var r, t := Add(s, handle, priority), FreeSlot(s.pool, 0);
            if t < 0 then r == s && (forall u :: 0 <= u < 64 ==> s.pool[u].handle != 0)
            else
              && t < 64 && s.pool[t].handle == 0 && (forall u :: 0 <= u < t ==> s.pool[u].handle != 0)
              && r.queues == s.queues[Level(priority) := s.queues[Level(priority)] + [t]]
              && r.ready == s.ready + 1 && r.current == s.current
              && (forall l :: 0 <= l < LEVELS ==> t !in s.queues[l])
              && r.pool == s.pool[t := Task(handle, priority, Ready, 10, 0)]
  {
    hide Placed, Counted;
    FreeSlotIsFree(s.pool, 0);
    FreeSlotIsFirst(s.pool, 0);
    FreeHandlesAreTerminated(s);
    var t := FreeSlot(s.pool, 0);
    if t >= 0 {
      forall l | 0 <= l < LEVELS ensures t !in s.queues[l] {
      }
    }
  }

  lemma {:induction false} FreeSlotIsFirst(pool: seq<Task>, i: nat)
    requires i <= |pool|
    ensures forall u :: i <= u < FreeSlot(pool, i) ==> pool[u].handle != 0 || pool[u].state != Terminated
    decreases |pool| - i
  {
    if i < |pool| { FreeSlotIsFirst(pool, i + 1); }
  }

  /** A handle stands for the first slot that holds it; 0, and one that none holds, for none. */
  lemma LookupIsFirst(s: Sched, handle: nat)
    requires Shaped(s)
    ensures var t := Lookup(s, handle);
            if t >= 0 then t < 64 && s.pool[t].handle == handle && forall u :: 0 <= u < t ==> s.pool[u].handle != handle
            else handle == 0 || forall u :: 0 <= u < 64 ==> s.pool[u].handle != handle
  {
    FindTaskIsFirst(s.pool, handle, 0);
  }

  lemma {:induction false} FindTaskIsFirst(pool: seq<Task>, handle: nat, i: nat)
    requires i <= |pool|
    ensures var t := FindTask(pool, handle, i);
            forall u :: i <= u < (if t >= 0 then t else |pool|) ==> pool[u].handle != handle
    decreases |pool| - i
  {
    if i < |pool| { FindTaskIsFirst(pool, handle, i + 1); }
  }

  /** Waking readies a blocked task, last on its queue, and does nothing to any other. */
  lemma WakeEffect(s: Sched, handle: nat)
    requires Shaped(s)
    ensures var r, t := Wake(s, handle), Lookup(s, handle);
            if t >= 0 && s.pool[t].state == Blocked then
              var l := LevelOf(s, t);
              && r.queues == s.queues[l := s.queues[l] + [t]] && r.ready == s.ready + 1
              && r.pool == s.pool[t := s.pool[t].(state := Ready)] && r.current == s.current && r.ticks == s.ticks
            else r == s
  {
    hide Lookup;
  }

  /** A task that is not ready only has its priority stored; a blocked one joins the new level when it
      is woken. */
  lemma SetPriorityWaits(s: Sched, handle: nat, priority: nat)
    requires Inv(s) && Lookup(s, handle) >= 0 && s.pool[Lookup(s, handle)].state != Ready
    ensures var r, t := SetPriority(s, handle, priority), Lookup(s, handle);
            && r == s.(pool := s.pool[t := s.pool[t].(priority := priority)])
            && (s.pool[t].state == Blocked ==>
                  Wake(r, handle).queues == s.queues[Level(priority) := s.queues[Level(priority)] + [t]])
  {
    InvIsShaped(s);
    hide Inv, Lookup, Level;
    var r := SetPriority(s, handle, priority);
    SameHandles(r.pool, s.pool, handle, 0);
    SameLookup(r, s, handle);
    WakeEffect(r, handle);
  }

  lemma SameLookup(r: Sched, s: Sched, handle: nat)
    requires Shaped(r) && Shaped(s) && FindTask(r.pool, handle, 0) == FindTask(s.pool, handle, 0)
    ensures Lookup(r, handle) == Lookup(s, handle)
  {
  }

  // ---- Priorities and slices ----

  /** After a yield nothing runnable has a higher priority than the current task, an out-of-range priority
      counting as 4. */
  lemma HighestPriorityRuns(s: Sched, t: nat)
    requires Inv(s) && s.current >= 0 && t < MAX_TASKS && Runnable(s.pool[t])
    ensures var r := Yield(s);
            var p, q := r.pool[r.current].priority, s.pool[t].priority;
            (if p < 8 then p else 4) >= (if q < 8 then q else 4)
  {
    hide Yield, Next, Counted;
    NextOutranks(s, t);
    YieldEffect(s, Next(s));
    YieldEffect(s, s.current);
  }

  /** A yield that takes the CPU from a running task puts it last on its own queue and moves no other. */
  lemma YieldMoves(s: Sched)
    requires Inv(s) && s.current >= 0 && s.pool[s.current].state == Running && Switches(s)
    ensures var r, l := Yield(s), LevelOf(s, s.current);
            && r.queues == s.queues[l := Without(s.queues[l], s.current) + [s.current]] && r.ready == s.ready
            && r.pool[s.current] == s.pool[s.current].(state := Ready)
  {
    hide Next, Placed, Counted, Without;
    var c := s.current;
    QueuedIsRunnable(s, c);
    ReadyDequeue(s, c);
    YieldEffect(s, c);
  }

  lemma ReadyDequeue(s: Sched, c: nat)
    requires Inv(s) && c < MAX_TASKS && Runnable(s.pool[c])
    ensures var l := LevelOf(s, c);
            var r := Requeue(s, c);
            r.queues == s.queues[l := Without(s.queues[l], c) + [c]] && r.ready == s.ready
  {
    hide Without, Placed;
    DequeueQueued(s, c);
    var l := LevelOf(s, c);
    var q := Without(s.queues[l], c);
    assert s.queues[l := q][l := q + [c]] == s.queues[l := q + [c]];
  }

  /** In increasing order of slots. */
  predicate Ascending(q: seq<nat>) {
    forall i, j :: 0 <= i < j < |q| ==> q[i] < q[j]
  }

  /** A tick's wake-up loop appends to each queue the sleepers of its level that are due, in slot order. */
  lemma {:induction false} WakeOrder(s: Sched, i: nat, l: nat) returns (woken: seq<nat>)
    requires Shaped(s) && i <= MAX_TASKS && l < LEVELS
    ensures WakeFrom(s, i).queues[l] == s.queues[l] + woken && Ascending(woken)
    ensures forall u :: u in woken <==> i <= u < MAX_TASKS && Expired(s, u) && LevelOf(s, u) == l
    decreases MAX_TASKS - i
  {
    hide Level, WakeOne, Expired, Ascending;
    if i == MAX_TASKS {
      woken := [];
      NoneWoken(s, l);
    } else {
      var r := WakeOne(s, i);
      var more := WakeOrder(r, i + 1, l);
      WokenOthers(s, i);
      woken := (if Expired(s, i) && LevelOf(s, i) == l then [i] else []) + more;
      AscendingCons(i, more);
      assert [] + more == more;
    }
  }

  lemma NoneWoken(s: Sched, l: nat)
    requires Shaped(s) && l < LEVELS
    ensures WakeFrom(s, MAX_TASKS).queues[l] == s.queues[l] + [] && Ascending([])
  {
    assert s.queues[l] + [] == s.queues[l];
  }

  lemma AscendingCons(i: nat, more: seq<nat>)
    requires Ascending(more) && forall u :: u in more ==> i < u
    ensures Ascending([i] + more)
  {
    assert forall k :: 0 <= k < |more| ==> more[k] in more;
  }

  lemma WokenOthers(s: Sched, i: nat)
    requires Shaped(s) && i < MAX_TASKS
    ensures forall u :: i < u < MAX_TASKS ==>
              (Expired(WakeOne(s, i), u) <==> Expired(s, u)) && LevelOf(WakeOne(s, i), u) == LevelOf(s, u)
    ensures forall l :: 0 <= l < LEVELS ==>
              WakeOne(s, i).queues[l] == s.queues[l] + if Expired(s, i) && LevelOf(s, i) == l then [i] else []
  {
    hide Level;
    assert forall l :: 0 <= l < LEVELS ==> s.queues[l] + [] == s.queues[l];
  }

  /** A tick takes one from the current task's slice, and only its last one yields. */
  lemma SliceRunsDown(s: Sched)
    requires Inv(s) && s.current >= 0 && s.pool[s.current].slice > 1
    ensures var r, c := Tick(s), s.current;
            r.current == c && r.pool[c].slice == s.pool[c].slice - 1
  {
    hide WakeFrom, Yield, Placed, Counted;
    TickEffect(s, s.current);
  }

  /** So for all but the last tick of its slice a task keeps the CPU. */
  lemma {:induction false} SliceIsKept(s: Sched, n: nat)
    requires Inv(s) && s.current >= 0 && n < s.pool[s.current].slice
    ensures var r, c := TickTimes(s, n), s.current;
            Inv(r) && r.current == c && r.pool[c].slice == s.pool[c].slice - n
    decreases n
  {
    hide Tick, Inv;
    InvIsShaped(s);
    if n > 0 {
      SliceIsKept(s, n - 1);
      InvIsShaped(TickTimes(s, n - 1));
      TickKeeps(TickTimes(s, n - 1));
      SliceRunsDown(TickTimes(s, n - 1));
    }
  }

  lemma {:induction false} StaysOutranked(s: Sched, t: nat, n: nat)
    requires Inv(s) && t < MAX_TASKS && Outranks(s, t) && n < s.pool[s.current].slice
    ensures Outranks(TickTimes(s, n), t)
    decreases n
  {
    hide Tick, Counted, Placed;
    if n > 0 {
      StaysOutranked(s, t, n - 1);
      SliceIsKept(s, n - 1);
      OutrankedOn(TickTimes(s, n - 1), t);
    }
  }

  lemma OutrankedOn(s: Sched, t: nat)
    requires Inv(s) && t < MAX_TASKS && Outranks(s, t) && s.pool[s.current].slice > 1
    ensures Outranks(Tick(s), t)
  {
    hide WakeFrom, Yield, Placed, Counted;
    TickEffect(s, s.current);
    TickEffect(s, t);
  }

  /** A task that is outranked keeps the CPU for the rest of its slice and loses it at the end. */
  lemma OutrankedLosesAtEnd(s: Sched, t: nat, n: nat)
    requires Inv(s) && t < MAX_TASKS && Outranks(s, t) && s.pool[s.current].slice > 0
    ensures n < s.pool[s.current].slice ==> TickTimes(s, n).current == s.current
    ensures n == s.pool[s.current].slice ==> TickTimes(s, n).current != s.current
  {
    hide Tick, Counted, Placed;
    var k := s.pool[s.current].slice;
    if n < k { SliceIsKept(s, n); }
    if n == k {
      SliceIsKept(s, k - 1);
      StaysOutranked(s, t, k - 1);
      LosesNow(TickTimes(s, k - 1), t);
    }
  }

  lemma LosesNow(s: Sched, t: nat)
    requires Inv(s) && t < MAX_TASKS && Outranks(s, t) && s.pool[s.current].slice == 1
    ensures Tick(s).current != s.current
  {
    hide WakeFrom, Yield, Placed, Counted;
    var s0 := s.(ticks := (s.ticks + 1) % 0x1_0000_0000_0000_0000);
    var w := WakeFrom(s0, 0);
    TickEffect(s, t);
    TickEffect(s, s.current);
    ClockKeeps(s, s0.ticks);
    WakeFromKeeps(s0, 0);
    SliceKeeps(w, 0);
    var w1 := w.(pool := w.pool[w.current := w.pool[w.current].(slice := 0)]);
    YieldEndsOutranking(w1, t);
    YieldEffect(w1, t);
    YieldEffect(w1, w1.current);
  }

  lemma FreeHandlesAreTerminated(s: Sched)
    requires Inv(s)
    ensures forall u: nat :: u < MAX_TASKS && s.pool[u].handle == 0 ==> s.pool[u].state == Terminated
  {
  }

  /** Removing a task that was just added leaves every queue, the ready count and every other slot as
      before, and its slot free again. */
  lemma RemoveUndoesAdd(s: Sched, handle: nat, priority: nat)
    requires Inv(s) && handle != 0 && Lookup(s, handle) < 0 && FreeSlot(s.pool, 0) >= 0
    ensures var r, t := Remove(Add(s, handle, priority), handle), FreeSlot(s.pool, 0);
            && r.queues == s.queues && r.ready == s.ready && r.current == s.current && r.ticks == s.ticks
            && (forall u :: 0 <= u < MAX_TASKS && u != t ==> r.pool[u] == s.pool[u])
            && r.pool[t].handle == 0 && r.pool[t].state == Terminated
  {
    InvIsShaped(s);
    hide Placed, Counted, Without, FindTask, Inv;
    var a, t := Add(s, handle, priority), FreeSlot(s.pool, 0);
    AddEffect(s, handle, priority);
    AddKeeps(s, handle, priority);
    FoundAt(s.pool, a.pool, handle, t, 0);
    DequeueQueued(a, t);
    WithoutAbsent(s.queues[Level(priority)], t);
  }

  lemma {:induction false} FoundAt(before: seq<Task>, after: seq<Task>, handle: nat, t: nat, i: nat)
    requires i <= t < |before| && FindTask(before, handle, i) < 0
    requires |after| == |before| && after == before[t := after[t]] && after[t].handle == handle
    ensures FindTask(after, handle, i) == t
    decreases t - i
  {
    if i < t { FoundAt(before, after, handle, t, i + 1); }
  }

  /** Changing a ready task's priority takes it from its queue to the end of the new level's; nothing
      else moves. */
  lemma SetPriorityMoves(s: Sched, handle: nat, priority: nat, l: nat)
    requires Inv(s) && Lookup(s, handle) >= 0 && s.pool[Lookup(s, handle)].state == Ready && l < LEVELS
    ensures var r, t := SetPriority(s, handle, priority), Lookup(s, handle);
            && r.queues[l] == Left(s, t)[l] + (if l == Level(priority) then [t] else [])
            && r.ready == s.ready && r.current == s.current
            && r.pool == s.pool[t := s.pool[t].(priority := priority)]
  {
    InvIsShaped(s);
    hide Placed, Counted, Without, Lookup, Inv;
    var t := Lookup(s, handle);
    DequeueQueued(s, t);
  }
}
