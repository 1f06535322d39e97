/** The priority scheduler as a transition system: eight FIFO queues of task-pool slots, one
    current slot, and a step for each operation. */
module Scheduling {
  import opened Bits

  const LEVELS: nat := 8
  const MAX_TASKS: nat := 64
  const TIME_SLICE: nat := 10
  const MAX_SLEEP_MS: nat := 60000
  const NORMAL: nat := 4

  datatype State = Ready | Running | Blocked | Sleeping | Zombie | Terminated

  /** handle: the task_t, 0 for none; slice: ticks left; wake: wake_time. */
  datatype Task = Task(handle: nat, priority: nat, state: State, slice: nat, wake: uint32)

  /** current: a pool slot, or -1; ready: stats.ready_tasks. */
  datatype Sched = Sched(current: int, queues: seq<seq<nat>>, pool: seq<Task>, ready: nat, ticks: uint64)

  /** Every field that holds a slot or a level holds a valid one. */
  predicate Shaped(s: Sched) {
    && |s.queues| == LEVELS && |s.pool| == MAX_TASKS && -1 <= s.current < MAX_TASKS
    && forall l, t :: 0 <= l < LEVELS && t in s.queues[l] ==> t < MAX_TASKS
  }

  /** The queue a priority selects; an out-of-range priority counts as normal. */
  function Level(priority: nat): (l: nat)
    ensures l < LEVELS
  {
    if priority >= LEVELS then NORMAL else priority
  }

  function LevelOf(s: Sched, t: nat): (l: nat)
    requires t < |s.pool|
    ensures l < LEVELS
  {
    Level(s.pool[t].priority)
  }

  predicate Queued(s: Sched, t: nat)
    requires Shaped(s) && t < MAX_TASKS
  {
    t in s.queues[LevelOf(s, t)]
  }

  function Without(q: seq<nat>, t: nat): (r: seq<nat>)
    ensures forall u :: u in r ==> u in q
  {
    if q == [] then [] else if q[0] == t then q[1..] else [q[0]] + Without(q[1..], t)
  }

  function Enqueue(s: Sched, t: nat): (r: Sched)
    requires Shaped(s) && t < MAX_TASKS
    ensures Shaped(r)
  {
    var l := LevelOf(s, t);
    s.(queues := s.queues[l := s.queues[l] + [t]], ready := s.ready + 1)
  }

  /** Unlinking a slot. One that is on no queue has no predecessor, so the code makes its
      (absent) successor the head of its level: the whole level is dropped. */
  function Dequeue(s: Sched, t: nat): (r: Sched)
    requires Shaped(s) && t < MAX_TASKS
    ensures Shaped(r)
  {
    var l := LevelOf(s, t);
    var q := s.queues[l];
    s.(queues := s.queues[l := if t in q then Without(q, t) else []],
       ready := if s.ready > 0 then s.ready - 1 else 0)
  }

  /** The highest level below l whose queue is not empty, or -1. */
  function TopBelow(queues: seq<seq<nat>>, l: nat): (top: int)
    requires l <= |queues|
    ensures -1 <= top < l
    ensures top >= 0 ==> queues[top] != []
    ensures forall m :: top < m < l ==> queues[m] == []
  {
    if l == 0 then -1 else if queues[l - 1] != [] then l - 1 else TopBelow(queues, l - 1)
  }

  /** find_next_task: the head of the highest queue that is not empty, or -1. */
  function Next(s: Sched): (t: int)
    requires Shaped(s)
    ensures -1 <= t < MAX_TASKS
  {
    var top := TopBelow(s.queues, LEVELS);
    assert top >= 0 ==> s.queues[top][0] in s.queues[top];
    if top < 0 then -1 else s.queues[top][0]
  }

  function WithState(s: Sched, t: nat, state: State): (r: Sched)
    requires Shaped(s) && t < MAX_TASKS
    ensures Shaped(r)
  {
    s.(pool := s.pool[t := s.pool[t].(state := state)])
  }

  /** Making t the running task, with a full time slice. */
  function Dispatch(s: Sched, t: nat): (r: Sched)
    requires Shaped(s) && t < MAX_TASKS
    ensures Shaped(r)
  {
    s.(pool := s.pool[t := s.pool[t].(state := Running, slice := TIME_SLICE)], current := t)
  }

  /** Putting a running task back at the end of its queue, ready. */
  function Requeue(s: Sched, t: nat): (r: Sched)
    requires Shaped(s) && t < MAX_TASKS
    ensures Shaped(r)
  {
    Enqueue(Dequeue(WithState(s, t, Ready), t), t)
  }

  function Yield(s: Sched): (r: Sched)
    requires Shaped(s)
    ensures Shaped(r)
  {
    if s.current < 0 then s else
    var next := Next(s);
    if next < 0 || next == s.current then s else
    var s1 := if s.pool[s.current].state == Running then Requeue(s, s.current) else s;
    Dispatch(s1, next)
  }

  /** The first slot at or after i that is free. */
  function FreeSlot(pool: seq<Task>, i: nat): (t: int)
    requires i <= |pool|
    ensures t == -1 || i <= t < |pool|
    decreases |pool| - i
  {
    if i == |pool| then -1
    else if pool[i].handle == 0 && pool[i].state == Terminated then i
    else FreeSlot(pool, i + 1)
  }

  /** The first slot at or after i that holds the task. */
  function FindTask(pool: seq<Task>, handle: nat, i: nat): (t: int)
    requires i <= |pool|
    ensures t == -1 || (i <= t < |pool| && pool[t].handle == handle)
    decreases |pool| - i
  {
    if i == |pool| then -1 else if pool[i].handle == handle then i else FindTask(pool, handle, i + 1)
  }

  function Lookup(s: Sched, handle: nat): (t: int)
    requires Shaped(s)
    ensures t == -1 || (0 <= t < MAX_TASKS && s.pool[t].handle == handle != 0)
  {
    if handle == 0 then -1 else FindTask(s.pool, handle, 0)
  }

  function Add(s: Sched, handle: nat, priority: nat): (r: Sched)
    requires Shaped(s)
    ensures Shaped(r)
  {
    var t := FreeSlot(s.pool, 0);
    if handle == 0 || t < 0 then s
    else Enqueue(s.(pool := s.pool[t := Task(handle, priority, Ready, TIME_SLICE, 0)]), t)
  }

  function Remove(s: Sched, handle: nat): (r: Sched)
    requires Shaped(s)
    ensures Shaped(r)
  {
    var t := Lookup(s, handle);
    if t < 0 then s else
    var d := Dequeue(s, t);
    d.(pool := d.pool[t := d.pool[t].(handle := 0, state := Terminated)])
  }

  function SetPriority(s: Sched, handle: nat, priority: nat): (r: Sched)
    requires Shaped(s)
    ensures Shaped(r)
  {
    var t := Lookup(s, handle);
    if t < 0 then s
    else if s.pool[t].state == Ready then
      var d := Dequeue(s, t);
      Enqueue(d.(pool := d.pool[t := d.pool[t].(priority := priority)]), t)
    else s.(pool := s.pool[t := s.pool[t].(priority := priority)])
  }

  /** The current task leaves its queue in the given state, and another is chosen. */
  function Leave(s: Sched, state: State, wake: uint32): (r: Sched)
    requires Shaped(s) && s.current >= 0
    ensures Shaped(r)
  {
    Yield(Dequeue(s.(pool := s.pool[s.current := s.pool[s.current].(state := state, wake := wake)]), s.current))
  }

  function Block(s: Sched): (r: Sched)
    requires Shaped(s)
    ensures Shaped(r)
  {
    if s.current < 0 then s else Leave(s, Blocked, s.pool[s.current].wake)
  }

  function Exit(s: Sched): (r: Sched)
    requires Shaped(s)
    ensures Shaped(r)
  {
    if s.current < 0 then s else Leave(s, Zombie, s.pool[s.current].wake)
  }

  function SleepTicks(ms: uint32): (n: nat)
    ensures n <= 6000
  {
    (if ms > MAX_SLEEP_MS then MAX_SLEEP_MS else ms) / 10
  }

  /** wake_time is the low half of the 64-bit wake tick. */
  function Sleep(s: Sched, ms: uint32): (r: Sched)
    requires Shaped(s)
    ensures Shaped(r)
  {
    if s.current < 0 || ms == 0 then s else Leave(s, Sleeping, Wrap32(s.ticks + SleepTicks(ms)))
  }

  function Wake(s: Sched, handle: nat): (r: Sched)
    requires Shaped(s)
    ensures Shaped(r)
  {
    var t := Lookup(s, handle);
    if t < 0 || s.pool[t].state != Blocked then s else Enqueue(WithState(s, t, Ready), t)
  }

  predicate Expired(s: Sched, t: nat)
    requires t < |s.pool|
  {
    s.pool[t].state == Sleeping && s.pool[t].wake <= Wrap32(s.ticks)
  }

  function WakeOne(s: Sched, t: nat): (r: Sched)
    requires Shaped(s) && t < MAX_TASKS
    ensures Shaped(r)
  {
    if Expired(s, t) then Enqueue(s.(pool := s.pool[t := s.pool[t].(state := Ready, wake := 0)]), t) else s
  }

  /** The wake-up loop of a tick, from slot t on. */
  function WakeFrom(s: Sched, t: nat): (r: Sched)
    requires Shaped(s) && t <= MAX_TASKS
    ensures Shaped(r)
    decreases MAX_TASKS - t
  {
    if t == MAX_TASKS then s else WakeFrom(WakeOne(s, t), t + 1)
  }

  /** The end of a tick: the current task's slice runs down, and at 0 it yields. */
  function ChargeTick(s: Sched): (r: Sched)
    requires Shaped(s)
    ensures Shaped(r)
  {
    if s.current < 0 then s else
    var left := if s.pool[s.current].slice > 0 then s.pool[s.current].slice - 1 else 0;
    var s1 := s.(pool := s.pool[s.current := s.pool[s.current].(slice := left)]);
    if left == 0 then Yield(s1) else s1
  }

  function Tick(s: Sched): (r: Sched)
    requires Shaped(s)
    ensures Shaped(r)
  {
    ChargeTick(WakeFrom(s.(ticks := (s.ticks + 1) % 0x1_0000_0000_0000_0000), 0))
  }

  /** The first dispatch, which the source leaves to its caller. */
  function Start(s: Sched): (r: Sched)
    requires Shaped(s)
    ensures Shaped(r)
  {
    if s.current >= 0 || Next(s) < 0 then s else Dispatch(s, Next(s))
  }

  // ---- Runs ----

  datatype Event =
    | EAdd(handle: nat, priority: nat)
    | ERemove(handle: nat)
    | ESetPriority(handle: nat, priority: nat)
    | EYield
    | EBlock
    | EExit
    | ESleep(ms: uint32)
    | EWake(handle: nat)
    | ETick
    | EStart

  function Step(s: Sched, e: Event): (r: Sched)
    requires Shaped(s)
    ensures Shaped(r)
  {
    match e
    case EAdd(handle, priority) => Add(s, handle, priority)
    case ERemove(handle) => Remove(s, handle)
    case ESetPriority(handle, priority) => SetPriority(s, handle, priority)
    case EYield => Yield(s)
    case EBlock => Block(s)
    case EExit => Exit(s)
    case ESleep(ms) => Sleep(s, ms)
    case EWake(handle) => Wake(s, handle)
    case ETick => Tick(s)
    case EStart => Start(s)
  }

  /** What callers owe. Only a queued task blocks, sleeps or exits; a task is removed while ready
      and not current; and the running task's priority is left alone. */
  predicate Allowed(s: Sched, e: Event)
    requires Shaped(s)
  {
    match e
    case ERemove(handle) => var t := Lookup(s, handle); t >= 0 ==> s.pool[t].state == Ready && t != s.current
    case ESetPriority(handle, _) => var t := Lookup(s, handle); t >= 0 ==> s.pool[t].state != Running
    case EBlock => s.current >= 0 ==> Queued(s, s.current)
    case EExit => s.current >= 0 ==> Queued(s, s.current)
    case ESleep(_) => s.current >= 0 ==> Queued(s, s.current)
    case _ => true
  }
}
