/** What the scheduler's priorities, time slices and sleeps promise over runs, and where the
    code does less than its documentation says. */
module SchedulingPromises {
  import opened Bits
  import opened Scheduling
  import opened SchedulingLaws

  // ---- What a yield does ----

  predicate Switches(s: Sched)
    requires Shaped(s)
  {
    s.current >= 0 && Next(s) >= 0 && Next(s) != s.current
  }

  lemma YieldEffect(s: Sched, u: nat)
    requires Shaped(s) && u < MAX_TASKS
    ensures var r := Yield(s);
            && r.current == (if Switches(s) then Next(s) else s.current)
            && r.ticks == s.ticks
            && r.pool[u].priority == s.pool[u].priority
            && (u != s.current && u != Next(s) ==> r.pool[u] == s.pool[u])
            && (Switches(s) && u == Next(s) ==> r.pool[u] == s.pool[u].(state := Running, slice := 10))
            && (Switches(s) && u == s.current ==>
                  r.pool[u] == if s.pool[u].state == Running then s.pool[u].(state := Ready) else s.pool[u])
            && (!Switches(s) ==> r == s)
  {
    hide Next;
  }

  /** The head of the highest queue outranks, or equals, every queued task. */
  lemma NextOutranks(s: Sched, t: nat)
    requires Inv(s) && t < MAX_TASKS && Runnable(s.pool[t])
    ensures Next(s) >= 0 && LevelOf(s, Next(s)) >= LevelOf(s, t) && Runnable(s.pool[Next(s)])
  {
    var top := TopBelow(s.queues, LEVELS);
    assert t in s.queues[LevelOf(s, t)];
    assert s.queues[top][0] in s.queues[top];
  }

  lemma {:induction false} WithoutHead(q: seq<nat>, t: nat)
    requires q != [] && q[0] != t
    ensures Without(q, t) != [] && Without(q, t)[0] == q[0]
  {
  }

  lemma {:induction false} SameTop(a: seq<seq<nat>>, b: seq<seq<nat>>, l: nat)
    requires |a| == |b| && l <= |a| && forall m :: 0 <= m < |a| ==> (a[m] == [] <==> b[m] == [])
    ensures TopBelow(a, l) == TopBelow(b, l)
  {
    if l > 0 { SameTop(a, b, l - 1); }
  }

  /** Moving a queued task that is not next to the end of its queue does not change what is next. */
  lemma RequeueKeepsNext(s: Sched, t: nat)
    requires Inv(s) && t < MAX_TASKS && Runnable(s.pool[t]) && Next(s) != t
    ensures Next(Requeue(s, t)) == Next(s)
  {
    var l := LevelOf(s, t);
    var r := Requeue(s, t);
    assert t in s.queues[l];
    assert r.queues == s.queues[l := Without(s.queues[l], t) + [t]];
    SameTop(s.queues, r.queues, LEVELS);
    if TopBelow(s.queues, LEVELS) == l { WithoutHead(s.queues[l], t); }
  }

  /** Strict priority: after a yield with anything queued, the current task heads the highest
      queue that is not empty. */
  lemma YieldPicksHighest(s: Sched)
    requires Inv(s) && s.current >= 0 && Next(s) >= 0
    ensures Yield(s).current == Next(s) == Next(Yield(s))
  {
    hide Requeue, Next;
    if Switches(s) && s.pool[s.current].state == Running {
      RequeueKeepsNext(s, s.current);
      DispatchKeepsNext(Requeue(s, s.current), Next(s));
    } else if Switches(s) {
      DispatchKeepsNext(s, Next(s));
    }
  }

  lemma DispatchKeepsNext(s: Sched, t: nat)
    requires Shaped(s) && t < MAX_TASKS
    ensures Next(Dispatch(s, t)) == Next(s)
  {
  }

  // ---- Bounded latency ----

  /** t is queued above the current task. */
  predicate Outranks(s: Sched, t: nat)
    requires Shaped(s) && t < MAX_TASKS
  {
    s.current >= 0 && Runnable(s.pool[t]) && LevelOf(s, t) > LevelOf(s, s.current)
  }

  lemma YieldEndsOutranking(s: Sched, t: nat)
    requires Inv(s) && t < MAX_TASKS && s.current >= 0 && Runnable(s.pool[t])
    requires LevelOf(s, t) > LevelOf(s, s.current) || !Runnable(s.pool[s.current])
    ensures !Outranks(Yield(s), t)
  {
    hide Yield, Next;
    NextOutranks(s, t);
    YieldEffect(s, t);
    YieldEffect(s, Next(s));
  }

  lemma LeaveEndsOutranking(s: Sched, t: nat, state: State, wake: uint32)
    requires Inv(s) && t < MAX_TASKS && Outranks(s, t) && Runnable(s.pool[s.current])
    requires state != Ready && state != Running
    ensures !Outranks(Leave(s, state, wake), t)
  {
    hide Placed, Counted, Yield;
    UnqueueKeeps(s, state, wake);
    var s1 := Dequeue(Stored(s, state, wake), s.current);
    YieldEndsOutranking(s1, t);
  }

  /** The wake-up loop readies exactly the expired sleepers it has yet to reach. */
  lemma {:induction false} WakeFromEffect(s: Sched, i: nat, u: nat)
    requires Shaped(s) && i <= MAX_TASKS && u < MAX_TASKS
    ensures var r := WakeFrom(s, i);
            && r.current == s.current && r.ticks == s.ticks
            && r.pool[u] == if i <= u && Expired(s, u) then s.pool[u].(state := Ready, wake := 0) else s.pool[u]
    decreases MAX_TASKS - i
  {
    if i < MAX_TASKS { WakeFromEffect(WakeOne(s, i), i + 1, u); }
  }

  lemma TickEffect(s: Sched, u: nat)
    requires Shaped(s) && u < MAX_TASKS
    ensures var w := WakeFrom(s.(ticks := (s.ticks + 1) % 0x1_0000_0000_0000_0000), 0);
            && Tick(s) == ChargeTick(w)
            && w.current == s.current && w.ticks == (s.ticks + 1) % 0x1_0000_0000_0000_0000
            && w.pool[u] == if s.pool[u].state == Sleeping && s.pool[u].wake <= Wrap32(w.ticks)
                            then s.pool[u].(state := Ready, wake := 0) else s.pool[u]
  {
    hide WakeFrom, ChargeTick;
    WakeFromEffect(s.(ticks := (s.ticks + 1) % 0x1_0000_0000_0000_0000), 0, u);
  }

  lemma TickEndsOutranking(s: Sched, t: nat)
    requires Inv(s) && t < MAX_TASKS && Outranks(s, t)
    ensures var r := Tick(s);
            Outranks(r, t) ==> r.current == s.current && 2 <= r.pool[r.current].slice + 1 == s.pool[s.current].slice
  {
    hide WakeFrom, Yield, Counted;
    var s0 := s.(ticks := (s.ticks + 1) % 0x1_0000_0000_0000_0000);
    var w := WakeFrom(s0, 0);
    TickEffect(s, t);
    TickEffect(s, s.current);
    ClockKeeps(s, s0.ticks);
    WakeFromKeeps(s0, 0);
    if w.pool[w.current].slice <= 1 {
      SliceKeeps(w, 0);
      YieldEndsOutranking(w.(pool := w.pool[w.current := w.pool[w.current].(slice := 0)]), t);
    }
  }

  lemma SliceKeeps(s: Sched, left: nat)
    requires Inv(s) && s.current >= 0 && left <= TIME_SLICE
    ensures Inv(s.(pool := s.pool[s.current := s.pool[s.current].(slice := left)]))
  {
    hide Placed, Counted;
    var c := s.current;
    InvIsPlaced(s, c);
    PlacedPool(s, c, Runnable(s.pool[c]), s.pool[c].(slice := left));
    InvIsPlaced(s.(pool := s.pool[c := s.pool[c].(slice := left)]), c);
  }

  /** While some task stays queued above the current one, no event renews the current slice,
      every tick uses it up, and a yield ends the wait. */
  lemma StepWhileOutranked(s: Sched, e: Event, t: nat)
    requires Inv(s) && Allowed(s, e) && t < MAX_TASKS && Outranks(s, t)
    ensures var r := Step(s, e);
            Outranks(r, t) ==>
              && r.current == s.current
              && (e.ETick? ==> 2 <= r.pool[r.current].slice + 1 <= s.pool[s.current].slice)
              && r.pool[r.current].slice <= s.pool[s.current].slice
  {
    hide Yield, Leave, Dequeue, Enqueue, Next, WakeFrom, Counted;
    QueuedIsRunnable(s, s.current);
    match e
    case EYield => YieldEndsOutranking(s, t);
    case EBlock => LeaveEndsOutranking(s, t, Blocked, s.pool[s.current].wake);
    case EExit => LeaveEndsOutranking(s, t, Zombie, s.pool[s.current].wake);
    case ESleep(ms) => LeaveEndsOutranking(s, t, Sleeping, Wrap32(s.ticks + SleepTicks(ms)));
    case ETick => TickEndsOutranking(s, t);
    case _ => SliceUntouched(s, e);
  }

  /** The operations that only queue, unqueue or re-queue leave the current slot's slice alone. */
  lemma SliceUntouched(s: Sched, e: Event)
    requires Inv(s) && Allowed(s, e) && s.current >= 0
    requires e.EAdd? || e.ERemove? || e.ESetPriority? || e.EWake? || e.EStart?
    ensures Step(s, e).current == s.current
    ensures Step(s, e).pool[s.current].slice == s.pool[s.current].slice
  {
    hide Counted, Next;
    FreeSlotIsFree(s.pool, 0);
  }

  ghost function Ticks(es: seq<Event>): nat {
    if es == [] then 0 else (if es[0].ETick? then 1 else 0) + Ticks(es[1..])
  }

  /** t is queued above the current task at the start of the run and after each of its events. */
  ghost predicate AlwaysOutranks(s: Sched, es: seq<Event>, t: nat)
    requires Shaped(s) && t < MAX_TASKS
    decreases |es|
  {
    Outranks(s, t) && (es == [] || AlwaysOutranks(Step(s, es[0]), es[1..], t))
  }

  lemma {:induction false} OutrankedTicks(s: Sched, es: seq<Event>, t: nat)
    requires Inv(s) && Lawful(s, es) && t < MAX_TASKS && AlwaysOutranks(s, es, t)
    ensures s.current >= 0 && Ticks(es) <= if s.pool[s.current].slice == 0 then 0 else s.pool[s.current].slice - 1
    decreases |es|
  {
    hide Step, Allowed;
    if es != [] {
      StepWhileOutranked(s, es[0], t);
      StepKeeps(s, es[0]);
      OutrankedTicks(Step(s, es[0]), es[1..], t);
    }
  }

  /** Bounded latency: over any run in which some task stays queued above the current one there
      are fewer ticks than one time slice. By the tenth tick, then, the current task's level has
      reached that task's, or that task has left its queue. */
  lemma LatencyIsBounded(s: Sched, es: seq<Event>, t: nat)
    requires Inv(s) && Lawful(s, es) && t < MAX_TASKS && AlwaysOutranks(s, es, t)
    ensures Ticks(es) < 10
  {
    hide Lawful, AlwaysOutranks, Ticks;
    OutrankedTicks(s, es, t);
  }

  // ---- Sleep ----

  lemma YieldKeepsSleeper(s: Sched, t: nat)
    requires Inv(s) && t < MAX_TASKS
    ensures s.pool[t].state == Sleeping ==> Yield(s).pool[t] == s.pool[t]
    ensures Runnable(s.pool[t]) ==> Runnable(Yield(s).pool[t])
    ensures s.pool[t].state != Sleeping ==> Yield(s).pool[t].state != Sleeping
  {
    hide Yield, Counted;
    YieldEffect(s, t);
    if Switches(s) { NextIsReady(s); }
  }

  lemma LeaveKeepsSleeper(s: Sched, t: nat, state: State, wake: uint32)
    requires Inv(s) && t < MAX_TASKS && s.current >= 0 && Runnable(s.pool[s.current])
    requires state != Ready && state != Running
    ensures var r := Leave(s, state, wake);
            && r.ticks == s.ticks
            && (t != s.current && s.pool[t].state == Sleeping ==> r.pool[t] == s.pool[t])
            && (t == s.current ==> r.pool[t] == s.pool[t].(state := state, wake := wake))
  {
    hide Placed, Counted, Yield;
    UnqueueKeeps(s, state, wake);
    var s1 := Dequeue(Stored(s, state, wake), s.current);
    YieldEffect(s1, t);
    if Switches(s1) { NextIsReady(s1); }
  }

  /** The 32 bits of the clock that wake times are compared with. */
  function Low(s: Sched): uint32 {
    Wrap32(s.ticks)
  }

  lemma LowTick(ticks: uint64)
    ensures Wrap32((ticks + 1) % 0x1_0000_0000_0000_0000) == Wrap32(Wrap32(ticks) + 1)
  {
    var low, high := ticks % TWO_32, ticks / TWO_32;
    if ticks + 1 == 0x1_0000_0000_0000_0000 {
      DivModUnique(low + 1, TWO_32, 1, 0);
    } else if low + 1 == TWO_32 {
      DivModUnique(ticks + 1, TWO_32, high + 1, 0);
    } else {
      DivModUnique(ticks + 1, TWO_32, high, low + 1);
    }
  }

  /** A tick wakes a sleeper whose time has come, and only such a one. */
  lemma TickOnSleeper(s: Sched, t: nat)
    requires Inv(s) && t < MAX_TASKS
    ensures var r, low := Tick(s), Wrap32(Low(s) + 1);
            && r.ticks == (s.ticks + 1) % 0x1_0000_0000_0000_0000 && Low(r) == low
            && (s.pool[t].state == Sleeping && s.pool[t].wake > low ==>
                  r.pool[t].state == Sleeping && r.pool[t].wake == s.pool[t].wake)
            && (s.pool[t].state == Sleeping && s.pool[t].wake <= low ==> Runnable(r.pool[t]))
            && !Expired(r, t)
  {
    hide WakeFrom, Yield, Counted, Wrap32;
    var s0 := s.(ticks := (s.ticks + 1) % 0x1_0000_0000_0000_0000);
    var w := WakeFrom(s0, 0);
    LowTick(s.ticks);
    TickEffect(s, t);
    ClockKeeps(s, s0.ticks);
    WakeFromKeeps(s0, 0);
    if w.current >= 0 {
      var left := if w.pool[w.current].slice > 0 then w.pool[w.current].slice - 1 else 0;
      SliceKeeps(w, left);
      var w1 := w.(pool := w.pool[w.current := w.pool[w.current].(slice := left)]);
      YieldKeepsSleeper(w1, t);
      YieldEffect(w1, t);
    }
  }

  lemma StepOnSleeper(s: Sched, e: Event, t: nat)
    requires Inv(s) && Allowed(s, e) && t < MAX_TASKS && s.pool[t].state == Sleeping
    ensures var r := Step(s, e);
            && Low(r) == (if e.ETick? then Wrap32(Low(s) + 1) else Low(s))
            && if e.ETick? && s.pool[t].wake <= Low(r) then Runnable(r.pool[t])
               else r.pool[t].state == Sleeping && r.pool[t].wake == s.pool[t].wake
  {
    hide Yield, Leave, Dequeue, Enqueue, Next, WakeFrom, Counted, Dispatch, Wrap32;
    if s.current >= 0 { QueuedIsRunnable(s, s.current); }
    match e
    case EYield => YieldKeepsSleeper(s, t); YieldEffect(s, t);
    case EBlock => if s.current >= 0 { LeaveKeepsSleeper(s, t, Blocked, s.pool[s.current].wake); }
    case EExit => if s.current >= 0 { LeaveKeepsSleeper(s, t, Zombie, s.pool[s.current].wake); }
    case ESleep(ms) => if s.current >= 0 { LeaveKeepsSleeper(s, t, Sleeping, Wrap32(s.ticks + SleepTicks(ms))); }
    case ETick => TickOnSleeper(s, t);
    case _ => QuietOnSleeper(s, e, t);
  }

  lemma QuietOnSleeper(s: Sched, e: Event, t: nat)
    requires Inv(s) && Allowed(s, e) && t < MAX_TASKS && s.pool[t].state == Sleeping
    requires e.EAdd? || e.ERemove? || e.ESetPriority? || e.EWake? || e.EStart?
    ensures Step(s, e).ticks == s.ticks
    ensures Step(s, e).pool[t].state == Sleeping && Step(s, e).pool[t].wake == s.pool[t].wake
  {
    hide Counted, Next;
    FreeSlotIsFree(s.pool, 0);
    if e.EStart? && s.current < 0 && Next(s) >= 0 { NextIsReady(s); }
  }

  /** How many ticks wake a sleeper with the given wake time, for the low half of the clock. */
  function Remaining(low: uint32, wake: uint32): (n: nat)
    ensures n > 0
  {
    if low + 1 == TWO_32 then wake + 1 else if wake > low then wake - low else 1
  }

  /** One tick less, or due now. */
  lemma RemainingStep(low: uint32, wake: uint32)
    ensures var next := Wrap32(low + 1);
            && (Remaining(low, wake) == 1 <==> wake <= next)
            && (wake > next ==> Remaining(next, wake) == Remaining(low, wake) - 1)
  {
    if low + 1 == TWO_32 {
      DivModUnique(low + 1, TWO_32, 1, 0);
    }
  }

  /** Whatever else happens, and however the clock wraps, a sleeper stays asleep until as many ticks have
      passed. */
  lemma {:induction false} SleepsUntilDue(s: Sched, es: seq<Event>, t: nat)
    requires Inv(s) && Lawful(s, es) && t < MAX_TASKS && s.pool[t].state == Sleeping
    requires Ticks(es) < Remaining(Low(s), s.pool[t].wake)
    ensures var r := Run(s, es);
            && Inv(r) && r.pool[t].state == Sleeping && r.pool[t].wake == s.pool[t].wake
            && Remaining(Low(r), r.pool[t].wake) == Remaining(Low(s), s.pool[t].wake) - Ticks(es)
    decreases |es|
  {
    hide Step, Allowed, Counted, Low, Remaining, Wrap32;
    if es != [] {
      StepOnSleeper(s, es[0], t);
      StepKeeps(s, es[0]);
      RemainingStep(Low(s), s.pool[t].wake);
      SleepsUntilDue(Step(s, es[0]), es[1..], t);
    }
  }

  /** How many ticks a sleep of d ticks at the given clock really lasts. */
  function Lasts(ticks: uint64, d: nat): nat {
    Remaining(Wrap32(ticks), Wrap32(ticks + d))
  }

  /** As many as asked for, one at least, exactly when the wake tick fits the low half of the clock; but on
      the last tick before that wraps, when any are asked for at all. */
  lemma LastsIff(ticks: uint64, d: nat)
    requires d <= 6000
    ensures Lasts(ticks, d) == Asked(d)
       <==> if Wrap32(ticks) + 1 == TWO_32 then d > 0 else Wrap32(ticks) + d < TWO_32
  {
    var low := Wrap32(ticks);
    if low + d < TWO_32 {
      DivModUnique(ticks + d, TWO_32, ticks / TWO_32, low + d);
    } else {
      DivModUnique(ticks + d, TWO_32, ticks / TWO_32 + 1, low + d - TWO_32);
    }
  }

  /** A sleep of no ticks ends at the next one. */
  function Asked(d: nat): nat {
    if d == 0 then 1 else d
  }

  /** n ticks of 10 ms go into the time asked for, of which at most a minute counts. */
  predicate WholeTicks(ms: uint32, n: nat) {
    var capped := if ms > 60000 then 60000 else ms;
    10 * n <= capped < 10 * n + 10
  }

  lemma SleepTicksIs(ms: uint32, n: nat)
    requires WholeTicks(ms, n)
    ensures SleepTicks(ms) == n <= 6000
  {
  }

  /** A lawful sleep of n ticks, at any clock value: over any lawful run the task is asleep until
      Lasts(T, n) ticks have passed, and the tick that completes them makes it runnable. */
  lemma SleepLasts(s: Sched, ms: uint32, n: nat, es: seq<Event>)
    requires Inv(s) && s.current >= 0 && Runnable(s.pool[s.current]) && ms > 0 && WholeTicks(ms, n)
    requires Lawful(Sleep(s, ms), es) && Ticks(es) < Lasts(s.ticks, n)
    ensures var r := Run(Sleep(s, ms), es);
            && r.pool[s.current].state == Sleeping
            && (Runnable(Tick(r).pool[s.current]) <==> Ticks(es) + 1 == Lasts(s.ticks, n))
            && (Tick(r).pool[s.current].state == Sleeping <==> Ticks(es) + 1 < Lasts(s.ticks, n))
  {
    hide Leave, Tick, Yield, Lawful, Ticks, Run, Counted, SleepTicks, Remaining, Wrap32;
    SleepTicksIs(ms, n);
    var w := Wrap32(s.ticks + n);
    LeaveKeepsSleeper(s, s.current, Sleeping, w);
    LeaveKeeps(s, Sleeping, w);
    SleepsUntilDue(Sleep(s, ms), es, s.current);
    var r := Run(Sleep(s, ms), es);
    TickOnSleeper(r, s.current);
    RemainingStep(Low(r), w);
  }

  /** What the call promises: over any lawful run the task is asleep until as many ticks have passed as
      go into the time asked for, or one if none do, and that tick makes it runnable. */
  ghost predicate LastsAsAsked(s: Sched, ms: uint32, n: nat)
    requires Shaped(s) && s.current >= 0
  {
    forall es :: Lawful(Sleep(s, ms), es) && Ticks(es) < Asked(n) ==> SleptUntil(s, ms, es, Asked(n))
  }

  ghost predicate SleptUntil(s: Sched, ms: uint32, es: seq<Event>, n: nat)
    requires Shaped(s) && s.current >= 0
  {
    var r := Run(Sleep(s, ms), es);
    && r.pool[s.current].state == Sleeping
    && (Runnable(Tick(r).pool[s.current]) <==> Ticks(es) + 1 == n)
  }

  /** wake_time keeps only the low half of the wake tick. The promise is kept exactly when the wake tick
      fits; but on the last tick before the low half wraps, exactly when at least one tick is asked for. */
  lemma SleepLastsAsAsked(s: Sched, ms: uint32, n: nat)
    requires Inv(s) && s.current >= 0 && Runnable(s.pool[s.current]) && ms > 0 && WholeTicks(ms, n)
    ensures LastsAsAsked(s, ms, n) <==> if Low(s) + 1 == TWO_32 then n > 0 else Low(s) + n < TWO_32
  {
    hide Leave, Tick, Yield, Lawful, Ticks, Run, Counted, SleepTicks, Lasts, Sleep;
    LastsIff(s.ticks, n);
    if Lasts(s.ticks, n) == Asked(n) {
      forall es | Lawful(Sleep(s, ms), es) && Ticks(es) < Asked(n) ensures SleptUntil(s, ms, es, Asked(n)) {
        SleepLasts(s, ms, n, es);
      }
    } else {
      NothingHappens(Sleep(s, ms));
      LastsOne(s.ticks, n);
      SleepLasts(s, ms, n, []);
      assert !SleptUntil(s, ms, [], Asked(n));
    }
  }

  lemma NothingHappens(s: Sched)
    requires Shaped(s)
    ensures Run(s, []) == s && Lawful(s, []) && Ticks([]) == 0
  {
    hide Shaped;
  }

  /** A sleep cut short ends at the first tick, and one that overruns does not. */
  lemma LastsOne(ticks: uint64, d: nat)
    requires d <= 6000 && Lasts(ticks, d) != Asked(d)
    ensures Asked(d) > 1 <==> Lasts(ticks, d) == 1
    ensures Lasts(ticks, d) > 0
  {
    LastsIff(ticks, d);
    var low := Wrap32(ticks);
    if low + d >= TWO_32 {
      DivModUnique(ticks + d, TWO_32, ticks / TWO_32 + 1, low + d - TWO_32);
    }
  }

  /** wake_time keeps only 32 bits of the wake tick. The first tick leaves the task asleep exactly when
      more than one tick was asked for and the wake tick fits; except that on the last tick before the
      low half of the clock wraps, it does so unless exactly one was asked for, even if none was. */
  lemma SleepSurvivesFirstTick(s: Sched, ms: uint32, n: nat)
    requires Inv(s) && s.current >= 0 && Runnable(s.pool[s.current]) && ms > 0 && WholeTicks(ms, n)
    ensures Tick(Sleep(s, ms)).pool[s.current].state == Sleeping
       <==> if Low(s) + 1 == TWO_32 then n != 1 else n > 1 && Low(s) + n < TWO_32
  {
    hide Leave, Tick, Yield, Counted, SleepTicks, Wrap32;
    SleepTicksIs(ms, n);
    var w := Wrap32(s.ticks + n);
    LeaveKeepsSleeper(s, s.current, Sleeping, w);
    LeaveKeeps(s, Sleeping, w);
    TickOnSleeper(Sleep(s, ms), s.current);
    WakeAgainstTick(s.ticks, n);
  }

  lemma WakeAgainstTick(ticks: uint64, d: nat)
    requires d <= 6000
    ensures Wrap32(ticks + d) > Wrap32(Wrap32(ticks) + 1)
       <==> if Wrap32(ticks) + 1 == TWO_32 then d != 1 else d > 1 && Wrap32(ticks) + d < TWO_32
  {
    var low := Wrap32(ticks);
    if low + d < TWO_32 {
      DivModUnique(ticks + d, TWO_32, ticks / TWO_32, low + d);
    } else {
      DivModUnique(ticks + d, TWO_32, ticks / TWO_32 + 1, low + d - TWO_32);
    }
    if low + 1 == TWO_32 {
      DivModUnique(low + 1, TWO_32, 1, 0);
    }
  }

  /** After a tick no sleeping task has an expired wake time. */
  lemma NoneExpiredAfterTick(s: Sched, t: nat)
    requires Inv(s) && t < MAX_TASKS
    ensures !Expired(Tick(s), t)
  {
    hide Tick;
    TickOnSleeper(s, t);
  }

  // ---- No rotation among equals ----

  /** A running task heads its queue. */
  ghost predicate HeadRuns(s: Sched)
    requires Shaped(s)
  {
    s.current >= 0 && s.pool[s.current].state == Running ==>
      s.queues[LevelOf(s, s.current)] != [] && s.queues[LevelOf(s, s.current)][0] == s.current
  }

  lemma NextHeadsItsQueue(s: Sched)
    requires Inv(s) && Next(s) >= 0
    ensures s.queues[LevelOf(s, Next(s))] != [] && s.queues[LevelOf(s, Next(s))][0] == Next(s)
  {
    var top := TopBelow(s.queues, LEVELS);
    assert Next(s) in s.queues[top];
  }

  lemma YieldHeadRuns(s: Sched)
    requires Inv(s) && HeadRuns(s)
    ensures HeadRuns(Yield(s))
  {
    hide Next, Yield, Counted;
    YieldKeeps(s);
    YieldEffect(s, 0);
    if Switches(s) {
      YieldPicksHighest(s);
      NextHeadsItsQueue(Yield(s));
    }
  }

  /** Heads stay put while the wake-up loop appends. */
  lemma {:induction false} WakeFromHeads(s: Sched, i: nat, l: nat)
    requires Shaped(s) && i <= MAX_TASKS && l < LEVELS && s.queues[l] != []
    ensures WakeFrom(s, i).queues[l] != [] && WakeFrom(s, i).queues[l][0] == s.queues[l][0]
    decreases MAX_TASKS - i
  {
    if i < MAX_TASKS { WakeFromHeads(WakeOne(s, i), i + 1, l); }
  }

  lemma StepHeadRuns(s: Sched, e: Event)
    requires Inv(s) && Allowed(s, e) && HeadRuns(s)
    ensures HeadRuns(Step(s, e))
  {
    hide Next, Yield, Counted, WakeFrom, Tick, Leave;
    if s.current >= 0 { QueuedIsRunnable(s, s.current); }
    match e
    case EYield => YieldHeadRuns(s);
    case EBlock => if s.current >= 0 { LeaveHeadRuns(s, Blocked, s.pool[s.current].wake); }
    case EExit => if s.current >= 0 { LeaveHeadRuns(s, Zombie, s.pool[s.current].wake); }
    case ESleep(ms) => if s.current >= 0 { LeaveHeadRuns(s, Sleeping, Wrap32(s.ticks + SleepTicks(ms))); }
    case ETick => TickHeadRuns(s);
    case EStart =>
      if s.current < 0 && Next(s) >= 0 { NextHeadsItsQueue(s); }
    case _ => QuietHeadRuns(s, e);
  }

  lemma LeaveHeadRuns(s: Sched, state: State, wake: uint32)
    requires Inv(s) && s.current >= 0 && Runnable(s.pool[s.current]) && state != Ready && state != Running
    ensures HeadRuns(Leave(s, state, wake))
  {
    hide Placed, Counted, Yield;
    UnqueueKeeps(s, state, wake);
    var s1 := Dequeue(Stored(s, state, wake), s.current);
    YieldHeadRuns(s1);
  }

  lemma TickHeadRuns(s: Sched)
    requires Inv(s) && HeadRuns(s)
    ensures HeadRuns(Tick(s))
  {
    hide WakeFrom, Yield, Counted;
    var s0 := s.(ticks := (s.ticks + 1) % 0x1_0000_0000_0000_0000);
    var w := WakeFrom(s0, 0);
    ClockKeeps(s, s0.ticks);
    WakeFromKeeps(s0, 0);
    if s.current >= 0 {
      TickEffect(s, s.current);
      if s.pool[s.current].state == Running {
        WakeFromHeads(s0, 0, LevelOf(s, s.current));
      }
      var left := if w.pool[w.current].slice > 0 then w.pool[w.current].slice - 1 else 0;
      SliceKeeps(w, left);
      WakeNotRunning(s, s.current);
      YieldHeadRuns(w.(pool := w.pool[w.current := w.pool[w.current].(slice := left)]));
    } else {
      TickEffect(s, 0);
    }
  }

  lemma WakeNotRunning(s: Sched, t: nat)
    requires Shaped(s) && t < MAX_TASKS
    ensures var w := WakeFrom(s.(ticks := (s.ticks + 1) % 0x1_0000_0000_0000_0000), 0);
            && (w.pool[t].state == Running <==> s.pool[t].state == Running)
            && LevelOf(w, t) == LevelOf(s, t)
  {
    hide WakeFrom;
    TickEffect(s, t);
  }

  /** Slot c heads its queue. */
  predicate Heads(s: Sched, c: nat)
    requires Shaped(s) && c < MAX_TASKS
  {
    s.queues[LevelOf(s, c)] != [] && s.queues[LevelOf(s, c)][0] == c
  }

  lemma EnqueueKeepsHead(s: Sched, t: nat, c: nat)
    requires Shaped(s) && t < MAX_TASKS && c < MAX_TASKS && Heads(s, c)
    ensures Heads(Enqueue(s, t), c)
  {
    hide Level;
  }

  lemma DequeueKeepsHead(s: Sched, t: nat, c: nat)
    requires Shaped(s) && t < MAX_TASKS && c < MAX_TASKS && Heads(s, c)
    requires t != c && t in s.queues[LevelOf(s, t)]
    ensures Heads(Dequeue(s, t), c)
  {
    hide Level, Without;
    if LevelOf(s, t) == LevelOf(s, c) {
      WithoutHead(s.queues[LevelOf(s, t)], t);
    }
  }

  lemma PoolKeepsHead(s: Sched, t: nat, task: Task, c: nat)
    requires Shaped(s) && t < MAX_TASKS && c < MAX_TASKS && Heads(s, c) && t != c
    ensures Heads(s.(pool := s.pool[t := task]), c)
  {
    hide Level;
  }

  lemma QuietHeadRuns(s: Sched, e: Event)
    requires Inv(s) && Allowed(s, e) && HeadRuns(s)
    requires e.EAdd? || e.ERemove? || e.ESetPriority? || e.EWake?
    ensures HeadRuns(Step(s, e))
  {
    hide Counted, Enqueue, Dequeue, Heads, Level;
    QuietShaped(s);
    if s.current >= 0 && s.pool[s.current].state == Running {
      RunningHeads(s);
      match e
      case EAdd(handle, priority) => AddKeepsHead(s, handle, priority);
      case ERemove(handle) => RemoveKeepsHead(s, handle);
      case ESetPriority(handle, priority) => SetPriorityKeepsHead(s, handle, priority);
      case EWake(handle) => WakeKeepsHead(s, handle);
    }
    QuietState(s, e);
  }

  lemma QuietShaped(s: Sched)
    requires Inv(s)
    ensures Shaped(s)
  {
  }

  lemma RunningHeads(s: Sched)
    requires Shaped(s) && s.current >= 0
    ensures HeadRuns(s) <==> (s.pool[s.current].state == Running ==> Heads(s, s.current))
  {
    hide Level;
  }

  /** Whether the current task runs, and which it is, is not changed by the operations on other tasks. */
  lemma QuietState(s: Sched, e: Event)
    requires Inv(s) && Allowed(s, e)
    requires e.EAdd? || e.ERemove? || e.ESetPriority? || e.EWake?
    ensures Step(s, e).current == s.current
    ensures s.current >= 0 && s.pool[s.current].state != Running ==> Step(s, e).pool[s.current].state != Running
    ensures s.current >= 0 && s.pool[s.current].state == Running && Heads(Step(s, e), s.current) ==>
              HeadRuns(Step(s, e))
  {
    hide Counted, Level;
    FreeSlotIsFree(s.pool, 0);
  }

  lemma AddKeepsHead(s: Sched, handle: nat, priority: nat)
    requires Inv(s) && s.current >= 0 && s.pool[s.current].state == Running && Heads(s, s.current)
    ensures Heads(Add(s, handle, priority), s.current)
  {
    hide Counted, Heads, Enqueue, Level;
    var t := FreeSlot(s.pool, 0);
    FreeSlotIsFree(s.pool, 0);
    if handle != 0 && t >= 0 {
      var task := Task(handle, priority, Ready, TIME_SLICE, 0);
      PoolKeepsHead(s, t, task, s.current);
      EnqueueKeepsHead(s.(pool := s.pool[t := task]), t, s.current);
    }
  }

  lemma RemoveKeepsHead(s: Sched, handle: nat)
    requires Inv(s) && Allowed(s, ERemove(handle))
    requires s.current >= 0 && s.pool[s.current].state == Running && Heads(s, s.current)
    ensures Heads(Remove(s, handle), s.current)
  {
    hide Counted, Heads, Dequeue, Level;
    var t := Lookup(s, handle);
    if t >= 0 {
      ReadyIsQueued(s, t);
      DequeueKeepsHead(s, t, s.current);
      var d := Dequeue(s, t);
      PoolKeepsHead(d, t, d.pool[t].(handle := 0, state := Terminated), s.current);
    }
  }

  lemma ReadyIsQueued(s: Sched, t: nat)
    requires Inv(s) && t < MAX_TASKS && s.pool[t].state == Ready
    ensures t in s.queues[LevelOf(s, t)]
  {
    QueuedIsRunnable(s, t);
  }

  lemma SetPriorityKeepsHead(s: Sched, handle: nat, priority: nat)
    requires Inv(s) && Allowed(s, ESetPriority(handle, priority))
    requires s.current >= 0 && s.pool[s.current].state == Running && Heads(s, s.current)
    ensures Heads(SetPriority(s, handle, priority), s.current)
  {
    hide Counted, Heads, Dequeue, Enqueue, Level;
    var t := Lookup(s, handle);
    if t >= 0 && s.pool[t].state == Ready {
      ReadyIsQueued(s, t);
      DequeueKeepsHead(s, t, s.current);
      var d := Dequeue(s, t);
      var task := d.pool[t].(priority := priority);
      PoolKeepsHead(d, t, task, s.current);
      EnqueueKeepsHead(d.(pool := d.pool[t := task]), t, s.current);
    } else if t >= 0 {
      PoolKeepsHead(s, t, s.pool[t].(priority := priority), s.current);
    }
  }

  lemma WakeKeepsHead(s: Sched, handle: nat)
    requires Inv(s) && s.current >= 0 && s.pool[s.current].state == Running && Heads(s, s.current)
    ensures Heads(Wake(s, handle), s.current)
  {
    hide Counted, Heads, Enqueue, Level;
    var t := Lookup(s, handle);
    if t >= 0 && s.pool[t].state == Blocked {
      PoolKeepsHead(s, t, s.pool[t].(state := Ready), s.current);
      EnqueueKeepsHead(WithState(s, t, Ready), t, s.current);
    }
  }

  function CurrentLevel(s: Sched): (l: int)
    requires Shaped(s)
  {
    if s.current < 0 then -1 else LevelOf(s, s.current)
  }

  /** The header calls the scheduler round-robin within a priority. It is not: from any reachable
      state with a running task, the CPU passes to another task only when the running task gives
      it up by blocking, sleeping or exiting, or to a strictly higher level. No time slice ever
      hands it to a task of equal priority. */
  lemma OnlyHigherPreempts(s: Sched, e: Event)
    requires Inv(s) && Allowed(s, e) && HeadRuns(s)
    requires s.current >= 0 && s.pool[s.current].state == Running
    requires e.EBlock? || e.EExit? || e.ESleep? || Step(s, e).current != s.current
    ensures e.EBlock? || e.EExit? || e.ESleep? || CurrentLevel(Step(s, e)) > CurrentLevel(s)
  {
    hide Next, Yield, Counted, WakeFrom, Tick, Leave;
    match e
    case EYield => YieldEffect(s, s.current); YieldGoesUp(s);
    case ETick => TickGoesUp(s);
    case EBlock =>
    case EExit =>
    case ESleep(_) =>
    case _ => SliceUntouched(s, e);
  }

  lemma YieldGoesUp(s: Sched)
    requires Inv(s) && HeadRuns(s) && s.current >= 0 && s.pool[s.current].state == Running && Switches(s)
    ensures CurrentLevel(Yield(s)) > CurrentLevel(s)
  {
    hide Next, Yield, Counted;
    NextOutranks(s, s.current);
    NextHeadsItsQueue(s);
    YieldEffect(s, Next(s));
  }

  lemma TickGoesUp(s: Sched)
    requires Inv(s) && HeadRuns(s) && s.current >= 0 && s.pool[s.current].state == Running
    requires Tick(s).current != s.current
    ensures CurrentLevel(Tick(s)) > CurrentLevel(s)
  {
    hide WakeFrom, Yield, Counted;
    var s0 := s.(ticks := (s.ticks + 1) % 0x1_0000_0000_0000_0000);
    var w := WakeFrom(s0, 0);
    ClockKeeps(s, s0.ticks);
    WakeFromKeeps(s0, 0);
    TickEffect(s, s.current);
    WakeFromHeads(s0, 0, LevelOf(s, s.current));
    var w1 := w.(pool := w.pool[w.current := w.pool[w.current].(slice := 0)]);
    SliceKeeps(w, 0);
    YieldEffect(w1, w1.current);
    YieldGoesUp(w1);
  }

  lemma {:induction false} RunHeadRuns(s: Sched, es: seq<Event>)
    requires Inv(s) && HeadRuns(s) && Lawful(s, es)
    ensures HeadRuns(Run(s, es))
    decreases |es|
  {
    hide Step, Allowed, Counted;
    if es != [] {
      StepHeadRuns(s, es[0]);
      StepKeeps(s, es[0]);
      RunHeadRuns(Step(s, es[0]), es[1..]);
    }
  }

  ghost function TickTimes(s: Sched, n: nat): (r: Sched)
    requires Shaped(s)
    ensures Shaped(r)
  {
    if n == 0 then s else Tick(TickTimes(s, n - 1))
  }

  /** The current task heads its queue, running or only ready, and nothing asleep or queued outranks it. */
  ghost predicate NothingHigher(s: Sched)
    requires Shaped(s)
  {
    && s.current >= 0 && Runnable(s.pool[s.current]) && Heads(s, s.current)
    && forall t: nat :: t < MAX_TASKS && (s.pool[t].state == Ready || s.pool[t].state == Sleeping) ==>
         LevelOf(s, t) <= LevelOf(s, s.current)
  }

  lemma HeadIsNext(s: Sched)
    requires Inv(s) && NothingHigher(s)
    ensures Next(s) == s.current && Yield(s) == s
  {
    hide Next, Counted;
    NextOutranks(s, s.current);
    NextHeadsItsQueue(s);
    YieldEffect(s, s.current);
  }

  lemma TickKeepsNothingHigher(s: Sched)
    requires Inv(s) && NothingHigher(s)
    ensures Tick(s).current == s.current && NothingHigher(Tick(s))
    ensures Tick(s).pool[s.current].state == s.pool[s.current].state
  {
    hide WakeFrom, Yield, Counted, Next;
    var s0 := s.(ticks := (s.ticks + 1) % 0x1_0000_0000_0000_0000);
    var w := WakeFrom(s0, 0);
    ClockKeeps(s, s0.ticks);
    WakeFromKeeps(s0, 0);
    TickEffect(s, s.current);
    WakeFromHeads(s0, 0, LevelOf(s, s.current));
    var left := if w.pool[w.current].slice > 0 then w.pool[w.current].slice - 1 else 0;
    SliceKeeps(w, left);
    var w1 := w.(pool := w.pool[w.current := w.pool[w.current].(slice := left)]);
    forall t: nat | t < MAX_TASKS && (w1.pool[t].state == Ready || w1.pool[t].state == Sleeping)
      ensures LevelOf(w1, t) <= LevelOf(w1, w1.current)
    {
      TickEffect(s, t);
    }
    HeadIsNext(w1);
  }

  /** However many ticks pass, tasks of the current task's own level never get the CPU. One that is only
      ready stays so: then no task runs at all. */
  lemma {:induction false} EqualsNeverRun(s: Sched, n: nat)
    requires Inv(s) && NothingHigher(s)
    ensures var r := TickTimes(s, n);
            && Inv(r) && NothingHigher(r) && r.current == s.current
            && r.pool[r.current].state == s.pool[s.current].state
    decreases n
  {
    hide Tick, Counted, NothingHigher;
    if n > 0 {
      EqualsNeverRun(s, n - 1);
      var r := TickTimes(s, n - 1);
      TickKeeps(r);
      TickKeepsNothingHigher(r);
    }
  }

  // ---- Callers' obligations, exactly ----

  /** Removing a task keeps the invariant exactly when the task is queued and not current, or is
      unknown. Removing one that is blocked, asleep or a zombie drops its whole level's queue; the
      exception is a level that is empty while the ready count is already 0. */
  lemma RemoveKeepsIff(s: Sched, handle: nat)
    requires Inv(s)
    ensures var t := Lookup(s, handle);
            Inv(Remove(s, handle)) <==>
              || t < 0
              || (t != s.current && (s.pool[t].state == Ready || (s.queues[LevelOf(s, t)] == [] && s.ready == 0)))
  {
    hide Placed, Next;
    var t := Lookup(s, handle);
    if t >= 0 && t != s.current {
      if s.pool[t].state == Ready {
        RemoveKeeps(s, handle);
      } else if s.queues[LevelOf(s, t)] != [] {
        UnqueuedRemoveDrops(s, handle, t, s.queues[LevelOf(s, t)][0]);
      } else {
        EmptyLevelRemove(s, handle, t);
      }
    }
  }

  lemma UnqueuedRemoveDrops(s: Sched, handle: nat, t: nat, u: nat)
    requires Inv(s) && t == Lookup(s, handle) && !Runnable(s.pool[t]) && u in s.queues[LevelOf(s, t)]
    ensures !Inv(Remove(s, handle))
  {
    var l, r := LevelOf(s, t), Remove(s, handle);
    assert t !in s.queues[l] && r.queues[l] == [];
    assert Runnable(r.pool[u]) && LevelOf(r, u) == l;
  }

  lemma EmptyLevelRemove(s: Sched, handle: nat, t: nat)
    requires Inv(s) && t == Lookup(s, handle) && t != s.current
    requires s.pool[t].state != Ready && s.queues[LevelOf(s, t)] == []
    ensures Inv(Remove(s, handle)) <==> s.ready == 0
  {
    var r := Remove(s, handle);
    assert r.queues == s.queues;
    InvIsPlaced(s, t);
    if s.ready == 0 {
      PlacedPool(s, t, false, s.pool[t].(handle := 0, state := Terminated));
      InvIsPlaced(r, t);
    }
  }

  /** Changing a priority keeps the invariant exactly when the task is not running, or stays on
      its level: a running task is on a queue, and the code does not move it. */
  lemma SetPriorityKeepsIff(s: Sched, handle: nat, priority: nat)
    requires Inv(s)
    ensures var t := Lookup(s, handle);
            Inv(SetPriority(s, handle, priority)) <==>
              t < 0 || s.pool[t].state != Running || Level(priority) == LevelOf(s, t)
  {
    hide Counted;
    var t := Lookup(s, handle);
    if t >= 0 {
      var r := SetPriority(s, handle, priority);
      if s.pool[t].state != Running {
        SetPriorityKeeps(s, handle, priority);
      } else if Level(priority) == LevelOf(s, t) {
        assert forall u: nat :: u < MAX_TASKS ==> LevelOf(r, u) == LevelOf(s, u) && r.pool[u].state == s.pool[u].state;
        CountedSame(s, r);
      } else {
        assert t in r.queues[LevelOf(s, t)];
      }
    }
  }
}
