/** Runs from the scheduler's initial state that reach each of the ways it falls short. */
module SchedulingRuns {
  import opened Bits
  import opened Scheduling
  import opened SchedulingLaws
  import opened SchedulingPromises
  import opened SchedulingEffects

  lemma RunOne(s: Sched, e: Event, es: seq<Event>)
    requires Shaped(s)
    ensures Run(s, [e] + es) == Run(Step(s, e), es)
    ensures (Lawful(s, [e] + es) <==> Allowed(s, e) && Lawful(Step(s, e), es))
    ensures es == [] ==> Run(Step(s, e), es) == Step(s, e) && Lawful(Step(s, e), es)
  {
    hide Step, Allowed;
    assert ([e] + es)[1..] == es;
  }

  /** Two tasks of one priority, added and started. */
  function TwoTasks(a: nat, b: nat, priority: nat): seq<Event> {
    [EAdd(a, priority), EAdd(b, priority), EStart]
  }

  /** The state they reach: the first runs, the second is queued behind it. */
  ghost predicate Started(s: Sched, a: nat, b: nat, priority: nat) {
    && Inv(s) && HeadRuns(s) && s.current == 0 && s.ticks == 0 && s.ready == 2
    && s.queues == Initial().queues[Level(priority) := [0, 1]]
    && s.pool == Initial().pool[0 := Task(a, priority, Running, TIME_SLICE, 0)]
                               [1 := Task(b, priority, Ready, TIME_SLICE, 0)]
  }

  lemma FirstSlots(a: nat, priority: nat)
    requires a != 0
    ensures FreeSlot(Initial().pool, 0) == 0
    ensures FreeSlot(Initial().pool[0 := Task(a, priority, Ready, TIME_SLICE, 0)], 0) == 1
  {
    hide Inv;
    var p := Initial().pool[0 := Task(a, priority, Ready, TIME_SLICE, 0)];
    assert FreeSlot(p, 1) == 1;
  }

  lemma OneQueue(l: nat, q: seq<nat>)
    requires l < LEVELS && q != []
    ensures TopBelow(Initial().queues[l := q], LEVELS) == l
  {
    hide Inv;
    TopIs(Initial().queues[l := q], l, LEVELS);
  }

  lemma {:induction false} TopIs(queues: seq<seq<nat>>, l: nat, m: nat)
    requires l < m <= |queues| && queues[l] != [] && forall k :: l < k < |queues| ==> queues[k] == []
    ensures TopBelow(queues, m) == l
    decreases m
  {
    if l + 1 < m { TopIs(queues, l, m - 1); }
  }

  lemma AddFirst(a: nat, priority: nat)
    requires a != 0
    ensures var s := Add(Initial(), a, priority);
            && s.current == -1 && s.ticks == 0 && s.ready == 1
            && s.queues == Initial().queues[Level(priority) := [0]]
            && s.pool == Initial().pool[0 := Task(a, priority, Ready, TIME_SLICE, 0)]
  {
    hide Inv, Level;
    FirstSlots(a, priority);
    assert [] + [0] == [0];
    assert Initial().queues[Level(priority)] == [];
  }

  lemma AddSecond(a: nat, b: nat, priority: nat)
    requires a != 0 && b != 0
    ensures var s := Add(Add(Initial(), a, priority), b, priority);
            && s.current == -1 && s.ticks == 0 && s.ready == 2
            && s.queues == Initial().queues[Level(priority) := [0, 1]]
            && s.pool == Initial().pool[0 := Task(a, priority, Ready, TIME_SLICE, 0)]
                                       [1 := Task(b, priority, Ready, TIME_SLICE, 0)]
  {
    hide Inv, Level;
    AddFirst(a, priority);
    FirstSlots(a, priority);
    assert [0] + [1] == [0, 1];
    var l := Level(priority);
    assert Initial().queues[l := [0]][l := [0, 1]] == Initial().queues[l := [0, 1]];
  }

  lemma TwoTasksStart(a: nat, b: nat, priority: nat)
    requires a != 0 && b != 0
    ensures var es := TwoTasks(a, b, priority);
            Lawful(Initial(), es) && Started(Run(Initial(), es), a, b, priority)
  {
    hide Inv, Lawful, Run, Level, TopBelow, FreeSlot;
    var i := Initial();
    var s1 := Add(i, a, priority);
    var s2 := Add(s1, b, priority);
    var s3 := Start(s2);
    FirstSlots(a, priority);
    OneQueue(Level(priority), [0, 1]);
    AddFirst(a, priority);
    AddSecond(a, b, priority);
    RunOne(i, EAdd(a, priority), [EAdd(b, priority), EStart]);
    RunOne(s1, EAdd(b, priority), [EStart]);
    RunOne(s2, EStart, []);
    assert [EAdd(a, priority)] + [EAdd(b, priority), EStart] == TwoTasks(a, b, priority);
    assert [EAdd(b, priority)] + [EStart] == [EAdd(b, priority), EStart];
    assert [EStart] + [] == [EStart];
    RunKeeps(i, TwoTasks(a, b, priority));
    InitialHeadRuns();
    RunHeadRuns(i, TwoTasks(a, b, priority));
  }

  lemma InitialHeadRuns()
    ensures HeadRuns(Initial())
  {
    hide Inv;
  }

  lemma NothingHigherThanFirst(s: Sched, a: nat, b: nat, priority: nat)
    requires Started(s, a, b, priority)
    ensures NothingHigher(s) && s.pool[1].state == Ready && LevelOf(s, 1) == LevelOf(s, 0)
  {
    hide Inv, HeadRuns, Level;
    assert Initial().pool == seq(MAX_TASKS, _ => Task(0, 0, Terminated, 0, 0));
  }

  /** Of two tasks of equal priority the second never runs, however many time slices the first uses. */
  lemma SecondNeverRuns(a: nat, b: nat, priority: nat, n: nat)
    requires a != 0 && b != 0
    ensures var s := Run(Initial(), TwoTasks(a, b, priority));
            && Lawful(Initial(), TwoTasks(a, b, priority))
            && s.pool[1].state == Ready && LevelOf(s, 1) == LevelOf(s, 0)
            && s.current == 0 && TickTimes(s, n).current == 0
  {
    hide Inv, HeadRuns, Run, Lawful, TickTimes;
    var s := Run(Initial(), TwoTasks(a, b, priority));
    TwoTasksStart(a, b, priority);
    NothingHigherThanFirst(s, a, b, priority);
    EqualsNeverRun(s, n);
  }

  // ---- A full slice ----

  /** A task is started, and another added above it. */
  function Outranked(a: nat, priority: nat, b: nat, higher: nat): seq<Event> {
    [EAdd(a, priority), EStart, EAdd(b, higher)]
  }

  /** The first keeps the CPU for nine ticks and loses it at the tenth. */
  lemma TakesTenTicks(a: nat, priority: nat, b: nat, higher: nat, n: nat)
    requires a != 0 && b != 0 && priority < higher < 8 && n < 10
    ensures var s := Run(Initial(), Outranked(a, priority, b, higher));
            && Lawful(Initial(), Outranked(a, priority, b, higher))
            && s.current == 0 && TickTimes(s, n).current == 0 && TickTimes(s, 10).current != 0
  {
    hide Inv, Run, Lawful, TickTimes, Add, Start, Level;
    var i, es := Initial(), Outranked(a, priority, b, higher);
    var s1 := Add(i, a, priority);
    var s2 := Start(s1);
    AddFirst(a, priority);
    AloneStarts(a, priority);
    RunOne(i, EAdd(a, priority), [EStart, EAdd(b, higher)]);
    RunOne(s1, EStart, [EAdd(b, higher)]);
    RunOne(s2, EAdd(b, higher), []);
    assert [EAdd(a, priority)] + [EStart, EAdd(b, higher)] == es;
    assert [EStart] + [EAdd(b, higher)] == [EStart, EAdd(b, higher)];
    assert [EAdd(b, higher)] + [] == [EAdd(b, higher)];
    AloneMayBlock(i, s2, a, priority);
    RunKeeps(i, es);
    HigherJoins(s2, a, priority, b, higher);
    var s := Run(i, es);
    OutrankedLosesAtEnd(s, 1, n);
    OutrankedLosesAtEnd(s, 1, 10);
  }

  lemma HigherJoins(s: Sched, a: nat, priority: nat, b: nat, higher: nat)
    requires a != 0 && b != 0 && priority < higher < 8 && Alone(s, a, priority, Running, [0])
    ensures var r := Add(s, b, higher);
            r.current == 0 && r.pool[0].slice == 10 && Outranks(r, 1)
  {
    hide Inv;
    OtherSlot(a, priority);
  }

  lemma OtherSlot(a: nat, priority: nat)
    requires a != 0
    ensures FreeSlot(Initial().pool[0 := Task(a, priority, Running, TIME_SLICE, 0)], 0) == 1
  {
    hide Inv;
    var p := Initial().pool[0 := Task(a, priority, Running, TIME_SLICE, 0)];
    assert FreeSlot(p, 1) == 1;
  }

  // ---- A task that is woken while it is current ----

  /** A task is started, blocks with nothing else to run, and is woken; another of its priority is added. */
  function WokenAlone(a: nat, b: nat, priority: nat): seq<Event> {
    [EAdd(a, priority), EStart, EBlock, EWake(a), EAdd(b, priority)]
  }

  /** With its task alone in the pool, in the given state and on the queue or off it. */
  ghost predicate Alone(s: Sched, a: nat, priority: nat, state: State, queue: seq<nat>) {
    && Shaped(s) && s.current == 0 && s.ready == |queue| && s.ticks == 0
    && s.queues == Initial().queues[Level(priority) := queue]
    && s.pool == Initial().pool[0 := Task(a, priority, state, TIME_SLICE, 0)]
  }

  lemma AloneStarts(a: nat, priority: nat)
    requires a != 0
    ensures Alone(Start(Add(Initial(), a, priority)), a, priority, Running, [0])
  {
    hide Inv, Level, TopBelow, FreeSlot;
    AddFirst(a, priority);
    OneQueue(Level(priority), [0]);
  }

  lemma AloneBlocks(s: Sched, a: nat, priority: nat)
    requires Alone(s, a, priority, Running, [0])
    ensures Alone(Block(s), a, priority, Blocked, [])
  {
    hide Inv, Level, TopBelow;
    var l := Level(priority);
    assert Without([0], 0) == [];
    assert s.queues[l := []] == Initial().queues[l := []];
    AllEmpty(s.queues[l := []]);
  }

  lemma AllEmpty(queues: seq<seq<nat>>)
    requires |queues| == LEVELS && forall l :: 0 <= l < LEVELS ==> queues[l] == []
    ensures TopBelow(queues, LEVELS) == -1
  {
    NoTop(queues, LEVELS);
  }

  lemma {:induction false} NoTop(queues: seq<seq<nat>>, m: nat)
    requires m <= |queues| && forall l :: 0 <= l < m ==> queues[l] == []
    ensures TopBelow(queues, m) == -1
  {
    if m > 0 { NoTop(queues, m - 1); }
  }

  lemma AloneWakes(s: Sched, a: nat, priority: nat)
    requires a != 0 && Alone(s, a, priority, Blocked, [])
    ensures Alone(Wake(s, a), a, priority, Ready, [0])
  {
    hide Inv, Level;
    assert Lookup(s, a) == 0;
    assert [] + [0] == [0];
  }

  /** The second task is queued behind the first, which is current and only ready. */
  lemma AloneIsJoined(s: Sched, a: nat, b: nat, priority: nat)
    requires a != 0 && b != 0 && Alone(s, a, priority, Ready, [0])
    ensures var r := Add(s, b, priority);
            && r.current == 0
            && r.queues == Initial().queues[Level(priority) := [0, 1]]
            && r.pool == Initial().pool[0 := Task(a, priority, Ready, TIME_SLICE, 0)]
                                       [1 := Task(b, priority, Ready, TIME_SLICE, 0)]
  {
    hide Inv, Level;
    FirstSlots(a, priority);
    assert [0] + [1] == [0, 1];
    var l := Level(priority);
    assert Initial().queues[l := [0]][l := [0, 1]] == Initial().queues[l := [0, 1]];
  }

  lemma WokenAloneRuns(a: nat, b: nat, priority: nat)
    requires a != 0 && b != 0
    ensures var es, i := WokenAlone(a, b, priority), Initial();
            var s := Start(Add(i, a, priority));
            && Run(i, es) == Add(Wake(Block(s), a), b, priority)
            && (Lawful(i, es) <==> Allowed(Add(i, a, priority), EStart) && Allowed(s, EBlock))
  {
    hide Inv, Lawful, Run, Add, Start, Block, Wake;
    var s1 := Add(Initial(), a, priority);
    var s2 := Start(s1);
    var s3 := Block(s2);
    var s4 := Wake(s3, a);
    RunOne(Initial(), EAdd(a, priority), [EStart, EBlock, EWake(a), EAdd(b, priority)]);
    RunOne(s1, EStart, [EBlock, EWake(a), EAdd(b, priority)]);
    RunOne(s2, EBlock, [EWake(a), EAdd(b, priority)]);
    RunOne(s3, EWake(a), [EAdd(b, priority)]);
    RunOne(s4, EAdd(b, priority), []);
    assert [EAdd(a, priority)] + [EStart, EBlock, EWake(a), EAdd(b, priority)] == WokenAlone(a, b, priority);
    assert [EStart] + [EBlock, EWake(a), EAdd(b, priority)] == [EStart, EBlock, EWake(a), EAdd(b, priority)];
    assert [EBlock] + [EWake(a), EAdd(b, priority)] == [EBlock, EWake(a), EAdd(b, priority)];
    assert [EWake(a)] + [EAdd(b, priority)] == [EWake(a), EAdd(b, priority)];
    assert [EAdd(b, priority)] + [] == [EAdd(b, priority)];
  }

  /** Both tasks are ready, and however many ticks pass neither ever runs. */
  lemma NobodyRuns(a: nat, b: nat, priority: nat, n: nat)
    requires a != 0 && b != 0
    ensures var s := Run(Initial(), WokenAlone(a, b, priority));
            && Lawful(Initial(), WokenAlone(a, b, priority))
            && s.pool[0].state == s.pool[1].state == Ready && LevelOf(s, 1) == LevelOf(s, 0)
            && TickTimes(s, n).current == 0 && TickTimes(s, n).pool[0].state == Ready
            && forall t: nat :: t < MAX_TASKS ==> TickTimes(s, n).pool[t].state != Running
  {
    hide Inv, Run, Lawful, TickTimes, Add, Start, Block, Wake, Level;
    var es, i := WokenAlone(a, b, priority), Initial();
    var s2 := Start(Add(i, a, priority));
    WokenAloneRuns(a, b, priority);
    AddFirst(a, priority);
    AloneStarts(a, priority);
    AloneBlocks(s2, a, priority);
    AloneWakes(Block(s2), a, priority);
    AloneIsJoined(Wake(Block(s2), a), a, b, priority);
    AloneMayBlock(i, s2, a, priority);
    RunKeeps(i, es);
    var s := Run(i, es);
    JoinedStays(s, a, b, priority);
    EqualsNeverRun(s, n);
    OnlyCurrentRuns(TickTimes(s, n));
  }

  lemma AloneMayBlock(i: Sched, s: Sched, a: nat, priority: nat)
    requires i == Initial() && s == Start(Add(i, a, priority)) && Alone(s, a, priority, Running, [0])
    ensures Allowed(Add(i, a, priority), EStart) && Allowed(s, EBlock) && Inv(i)
  {
  }

  lemma JoinedStays(s: Sched, a: nat, b: nat, priority: nat)
    requires Shaped(s) && s.current == 0 && s.queues == Initial().queues[Level(priority) := [0, 1]]
    requires s.pool == Initial().pool[0 := Task(a, priority, Ready, TIME_SLICE, 0)]
                                     [1 := Task(b, priority, Ready, TIME_SLICE, 0)]
    ensures NothingHigher(s) && LevelOf(s, 1) == LevelOf(s, 0)
  {
    hide Inv, Level;
  }

  lemma OnlyCurrentRuns(s: Sched)
    requires Inv(s) && s.current >= 0 && s.pool[s.current].state != Running
    ensures forall t: nat :: t < MAX_TASKS ==> s.pool[t].state != Running
  {
    hide Counted;
  }

  // ---- A sleep cut short ----

  lemma {:induction false} TicksPass(s: Sched, n: nat)
    requires Inv(s) && NothingHigher(s) && s.ticks + n < 0x1_0000_0000_0000_0000
    ensures var r := TickTimes(s, n);
            Inv(r) && r.ticks == s.ticks + n && r.current == s.current && NothingHigher(r)
    decreases n
  {
    hide Tick, Counted;
    EqualsNeverRun(s, n);
    if n > 0 {
      TicksPass(s, n - 1);
      EqualsNeverRun(s, n - 1);
      TickOnSleeper(TickTimes(s, n - 1), 0);
    }
  }

  /** Two ticks short of 2^32, a task that asks to sleep 20 ms, two ticks, is awake after one. */
  lemma SleepIsCutShort(a: nat, b: nat, priority: nat)
    requires a != 0 && b != 0
    ensures var s := TickTimes(Run(Initial(), TwoTasks(a, b, priority)), TWO_32 - 2);
            && Inv(s) && Allowed(s, ESleep(20)) && s.current == 0 && s.ticks == TWO_32 - 2
            && WholeTicks(20, 2) && Tick(Sleep(s, 20)).pool[0].state != Sleeping
  {
    hide HeadRuns, Run, Lawful, TickTimes, Tick, Sleep, Inv;
    var s0 := Run(Initial(), TwoTasks(a, b, priority));
    TwoTasksStart(a, b, priority);
    NothingHigherThanFirst(s0, a, b, priority);
    TicksPass(s0, TWO_32 - 2);
    var s := TickTimes(s0, TWO_32 - 2);
    QuietShaped(s);
    QueuedIsRunnable(s, 0);
    SleepSurvivesFirstTick(s, 20, 2);
  }

  /** One tick short of 2^32, a task that asks to sleep less than a tick sleeps 2^32 of them. */
  lemma SleepOverruns(a: nat, b: nat, priority: nat)
    requires a != 0 && b != 0
    ensures var s := TickTimes(Run(Initial(), TwoTasks(a, b, priority)), TWO_32 - 1);
            && Inv(s) && Allowed(s, ESleep(5)) && s.current == 0 && s.ticks == TWO_32 - 1
            && WholeTicks(5, 0) && Lasts(s.ticks, 0) == TWO_32
  {
    hide HeadRuns, Run, Lawful, TickTimes, Tick, Sleep, Inv;
    var s0 := Run(Initial(), TwoTasks(a, b, priority));
    TwoTasksStart(a, b, priority);
    NothingHigherThanFirst(s0, a, b, priority);
    TicksPass(s0, TWO_32 - 1);
    var s := TickTimes(s0, TWO_32 - 1);
    QuietShaped(s);
    QueuedIsRunnable(s, 0);
  }

  // ---- A queue dropped ----

  /** The first of two tasks blocks, the second runs; removing the blocked one takes the running one off
      its queue. */
  lemma RemovalDropsRunningTask(a: nat, b: nat, priority: nat)
    requires a != 0 && b != 0
    ensures var es := TwoTasks(a, b, priority) + [EBlock];
            var s := Run(Initial(), es);
            var r := Remove(s, a);
            && Lawful(Initial(), es) && Inv(s)
            && s.current == 1 && s.pool[1].state == Running && s.queues[LevelOf(s, 1)] == [1]
            && r.current == 1 && r.pool[1].state == Running && r.queues[LevelOf(r, 1)] == [] && !Inv(r)
  {
    hide Inv, HeadRuns, Run, Lawful, TickTimes;
    var es, i := TwoTasks(a, b, priority), Initial();
    var s0 := Run(i, es);
    TwoTasksStart(a, b, priority);
    RunMore(i, es, EBlock);
    FirstBlocks(s0, a, b, priority);
    var s := Block(s0);
    BlockedIsFound(s, a, b, priority);
    RemoveKeepsIff(s, a);
  }

  lemma {:induction false} RunMore(s: Sched, es: seq<Event>, e: Event)
    requires Shaped(s)
    ensures Run(s, es + [e]) == Step(Run(s, es), e)
    ensures Lawful(s, es + [e]) <==> Lawful(s, es) && Allowed(Run(s, es), e)
    decreases |es|
  {
    hide Step, Allowed;
    if es == [] {
      RunOne(s, e, []);
      assert [] + [e] == [e] + [];
    } else {
      RunMore(Step(s, es[0]), es[1..], e);
      RunOne(s, es[0], es[1..] + [e]);
      RunOne(s, es[0], es[1..]);
      assert es + [e] == [es[0]] + (es[1..] + [e]) && es == [es[0]] + es[1..];
    }
  }

  lemma FirstBlocks(s: Sched, a: nat, b: nat, priority: nat)
    requires Started(s, a, b, priority)
    ensures Allowed(s, EBlock) && Inv(Block(s))
    ensures var r := Block(s);
            && r.current == 1 && r.queues == Initial().queues[Level(priority) := [1]]
            && r.pool[0] == Task(a, priority, Blocked, TIME_SLICE, 0)
            && r.pool[1] == Task(b, priority, Running, TIME_SLICE, 0)
            && r.ready == 1
  {
    hide Inv, HeadRuns, Leave, Level, Next;
    QuietShaped(s);
    QueuedIsRunnable(s, 0);
    LeaveEffect(s, Blocked, s.pool[0].wake, 0);
    LeaveEffect(s, Blocked, s.pool[0].wake, 1);
    LeaveKeeps(s, Blocked, s.pool[0].wake);
    assert Without([0, 1], 0) == [1];
    HeadOfOne(Block(s), Level(priority));
  }

  lemma HeadOfOne(r: Sched, l: nat)
    requires Shaped(r) && l < LEVELS && r.queues == Initial().queues[l := [1]]
    ensures Next(r) == 1 && r.queues[l] != []
  {
    hide Inv;
    OneQueue(l, [1]);
  }

  lemma BlockedIsFound(s: Sched, a: nat, b: nat, priority: nat)
    requires Inv(s) && a != 0 && s.pool[0] == Task(a, priority, Blocked, TIME_SLICE, 0)
    requires s.pool[1] == Task(b, priority, Running, TIME_SLICE, 0)
    requires s.queues == Initial().queues[Level(priority) := [1]] && s.ready == 1
    ensures Lookup(s, a) == 0 && s.queues[LevelOf(s, 1)] == [1] && Remove(s, a).queues[LevelOf(Remove(s, a), 1)] == []
  {
    hide Counted;
  }
}
