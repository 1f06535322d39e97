/** Task switching in the timer interrupt: the register frame on the interrupted stack, the stack
    pointer exchanged through the ring of tasks, and the frame restored from the new stack.

    Memory is counted in 32-bit words, so the word at address 4 * a is mem[a] and sp is esp / 4. */
module ContextSwitch {
  import opened Bits
  import opened TaskRing

  const FRAME: nat := 14
  const STACK_WORDS: nat := 1024
  /** Room an interrupt needs below sp: the frame, the pushed esp and the return address. */
  const HEADROOM: nat := 16

  /** What an interrupted task gets back. */
  datatype Context = Context(eax: uint32, ecx: uint32, edx: uint32, ebx: uint32, ebp: uint32,
                             esi: uint32, edi: uint32, ds: uint16, eip: uint32, cs: uint32, eflags: uint32)

  datatype Cpu = Cpu(ctx: Context, sp: nat, es: uint16, fs: uint16, gs: uint16)

  /** `mov ax, ds; push eax`: the low half is ds, the high half is left from eax. */
  function DsWord(eax: uint32, ds: uint16): (w: uint32)
    ensures w % TWO_16 == ds
  {
    eax / TWO_16 * TWO_16 + ds
  }

  /** The frame the entry sequence leaves, lowest address first. */
  function FrameImage(c: Cpu): (words: seq<uint32>)
    requires FRAME <= c.sp <= 0x4000_0000
    ensures |words| == FRAME
  {
    [DsWord(c.ctx.eax, c.ctx.ds), c.ctx.edi, c.ctx.esi, c.ctx.ebp, 4 * (c.sp - 5), c.ctx.ebx, c.ctx.edx, c.ctx.ecx,
     c.ctx.eax, 32, 0, c.ctx.eip, c.ctx.cs, c.ctx.eflags]
  }

  /** The frame task_create builds for a task that has not run yet. */
  function FirstFrame(entry: uint32): (words: seq<uint32>)
    ensures |words| == FRAME
  {
    [0x10, 0, 0, 0, 0, 0, 0, 0, 0, 0, 0, entry, 0x08, 0x202]
  }

  /** Memory with words stored from address b up. */
  function Store(mem: seq<uint32>, b: nat, words: seq<uint32>): (after: seq<uint32>)
    requires b + |words| <= |mem|
    ensures |after| == |mem|
    ensures forall a :: 0 <= a < |mem| ==> after[a] == if b <= a < b + |words| then words[a - b] else mem[a]
  {
    mem[..b] + words + mem[b + |words|..]
  }

  /** Memory after the interrupt's entry sequence: the frame, then the scheduler call's argument
      and return address. */
  function Entered(mem: seq<uint32>, c: Cpu, ret: uint32): (after: seq<uint32>)
    requires HEADROOM <= c.sp <= |mem| <= 0x4000_0000
    ensures |after| == |mem|
  {
    Store(mem, c.sp - HEADROOM, [ret, 4 * (c.sp - FRAME)] + FrameImage(c))
  }

  /** Memory after the scheduler call has returned: the frame, and below it whatever the call left, its
      argument and return address overwritten or not. */
  function Called(mem: seq<uint32>, c: Cpu, below: seq<uint32>): (after: seq<uint32>)
    requires FRAME + |below| <= c.sp <= |mem| <= 0x4000_0000
    ensures |after| == |mem|
  {
    Store(mem, c.sp - FRAME - |below|, below + FrameImage(c))
  }

  /** The context a frame at b holds: what the exit sequence loads. */
  function FrameContext(mem: seq<uint32>, b: nat): Context
    requires b + FRAME <= |mem|
  {
    Context(mem[b + 8], mem[b + 7], mem[b + 6], mem[b + 5], mem[b + 3], mem[b + 2], mem[b + 1],
            mem[b] % TWO_16, mem[b + 11], mem[b + 12], mem[b + 13])
  }

  /** The exit sequence: every segment register takes the saved ds, and iret ends above the frame. */
  function Restore(mem: seq<uint32>, b: nat): Cpu
    requires b + FRAME <= |mem|
  {
    var ds := mem[b] % TWO_16;
    Cpu(FrameContext(mem, b), b + FRAME, ds, ds, ds)
  }

  /** The exit gives back what the entry saved. Above the registers the frame holds the timer's interrupt
      number and no error code. */
  lemma EntryThenExit(mem: seq<uint32>, c: Cpu, below: seq<uint32>)
    requires FRAME + |below| <= c.sp <= |mem| <= 0x4000_0000
    ensures FrameContext(Called(mem, c, below), c.sp - FRAME) == c.ctx
    ensures Restore(Called(mem, c, below), c.sp - FRAME).sp == c.sp
    ensures var after, b := Called(mem, c, below), c.sp - FRAME;
            after[b + 4] == 4 * (c.sp - 5) && after[b + 9] == 32 && after[b + 10] == 0
  {
    var image, after, b := FrameImage(c), Called(mem, c, below), c.sp - FRAME;
    var words := below + image;
    forall k | 0 <= k < FRAME ensures after[b + k] == image[k] {
      assert words[|below| + k] == image[k];
    }
  }

  lemma FirstFrameContext(mem: seq<uint32>, b: nat, entry: uint32)
    requires b + FRAME <= |mem|
    ensures var c := Restore(Store(mem, b, FirstFrame(entry)), b);
            && c.ctx == Context(0, 0, 0, 0, 0, 0, 0, 0x10, entry, 0x08, 0x202)
            && c.sp == b + FRAME
  {
    var after := Store(mem, b, FirstFrame(entry));
    assert forall k :: 0 <= k < FRAME ==> after[b + k] == FirstFrame(entry)[k];
  }

  // ---- The whole system ----

  datatype Stack = Stack(lo: nat, hi: nat)

  /** stacks[i] is task i's stack; boot is the one the kernel starts on. */
  datatype System = System(cpu: Cpu, mem: seq<uint32>, ring: Ring, stacks: seq<Stack>, boot: Stack)

  predicate Apart(a: Stack, b: Stack) {
    a.hi <= b.lo || b.hi <= a.lo
  }

  /** Task i's context is on its stack: some other code has the CPU. */
  predicate Parked(s: System, i: nat) {
    i < |s.ring.tasks| && !(s.ring.started && i == s.ring.current)
  }

  /** The stack the CPU is on. */
  function Active(s: System): Stack
    requires WellFormed(s.ring) && |s.stacks| == |s.ring.tasks|
  {
    if s.ring.started && s.ring.tasks != [] then s.stacks[s.ring.current] else s.boot
  }

  /** Word address of a parked task's frame. */
  function Base(s: System, i: nat): nat
    requires i < |s.ring.tasks|
  {
    s.ring.tasks[i].esp / 4
  }

  predicate FrameFits(s: System, i: nat)
    requires i < |s.ring.tasks| && |s.stacks| == |s.ring.tasks|
  {
    && s.ring.tasks[i].esp % 4 == 0
    && s.stacks[i].lo + (HEADROOM - FRAME) <= Base(s, i) && Base(s, i) + FRAME <= s.stacks[i].hi
  }

  /** Stacks are disjoint and in memory, the CPU has room on its own, and every parked task's
      frame lies on its stack. */
  ghost predicate Sane(s: System) {
    && WellFormed(s.ring) && |s.stacks| == |s.ring.tasks| && |s.mem| <= 0x4000_0000
    && (s.ring.started ==> s.ring.tasks != [])
    && s.boot.lo <= s.boot.hi <= |s.mem|
    && (forall i :: 0 <= i < |s.stacks| ==> s.stacks[i].lo <= s.stacks[i].hi <= |s.mem| && Apart(s.stacks[i], s.boot))
    && (forall i, j :: 0 <= i < j < |s.stacks| ==> Apart(s.stacks[i], s.stacks[j]))
    && Active(s).lo + HEADROOM <= s.cpu.sp <= Active(s).hi
    && (forall i: nat :: Parked(s, i) ==> FrameFits(s, i))
  }

  /** Before any task exists. */
  lemma BootIsSane(cpu: Cpu, mem: seq<uint32>, boot: Stack)
    requires boot.lo + HEADROOM <= cpu.sp <= boot.hi <= |mem| <= 0x4000_0000
    ensures Sane(System(cpu, mem, Ring([], 0, false), [], boot))
  {
  }

  /** What a parked task gets back when it is next given the CPU. */
  function Held(s: System, i: nat): Context
    requires i < |s.ring.tasks| && Base(s, i) + FRAME <= |s.mem|
  {
    FrameContext(s.mem, Base(s, i))
  }

  /** The CPU has room on the active stack, which is in memory. */
  predicate Room(s: System) {
    && WellFormed(s.ring) && |s.stacks| == |s.ring.tasks| && |s.mem| <= 0x4000_0000
    && Active(s).lo + HEADROOM <= s.cpu.sp <= Active(s).hi <= |s.mem|
  }

  /** The esp handed to the scheduler: the base of the frame just pushed. */
  function FrameEsp(s: System): uint32
    requires Room(s)
  {
    4 * (s.cpu.sp - FRAME)
  }

  function Next(s: System): Ring
    requires Room(s)
  {
    Tick(s.ring, FrameEsp(s))
  }

  /** The active stack has room for what the scheduler call leaves below the frame. */
  predicate RoomFor(s: System, below: seq<uint32>) {
    Room(s) && 2 <= |below| <= s.cpu.sp - FRAME - Active(s).lo
  }

  /** The timer interrupt: entry, scheduler tick, exit from the stack pointer it returned. */
  function Interrupt(s: System, below: seq<uint32>): System
    requires RoomFor(s, below) && Resumed(s.ring, FrameEsp(s)) / 4 + FRAME <= |s.mem|
  {
    var mem := Called(s.mem, s.cpu, below);
    s.(cpu := Restore(mem, Resumed(s.ring, FrameEsp(s)) / 4), mem := mem, ring := Next(s))
  }

  lemma SaneHasRoom(s: System)
    requires Sane(s)
    ensures Room(s)
  {
  }

  lemma FrameUntouched(mem: seq<uint32>, after: seq<uint32>, b: nat, stack: Stack)
    requires |after| == |mem| && stack.lo <= b && b + FRAME <= stack.hi <= |mem|
    requires forall a :: stack.lo <= a < stack.hi ==> after[a] == mem[a]
    ensures FrameContext(after, b) == FrameContext(mem, b)
  {
  }

  /** The interrupt's own pushes stay on the active stack. */
  lemma EntryStaysOnStack(s: System, below: seq<uint32>, other: Stack)
    requires RoomFor(s, below) && Apart(other, Active(s)) && other.hi <= |s.mem|
    ensures forall a :: other.lo <= a < other.hi ==> Called(s.mem, s.cpu, below)[a] == s.mem[a]
  {
  }

  lemma TickParks(r: Ring, esp: uint32, i: nat)
    requires WellFormed(r) && i < |r.tasks|
    ensures var t := Tick(r, esp);
            && (t.started <==> r.started || |r.tasks| > 1)
            && (i != r.current || !r.started || |r.tasks| == 1 ==> t.tasks[i].esp == r.tasks[i].esp)
            && (i == r.current && r.started && |r.tasks| > 1 ==> t.tasks[i].esp == esp)
            && (|r.tasks| <= 1 || !r.started ==> t.current == r.current)
            && Resumed(r, esp) == if |r.tasks| <= 1 then esp else t.tasks[t.current].esp
  {
  }

  lemma ParkedIsOffActive(s: System, i: nat)
    requires Sane(s) && Parked(s, i)
    ensures |s.stacks| == |s.ring.tasks| && FrameFits(s, i)
    ensures s.stacks[i].hi <= |s.mem| && Apart(s.stacks[i], Active(s))
  {
    if s.ring.started && i > s.ring.current {
      assert Apart(s.stacks[s.ring.current], s.stacks[i]);
    }
  }

  /** Where the exit sequence finds its frame: that of the task the tick made current, or, with
      nothing to switch to, the frame just pushed. */
  lemma ResumedFrame(s: System)
    requires Sane(s) && Room(s)
    ensures var b := Resumed(s.ring, FrameEsp(s)) / 4;
            && b + FRAME <= |s.mem|
            && (|s.ring.tasks| <= 1 || (s.ring.started && Next(s).current == s.ring.current) ==> b == s.cpu.sp - FRAME)
            && (|s.ring.tasks| > 1 && Parked(s, Next(s).current) ==> b == Base(s, Next(s).current))
  {
    hide Sane, Tick, Resumed, FrameFits;
    if |s.ring.tasks| >= 1 {
      TickParks(s.ring, FrameEsp(s), Next(s).current);
      if Parked(s, Next(s).current) {
        ParkedIsOffActive(s, Next(s).current);
        FitsInMemory(s, Next(s).current);
      }
    } else {
      NothingToResume(s.ring, FrameEsp(s));
    }
  }

  lemma NothingToResume(r: Ring, esp: uint32)
    requires r.tasks == [] && WellFormed(r)
    ensures Resumed(r, esp) == esp
  {
  }

  lemma FitsInMemory(s: System, i: nat)
    requires i < |s.ring.tasks| && |s.stacks| == |s.ring.tasks| && FrameFits(s, i) && s.stacks[i].hi <= |s.mem|
    ensures Base(s, i) + FRAME <= |s.mem|
  {
  }

  /** A task that stays parked through an interrupt keeps its frame and the context in it. */
  lemma InterruptKeepsParked(s: System, below: seq<uint32>, i: nat)
    requires Sane(s) && RoomFor(s, below) && Resumed(s.ring, FrameEsp(s)) / 4 + FRAME <= |s.mem|
    requires Parked(s, i)
    ensures Base(s, i) + FRAME <= |s.mem|
    ensures FrameFits(Interrupt(s, below), i) && Base(Interrupt(s, below), i) == Base(s, i)
    ensures FrameContext(Interrupt(s, below).mem, Base(s, i)) == FrameContext(s.mem, Base(s, i))
  {
    hide Sane, Tick, Resumed, Called, Restore, FrameContext;
    ParkedIsOffActive(s, i);
    EntryStaysOnStack(s, below, s.stacks[i]);
    FrameUntouched(s.mem, Called(s.mem, s.cpu, below), Base(s, i), s.stacks[i]);
    TickParks(s.ring, FrameEsp(s), i);
  }

  /** An interrupted task's context is what its frame holds from then on. */
  lemma InterruptParks(s: System, below: seq<uint32>)
    requires Sane(s) && RoomFor(s, below) && Resumed(s.ring, FrameEsp(s)) / 4 + FRAME <= |s.mem|
    requires s.ring.started && |s.ring.tasks| > 1
    ensures var t, c := Interrupt(s, below), s.ring.current;
            FrameFits(t, c) && Base(t, c) == s.cpu.sp - FRAME && FrameContext(t.mem, Base(t, c)) == s.cpu.ctx
  {
    hide Sane, Tick, Resumed, Called, Restore, FrameContext;
    TickParks(s.ring, FrameEsp(s), s.ring.current);
    EntryThenExit(s.mem, s.cpu, below);
  }

  /** The interrupt ends in the context of the task it made current: what that task's frame held,
      or, when the interrupted code goes on, its own. */
  lemma InterruptResumes(s: System, below: seq<uint32>)
    requires Sane(s) && RoomFor(s, below) && Resumed(s.ring, FrameEsp(s)) / 4 + FRAME <= |s.mem|
    ensures var t, j := Interrupt(s, below), Next(s).current;
            && t.ring.current == j
            && (if |s.ring.tasks| > 1 && Parked(s, j)
                then Base(s, j) + FRAME <= |s.mem| && t.cpu.ctx == Held(s, j) && t.cpu.sp == Base(s, j) + FRAME
                else t.cpu.ctx == s.cpu.ctx && t.cpu.sp == s.cpu.sp)
            && t.cpu.es == t.cpu.fs == t.cpu.gs == t.cpu.ctx.ds
  {
    hide Sane, Tick, Resumed, Called, FrameContext;
    ResumedFrame(s);
    EntryThenExit(s.mem, s.cpu, below);
    RestoredSegments(Called(s.mem, s.cpu, below), Resumed(s.ring, FrameEsp(s)) / 4);
    if |s.ring.tasks| > 1 && Parked(s, Next(s).current) {
      InterruptKeepsParked(s, below, Next(s).current);
    } else {
      TickWithoutTask(s);
    }
  }

  lemma TickWithoutTask(s: System)
    requires Sane(s) && Room(s) && (|s.ring.tasks| <= 1 || !Parked(s, Next(s).current))
    ensures |s.ring.tasks| <= 1 || (s.ring.started && Next(s).current == s.ring.current)
  {
  }

  lemma RestoredSegments(mem: seq<uint32>, b: nat)
    requires b + FRAME <= |mem|
    ensures var c := Restore(mem, b); c.es == c.fs == c.gs == c.ctx.ds
  {
  }

  lemma InterruptIsSane(s: System, below: seq<uint32>)
    requires Sane(s) && RoomFor(s, below) && Resumed(s.ring, FrameEsp(s)) / 4 + FRAME <= |s.mem|
    ensures Sane(Interrupt(s, below))
  {
    hide Tick, Resumed, Called, Restore, FrameContext, Held;
    var t := Interrupt(s, below);
    forall i: nat | Parked(t, i) ensures FrameFits(t, i) {
      TickParks(s.ring, FrameEsp(s), i);
      if Parked(s, i) {
        InterruptKeepsParked(s, below, i);
      } else {
        InterruptParks(s, below);
      }
    }
    ResumedOnActive(s, below);
  }

  /** The stack pointer after the exit sequence is on the stack of the task now current. */
  lemma ResumedOnActive(s: System, below: seq<uint32>)
    requires Sane(s) && RoomFor(s, below) && Resumed(s.ring, FrameEsp(s)) / 4 + FRAME <= |s.mem|
    ensures Room(Interrupt(s, below)) && (Next(s).started ==> Next(s).tasks != [])
  {
    hide Tick, Resumed, Called, Restore, FrameContext, Held;
    var t := Interrupt(s, below);
    InterruptResumes(s, below);
    if s.ring.tasks != [] {
      TickParks(s.ring, FrameEsp(s), t.ring.current);
    } else {
      EmptyTick(s.ring, FrameEsp(s));
    }
    if |s.ring.tasks| > 1 && Parked(s, t.ring.current) {
      ParkedIsOffActive(s, t.ring.current);
    } else {
      TickWithoutTask(s);
    }
  }

  lemma EmptyTick(r: Ring, esp: uint32)
    requires r.tasks == [] && WellFormed(r)
    ensures Tick(r, esp) == r
  {
  }

  // ---- Runs ----

  /** Irq: a timer interrupt, with the words its scheduler call leaves under the frame. Exec: other code
      runs, on the active stack and in other memory, and may change any task's state. Spawn: task_create
      with a stack that kmalloc returned. */
  datatype Step =
    | Irq(below: seq<uint32>)
    | Exec(cpu: Cpu, mem: seq<uint32>, states: seq<State>)
    | Spawn(entry: uint32, lo: nat)

  /** Running code keeps off other tasks' stacks, and a new stack overlaps no other. */
  ghost predicate Lawful(s: System, step: Step)
    requires Sane(s)
  {
    match step
    case Irq(below) => RoomFor(s, below)
    case Exec(cpu, mem, states) =>
      && |mem| == |s.mem| && |states| == |s.ring.tasks|
      && Active(s).lo + HEADROOM <= cpu.sp <= Active(s).hi
      && forall i: nat, a: nat :: Parked(s, i) && s.stacks[i].lo <= a < s.stacks[i].hi ==> mem[a] == s.mem[a]
    case Spawn(_, lo) =>
      && lo + STACK_WORDS <= |s.mem| && Apart(NewStack(lo), s.boot)
      && forall i :: 0 <= i < |s.stacks| ==> Apart(s.stacks[i], NewStack(lo))
  }

  function NewStack(lo: nat): Stack {
    Stack(lo, lo + STACK_WORDS)
  }

  ghost function Do(s: System, step: Step): (t: System)
    requires Sane(s) && Lawful(s, step)
    ensures Sane(t)
  {
    match step
    case Irq(below) =>
      SaneHasRoom(s);
      ResumedFrame(s);
      InterruptIsSane(s, below);
      Interrupt(s, below)
    case Exec(cpu, mem, states) =>
      ExecIsSane(s, cpu, mem, states);
      Ran(s, cpu, mem, states)
    case Spawn(entry, lo) =>
      SpawnIsSane(s, entry, lo);
      Spawned(s, entry, lo)
  }

  function Ran(s: System, cpu: Cpu, mem: seq<uint32>, states: seq<State>): System
    requires |states| == |s.ring.tasks|
  {
    s.(cpu := cpu, mem := mem, ring := Rewrite(s.ring, states))
  }

  /** task_create: the first frame at the top of the new stack, and a place at the end of the ring. */
  function Spawned(s: System, entry: uint32, lo: nat): System
    requires lo + STACK_WORDS <= |s.mem| <= 0x4000_0000
  {
    var b := lo + STACK_WORDS - FRAME;
    s.(mem := Store(s.mem, b, FirstFrame(entry)), ring := Create(s.ring, 4 * b), stacks := s.stacks + [NewStack(lo)])
  }

  lemma ExecIsSane(s: System, cpu: Cpu, mem: seq<uint32>, states: seq<State>)
    requires Sane(s) && Lawful(s, Exec(cpu, mem, states))
    ensures Sane(Ran(s, cpu, mem, states))
  {
    forall i: nat | Parked(Ran(s, cpu, mem, states), i) ensures FrameFits(Ran(s, cpu, mem, states), i) {
      assert Parked(s, i);
    }
  }

  lemma SpawnIsSane(s: System, entry: uint32, lo: nat)
    requires Sane(s) && Lawful(s, Spawn(entry, lo))
    ensures Sane(Spawned(s, entry, lo))
  {
    var t := Spawned(s, entry, lo);
    forall i: nat | Parked(t, i) ensures FrameFits(t, i) {
      if i < |s.ring.tasks| { assert Parked(s, i); }
    }
  }

  ghost function After(s: System, steps: seq<Step>): (t: System)
    requires Sane(s) && AllLawful(s, steps)
    ensures Sane(t)
    decreases |steps|
  {
    if steps == [] then s else After(Do(s, steps[0]), steps[1..])
  }

  ghost predicate AllLawful(s: System, steps: seq<Step>)
    requires Sane(s)
    decreases |steps|
  {
    steps == [] || (Lawful(s, steps[0]) && AllLawful(Do(s, steps[0]), steps[1..]))
  }

  /** Task i is off the CPU before and after each step. */
  ghost predicate AlwaysParked(s: System, steps: seq<Step>, i: nat)
    requires Sane(s) && AllLawful(s, steps)
    decreases |steps|
  {
    Parked(s, i) && (steps == [] || AlwaysParked(Do(s, steps[0]), steps[1..], i))
  }

  lemma StepKeepsParked(s: System, step: Step, i: nat)
    requires Sane(s) && Lawful(s, step) && Parked(s, i) && FrameFits(s, i) && s.stacks[i].hi <= |s.mem|
    ensures var t := Do(s, step);
            && i < |s.ring.tasks| <= |t.ring.tasks|
            && Base(t, i) == Base(s, i) && Base(s, i) + FRAME <= |s.mem| == |t.mem|
            && FrameContext(t.mem, Base(s, i)) == FrameContext(s.mem, Base(s, i))
  {
    hide Interrupt, Tick, Store, FrameContext;
    match step
    case Irq(below) =>
      SaneHasRoom(s);
      ResumedFrame(s);
      InterruptKeepsParked(s, below, i);
      InterruptKeepsMemorySize(s, below);
    case Exec(cpu, mem, states) =>
      FrameUntouched(s.mem, mem, Base(s, i), s.stacks[i]);
    case Spawn(entry, lo) =>
      FrameUntouched(s.mem, Spawned(s, entry, lo).mem, Base(s, i), s.stacks[i]);
  }

  lemma InterruptKeepsMemorySize(s: System, below: seq<uint32>)
    requires RoomFor(s, below) && Resumed(s.ring, FrameEsp(s)) / 4 + FRAME <= |s.mem|
    ensures |Interrupt(s, below).mem| == |s.mem| && |Interrupt(s, below).ring.tasks| == |s.ring.tasks|
  {
  }

  lemma {:induction false} ParkedKeepsContext(s: System, steps: seq<Step>, i: nat)
    requires Sane(s) && AllLawful(s, steps) && AlwaysParked(s, steps, i)
    ensures var t := After(s, steps);
            && |s.ring.tasks| <= |t.ring.tasks| && Parked(t, i)
            && Base(t, i) == Base(s, i) && Base(s, i) + FRAME <= |s.mem| == |t.mem|
            && Held(t, i) == Held(s, i)
    decreases |steps|
  {
    hide Sane, Do, Lawful;
    ParkedIsOffActive(s, i);
    FitsInMemory(s, i);
    if steps != [] {
      StepKeepsParked(s, steps[0], i);
      ParkedKeepsContext(Do(s, steps[0]), steps[1..], i);
    }
  }

  /** A preempted task, whatever runs meanwhile, resumes with the registers, flags, instruction
      pointer, data segment and stack pointer it had. The other data segments take ds. */
  lemma PreemptedTaskResumes(s: System, below: seq<uint32>, steps: seq<Step>, again: seq<uint32>)
    requires Sane(s) && RoomFor(s, below) && s.ring.started && |s.ring.tasks| > 1
    requires var t := Do(s, Irq(below));
             && AllLawful(t, steps) && AlwaysParked(t, steps, s.ring.current)
             && RoomFor(After(t, steps), again) && Do(After(t, steps), Irq(again)).ring.current == s.ring.current
    ensures var u := Do(After(Do(s, Irq(below)), steps), Irq(again));
            && u.cpu.ctx == s.cpu.ctx && u.cpu.sp == s.cpu.sp
            && u.cpu.es == u.cpu.fs == u.cpu.gs == s.cpu.ctx.ds
  {
    hide Sane, Interrupt, Tick, AllLawful, AlwaysParked, FrameContext;
    var t := Do(s, Irq(below));
    SaneHasRoom(s);
    ResumedFrame(s);
    InterruptParks(s, below);
    InterruptKeepsMemorySize(s, below);
    ParkedKeepsContext(t, steps, s.ring.current);
    Dispatched(After(t, steps), again, s.ring.current);
  }

  lemma Dispatched(s: System, below: seq<uint32>, i: nat)
    requires Sane(s) && Parked(s, i) && |s.ring.tasks| > 1 && RoomFor(s, below) && Do(s, Irq(below)).ring.current == i
    ensures Base(s, i) + FRAME <= |s.mem|
    ensures var t := Do(s, Irq(below));
            && t.cpu.ctx == Held(s, i) && t.cpu.sp == Base(s, i) + FRAME
            && t.cpu.es == t.cpu.fs == t.cpu.gs == t.cpu.ctx.ds
  {
    SaneHasRoom(s);
    ResumedFrame(s);
    hide Sane, Tick, Resumed, Called, Restore, FrameContext;
    InterruptResumes(s, below);
  }

  /** A new task's first dispatch starts it at its entry point, with interrupts enabled, the
      kernel's segments, zeroed registers and an empty stack. */
  lemma SpawnedTaskStarts(s: System, entry: uint32, lo: nat, steps: seq<Step>, below: seq<uint32>)
    requires Sane(s) && Lawful(s, Spawn(entry, lo))
    requires var t := Do(s, Spawn(entry, lo));
             && AllLawful(t, steps) && AlwaysParked(t, steps, |s.ring.tasks|)
             && |After(t, steps).ring.tasks| > 1
             && RoomFor(After(t, steps), below) && Do(After(t, steps), Irq(below)).ring.current == |s.ring.tasks|
    ensures var u := Do(After(Do(s, Spawn(entry, lo)), steps), Irq(below));
            && u.cpu.ctx == Context(0, 0, 0, 0, 0, 0, 0, 0x10, entry, 0x08, 0x202)
            && u.cpu.sp == lo + STACK_WORDS
  {
    hide Sane, Interrupt, Tick, AllLawful, AlwaysParked, FrameContext;
    var t := Do(s, Spawn(entry, lo));
    SaneHasRoom(s);
    FirstFrameContext(s.mem, lo + STACK_WORDS - FRAME, entry);
    ParkedKeepsContext(t, steps, |s.ring.tasks|);
    Dispatched(After(t, steps), below, |s.ring.tasks|);
  }

  /** The step for an interrupt, with what its two halves need. */
  lemma InterruptStep(s: System, below: seq<uint32>)
    requires Sane(s) && RoomFor(s, below)
    ensures Room(s) && HEADROOM <= s.cpu.sp <= |s.mem| && Resumed(s.ring, FrameEsp(s)) / 4 + FRAME <= |s.mem|
    ensures 2 <= |below| && FRAME + |below| <= s.cpu.sp
    ensures Do(s, Irq(below)) == Interrupt(s, below)
  {
    hide Tick, Resumed, Called, Restore;
    SaneHasRoom(s);
    ResumedFrame(s);
  }

  // ---- From boot ----

  /** The kernel before it has created a task. */
  ghost function Booted(cpu: Cpu, mem: seq<uint32>, boot: Stack): (s: System)
    requires boot.lo + HEADROOM <= cpu.sp <= boot.hi <= |mem| <= 0x4000_0000
    ensures Sane(s)
  {
    BootIsSane(cpu, mem, boot);
    System(cpu, mem, Ring([], 0, false), [], boot)
  }

  /** The context task_create prepares. */
  function Prepared(entry: uint32): Context {
    Context(0, 0, 0, 0, 0, 0, 0, 0x10, entry, 0x08, 0x202)
  }

  /** Over any lawful run from boot, every task that is created and is then first given the CPU starts
      from its prepared context, on its own empty stack. */
  lemma BootedTaskStarts(cpu: Cpu, mem: seq<uint32>, boot: Stack, before: seq<Step>, entry: uint32, lo: nat,
                         steps: seq<Step>, below: seq<uint32>)
    requires boot.lo + HEADROOM <= cpu.sp <= boot.hi <= |mem| <= 0x4000_0000
    requires AllLawful(Booted(cpu, mem, boot), before)
    requires var s := After(Booted(cpu, mem, boot), before);
             && Lawful(s, Spawn(entry, lo))
             && var t := Do(s, Spawn(entry, lo));
                && AllLawful(t, steps) && AlwaysParked(t, steps, |s.ring.tasks|)
                && var u := After(t, steps);
                   |u.ring.tasks| > 1 && RoomFor(u, below) && Do(u, Irq(below)).ring.current == |s.ring.tasks|
    ensures var s := After(Booted(cpu, mem, boot), before);
            var u := Do(After(Do(s, Spawn(entry, lo)), steps), Irq(below));
            u.cpu.ctx == Prepared(entry) && u.cpu.sp == lo + 1024
  {
    hide Sane, Do, After, AllLawful, AlwaysParked, Lawful, Booted;
    SpawnedTaskStarts(After(Booted(cpu, mem, boot), before), entry, lo, steps, below);
  }

  /** Task i is off the CPU with the given context on its stack, and resumes with the given sp. */
  ghost predicate Holds(s: System, i: nat, ctx: Context, sp: nat) {
    Parked(s, i) && Base(s, i) + FRAME == sp <= |s.mem| && Held(s, i) == ctx
  }

  lemma SpawnHolds(s: System, entry: uint32, lo: nat)
    requires Sane(s) && Lawful(s, Spawn(entry, lo))
    ensures Holds(Do(s, Spawn(entry, lo)), |s.ring.tasks|, Prepared(entry), lo + STACK_WORDS)
  {
    hide FrameContext, Store, FrameFits, Sane;
    SaneSizes(s);
    FirstFrameContext(s.mem, lo + STACK_WORDS - FRAME, entry);
  }

  lemma SaneSizes(s: System)
    requires Sane(s)
    ensures |s.mem| <= 0x4000_0000 && WellFormed(s.ring) && (s.ring.started ==> s.ring.tasks != [])
    ensures |s.stacks| == |s.ring.tasks|
  {
  }

  lemma StepHolds(s: System, step: Step, i: nat, ctx: Context, sp: nat)
    requires Sane(s) && Lawful(s, step) && Holds(s, i, ctx, sp) && Parked(Do(s, step), i)
    ensures Holds(Do(s, step), i, ctx, sp)
  {
    hide Sane, Do, Lawful, FrameContext, FrameFits;
    ParkedIsOffActive(s, i);
    StepKeepsParked(s, step, i);
  }

  lemma TickHands(s: System, below: seq<uint32>, i: nat, ctx: Context, sp: nat)
    requires Sane(s) && RoomFor(s, below) && |s.ring.tasks| > 1 && Holds(s, i, ctx, sp) && Next(s).current == i
    ensures var t := Do(s, Irq(below)); t.ring == Next(s) && t.cpu.ctx == ctx && t.cpu.sp == sp
  {
    hide Sane, Tick, Resumed, Called, Restore, FrameContext, FrameFits;
    InterruptStep(s, below);
    Dispatched(s, below, i);
  }

  /** Two tasks are created and the timer ticks twice: the first tick starts the first task, leaving the
      boot code for good, and the second tick starts the second. */
  lemma FirstTwoTicks(cpu: Cpu, mem: seq<uint32>, boot: Stack, one: uint32, two: uint32, lo1: nat, lo2: nat,
                      below: seq<uint32>)
    requires boot.lo + HEADROOM <= cpu.sp <= boot.hi <= |mem| <= 0x4000_0000
    requires 2 <= |below| <= cpu.sp - FRAME - boot.lo && |below| + FRAME <= STACK_WORDS
    requires lo1 + STACK_WORDS <= |mem| && lo2 + STACK_WORDS <= |mem|
    requires Apart(NewStack(lo1), boot) && Apart(NewStack(lo2), boot) && Apart(NewStack(lo1), NewStack(lo2))
    ensures var s := Booted(cpu, mem, boot);
            && Lawful(s, Spawn(one, lo1))
            && var s1 := Do(s, Spawn(one, lo1));
               && Lawful(s1, Spawn(two, lo2))
               && var s2 := Do(s1, Spawn(two, lo2));
                  && RoomFor(s2, below)
                  && var s3 := Do(s2, Irq(below));
                     && s3.ring.current == 0 && s3.cpu.ctx == Prepared(one) && s3.cpu.sp == lo1 + STACK_WORDS
                     && RoomFor(s3, below)
                     && var s4 := Do(s3, Irq(below));
                        s4.ring.current == 1 && s4.cpu.ctx == Prepared(two) && s4.cpu.sp == lo2 + STACK_WORDS
  {
    hide FrameContext, Sane, Holds, Called, Restore, FrameFits, Prepared;
    var s := Booted(cpu, mem, boot);
    SaneSizes(s);
    var s1 := Do(s, Spawn(one, lo1));
    SpawnHolds(s, one, lo1);
    SaneSizes(s1);
    var s2 := Do(s1, Spawn(two, lo2));
    SpawnHolds(s1, two, lo2);
    StepHolds(s1, Spawn(two, lo2), 0, Prepared(one), lo1 + STACK_WORDS);
    TwoTicks(s2, lo1, lo2, below, Prepared(one), Prepared(two));
  }

  lemma TwoTicks(s: System, lo1: nat, lo2: nat, below: seq<uint32>, one: Context, two: Context)
    requires Sane(s) && RoomFor(s, below) && |below| + FRAME <= STACK_WORDS
    requires |s.ring.tasks| == 2 && !s.ring.started && s.ring.current == 0 && s.stacks == [NewStack(lo1), NewStack(lo2)]
    requires s.ring.tasks[0].state == Ready && s.ring.tasks[1].state == Ready
    requires Holds(s, 0, one, lo1 + STACK_WORDS) && Holds(s, 1, two, lo2 + STACK_WORDS)
    ensures var t := Do(s, Irq(below));
            && t.ring.current == 0 && t.cpu.ctx == one && t.cpu.sp == lo1 + STACK_WORDS
            && RoomFor(t, below)
            && var u := Do(t, Irq(below));
               u.ring.current == 1 && u.cpu.ctx == two && u.cpu.sp == lo2 + STACK_WORDS
  {
    hide FrameContext, Sane, Holds, Called, Restore, FrameFits, Do, Parked;
    FirstPick(s.ring, FrameEsp(s));
    TickHands(s, below, 0, one, lo1 + STACK_WORDS);
    var t := Do(s, Irq(below));
    SecondIsParked(s, t);
    StepHolds(s, Irq(below), 1, two, lo2 + STACK_WORDS);
    SaneSizes(t);
    DoKeepsStacks(s, below);
    SaneHasRoom(t);
    SecondPick(t.ring, FrameEsp(t));
    TickHands(t, below, 1, two, lo2 + STACK_WORDS);
  }

  lemma FirstPick(r: Ring, esp: uint32)
    requires |r.tasks| == 2 && !r.started && r.current == 0 && r.tasks[1].state == Ready
    ensures var t := Tick(r, esp);
            t.current == 0 && t.started && |t.tasks| == 2 && t.tasks[1].state == Ready
  {
  }

  lemma SecondPick(r: Ring, esp: uint32)
    requires |r.tasks| == 2 && r.started && r.current == 0 && r.tasks[1].state == Ready
    ensures Tick(r, esp).current == 1
  {
  }

  lemma SecondIsParked(s: System, t: System)
    requires |t.ring.tasks| == 2 && t.ring.current == 0
    ensures Parked(t, 1)
  {
  }

  lemma DoKeepsStacks(s: System, below: seq<uint32>)
    requires Sane(s) && RoomFor(s, below)
    ensures Do(s, Irq(below)).stacks == s.stacks && Do(s, Irq(below)).boot == s.boot
  {
    hide Sane, Tick, Resumed, Called, Restore;
    InterruptStep(s, below);
  }
}
