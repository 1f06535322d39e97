/** The timer interrupt's assembly sequence, and the stack task_create prepares for it. */
module Interrupts {
  import opened Bits
  import opened TaskRing
  import opened ContextSwitch
  import opened TaskSystem

  /** task_create: fourteen words pushed onto an empty stack, then a place in the list. */
  method CreateTask(list: TaskList, mem: array<uint32>, lo: nat, entry: uint32) returns (task: Task)
    requires list.Valid() && lo + STACK_WORDS <= mem.Length <= 0x4000_0000
    modifies list`head, list`current, list`ring, list.ring, mem
    ensures list.Valid() && fresh(task) && list.ring == old(list.ring) + [task]
    ensures list.Abs() == Create(old(list.Abs()), 4 * (lo + STACK_WORDS - FRAME))
    ensures mem[..] == Store(old(mem[..]), lo + STACK_WORDS - FRAME, FirstFrame(entry))
  {
    var top := lo + STACK_WORDS;
    PushFirstFrame(mem, top, entry);
    task := new Task(4 * (top - FRAME));
    list.Append(task);
  }

  method PushFirstFrame(mem: array<uint32>, stackTop: nat, entry: uint32)
    requires FRAME <= stackTop <= mem.Length
    modifies mem
    ensures mem[..] == Store(old(mem[..]), stackTop - FRAME, FirstFrame(entry))
  {
    ghost var before := mem[..];
    var top := PushReturn(mem, stackTop, 0x202, 0x08, entry, 0, 0);
    top := PushRegisters(mem, top, 0, 0, 0, 0, 0, 0, 0, 0);
    top := top - 1;
    mem[top] := 0x10;  // DS
    FrameInParts(before, stackTop, [0x10], [0, 0, 0, 0, 0, 0, 0, 0], [0, 0, entry, 0x08, 0x202]);
    assert [0x10] + [0, 0, 0, 0, 0, 0, 0, 0] + [0, 0, entry, 0x08, 0x202] == FirstFrame(entry);
  }

  /** EFLAGS, CS, EIP, error code and interrupt number. */
  method PushReturn(mem: array<uint32>, top: nat, eflags: uint32, cs: uint32, eip: uint32,
                    error: uint32, number: uint32)
    returns (newTop: nat)
    requires 5 <= top <= mem.Length
    modifies mem
    ensures newTop == top - 5 && mem[..] == Store(old(mem[..]), newTop, [number, error, eip, cs, eflags])
  {
    newTop := top;
    newTop := newTop - 1; mem[newTop] := eflags;
    newTop := newTop - 1; mem[newTop] := cs;
    newTop := newTop - 1; mem[newTop] := eip;
    newTop := newTop - 1; mem[newTop] := error;
    newTop := newTop - 1; mem[newTop] := number;
  }

  /** The eight general registers in pusha order. */
  method PushRegisters(mem: array<uint32>, top: nat, eax: uint32, ecx: uint32, edx: uint32, ebx: uint32,
                       esp: uint32, ebp: uint32, esi: uint32, edi: uint32)
    returns (newTop: nat)
    requires 8 <= top <= mem.Length
    modifies mem
    ensures newTop == top - 8 && mem[..] == Store(old(mem[..]), newTop, [edi, esi, ebp, esp, ebx, edx, ecx, eax])
  {
    ghost var before := mem[..];
    newTop := PushFour(mem, top, eax, ecx, edx, ebx);
    newTop := PushFour(mem, newTop, esp, ebp, esi, edi);
    StoreBelow(before, top, [edi, esi, ebp, esp], [ebx, edx, ecx, eax]);
    assert [edi, esi, ebp, esp] + [ebx, edx, ecx, eax] == [edi, esi, ebp, esp, ebx, edx, ecx, eax];
  }

  method PushFour(mem: array<uint32>, top: nat, a: uint32, b: uint32, c: uint32, d: uint32) returns (newTop: nat)
    requires 4 <= top <= mem.Length
    modifies mem
    ensures newTop == top - 4 && mem[..] == Store(old(mem[..]), newTop, [d, c, b, a])
  {
    newTop := top;
    newTop := newTop - 1; mem[newTop] := a;
    newTop := newTop - 1; mem[newTop] := b;
    newTop := newTop - 1; mem[newTop] := c;
    newTop := newTop - 1; mem[newTop] := d;
  }

  lemma StoreBelow(mem: seq<uint32>, top: nat, low: seq<uint32>, high: seq<uint32>)
    requires |low| + |high| <= top <= |mem|
    ensures Store(Store(mem, top - |high|, high), top - |high| - |low|, low)
         == Store(mem, top - |high| - |low|, low + high)
  {
  }

  /** Three pushes of blocks of words, one below the other, store their concatenation. */
  lemma FrameInParts(mem: seq<uint32>, top: nat, low: seq<uint32>, mid: seq<uint32>, high: seq<uint32>)
    requires |low| + |mid| + |high| <= top <= |mem|
    ensures var a := Store(mem, top - |high|, high);
            var b := Store(a, top - |high| - |mid|, mid);
            Store(b, top - |high| - |mid| - |low|, low) == Store(mem, top - |high| - |mid| - |low|, low + mid + high)
  {
    StoreBelow(mem, top, mid, high);
    StoreBelow(mem, top, low, mid + high);
    assert low + (mid + high) == low + mid + high;
  }

  class Processor {
    var eax: uint32
    var ecx: uint32
    var edx: uint32
    var ebx: uint32
    var ebp: uint32
    var esi: uint32
    var edi: uint32
    var sp: nat
    var eip: uint32
    var cs: uint32
    var eflags: uint32
    var ds: uint16
    var es: uint16
    var fs: uint16
    var gs: uint16
    const mem: array<uint32>

    constructor (mem: array<uint32>, sp: nat)
      ensures this.mem == mem && this.sp == sp
    {
      eax, ecx, edx, ebx, ebp, esi, edi := 0, 0, 0, 0, 0, 0, 0;
      eip, cs, eflags, ds, es, fs, gs := 0, 0x08, 0, 0x10, 0x10, 0x10, 0x10;
      this.mem, this.sp := mem, sp;
    }

    ghost function Abs(): Cpu
      reads this
    {
      Cpu(Context(eax, ecx, edx, ebx, ebp, esi, edi, ds, eip, cs, eflags), sp, es, fs, gs)
    }

    method Pop() returns (value: uint32)
      requires sp < mem.Length
      modifies this`sp
      ensures sp == old(sp) + 1 && value == mem[old(sp)]
    {
      value := mem[sp];
      sp := sp + 1;
    }

    /** What the hardware pushes, then the entry sequence up to the scheduler call. */
    method Enter(ret: uint32)
      requires HEADROOM <= sp <= mem.Length <= 0x4000_0000
      modifies this, mem
      ensures sp == old(sp) - HEADROOM && mem[..] == Entered(old(mem[..]), old(Abs()), ret)
    {
      hide Store, Entered, FrameImage;
      ghost var before, cpu := mem[..], Abs();
      sp := PushReturn(mem, sp, eflags, cs, eip, 0, 32);
      var temp := 4 * sp;  // pusha stores esp as it was before
      sp := PushRegisters(mem, sp, eax, ecx, edx, ebx, temp, ebp, esi, edi);
      eax := DsWord(eax, ds);
      SaveAndCall(eax, ret);
      ds, es, fs, gs := 0x10, 0x10, 0x10, 0x10;
      EnteredInParts(before, cpu, ret);
    }

    /** `push eax`, `push esp`, and the call's return address. */
    method SaveAndCall(value: uint32, ret: uint32)
      requires 3 <= sp <= mem.Length <= 0x4000_0000
      modifies this`sp, mem
      ensures sp == old(sp) - 3 && mem[..] == Store(old(mem[..]), sp, [ret, 4 * (sp + 2), value])
    {
      sp := sp - 1; mem[sp] := value;
      sp := sp - 1; mem[sp] := 4 * (sp + 1);
      sp := sp - 1; mem[sp] := ret;
    }

    /** The exit sequence from the stack pointer the scheduler returned. */
    method Exit(frame: nat)
      requires frame + FRAME <= mem.Length
      modifies this
      ensures Abs() == Restore(mem[..], frame)
    {
      hide Abs;
      ghost var words := mem[..];
      sp := frame;
      PopSegments();
      PopRegisters();
      sp := sp + 2;  // error code and interrupt number
      Iret();
      AbsFields();
    }

    lemma AbsFields()
      ensures Abs() == Cpu(Context(eax, ecx, edx, ebx, ebp, esi, edi, ds, eip, cs, eflags), sp, es, fs, gs)
    {
    }

    method PopSegments()
      requires sp < mem.Length
      modifies this`sp, this`ebx, this`ds, this`es, this`fs, this`gs
      ensures sp == old(sp) + 1 && ds == es == fs == gs == mem[old(sp)] % TWO_16
    {
      ebx := Pop();
      ds := ebx % TWO_16;
      es, fs, gs := ds, ds, ds;
    }

    method Iret()
      requires sp + 3 <= mem.Length
      modifies this`sp, this`eip, this`cs, this`eflags
      ensures sp == old(sp) + 3 && eip == mem[old(sp)] && cs == mem[old(sp) + 1] && eflags == mem[old(sp) + 2]
    {
      eip := Pop();
      cs := Pop();
      eflags := Pop();
    }

    /** popa: the saved esp is skipped. */
    method PopRegisters()
      requires sp + 8 <= mem.Length
      modifies this`sp, this`edi, this`esi, this`ebp, this`ebx, this`edx, this`ecx, this`eax
      ensures sp == old(sp) + 8
      ensures edi == mem[old(sp)] && esi == mem[old(sp) + 1] && ebp == mem[old(sp) + 2]
      ensures ebx == mem[old(sp) + 4] && edx == mem[old(sp) + 5] && ecx == mem[old(sp) + 6] && eax == mem[old(sp) + 7]
    {
      edi := Pop();
      esi := Pop();
      ebp := Pop();
      sp := sp + 1;
      ebx := Pop();
      edx := Pop();
      ecx := Pop();
      eax := Pop();
    }

    /** What the compiled scheduler call leaves on the stack below the frame. */
    method LeaveBehind(frame: nat, below: seq<uint32>)
      requires |below| <= frame <= mem.Length
      modifies mem
      ensures mem[..] == Store(old(mem[..]), frame - |below|, below)
    {
      var lo := frame - |below|;
      for i := 0 to |below|
        invariant mem[..lo] == old(mem[..lo]) && mem[lo + i..] == old(mem[lo + i..])
        invariant mem[lo..lo + i] == below[..i]
      {
        mem[lo + i] := below[i];
        assert mem[lo..lo + i + 1] == mem[lo..lo + i] + [mem[lo + i]];
      }
      assert mem[..] == mem[..lo] + mem[lo..lo + |below|] + mem[lo + |below|..];
      StoreIs(old(mem[..]), lo, below);
    }

    /** The timer interrupt on one CPU and one task list. */
    method TimerInterrupt(list: TaskList, ret: uint32, below: seq<uint32>, ghost stacks: seq<Stack>, ghost boot: Stack)
      requires list.Valid() && Sane(System(Abs(), mem[..], list.Abs(), stacks, boot))
      requires RoomFor(System(Abs(), mem[..], list.Abs(), stacks, boot), below)
      modifies this, mem, list`current, list`started, list`place, list.ring
      ensures list.Valid() && list.ring == old(list.ring)
      ensures System(Abs(), mem[..], list.Abs(), stacks, boot)
           == Do(old(System(Abs(), mem[..], list.Abs(), stacks, boot)), Irq(below))
    {
      hide Sane, Entered, Called, Restore, Tick, Resumed, Active, Do, TaskList.Valid, TaskList.Abs, Abs, RoomFor;
      ghost var before := System(Abs(), mem[..], list.Abs(), stacks, boot);
      InterruptStep(before, below);
      AbsFields();
      var frame := sp - FRAME;
      Enter(ret);
      EnteredArgument(before.mem, before.cpu, ret);
      var esp := list.Tick(mem[sp + 1]);
      LeaveBehind(frame, below);
      CallLeaves(before.mem, before.cpu, ret, below);
      Exit(esp / 4);
    }
  }

  lemma EnteredInParts(mem: seq<uint32>, c: Cpu, ret: uint32)
    requires HEADROOM <= c.sp <= |mem| <= 0x4000_0000
    ensures var x, top := c.ctx, c.sp;
            var low := [ret, 4 * (top - FRAME), DsWord(x.eax, x.ds)];
            var mid := [x.edi, x.esi, x.ebp, 4 * (top - 5), x.ebx, x.edx, x.ecx, x.eax];
            var high := [32, 0, x.eip, x.cs, x.eflags];
            Store(Store(Store(mem, top - 5, high), top - 13, mid), top - HEADROOM, low) == Entered(mem, c, ret)
  {
    hide Store;
    var x, top := c.ctx, c.sp;
    var low := [ret, 4 * (top - FRAME), DsWord(x.eax, x.ds)];
    var mid := [x.edi, x.esi, x.ebp, 4 * (top - 5), x.ebx, x.edx, x.ecx, x.eax];
    var high := [32, 0, x.eip, x.cs, x.eflags];
    FrameInParts(mem, top, low, mid, high);
    assert low + mid + high == [ret, 4 * (top - FRAME)] + FrameImage(c);
  }

  lemma StoreIs(mem: seq<uint32>, b: nat, words: seq<uint32>)
    requires b + |words| <= |mem|
    ensures Store(mem, b, words) == mem[..b] + words + mem[b + |words|..]
  {
  }

  /** However much of its own frame the call used, the saved frame above it stands. */
  lemma CallLeaves(mem: seq<uint32>, c: Cpu, ret: uint32, below: seq<uint32>)
    requires HEADROOM <= c.sp <= |mem| <= 0x4000_0000 && 2 <= |below| && FRAME + |below| <= c.sp
    ensures Store(Entered(mem, c, ret), c.sp - FRAME - |below|, below) == Called(mem, c, below)
  {
    hide FrameImage;
    var image, arg := FrameImage(c), [ret, 4 * (c.sp - FRAME)];
    var a, b := Store(Entered(mem, c, ret), c.sp - FRAME - |below|, below), Called(mem, c, below);
    forall k | 0 <= k < |mem| ensures a[k] == b[k] {
      if c.sp - FRAME <= k < c.sp {
        assert (arg + image)[k - (c.sp - HEADROOM)] == image[k - (c.sp - FRAME)]
            == (below + image)[k - (c.sp - FRAME - |below|)];
      }
    }
  }

  /** The scheduler's argument, as the call finds it on the stack. */
  lemma EnteredArgument(mem: seq<uint32>, c: Cpu, ret: uint32)
    requires HEADROOM <= c.sp <= |mem| <= 0x4000_0000
    ensures Entered(mem, c, ret)[c.sp - HEADROOM + 1] == 4 * (c.sp - FRAME)
  {
    var words := [ret, 4 * (c.sp - FRAME)] + FrameImage(c);
    assert words[1] == 4 * (c.sp - FRAME);
  }
}
