/** Inter-process messages as a transition system: processes with inboxes, the threads they may
    block, the memory messages are copied to and from, and a step for each system call, input
    event and timer tick. */
module Ipc {
  import opened Bits
  import opened Messages
  import opened TaskRing

  const WORDS: nat := 0x4000_0000
  const MESSAGE_BYTES: nat := 16
  const INPUT_PID: uint32 := 1
  const FAILURE: uint32 := 0xFFFF_FFFF

  /** thread: the main thread's place in the task ring. */
  datatype Process = Process(pid: uint32, thread: nat, inbox: seq<Message>)

  /** procs in creation order; current: the current process, or -1; mem: memory in words;
      eax: what the last system call returned. */
  datatype World = World(procs: seq<Process>, current: int, nextPid: uint32, ring: Ring, mem: seq<uint32>, eax: uint32)

  predicate Shaped(w: World) {
    && WellFormed(w.ring) && |w.mem| == WORDS && -1 <= w.current < |w.procs|
    && forall p :: 0 <= p < |w.procs| ==> w.procs[p].thread < |w.ring.tasks|
  }

  /** is_valid_pointer. */
  predicate ValidPointer(ptr: uint32, size: uint32) {
    ptr != 0 && ptr % 4 == 0 && ptr >= 0x1000 && Wrap32(ptr + size) >= ptr
  }

  lemma ValidPointerFits(ptr: uint32)
    ensures ValidPointer(ptr, MESSAGE_BYTES) <==> ptr % 4 == 0 && 0x1000 <= ptr && ptr + 16 < TWO_32
    ensures ValidPointer(ptr, MESSAGE_BYTES) ==> ptr / 4 + 4 <= WORDS
  {
    if ptr + MESSAGE_BYTES >= TWO_32 {
      DivModUnique(ptr + MESSAGE_BYTES, TWO_32, 1, ptr + MESSAGE_BYTES - TWO_32);
    }
  }

  function MessageAt(mem: seq<uint32>, ptr: uint32): Message
    requires |mem| == WORDS && ptr / 4 + 4 <= WORDS
  {
    Message(mem[ptr / 4], mem[ptr / 4 + 1], mem[ptr / 4 + 2], mem[ptr / 4 + 3])
  }

  function StoreMessage(mem: seq<uint32>, ptr: uint32, msg: Message): (after: seq<uint32>)
    requires |mem| == WORDS && ptr / 4 + 4 <= WORDS
    ensures |after| == WORDS && MessageAt(after, ptr) == msg
  {
    mem[ptr / 4 := msg.sender][ptr / 4 + 1 := msg.kind][ptr / 4 + 2 := msg.data1][ptr / 4 + 3 := msg.data2]
  }

  /** process_find_by_pid from the p-th process on. */
  function FindPid(procs: seq<Process>, pid: uint32, p: nat): (i: int)
    requires p <= |procs|
    ensures i == -1 || (p <= i < |procs| && procs[i].pid == pid)
    decreases |procs| - p
  {
    if p == |procs| then -1 else if procs[p].pid == pid then p else FindPid(procs, pid, p + 1)
  }

  function SetThread(w: World, p: nat, state: State): (r: World)
    requires Shaped(w) && p < |w.procs|
    ensures Shaped(r)
  {
    var t := w.procs[p].thread;
    w.(ring := w.ring.(tasks := w.ring.tasks[t := w.ring.tasks[t].(state := state)]))
  }

  function ThreadState(w: World, p: nat): State
    requires Shaped(w) && p < |w.procs|
  {
    w.ring.tasks[w.procs[p].thread].state
  }

  function SetInbox(w: World, p: nat, inbox: seq<Message>): (r: World)
    requires Shaped(w) && p < |w.procs|
    ensures Shaped(r)
  {
    w.(procs := w.procs[p := w.procs[p].(inbox := inbox)])
  }

  /** A waiting main thread becomes ready. */
  function WakeThread(w: World, p: nat): (r: World)
    requires Shaped(w) && p < |w.procs|
    ensures Shaped(r)
  {
    if ThreadState(w, p) == Waiting then SetThread(w, p, Ready) else w
  }

  predicate Full(w: World, p: nat)
    requires p < |w.procs|
  {
    |w.procs[p].inbox| >= QUEUE_SIZE
  }

  function Deliver(w: World, p: nat, msg: Message): (r: World)
    requires Shaped(w) && p < |w.procs|
    ensures Shaped(r)
  {
    if Full(w, p) then w else SetInbox(w, p, w.procs[p].inbox + [msg])
  }

  function Return(w: World, status: int): (r: World)
    requires Shaped(w) && (status == 0 || status == -1)
    ensures Shaped(r)
  {
    w.(eax := if status == 0 then 0 else FAILURE)
  }

  function SenderPid(w: World): uint32
    requires Shaped(w)
  {
    if w.current >= 0 then w.procs[w.current].pid else 0
  }

  /** SYS_SEND. The sender's own copy of the message is stamped with its pid, even when the
      target's inbox turns out to be full. */
  function Send(w: World, target: uint32, ptr: uint32): (r: World)
    requires Shaped(w)
    ensures Shaped(r)
  {
    if !ValidPointer(ptr, MESSAGE_BYTES) then Return(w, -1) else
    ValidPointerFits(ptr);
    var p := FindPid(w.procs, target, 0);
    if p < 0 then Return(w, -1) else
    var stamped := w.(mem := w.mem[ptr / 4 := SenderPid(w)]);
    if Full(w, p) then Return(stamped, -1)
    else Return(WakeThread(Deliver(stamped, p, MessageAt(stamped.mem, ptr)), p), 0)
  }

  /** Taking the oldest message of the current process to memory. */
  function Take(w: World, ptr: uint32): (r: World)
    requires Shaped(w) && w.current >= 0 && w.procs[w.current].inbox != [] && ptr / 4 + 4 <= WORDS
    ensures Shaped(r)
  {
    var inbox := w.procs[w.current].inbox;
    SetInbox(w, w.current, inbox[1..]).(mem := StoreMessage(w.mem, ptr, inbox[0]))
  }

  /** SYS_RECV: with nothing to receive, the current process's main thread waits. */
  function Recv(w: World, ptr: uint32): (r: World)
    requires Shaped(w)
    ensures Shaped(r)
  {
    if !ValidPointer(ptr, MESSAGE_BYTES) || w.current < 0 then Return(w, -1) else
    ValidPointerFits(ptr);
    if w.procs[w.current].inbox != [] then Return(Take(w, ptr), 0)
    else Return(SetThread(w, w.current, Waiting), -1)
  }

  /** SYS_POLL: the same without waiting. */
  function Poll(w: World, ptr: uint32): (r: World)
    requires Shaped(w)
    ensures Shaped(r)
  {
    if !ValidPointer(ptr, MESSAGE_BYTES) || w.current < 0 then Return(w, -1) else
    ValidPointerFits(ptr);
    if w.procs[w.current].inbox != [] then Return(Take(w, ptr), 0) else Return(w, -1)
  }

  /** A kernel message to the input process, which is woken whether or not it fitted. */
  function Input(w: World, msg: Message): (r: World)
    requires Shaped(w)
    ensures Shaped(r)
  {
    var p := FindPid(w.procs, INPUT_PID, 0);
    if p < 0 then w else WakeThread(Deliver(w, p, msg), p)
  }

  function KeyMessage(kind: uint32, keycode: uint32): Message {
    Message(0, kind, keycode, 0)
  }

  /** `(x << 16) | (y & 0xFFFF)`. */
  function PackXY(x: uint32, y: uint32): (d: uint32)
    ensures d / TWO_16 == x % TWO_16 && d % TWO_16 == y % TWO_16
  {
    PackedXY(x, y);
    Or(Wrap32(x * TWO_16), And(y, 0xFFFF))
  }

  lemma PackedXY(x: uint32, y: uint32)
    ensures var d := Or(Wrap32(x * TWO_16), And(y, 0xFFFF));
            d < TWO_32 && d / TWO_16 == x % TWO_16 && d % TWO_16 == y % TWO_16
  {
    hide Or, And;
    Pow16();
    AndLow(y, 16);
    var high, low := x % TWO_16, y % TWO_16;
    DivModUnique(x * TWO_16, TWO_32, x / TWO_16, high * TWO_16);
    DivModUnique(high * TWO_16, TWO_16, high, 0);
    OrDisjoint(high * TWO_16, low, 16);
    DivModUnique(high * TWO_16 + low, TWO_16, high, low);
  }

  lemma Pow16()
    ensures Pow2(16) == TWO_16
  {
    Pow12();
    assert Pow2(14) == 0x4000;
  }

  function MouseMessage(kind: uint32, button: uint32, x: uint32, y: uint32): Message {
    Message(0, kind, button, PackXY(x, y))
  }

  /** The timer tick changes threads only. */
  function Timer(w: World, esp: uint32): (r: World)
    requires Shaped(w)
    ensures Shaped(r)
  {
    w.(ring := Tick(w.ring, esp))
  }

  /** process_create: a new process with a new task for its main thread. */
  function Spawn(w: World, esp: uint32): (r: World)
    requires Shaped(w)
    ensures Shaped(r)
  {
    w.(procs := w.procs + [Process(w.nextPid, |w.ring.tasks|, [])], nextPid := Wrap32(w.nextPid + 1),
       current := if w.procs == [] then 0 else w.current, ring := Create(w.ring, esp))
  }

  datatype Event =
    | SysSend(target: uint32, ptr: uint32)
    | SysRecv(ptr: uint32)
    | SysPoll(ptr: uint32)
    | Key(kind: uint32, keycode: uint32)
    | Mouse(kind: uint32, button: uint32, x: uint32, y: uint32)
    | TimerTick(esp: uint32)
    | NewProcess(esp: uint32)
    | UserCode(mem: seq<uint32>)

  function Step(w: World, e: Event): (r: World)
    requires Shaped(w)
    ensures Shaped(r)
  {
    match e
    case SysSend(target, ptr) => Send(w, target, ptr)
    case SysRecv(ptr) => Recv(w, ptr)
    case SysPoll(ptr) => Poll(w, ptr)
    case Key(kind, keycode) => Input(w, KeyMessage(kind, keycode))
    case Mouse(kind, button, x, y) => Input(w, MouseMessage(kind, button, x, y))
    case TimerTick(esp) => Timer(w, esp)
    case NewProcess(esp) => Spawn(w, esp)
    case UserCode(mem) => if |mem| == WORDS then w.(mem := mem) else w
  }
}
