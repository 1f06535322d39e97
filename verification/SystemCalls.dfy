/** Processes, their inboxes and threads as the kernel stores them, and the system calls and
    input events that pass messages between them. */
module SystemCalls {
  import opened Bits
  import opened Messages
  import opened TaskRing
  import opened TaskSystem
  import Ipc
  import Laws = IpcLaws

  class Process {
    const pid: uint32
    const mainThread: Task
    const inbox: MessageQueue
    var next: Process?

    constructor (pid: uint32, mainThread: Task, inbox: MessageQueue)
      ensures this.pid == pid && this.mainThread == mainThread && this.inbox == inbox && next == null
    {
      this.pid, this.mainThread, this.inbox, next := pid, mainThread, inbox, null;
    }
  }

  /** Inboxes are separate queues with separate buffers; threads are tasks of the ring. */
  ghost predicate Wired(ps: seq<Process>, threads: seq<nat>, ring: seq<Task>)
    reads set p | p in ps :: p.inbox
  {
    && |threads| == |ps|
    && (forall i :: 0 <= i < |ps| ==> ps[i].inbox.Valid())
    && (forall i, j :: 0 <= i < j < |ps| ==>
          ps[i].inbox != ps[j].inbox && ps[i].inbox.messages != ps[j].inbox.messages)
    && (forall i :: 0 <= i < |ps| ==> threads[i] < |ring| && ps[i].mainThread == ring[threads[i]])
  }

  ghost function ProcsOf(ps: seq<Process>, threads: seq<nat>): (r: seq<Ipc.Process>)
    requires |threads| == |ps| && forall p :: p in ps ==> p.inbox.Valid()
    reads set p | p in ps :: p.inbox, set p | p in ps :: p.inbox.messages
    ensures |r| == |ps|
    ensures forall i :: 0 <= i < |ps| ==> r[i] == Ipc.Process(ps[i].pid, threads[i], ps[i].inbox.Contents())
  {
    seq(|ps|, i requires 0 <= i < |ps| && |threads| == |ps| && ps[i].inbox.Valid()
              reads set p | p in ps :: p.inbox, set p | p in ps :: p.inbox.messages =>
      Ipc.Process(ps[i].pid, threads[i], ps[i].inbox.Contents()))
  }

  lemma WiredAppend(ps: seq<Process>, threads: seq<nat>, ring: seq<Task>, p: Process, t: nat)
    requires Wired(ps, threads, ring) && p.inbox.Valid()
    requires forall q :: q in ps ==> q.inbox != p.inbox && q.inbox.messages != p.inbox.messages
    requires t < |ring| && p.mainThread == ring[t]
    ensures Wired(ps + [p], threads + [t], ring)
    ensures ProcsOf(ps + [p], threads + [t]) == ProcsOf(ps, threads) + [Ipc.Process(p.pid, t, p.inbox.Contents())]
  {
    hide MessageQueue.Valid, MessageQueue.Contents, ProcsOf;
  }

  class Kernel {
    var listHead: Process?
    var current: Process?
    var nextPid: uint32
    var eax: uint32
    const tasks: TaskList
    const mem: array<uint32>
    /** The processes in list order, which of them is current, and their threads' ring places. */
    ghost var procs: seq<Process>
    ghost var place: int
    ghost var threads: seq<nat>

    ghost function Queues(): set<MessageQueue>
      reads this
    {
      set p | p in procs :: p.inbox
    }

    ghost function Buffers(): set<array<Message>>
      reads this
    {
      set p | p in procs :: p.inbox.messages
    }

    /** The process list is one cycle through every process. */
    ghost predicate Listed()
      reads this`listHead, this`procs, procs
    {
      && (listHead == null <==> procs == []) && (procs != [] ==> listHead == procs[0])
      && (forall i :: 0 <= i < |procs| ==> procs[i].next == procs[Following(i, |procs|)])
      && (forall i, j :: 0 <= i < j < |procs| ==> procs[i] != procs[j])
    }

    ghost predicate Valid()
      reads this, procs, Queues(), tasks, tasks.ring
    {
      && Listed() && tasks.Valid() && mem.Length == Ipc.WORDS
      && Wired(procs, threads, tasks.ring)
      && -1 <= place < |procs| && (place < 0 <==> current == null) && (place >= 0 ==> current == procs[place])
    }

    ghost function AbsProcs(): (ps: seq<Ipc.Process>)
      requires Valid()
      reads this, procs, Queues(), Buffers(), tasks, tasks.ring
      ensures |ps| == |procs|
    {
      ProcsOf(procs, threads)
    }

    ghost function Abs(): Ipc.World
      requires Valid()
      reads this, procs, Queues(), Buffers(), tasks, tasks.ring, mem
    {
      Ipc.World(AbsProcs(), place, nextPid, tasks.Abs(), mem[..], eax)
    }

    /** process_init, over an empty task list. */
    constructor (tasks: TaskList, mem: array<uint32>)
      requires tasks.Valid() && tasks.ring == [] && mem.Length == Ipc.WORDS
      ensures Valid() && this.tasks == tasks && this.mem == mem
      ensures procs == [] && place == -1 && nextPid == 0 && Laws.Inv(Abs())
    {
      this.tasks, this.mem := tasks, mem;
      listHead, current, nextPid, eax := null, null, 0, 0;
      procs, place, threads := [], -1, [];
      new;
      Laws.EmptyKeeps(Abs());
    }

    /** process_find_by_pid: once round the list. */
    method FindByPid(pid: uint32) returns (p: Process?, ghost i: int)
      requires Valid()
      ensures Valid() && Abs() == old(Abs()) && i == Ipc.FindPid(Abs().procs, pid, 0)
      ensures if i < 0 then p == null else p == procs[i]
    {
      if listHead == null {
        return null, -1;
      }
      p, i := listHead, 0;
      while true
        invariant 0 <= i < |procs| && p == procs[i]
        invariant Ipc.FindPid(AbsProcs(), pid, 0) == Ipc.FindPid(AbsProcs(), pid, i)
        decreases |procs| - i
      {
        if p.pid == pid {
          return;
        }
        p, i := p.next, i + 1;
        if p == listHead {
          break;
        }
      }
      return null, -1;
    }

    /** message_queue_enqueue on a process's inbox. */
    method Post(p: Process, ghost i: nat, msg: Message) returns (status: int)
      requires Valid() && i < |procs| && p == procs[i]
      modifies p.inbox, p.inbox.messages
      ensures Valid() && tasks.Abs() == old(tasks.Abs())
      ensures status == if Ipc.Full(old(Abs()), i) then -1 else 0
      ensures AbsProcs()
           == if status == 0
              then old(AbsProcs())[i := old(AbsProcs())[i].(inbox := old(AbsProcs())[i].inbox + [msg])]
                            else old(AbsProcs())
    {
      hide ProcsOf, MessageQueue.Contents, MessageQueue.Valid, TaskList.Abs, TaskList.Valid, Listed;
      status := p.inbox.Enqueue(msg);
    }

    /** message_queue_dequeue on a process's inbox. */
    method Fetch(p: Process, ghost i: nat) returns (status: int, msg: Message)
      requires Valid() && i < |procs| && p == procs[i]
      modifies p.inbox
      ensures Valid() && tasks.Abs() == old(tasks.Abs())
      ensures status == if old(AbsProcs())[i].inbox == [] then -1 else 0
      ensures status == 0 ==>
                && msg == old(AbsProcs())[i].inbox[0]
                && AbsProcs() == old(AbsProcs())[i := old(AbsProcs())[i].(inbox := old(AbsProcs())[i].inbox[1..])]
      ensures status != 0 ==> AbsProcs() == old(AbsProcs())
    {
      hide ProcsOf, MessageQueue.Contents, MessageQueue.Valid, TaskList.Abs, TaskList.Valid, Listed;
      status, msg := p.inbox.Dequeue();
    }

    lemma AbsIsShaped()
      requires Valid()
      ensures Ipc.Shaped(Abs())
    {
    }

    method SetThread(p: Process, ghost i: nat, state: State)
      requires Valid() && i < |procs| && p == procs[i] && Ipc.Shaped(Abs())
      modifies p.mainThread`state
      ensures Valid() && Abs() == Ipc.SetThread(old(Abs()), i, state)
    {
      hide MessageQueue.Valid, MessageQueue.Contents, Listed, Queues, Buffers, ProcsOf, Ipc.Shaped;
      ghost var before := tasks.Abs();
      ghost var t := threads[i];
      p.mainThread.state := state;
      assert tasks.Abs().tasks == before.tasks[t := before.tasks[t].(state := state)];
      assert AbsProcs() == old(AbsProcs());
    }

    method WakeIfWaiting(p: Process, ghost i: nat)
      requires Valid() && i < |procs| && p == procs[i] && Ipc.Shaped(Abs())
      modifies p.mainThread`state
      ensures Valid() && Abs() == Ipc.WakeThread(old(Abs()), i)
    {
      hide Ipc.SetThread;
      if p.mainThread.state == Waiting {
        SetThread(p, i, Ready);
      }
    }

    /** `msg->sender_pid = current ? current->pid : 0`. */
    method StampSender(ptr: uint32)
      requires Valid() && Ipc.Shaped(Abs()) && ptr / 4 + 4 <= Ipc.WORDS
      modifies mem
      ensures Valid() && Ipc.Shaped(Abs())
      ensures Abs() == old(Abs()).(mem := old(Abs()).mem[ptr / 4 := Ipc.SenderPid(old(Abs()))])
    {
      ghost var words, ps, ring := mem[..], AbsProcs(), tasks.Abs();
      mem[ptr / 4] := if current != null then current.pid else 0;
      assert AbsProcs() == ps && tasks.Abs() == ring;
    }

    method LoadMessage(ptr: uint32) returns (msg: Message)
      requires Valid() && ptr / 4 + 4 <= Ipc.WORDS
      ensures Valid() && Abs() == old(Abs()) && msg == Ipc.MessageAt(mem[..], ptr)
    {
      var a: nat := ptr / 4;
      msg := Message(mem[a], mem[a + 1], mem[a + 2], mem[a + 3]);
    }

    method StoreMessage(ptr: uint32, msg: Message)
      requires mem.Length == Ipc.WORDS && ptr / 4 + 4 <= Ipc.WORDS
      modifies mem
      ensures mem[..] == Ipc.StoreMessage(old(mem[..]), ptr, msg)
    {
      var a: nat := ptr / 4;
      mem[a] := msg.sender;
      mem[a + 1] := msg.kind;
      mem[a + 2] := msg.data1;
      mem[a + 3] := msg.data2;
    }

    /** Sets the result register. */
    method SetResult(status: int)
      requires Valid() && Ipc.Shaped(Abs()) && (status == 0 || status == -1)
      modifies this`eax
      ensures Valid() && Abs() == Ipc.Return(old(Abs()), status)
    {
      hide ProcsOf, MessageQueue.Contents, MessageQueue.Valid, TaskList.Abs, TaskList.Valid;
      ghost var ps, ring := AbsProcs(), tasks.Abs();
      eax := if status == 0 then 0 else Ipc.FAILURE;
      assert AbsProcs() == ps && tasks.Abs() == ring;
    }

    /** Delivery to one process: queued unless its inbox is full. */
    method DeliverTo(p: Process, ghost i: nat, msg: Message) returns (status: int)
      requires Valid() && i < |procs| && p == procs[i] && Ipc.Shaped(Abs())
      modifies p.inbox, p.inbox.messages
      ensures Valid() && Abs() == Ipc.Deliver(old(Abs()), i, msg)
      ensures status == if Ipc.Full(old(Abs()), i) then -1 else 0
    {
      status := Post(p, i, msg);
    }

    lemma Owned(i: nat)
      requires Valid() && i < |procs|
      ensures procs[i].inbox in Queues() && procs[i].inbox.messages in Buffers()
      ensures procs[i].mainThread in tasks.ring && |AbsProcs()| == |procs|
    {
    }

    /** Delivery and, if it was accepted, the wake-up. */
    method DeliverAndWake(p: Process, ghost i: nat, msg: Message) returns (status: int)
      requires Valid() && i < |procs| && p == procs[i] && Ipc.Shaped(Abs())
      modifies p.inbox, p.inbox.messages, p.mainThread`state
      ensures Valid()
      ensures status == if Ipc.Full(old(Abs()), i) then -1 else 0
      ensures Abs() == if status == 0 then Ipc.WakeThread(Ipc.Deliver(old(Abs()), i, msg), i) else old(Abs())
    {
      hide Valid, Abs, Ipc.WakeThread;
      status := DeliverTo(p, i, msg);
      if status == 0 {
        WakeIfWaiting(p, i);
      }
    }

    method SysSend(target: uint32, ptr: uint32)
      requires Valid()
      modifies this`eax, mem, Queues(), Buffers(), tasks.ring
      ensures Valid() && Abs() == Ipc.Send(old(Abs()), target, ptr)
    {
      AbsIsShaped();
      if !Ipc.ValidPointer(ptr, Ipc.MESSAGE_BYTES) {
        SetResult(-1);
        return;
      }
      SendChecked(target, ptr);
    }

    /** SYS_SEND with a pointer that passed the check. */
    method SendChecked(target: uint32, ptr: uint32)
      requires Valid() && Ipc.ValidPointer(ptr, Ipc.MESSAGE_BYTES) && Ipc.Shaped(Abs())
      modifies this`eax, mem, Queues(), Buffers(), tasks.ring
      ensures Valid() && Abs() == Ipc.Send(old(Abs()), target, ptr)
    {
      hide Valid, Abs, Queues, Buffers, AbsProcs, Ipc.Shaped, Ipc.ValidPointer;
      hide Ipc.Deliver, Ipc.WakeThread, Ipc.MessageAt, Ipc.FindPid, Ipc.SenderPid, Ipc.Return;
      Ipc.ValidPointerFits(ptr);
      AbsFields();
      var p, i := FindByPid(target);
      if p == null {
        SetResult(-1);
        return;
      }
      Owned(i);
      StampSender(ptr);
      AbsFields();
      var msg := LoadMessage(ptr);
      var status := DeliverAndWake(p, i, msg);
      SetResult(status);
    }

    lemma AbsFields()
      requires Valid()
      ensures Abs().procs == AbsProcs() && Abs().mem == mem[..] && mem.Length == Ipc.WORDS && |AbsProcs()| == |procs|
      ensures Abs().current == place && (place < 0 <==> current == null)
      ensures 0 <= place ==> place < |procs| && current == procs[place]
    {
    }

    /** Tries to hand the current process its oldest message. */
    method Receive(ptr: uint32) returns (status: int)
      requires Valid() && Ipc.Shaped(Abs()) && current != null && ptr / 4 + 4 <= Ipc.WORDS
      modifies mem, current.inbox
      ensures Valid() && Ipc.Shaped(Abs())
      ensures status == if old(Abs().procs[place].inbox) != [] then 0 else -1
      ensures Abs() == if status == 0 then Ipc.Take(old(Abs()), ptr) else old(Abs())
    {
      hide Ipc.StoreMessage;
      var msg;
      status, msg := FetchFor(current, place);
      if status == 0 {
        Copy(ptr, msg);
      }
    }

    method FetchFor(p: Process, ghost i: nat) returns (status: int, msg: Message)
      requires Valid() && Ipc.Shaped(Abs()) && i < |procs| && p == procs[i]
      modifies p.inbox
      ensures Valid() && Ipc.Shaped(Abs())
      ensures status == if old(Abs().procs[i].inbox) == [] then -1 else 0
      ensures status == 0 ==> msg == old(Abs().procs[i].inbox)[0]
      ensures Abs() == if status == 0 then Ipc.SetInbox(old(Abs()), i, old(Abs().procs[i].inbox)[1..]) else old(Abs())
    {
      status, msg := Fetch(p, i);
      AbsIsShaped();
    }

    method Copy(ptr: uint32, msg: Message)
      requires Valid() && Ipc.Shaped(Abs()) && ptr / 4 + 4 <= Ipc.WORDS
      modifies mem
      ensures Valid() && Ipc.Shaped(Abs()) && Abs() == old(Abs()).(mem := Ipc.StoreMessage(old(Abs()).mem, ptr, msg))
    {
      hide Ipc.StoreMessage;
      ghost var ps, ring := AbsProcs(), tasks.Abs();
      StoreMessage(ptr, msg);
      assert AbsProcs() == ps && tasks.Abs() == ring;
      AbsIsShaped();
    }

    method SysRecv(ptr: uint32)
      requires Valid()
      modifies this`eax, mem, Queues(), tasks.ring
      ensures Valid() && Abs() == Ipc.Recv(old(Abs()), ptr)
    {
      AbsIsShaped();
      if !Ipc.ValidPointer(ptr, Ipc.MESSAGE_BYTES) || current == null {
        SetResult(-1);
        return;
      }
      RecvChecked(ptr);
    }

    method RecvChecked(ptr: uint32)
      requires Valid() && Ipc.Shaped(Abs()) && Ipc.ValidPointer(ptr, Ipc.MESSAGE_BYTES) && current != null
      modifies this`eax, mem, Queues(), tasks.ring
      ensures Valid() && Abs() == Ipc.Recv(old(Abs()), ptr)
    {
      hide Valid, Abs, Queues, AbsProcs, Ipc.ValidPointer, Ipc.Take, Ipc.SetThread, Ipc.Return, Ipc.Shaped;
      Ipc.ValidPointerFits(ptr);
      AbsFields();
      Owned(place);
      var status := Receive(ptr);
      if status == 0 {
        SetResult(0);
      } else {
        SetThread(current, place, Waiting);
        SetResult(-1);
      }
    }

    method SysPoll(ptr: uint32)
      requires Valid()
      modifies this`eax, mem, Queues()
      ensures Valid() && Abs() == Ipc.Poll(old(Abs()), ptr)
    {
      AbsIsShaped();
      if !Ipc.ValidPointer(ptr, Ipc.MESSAGE_BYTES) || current == null {
        SetResult(-1);
        return;
      }
      PollChecked(ptr);
    }

    method PollChecked(ptr: uint32)
      requires Valid() && Ipc.Shaped(Abs()) && Ipc.ValidPointer(ptr, Ipc.MESSAGE_BYTES) && current != null
      modifies this`eax, mem, Queues()
      ensures Valid() && Abs() == Ipc.Poll(old(Abs()), ptr)
    {
      hide Valid, Abs, Queues, AbsProcs, Ipc.ValidPointer, Ipc.Take, Ipc.Return, Ipc.Shaped;
      Ipc.ValidPointerFits(ptr);
      AbsFields();
      Owned(place);
      var status := Receive(ptr);
      SetResult(status);
    }

    /** A kernel message for the input process; it is woken even when its inbox is full. */
    method SendInput(msg: Message)
      requires Valid()
      modifies Queues(), Buffers(), tasks.ring
      ensures Valid() && Abs() == Ipc.Input(old(Abs()), msg)
    {
      hide Valid, Abs, Queues, Buffers, AbsProcs, Ipc.Deliver, Ipc.WakeThread, Ipc.FindPid, Ipc.Shaped;
      AbsIsShaped();
      AbsFields();
      var p, i := FindByPid(Ipc.INPUT_PID);
      if p == null {
        return;
      }
      Owned(i);
      var _ := DeliverTo(p, i, msg);
      AbsIsShaped();
      WakeIfWaiting(p, i);
    }

    method SendKeyEvent(kind: uint32, keycode: uint32)
      requires Valid()
      modifies Queues(), Buffers(), tasks.ring
      ensures Valid() && Abs() == Ipc.Input(old(Abs()), Ipc.KeyMessage(kind, keycode))
    {
      hide Ipc.Input, Abs;
      SendInput(Message(0, kind, keycode, 0));
    }

    method SendMouseEvent(kind: uint32, button: uint32, x: uint32, y: uint32)
      requires Valid()
      modifies Queues(), Buffers(), tasks.ring
      ensures Valid() && Abs() == Ipc.Input(old(Abs()), Ipc.MouseMessage(kind, button, x, y))
    {
      hide Ipc.Input, Abs;
      SendInput(Message(0, kind, button, Ipc.PackXY(x, y)));
    }

    /** The timer tick as processes see it. */
    method TimerTick(esp: uint32) returns (resumed: uint32)
      requires Valid()
      modifies tasks`current, tasks`started, tasks`place, tasks.ring
      ensures Valid() && Abs() == Ipc.Timer(old(Abs()), esp)
    {
      hide Tick, Resumed, ProcsOf, MessageQueue.Contents, MessageQueue.Valid, TaskList.Abs, TaskList.Valid, Listed;
      ghost var ps := AbsProcs();
      resumed := tasks.Tick(esp);
      assert AbsProcs() == ps;
    }

    /** process_create, given the stack pointer task_create prepared. */
    method CreateProcess(esp: uint32) returns (p: Process)
      requires Valid()
      modifies this, procs, tasks, tasks.ring
      ensures Valid() && procs == old(procs) + [p]
      ensures Abs() == Ipc.Spawn(old(Abs()), esp)
    {
      hide Create, Valid, AbsProcs, Queues, Buffers, MessageQueue.Valid, MessageQueue.Contents,
        TaskList.Valid, TaskList.Abs;
      p := NewEntry(esp);
      RingSize();
      AddThread(p.mainThread);
      Register(p, |tasks.ring| - 1);
    }

    lemma RingSize()
      requires Valid()
      ensures |tasks.Abs().tasks| == |tasks.ring|
    {
    }

    /** The process structure with an empty inbox and a new task, before it is listed. */
    method NewEntry(esp: uint32) returns (p: Process)
      requires Valid()
      ensures Valid() && Abs() == old(Abs()) && AbsProcs() == old(AbsProcs()) && tasks.Abs() == old(tasks.Abs())
      ensures fresh(p) && p.pid == nextPid && p !in procs
      ensures p.inbox.Valid() && p.inbox.Contents() == []
      ensures fresh(p.inbox) && fresh(p.inbox.messages) && p.inbox !in Queues() && p.inbox.messages !in Buffers()
      ensures fresh(p.mainThread) && p.mainThread !in tasks.ring
      ensures p.mainThread.state == Ready && p.mainThread.esp == esp
    {
      var inbox := new MessageQueue();
      var task := new Task(esp);
      p := new Process(nextPid, task, inbox);
    }

    method AddThread(task: Task)
      requires Valid() && task !in tasks.ring && task.state == Ready
      modifies tasks, tasks.ring, task
      ensures Valid() && tasks.ring == old(tasks.ring) + [task]
      ensures AbsProcs() == old(AbsProcs()) && tasks.Abs() == Create(old(tasks.Abs()), old(task.esp))
    {
      hide Create, ProcsOf, MessageQueue.Valid, MessageQueue.Contents, TaskList.Abs, Listed;
      tasks.Append(task);
    }

    /** A complete process, not yet listed, gets the next pid and its place in the list. */
    method Register(p: Process, ghost thread: nat)
      requires Valid() && p !in procs && p.pid == nextPid
      requires p.inbox.Valid() && p.inbox.Contents() == [] && p.inbox !in Queues() && p.inbox.messages !in Buffers()
      requires thread < |tasks.ring| && p.mainThread == tasks.ring[thread]
      modifies this, procs, p
      ensures Valid() && procs == old(procs) + [p] && tasks.Abs() == old(tasks.Abs())
      ensures AbsProcs() == old(AbsProcs()) + [Ipc.Process(old(nextPid), thread, [])]
      ensures nextPid == Wrap32(old(nextPid) + 1) && eax == old(eax)
      ensures place == if old(procs) == [] then 0 else old(place)
    {
      hide MessageQueue.Valid, MessageQueue.Contents, TaskList.Valid, TaskList.Abs, Listed, Wired, ProcsOf,
        Queues, Buffers;
      InboxIsNew(p);
      WiredAppend(procs, threads, tasks.ring, p, thread);
      nextPid := Wrap32(nextPid + 1);
      threads := threads + [thread];
      Link(p);
    }

    lemma InboxIsNew(p: Process)
      requires p.inbox !in Queues() && p.inbox.messages !in Buffers()
      ensures forall q :: q in procs ==> q.inbox != p.inbox && q.inbox.messages != p.inbox.messages
    {
      forall q | q in procs ensures q.inbox in Queues() && q.inbox.messages in Buffers() {
      }
    }

    /** The list insertion of process_create. */
    method Link(p: Process)
      requires Listed() && p !in procs
      requires -1 <= place < |procs| && (place < 0 <==> current == null) && (place >= 0 ==> current == procs[place])
      modifies this`listHead, this`current, this`place, this`procs, procs, p
      ensures Listed() && procs == old(procs) + [p]
      ensures place == if old(procs) == [] then 0 else old(place)
      ensures (place < 0 <==> current == null) && (place >= 0 ==> current == procs[place])
    {
      if listHead == null {
        listHead := p;
        p.next := p;
        current, place := p, 0;
      } else {
        var last := listHead;
        ghost var i := 0;
        while last.next != listHead
          invariant 0 <= i < |procs| && last == procs[i]
          decreases |procs| - i
        {
          last, i := last.next, i + 1;
        }
        assert i == |procs| - 1;
        last.next := p;
        p.next := listHead;
      }
      procs := procs + [p];
    }
  }
}
