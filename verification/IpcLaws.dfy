/** What every interleaving of system calls, input events, timer ticks and user code keeps. */
module IpcLaws {
  import opened Bits
  import opened Messages
  import opened TaskRing
  import opened Ipc

  /** Processes have distinct threads and distinct, already issued pids; no inbox is over-full;
      and no process waits with mail in its inbox. */
  ghost predicate Inv(w: World) {
    && Shaped(w)
    && (w.procs == [] ==> w.current == -1)
    && (forall p, q :: 0 <= p < q < |w.procs| ==>
          w.procs[p].thread != w.procs[q].thread && w.procs[p].pid != w.procs[q].pid)
    && (forall p :: 0 <= p < |w.procs| ==> w.procs[p].pid < w.nextPid && |w.procs[p].inbox| <= QUEUE_SIZE)
    && NoLostWakeup(w)
  }

  /** A process whose main thread waits has an empty inbox. */
  ghost predicate NoLostWakeup(w: World)
    requires Shaped(w)
  {
    forall p :: 0 <= p < |w.procs| && ThreadState(w, p) == Waiting ==> w.procs[p].inbox == []
  }

  /** Before any process exists. */
  lemma EmptyKeeps(w: World)
    requires Shaped(w) && w.procs == [] && w.current == -1
    ensures Inv(w)
  {
  }

  lemma DeliverKeeps(w: World, p: nat, msg: Message)
    requires Inv(w) && p < |w.procs| && !Full(w, p)
    ensures Inv(WakeThread(Deliver(w, p, msg), p))
  {
    var d := Deliver(w, p, msg);
    var r := WakeThread(d, p);
    forall q | 0 <= q < |w.procs| && ThreadState(r, q) == Waiting ensures r.procs[q].inbox == [] {
      if q != p {
        assert w.procs[q].thread != w.procs[p].thread;
        assert ThreadState(w, q) == Waiting;
      }
    }
  }

  lemma WakeKeeps(w: World, p: nat)
    requires Inv(w) && p < |w.procs|
    ensures Inv(WakeThread(w, p))
  {
    forall q | 0 <= q < |w.procs| && ThreadState(WakeThread(w, p), q) == Waiting ensures w.procs[q].inbox == [] {
      assert ThreadState(w, q) == Waiting;
    }
  }

  lemma TakeKeeps(w: World, ptr: uint32)
    requires Inv(w) && w.current >= 0 && w.procs[w.current].inbox != [] && ptr / 4 + 4 <= WORDS
    ensures Inv(Take(w, ptr))
  {
    var r := Take(w, ptr);
    forall q | 0 <= q < |w.procs| && ThreadState(r, q) == Waiting ensures r.procs[q].inbox == [] {
      assert ThreadState(w, q) == Waiting;
    }
  }

  lemma WaitKeeps(w: World)
    requires Inv(w) && w.current >= 0 && w.procs[w.current].inbox == []
    ensures Inv(SetThread(w, w.current, Waiting))
  {
    var r := SetThread(w, w.current, Waiting);
    forall q | 0 <= q < |w.procs| && ThreadState(r, q) == Waiting ensures r.procs[q].inbox == [] {
      if q != w.current {
        assert w.procs[q].thread != w.procs[w.current].thread;
        assert ThreadState(w, q) == Waiting;
      }
    }
  }

  lemma MemKeeps(w: World, mem: seq<uint32>, eax: uint32)
    requires Inv(w) && |mem| == WORDS
    ensures Inv(w.(mem := mem, eax := eax))
  {
    var r := w.(mem := mem, eax := eax);
    assert forall q :: 0 <= q < |w.procs| ==> ThreadState(r, q) == ThreadState(w, q);
  }

  lemma SendKeeps(w: World, target: uint32, ptr: uint32)
    requires Inv(w)
    ensures Inv(Send(w, target, ptr))
  {
    hide Inv, WakeThread, MessageAt;
    InvShaped(w);
    MemKeeps(w, w.mem, FAILURE);
    var p := FindPid(w.procs, target, 0);
    if ValidPointer(ptr, MESSAGE_BYTES) && p >= 0 {
      ValidPointerFits(ptr);
      var mem := w.mem[ptr / 4 := SenderPid(w)];
      var stamped := w.(mem := mem);
      MemKeeps(w, mem, w.eax);
      MemKeeps(w, mem, FAILURE);
      if !Full(w, p) {
        DeliverKeeps(stamped, p, MessageAt(mem, ptr));
        var r := WakeThread(Deliver(stamped, p, MessageAt(mem, ptr)), p);
        InvShaped(r);
        MemKeeps(r, r.mem, 0);
      }
    }
  }

  lemma InvShaped(w: World)
    requires Inv(w)
    ensures Shaped(w)
  {
  }

  lemma RecvKeeps(w: World, ptr: uint32)
    requires Inv(w)
    ensures Inv(Recv(w, ptr)) && Inv(Poll(w, ptr))
  {
    hide Inv, Take, SetThread;
    InvShaped(w);
    MemKeeps(w, w.mem, FAILURE);
    if ValidPointer(ptr, MESSAGE_BYTES) && w.current >= 0 {
      ValidPointerFits(ptr);
      if w.procs[w.current].inbox != [] {
        TakeKeeps(w, ptr);
        MemKeeps(Take(w, ptr), Take(w, ptr).mem, 0);
      } else {
        WaitKeeps(w);
        var r := SetThread(w, w.current, Waiting);
        MemKeeps(r, r.mem, FAILURE);
      }
    }
  }

  lemma InputKeeps(w: World, msg: Message)
    requires Inv(w)
    ensures Inv(Input(w, msg))
  {
    hide Inv, WakeThread;
    InvShaped(w);
    var p := FindPid(w.procs, INPUT_PID, 0);
    if p >= 0 {
      if Full(w, p) { WakeKeeps(w, p); } else { DeliverKeeps(w, p, msg); }
    }
  }

  /** A tick puts no thread into the waiting state. */
  lemma TickNeverWaits(r: Ring, esp: uint32, t: nat)
    requires WellFormed(r) && t < |r.tasks| && Tick(r, esp).tasks[t].state == Waiting
    ensures r.tasks[t].state == Waiting
  {
    if |r.tasks| > 1 && r.started { TickStates(r, esp, t); }
  }

  lemma TimerKeeps(w: World, esp: uint32)
    requires Inv(w)
    ensures Inv(Timer(w, esp))
  {
    hide Tick;
    var r := Timer(w, esp);
    forall q | 0 <= q < |w.procs| && ThreadState(r, q) == Waiting ensures w.procs[q].inbox == [] {
      TickNeverWaits(w.ring, esp, w.procs[q].thread);
      assert ThreadState(w, q) == Waiting;
    }
  }

  lemma SpawnKeeps(w: World, esp: uint32)
    requires Inv(w) && w.nextPid + 1 < TWO_32
    ensures Inv(Spawn(w, esp))
  {
    var r := Spawn(w, esp);
    forall q | 0 <= q < |w.procs| ensures ThreadState(r, q) == ThreadState(w, q) {
    }
  }

  /** Pids are unique only until the 32-bit counter wraps. */
  predicate Lawful(w: World, e: Event) {
    e.NewProcess? ==> w.nextPid + 1 < TWO_32
  }

  /** No lost wake-up, whatever the interleaving. */
  lemma StepKeeps(w: World, e: Event)
    requires Inv(w) && Lawful(w, e)
    ensures Inv(Step(w, e))
  {
    hide Inv, Send, Recv, Poll, Input, Timer, Spawn;
    match e
    case SysSend(target, ptr) => SendKeeps(w, target, ptr);
    case SysRecv(ptr) => RecvKeeps(w, ptr);
    case SysPoll(ptr) => RecvKeeps(w, ptr);
    case Key(kind, keycode) => InputKeeps(w, KeyMessage(kind, keycode));
    case Mouse(kind, button, x, y) => InputKeeps(w, MouseMessage(kind, button, x, y));
    case TimerTick(esp) => TimerKeeps(w, esp);
    case NewProcess(esp) => SpawnKeeps(w, esp);
    case UserCode(mem) => if |mem| == WORDS { MemKeeps(w, mem, w.eax); }
  }

  // ---- Conservation and order of messages ----

  /** Two coordinates in one word, each modulo 2^16. */
  function Packed(x: uint32, y: uint32): uint32 {
    x % TWO_16 * TWO_16 + y % TWO_16
  }

  lemma PackXYIs(x: uint32, y: uint32)
    ensures PackXY(x, y) == Packed(x, y)
  {
    hide Or, And;
  }

  /** The message, if any, that a step puts in process p's inbox: a system call delivers the
      words at the pointer under the current process's pid, an input event comes from pid 0. */
  ghost function Accepted(w: World, e: Event, p: nat): seq<Message>
    requires Shaped(w) && p < |w.procs|
  {
    match e
    case SysSend(target, ptr) =>
      if ValidPointer(ptr, MESSAGE_BYTES) && FindPid(w.procs, target, 0) == p && |w.procs[p].inbox| < 16 then
        ValidPointerFits(ptr);
        [MessageAt(w.mem, ptr).(sender := SenderPid(w))]
      else []
    case Key(kind, keycode) =>
      if FindPid(w.procs, 1, 0) == p && |w.procs[p].inbox| < 16 then [Message(0, kind, keycode, 0)] else []
    case Mouse(kind, button, x, y) =>
      if FindPid(w.procs, 1, 0) == p && |w.procs[p].inbox| < 16 then [Message(0, kind, button, Packed(x, y))]
      else []
    case _ => []
  }

  /** The message, if any, that a step hands to process p, as found in memory afterwards. */
  ghost function Received(w: World, e: Event, p: nat): seq<Message>
    requires Shaped(w) && p < |w.procs|
  {
    if (e.SysRecv? || e.SysPoll?) && ValidPointer(e.ptr, MESSAGE_BYTES) && p == w.current && w.procs[p].inbox != [] then
      ValidPointerFits(e.ptr);
      [MessageAt(Step(w, e).mem, e.ptr)]
    else []
  }

  lemma StepConserves(w: World, e: Event, p: nat)
    requires Inv(w) && p < |w.procs|
    ensures p < |Step(w, e).procs| && Step(w, e).procs[p].pid == w.procs[p].pid
    ensures w.procs[p].inbox + Accepted(w, e, p) == Received(w, e, p) + Step(w, e).procs[p].inbox
  {
    hide Inv, Step, Accepted, Received;
    InvShaped(w);
    if e.SysSend? {
      SendIsOneStep(w, e, p);
    } else if e.SysRecv? || e.SysPoll? {
      ReceiveConserves(w, e, p);
    } else if e.Key? || e.Mouse? {
      InputConserves(w, e, p);
    } else {
      OthersConserve(w, e, p);
    }
  }

  lemma SendIsOneStep(w: World, e: Event, p: nat)
    requires Shaped(w) && p < |w.procs| && e.SysSend?
    ensures p < |Step(w, e).procs| && Step(w, e).procs[p].pid == w.procs[p].pid
    ensures w.procs[p].inbox + Accepted(w, e, p) == Received(w, e, p) + Step(w, e).procs[p].inbox
  {
    hide Send, Accepted;
    SendConserves(w, e.target, e.ptr, p);
    assert [] + Step(w, e).procs[p].inbox == Step(w, e).procs[p].inbox;
  }

  lemma ReceiveConserves(w: World, e: Event, p: nat)
    requires Shaped(w) && p < |w.procs| && (e.SysRecv? || e.SysPoll?)
    ensures p < |Step(w, e).procs| && Step(w, e).procs[p].pid == w.procs[p].pid
    ensures w.procs[p].inbox + Accepted(w, e, p) == Received(w, e, p) + Step(w, e).procs[p].inbox
  {
    hide StoreMessage, FindPid, ThreadState, MessageAt;
    assert w.procs[p].inbox + [] == w.procs[p].inbox;
    if p == w.current && w.procs[p].inbox != [] {
      assert w.procs[p].inbox == [w.procs[p].inbox[0]] + w.procs[p].inbox[1..];
    }
  }

  lemma InputConserves(w: World, e: Event, p: nat)
    requires Shaped(w) && p < |w.procs| && (e.Key? || e.Mouse?)
    ensures p < |Step(w, e).procs| && Step(w, e).procs[p].pid == w.procs[p].pid
    ensures w.procs[p].inbox + Accepted(w, e, p) == Received(w, e, p) + Step(w, e).procs[p].inbox
  {
    hide FindPid, ThreadState, PackXY;
    if e.Mouse? { PackXYIs(e.x, e.y); }
  }

  lemma OthersConserve(w: World, e: Event, p: nat)
    requires Shaped(w) && p < |w.procs| && (e.TimerTick? || e.NewProcess? || e.UserCode?)
    ensures p < |Step(w, e).procs| && Step(w, e).procs[p].pid == w.procs[p].pid
    ensures w.procs[p].inbox + Accepted(w, e, p) == Received(w, e, p) + Step(w, e).procs[p].inbox
  {
    hide Tick, Create;
  }

  lemma SendConserves(w: World, target: uint32, ptr: uint32, p: nat)
    requires Shaped(w) && p < |w.procs|
    ensures var r := Send(w, target, ptr);
            && |r.procs| == |w.procs| && r.procs[p].pid == w.procs[p].pid
            && w.procs[p].inbox + Accepted(w, SysSend(target, ptr), p) == r.procs[p].inbox
  {
    hide MessageAt;
    if ValidPointer(ptr, MESSAGE_BYTES) {
      ValidPointerFits(ptr);
      StampedMessage(w, ptr);
    }
  }

  /** What is delivered is what lies at the pointer once the sender's pid has been written there. */
  lemma StampedMessage(w: World, ptr: uint32)
    requires Shaped(w) && ptr / 4 + 4 <= WORDS
    ensures MessageAt(w.mem[ptr / 4 := SenderPid(w)], ptr) == MessageAt(w.mem, ptr).(sender := SenderPid(w))
  {
  }

  /** eax says whether a send was accepted or a receive delivered. */
  lemma ResultTellsOutcome(w: World, e: Event, p: nat)
    requires Inv(w) && p < |w.procs|
    ensures e.SysSend? && w.procs[p].pid == e.target ==> (Step(w, e).eax == 0 <==> Accepted(w, e, p) != [])
    ensures (e.SysRecv? || e.SysPoll?) && p == w.current ==> (Step(w, e).eax == 0 <==> Received(w, e, p) != [])
  {
    hide Tick, StoreMessage;
    if e.SysSend? && w.procs[p].pid == e.target { PidFinds(w, p); }
  }

  /** A blocking receive leaves the current process's thread waiting exactly when that process had
      nothing to receive; a poll never makes it wait. */
  lemma RecvWaitsIffEmpty(w: World, ptr: uint32)
    requires Inv(w) && w.current >= 0 && ValidPointer(ptr, MESSAGE_BYTES)
    ensures ThreadState(Recv(w, ptr), w.current) == Waiting <==> w.procs[w.current].inbox == []
    ensures Poll(w, ptr).ring == w.ring
  {
  }

  /** A process that a message was accepted for is not left waiting. */
  lemma DeliveryWakes(w: World, e: Event, p: nat)
    requires Inv(w) && Lawful(w, e) && p < |w.procs| && Accepted(w, e, p) != []
    ensures p < |Step(w, e).procs| && ThreadState(Step(w, e), p) != Waiting
  {
    hide Step, Accepted, Received, Lawful;
    StepKeeps(w, e);
    StepConserves(w, e, p);
    NothingReceived(w, e, p);
  }

  lemma NothingReceived(w: World, e: Event, p: nat)
    requires Shaped(w) && p < |w.procs| && Accepted(w, e, p) != []
    ensures Received(w, e, p) == []
  {
  }

  /** A system call writes the four words of the message at its pointer and no others; a send writes
      the sender's word alone. */
  lemma CallsWriteOnlyTheMessage(w: World, e: Event, a: nat)
    requires Shaped(w) && a < WORDS && (e.SysSend? || e.SysRecv? || e.SysPoll?)
    requires a < e.ptr / 4 || (if e.SysSend? then e.ptr / 4 < a else e.ptr / 4 + 4 <= a)
    ensures Step(w, e).mem[a] == w.mem[a]
  {
    hide FindPid;
  }

  /** A receive or poll that returns anything but 0 leaves memory and every inbox as they were. One that
      returns 0 puts the oldest message's four words at the pointer and takes it from the inbox. */
  lemma ReceiveStores(w: World, e: Event)
    requires Shaped(w) && (e.SysRecv? || e.SysPoll?)
    ensures var r, a := Step(w, e), e.ptr / 4;
            && (r.eax == 0 || r.eax == 0xFFFF_FFFF)
            && (r.eax != 0 ==> r.mem == w.mem && r.procs == w.procs)
            && (r.eax == 0 <==> && w.current >= 0 && w.procs[w.current].inbox != []
                                && e.ptr % 4 == 0 && 0x1000 <= e.ptr && e.ptr + 16 < TWO_32)
            && (r.eax == 0 ==>
                  var m := w.procs[w.current].inbox[0];
                  && r.mem == w.mem[..a] + [m.sender, m.kind, m.data1, m.data2] + w.mem[a + 4..]
                  && r.procs == w.procs[w.current := w.procs[w.current].(inbox := w.procs[w.current].inbox[1..])])
  {
    hide ValidPointer, StoreMessage;
    ValidPointerFits(e.ptr);
    if w.current >= 0 && w.procs[w.current].inbox != [] && ValidPointer(e.ptr, MESSAGE_BYTES) {
      StoredWords(w.mem, e.ptr, w.procs[w.current].inbox[0]);
    }
  }

  lemma StoredWords(mem: seq<uint32>, ptr: uint32, msg: Message)
    requires |mem| == WORDS && ptr / 4 + 4 <= WORDS
    ensures StoreMessage(mem, ptr, msg)
         == mem[..ptr / 4] + [msg.sender, msg.kind, msg.data1, msg.data2] + mem[ptr / 4 + 4..]
  {
  }

  /** A tick changes threads only, as the ring says. */
  lemma TimerChangesThreads(w: World, esp: uint32)
    requires Shaped(w)
    ensures var r := Step(w, TimerTick(esp));
            r.procs == w.procs && r.mem == w.mem && r.eax == w.eax && r.current == w.current && r.nextPid == w.nextPid
    ensures Step(w, TimerTick(esp)).ring == Tick(w.ring, esp)
  {
  }

  /** The state of each thread after a call or an input event. A send that is accepted, and any input event,
      readies the receiver's thread if it was waiting; a blocking receive that finds nothing leaves the
      current process's waiting. No other thread changes, and none its stack pointer. */
  lemma ThreadsAfter(w: World, e: Event, t: nat)
    requires Shaped(w) && t < |w.ring.tasks|
    requires e.SysSend? || e.SysRecv? || e.SysPoll? || e.Key? || e.Mouse?
    ensures var r, was := Step(w, e).ring, w.ring.tasks[t];
            && |r.tasks| == |w.ring.tasks| && r.current == w.ring.current && r.started == w.ring.started
            && r.tasks[t] ==
               if e.SysRecv? then
                 (if ValidPointer(e.ptr, 16) && w.current >= 0
                     && w.procs[w.current].inbox == [] && t == w.procs[w.current].thread
                  then was.(state := Waiting) else was)
               else if e.SysPoll? then was
               else
                 var p := FindPid(w.procs, if e.SysSend? then e.target else 1, 0);
                 if p >= 0 && t == w.procs[p].thread && was.state == Waiting
                    && (e.SysSend? ==> ValidPointer(e.ptr, 16) && |w.procs[p].inbox| < 16)
                 then was.(state := Ready) else was
  {
    hide FindPid, ValidPointer, StoreMessage, MessageAt;
  }

  /** A new process has the next pid, an empty inbox and a new thread of its own, ready at the end of the
      ring; the first one created becomes current. Nothing else changes. */
  lemma SpawnAdds(w: World, esp: uint32)
    requires Shaped(w)
    ensures var r, n, t := Spawn(w, esp), |w.procs|, |w.ring.tasks|;
            && |r.procs| == n + 1 && r.procs[..n] == w.procs
            && r.procs[n].pid == w.nextPid && r.procs[n].thread == t && r.procs[n].inbox == []
            && r.nextPid == (w.nextPid + 1) % TWO_32 && r.current == (if n == 0 then 0 else w.current)
            && r.ring.tasks[..t] == w.ring.tasks && r.ring.tasks[t..] == [TaskInfo(esp, Ready)]
            && r.ring.current == w.ring.current && r.ring.started == w.ring.started
            && r.mem == w.mem && r.eax == w.eax
  {
  }

  /** A send with a bad pointer or to nobody changes nothing but eax. Any other writes the current
      process's pid, or 0 if there is none, over the message's sender, even when the inbox is full. */
  lemma SendStores(w: World, target: uint32, ptr: uint32)
    requires Shaped(w)
    ensures var r := Send(w, target, ptr);
            && (r.eax == 0 || r.eax == 0xFFFF_FFFF)
            && if ptr % 4 == 0 && 0x1000 <= ptr && ptr + 16 < TWO_32
                  && exists p :: 0 <= p < |w.procs| && w.procs[p].pid == target
               then r.mem == w.mem[ptr / 4 := if w.current >= 0 then w.procs[w.current].pid else 0]
               else r == w.(eax := 0xFFFF_FFFF)
  {
    hide ValidPointer;
    ValidPointerFits(ptr);
    NobodyHas(w.procs, target, 0);
  }

  lemma {:induction false} NobodyHas(procs: seq<Process>, pid: uint32, p: nat)
    requires p <= |procs|
    ensures FindPid(procs, pid, p) < 0 <==> forall q :: p <= q < |procs| ==> procs[q].pid != pid
    decreases |procs| - p
  {
    if p < |procs| { NobodyHas(procs, pid, p + 1); }
  }

  /** process_find_by_pid returns the process with that pid. */
  lemma PidFinds(w: World, p: nat)
    requires Inv(w) && p < |w.procs|
    ensures FindPid(w.procs, w.procs[p].pid, 0) == p
  {
    FirstWithPid(w.procs, w.procs[p].pid, 0, p);
  }

  lemma {:induction false} FirstWithPid(procs: seq<Process>, pid: uint32, i: nat, p: nat)
    requires i <= p < |procs| && procs[p].pid == pid && forall q :: i <= q < p ==> procs[q].pid != pid
    ensures FindPid(procs, pid, i) == p
    decreases p - i
  {
    if i < p { FirstWithPid(procs, pid, i + 1, p); }
  }

  ghost predicate AllLawful(w: World, es: seq<Event>)
    requires Shaped(w)
    decreases |es|
  {
    es == [] || (Lawful(w, es[0]) && AllLawful(Step(w, es[0]), es[1..]))
  }

  function After(w: World, es: seq<Event>): (r: World)
    requires Shaped(w)
    ensures Shaped(r) && |r.procs| >= |w.procs|
    decreases |es|
  {
    if es == [] then w else ProcsGrow(w, es[0]); After(Step(w, es[0]), es[1..])
  }

  lemma ProcsGrow(w: World, e: Event)
    requires Shaped(w)
    ensures |Step(w, e).procs| >= |w.procs|
  {
    hide Tick, StoreMessage;
  }

  ghost function AllAccepted(w: World, es: seq<Event>, p: nat): seq<Message>
    requires Shaped(w) && p < |w.procs|
    decreases |es|
  {
    if es == [] then [] else ProcsGrow(w, es[0]); Accepted(w, es[0], p) + AllAccepted(Step(w, es[0]), es[1..], p)
  }

  ghost function AllReceived(w: World, es: seq<Event>, p: nat): seq<Message>
    requires Shaped(w) && p < |w.procs|
    decreases |es|
  {
    if es == [] then [] else ProcsGrow(w, es[0]); Received(w, es[0], p) + AllReceived(Step(w, es[0]), es[1..], p)
  }

  /** Over any run, what a process has received followed by what is in its inbox is what was in
      its inbox followed by what was accepted for it: nothing is lost, repeated or reordered. And
      no process is left waiting with mail. */
  lemma {:induction false} RunConserves(w: World, es: seq<Event>, p: nat)
    requires Inv(w) && AllLawful(w, es) && p < |w.procs|
    ensures Inv(After(w, es))
    ensures w.procs[p].inbox + AllAccepted(w, es, p) == AllReceived(w, es, p) + After(w, es).procs[p].inbox
    decreases |es|
  {
    hide Inv, Step, Lawful, Accepted, Received;
    if es != [] {
      InvShaped(w);
      var next := Step(w, es[0]);
      ProcsGrow(w, es[0]);
      StepKeeps(w, es[0]);
      StepConserves(w, es[0], p);
      RunConserves(next, es[1..], p);
      Chained(w.procs[p].inbox, Accepted(w, es[0], p), Received(w, es[0], p), next.procs[p].inbox,
              AllAccepted(next, es[1..], p), AllReceived(next, es[1..], p), After(next, es[1..]).procs[p].inbox);
    }
  }

  lemma Chained(a: seq<Message>, acc: seq<Message>, rec: seq<Message>, b: seq<Message>,
                accs: seq<Message>, recs: seq<Message>, c: seq<Message>)
    requires a + acc == rec + b && b + accs == recs + c
    ensures a + (acc + accs) == (rec + recs) + c
  {
    assert a + (acc + accs) == (a + acc) + accs == rec + (b + accs) == (rec + recs) + c;
  }
}
