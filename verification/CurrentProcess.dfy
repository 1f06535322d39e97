/** Which process the message calls act for. The kernel's current process is set when the first process
    is created and never again; the timer tick changes the running thread alone. So the calls act for
    the first process, whichever process's thread makes them. */
module CurrentProcess {
  import opened Bits
  import opened Messages
  import opened TaskRing
  import opened Ipc
  import opened IpcLaws

  /** Before any process exists. */
  function Boot(mem: seq<uint32>, eax: uint32): (w: World)
    requires |mem| == WORDS
    ensures Shaped(w)
  {
    World([], -1, 0, Ring([], 0, false), mem, eax)
  }

  /** The current process is the first, with pid 0, and no other process's thread ever waits. */
  ghost predicate FirstIsCurrent(w: World) {
    && Inv(w)
    && (if w.procs == [] then w.nextPid == 0 else w.current == 0 && w.procs[0].pid == 0)
    && forall p: nat :: 0 < p < |w.procs| ==> ThreadState(w, p) != Waiting
  }

  lemma BootIsFirst(mem: seq<uint32>, eax: uint32)
    requires |mem| == WORDS
    ensures FirstIsCurrent(Boot(mem, eax))
  {
  }

  lemma CurrentStays(w: World, e: Event)
    requires Shaped(w) && (w.procs != [] ==> w.current == 0)
    ensures Step(w, e).procs != [] ==> Step(w, e).current == 0
    ensures w.procs != [] ==> Step(w, e).procs != [] && Step(w, e).procs[0].pid == w.procs[0].pid
    ensures w.procs == [] && Step(w, e).procs != [] ==> Step(w, e).procs[0].pid == w.nextPid
    ensures w.procs == [] && Step(w, e).procs == [] ==> Step(w, e).nextPid == w.nextPid
  {
    hide FindPid, ValidPointer;
  }

  /** No step but a receive puts a thread into the waiting state, and that one only the first
      process's. */
  lemma OthersNeverWait(w: World, e: Event, p: nat)
    requires Inv(w) && (w.procs != [] ==> w.current == 0) && 0 < p < |Step(w, e).procs|
    requires p < |w.procs| ==> ThreadState(w, p) != Waiting
    ensures ThreadState(Step(w, e), p) != Waiting
  {
    hide FindPid, ValidPointer;
    if e.TimerTick? && ThreadState(Step(w, e), p) == Waiting {
      TickNeverWaits(w.ring, e.esp, w.procs[p].thread);
    }
  }

  lemma FirstStaysCurrent(w: World, e: Event)
    requires FirstIsCurrent(w) && Lawful(w, e)
    ensures FirstIsCurrent(Step(w, e))
  {
    hide Step, Lawful, Inv;
    InvShaped(w);
    StepKeeps(w, e);
    InvShaped(Step(w, e));
    CurrentStays(w, e);
    forall p: nat | 0 < p < |Step(w, e).procs| ensures ThreadState(Step(w, e), p) != Waiting {
      OthersNeverWait(w, e, p);
    }
  }

  lemma {:induction false} FirstIsAlwaysCurrent(w: World, es: seq<Event>)
    requires FirstIsCurrent(w) && AllLawful(w, es)
    ensures FirstIsCurrent(IpcLaws.After(w, es))
    decreases |es|
  {
    hide Step, Lawful, FirstIsCurrent;
    if es != [] {
      FirstShaped(w);
      FirstStaysCurrent(w, es[0]);
      FirstIsAlwaysCurrent(Step(w, es[0]), es[1..]);
    }
  }

  lemma FirstShaped(w: World)
    requires FirstIsCurrent(w)
    ensures Shaped(w) && Inv(w) && (w.procs != [] ==> w.current == 0)
  {
  }

  /** From boot, over any run: every message a call sends is stamped 0, which is also what the kernel
      stamps its own. */
  lemma EveryStampIsZero(mem: seq<uint32>, eax: uint32, es: seq<Event>)
    requires |mem| == WORDS && AllLawful(Boot(mem, eax), es)
    ensures var w := IpcLaws.After(Boot(mem, eax), es);
            FirstIsCurrent(w) && SenderPid(w) == 0
  {
    hide IpcLaws.After, Inv;
    BootIsFirst(mem, eax);
    FirstIsAlwaysCurrent(Boot(mem, eax), es);
    FirstShaped(IpcLaws.After(Boot(mem, eax), es));
  }

  // ---- Only the first process receives ----

  /** Over any run nothing is ever handed to a process other than the first. */
  lemma {:induction false} OthersReceiveNothing(w: World, es: seq<Event>, p: nat)
    requires FirstIsCurrent(w) && AllLawful(w, es) && 0 < p < |w.procs|
    ensures AllReceived(w, es, p) == []
    decreases |es|
  {
    hide Step, Lawful, FirstIsCurrent;
    if es != [] {
      FirstShaped(w);
      ProcsGrow(w, es[0]);
      FirstStaysCurrent(w, es[0]);
      OthersReceiveNothing(Step(w, es[0]), es[1..], p);
    }
  }

  /** So its inbox only grows, and once it has held sixteen messages it accepts no more. */
  lemma OthersFillUp(w: World, es: seq<Event>, p: nat)
    requires FirstIsCurrent(w) && AllLawful(w, es) && 0 < p < |w.procs|
    ensures IpcLaws.After(w, es).procs[p].inbox == w.procs[p].inbox + AllAccepted(w, es, p)
    ensures |w.procs[p].inbox| + |AllAccepted(w, es, p)| <= QUEUE_SIZE
  {
    hide Step, Lawful, FirstIsCurrent, AllAccepted, AllReceived, IpcLaws.After;
    FirstShaped(w);
    OthersReceiveNothing(w, es, p);
    RunConserves(w, es, p);
    var r := IpcLaws.After(w, es).procs[p].inbox;
    assert [] + r == r;
  }

  // ---- When the calls act for the caller ----

  /** Process p's main thread has the CPU. */
  predicate Calls(w: World, p: nat)
    requires Shaped(w)
  {
    p < |w.procs| && w.ring.started && w.ring.current == w.procs[p].thread
  }

  /** A send carries its caller's pid if and only if the caller is the first process. */
  lemma StampIsCallersIff(w: World, p: nat)
    requires FirstIsCurrent(w) && Calls(w, p)
    ensures SenderPid(w) == w.procs[p].pid <==> p == 0
  {
  }

  /** With nothing to receive, a blocking receive puts the calling thread into the waiting state if and
      only if it is the first process's. */
  lemma RecvStopsCallerIff(w: World, p: nat, ptr: uint32)
    requires FirstIsCurrent(w) && Calls(w, p) && ValidPointer(ptr, MESSAGE_BYTES) && w.procs[0].inbox == []
    ensures ThreadState(Recv(w, ptr), 0) == Waiting
    ensures ThreadState(Recv(w, ptr), p) == Waiting <==> p == 0
  {
  }

  /** A waiting thread is still waiting after the next tick if and only if it is off the CPU. */
  lemma WaitSurvivesTickIff(r: Ring, esp: uint32, t: nat)
    requires WellFormed(r) && r.started && |r.tasks| > 1 && t < |r.tasks| && r.tasks[t].state == Waiting
    ensures Tick(r, esp).tasks[t].state == Waiting <==> t != r.current
  {
    TickStates(r, esp, t);
  }

  /** Together: the first process's own blocking receive does not outlast the next tick, and another
      process's stops the first process instead of the caller. */
  lemma RecvBlocksFirstIff(w: World, p: nat, ptr: uint32, esp: uint32)
    requires FirstIsCurrent(w) && Calls(w, p) && |w.ring.tasks| > 1
    requires ValidPointer(ptr, MESSAGE_BYTES) && w.procs[0].inbox == []
    ensures ThreadState(Timer(Recv(w, ptr), esp), 0) == Waiting <==> p != 0
  {
    hide ValidPointer;
    ThreadsApart(w, p);
    var r := Recv(w, ptr);
    WaitSurvivesTickIff(r.ring, esp, w.procs[0].thread);
  }

  lemma ThreadsApart(w: World, p: nat)
    requires Inv(w) && p < |w.procs|
    ensures w.procs[p].thread == w.procs[0].thread <==> p == 0
  {
  }

  // ---- A run that shows it ----

  /** Two processes and two ticks: the second process's thread has the CPU, and what it sends is
      stamped with the first's pid. */
  lemma SecondProcessIsMistaken(mem: seq<uint32>, eax: uint32, esp: uint32)
    requires |mem| == WORDS
    ensures var es := [NewProcess(esp), NewProcess(esp), TimerTick(esp), TimerTick(esp)];
            var w := IpcLaws.After(Boot(mem, eax), es);
            && AllLawful(Boot(mem, eax), es) && FirstIsCurrent(w)
            && Calls(w, 1) && w.procs[1].pid == 1 && SenderPid(w) == 0
  {
    var b := Boot(mem, eax);
    var w1 := Step(b, NewProcess(esp));
    var w2 := Step(w1, NewProcess(esp));
    var w3 := Step(w2, TimerTick(esp));
    var w4 := Step(w3, TimerTick(esp));
    TwoTicks(esp);
    assert w2.ring.tasks == [TaskInfo(esp, Ready), TaskInfo(esp, Ready)];
    hide Step, Inv;
    Unfolds(b, NewProcess(esp), NewProcess(esp), TimerTick(esp), TimerTick(esp));
    EveryStampIsZero(mem, eax, [NewProcess(esp), NewProcess(esp), TimerTick(esp), TimerTick(esp)]);
  }

  lemma TwoTicks(esp: uint32)
    ensures var r := Ring([TaskInfo(esp, Ready), TaskInfo(esp, Ready)], 0, false);
            var s := Tick(Tick(r, esp), esp);
            s.started && s.current == 1
  {
  }

  lemma Unfolds(w: World, a: Event, b: Event, c: Event, d: Event)
    requires Shaped(w)
    ensures IpcLaws.After(w, [a, b, c, d]) == Step(Step(Step(Step(w, a), b), c), d)
    ensures AllLawful(w, [a, b, c, d]) <==>
              && Lawful(w, a) && Lawful(Step(w, a), b) && Lawful(Step(Step(w, a), b), c)
              && Lawful(Step(Step(Step(w, a), b), c), d)
  {
    hide Step, Lawful, Shaped;
    Unfold(w, a, [b, c, d]);
    Unfold(Step(w, a), b, [c, d]);
    Unfold(Step(Step(w, a), b), c, [d]);
    Unfold(Step(Step(Step(w, a), b), c), d, []);
    assert [a] + [b, c, d] == [a, b, c, d] && [b] + [c, d] == [b, c, d] && [c] + [d] == [c, d] && [d] + [] == [d];
  }

  lemma Unfold(w: World, e: Event, es: seq<Event>)
    requires Shaped(w)
    ensures IpcLaws.After(w, [e] + es) == IpcLaws.After(Step(w, e), es)
    ensures AllLawful(w, [e] + es) <==> Lawful(w, e) && AllLawful(Step(w, e), es)
    ensures IpcLaws.After(w, []) == w && AllLawful(w, [])
    ensures es == [] ==> IpcLaws.After(Step(w, e), es) == Step(w, e) && AllLawful(Step(w, e), es)
  {
    hide Step, Lawful;
    assert ([e] + es)[1..] == es;
  }
}
