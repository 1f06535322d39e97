/** The round-robin ring of tasks that the timer interrupt switches between, in ring order. */
module TaskRing {
  import opened Bits

  datatype State = Ready | Running | Blocked | Waiting

  datatype TaskInfo = TaskInfo(esp: uint32, state: State)

  /** tasks in creation order, which is ring order; current indexes them (0 when there are none). */
  datatype Ring = Ring(tasks: seq<TaskInfo>, current: nat, started: bool)

  predicate WellFormed(r: Ring) {
    if r.tasks == [] then r.current == 0 else r.current < |r.tasks|
  }

  /** A new task joins at the end of the ring; the first one becomes current. */
  function Create(r: Ring, esp: uint32): Ring {
    r.(tasks := r.tasks + [TaskInfo(esp, Ready)])
  }

  predicate Eligible(state: State) {
    state == Ready || state == Running
  }

  /** The task k places after the current one. */
  function Place(n: nat, current: nat, k: nat): (i: nat)
    requires current < n && k <= n
    ensures i < n
  {
    if current + k < n then current + k else if k == n then current else current + k - n
  }

  /** The skip loop from k places on: the first eligible task, or the current one after a full circle. */
  function Pick(tasks: seq<TaskInfo>, current: nat, k: nat): (i: nat)
    requires current < |tasks| && 1 <= k <= |tasks|
    ensures i < |tasks|
    decreases |tasks| - k
  {
    if k == |tasks| || Eligible(tasks[Place(|tasks|, current, k)].state) then Place(|tasks|, current, k)
    else Pick(tasks, current, k + 1)
  }

  /** What the timer tick does to the ring, given the interrupted task's stack pointer. */
  function Tick(r: Ring, esp: uint32): (t: Ring)
    requires WellFormed(r)
    ensures WellFormed(t) && |t.tasks| == |r.tasks|
  {
    if |r.tasks| <= 1 then r
    else if !r.started then
      r.(started := true, tasks := r.tasks[r.current := r.tasks[r.current].(state := Running)])
    else
      var saved := r.tasks[r.current := TaskInfo(esp, Ready)];
      var next := Pick(saved, r.current, 1);
      r.(current := next, tasks := saved[next := saved[next].(state := Running)])
  }

  /** The stack pointer the tick returns. */
  function Resumed(r: Ring, esp: uint32): uint32
    requires WellFormed(r)
  {
    if |r.tasks| <= 1 then esp else Tick(r, esp).tasks[Tick(r, esp).current].esp
  }

  // ---- Fairness ----

  /** How many places after the current task t is. */
  function Distance(r: Ring, t: nat): (d: nat)
    requires r.current < |r.tasks| && t < |r.tasks|
    ensures d < |r.tasks| && (d == 0 <==> t == r.current) && Place(|r.tasks|, r.current, d) == t
  {
    if t >= r.current then t - r.current else t + |r.tasks| - r.current
  }

  /** Pick finds the nearest eligible task, m places on, and passes over none. */
  lemma {:induction false} PickIsNearest(tasks: seq<TaskInfo>, current: nat, k: nat) returns (m: nat)
    requires current < |tasks| && 1 <= k <= |tasks|
    requires forall j :: 1 <= j < k ==> !Eligible(tasks[Place(|tasks|, current, j)].state)
    ensures k <= m <= |tasks| && Pick(tasks, current, k) == Place(|tasks|, current, m)
    ensures m == |tasks| || Eligible(tasks[Place(|tasks|, current, m)].state)
    ensures forall j :: 1 <= j < m ==> !Eligible(tasks[Place(|tasks|, current, j)].state)
    decreases |tasks| - k
  {
    if k < |tasks| && !Eligible(tasks[Place(|tasks|, current, k)].state) {
      m := PickIsNearest(tasks, current, k + 1);
    } else {
      m := k;
    }
  }

  /** A tick brings an eligible task that is not current strictly nearer. */
  lemma TickApproaches(r: Ring, esp: uint32, t: nat)
    requires WellFormed(r) && r.started && |r.tasks| > 1 && t < |r.tasks| && t != r.current
    requires r.tasks[t].state != Blocked && r.tasks[t].state != Waiting
    ensures Distance(Tick(r, esp), t) < Distance(r, t)
  {
    var saved := r.tasks[r.current := TaskInfo(esp, Ready)];
    var m := PickIsNearest(saved, r.current, 1);
    assert Place(|saved|, r.current, Distance(r, t)) == t;
    assert m <= Distance(r, t);
  }

  /** Between ticks other code may put any task in any state, and a tick saves any stack pointer. */
  datatype Slice = Slice(states: seq<State>, esp: uint32)

  function Rewrite(r: Ring, states: seq<State>): (t: Ring)
    requires |states| == |r.tasks|
    ensures |t.tasks| == |r.tasks| && t.current == r.current && t.started == r.started
    ensures forall i :: 0 <= i < |states| ==> t.tasks[i] == r.tasks[i].(state := states[i])
  {
    r.(tasks := seq(|r.tasks|, i requires 0 <= i < |r.tasks| => r.tasks[i].(state := states[i])))
  }

  ghost predicate Fits(r: Ring, slices: seq<Slice>) {
    forall j :: 0 <= j < |slices| ==> |slices[j].states| == |r.tasks|
  }

  function After(r: Ring, slices: seq<Slice>): (t: Ring)
    requires WellFormed(r) && forall j :: 0 <= j < |slices| ==> |slices[j].states| == |r.tasks|
    ensures WellFormed(t) && |t.tasks| == |r.tasks|
    decreases |slices|
  {
    if slices == [] then r else After(Tick(Rewrite(r, slices[0].states), slices[0].esp), slices[1..])
  }

  /** In a started ring of n tasks, a task that stays ready becomes current within n - 1 ticks. */
  lemma {:induction false} ReadyTaskRuns(r: Ring, slices: seq<Slice>, t: nat) returns (j: nat)
    requires WellFormed(r) && r.started && |r.tasks| > 1 && t < |r.tasks| && Fits(r, slices)
    requires forall i :: 0 <= i < |slices| ==> slices[i].states[t] == Ready
    requires Distance(r, t) <= |slices|
    ensures j <= Distance(r, t) && After(r, slices[..j]).current == t
    decreases |slices|
  {
    if t == r.current {
      j := 0;
    } else {
      var r' := Tick(Rewrite(r, slices[0].states), slices[0].esp);
      TickApproaches(Rewrite(r, slices[0].states), slices[0].esp, t);
      var i := ReadyTaskRuns(r', slices[1..], t);
      j := i + 1;
      assert slices[..j][1..] == slices[1..][..i] && slices[..j][0] == slices[0];
    }
  }

  /** Exactly one task runs after a tick: the current one. Outgoing tasks are ready whatever state
      they were in, even waiting. */
  lemma TickStates(r: Ring, esp: uint32, t: nat)
    requires WellFormed(r) && r.started && |r.tasks| > 1 && t < |r.tasks|
    ensures var u := Tick(r, esp);
            && u.tasks[u.current].state == Running
            && (t == r.current && t != u.current ==> u.tasks[t] == TaskInfo(esp, Ready))
            && (t != r.current && t != u.current ==> u.tasks[t] == r.tasks[t])
            && (t == u.current && t != r.current ==>
                  && r.tasks[t].state != Blocked && r.tasks[t].state != Waiting
                  && u.tasks[t].esp == r.tasks[t].esp)
  {
    var saved := r.tasks[r.current := TaskInfo(esp, Ready)];
    var m := PickIsNearest(saved, r.current, 1);
  }

  /** The first tick runs the current task from its prepared stack pointer and changes no other; without a
      second task a tick changes nothing. */
  lemma FirstTick(r: Ring, esp: uint32, t: nat)
    requires WellFormed(r) && t < |r.tasks| && (!r.started || |r.tasks| == 1)
    ensures var u := Tick(r, esp);
            && u.current == r.current
            && (|r.tasks| == 1 ==> u == r && Resumed(r, esp) == esp)
            && (|r.tasks| > 1 ==>
                  && u.started && Resumed(r, esp) == r.tasks[r.current].esp
                  && u.tasks[t] == if t == r.current then r.tasks[t].(state := Running) else r.tasks[t])
  {
  }
}
