/** The circular task list as the kernel stores it: insertion and the timer tick. */
module TaskSystem {
  import opened Bits
  import opened TaskRing

  class Task {
    var esp: uint32
    var state: State
    var next: Task?

    constructor (esp: uint32)
      ensures this.esp == esp && state == Ready && next == null
    {
      this.esp, state, next := esp, Ready, null;
    }
  }

  /** The index after i in a cycle of n. */
  function Following(i: nat, n: nat): (j: nat)
    requires i < n
    ensures j < n && j == Place(n, i, 1)
  {
    if i + 1 == n then 0 else i + 1
  }

  class TaskList {
    var current: Task?
    var head: Task?
    var started: bool
    /** The tasks in list order from the head, and where the current one is among them. */
    ghost var ring: seq<Task>
    ghost var place: nat

    /** The list is one cycle through every created task. */
    ghost predicate Valid()
      reads this, ring
    {
      && (ring == [] ==> head == null && current == null && place == 0)
      && (ring != [] ==> head == ring[0] && place < |ring| && current == ring[place])
      && (forall i :: 0 <= i < |ring| ==> ring[i].next == ring[Following(i, |ring|)])
      && (forall i, j :: 0 <= i < j < |ring| ==> ring[i] != ring[j])
    }

    ghost function Abs(): Ring
      reads this, ring
    {
      Ring(seq(|ring|, i requires 0 <= i < |ring| reads this, ring => TaskInfo(ring[i].esp, ring[i].state)),
           place, started)
    }

    /** task_init. */
    constructor ()
      ensures Valid() && Abs() == Ring([], 0, false) && ring == []
    {
      current, head, started, ring, place := null, null, false, [], 0;
    }

    /** The list insertion of task_create. */
    method Append(task: Task)
      requires Valid() && task !in ring && task.state == Ready
      modifies this`head, this`current, this`ring, ring, task
      ensures Valid() && ring == old(ring) + [task]
      ensures Abs() == Create(old(Abs()), task.esp) && task.esp == old(task.esp)
    {
      if head == null {
        head := task;
        task.next := task;
        current := task;
      } else {
        var last := head;
        ghost var i := 0;
        while last.next != head
          invariant 0 <= i < |ring| && last == ring[i]
          decreases |ring| - i
        {
          last, i := last.next, i + 1;
        }
        assert i == |ring| - 1;
        last.next := task;
        task.next := head;
      }
      ring := ring + [task];
    }

    /** task_scheduler_tick. */
    method Tick(currentEsp: uint32) returns (esp: uint32)
      requires Valid()
      modifies this`current, this`started, this`place, ring
      ensures Valid() && ring == old(ring)
      ensures Abs() == TaskRing.Tick(old(Abs()), currentEsp) && esp == Resumed(old(Abs()), currentEsp)
    {
      assert ring != [] ==> ring[place].next == ring[Following(place, |ring|)];
      if current == null || current.next == null || current.next == current {
        return currentEsp;
      }
      if !started {
        started := true;
        ghost var before := Abs().tasks;
        current.state := Running;
        assert Abs().tasks == before[place := before[place].(state := Running)];
        return current.esp;
      }
      Rotate(currentEsp);
      return current.esp;
    }

    /** The switch itself, once scheduling has started among several tasks. */
    method Rotate(currentEsp: uint32)
      requires Valid() && |ring| > 1 && started
      modifies this`current, this`place, ring
      ensures Valid() && ring == old(ring) && place < |ring|
      ensures Abs() == TaskRing.Tick(old(Abs()), currentEsp)
    {
      hide Pick;
      ghost var before := Abs();
      Store(currentEsp, Ready);
      ghost var saved := Abs().tasks;
      var next := SkipBlocked();
      current := next;
      Store(current.esp, Running);
      Switched(before, saved, place, currentEsp);
    }

    /** Stores the current task's two fields. */
    method Store(esp: uint32, state: State)
      requires Valid() && ring != []
      modifies ring
      ensures Valid() && current.state == state
      ensures Abs() == old(Abs()).(tasks := old(Abs()).tasks[place := TaskInfo(esp, state)])
    {
      current.esp := esp;
      current.state := state;
      assert Abs().tasks == old(Abs()).tasks[place := TaskInfo(esp, state)];
    }

    lemma Switched(r: Ring, saved: seq<TaskInfo>, next: nat, esp: uint32)
      requires WellFormed(r) && |r.tasks| > 1 && r.started && saved == r.tasks[r.current := TaskInfo(esp, Ready)]
      requires next == Pick(saved, r.current, 1)
      ensures TaskRing.Tick(r, esp) == r.(current := next, tasks := saved[next := TaskInfo(saved[next].esp, Running)])
    {
      hide Pick;
    }

    /** The skip loop: the next eligible task, or the current one after a full circle. */
    method SkipBlocked() returns (next: Task)
      requires Valid() && |ring| > 1 && current.state == Ready
      modifies this`place
      ensures place == Pick(old(Abs().tasks), old(place), 1) && next == ring[place]
    {
      ghost var tasks, k := Abs().tasks, 1;
      assert ring[place].next == ring[Following(place, |ring|)];
      next := current.next;
      var start := current;
      while next.state != Ready && next.state != Running
        invariant 1 <= k <= |ring| && next == ring[Place(|ring|, place, k)]
        invariant Pick(tasks, place, 1) == Pick(tasks, place, k)
        decreases |ring| - k
      {
        assert ring[Place(|ring|, place, k)].next == ring[Following(Place(|ring|, place, k), |ring|)];
        next := next.next;
        k := k + 1;
        if next == start {
          break;
        }
      }
      place := Place(|ring|, place, k);
    }
  }
}
