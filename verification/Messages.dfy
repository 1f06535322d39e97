/** Messages and the fixed-size circular queue that holds a process's inbox. */
module Messages {
  import opened Bits

  const QUEUE_SIZE: nat := 16

  datatype Message = Message(sender: uint32, kind: uint32, data1: uint32, data2: uint32)

  class MessageQueue {
    const messages: array<Message>
    var readIndex: nat
    var writeIndex: nat
    var count: nat

    ghost predicate Valid()
      reads this
    {
      && messages.Length == QUEUE_SIZE && readIndex < QUEUE_SIZE && count <= QUEUE_SIZE
      && writeIndex == Slot(readIndex, count)
    }

    /** The queued messages, oldest first. */
    ghost function Contents(): (q: seq<Message>)
      requires Valid()
      reads this, messages
      ensures |q| == count
    {
      seq(count, i requires 0 <= i < count && Valid() reads this, messages => messages[Slot(readIndex, i)])
    }

    /** message_queue_init. */
    constructor ()
      ensures Valid() && Contents() == [] && fresh(messages)
    {
      messages := new Message[QUEUE_SIZE](_ => Message(0, 0, 0, 0));
      readIndex, writeIndex, count := 0, 0, 0;
    }

    method IsEmpty() returns (empty: bool)
      requires Valid()
      ensures empty <==> Contents() == []
    {
      empty := count == 0;
    }

    method IsFull() returns (full: bool)
      requires Valid()
      ensures full <==> |Contents()| >= QUEUE_SIZE
    {
      full := count >= QUEUE_SIZE;
    }

    /** The newest message goes last; a full queue refuses it and does not change. */
    method Enqueue(msg: Message) returns (status: int)
      requires Valid()
      modifies this, messages
      ensures Valid()
      ensures status == if |old(Contents())| < QUEUE_SIZE then 0 else -1
      ensures Contents() == if status == 0 then old(Contents()) + [msg] else old(Contents())
    {
      var full := IsFull();
      if full {
        return -1;
      }
      ghost var before := Contents();
      messages[writeIndex] := msg;
      Slots(readIndex, count);
      writeIndex := (writeIndex + 1) % QUEUE_SIZE;
      count := count + 1;
      assert Contents() == before + [msg];
      return 0;
    }

    /** The oldest message comes out; an empty queue does not change. */
    method Dequeue() returns (status: int, msg: Message)
      requires Valid()
      modifies this
      ensures Valid()
      ensures status == if old(Contents()) != [] then 0 else -1
      ensures status == 0 ==> old(Contents()) == [msg] + Contents()
      ensures status != 0 ==> Contents() == old(Contents())
    {
      var empty := IsEmpty();
      if empty {
        return -1, Message(0, 0, 0, 0);
      }
      ghost var before := Contents();
      msg := messages[readIndex];
      readIndex := (readIndex + 1) % QUEUE_SIZE;
      count := count - 1;
      assert before == [msg] + Contents();
      return 0, msg;
    }
  }

  /** The array index i places after the read index. */
  function Slot(read: nat, i: nat): (j: nat)
    requires read < QUEUE_SIZE && i <= QUEUE_SIZE
    ensures j < QUEUE_SIZE && j == (read + i) % QUEUE_SIZE
  {
    if read + i < QUEUE_SIZE then read + i else read + i - QUEUE_SIZE
  }

  /** Fewer than sixteen places on from the read index, no slot repeats. */
  lemma Slots(read: nat, count: nat)
    requires read < QUEUE_SIZE && count < QUEUE_SIZE
    ensures forall i: nat :: i < count ==> Slot(read, i) != Slot(read, count)
    ensures (Slot(read, count) + 1) % QUEUE_SIZE == Slot(read, count + 1)
  {
  }
}
