/** A TCP connection's sequence accounting as a transition system, and the stream its segments
    spell out. */
module TcpStream {
  import opened Bits
  import opened TcpSegments

  const FLAG_FIN: uint8 := 0x01
  const FLAG_SYN: uint8 := 0x02
  const FLAG_PSH: uint8 := 0x08
  const FLAG_ACK: uint8 := 0x10
  const RECV_BUFFER: nat := 2048

  datatype State = Closed | SynSent | Established | FinWait | CloseWait

  datatype Conn = Conn(remoteIp: uint32, localPort: uint16, remotePort: uint16, seqNum: uint32, ackNum: uint32,
                       state: State, received: seq<uint8>, ready: bool)

  /** A connection and the segments it has sent. */
  datatype Run = Run(conn: Conn, sent: seq<Segment>)

  /** tcp_send_packet's segment. */
  function Emitted(c: Conn, flags: uint8, data: seq<uint8>): Segment {
    Segment(c.localPort, c.remotePort, c.seqNum, c.ackNum, flags, data)
  }

  function Emit(r: Run, flags: uint8, data: seq<uint8>): Run {
    r.(sent := r.sent + [Emitted(r.conn, flags, data)])
  }

  /** A connection that has sent nothing yet, its initial sequence number taken from the clock. */
  function Opening(remoteIp: uint32, remotePort: uint16, localPort: uint16, ticks: uint64): Run {
    Run(Conn(remoteIp, localPort, remotePort, Wrap32(ticks * 12345), 0, SynSent, [], false), [])
  }

  /** tcp_connect up to its wait: a SYN at the initial sequence number, which it uses up. */
  function Connect(remoteIp: uint32, remotePort: uint16, localPort: uint16, ticks: uint64): Run {
    var r := Emit(Opening(remoteIp, remotePort, localPort, ticks), FLAG_SYN, []);
    r.(conn := r.conn.(seqNum := Wrap32(r.conn.seqNum + 1)))
  }

  /** The wait for a SYN-ACK ran out. */
  function GiveUp(r: Run): Run {
    if r.conn.state == Established then r else r.(conn := r.conn.(state := Closed))
  }

  function Send(r: Run, data: seq<uint8>): Run {
    if r.conn.state != Established then r else
    var e := Emit(r, FLAG_PSH + FLAG_ACK, data);
    e.(conn := e.conn.(seqNum := Wrap32(e.conn.seqNum + |data|)))
  }

  function Close(r: Run): Run {
    if r.conn.state == Closed then r else
    var e := Emit(r, FLAG_FIN + FLAG_ACK, []);
    e.(conn := e.conn.(state := Closed))
  }

  function Acknowledge(r: Run, ackNum: nat): Run {
    Emit(r.(conn := r.conn.(ackNum := Wrap32(ackNum))), FLAG_ACK, [])
  }

  predicate HasFlag(flags: uint8, flag: uint8) {
    And(flags, flag) != 0
  }

  /** Incoming payload: kept up to the buffer's size, and acknowledged in full. */
  function Absorb(r: Run, seqNum: uint32, data: seq<uint8>): Run {
    if data == [] then r else
    var kept := if |data| > RECV_BUFFER then data[..RECV_BUFFER] else data;
    Acknowledge(r.(conn := r.conn.(received := kept, ready := true)), seqNum + |data|)
  }

  function Finish(r: Run, flags: uint8, seqNum: uint32): Run {
    if !HasFlag(flags, FLAG_FIN) then r else
    var a := Acknowledge(r, seqNum + 1);
    a.(conn := a.conn.(state := Closed))
  }

  /** tcp_receive, for a segment from an address. */
  function Receive(r: Run, s: Segment, src: uint32): Run {
    if src != r.conn.remoteIp || s.srcPort != r.conn.remotePort || s.dstPort != r.conn.localPort then r
    else match r.conn.state
      case SynSent =>
        if HasFlag(s.flags, FLAG_SYN) && HasFlag(s.flags, FLAG_ACK) then
          Acknowledge(r.(conn := r.conn.(state := Established)), s.seqNum + 1)
        else r
      case Established => Finish(Absorb(r, s.seqNum, s.data), s.flags, s.seqNum)
      case _ => r
  }

  datatype Event =
    | Sending(data: seq<uint8>)
    | Receiving(segment: Segment, src: uint32)
    | Closing
    | TimingOut

  function Step(r: Run, e: Event): Run {
    match e
    case Sending(data) => Send(r, data)
    case Receiving(segment, src) => Receive(r, segment, src)
    case Closing => Close(r)
    case TimingOut => GiveUp(r)
  }

  function After(r: Run, es: seq<Event>): Run
    decreases |es|
  {
    if es == [] then r else After(Step(r, es[0]), es[1..])
  }

  // ---- The stream ----

  /** The payloads sent, in order. */
  function Stream(sent: seq<Segment>): seq<uint8> {
    if sent == [] then [] else Stream(sent[..|sent| - 1]) + sent[|sent| - 1].data
  }

  /** After the SYN, every segment carries the sequence number of the stream position it starts
      at, and the connection holds the next one. */
  ghost predicate InSequence(r: Run, iss: uint32) {
    && r.sent != [] && r.sent[0].seqNum == iss && r.sent[0].data == []
    && r.conn.seqNum == Wrap32(iss + 1 + |Stream(r.sent)|)
    && forall i :: 1 <= i < |r.sent| ==> Positioned(r.sent, iss, i)
  }

  /** Segment i carries the sequence number of the stream position it starts at. */
  ghost predicate Positioned(sent: seq<Segment>, iss: uint32, i: nat)
    requires i < |sent|
  {
    sent[i].seqNum == Wrap32(iss + 1 + |Stream(sent[..i])|)
  }

  lemma StreamStep(sent: seq<Segment>, s: Segment)
    ensures Stream(sent + [s]) == Stream(sent) + s.data
  {
    assert (sent + [s])[..|sent|] == sent;
  }

  lemma ConnectInSequence(remoteIp: uint32, remotePort: uint16, localPort: uint16, ticks: uint64)
    ensures InSequence(Connect(remoteIp, remotePort, localPort, ticks), Wrap32(ticks * 12345))
  {
    var sent := Connect(remoteIp, remotePort, localPort, ticks).sent;
    assert sent[..0] == [];
    assert Stream(sent) == [];
  }

  /** Emitting at the current sequence number and moving on by the payload keeps the sequence. */
  lemma EmitInSequence(r: Run, iss: uint32, flags: uint8, data: seq<uint8>, conn: Conn)
    requires InSequence(r, iss) && conn.seqNum == Wrap32(r.conn.seqNum + |data|)
    ensures InSequence(Emit(r, flags, data).(conn := conn), iss)
  {
    hide Wrap32, Stream, Positioned;
    var added := Emitted(r.conn, flags, data);
    var sent := r.sent + [added];
    StreamStep(r.sent, added);
    WrapTwice(iss + 1 + |Stream(r.sent)|, |data|);
    forall i: nat | 1 <= i < |sent| ensures Positioned(sent, iss, i) {
      if i < |r.sent| { PositionedPrefix(r.sent, added, iss, i); } else { PositionedLast(r.sent, added, iss); }
    }
  }

  lemma PositionedPrefix(sent: seq<Segment>, added: Segment, iss: uint32, i: nat)
    requires i < |sent| && Positioned(sent, iss, i)
    ensures Positioned(sent + [added], iss, i)
  {
    hide Wrap32, Stream;
    assert (sent + [added])[..i] == sent[..i];
  }

  lemma PositionedLast(sent: seq<Segment>, added: Segment, iss: uint32)
    requires added.seqNum == Wrap32(iss + 1 + |Stream(sent)|)
    ensures Positioned(sent + [added], iss, |sent|)
  {
    hide Wrap32, Stream;
    assert (sent + [added])[..|sent|] == sent;
  }

  lemma WrapTwice(a: nat, b: nat)
    ensures Wrap32(Wrap32(a) + b) == Wrap32(a + b)
  {
  }

  /** Only seqNum and the segments sent matter. */
  lemma SameSequence(r: Run, iss: uint32, conn: Conn)
    requires InSequence(r, iss) && conn.seqNum == r.conn.seqNum
    ensures InSequence(r.(conn := conn), iss)
  {
    hide Wrap32, Stream, Positioned;
  }

  lemma AcknowledgeInSequence(r: Run, iss: uint32, ackNum: nat, conn: Conn)
    requires InSequence(r, iss) && conn.seqNum == r.conn.seqNum
    ensures InSequence(Acknowledge(r.(conn := conn), ackNum), iss)
    ensures Acknowledge(r.(conn := conn), ackNum).conn.seqNum == r.conn.seqNum
  {
    hide Wrap32;
    var c := conn.(ackNum := Wrap32(ackNum));
    SameSequence(r, iss, c);
    WrapTwice(iss + 1 + |Stream(r.sent)|, 0);
    EmitInSequence(r.(conn := c), iss, FLAG_ACK, [], c);
  }

  lemma StepInSequence(r: Run, iss: uint32, e: Event)
    requires InSequence(r, iss)
    ensures InSequence(Step(r, e), iss)
  {
    hide Wrap32, InSequence, HasFlag;
    WrapHolds(r.conn.seqNum);
    match e
    case Sending(data) =>
      if r.conn.state == Established {
        EmitInSequence(r, iss, FLAG_PSH + FLAG_ACK, data, r.conn.(seqNum := Wrap32(r.conn.seqNum + |data|)));
      }
    case Receiving(s, src) => ReceiveInSequence(r, iss, s, src);
    case Closing =>
      EmitInSequence(r, iss, FLAG_FIN + FLAG_ACK, [], r.conn.(state := Closed));
    case TimingOut => SameSequence(r, iss, GiveUp(r).conn);
  }

  lemma WrapHolds(a: uint32)
    ensures Wrap32(a + 0) == a
  {
  }

  /** Acknowledgements, interleaved anywhere, do not disturb the sequence. */
  lemma ReceiveInSequence(r: Run, iss: uint32, s: Segment, src: uint32)
    requires InSequence(r, iss)
    ensures InSequence(Receive(r, s, src), iss)
  {
    hide Wrap32, InSequence, HasFlag, Acknowledge;
    if r.conn.state == SynSent {
      AcknowledgeInSequence(r, iss, s.seqNum + 1, r.conn.(state := Established));
    } else if r.conn.state == Established {
      AbsorbInSequence(r, iss, s.seqNum, s.data);
      FinishInSequence(Absorb(r, s.seqNum, s.data), iss, s.flags, s.seqNum);
    }
  }

  lemma AbsorbInSequence(r: Run, iss: uint32, seqNum: uint32, data: seq<uint8>)
    requires InSequence(r, iss)
    ensures InSequence(Absorb(r, seqNum, data), iss)
  {
    hide InSequence, Acknowledge;
    var kept := if |data| > RECV_BUFFER then data[..RECV_BUFFER] else data;
    AcknowledgeInSequence(r, iss, seqNum + |data|, r.conn.(received := kept, ready := true));
  }

  lemma FinishInSequence(r: Run, iss: uint32, flags: uint8, seqNum: uint32)
    requires InSequence(r, iss)
    ensures InSequence(Finish(r, flags, seqNum), iss)
  {
    hide InSequence, Acknowledge, HasFlag;
    AcknowledgeInSequence(r, iss, seqNum + 1, r.conn);
    var a := Acknowledge(r, seqNum + 1);
    SameSequence(a, iss, a.conn.(state := Closed));
  }

  lemma {:induction false} RunInSequence(r: Run, iss: uint32, es: seq<Event>)
    requires InSequence(r, iss)
    ensures InSequence(After(r, es), iss)
    decreases |es|
  {
    hide InSequence, Step;
    if es != [] {
      StepInSequence(r, iss, es[0]);
      RunInSequence(Step(r, es[0]), iss, es[1..]);
    }
  }

  /** A connection becomes established if and only if a segment with SYN and ACK arrives from its peer
      while it waits for one, and it answers with the right acknowledgement. */
  lemma EstablishedByHandshake(r: Run, e: Event)
    requires r.conn.state != Established
    ensures Step(r, e).conn.state == Established <==>
              && r.conn.state == SynSent && e.Receiving?
              && HasFlag(e.segment.flags, FLAG_SYN) && HasFlag(e.segment.flags, FLAG_ACK)
              && e.src == r.conn.remoteIp
              && e.segment.srcPort == r.conn.remotePort && e.segment.dstPort == r.conn.localPort
    ensures Step(r, e).conn.state == Established ==>
              && Step(r, e).conn.ackNum == Wrap32(e.segment.seqNum + 1)
              && Step(r, e).sent == r.sent + [Segment(r.conn.localPort, r.conn.remotePort, r.conn.seqNum,
                                                      Wrap32(e.segment.seqNum + 1), FLAG_ACK, [])]
  {
    hide HasFlag, Wrap32;
  }

  /** Who a segment is from, and to whom. */
  predicate FromPeer(c: Conn, s: Segment, src: uint32) {
    src == c.remoteIp && s.srcPort == c.remotePort && s.dstPort == c.localPort
  }

  /** An acknowledgement as it goes out on this connection. */
  function Ack(c: Conn, ackNum: nat): Segment {
    Segment(c.localPort, c.remotePort, c.seqNum, Wrap32(ackNum), 0x10, [])
  }

  /** What an established connection makes of a segment from its peer: payload is acknowledged in full and
      its first 2048 bytes kept; a FIN is acknowledged and closes the connection; nothing else changes. */
  lemma EstablishedReceives(r: Run, s: Segment, src: uint32)
    requires r.conn.state == Established && FromPeer(r.conn, s, src)
    ensures var t, fin := Step(r, Receiving(s, src)), s.flags % 2 == 1;
            && t.sent == r.sent + (if s.data == [] then [] else [Ack(r.conn, s.seqNum + |s.data|)])
                                + (if fin then [Ack(r.conn, s.seqNum + 1)] else [])
            && t.conn == r.conn.(
                 ackNum := if fin then Wrap32(s.seqNum + 1)
                           else if s.data != [] then Wrap32(s.seqNum + |s.data|) else r.conn.ackNum,
                 received := if s.data == [] then r.conn.received
                             else if |s.data| > 2048 then s.data[..2048] else s.data,
                 ready := r.conn.ready || s.data != [],
                 state := if fin then Closed else Established)
  {
    hide HasFlag, Wrap32;
    FinIsLowBit(s.flags);
    assert r.sent + [] == r.sent;
  }

  lemma FinIsLowBit(flags: uint8)
    ensures HasFlag(flags, FLAG_FIN) <==> flags % 2 == 1
  {
    if flags != 0 { assert And(flags / 2, 0) == 0; }
  }

  /** A segment from anybody else changes nothing. */
  lemma OthersAreIgnored(r: Run, s: Segment, src: uint32)
    requires !FromPeer(r.conn, s, src)
    ensures Step(r, Receiving(s, src)) == r
  {
  }

  /** A FIN that carries payload is acknowledged as if it carried none: the last number sent is the peer's
      next one if and only if there is none. */
  lemma FinAckIsRightIff(r: Run, s: Segment, src: uint32)
    requires r.conn.state == Established && FromPeer(r.conn, s, src) && s.flags % 2 == 1 && |s.data| < TWO_16
    ensures Step(r, Receiving(s, src)).conn.ackNum == Wrap32(s.seqNum + |s.data| + 1) <==> s.data == []
  {
    hide HasFlag, Wrap32;
    EstablishedReceives(r, s, src);
    WrapDiffers(s.seqNum + 1, |s.data|);
  }

  lemma WrapDiffers(a: nat, n: nat)
    requires n < TWO_16
    ensures Wrap32(a + n) == Wrap32(a) <==> n == 0
  {
  }

  // ---- The peer's stream ----

  /** The segments of these events come from the peer in order from the given number on, without a FIN, and
      the connection is not closed. */
  predicate InOrder(c: Conn, es: seq<Event>, next: uint32)
    decreases |es|
  {
    es == [] ||
    match es[0]
    case Receiving(s, src) =>
      && FromPeer(c, s, src) && s.seqNum == next && s.flags % 2 == 0
      && InOrder(c, es[1..], Wrap32(next + |s.data|))
    case Closing => false
    case _ => InOrder(c, es[1..], next)
  }

  /** The payloads that arrive. */
  function Arrived(es: seq<Event>): seq<uint8> {
    if es == [] then [] else (if es[0].Receiving? then es[0].segment.data else []) + Arrived(es[1..])
  }

  /** The payload that arrives last. */
  function Latest(es: seq<Event>, before: seq<uint8>): seq<uint8>
    decreases |es|
  {
    if es == [] then before
    else Latest(es[1..], if es[0].Receiving? && es[0].segment.data != [] then es[0].segment.data else before)
  }

  function Kept(data: seq<uint8>): seq<uint8> {
    if |data| > 2048 then data[..2048] else data
  }

  predicate SamePeer(c: Conn, d: Conn) {
    d.remoteIp == c.remoteIp && d.remotePort == c.remotePort && d.localPort == c.localPort
  }

  lemma {:induction false} OrderIsPeers(c: Conn, d: Conn, es: seq<Event>, next: uint32)
    requires SamePeer(c, d) && InOrder(c, es, next)
    ensures InOrder(d, es, next)
    decreases |es|
  {
    hide Wrap32;
    if es != [] {
      if es[0].Receiving? {
        OrderIsPeers(c, d, es[1..], Wrap32(next + |es[0].segment.data|));
      } else {
        OrderIsPeers(c, d, es[1..], next);
      }
    }
  }

  /** While the peer's segments arrive in order, whatever is sent in between: the number acknowledged is
      always the peer's next one. But every payload is put over the one before it, read or not. */
  lemma {:induction false} AckFollowsPeer(r: Run, es: seq<Event>, before: seq<uint8>)
    requires r.conn.state == Established && InOrder(r.conn, es, r.conn.ackNum) && r.conn.received == Kept(before)
    ensures var t := After(r, es);
            && t.conn.state == Established
            && t.conn.ackNum == Wrap32(r.conn.ackNum + |Arrived(es)|)
            && t.conn.received == Kept(Latest(es, before))
    decreases |es|
  {
    hide HasFlag, Wrap32, Step, InOrder;
    if es == [] {
      WrapHolds(r.conn.ackNum);
    } else {
      var t := Step(r, es[0]);
      var now := if es[0].Receiving? && es[0].segment.data != [] then es[0].segment.data else before;
      OneInOrder(r, es, before);
      AckFollowsPeer(t, es[1..], now);
      var n := if es[0].Receiving? then |es[0].segment.data| else 0;
      WrapHolds(r.conn.ackNum);
      WrapTwice(r.conn.ackNum + n, |Arrived(es[1..])|);
    }
  }

  lemma OneInOrder(r: Run, es: seq<Event>, before: seq<uint8>)
    requires es != [] && r.conn.state == Established && InOrder(r.conn, es, r.conn.ackNum)
    requires r.conn.received == Kept(before)
    ensures var t := Step(r, es[0]);
            && t.conn.state == Established && InOrder(t.conn, es[1..], t.conn.ackNum)
            && t.conn.ackNum == Wrap32(r.conn.ackNum + if es[0].Receiving? then |es[0].segment.data| else 0)
            && t.conn.received
               == Kept(if es[0].Receiving? && es[0].segment.data != [] then es[0].segment.data else before)
  {
    hide HasFlag, Wrap32, Step, Kept;
    WrapHolds(r.conn.ackNum);
    var t := Step(r, es[0]);
    if es[0].Receiving? {
      SegmentInOrder(r, es[0].segment, es[0].src, before);
      OrderIsPeers(r.conn, t.conn, es[1..], Wrap32(r.conn.ackNum + |es[0].segment.data|));
    } else {
      NothingArrives(r, es[0]);
      OrderIsPeers(r.conn, t.conn, es[1..], r.conn.ackNum);
    }
  }

  lemma SegmentInOrder(r: Run, s: Segment, src: uint32, before: seq<uint8>)
    requires r.conn.state == Established && FromPeer(r.conn, s, src)
    requires s.seqNum == r.conn.ackNum && s.flags % 2 == 0 && r.conn.received == Kept(before)
    ensures var t := Step(r, Receiving(s, src));
            && t.conn.state == Established && SamePeer(r.conn, t.conn)
            && t.conn.ackNum == Wrap32(r.conn.ackNum + |s.data|)
            && t.conn.received == Kept(if s.data != [] then s.data else before)
  {
    hide HasFlag, Wrap32, Step;
    WrapHolds(r.conn.ackNum);
    EstablishedReceives(r, s, src);
  }

  lemma NothingArrives(r: Run, e: Event)
    requires r.conn.state == Established && (e.Sending? || e.TimingOut?)
    ensures var t := Step(r, e);
            && t.conn.state == Established && SamePeer(r.conn, t.conn)
            && t.conn.ackNum == r.conn.ackNum && t.conn.received == r.conn.received
  {
    hide Wrap32;
  }

  /** From tcp_connect on: once the peer's SYN, numbered irs, is in, what is acknowledged is irs + 1 and the
      payload bytes that arrived. */
  lemma ConnectionAcknowledges(remoteIp: uint32, remotePort: uint16, localPort: uint16, ticks: uint64,
                               synAck: Segment, es: seq<Event>)
    requires synAck.srcPort == remotePort && synAck.dstPort == localPort
    requires HasFlag(synAck.flags, FLAG_SYN) && HasFlag(synAck.flags, FLAG_ACK)
    requires InOrder(Connect(remoteIp, remotePort, localPort, ticks).conn, es, Wrap32(synAck.seqNum + 1))
    ensures var t := After(Connect(remoteIp, remotePort, localPort, ticks), [Receiving(synAck, remoteIp)] + es);
            && t.conn.state == Established
            && t.conn.ackNum == Wrap32(synAck.seqNum + 1 + |Arrived(es)|)
            && t.conn.received == Kept(Latest(es, []))
  {
    hide HasFlag, Wrap32, InOrder, Arrived, Latest;
    var r, e := Connect(remoteIp, remotePort, localPort, ticks), Receiving(synAck, remoteIp);
    EstablishedByHandshake(r, e);
    assert ([e] + es)[1..] == es;
    OrderIsPeers(r.conn, Step(r, e).conn, es, Wrap32(synAck.seqNum + 1));
    AckFollowsPeer(Step(r, e), es, []);
    WrapTwice(synAck.seqNum + 1, |Arrived(es)|);
  }

  // ---- Flags ----

  /** The first segment is a bare SYN; every later one acknowledges; payload goes out with PSH; and a FIN
      is the last, after which the connection is closed. */
  ghost predicate WellFlagged(r: Run) {
    && r.sent != [] && r.sent[0].flags == 0x02
    && forall i :: 1 <= i < |r.sent| ==>
         && (r.sent[i].flags == 0x10 || r.sent[i].flags == 0x18 || r.sent[i].flags == 0x11)
         && (r.sent[i].data != [] ==> r.sent[i].flags == 0x18)
         && (r.sent[i].flags == 0x11 ==> i == |r.sent| - 1 && r.conn.state == Closed)
  }

  lemma StepFlags(r: Run, e: Event)
    requires WellFlagged(r)
    ensures WellFlagged(Step(r, e))
  {
    hide HasFlag, Wrap32;
  }

  lemma {:induction false} RunFlags(r: Run, es: seq<Event>)
    requires WellFlagged(r)
    ensures WellFlagged(After(r, es))
    decreases |es|
  {
    hide WellFlagged, Step;
    if es != [] {
      StepFlags(r, es[0]);
      RunFlags(Step(r, es[0]), es[1..]);
    }
  }

  lemma ConnectFlags(remoteIp: uint32, remotePort: uint16, localPort: uint16, ticks: uint64)
    ensures WellFlagged(Connect(remoteIp, remotePort, localPort, ticks))
  {
  }

  /** Closing an open connection sends one FIN and ends it: nothing that happens later sends anything more.
      A wait that ran out ends it without a word. */
  lemma CloseEnds(r: Run, e: Event, es: seq<Event>)
    requires r.conn.state != Closed && (e.Closing? || (e.TimingOut? && r.conn.state != Established))
    ensures var t := After(r, [e] + es);
            && t.conn == r.conn.(state := Closed)
            && t.sent == r.sent + if e.TimingOut? then []
                                  else [Segment(r.conn.localPort, r.conn.remotePort, r.conn.seqNum, r.conn.ackNum,
                                                0x11, [])]
  {
    assert ([e] + es)[1..] == es;
    ClosedIsSilent(Step(r, e), es);
    assert r.sent + [] == r.sent;
  }

  /** Connecting sends one segment, a SYN from this port at the initial sequence number, which it uses up. */
  lemma ConnectingEmits(remoteIp: uint32, remotePort: uint16, localPort: uint16, ticks: uint64)
    ensures var r, iss := Connect(remoteIp, remotePort, localPort, ticks), ticks * 12345 % TWO_32;
            && r.sent == [Segment(localPort, remotePort, iss, 0, 0x02, [])]
            && r.conn == Conn(remoteIp, localPort, remotePort, (iss + 1) % TWO_32, 0, SynSent, [], false)
  {
  }

  /** Sending on an established connection puts one segment out. */
  lemma SendingEmits(r: Run, data: seq<uint8>)
    requires r.conn.state == Established
    ensures Step(r, Sending(data)).sent
         == r.sent + [Segment(r.conn.localPort, r.conn.remotePort, r.conn.seqNum, r.conn.ackNum, 0x18, data)]
  {
  }

  /** The two events differ at most in the number that an incoming segment acknowledges. */
  predicate SameButAck(d: Event, e: Event) {
    d == e || (d.Receiving? && e.Receiving? && d == e.(segment := e.segment.(ackNum := d.segment.ackNum)))
  }

  /** That number is never looked at: whatever incoming segments acknowledge, a SYN-ACK for some other SYN
      included, the run is the same. */
  lemma {:induction false} AckNumbersAreIgnored(r: Run, ds: seq<Event>, es: seq<Event>)
    requires |ds| == |es| && forall k :: 0 <= k < |ds| ==> SameButAck(ds[k], es[k])
    ensures After(r, ds) == After(r, es)
    decreases |ds|
  {
    hide HasFlag, Wrap32, SameButAck;
    if ds != [] {
      AckIsIgnored(r, ds[0], es[0]);
      AckNumbersAreIgnored(Step(r, ds[0]), ds[1..], es[1..]);
    }
  }

  lemma AckIsIgnored(r: Run, d: Event, e: Event)
    requires SameButAck(d, e)
    ensures Step(r, d) == Step(r, e)
  {
    hide HasFlag, Wrap32;
  }

  lemma SynAckFlags()
    ensures HasFlag(FLAG_SYN + FLAG_ACK, FLAG_SYN) && HasFlag(FLAG_SYN + FLAG_ACK, FLAG_ACK)
  {
    assert HasFlag(0x12, FLAG_SYN) && HasFlag(0x12, FLAG_ACK);
  }

  /** A connection that has sent its SYN is established by a SYN-ACK that acknowledges any number at all. */
  lemma AnySynAckEstablishes(remoteIp: uint32, remotePort: uint16, localPort: uint16, ticks: uint64,
                             seqNum: uint32, ackNum: uint32)
    ensures var synAck := Segment(remotePort, localPort, seqNum, ackNum, FLAG_SYN + FLAG_ACK, []);
            After(Connect(remoteIp, remotePort, localPort, ticks), [Receiving(synAck, remoteIp)]).conn.state
              == Established
  {
    hide Wrap32;
    var r := Connect(remoteIp, remotePort, localPort, ticks);
    var e := Receiving(Segment(remotePort, localPort, seqNum, ackNum, FLAG_SYN + FLAG_ACK, []), remoteIp);
    EstablishedByHandshake(r, e);
    assert [e][1..] == [];
    SynAckFlags();
    assert After(r, [e]) == After(Step(r, e), []);
  }

  /** Once closed, a connection sends nothing more and ignores whatever arrives. */
  lemma {:induction false} ClosedIsSilent(r: Run, es: seq<Event>)
    requires r.conn.state == Closed
    ensures After(r, es) == r
    decreases |es|
  {
    hide HasFlag;
    if es != [] {
      ClosedIsSilent(r, es[1..]);
    }
  }

  // ---- Reassembly ----

  /** The stream position a receiver computes from a segment's sequence number. */
  function Position(s: Segment, iss: uint32): nat {
    (s.seqNum - (iss + 1)) % TWO_32
  }

  lemma {:induction false} StreamPrefix(sent: seq<Segment>, i: nat)
    requires i <= |sent|
    ensures Stream(sent[..i]) <= Stream(sent)
    decreases |sent| - i
  {
    if i < |sent| {
      StreamPrefix(sent, i + 1);
      assert sent[..i + 1] == sent[..i] + [sent[i]];
      StreamStep(sent[..i], sent[i]);
    } else {
      assert sent[..i] == sent;
    }
  }

  /** While less than 2^32 bytes have been sent, the position computed from a segment is where its
      payload lies in the stream, and the next segment's payload begins where it ends. */
  lemma SegmentsTile(r: Run, iss: uint32, i: nat)
    requires InSequence(r, iss) && 1 <= i < |r.sent| && |Stream(r.sent)| < TWO_32
    ensures var at := Position(r.sent[i], iss);
            && at == |Stream(r.sent[..i])|
            && at + |r.sent[i].data| == |Stream(r.sent[..i + 1])| <= |Stream(r.sent)|
            && Stream(r.sent)[at..at + |r.sent[i].data|] == r.sent[i].data
  {
    hide Stream, Wrap32;
    StreamPrefix(r.sent, i);
    StreamPrefix(r.sent, i + 1);
    assert r.sent[..i + 1] == r.sent[..i] + [r.sent[i]];
    StreamStep(r.sent[..i], r.sent[i]);
    assert Positioned(r.sent, iss, i);
    PositionOf(r.sent[i], iss, |Stream(r.sent[..i])|);
  }

  /** What a receiver decodes from a segment's bytes places the payload where it belongs. */
  lemma DecodedSegmentsTile(r: Run, iss: uint32, i: nat, src: uint32, dst: uint32)
    requires InSequence(r, iss) && 1 <= i < |r.sent| && |Stream(r.sent)| < TWO_32
    requires TCP_HEADER + |r.sent[i].data| < TWO_16
    ensures var d := Parse(Bytes(r.sent[i], src, dst));
            && Position(d, iss) == |Stream(r.sent[..i])|
            && Position(d, iss) + |d.data| == |Stream(r.sent[..i + 1])| <= |Stream(r.sent)|
            && Stream(r.sent)[Position(d, iss)..Position(d, iss) + |d.data|] == d.data
  {
    hide Stream, Position, Bytes, Parse, InSequence, HeaderLength;
    SegmentsTile(r, iss, i);
    SegmentRoundTrip(r.sent[i], src, dst);
  }

  lemma PositionOf(s: Segment, iss: uint32, n: nat)
    requires s.seqNum == Wrap32(iss + 1 + n) && n < TWO_32
    ensures Position(s, iss) == n
  {
    var q := if iss + 1 + n < TWO_32 then 0 else if iss + 1 + n < 2 * TWO_32 then 1 else 2;
    DivModUnique(iss + 1 + n, TWO_32, q, iss + 1 + n - q * TWO_32);
    DivModUnique(s.seqNum - (iss + 1), TWO_32, -q, n);
  }

  /** Every byte of the stream is in exactly one segment: no gap, no overlap. */
  lemma {:induction false} ByteIsCovered(r: Run, iss: uint32, n: nat, b: nat) returns (i: nat)
    requires InSequence(r, iss) && 1 <= n <= |r.sent| && b < |Stream(r.sent[..n])| && b < |Stream(r.sent)| < TWO_32
    ensures 1 <= i < n && Position(r.sent[i], iss) <= b < Position(r.sent[i], iss) + |r.sent[i].data|
    ensures r.sent[i].data[b - Position(r.sent[i], iss)] == Stream(r.sent)[b]
    decreases n
  {
    hide InSequence, Position, Stream;
    FirstIsEmpty(r, iss);
    SegmentsTile(r, iss, n - 1);
    if b < |Stream(r.sent[..n - 1])| {
      i := ByteIsCovered(r, iss, n - 1, b);
    } else {
      i := n - 1;
      var at := Position(r.sent[i], iss);
      assert Stream(r.sent)[at..at + |r.sent[i].data|][b - at] == Stream(r.sent)[b];
    }
  }

  lemma FirstIsEmpty(r: Run, iss: uint32)
    requires InSequence(r, iss)
    ensures Stream(r.sent[..1]) == []
  {
    assert r.sent[..1][..0] == [];
  }

  lemma PayloadsDoNotOverlap(r: Run, iss: uint32, i: nat, j: nat)
    requires InSequence(r, iss) && 1 <= i < j < |r.sent| && |Stream(r.sent)| < TWO_32
    ensures Position(r.sent[i], iss) + |r.sent[i].data| <= Position(r.sent[j], iss)
  {
    hide InSequence, Position, Stream;
    SegmentsTile(r, iss, i);
    SegmentsTile(r, iss, j);
    StreamPrefix(r.sent[..j], i + 1);
    assert r.sent[..j][..i + 1] == r.sent[..i + 1];
  }

  /** From tcp_connect on, after any sends, receives, timeouts and close: the next sequence number
      is the initial one plus one plus the payload sent, and the payloads, placed by their
      sequence numbers, are the stream. */
  lemma ConnectionSpellsStream(remoteIp: uint32, remotePort: uint16, localPort: uint16, ticks: uint64,
                               es: seq<Event>, b: nat)
    returns (i: nat)
    requires var r := After(Connect(remoteIp, remotePort, localPort, ticks), es);
             b < |Stream(r.sent)| < TWO_32
    ensures var r, iss := After(Connect(remoteIp, remotePort, localPort, ticks), es), Wrap32(ticks * 12345);
            && r.conn.seqNum == Wrap32(iss + 1 + |Stream(r.sent)|)
            && 1 <= i < |r.sent| && Position(r.sent[i], iss) <= b < Position(r.sent[i], iss) + |r.sent[i].data|
            && r.sent[i].data[b - Position(r.sent[i], iss)] == Stream(r.sent)[b]
  {
    hide Connect, Stream, Position, Wrap32;
    var iss := Wrap32(ticks * 12345);
    ConnectInSequence(remoteIp, remotePort, localPort, ticks);
    RunInSequence(Connect(remoteIp, remotePort, localPort, ticks), iss, es);
    var r := After(Connect(remoteIp, remotePort, localPort, ticks), es);
    assert r.sent[..|r.sent|] == r.sent;
    i := ByteIsCovered(r, iss, |r.sent|, b);
  }
}
