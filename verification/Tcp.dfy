/** The TCP layer: one connection at a time, and the segments it hands to IP. */
module Tcp {
  import opened Bits
  import opened Checksums
  import opened Ip
  import opened TcpSegments
  import Spec = TcpStream

  /** A connection, and the segments sent on it. */
  class Connection {
    var remoteIp: uint32
    var localPort: uint16
    var remotePort: uint16
    var seqNum: uint32
    var ackNum: uint32
    var state: Spec.State
    var received: seq<uint8>
    var ready: bool
    ghost var sent: seq<Segment>

    constructor ()
      ensures state == Spec.Closed
    {
      remoteIp, localPort, remotePort, seqNum, ackNum, state, received, ready := 0, 0, 0, 0, 0, Spec.Closed, [], false;
      sent := [];
    }

    ghost function Abs(): Spec.Run
      reads this
    {
      Spec.Run(Spec.Conn(remoteIp, localPort, remotePort, seqNum, ackNum, state, received, ready), sent)
    }
  }

  /** tcp_send_packet up to ip_send: header, payload, checksum. */
  method BuildSegment(s: Segment, src: uint32, dst: uint32) returns (packet: array<uint8>)
    requires TCP_HEADER + |s.data| <= PACKET_SIZE
    ensures fresh(packet) && packet.Length == PACKET_SIZE
    ensures packet[..TCP_HEADER + |s.data|] == Bytes(s, src, dst)
  {
    hide Checksum, Be16, Be32;
    packet := new uint8[PACKET_SIZE](_ => 0);
    FillSegmentHeader(packet, s);
    CopyPayload(packet, s);
    ghost var bare := packet[..TCP_HEADER + |s.data|];
    var checksum := TcpChecksum(src, dst, packet, TCP_HEADER + |s.data|);
    Store16(packet, TCP_CHECKSUM_AT, checksum);
    assert packet[..TCP_HEADER + |s.data|] == Put(bare, TCP_CHECKSUM_AT, checksum);
  }

  method FillSegmentHeader(packet: array<uint8>, s: Segment)
    requires TCP_HEADER <= packet.Length
    modifies packet
    ensures packet[..TCP_HEADER] == Bare(s.(data := []))
  {
    hide Swap, Le32, Be16, Be32, Reversed;
    SwappedBytes(WINDOW);
    var at := FillPortsAndNumbers(packet, s);
    at := Write8(packet, at, 0x50, packet[..at]);
    at := Write8(packet, at, s.flags, packet[..at]);
    at := Write16(packet, at, Htons(WINDOW), packet[..at]);
    at := Write16(packet, at, 0, packet[..at]);
    at := Write16(packet, at, 0, packet[..at]);
  }

  method FillPortsAndNumbers(packet: array<uint8>, s: Segment) returns (at: nat)
    requires TCP_HEADER <= packet.Length
    modifies packet
    ensures at == 12 && packet[..12] == Be16(s.srcPort) + Be16(s.dstPort) + Be32(s.seqNum) + Be32(s.ackNum)
  {
    hide Swap, Le32, Be16, Be32, Reversed;
    SwappedBytes(s.srcPort);
    SwappedBytes(s.dstPort);
    ReversedBytes(s.seqNum);
    ReversedBytes(s.ackNum);
    at := Write16(packet, 0, Htons(s.srcPort), []);
    at := Write16(packet, at, Htons(s.dstPort), packet[..at]);
    at := Write32(packet, at, Htonl(s.seqNum), packet[..at]);
    at := Write32(packet, at, Htonl(s.ackNum), packet[..at]);
  }

  method CopyPayload(packet: array<uint8>, s: Segment)
    requires TCP_HEADER + |s.data| <= packet.Length && packet[..TCP_HEADER] == Bare(s.(data := []))
    modifies packet
    ensures packet[..TCP_HEADER + |s.data|] == Bare(s)
  {
    hide Be16, Be32;
    for i := 0 to |s.data|
      invariant packet[..TCP_HEADER] == Bare(s.(data := []))
      invariant packet[TCP_HEADER..TCP_HEADER + i] == s.data[..i]
    {
      packet[TCP_HEADER + i] := s.data[i];
    }
    assert packet[..TCP_HEADER + |s.data|] == packet[..TCP_HEADER] + packet[TCP_HEADER..TCP_HEADER + |s.data|];
  }

  // ---- The layer ----

  /** What ip_send is asked to carry. */
  datatype Packet = Packet(dst: uint32, bytes: seq<uint8>)

  predicate AllFit(ss: seq<Segment>) {
    forall i :: 0 <= i < |ss| ==> TCP_HEADER + |ss[i].data| <= PACKET_SIZE
  }

  function Packets(ss: seq<Segment>, src: uint32, dst: uint32): seq<Packet>
    requires AllFit(ss)
  {
    if ss == [] then [] else [Packet(dst, Bytes(ss[0], src, dst))] + Packets(ss[1..], src, dst)
  }

  lemma {:induction false} PacketsConcat(a: seq<Segment>, b: seq<Segment>, src: uint32, dst: uint32)
    requires AllFit(a) && AllFit(b)
    ensures AllFit(a + b) && Packets(a + b, src, dst) == Packets(a, src, dst) + Packets(b, src, dst)
  {
    hide Bytes, Packets;
    PacketsUnfold(a, src, dst);
    if a == [] {
      assert a + b == b;
    } else {
      PacketsConcat(a[1..], b, src, dst);
      assert (a + b)[1..] == a[1..] + b;
      PacketsUnfold(a + b, src, dst);
    }
  }

  lemma PacketsUnfold(ss: seq<Segment>, src: uint32, dst: uint32)
    requires AllFit(ss)
    ensures Packets(ss, src, dst)
         == if ss == [] then [] else [Packet(dst, Bytes(ss[0], src, dst))] + Packets(ss[1..], src, dst)
  {
    hide Bytes;
  }

  lemma OnePacket(s: Segment, src: uint32, dst: uint32)
    requires TCP_HEADER + |s.data| <= PACKET_SIZE
    ensures AllFit([s]) && Packets([s], src, dst) == [Packet(dst, Bytes(s, src, dst))]
  {
    hide Bytes;
    assert [s][1..] == [];
  }

  class TcpLayer {
    var active: Connection?
    var nextLocalPort: uint16
    const localIp: uint32
    var wire: seq<Packet>

    constructor (localIp: uint32)
      ensures active == null && nextLocalPort == 49152 && wire == []
    {
      active, nextLocalPort, wire := null, 49152, [];
      this.localIp := localIp;
    }

    /** Since the connection had sent `before` and the wire was `was`, the wire has carried exactly
        the segments the connection has sent. */
    ghost predicate Carried(conn: Connection, before: seq<Segment>, was: seq<Packet>)
      reads this, conn
    {
      && before <= conn.sent && AllFit(conn.sent[|before|..])
      && wire == was + Packets(conn.sent[|before|..], localIp, conn.remoteIp)
    }

    /** tcp_send_packet */
    method SendPacket(conn: Connection, flags: uint8, data: seq<uint8>)
      requires TCP_HEADER + |data| <= PACKET_SIZE
      modifies this`wire, conn`sent
      ensures conn.Abs() == Spec.Emit(old(conn.Abs()), flags, data)
      ensures Carried(conn, old(conn.sent), old(wire))
    {
      hide Bytes, Packets;
      var s := Segment(conn.localPort, conn.remotePort, conn.seqNum, conn.ackNum, flags, data);
      var packet := BuildSegment(s, localIp, conn.remoteIp);
      wire := wire + [Packet(conn.remoteIp, packet[..TCP_HEADER + |data|])];
      conn.sent := conn.sent + [s];
      OnePacket(s, localIp, conn.remoteIp);
      assert conn.sent[|old(conn.sent)|..] == [s];
    }

    /** tcp_connect up to its wait for a SYN-ACK. */
    method Connect(ip: uint32, port: uint16, conn: Connection, ticks: uint64)
      modifies this, conn
      ensures active == conn && nextLocalPort as int == (old(nextLocalPort) + 1) % TWO_16
      ensures conn.Abs() == Spec.Connect(ip, port, old(nextLocalPort), ticks)
      ensures Carried(conn, [], old(wire))
    {
      hide Bytes, Packets, Wrap32;
      FillConnection(conn, ip, port, nextLocalPort, ticks);
      nextLocalPort := (nextLocalPort + 1) % TWO_16;
      active := conn;
      SendPacket(conn, Spec.FLAG_SYN, []);
      conn.seqNum := Wrap32(conn.seqNum + 1);
    }

    method FillConnection(conn: Connection, ip: uint32, port: uint16, localPort: uint16, ticks: uint64)
      modifies conn
      ensures conn.Abs() == Spec.Opening(ip, port, localPort, ticks)
    {
      conn.remoteIp, conn.remotePort, conn.localPort := ip, port, localPort;
      conn.seqNum, conn.ackNum := Wrap32(ticks * 12345), 0;
      conn.state, conn.received, conn.ready, conn.sent := Spec.SynSent, [], false, [];
    }

    /** The end of tcp_connect's wait. */
    method FinishConnect(conn: Connection) returns (result: int)
      modifies this`active, conn`state
      ensures conn.Abs() == Spec.GiveUp(old(conn.Abs()))
      ensures result == (if old(conn.state) == Spec.Established then 0 else -1)
      ensures active == (if result == 0 then old(active) else null)
    {
      if conn.state == Spec.Established {
        return 0;
      }
      conn.state := Spec.Closed;
      active := null;
      return -1;
    }

    /** tcp_send */
    method Send(conn: Connection, data: seq<uint8>) returns (result: int)
      requires TCP_HEADER + |data| <= PACKET_SIZE
      modifies this`wire, conn
      ensures result == (if old(conn.state) == Spec.Established then |data| else -1)
      ensures conn.Abs() == Spec.Send(old(conn.Abs()), data)
      ensures Carried(conn, old(conn.sent), old(wire))
    {
      if conn.state != Spec.Established {
        assert conn.sent[|conn.sent|..] == [];
        return -1;
      }
      SendPacket(conn, Spec.FLAG_PSH + Spec.FLAG_ACK, data);
      conn.seqNum := Wrap32(conn.seqNum + |data|);
      return |data|;
    }

    /** tcp_close */
    method Close(conn: Connection)
      modifies this, conn
      ensures conn.Abs() == Spec.Close(old(conn.Abs()))
      ensures Carried(conn, old(conn.sent), old(wire)) && nextLocalPort == old(nextLocalPort)
      ensures active == (if old(conn.state) != Spec.Closed && old(active) == conn then null else old(active))
    {
      if conn.state == Spec.Closed {
        assert conn.sent[|conn.sent|..] == [];
        return;
      }
      SendPacket(conn, Spec.FLAG_FIN + Spec.FLAG_ACK, []);
      conn.state := Spec.Closed;
      if active == conn {
        active := null;
      }
    }

    method Acknowledge(conn: Connection, ackNum: nat)
      modifies this`wire, conn
      ensures conn.Abs() == Spec.Acknowledge(old(conn.Abs()), ackNum) && conn.remoteIp == old(conn.remoteIp)
      ensures Carried(conn, old(conn.sent), old(wire))
    {
      conn.ackNum := Wrap32(ackNum);
      SendPacket(conn, Spec.FLAG_ACK, []);
    }

    /** tcp_receive */
    method Receive(packet: array<uint8>, length: uint16, src: uint32)
      requires length <= packet.Length
      requires TCP_HEADER <= length ==> HeaderLength(packet[..length]) <= length
      modifies this`wire, if active == null then {} else {active}
      ensures length < TCP_HEADER || active == null ==> unchanged(this) && (active != null ==> unchanged(active))
      ensures TCP_HEADER <= length && active != null ==>
        && active.Abs() == Spec.Receive(old(active.Abs()), Parse(packet[..length]), src)
        && Carried(active, old(active.sent), old(wire))
    {
      hide Spec.HasFlag, Htons, Htonl, Load32, Packets, Spec.Receive;
      if length < TCP_HEADER || active == null {
        return;
      }
      ghost var s := Parse(packet[..length]);
      var srcPort, dstPort := Htons(Word(packet[0], packet[1])), Htons(Word(packet[2], packet[3]));
      var seqNum: nat := Htonl(Load32(packet[..length], 4));
      if src != active.remoteIp || srcPort != active.remotePort || dstPort != active.localPort {
        NotFromPeer(active.Abs(), s, src);
        NothingCarried(active);
        return;
      }
      var flags := packet[13];
      var data := packet[packet[12] / 16 * 4..length];
      assert data == s.data;
      TakeFromPeer(active, flags, seqNum, data, s, src);
    }

    lemma NotFromPeer(r: Spec.Run, s: Segment, src: uint32)
      requires src != r.conn.remoteIp || s.srcPort != r.conn.remotePort || s.dstPort != r.conn.localPort
      ensures Spec.Receive(r, s, src) == r
    {
    }

    /** tcp_receive from its switch on the connection's state. */
    method TakeFromPeer(conn: Connection, flags: uint8, seqNum: uint32, data: seq<uint8>, ghost s: Segment,
                        ghost src: uint32)
      requires s.flags == flags && s.seqNum == seqNum && s.data == data
      requires src == conn.remoteIp && s.srcPort == conn.remotePort && s.dstPort == conn.localPort
      modifies this`wire, conn
      ensures conn.Abs() == Spec.Receive(old(conn.Abs()), s, src)
      ensures Carried(conn, old(conn.sent), old(wire))
    {
      hide Spec.HasFlag, Packets, Spec.Acknowledge, Spec.Finish, Spec.Absorb;
      match conn.state
      case SynSent =>
        if Spec.HasFlag(flags, Spec.FLAG_SYN) && Spec.HasFlag(flags, Spec.FLAG_ACK) {
          conn.state := Spec.Established;
          Acknowledge(conn, seqNum + 1);
        } else {
          NothingCarried(conn);
        }
      case Established =>
        TakeSegment(conn, flags, seqNum, data);
      case _ =>
        NothingCarried(conn);
    }

    lemma NothingCarried(conn: Connection)
      ensures Carried(conn, conn.sent, wire)
    {
      assert conn.sent[|conn.sent|..] == [];
    }

    /** tcp_receive's branch for an established connection. */
    method TakeSegment(conn: Connection, flags: uint8, seqNum: uint32, data: seq<uint8>)
      modifies this`wire, conn
      ensures conn.Abs() == Spec.Finish(Spec.Absorb(old(conn.Abs()), seqNum, data), flags, seqNum)
      ensures Carried(conn, old(conn.sent), old(wire))
    {
      hide Spec.HasFlag, Packets, Spec.Acknowledge;
      NothingCarried(conn);
      if data != [] {
        conn.received := if |data| > Spec.RECV_BUFFER then data[..Spec.RECV_BUFFER] else data;
        conn.ready := true;
        Acknowledge(conn, seqNum + |data|);
      }
      if Spec.HasFlag(flags, Spec.FLAG_FIN) {
        ghost var before, was := conn.sent, wire;
        Acknowledge(conn, seqNum + 1);
        CarriedOn(conn, old(conn.sent), before, old(wire), was);
        conn.state := Spec.Closed;
      }
    }

    lemma CarriedOn(conn: Connection, before: seq<Segment>, middle: seq<Segment>, was: seq<Packet>,
                    halfway: seq<Packet>)
      requires before <= middle <= conn.sent && AllFit(middle[|before|..])
      requires halfway == was + Packets(middle[|before|..], localIp, conn.remoteIp)
      requires Carried(conn, middle, halfway)
      ensures Carried(conn, before, was)
    {
      hide Bytes, Packets, AllFit;
      var a, b := middle[|before|..], conn.sent[|middle|..];
      PacketsConcat(a, b, localIp, conn.remoteIp);
      SentInTwo(before, middle, conn.sent);
      Rejoined(was, Packets(a, localIp, conn.remoteIp), Packets(b, localIp, conn.remoteIp));
    }

    static lemma SentInTwo(before: seq<Segment>, middle: seq<Segment>, sent: seq<Segment>)
      requires before <= middle <= sent
      ensures before <= sent && sent[|before|..] == middle[|before|..] + sent[|middle|..]
    {
    }

    static lemma Rejoined(a: seq<Packet>, b: seq<Packet>, c: seq<Packet>)
      ensures a + b + c == a + (b + c)
    {
    }
  }
}
