/** ICMP echo: the request this machine sends and the reply it makes of a request in place. */
module Icmp {
  import opened Bits
  import opened Checksums
  import opened Ip

  const ECHO_REQUEST: uint8 := 8
  const ECHO_REPLY: uint8 := 0
  const ICMP_HEADER: nat := 8
  const REQUEST_SIZE: nat := 64
  const ICMP_CHECKSUM_AT: nat := 2

  /** A request before its checksum: the data bytes count up from their own offset. */
  function BareRequest(id: uint16, sequence: uint16): (b: seq<uint8>)
    ensures |b| == REQUEST_SIZE
  {
    [ECHO_REQUEST, 0, 0, 0] + Be16(id) + Be16(sequence)
    + seq(REQUEST_SIZE - ICMP_HEADER, i requires 0 <= i < 56 => i + ICMP_HEADER)
  }

  function Request(id: uint16, sequence: uint16): (b: seq<uint8>)
    ensures |b| == REQUEST_SIZE
  {
    Put(BareRequest(id, sequence), ICMP_CHECKSUM_AT, Checksum(BareRequest(id, sequence)))
  }

  /** The request with its type changed and its checksum recomputed over the changed message. */
  function Reply(b: seq<uint8>): (r: seq<uint8>)
    requires |b| >= ICMP_HEADER
    ensures |r| == |b|
  {
    var cleared := Put(b[0 := ECHO_REPLY], ICMP_CHECKSUM_AT, 0);
    Put(cleared, ICMP_CHECKSUM_AT, Checksum(cleared))
  }

  /** A request that is sent verifies; so does the reply to any request, whatever checksum the
      request carried, and it answers with the request's own identifier, sequence and data. */
  lemma EchoVerifies(id: uint16, sequence: uint16)
    ensures Checksum(Request(id, sequence)) == 0
    ensures var b := Request(id, sequence);
            && |b| == 64 && b[0] == 8 && b[1] == 0
            && Word(b[5], b[4]) == id && Word(b[7], b[6]) == sequence
            && forall i :: 8 <= i < 64 ==> b[i] == i
  {
    hide Checksum;
    StoredChecksumVerifies(BareRequest(id, sequence), ICMP_CHECKSUM_AT);
  }

  lemma ReplyVerifies(b: seq<uint8>)
    requires |b| >= ICMP_HEADER
    ensures Checksum(Reply(b)) == 0
    ensures Reply(b)[0] == 0 && Reply(b)[1] == b[1] && Reply(b)[4..] == b[4..]
  {
    hide Checksum;
    StoredChecksumVerifies(Put(b[0 := ECHO_REPLY], ICMP_CHECKSUM_AT, 0), ICMP_CHECKSUM_AT);
  }

  /** Apart from the checksum field, the reply differs from the request in its type alone. */
  lemma ReplyKeepsRest(b: seq<uint8>)
    requires |b| >= ICMP_HEADER && b[0] == ECHO_REQUEST
    ensures Sum(Put(Reply(b), ICMP_CHECKSUM_AT, 0)) + ECHO_REQUEST == Sum(Put(b, ICMP_CHECKSUM_AT, 0))
  {
    var x := Put(b, ICMP_CHECKSUM_AT, 0);
    var y := Put(Reply(b), ICMP_CHECKSUM_AT, 0);
    assert y == Put(x, 0, Word(0, b[1]));
    SumPut(x, 0, Word(0, b[1]));
  }

  class EchoState {
    var received: bool
    var srcIp: uint32

    constructor ()
      ensures !received && srcIp == 0
    {
      received, srcIp := false, 0;
    }

    /** icmp_send_echo_request up to ip_send. */
    method SendRequest(id: uint16, sequence: uint16) returns (packet: array<uint8>)
      modifies this
      ensures !received && srcIp == 0
      ensures fresh(packet) && packet[..] == Request(id, sequence)
    {
      hide Checksum, Be16;
      packet := new uint8[REQUEST_SIZE](_ => 0);
      FillRequestHeader(packet, id, sequence);
      FillCounting(packet);
      ghost var bare := packet[..];
      assert bare == BareRequest(id, sequence);
      assert packet[..REQUEST_SIZE] == bare;
      var checksum := BufferChecksum(packet, REQUEST_SIZE);
      Store16(packet, ICMP_CHECKSUM_AT, checksum);
      received, srcIp := false, 0;
    }

    method FillRequestHeader(packet: array<uint8>, id: uint16, sequence: uint16)
      requires packet.Length == REQUEST_SIZE
      modifies packet
      ensures packet[..ICMP_HEADER] == [ECHO_REQUEST, 0, 0, 0] + Be16(id) + Be16(sequence)
    {
      hide Swap, Be16;
      SwappedBytes(id);
      SwappedBytes(sequence);
      var at := Write8(packet, 0, ECHO_REQUEST, []);
      at := Write8(packet, at, 0, packet[..at]);
      at := Write16(packet, at, 0, packet[..at]);
      at := Write16(packet, at, Htons(id), packet[..at]);
      at := Write16(packet, at, Htons(sequence), packet[..at]);
    }

    method FillCounting(packet: array<uint8>)
      requires packet.Length == REQUEST_SIZE
      modifies packet
      ensures packet[..ICMP_HEADER] == old(packet[..ICMP_HEADER])
      ensures forall i :: ICMP_HEADER <= i < REQUEST_SIZE ==> packet[i] == i
    {
      for i := ICMP_HEADER to REQUEST_SIZE
        invariant packet[..ICMP_HEADER] == old(packet[..ICMP_HEADER])
        invariant forall k :: ICMP_HEADER <= k < i ==> packet[k] == k
      {
        packet[i] := i;
      }
    }

    /** icmp_receive: a request is turned into its reply in place; a reply is recorded. */
    method Receive(packet: array<uint8>, length: uint16, src: uint32) returns (answer: bool)
      requires length <= packet.Length
      modifies this, packet
      ensures answer <==> length >= ICMP_HEADER && old(packet[0]) == ECHO_REQUEST
      ensures answer ==> packet[..length] == Reply(old(packet[..length])) && unchanged(this)
      ensures !answer ==> unchanged(packet)
      ensures !answer && length >= ICMP_HEADER && packet[0] == ECHO_REPLY ==> received && srcIp == src
      ensures !answer && !(length >= ICMP_HEADER && packet[0] == ECHO_REPLY) ==> unchanged(this)
    {
      if length < ICMP_HEADER {
        return false;
      }
      if packet[0] == ECHO_REQUEST {
        ghost var before := packet[..length];
        packet[0] := ECHO_REPLY;
        Store16(packet, ICMP_CHECKSUM_AT, 0);
        assert packet[..length] == Put(before[0 := ECHO_REPLY], ICMP_CHECKSUM_AT, 0);
        ghost var cleared := packet[..length];
        var checksum := BufferChecksum(packet, length);
        Store16(packet, ICMP_CHECKSUM_AT, checksum);
        assert packet[..length] == Put(cleared, ICMP_CHECKSUM_AT, checksum);
        return true;
      }
      if packet[0] == ECHO_REPLY {
        received := true;
        srcIp := src;
      }
      return false;
    }
  }
}
