/** IP packets: the header ip_send builds and what ip_receive reads from it. */
module Ip {
  import opened Bits
  import opened Checksums

  const HEADER: nat := 20
  const PACKET_SIZE: nat := 1500
  const PROTO_TCP: uint8 := 6
  const CHECKSUM_AT: nat := 10

  /** A 16-bit field in network order. */
  function Be16(v: uint16): (b: seq<uint8>)
    ensures |b| == 2
  {
    [v / 0x100, v % 0x100]
  }

  /** A 32-bit field stored as the machine holds it. */
  function Le32(v: uint32): (b: seq<uint8>)
    ensures |b| == 4
  {
    [v % 0x100, v / 0x100 % 0x100, v / 0x1_0000 % 0x100, v / 0x100_0000]
  }

  function Load32(b: seq<uint8>, at: nat): (v: uint32)
    requires at + 4 <= |b|
  {
    Word(b[at], b[at + 1]) + 0x1_0000 * Word(b[at + 2], b[at + 3])
  }

  /** The header before its checksum is filled in. */
  function BareHeader(total: uint16, id: uint16, protocol: uint8, src: uint32, dst: uint32): (h: seq<uint8>)
    ensures |h| == HEADER
  {
    [0x45, 0] + Be16(total) + Be16(id) + [0, 0, 64, protocol, 0, 0] + Le32(src) + Le32(dst)
  }

  function Header(total: uint16, id: uint16, protocol: uint8, src: uint32, dst: uint32): (h: seq<uint8>)
    ensures |h| == HEADER
  {
    var bare := BareHeader(total, id, protocol, src, dst);
    Put(bare, CHECKSUM_AT, Checksum(bare))
  }

  /** The length field, byte-swapped. */
  function TotalLength(packet: seq<uint8>): (n: uint16)
    requires HEADER <= |packet|
  {
    Word(packet[3], packet[2])
  }

  /** What ip_receive makes of a packet: nothing, or a protocol, a sender and a payload. */
  datatype Received = Dropped | Payload(protocol: uint8, src: uint32, data: seq<uint8>)

  function Receive(packet: seq<uint8>, localIp: uint32): Received
    requires HEADER <= |packet| ==> HEADER <= TotalLength(packet) <= |packet|
  {
    if |packet| < HEADER || Load32(packet, 16) != localIp then Dropped
    else Payload(packet[9], Load32(packet, 12), packet[HEADER..TotalLength(packet)])
  }

  /** Only a packet that is whole and for this machine is passed on. */
  lemma OthersAreDropped(packet: seq<uint8>, localIp: uint32)
    requires HEADER <= |packet| ==> HEADER <= TotalLength(packet) <= |packet|
    ensures Receive(packet, localIp) == Dropped <==>
              |packet| < 20 || [packet[16], packet[17], packet[18], packet[19]] != Le32(localIp)
  {
    if |packet| >= HEADER {
      LoadIsBytes(packet[16], packet[17], packet[18], packet[19], localIp);
    }
  }

  lemma LoadIsBytes(a: uint8, b: uint8, c: uint8, d: uint8, v: uint32)
    ensures Word(a, b) + 0x1_0000 * Word(c, d) == v <==> [a, b, c, d] == Le32(v)
  {
    hide Word, Le32;
    BytesOf(v);
    LowAndHigh(Word(a, b), Word(c, d), v);
    SameWord(a, b, v % 0x100, v / 0x100 % 0x100);
    SameWord(c, d, v / 0x1_0000 % 0x100, v / 0x100_0000);
    BytesAre(v);
  }

  lemma LowAndHigh(low: uint16, high: uint16, v: uint32)
    ensures low + 0x1_0000 * high == v <==> low == v % TWO_16 && high == v / TWO_16
  {
  }

  lemma SameWord(a: uint8, b: uint8, c: uint8, d: uint8)
    ensures Word(a, b) == Word(c, d) <==> a == c && b == d
  {
  }

  lemma BytesAre(v: uint32)
    ensures Le32(v) == [v % 0x100, v / 0x100 % 0x100, v / 0x1_0000 % 0x100, v / 0x100_0000]
  {
  }

  lemma LoadStored(v: uint32, b: seq<uint8>, at: nat)
    requires at + 4 <= |b| && b[at] == Le32(v)[0] && b[at + 1] == Le32(v)[1]
    requires b[at + 2] == Le32(v)[2] && b[at + 3] == Le32(v)[3]
    ensures Load32(b, at) == v
  {
    BytesOf(v);
  }

  lemma BytesOf(v: uint32)
    ensures Word(v % 0x100, v / 0x100 % 0x100) == v % TWO_16
    ensures Word(v / 0x1_0000 % 0x100, v / 0x100_0000) == v / TWO_16
  {
  }

  lemma HeaderFields(total: uint16, id: uint16, protocol: uint8, src: uint32, dst: uint32, at: nat)
    requires at < 4
    ensures var h := Header(total, id, protocol, src, dst);
            && h[9] == protocol && h[2] == total / 0x100 && h[3] == total % 0x100
            && h[12 + at] == Le32(src)[at] && h[16 + at] == Le32(dst)[at]
  {
    hide Checksum, Le32;
  }

  /** The fields of section 3.1 of RFC 791: version 4, a header of five words, service 0, the length and
      identifier in network order, not fragmented, time to live 64, and the protocol. */
  lemma HeaderDecodes(total: uint16, id: uint16, protocol: uint8, src: uint32, dst: uint32)
    ensures var h := Header(total, id, protocol, src, dst);
            && h[0] / 16 == 4 && h[0] % 16 * 4 == |h| == 20 && h[1] == 0
            && Word(h[3], h[2]) == total && Word(h[5], h[4]) == id
            && h[6] == 0 && h[7] == 0 && h[8] == 64 && h[9] == protocol
            && Load32(h, 12) == src && Load32(h, 16) == dst
  {
    hide Checksum, Le32, Load32;
    var h := Header(total, id, protocol, src, dst);
    LoadStored(src, h, 12);
    LoadStored(dst, h, 16);
  }

  /** Every header sent verifies, and its receiver gets back the sender, protocol and payload, without
      whatever the link layer padded the frame with. */
  lemma SentIsReceived(id: uint16, protocol: uint8, src: uint32, dst: uint32, data: seq<uint8>, padding: seq<uint8>)
    requires HEADER + |data| < TWO_16
    ensures var header := Header(HEADER + |data|, id, protocol, src, dst);
            && Checksum(header) == 0
            && TotalLength(header + data + padding) == |header + data|
            && Receive(header + data + padding, dst) == Payload(protocol, src, data)
  {
    hide Checksum, Load32, Le32, Header, BareHeader;
    var header := Header(HEADER + |data|, id, protocol, src, dst);
    HeaderVerifies(HEADER + |data|, id, protocol, src, dst);
    var packet := header + data + padding;
    HeaderFields(HEADER + |data|, id, protocol, src, dst, 0);
    HeaderFields(HEADER + |data|, id, protocol, src, dst, 1);
    HeaderFields(HEADER + |data|, id, protocol, src, dst, 2);
    HeaderFields(HEADER + |data|, id, protocol, src, dst, 3);
    LoadStored(src, packet, 12);
    LoadStored(dst, packet, 16);
    assert packet[HEADER..HEADER + |data|] == data;
  }

  lemma HeaderVerifies(total: uint16, id: uint16, protocol: uint8, src: uint32, dst: uint32)
    ensures Checksum(Header(total, id, protocol, src, dst)) == 0
  {
    hide Checksum;
    StoredChecksumVerifies(BareHeader(total, id, protocol, src, dst), CHECKSUM_AT);
  }

  /** The byte swap both network layers write with shifts and an or. */
  function Htons(v: uint16): (r: uint16)
    ensures r == Swap(v)
  {
    SwapBytes16(v);
    Or(v / 0x100, v * 0x100 % TWO_16)
  }

  method Store16(packet: array<uint8>, at: nat, v: uint16)
    requires at + 2 <= packet.Length
    modifies packet
    ensures packet[..] == Put(old(packet[..]), at, v)
  {
    packet[at] := v % 0x100;
    packet[at + 1] := v / 0x100;
  }

  /** Fields are written in order: `done` is what the packet holds before each. */
  method Write8(packet: array<uint8>, at: nat, v: uint8, ghost done: seq<uint8>) returns (next: nat)
    requires at < packet.Length && packet[..at] == done
    modifies packet
    ensures next == at + 1 && packet[..next] == done + [v]
  {
    packet[at] := v;
    next := at + 1;
  }

  method Write16(packet: array<uint8>, at: nat, v: uint16, ghost done: seq<uint8>) returns (next: nat)
    requires at + 2 <= packet.Length && packet[..at] == done
    modifies packet
    ensures next == at + 2 && packet[..next] == done + [v % 0x100, v / 0x100]
  {
    packet[at] := v % 0x100;
    packet[at + 1] := v / 0x100;
    next := at + 2;
  }

  method Write32(packet: array<uint8>, at: nat, v: uint32, ghost done: seq<uint8>) returns (next: nat)
    requires at + 4 <= packet.Length && packet[..at] == done
    modifies packet
    ensures next == at + 4 && packet[..next] == done + Le32(v)
  {
    packet[at] := v % 0x100;
    packet[at + 1] := v / 0x100 % 0x100;
    packet[at + 2] := v / 0x1_0000 % 0x100;
    packet[at + 3] := v / 0x100_0000;
    next := at + 4;
  }

  lemma SwappedBytes(v: uint16)
    ensures [Swap(v) % 0x100, Swap(v) / 0x100] == Be16(v)
  {
  }

  class IpLayer {
    var localIp: uint32
    var ipId: uint16

    constructor (localIp: uint32)
      ensures this.localIp == localIp && ipId == 0
    {
      this.localIp, ipId := localIp, 0;
    }

    /** ip_send up to the link layer: the packet it hands over, in a buffer of 1500 bytes. */
    method BuildPacket(dst: uint32, protocol: uint8, payload: array<uint8>, length: uint16)
      returns (packet: array<uint8>)
      requires length <= payload.Length && HEADER + length <= PACKET_SIZE
      modifies this`ipId
      ensures fresh(packet) && packet.Length == PACKET_SIZE
      ensures ipId == (old(ipId) + 1) % TWO_16
      ensures packet[..HEADER + length]
           == Header(HEADER + length, old(ipId), protocol, localIp, dst) + payload[..length]
    {
      hide Checksum, BareHeader;
      packet := new uint8[PACKET_SIZE](_ => 0);
      FillHeader(packet, HEADER + length, ipId, protocol, localIp, dst);
      ipId := (ipId + 1) % TWO_16;
      ghost var bare := packet[..HEADER];
      var checksum := BufferChecksum(packet, HEADER);
      Store16(packet, CHECKSUM_AT, checksum);
      assert packet[..HEADER] == Put(bare, CHECKSUM_AT, checksum);
      CopyPayload(packet, payload, length);
    }
  }

  /** memcpy of the payload to just after the header. */
  method CopyPayload(packet: array<uint8>, payload: array<uint8>, length: uint16)
    requires HEADER + length <= packet.Length && length <= payload.Length && packet != payload
    modifies packet
    ensures packet[..HEADER + length] == old(packet[..HEADER]) + payload[..length]
  {
    for i := 0 to length
      invariant packet[..HEADER] == old(packet[..HEADER])
      invariant packet[HEADER..HEADER + i] == payload[..i]
    {
      packet[HEADER + i] := payload[i];
    }
    assert packet[..HEADER + length] == packet[..HEADER] + packet[HEADER..HEADER + length];
  }

  method FillHeader(packet: array<uint8>, total: uint16, id: uint16, protocol: uint8, src: uint32, dst: uint32)
    requires HEADER <= packet.Length
    modifies packet
    ensures packet[..HEADER] == BareHeader(total, id, protocol, src, dst)
  {
    hide Swap, Le32, Be16;
    var at := FillLengths(packet, total, id);
    at := Write8(packet, at, 64, packet[..at]);
    at := Write8(packet, at, protocol, packet[..at]);
    at := Write16(packet, at, 0, packet[..at]);
    at := Write32(packet, at, src, packet[..at]);
    at := Write32(packet, at, dst, packet[..at]);
  }

  /** Version, service, total length, identifier and fragment fields. */
  method FillLengths(packet: array<uint8>, total: uint16, id: uint16) returns (at: nat)
    requires HEADER <= packet.Length
    modifies packet
    ensures at == 8 && packet[..8] == [0x45, 0] + Be16(total) + Be16(id) + [0, 0]
  {
    hide Swap, Be16;
    SwappedBytes(total);
    SwappedBytes(id);
    at := Write8(packet, 0, 0x45, []);
    at := Write8(packet, at, 0, packet[..at]);
    at := Write16(packet, at, Htons(total), packet[..at]);
    at := Write16(packet, at, Htons(id), packet[..at]);
    at := Write16(packet, at, 0, packet[..at]);
  }
}
