/** TCP segments as bytes: byte-swapped header fields, the pseudo-header checksum, and what a
    receiver reads back. */
module TcpSegments {
  import opened Bits
  import opened Checksums
  import opened Ip

  const TCP_HEADER: nat := 20
  const TCP_CHECKSUM_AT: nat := 16
  const WINDOW: uint16 := 8192

  /** A 32-bit field in network order. */
  function Be32(v: uint32): (b: seq<uint8>)
    ensures |b| == 4
  {
    [v / 0x100_0000, v / 0x1_0000 % 0x100, v / 0x100 % 0x100, v % 0x100]
  }

  /** `(val << n) & mask` and `(val >> n) & mask` for a mask of one byte at bit n. */
  lemma ByteMask(x: nat, n: nat)
    ensures And(x, Shl(0xFF, n)) == Shl(Shr(x, n) % 0x100, n)
  {
    Pow8();
    AndShifted(x, 0xFF, n);
    AndLow(Shr(x, n), 8);
  }

  /** The four-way byte reversal. */
  function Reversed(v: uint32): (r: uint32)
  {
    v / 0x100_0000 + 0x100 * (v / 0x1_0000 % 0x100) + 0x1_0000 * (v / 0x100 % 0x100) + 0x100_0000 * (v % 0x100)
  }

  lemma MaskedByte(x: nat, n: nat, p: nat, q: nat)
    requires p == Pow2(n) && q == x / p % 0x100
    ensures And(x, 0xFF * p) == q * p
  {
    hide And;
    ByteMask(x, n);
    ShlIsProduct(0xFF, n);
    ShrIsQuotient(x, n);
    ShlIsProduct(q, n);
  }

  lemma Pow24()
    ensures Pow2(8) == 0x100 && Pow2(16) == 0x1_0000 && Pow2(24) == 0x100_0000 && Pow2(0) == 1
  {
    Pow8();
    Pow20();
    assert Pow2(16) == 0x1_0000;
  }

  function Htonl(v: uint32): (r: uint32)
    ensures r == Reversed(v)
  {
    HtonlBytes(v);
    Or(Or(Or(And(v / 0x100_0000, 0xFF), And(v / 0x100, 0xFF00)), And(Wrap32(v * 0x100), 0xFF_0000)),
       And(Wrap32(v * 0x100_0000), 0xFF00_0000))
  }

  lemma HtonlBytes(v: uint32)
    ensures Or(Or(Or(And(v / 0x100_0000, 0xFF), And(v / 0x100, 0xFF00)), And(Wrap32(v * 0x100), 0xFF_0000)),
               And(Wrap32(v * 0x100_0000), 0xFF00_0000)) == Reversed(v)
  {
    hide And, Or, Wrap32;
    Pow24();
    HtonlMasks(v);
    var a, b, c, d := v / 0x100_0000, v / 0x1_0000 % 0x100, v / 0x100 % 0x100, v % 0x100;
    OrBelow(a, 0x100 * b, 8);
    OrBelow(a + 0x100 * b, 0x1_0000 * c, 16);
    OrBelow(a + 0x100 * b + 0x1_0000 * c, 0x100_0000 * d, 24);
  }

  lemma HtonlMasks(v: uint32)
    ensures And(v / 0x100_0000, 0xFF) == v / 0x100_0000
    ensures And(v / 0x100, 0xFF00) == 0x100 * (v / 0x1_0000 % 0x100)
    ensures And(Wrap32(v * 0x100), 0xFF_0000) == 0x1_0000 * (v / 0x100 % 0x100)
    ensures And(Wrap32(v * 0x100_0000), 0xFF00_0000) == 0x100_0000 * (v % 0x100)
  {
    hide And, Wrap32;
    Pow24();
    BytesInPlace(v);
    MaskedByte(v / 0x100_0000, 0, 1, v / 0x100_0000);
    MaskedByte(v / 0x100, 8, 0x100, v / 0x1_0000 % 0x100);
    MaskedByte(Wrap32(v * 0x100), 16, 0x1_0000, v / 0x100 % 0x100);
    MaskedByte(Wrap32(v * 0x100_0000), 24, 0x100_0000, v % 0x100);
  }

  lemma BytesInPlace(v: uint32)
    ensures v / 0x100_0000 / 1 % 0x100 == v / 0x100_0000
    ensures v / 0x100 / 0x100 % 0x100 == v / 0x1_0000 % 0x100
    ensures Wrap32(v * 0x100) / 0x1_0000 % 0x100 == v / 0x100 % 0x100
    ensures Wrap32(v * 0x100_0000) / 0x100_0000 % 0x100 == v % 0x100
  {
    hide Wrap32;
    ShiftedUp8(v);
    ShiftedUp24(v);
  }

  /** The word with the given bytes, highest first. */
  function FourBytes(a: nat, b: nat, c: nat, d: nat): nat {
    0x100_0000 * a + 0x1_0000 * b + 0x100 * c + d
  }

  predicate BytesAre(v: nat, a: nat, b: nat, c: nat, d: nat) {
    v < TWO_32 && v / 0x100_0000 == a && v / 0x1_0000 % 0x100 == b && v / 0x100 % 0x100 == c && v % 0x100 == d
  }

  lemma FromBytes(a: nat, b: nat, c: nat, d: nat)
    requires a < 0x100 && b < 0x100 && c < 0x100 && d < 0x100
    ensures BytesAre(FourBytes(a, b, c, d), a, b, c, d)
  {
    var v := FourBytes(a, b, c, d);
    DivModUnique(v, 0x100_0000, a, 0x1_0000 * b + 0x100 * c + d);
    DivModUnique(v, 0x1_0000, 0x100 * a + b, 0x100 * c + d);
    DivModUnique(v, 0x100, 0x1_0000 * a + 0x100 * b + c, d);
    DivModUnique(0x100 * a + b, 0x100, a, b);
    DivModUnique(0x1_0000 * a + 0x100 * b + c, 0x100, 0x100 * a + b, c);
  }

  lemma ToBytes(v: uint32) returns (a: nat, b: nat, c: nat, d: nat)
    ensures a < 0x100 && b < 0x100 && c < 0x100 && d < 0x100
    ensures v == FourBytes(a, b, c, d) && BytesAre(v, a, b, c, d)
  {
    a, b, c, d := v / 0x100_0000, v / 0x1_0000 % 0x100, v / 0x100 % 0x100, v % 0x100;
    assert v / 0x100 == v / 0x1_0000 * 0x100 + c;
    assert v / 0x1_0000 == v / 0x100_0000 * 0x100 + b;
  }

  lemma ShiftedUp8(v: uint32)
    ensures Wrap32(v * 0x100) / 0x1_0000 % 0x100 == v / 0x100 % 0x100
  {
    var a, b, c, d := ToBytes(v);
    FromBytes(b, c, d, 0);
    Wrapped(v * 0x100, a, FourBytes(b, c, d, 0));
  }

  lemma ShiftedUp24(v: uint32)
    ensures Wrap32(v * 0x100_0000) / 0x100_0000 % 0x100 == v % 0x100
  {
    var a, b, c, d := ToBytes(v);
    FromBytes(d, 0, 0, 0);
    Wrapped(v * 0x100_0000, 0x1_0000 * a + 0x100 * b + c, FourBytes(d, 0, 0, 0));
  }

  lemma Wrapped(x: nat, q: nat, r: nat)
    requires r < TWO_32 && x == q * TWO_32 + r
    ensures Wrap32(x) == r
  {
    DivModUnique(x, TWO_32, q, r);
  }

  lemma ReversedIs(v: uint32) returns (a: nat, b: nat, c: nat, d: nat)
    ensures a < 0x100 && b < 0x100 && c < 0x100 && d < 0x100
    ensures v == FourBytes(a, b, c, d) && BytesAre(v, a, b, c, d)
    ensures Reversed(v) == FourBytes(d, c, b, a) && BytesAre(FourBytes(d, c, b, a), d, c, b, a)
  {
    a, b, c, d := ToBytes(v);
    FromBytes(d, c, b, a);
  }

  /** htonl stores a word in network order, and applied twice gives it back. */
  lemma ReversedBytes(v: uint32)
    ensures Le32(Reversed(v)) == Be32(v)
    ensures Reversed(Reversed(v)) == v
  {
    hide Reversed, FourBytes;
    var a, b, c, d := ReversedIs(v);
    var e, f, g, h := ReversedIs(Reversed(v));
  }

  // ---- Segments ----

  /** The fields of a segment. */
  datatype Segment = Segment(srcPort: uint16, dstPort: uint16, seqNum: uint32, ackNum: uint32, flags: uint8,
                             data: seq<uint8>)

  /** The bytes of a segment before its checksum. */
  function Bare(s: Segment): (b: seq<uint8>)
    ensures |b| == TCP_HEADER + |s.data|
  {
    Be16(s.srcPort) + Be16(s.dstPort) + Be32(s.seqNum) + Be32(s.ackNum) + [0x50, s.flags]
    + Be16(WINDOW) + [0, 0, 0, 0] + s.data
  }

  /** The pseudo header of section 3.1 of RFC 793, as it lies in memory. */
  function Pseudo(src: uint32, dst: uint32, length: uint16): (b: seq<uint8>)
    ensures |b| == 12
  {
    Le32(src) + Le32(dst) + [0, PROTO_TCP] + Be16(length)
  }

  function Bytes(s: Segment, src: uint32, dst: uint32): (b: seq<uint8>)
    requires TCP_HEADER + |s.data| < TWO_16
    ensures |b| == TCP_HEADER + |s.data|
  {
    Put(Bare(s), TCP_CHECKSUM_AT, Checksum(Pseudo(src, dst, TCP_HEADER + |s.data|) + Bare(s)))
  }

  /** The fields tcp_receive reads, with its own byte swaps. */
  function Parse(b: seq<uint8>): Segment
    requires TCP_HEADER <= |b| && HeaderLength(b) <= |b|
  {
    Segment(Htons(Word(b[0], b[1])), Htons(Word(b[2], b[3])), Htonl(Load32(b, 4)), Htonl(Load32(b, 8)), b[13],
            b[HeaderLength(b)..])
  }

  function HeaderLength(b: seq<uint8>): nat
    requires TCP_HEADER <= |b|
  {
    b[12] / 16 * 4
  }

  /** Over the pseudo header the segment sums to all ones. */
  lemma SegmentVerifies(s: Segment, src: uint32, dst: uint32)
    requires TCP_HEADER + |s.data| < TWO_16
    ensures Checksum(Pseudo(src, dst, TCP_HEADER + |s.data|) + Bytes(s, src, dst)) == 0
  {
    hide Checksum, Pseudo;
    var p := Pseudo(src, dst, TCP_HEADER + |s.data|);
    var c := Checksum(p + Bare(s));
    StoredChecksumVerifies(p + Bare(s), 12 + TCP_CHECKSUM_AT);
    assert Put(p + Bare(s), 12 + TCP_CHECKSUM_AT, c) == p + Put(Bare(s), TCP_CHECKSUM_AT, c);
  }

  /** A receiver that takes the pseudo header from the packet's own IP header, the addresses, the protocol
      and the length, finds that the segment verifies. */
  lemma PacketVerifies(id: uint16, s: Segment, src: uint32, dst: uint32)
    requires HEADER + TCP_HEADER + |s.data| < TWO_16
    ensures var h := Header(HEADER + TCP_HEADER + |s.data|, id, 6, src, dst);
            var length := Word(h[3], h[2]) - 20;
            && 0 <= length < TWO_16
            && Checksum(h[12..20] + [0, h[9]] + [length / 0x100, length % 0x100] + Bytes(s, src, dst)) == 0
  {
    hide Checksum, Bytes;
    HeaderDecodes(HEADER + TCP_HEADER + |s.data|, id, 6, src, dst);
    SegmentVerifies(s, src, dst);
    PseudoFromHeader(HEADER + TCP_HEADER + |s.data|, id, src, dst, TCP_HEADER + |s.data|);
  }

  lemma PseudoFromHeader(total: uint16, id: uint16, src: uint32, dst: uint32, length: uint16)
    ensures Header(total, id, 6, src, dst)[12..20] + [0, 6] + [length / 0x100, length % 0x100]
         == Pseudo(src, dst, length)
  {
    hide Checksum, Le32;
    var h := Header(total, id, 6, src, dst);
    assert h[12..20] == Le32(src) + Le32(dst);
  }

  lemma FieldBytes(s: Segment, src: uint32, dst: uint32, k: nat)
    requires TCP_HEADER + |s.data| < TWO_16 && k < 4
    ensures var b := Bytes(s, src, dst);
            && b[4 + k] == Be32(s.seqNum)[k] && b[8 + k] == Be32(s.ackNum)[k]
            && (k < 2 ==> b[k] == Be16(s.srcPort)[k] && b[2 + k] == Be16(s.dstPort)[k])
            && b[12] == 0x50 && b[13] == s.flags && b[TCP_HEADER..] == s.data
  {
    hide Checksum, Be32, Be16;
  }

  /** The fields that are the same in every segment: a header of five words, a window of 8192 bytes and no
      urgent pointer (section 3.1 of RFC 793). */
  lemma FixedFields(s: Segment, src: uint32, dst: uint32)
    requires TCP_HEADER + |s.data| < TWO_16
    ensures var b := Bytes(s, src, dst);
            && b[12] / 16 * 4 == 20 && b[12] % 16 == 0
            && Word(b[15], b[14]) == 8192 && Word(b[19], b[18]) == 0
  {
    hide Checksum, Be32;
  }

  lemma Load32Be(b: seq<uint8>, at: nat, v: uint32)
    requires at + 4 <= |b| && b[at] == Be32(v)[0] && b[at + 1] == Be32(v)[1]
    requires b[at + 2] == Be32(v)[2] && b[at + 3] == Be32(v)[3]
    ensures Htonl(Load32(b, at)) == v
  {
    hide Le32, Be32, Htonl, Reversed, Load32;
    ReversedBytes(v);
    LoadStored(Reversed(v), b, at);
  }

  lemma Word16Be(low: uint8, high: uint8, v: uint16)
    requires low == Be16(v)[0] && high == Be16(v)[1]
    ensures Htons(Word(low, high)) == v
  {
    hide Htons;
    DivModUnique(Word(low, high), 0x100, high, low);
  }

  lemma NumbersRoundTrip(s: Segment, src: uint32, dst: uint32)
    requires TCP_HEADER + |s.data| < TWO_16
    ensures var b := Bytes(s, src, dst); Htonl(Load32(b, 4)) == s.seqNum && Htonl(Load32(b, 8)) == s.ackNum
  {
    hide Bytes, Be32, Htonl, Load32;
    var b := Bytes(s, src, dst);
    FieldBytes(s, src, dst, 0);
    FieldBytes(s, src, dst, 1);
    FieldBytes(s, src, dst, 2);
    FieldBytes(s, src, dst, 3);
    Load32Be(b, 4, s.seqNum);
    Load32Be(b, 8, s.ackNum);
  }

  lemma PortsRoundTrip(s: Segment, src: uint32, dst: uint32)
    requires TCP_HEADER + |s.data| < TWO_16
    ensures var b := Bytes(s, src, dst); Htons(Word(b[0], b[1])) == s.srcPort && Htons(Word(b[2], b[3])) == s.dstPort
  {
    hide Bytes, Be16, Htons, Word;
    var b := Bytes(s, src, dst);
    FieldBytes(s, src, dst, 0);
    FieldBytes(s, src, dst, 1);
    Word16Be(b[0], b[1], s.srcPort);
    Word16Be(b[2], b[3], s.dstPort);
  }

  /** A segment's receiver reads back exactly the fields and payload that were sent. */
  lemma SegmentRoundTrip(s: Segment, src: uint32, dst: uint32)
    requires TCP_HEADER + |s.data| < TWO_16
    ensures HeaderLength(Bytes(s, src, dst)) == TCP_HEADER
    ensures Parse(Bytes(s, src, dst)) == s
  {
    hide Bytes, Be16, Be32, Htons, Htonl, Load32, Word;
    FieldBytes(s, src, dst, 0);
    NumbersRoundTrip(s, src, dst);
    PortsRoundTrip(s, src, dst);
  }

  // ---- Building a segment ----

  /** tcp_checksum: the pseudo header, then the segment, then folds until 16 bits remain. */
  method TcpChecksum(src: uint32, dst: uint32, segment: array<uint8>, length: uint16) returns (checksum: uint16)
    requires length <= segment.Length
    ensures checksum == Checksum(Pseudo(src, dst, length) + segment[..length])
  {
    hide Sum, OnesSum, Word, Pseudo, Fold;
    ghost var b, p := segment[..length], Pseudo(src, dst, length);
    SumConcat(p, b);
    SumBound(p);
    SumBound(b);
    var sum: uint32 := PseudoSum(src, dst, length);
    var words := length / 2;
    for i := 0 to words
      invariant sum + Sum(b[2 * i..]) == Sum(p) + Sum(b)
    {
      SumStep(b, 2 * i);
      sum := sum + Word(segment[2 * i], segment[2 * i + 1]);
    }
    SumStep(b, 2 * words);
    if length % 2 != 0 {
      sum := sum + segment[length - 1];
    }
    OnesSumIsFold(p + b);
    while sum / TWO_16 != 0
      invariant Fold(sum) == Fold(Sum(p) + Sum(b))
      decreases sum
    {
      FoldOnceKeeps(sum);
      sum := FoldOnce(sum);
    }
    FoldSmall(sum);
    checksum := 0xFFFF - sum;
  }

  method PseudoSum(src: uint32, dst: uint32, length: uint16) returns (sum: uint32)
    ensures sum == Sum(Pseudo(src, dst, length))
  {
    hide Sum, Word, Le32, Be16;
    var p := Pseudo(src, dst, length);
    SumBound(p);
    sum := 0;
    for i := 0 to 6
      invariant sum + Sum(p[2 * i..]) == Sum(p)
    {
      SumStep(p, 2 * i);
      sum := sum + Word(p[2 * i], p[2 * i + 1]);
    }
    SumStep(p, 12);
  }
}
