/** The Internet checksum: what the two folding styles compute, why a packet that stores it sums
    to all ones, and why the host's byte order does not matter. */
module Checksums {
  import opened Bits

  /** The 16-bit word of two bytes in memory, as a little-endian machine loads it. */
  function Word(low: uint8, high: uint8): (w: uint16) {
    low + 0x100 * high
  }

  /** The plain sum of a buffer's words; an odd last byte is the low byte of a word. */
  function Sum(b: seq<uint8>): nat {
    if |b| == 0 then 0 else if |b| == 1 then b[0] else Word(b[0], b[1]) + Sum(b[2..])
  }

  /** One's-complement addition: the carry out of the top comes back in at the bottom. */
  function OnesAdd(a: uint16, b: uint16): (c: uint16)
  {
    if a + b < TWO_16 then a + b else a + b - 0xFFFF
  }

  /** Section 2 of RFC 1071: the one's-complement sum of a buffer's words. */
  function OnesSum(b: seq<uint8>): uint16 {
    if |b| == 0 then 0 else if |b| == 1 then b[0] else OnesAdd(Word(b[0], b[1]), OnesSum(b[2..]))
  }

  /** The checksum is the one's complement of that sum. */
  function Checksum(b: seq<uint8>): uint16 {
    0xFFFF - OnesSum(b)
  }

  /** The 16-bit one's-complement value congruent to n: 0 only for 0 itself. */
  function Fold(n: nat): uint16 {
    if n == 0 then 0 else (n - 1) % 0xFFFF + 1
  }

  lemma FoldUnique(n: nat, f: nat, k: nat)
    requires 1 <= f <= 0xFFFF && n == f + 0xFFFF * k
    ensures Fold(n) == f
  {
    DivModUnique(n - 1, 0xFFFF, k, f - 1);
  }

  lemma FoldSplit(n: nat) returns (k: nat)
    ensures n == Fold(n) + 0xFFFF * k
    ensures n > 0 ==> Fold(n) >= 1
  {
    k := if n == 0 then 0 else (n - 1) / 0xFFFF;
  }

  lemma OnesAddFolds(a: uint16, n: nat)
    ensures OnesAdd(a, Fold(n)) == Fold(a + n)
  {
    var k := FoldSplit(n);
    if a + n > 0 {
      var c := OnesAdd(a, Fold(n));
      FoldUnique(a + n, c, if a + Fold(n) < TWO_16 then k else k + 1);
    }
  }

  /** Adding with end-around carry all along is folding once at the end. */
  lemma {:induction false} OnesSumIsFold(b: seq<uint8>)
    ensures OnesSum(b) == Fold(Sum(b))
    decreases |b|
  {
    if |b| == 1 {
      if b[0] > 0 { FoldUnique(b[0], b[0], 0); }
    } else if |b| > 1 {
      OnesSumIsFold(b[2..]);
      OnesAddFolds(Word(b[0], b[1]), Sum(b[2..]));
    }
  }

  lemma {:induction false} SumBound(b: seq<uint8>)
    ensures 2 * Sum(b) <= 0xFFFF * (|b| + 1)
    decreases |b|
  {
    if |b| > 1 { SumBound(b[2..]); }
  }

  // ---- Folding ----

  /** `(sum >> 16) + (sum & 0xFFFF)`. */
  function FoldOnce(sum: uint32): (s: uint32)
    ensures s <= 2 * 0xFFFF
  {
    sum / TWO_16 + sum % TWO_16
  }

  lemma FoldOnceKeeps(sum: uint32)
    ensures Fold(FoldOnce(sum)) == Fold(sum) && FoldOnce(sum) <= sum
    ensures sum >= TWO_16 ==> FoldOnce(sum) < sum
  {
    var s := FoldOnce(sum);
    assert sum == s + 0xFFFF * (sum / TWO_16);
    if sum > 0 {
      var k := FoldSplit(s);
      FoldUnique(sum, Fold(s), k + sum / TWO_16);
    }
  }

  lemma FoldSmall(s: uint16)
    ensures Fold(s) == s
  {
    if s > 0 { FoldUnique(s, s, 0); }
  }

  /** Two folds are enough for any 32-bit sum. */
  lemma TwoFolds(sum: uint32)
    ensures var s := FoldOnce(sum); (s + s / TWO_16) % TWO_16 == Fold(sum)
  {
    var s := FoldOnce(sum);
    FoldOnceKeeps(sum);
    if s < TWO_16 {
      FoldSmall(s);
    } else {
      FoldUnique(s, s - 0xFFFF, 1);
    }
  }

  // ---- Storing the checksum ----

  /** A native 16-bit store at an offset. */
  function Put(b: seq<uint8>, at: nat, w: uint16): (r: seq<uint8>)
    requires at + 2 <= |b|
    ensures |r| == |b|
  {
    b[at := w % 0x100][at + 1 := w / 0x100]
  }

  lemma {:induction false} SumPut(b: seq<uint8>, at: nat, w: uint16)
    requires at % 2 == 0 && at + 2 <= |b|
    ensures Sum(Put(b, at, w)) == Sum(b) - Word(b[at], b[at + 1]) + w
    decreases at
  {
    if at == 0 {
      assert Put(b, 0, w)[2..] == b[2..];
    } else {
      SumPut(b[2..], at - 2, w);
      assert Put(b, at, w)[2..] == Put(b[2..], at - 2, w);
    }
  }

  /** Storing the checksum of a buffer whose checksum field was zero makes the whole re-sum to
      all ones, so that the receiver's checksum over it is zero. */
  lemma StoredChecksumVerifies(b: seq<uint8>, at: nat)
    requires at % 2 == 0 && at + 2 <= |b| && b[at] == b[at + 1] == 0
    ensures Checksum(Put(b, at, Checksum(b))) == 0
  {
    OnesSumIsFold(b);
    OnesSumIsFold(Put(b, at, Checksum(b)));
    SumPut(b, at, Checksum(b));
    var k := FoldSplit(Sum(b));
    FoldUnique(Sum(b) + Checksum(b), 0xFFFF, k);
  }

  // ---- Byte order ----

  function Swap(w: uint16): (s: uint16) {
    w % 0x100 * 0x100 + w / 0x100
  }

  /** The same buffer summed as big-endian words, padded on the right. */
  function BigEndianSum(b: seq<uint8>): nat {
    if |b| == 0 then 0 else if |b| == 1 then 0x100 * b[0] else 0x100 * b[0] + b[1] + BigEndianSum(b[2..])
  }

  lemma SwapIsProduct(w: uint16)
    ensures 0x100 * w == Swap(w) + 0xFFFF * (w / 0x100)
    ensures w > 0 <==> Swap(w) > 0
  {
  }

  lemma {:induction false} BigEndianSumIsProduct(b: seq<uint8>) returns (k: nat)
    ensures 0x100 * Sum(b) == BigEndianSum(b) + 0xFFFF * k
    ensures Sum(b) > 0 <==> BigEndianSum(b) > 0
    decreases |b|
  {
    if |b| <= 1 {
      k := 0;
    } else {
      var r := BigEndianSumIsProduct(b[2..]);
      k := r + b[1];
    }
  }

  /** Section 2(B) of RFC 1071: summing in the other byte order swaps the bytes of the sum. */
  lemma ByteOrderIndependent(b: seq<uint8>)
    ensures Fold(BigEndianSum(b)) == Swap(OnesSum(b))
  {
    OnesSumIsFold(b);
    var f := Fold(Sum(b));
    var k := FoldSplit(Sum(b));
    var m := BigEndianSumIsProduct(b);
    SwapIsProduct(f);
    if Sum(b) > 0 {
      SameResidue(BigEndianSum(b), Swap(f), m, f / 0x100 + 0x100 * k);
    }
  }

  lemma SameResidue(n: nat, f: nat, a: nat, b: nat)
    requires n + 0xFFFF * a == f + 0xFFFF * b && 1 <= f <= 0xFFFF && n > 0
    ensures Fold(n) == f
  {
    var k := FoldSplit(n);
    var d := k + a - b;
    assert Fold(n) + 0xFFFF * d == f;
  }

  lemma {:induction false} SumConcat(a: seq<uint8>, b: seq<uint8>)
    requires |a| % 2 == 0
    ensures Sum(a + b) == Sum(a) + Sum(b)
    decreases |a|
  {
    if a == [] {
      assert a + b == b;
    } else {
      SumConcat(a[2..], b);
      assert (a + b)[2..] == a[2..] + b;
    }
  }

  lemma SumStep(b: seq<uint8>, pos: nat)
    requires pos <= |b|
    ensures pos + 2 <= |b| ==> Sum(b[pos..]) == Word(b[pos], b[pos + 1]) + Sum(b[pos + 2..])
    ensures pos + 1 == |b| ==> Sum(b[pos..]) == b[pos]
    ensures pos == |b| ==> Sum(b[pos..]) == 0
  {
    if pos + 2 <= |b| { assert b[pos..][2..] == b[pos + 2..]; }
  }

  /** ip_checksum and icmp_checksum. */
  method BufferChecksum(data: array<uint8>, length: uint16) returns (checksum: uint16)
    requires length <= data.Length
    ensures checksum == Checksum(data[..length])
  {
    hide Sum, OnesSum, Word;
    ghost var b := data[..length];
    SumBound(b);
    var sum: uint32 := 0;
    var pos: nat, len: int := 0, length;
    while len > 1
      invariant 0 <= len && pos + len == length
      invariant sum + Sum(b[pos..]) == Sum(b)
    {
      SumStep(b, pos);
      sum := sum + Word(data[pos], data[pos + 1]);
      pos, len := pos + 2, len - 2;
    }
    SumStep(b, pos);
    if len != 0 {
      sum := sum + data[pos];
    }
    OnesSumIsFold(b);
    checksum := FoldTwice(sum);
  }

  method FoldTwice(total: uint32) returns (checksum: uint16)
    ensures checksum == 0xFFFF - Fold(total)
  {
    hide Fold;
    TwoFolds(total);
    var sum := FoldOnce(total);
    sum := sum + sum / TWO_16;
    checksum := 0xFFFF - sum % TWO_16;
  }
}
