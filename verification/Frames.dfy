/** The allocator's meaning: which frames a byte-packed bitmap marks used, and which
    frame or run of frames first-fit picks from a set of used frames. */
module Frames {
  import opened Bits

  /** BITMAP_GET(frame): the frame's bit in the byte that holds it. */
  predicate IsSet(bytes: seq<uint8>, frame: nat)
    requires frame / 8 < |bytes|
  {
    And(bytes[frame / 8], Pow2(frame % 8)) != 0
  }

  /** The frames below total whose bit is 1. */
  ghost function UsedIn(bytes: seq<uint8>, total: nat): set<nat>
    requires total <= 8 * |bytes|
  {
    set frame: nat | frame < total && Bit(bytes[frame / 8], frame % 8)
  }

  lemma {:induction false} TestedBit(b: nat, k: nat)
    ensures And(b, Pow2(k)) != 0 <==> Bit(b, k)
    decreases k
  {
    if b == 0 {
      ZeroHasNoBits(k);
    } else if k > 0 {
      TestedBit(b / 2, k - 1);
      AndTwice(b, Pow2(k - 1));
    }
  }

  lemma {:induction false} ClearMaskBits(n: nat, k: nat, j: nat)
    requires k < n
    ensures Pow2(k) <= Pow2(n) - 1 && Bit(Pow2(n) - 1 - Pow2(k), j) == (j < n && j != k)
    decreases n
  {
    Pow2Grows(k, n);
    var m := Pow2(n) - 1 - Pow2(k);
    if k == 0 {
      assert m == 2 * (Pow2(n - 1) - 1);
      if j > 0 { LowMaskBits(n - 1, j - 1); }
    } else {
      assert m == 2 * (Pow2(n - 1) - 1 - Pow2(k - 1)) + 1;
      if j > 0 { ClearMaskBits(n - 1, k - 1, j - 1); } else { Pow2Grows(k - 1, n - 1); }
    }
  }

  lemma {:induction false} LowMaskBits(n: nat, j: nat)
    ensures Bit(Pow2(n) - 1, j) == (j < n)
    decreases n
  {
    if n == 0 {
      ZeroHasNoBits(j);
    } else if j > 0 {
      assert (Pow2(n) - 1) / 2 == Pow2(n - 1) - 1;
      LowMaskBits(n - 1, j - 1);
    }
  }

  lemma {:induction false} Pow2Grows(k: nat, n: nat)
    requires k < n
    ensures Pow2(k) < Pow2(n)
    decreases n
  {
    if k < n - 1 { Pow2Grows(k, n - 1); }
  }

  lemma {:induction false} OrFits(a: nat, b: nat, n: nat)
    requires a < Pow2(n) && b < Pow2(n)
    ensures Or(a, b) < Pow2(n)
    decreases n
  {
    if n > 0 && a != 0 && b != 0 { OrFits(a / 2, b / 2, n - 1); }
  }

  lemma {:induction false} AndFits(a: nat, b: nat)
    ensures And(a, b) <= a
    decreases a
  {
    if a != 0 && b != 0 { AndFits(a / 2, b / 2); }
  }

  /** BITMAP_SET's new byte. */
  function WithBit(b: uint8, k: nat): (r: uint8)
    requires k < 8
    ensures forall j: nat :: Bit(r, j) == (j == k || Bit(b, j))
  {
    SetByte(b, k);
    Or(b, Pow2(k))
  }

  lemma SetByte(b: uint8, k: nat)
    requires k < 8
    ensures Or(b, Pow2(k)) < 0x100
    ensures forall j: nat :: Bit(Or(b, Pow2(k)), j) == (j == k || Bit(b, j))
  {
    Pow8();
    Pow2Grows(k, 8);
    OrFits(b, Pow2(k), 8);
    forall j: nat ensures Bit(Or(b, Pow2(k)), j) == (j == k || Bit(b, j)) {
      OrIsBitwise(b, Pow2(k), j);
      Pow2Bits(k, j);
    }
  }

  /** `~(1 << k)` truncated to a byte. */
  function ClearMask(k: nat): (m: uint8)
    requires k < 8
  {
    Pow8();
    Pow2Grows(k, 8);
    0xFF - Pow2(k)
  }

  /** BITMAP_CLEAR's new byte. */
  function WithoutBit(b: uint8, k: nat): (r: uint8)
    requires k < 8
    ensures forall j: nat :: Bit(r, j) == (j < 8 && j != k && Bit(b, j))
  {
    ClearByte(b, k);
    And(b, ClearMask(k))
  }

  lemma ClearByte(b: uint8, k: nat)
    requires k < 8
    ensures And(b, ClearMask(k)) < 0x100
    ensures forall j: nat :: Bit(And(b, ClearMask(k)), j) == (j < 8 && j != k && Bit(b, j))
  {
    AndFits(b, ClearMask(k));
    forall j: nat ensures Bit(And(b, ClearMask(k)), j) == (j < 8 && j != k && Bit(b, j)) {
      Pow8();
      ClearedBit(b, k, ClearMask(k), j);
    }
  }

  lemma ClearedBit(b: nat, k: nat, mask: nat, j: nat)
    requires k < 8 && mask == Pow2(8) - 1 - Pow2(k)
    ensures Bit(And(b, mask), j) == (j < 8 && j != k && Bit(b, j))
  {
    AndIsBitwise(b, mask, j);
    ClearMaskBits(8, k, j);
  }

  /** Testing a frame's bit decides membership in the used set. */
  lemma TestIsMembership(bytes: seq<uint8>, total: nat, frame: nat)
    requires total <= 8 * |bytes| && frame < total
    ensures IsSet(bytes, frame) <==> frame in UsedIn(bytes, total)
  {
    TestedBit(bytes[frame / 8], frame % 8);
  }

  /** Setting one bit adds exactly one frame, whatever other frames share its byte. */
  lemma SetAdds(bytes: seq<uint8>, total: nat, frame: nat)
    requires total <= 8 * |bytes| && frame < total
    ensures UsedIn(bytes[frame / 8 := WithBit(bytes[frame / 8], frame % 8)], total) == UsedIn(bytes, total) + {frame}
  {
    var after := bytes[frame / 8 := WithBit(bytes[frame / 8], frame % 8)];
    forall f: nat | f < total
      ensures f in UsedIn(after, total) <==> f in UsedIn(bytes, total) || f == frame
    {
      assert f == frame <==> f / 8 == frame / 8 && f % 8 == frame % 8;
    }
  }

  /** Clearing one bit removes exactly one frame. */
  lemma ClearRemoves(bytes: seq<uint8>, total: nat, frame: nat)
    requires total <= 8 * |bytes| && frame < total
    ensures UsedIn(bytes[frame / 8 := WithoutBit(bytes[frame / 8], frame % 8)], total) == UsedIn(bytes, total) - {frame}
  {
    var after := bytes[frame / 8 := WithoutBit(bytes[frame / 8], frame % 8)];
    forall f: nat | f < total
      ensures f in UsedIn(after, total) <==> f in UsedIn(bytes, total) && f != frame
    {
      assert f == frame <==> f / 8 == frame / 8 && f % 8 == frame % 8;
    }
  }

  // ---- First fit over a set of used frames ----

  /** Frames start .. start + count - 1 exist and none of them is used. */
  predicate RunIsFree(used: set<nat>, total: nat, start: nat, count: nat) {
    start + count <= total && forall f: nat :: start <= f < start + count ==> f !in used
  }

  /** The run of frames start .. start + count - 1. */
  ghost function Run(start: nat, count: nat): (r: set<nat>)
    ensures |r| == count
    ensures forall f: nat :: f in r <==> start <= f < start + count
  {
    if count == 0 then {} else Run(start, count - 1) + {start + count - 1}
  }

  lemma RunNext(before: set<nat>, start: nat, i: nat)
    ensures before + Run(start, i + 1) == before + Run(start, i) + {start + i}
  {
    assert Run(start, i + 1) == Run(start, i) + {start + i};
  }

  /** First fit from frame `from` up: the lowest start of a free run, or 0. */
  ghost function FirstFit(used: set<nat>, total: nat, count: nat, from: nat): (start: nat)
    ensures start == 0 || start < total
    decreases total - from
  {
    if from >= total then 0
    else if RunIsFree(used, total, from, count) then from
    else FirstFit(used, total, count, from + 1)
  }

  /** FirstFit returns the lowest free run at or above `from`; for positive counts it
      returns 0 exactly when there is none. */
  lemma {:induction false} FirstFitIsLowest(used: set<nat>, total: nat, count: nat, from: nat)
    requires count > 0 && from > 0
    ensures var s := FirstFit(used, total, count, from);
            && (s != 0 ==> s >= from && RunIsFree(used, total, s, count))
            && (forall t: nat :: from <= t && RunIsFree(used, total, t, count) ==> s != 0 && s <= t)
    decreases total - from
  {
    if from < total && !RunIsFree(used, total, from, count) {
      FirstFitIsLowest(used, total, count, from + 1);
    }
  }

  /** A start that is free with nothing free before it is the one FirstFit returns. */
  lemma FirstFitFound(used: set<nat>, total: nat, count: nat, s: nat)
    requires count > 0 && 1 <= s && RunIsFree(used, total, s, count)
    requires forall t: nat :: 1 <= t < s ==> !RunIsFree(used, total, t, count)
    ensures FirstFit(used, total, count, 1) == s
  {
    FirstFitIsLowest(used, total, count, 1);
  }

  lemma FirstFitNone(used: set<nat>, total: nat, count: nat)
    requires count > 0
    requires forall t: nat :: 1 <= t < total ==> !RunIsFree(used, total, t, count)
    ensures FirstFit(used, total, count, 1) == 0
  {
    FirstFitIsLowest(used, total, count, 1);
  }

  /** A free run fits in the free count. */
  lemma RunNeedsFreeFrames(used: set<nat>, total: nat, start: nat, count: nat)
    requires forall f :: f in used ==> f < total
    requires RunIsFree(used, total, start, count)
    ensures |used| + count <= total && |used + Run(start, count)| == |used| + count
  {
    var all := Run(0, total);
    assert used + Run(start, count) <= all;
    Subset(used + Run(start, count), all);
    assert used !! Run(start, count);
  }

  lemma Subset(a: set<nat>, b: set<nat>)
    requires a <= b
    ensures |a| <= |b|
  {
    assert b == a + (b - a);
  }

  /** Frame f equals `start + i` in 32-bit arithmetic for some i < count. */
  predicate InWrappedRange(f: nat, start: uint32, count: uint32) {
    (f - start) % TWO_32 < count
  }

  /** The frames that a loop over `start + i`, i < count, touches in 32-bit arithmetic. */
  ghost function Touched(start: uint32, count: uint32, total: nat): set<nat> {
    set f | f in Run(0, total) && InWrappedRange(f, start, count)
  }

  lemma TouchedFrame(f: nat, start: uint32, count: uint32)
    requires f < TWO_32 && start + count <= TWO_32
    ensures InWrappedRange(f, start, count) <==> start <= f < start + count
  {
    if f < start {
      DivModUnique(f - start, TWO_32, -1, f - start + TWO_32);
    } else {
      DivModUnique(f - start, TWO_32, 0, f - start);
    }
  }

  /** A run below total is touched as is, so freeing an allocated run undoes the allocation. */
  lemma FreeUndoesAlloc(used: set<nat>, total: nat, start: uint32, count: uint32)
    requires total < TWO_32 && RunIsFree(used, total, start, count)
    ensures Touched(start, count, total) == Run(start, count)
    ensures used + Run(start, count) - Touched(start, count, total) == used
  {
    forall f: nat
      ensures f in Touched(start, count, total) <==> f in Run(start, count)
    {
      if f < total { TouchedFrame(f, start, count); }
    }
    assert used !! Run(start, count);
  }

  lemma {:induction false} NothingUsed(bytes: seq<uint8>, total: nat)
    requires total <= 8 * |bytes| && forall k :: 0 <= k < |bytes| ==> bytes[k] == 0
    ensures UsedIn(bytes, total) == {}
  {
    forall f: nat | f < total ensures !Bit(bytes[f / 8], f % 8) {
      ZeroHasNoBits(f % 8);
    }
  }

  /** A frame outside the used set keeps the used count below the total. */
  lemma FrameIsFree(used: set<nat>, total: nat, frame: nat)
    requires (forall f :: f in used ==> f < total) && frame < total && frame !in used
    ensures |used| < total
  {
    RunNeedsFreeFrames(used, total, frame, 1);
  }

  /** With fewer free frames than asked for, first fit finds nothing. */
  lemma NoRoom(used: set<nat>, total: nat, count: nat)
    requires count > 0 && (forall f :: f in used ==> f < total) && total < |used| + count
    ensures FirstFit(used, total, count, 1) == 0
  {
    forall t: nat | 1 <= t < total ensures !RunIsFree(used, total, t, count) {
      if RunIsFree(used, total, t, count) {
        RunNeedsFreeFrames(used, total, t, count);
      }
    }
    FirstFitNone(used, total, count);
  }

  /** The frame itself when it exists; nothing otherwise. */
  ghost function Only(frame: nat, total: nat): set<nat> {
    if frame < total then {frame} else {}
  }

  lemma TouchNone(before: set<nat>, start: uint32, total: nat)
    ensures before + Touched(start, 0, total) == before && before - Touched(start, 0, total) == before
  {
    assert Touched(start, 0, total) == {};
  }

  /** One more loop iteration touches one more frame. */
  lemma TouchNext(before: set<nat>, start: uint32, i: uint32, total: nat)
    requires total < TWO_32 && i + 1 < TWO_32
    ensures before + Touched(start, i + 1, total) == before + Touched(start, i, total) + Only(Wrap32(start + i), total)
    ensures before - Touched(start, i + 1, total) == before - Touched(start, i, total) - Only(Wrap32(start + i), total)
  {
    forall f: nat | f < total
      ensures f in Touched(start, i + 1, total) <==> f in Touched(start, i, total) || f == Wrap32(start + i)
    {
      WrappedNext(f, start, i);
    }
    assert Touched(start, i + 1, total) == Touched(start, i, total) + Only(Wrap32(start + i), total);
  }

  lemma WrappedNext(f: nat, start: uint32, i: uint32)
    requires f < TWO_32
    ensures (f - start) % TWO_32 == i <==> f == (start + i) % TWO_32
  {
    var d := if f < start then f - start + TWO_32 else f - start;
    DivModUnique(f - start, TWO_32, if f < start then -1 else 0, d);
    var s := if start + i < TWO_32 then start + i else start + i - TWO_32;
    DivModUnique(start + i, TWO_32, if start + i < TWO_32 then 0 else 1, s);
  }

  /** A used frame that ends a free run shorter than count rules out every start up to it. */
  lemma UsedFrameBlocks(used: set<nat>, total: nat, frame: nat, consecutive: nat, count: nat)
    requires frame in used && consecutive < count && consecutive < frame
    requires forall t: nat :: 1 <= t < frame - consecutive ==> !RunIsFree(used, total, t, count)
    ensures forall t: nat :: 1 <= t <= frame ==> !RunIsFree(used, total, t, count)
  {
    forall t: nat | 1 <= t <= frame ensures !RunIsFree(used, total, t, count) {
      if t >= frame - consecutive {
        assert t <= frame < t + count;
      }
    }
  }
}
