/** The physical frame allocator: a byte-packed bitmap and two counters. */
module Pmm {
  import opened Bits
  import opened Frames

  const PAGE_SIZE: nat := 0x1000

  datatype Found = None | At(start: uint32)

  class FrameAllocator {
    var bitmap: array?<uint8>
    var totalFrames: uint32
    var freeFrames: uint32
    var usedFrames: uint32
    var bitmapSize: uint32
    var initialized: bool

    /** Once initialised, the counters say how many frames the bitmap marks used and free. */
    ghost predicate Valid()
      reads this, bitmap
    {
      initialized ==> Formed() && usedFrames == |Used()| && usedFrames + freeFrames == totalFrames
    }

    /** The bitmap holds a bit for every frame of a memory below 4 GB. */
    ghost predicate Formed()
      reads this, bitmap
    {
      && bitmap != null
      && bitmapSize <= bitmap.Length
      && 1 <= totalFrames <= 8 * bitmapSize
      && totalFrames < 0x10_0000
    }

    /** Only the bitmap's contents and the counters may change after initialisation. */
    twostate predicate SameShape()
      reads this
    {
      && bitmap == old(bitmap) && totalFrames == old(totalFrames)
      && bitmapSize == old(bitmapSize) && initialized == old(initialized)
    }

    /** The frames marked used. */
    ghost function Used(): set<nat>
      reads this, bitmap
      requires Formed()
    {
      UsedIn(bitmap[..bitmapSize], totalFrames)
    }

    lemma UsedExist()
      requires Formed()
      ensures forall f :: f in Used() ==> f < totalFrames
    {
    }

    /** The zeroed static state before initialisation. */
    constructor ()
      ensures Valid() && !initialized && totalFrames == 0
    {
      bitmap, totalFrames, freeFrames, usedFrames, bitmapSize, initialized := null, 0, 0, 0, 0, false;
    }

    method Init(memSize: uint32, storage: array?<uint8>) returns (status: int)
      requires Valid()
      requires storage != null ==> (memSize / PAGE_SIZE + 7) / 8 <= storage.Length
      modifies this, storage
      ensures Valid()
      ensures old(initialized) ==> status == 0 && unchanged(this) && (storage != null ==> unchanged(storage))
      ensures !old(initialized) ==>
                && (status == 0 <==> memSize >= PAGE_SIZE && storage != null)
                && (status == 0 ==> initialized && totalFrames == memSize / PAGE_SIZE && Used() == {})
                && (status != 0 ==> status == -1 && !initialized)
    {
      if initialized {
        return 0;
      }
      totalFrames := memSize / PAGE_SIZE;
      if totalFrames == 0 {
        return -1;
      }
      bitmapSize := (totalFrames + 7) / 8;
      if storage != null {
        bitmap := storage;
      } else {
        return -1;
      }
      for i := 0 to bitmapSize
        invariant forall k :: 0 <= k < i ==> storage[k] == 0
        modifies storage
      {
        storage[i] := 0;
      }
      freeFrames := totalFrames;
      usedFrames := 0;
      initialized := true;
      NothingUsed(bitmap[..bitmapSize], totalFrames);
      return 0;
    }

    /** BITMAP_SET on a frame below the total. */
    method SetBit(frame: uint32)
      requires Formed() && frame < totalFrames
      modifies bitmap
      ensures Used() == old(Used()) + {frame}
    {
      ghost var before := bitmap[..bitmapSize];
      bitmap[frame / 8] := WithBit(bitmap[frame / 8], frame % 8);
      assert bitmap[..bitmapSize] == before[frame / 8 := WithBit(before[frame / 8], frame % 8)];
      SetAdds(before, totalFrames, frame);
    }

    method ClearBit(frame: uint32)
      requires Formed() && frame < totalFrames
      modifies bitmap
      ensures Used() == old(Used()) - {frame}
    {
      ghost var before := bitmap[..bitmapSize];
      bitmap[frame / 8] := WithoutBit(bitmap[frame / 8], frame % 8);
      assert bitmap[..bitmapSize] == before[frame / 8 := WithoutBit(before[frame / 8], frame % 8)];
      ClearRemoves(before, totalFrames, frame);
    }

    method IsUsed(frame: uint32) returns (used: bool)
      requires Formed() && frame < totalFrames
      ensures used <==> frame in Used()
    {
      TestIsMembership(bitmap[..bitmapSize], totalFrames, frame);
      used := And(bitmap[frame / 8], Pow2(frame % 8)) != 0;
    }

    method MarkUsed(frame: uint32)
      requires Valid() && (initialized || totalFrames == 0)
      modifies this, bitmap
      ensures Valid() && SameShape()
      ensures initialized ==> Used() == old(Used()) + Only(frame, totalFrames)
    {
      hide UsedIn;
      if frame >= totalFrames {
        return;
      }
      var used := IsUsed(frame);
      if !used {
        UsedExist();
        FrameIsFree(Used(), totalFrames, frame);
        SetBit(frame);
        usedFrames := usedFrames + 1;
        freeFrames := freeFrames - 1;
      }
    }

    method MarkFree(frame: uint32)
      requires Valid() && (initialized || totalFrames == 0)
      modifies this, bitmap
      ensures Valid() && SameShape()
      ensures initialized ==> Used() == old(Used()) - Only(frame, totalFrames)
    {
      hide UsedIn;
      if frame >= totalFrames {
        return;
      }
      var used := IsUsed(frame);
      if used {
        ClearBit(frame);
        usedFrames := usedFrames - 1;
        freeFrames := freeFrames + 1;
      }
    }

    /** The loop's frame numbers wrap at 2^32, as the C sum does. */
    method MarkRangeUsed(start: uint32, count: uint32)
      requires Valid() && (initialized || totalFrames == 0)
      modifies this, bitmap
      ensures Valid() && SameShape()
      ensures initialized ==> Used() == old(Used()) + Touched(start, count, totalFrames)
    {
      hide UsedIn, Touched, Only;
      if initialized { TouchNone(Used(), start, totalFrames); }
      for i := 0 to count
        invariant Valid() && SameShape()
        invariant initialized ==> Used() == old(Used()) + Touched(start, i, totalFrames)
      {
        var frame := Wrap32(start + i);
        if initialized { TouchNext(old(Used()), start, i, totalFrames); }
        MarkUsed(frame);
      }
    }

    method MarkRangeFree(start: uint32, count: uint32)
      requires Valid() && (initialized || totalFrames == 0)
      modifies this, bitmap
      ensures Valid() && SameShape()
      ensures initialized ==> Used() == old(Used()) - Touched(start, count, totalFrames)
    {
      hide UsedIn, Touched, Only;
      if initialized { TouchNone(Used(), start, totalFrames); }
      for i := 0 to count
        invariant Valid() && SameShape()
        invariant initialized ==> Used() == old(Used()) - Touched(start, i, totalFrames)
      {
        var frame := Wrap32(start + i);
        if initialized { TouchNext(old(Used()), start, i, totalFrames); }
        MarkFree(frame);
      }
    }

    /** First fit for one frame; frame 0 is never handed out. */
    method AllocFrame() returns (frame: uint32)
      requires Valid()
      modifies this, bitmap
      ensures Valid() && SameShape()
      ensures !initialized ==> frame == 0
      ensures initialized ==> frame == FirstFit(old(Used()), totalFrames, 1, 1)
      ensures initialized ==> Used() == if frame == 0 then old(Used()) else old(Used()) + {frame}
    {
      hide UsedIn;
      if !initialized || freeFrames == 0 {
        if initialized { UsedExist(); NoRoom(Used(), totalFrames, 1); }
        return 0;
      }
      UsedExist();
      ghost var used := Used();
      var i := 1;
      while i < totalFrames
        invariant 1 <= i <= totalFrames && unchanged(this) && unchanged(bitmap)
        invariant forall t: nat :: 1 <= t < i ==> !RunIsFree(used, totalFrames, t, 1)
      {
        var taken := IsUsed(i);
        if !taken {
          FirstFitFound(used, totalFrames, 1, i);
          FrameIsFree(used, totalFrames, i);
          SetBit(i);
          usedFrames := usedFrames + 1;
          freeFrames := freeFrames - 1;
          return i;
        }
        assert !RunIsFree(used, totalFrames, i, 1);
        i := i + 1;
      }
      FirstFitNone(used, totalFrames, 1);
      return 0;
    }

    /** First fit for a run of frames. */
    method AllocFrames(count: uint32) returns (start: uint32)
      requires Valid()
      modifies this, bitmap
      ensures Valid() && SameShape()
      ensures !initialized || count == 0 ==> start == 0
      ensures initialized && count > 0 ==> start == FirstFit(old(Used()), totalFrames, count, 1)
      ensures initialized ==> Used() == if start == 0 then old(Used()) else old(Used()) + Run(start, count)
    {
      if !initialized || freeFrames < count {
        if initialized { UsedExist(); NoRoom(Used(), totalFrames, count); }
        return 0;
      }
      var found := FindRun(count);
      if found.None? {
        return 0;
      }
      TakeRun(found.start, count);
      return found.start;
    }

    method TakeRun(start: uint32, count: uint32)
      requires initialized && Valid() && RunIsFree(Used(), totalFrames, start, count)
      modifies this, bitmap
      ensures Valid() && SameShape() && Used() == old(Used()) + Run(start, count)
    {
      hide UsedIn, Run;
      UsedExist();
      RunNeedsFreeFrames(Used(), totalFrames, start, count);
      SetRun(start, count);
      usedFrames := usedFrames + count;
      freeFrames := freeFrames - count;
    }

    /** The scan keeps the free run that ends just before frame i: any earlier start
        has a used frame in its way. */
    method FindRun(count: uint32) returns (found: Found)
      requires initialized && Valid()
      ensures found.None? ==> count > 0 && FirstFit(Used(), totalFrames, count, 1) == 0
      ensures found.At? ==> (found.start == 0 <==> count == 0) && RunIsFree(Used(), totalFrames, found.start, count)
      ensures found.At? ==> found.start == if count == 0 then 0 else FirstFit(Used(), totalFrames, count, 1)
    {
      hide UsedIn;
      var consecutive: uint32, startFrame: uint32 := 0, 0;
      ghost var used := Used();
      var i := 1;
      while i < totalFrames && consecutive < count
        invariant 1 <= i <= totalFrames && consecutive <= count && consecutive < i
        invariant startFrame == if consecutive == 0 then 0 else i - consecutive
        invariant forall f: nat :: i - consecutive <= f < i ==> f !in used
        invariant forall t: nat :: 1 <= t < i - consecutive ==> !RunIsFree(used, totalFrames, t, count)
      {
        var taken := IsUsed(i);
        if !taken {
          if consecutive == 0 {
            startFrame := i;
          }
          consecutive := consecutive + 1;
        } else {
          UsedFrameBlocks(used, totalFrames, i, consecutive, count);
          consecutive := 0;
          startFrame := 0;
        }
        i := i + 1;
      }
      if consecutive >= count {
        if count > 0 { FirstFitFound(used, totalFrames, count, startFrame); }
        return At(startFrame);
      }
      FirstFitNone(used, totalFrames, count);
      return None;
    }

    method SetRun(start: uint32, count: uint32)
      requires Formed() && start + count <= totalFrames
      modifies bitmap
      ensures Used() == old(Used()) + Run(start, count)
    {
      hide UsedIn, Run;
      for i := 0 to count
        invariant Used() == old(Used()) + Run(start, i)
      {
        RunNext(old(Used()), start, i);
        SetBit(start + i);
      }
    }

    method FreeFrame(frame: uint32)
      requires Valid() && (initialized || totalFrames == 0)
      modifies this, bitmap
      ensures Valid() && SameShape()
      ensures initialized ==> Used() == old(Used()) - Only(frame, totalFrames)
    {
      MarkFree(frame);
    }

    method FreeFrames(start: uint32, count: uint32)
      requires Valid() && (initialized || totalFrames == 0)
      modifies this, bitmap
      ensures Valid() && SameShape()
      ensures initialized ==> Used() == old(Used()) - Touched(start, count, totalFrames)
    {
      MarkRangeFree(start, count);
    }
  }
}
