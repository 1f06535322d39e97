/** The virtual memory manager: two-level page tables held in frames of physical memory. */
module Vmm {
  import opened Bits
  import opened Frames
  import opened Pmm
  import Spec = AddressSpaces
  import Laws = AddressSpaceLaws
  import Regions

  /** A directory: the hardware entries and the addresses of the page tables (0 for none). */
  class PageDirectory {
    const entries: array<uint32>
    const tables: array<uint32>

    constructor ()
      ensures fresh(entries) && fresh(tables) && entries != tables
      ensures entries.Length == 1024 && forall d :: 0 <= d < 1024 ==> entries[d] == 0
      ensures tables.Length == 1024 && forall d :: 0 <= d < 1024 ==> tables[d] == 0
    {
      entries := new uint32[1024](_ => 0);
      tables := new uint32[1024](_ => 0);
    }
  }

  datatype Pair = Pair(dir: PageDirectory, other: PageDirectory)

  /** One of several directories. */
  datatype Among = Among(dir: PageDirectory, dirs: set<PageDirectory>)

  /** The frames outside the given set hold the same words in both memories. */
  ghost predicate KeptOutside(before: seq<seq<uint32>>, after: seq<seq<uint32>>, frames: set<nat>) {
    |before| == |after| && forall f: nat :: f < |after| && f !in frames ==> before[f] == after[f]
  }

  lemma NothingWritten(words: seq<seq<uint32>>, frames: set<nat>)
    ensures KeptOutside(words, words, frames)
  {
  }

  lemma KeptOn(a: seq<seq<uint32>>, b: seq<seq<uint32>>, c: seq<seq<uint32>>, frames: set<nat>, more: set<nat>)
    requires KeptOutside(a, b, frames) && KeptOutside(b, c, more) && frames <= more
    ensures KeptOutside(a, c, more)
  {
  }

  lemma KeptFrame(before: seq<seq<uint32>>, after: seq<seq<uint32>>, frames: set<nat>, f: nat)
    requires KeptOutside(before, after, frames) && f < |after| && f !in frames
    ensures |before| == |after| && before[f] == after[f]
  {
  }

  class MemoryManager {
    const pmm: FrameAllocator
    /** Word w of frame f is memory[f, w]. */
    const memory: array2<uint32>

    constructor (pmm: FrameAllocator, memory: array2<uint32>)
      ensures this.pmm == pmm && this.memory == memory
    {
      this.pmm, this.memory := pmm, memory;
    }

    /** Physical memory covers the allocator's frames, and the directory's tables are
        page-aligned, distinct, inside memory, and entered in the hardware directory. */
    ghost predicate Laid(dir: PageDirectory)
      reads pmm, pmm.bitmap, dir.entries, dir.tables
    {
      && pmm.initialized && pmm.Valid() && pmm.Formed()
      && memory.Length0 == pmm.totalFrames && memory.Length1 == 1024
      && dir.entries != dir.tables && pmm.bitmap as object != dir.entries && pmm.bitmap as object != dir.tables
      && dir.entries.Length == 1024 && dir.tables.Length == 1024
      && (forall d :: 0 <= d < 1024 && dir.tables[d] != 0 ==> InMemory(dir.tables[d]))
      && (forall d, e :: 0 <= d < e < 1024 && dir.tables[d] != 0 ==> dir.tables[d] != dir.tables[e])
      && (forall d :: 0 <= d < 1024 ==>
            dir.entries[d] == if dir.tables[d] == 0 then 0 else dir.tables[d] + 7)
    }

    ghost predicate InMemory(table: uint32)
      reads pmm
    {
      table % Spec.PAGE == 0 && 1 <= table / Spec.PAGE < pmm.totalFrames
    }

    /** The word stored for page p: 0 when its table is missing. */
    ghost function Lookup(dir: PageDirectory, p: nat): uint32
      requires Laid(dir) && p < Spec.PAGES
      reads pmm, pmm.bitmap, dir.entries, dir.tables, memory
    {
      if dir.tables[p / 1024] == 0 then 0 else memory[dir.tables[p / 1024] / Spec.PAGE, p % 1024]
    }

    ghost function TableFrames(dir: PageDirectory): map<nat, nat>
      requires Laid(dir)
      reads pmm, pmm.bitmap, dir.entries, dir.tables
    {
      map d: nat | d < 1024 && dir.tables[d] != 0 :: dir.tables[d] / Spec.PAGE
    }

    ghost function View(dir: PageDirectory): map<nat, uint32>
      requires Laid(dir)
      reads pmm, pmm.bitmap, dir.entries, dir.tables, memory
    {
      map p: nat | p < Spec.PAGES && Lookup(dir, p) % 2 == 1 :: Lookup(dir, p)
    }

    /** The address space a directory stands for. */
    ghost function Abs(dir: PageDirectory): Spec.Space
      requires Laid(dir)
      reads pmm, pmm.bitmap, dir.entries, dir.tables, memory
    {
      Spec.Space(pmm.totalFrames, pmm.Used(), TableFrames(dir), View(dir))
    }

    /** get_page_table without creation. */
    method FindPageTable(dir: PageDirectory, virt: uint32) returns (table: uint32)
      requires Laid(dir)
      ensures table == dir.tables[virt / Spec.PAGE / 1024]
    {
      table := dir.tables[Spec.DirIndex(virt)];
    }

    method GetPhysical(dir: PageDirectory, virt: uint32) returns (found: bool, phys: uint32)
      requires Laid(dir)
      ensures found <==> Spec.IsMapped(Abs(dir), virt)
      ensures found ==> phys == Spec.Physical(Abs(dir), virt)
    {
      var aligned := And(virt, Spec.PAGE_MASK);
      PageMask(virt);
      DivModUnique(aligned, Spec.PAGE, virt / Spec.PAGE, 0);
      var table := FindPageTable(dir, aligned);
      if table == 0 {
        return false, 0;
      }
      var entry := memory[table / Spec.PAGE, Spec.TableIndex(aligned)];
      assert entry == Lookup(dir, virt / Spec.PAGE);
      Spec.LowBit(entry);
      if And(entry, Spec.FLAG_PRESENT) == 0 {
        return false, 0;
      }
      PageMask(entry);
      return true, And(entry, Spec.PAGE_MASK);
    }

    /** memset(table, 0, 4096). */
    method ClearFrame(frame: nat)
      requires memory.Length1 == 1024 && frame < memory.Length0
      modifies memory
      ensures forall w :: 0 <= w < 1024 ==> memory[frame, w] == 0
      ensures OnlyRow(frame)
    {
      for w := 0 to 1024
        invariant forall v :: 0 <= v < w ==> memory[frame, v] == 0
        invariant OnlyRow(frame)
      {
        memory[frame, w] := 0;
      }
    }

    /** No word outside the given frame has changed. */
    twostate predicate OnlyRow(frame: nat)
      reads memory
    {
      forall f, w :: 0 <= f < memory.Length0 && 0 <= w < memory.Length1 && f != frame ==>
        memory[f, w] == old(memory[f, w])
    }

    /** No word has changed outside the frames that hold this directory's tables. */
    twostate predicate OnlyTablesOf(dir: PageDirectory)
      requires Laid(dir)
      reads pmm, pmm.bitmap, dir.entries, dir.tables, memory
    {
      forall f, w :: 0 <= f < memory.Length0 && 0 <= w < memory.Length1 && f !in TableFrames(dir).Values ==>
        memory[f, w] == old(memory[f, w])
    }

    lemma TableIsFrame(dir: PageDirectory, d: nat)
      requires Laid(dir) && d < 1024 && dir.tables[d] != 0
      ensures dir.tables[d] / Spec.PAGE in TableFrames(dir).Values
    {
      assert TableFrames(dir)[d] == dir.tables[d] / Spec.PAGE;
    }

    /** Enters a cleared frame as the table of an empty directory slot. No translation changes:
        every other table is in another frame, and the new one maps nothing. */
    method InstallTable(dir: PageDirectory, d: nat, frame: nat)
      requires Laid(dir) && d < 1024 && dir.tables[d] == 0 && 1 <= frame < pmm.totalFrames
      requires NoTableAt(dir, frame)
      modifies memory, dir.entries, dir.tables
      ensures Laid(dir) && dir.tables[d] == frame * Spec.PAGE
      ensures forall e :: 0 <= e < 1024 && e != d ==> dir.tables[e] == old(dir.tables[e])
      ensures forall p :: 0 <= p < Spec.PAGES ==> Lookup(dir, p) == old(Lookup(dir, p))
      ensures OnlyRow(frame)
    {
      hide FrameAllocator.Valid;
      var table := frame * Spec.PAGE;
      ClearFrame(frame);
      dir.entries[d] := Spec.TableEntry(table);
      dir.tables[d] := table;
    }

    /** Takes a frame from the allocator. Being free until now, it holds no page table. */
    method TakeFrame(dir: PageDirectory) returns (frame: uint32)
      requires Laid(dir) && Spec.Sound(Abs(dir))
      modifies pmm, pmm.bitmap
      ensures Laid(dir) && pmm.SameShape()
      ensures frame == FirstFit(old(pmm.Used()), pmm.totalFrames, 1, 1)
      ensures pmm.Used() == if frame == 0 then old(pmm.Used()) else old(pmm.Used()) + {frame}
      ensures TableFrames(dir) == old(TableFrames(dir)) && View(dir) == old(View(dir))
      ensures frame != 0 ==> 1 <= frame < pmm.totalFrames && NoTableAt(dir, frame)
    {
      hide FirstFit, View, TableFrames, UsedIn, Lookup, Spec.Sound;
      Laws.FreshFrame(Abs(dir));
      TablesAreFrames(dir);
      LaidMemory(dir);
      frame := pmm.AllocFrame();
      FormedStays();
      OnlyFrames(dir);
    }

    lemma LaidMemory(dir: PageDirectory)
      requires Laid(dir)
      ensures pmm.initialized && pmm.Valid() && pmm.Formed()
    {
    }

    /** The allocator alone has changed: tables and translations stand. */
    twostate lemma OnlyFrames(dir: PageDirectory)
      requires old(Laid(dir)) && pmm.Valid() && pmm.Formed() && pmm.SameShape()
      requires unchanged(memory) && unchanged(dir.entries) && unchanged(dir.tables)
      ensures Laid(dir) && TableFrames(dir) == old(TableFrames(dir)) && View(dir) == old(View(dir))
    {
      hide FrameAllocator.Valid, UsedIn;
      LaidStands(dir);
      assert forall p :: 0 <= p < Spec.PAGES ==> Lookup(dir, p) == old(Lookup(dir, p));
    }

    twostate lemma FormedStays()
      requires old(pmm.initialized) && pmm.Valid() && pmm.SameShape()
      ensures pmm.Formed()
    {
    }

    twostate lemma LaidStands(other: PageDirectory)
      requires old(Laid(other)) && pmm.Valid() && pmm.Formed() && pmm.SameShape()
      requires unchanged(other.entries) && unchanged(other.tables)
      ensures Laid(other) && TableFrames(other) == old(TableFrames(other))
    {
      hide FrameAllocator.Valid, UsedIn;
    }

    ghost predicate NoTableAt(dir: PageDirectory, frame: nat)
      reads dir.tables
    {
      forall e :: 0 <= e < dir.tables.Length ==> dir.tables[e] != frame * Spec.PAGE
    }

    lemma TablesAreFrames(dir: PageDirectory)
      requires Laid(dir)
      ensures forall f: nat :: f != 0 && f !in TableFrames(dir).Values ==> NoTableAt(dir, f)
    {
      forall e | 0 <= e < 1024 && dir.tables[e] != 0
        ensures dir.tables[e] / Spec.PAGE in TableFrames(dir).Values
      {
        assert TableFrames(dir)[e] == dir.tables[e] / Spec.PAGE;
      }
      forall f: nat ensures f * Spec.PAGE / Spec.PAGE == f {
        DivModUnique(f * Spec.PAGE, Spec.PAGE, f, 0);
      }
    }

    method AddTable(dir: PageDirectory, d: nat, frame: nat)
      requires Laid(dir) && d < 1024 && dir.tables[d] == 0 && 1 <= frame < pmm.totalFrames && NoTableAt(dir, frame)
      modifies memory, dir.entries, dir.tables
      ensures Laid(dir) && dir.tables[d] == frame * Spec.PAGE && dir.tables[d] / Spec.PAGE == frame
      ensures TableFrames(dir) == old(TableFrames(dir))[d := frame]
      ensures View(dir) == old(View(dir))
      ensures OnlyRow(frame)
    {
      hide FrameAllocator.Valid, UsedIn;
      InstallTable(dir, d, frame);
      DivModUnique(frame * Spec.PAGE, Spec.PAGE, frame, 0);
    }

    /** get_page_table with creation: a missing table is placed in a fresh, cleared frame. */
    method GetPageTable(dir: PageDirectory, virt: uint32) returns (table: uint32)
      requires Laid(dir) && Spec.Sound(Abs(dir))
      modifies pmm, pmm.bitmap, memory, dir.entries, dir.tables
      ensures Laid(dir) && pmm.SameShape()
      ensures Abs(dir) == Spec.WithTable(old(Abs(dir)), Spec.DirIndex(virt))
      ensures table == dir.tables[Spec.DirIndex(virt)]
      ensures OnlyRow(table / Spec.PAGE) && OnlyTablesOf(dir)
    {
      hide FrameAllocator.Valid, UsedIn, FirstFit, View, Spec.Sound, Lookup;
      var d := Spec.DirIndex(virt);
      if dir.tables[d] != 0 {
        return dir.tables[d];
      }
      var frame := TakeFrame(dir);
      if frame == 0 {
        return 0;
      }
      AddTable(dir, d, frame);
      TableIsFrame(dir, d);
      return dir.tables[d];
    }

    /** Writes one page-table entry. Distinct pages have distinct words, so no other moves. */
    method SetEntry(dir: PageDirectory, p: nat, table: uint32, index: nat, word: uint32)
      requires Laid(dir) && p < Spec.PAGES && table == dir.tables[p / 1024] != 0 && index == p % 1024
      modifies memory
      ensures Laid(dir) && OnlyRow(table / Spec.PAGE)
      ensures forall q :: 0 <= q < Spec.PAGES ==> Lookup(dir, q) == if q == p then word else old(Lookup(dir, q))
    {
      hide FrameAllocator.Valid, UsedIn;
      memory[table / Spec.PAGE, index] := word;
      forall q | 0 <= q < Spec.PAGES && q != p && dir.tables[q / 1024] != 0
        ensures dir.tables[q / 1024] / Spec.PAGE != table / Spec.PAGE || q % 1024 != index
      {
        assert q / 1024 != p / 1024 || q % 1024 != p % 1024;
      }
    }

    method PutEntry(dir: PageDirectory, virt: uint32, table: uint32, word: uint32)
      requires Laid(dir) && table == dir.tables[Spec.DirIndex(virt)] != 0 && word % 2 == 1
      modifies memory
      ensures Laid(dir) && OnlyRow(table / Spec.PAGE)
      ensures Abs(dir) == old(Abs(dir)).(view := old(View(dir))[virt / Spec.PAGE := word])
    {
      hide FrameAllocator.Valid, UsedIn, Lookup;
      SetEntry(dir, virt / Spec.PAGE, table, Spec.TableIndex(virt), word);
      assert View(dir) == old(View(dir))[virt / Spec.PAGE := word];
    }

    method ClearEntry(dir: PageDirectory, virt: uint32, table: uint32)
      requires Laid(dir) && table == dir.tables[Spec.DirIndex(virt)] != 0
      modifies memory
      ensures Laid(dir) && OnlyRow(table / Spec.PAGE)
      ensures Abs(dir) == old(Abs(dir)).(view := old(View(dir)) - {virt / Spec.PAGE})
    {
      hide FrameAllocator.Valid, UsedIn, Lookup;
      SetEntry(dir, virt / Spec.PAGE, table, Spec.TableIndex(virt), 0);
      assert View(dir) == old(View(dir)) - {virt / Spec.PAGE};
    }

    /** Masking the offset away keeps the page. */
    lemma Aligned(virt: uint32)
      ensures var a := And(virt, Spec.PAGE_MASK);
              && a < TWO_32 && a / Spec.PAGE == virt / Spec.PAGE
              && Spec.DirIndex(a) == Spec.DirIndex(virt) && Spec.TableIndex(a) == Spec.TableIndex(virt)
    {
      hide And;
      PageMask(virt);
      DivModUnique(virt / Spec.PAGE * Spec.PAGE, Spec.PAGE, virt / Spec.PAGE, 0);
    }

    method MapPage(dir: PageDirectory, virt: uint32, phys: uint32, flags: uint32) returns (status: int)
      requires Laid(dir) && Spec.Sound(Abs(dir))
      modifies pmm, pmm.bitmap, memory, dir.entries, dir.tables
      ensures Laid(dir) && pmm.SameShape()
      ensures status == if Spec.MapPage(old(Abs(dir)), virt, phys, flags).ok then 0 else -1
      ensures Abs(dir) == Spec.MapPage(old(Abs(dir)), virt, phys, flags).space
      ensures OnlyRow(dir.tables[virt / Spec.PAGE / 1024] / Spec.PAGE) && OnlyTablesOf(dir)
    {
      hide And, FrameAllocator.Valid, UsedIn, FirstFit, View, Spec.Sound, Spec.EntryWord;
      var page := And(virt, Spec.PAGE_MASK);
      Aligned(virt);
      var table := GetPageTable(dir, page);
      if table == 0 {
        return -1;
      }
      TableIsFrame(dir, Spec.DirIndex(page));
      PutEntry(dir, page, table, Spec.EntryWord(phys, flags));
      return 0;
    }

    lemma NoTableNoPage(dir: PageDirectory, p: nat)
      requires Laid(dir) && p < Spec.PAGES && dir.tables[p / 1024] == 0
      ensures View(dir) - {p} == View(dir)
    {
      hide FrameAllocator.Valid, UsedIn, TableFrames;
    }

    method UnmapPage(dir: PageDirectory, virt: uint32)
      requires Laid(dir)
      modifies memory
      ensures Laid(dir) && Abs(dir) == Spec.UnmapPage(old(Abs(dir)), virt)
      ensures OnlyRow(dir.tables[virt / Spec.PAGE / 1024] / Spec.PAGE) && OnlyTablesOf(dir)
    {
      hide And, FrameAllocator.Valid, UsedIn, View, TableFrames, Lookup;
      var page := And(virt, Spec.PAGE_MASK);
      Aligned(virt);
      var table := FindPageTable(dir, page);
      if table == 0 {
        NoTableNoPage(dir, virt / Spec.PAGE);
        return;
      }
      TableIsFrame(dir, Spec.DirIndex(page));
      ClearEntry(dir, page, table);
    }

    method AllocPage(dir: PageDirectory, virt: uint32, flags: uint32) returns (status: int)
      requires Laid(dir) && Spec.Sound(Abs(dir))
      modifies pmm, pmm.bitmap, memory, dir.entries, dir.tables
      ensures Laid(dir) && pmm.SameShape()
      ensures status == if Spec.AllocPage(old(Abs(dir)), virt, flags).ok then 0 else -1
      ensures Abs(dir) == Spec.AllocPage(old(Abs(dir)), virt, flags).space
      ensures OnlyTablesOf(dir)
    {
      hide FrameAllocator.Valid, UsedIn, FirstFit, View, TableFrames, Spec.MapPage;
      var frame := TakeFrame(dir);
      if frame == 0 {
        return -1;
      }
      var mapped := MapPage(dir, virt, frame * Spec.PAGE, flags);
      if mapped != 0 {
        ReturnFrame(dir, frame);
        return -1;
      }
      return 0;
    }

    /** pmm_free_frame as the manager uses it. */
    method ReturnFrame(dir: PageDirectory, frame: uint32)
      requires Laid(dir)
      modifies pmm, pmm.bitmap
      ensures Laid(dir) && pmm.SameShape()
      ensures Abs(dir) == old(Abs(dir)).(used := old(Abs(dir)).used - {frame})
    {
      hide View, TableFrames, UsedIn, Lookup;
      LaidMemory(dir);
      pmm.UsedExist();
      pmm.FreeFrame(frame);
      FormedStays();
      OnlyFrames(dir);
      assert pmm.Used() == old(pmm.Used()) - {frame};
    }

    method AllocPages(dir: PageDirectory, virt: uint32, count: uint32, flags: uint32) returns (status: int)
      requires Laid(dir) && Spec.Sound(Abs(dir))
      modifies pmm, pmm.bitmap, memory, dir.entries, dir.tables
      ensures Laid(dir) && pmm.SameShape()
      ensures status == if Spec.AllocPages(old(Abs(dir)), virt, 0, count, flags).ok then 0 else -1
      ensures Abs(dir) == Spec.AllocPages(old(Abs(dir)), virt, 0, count, flags).space
      ensures KeptOutside(old(Words()), Words(), Abs(dir).tables.Values)
    {
      hide Abs, Laid, Spec.Sound, Spec.AllocPage, Spec.PageAt, Spec.UnmapPages, Spec.AllocPages,
        KeptOutside, OnlyTablesOf;
      Laws.SoundTotal(Abs(dir));
      ghost var outcome, start := Spec.AllocPages(Abs(dir), virt, 0, count, flags), Words();
      NothingWritten(start, Abs(dir).tables.Values);
      var i := 0;
      while i < count
        invariant i <= count && Laid(dir) && pmm.SameShape() && Spec.Sound(Abs(dir)) && Abs(dir).total < Spec.PAGES
        invariant Spec.AllocPages(Abs(dir), virt, i, count, flags) == outcome
        invariant KeptOutside(start, Words(), Abs(dir).tables.Values)
      {
        ghost var before := Abs(dir);
        Laws.AllocPagesStep(before, virt, i, count, flags);
        var s := AllocNext(dir, Spec.PageAt(virt, i), flags, start);
        if s != 0 {
          RollBack(dir, virt, i, start);
          return -1;
        }
        i := i + 1;
      }
      Laws.AllocPagesDone(Abs(dir), virt, count, flags);
      return 0;
    }

    /** One iteration, with what has been written since the loop began. */
    method AllocNext(dir: PageDirectory, virt: uint32, flags: uint32, ghost start: seq<seq<uint32>>)
      returns (status: int)
      requires Laid(dir) && Spec.Sound(Abs(dir)) && Abs(dir).total < Spec.PAGES
      requires KeptOutside(start, Words(), Abs(dir).tables.Values)
      modifies pmm, pmm.bitmap, memory, dir.entries, dir.tables
      ensures Laid(dir) && pmm.SameShape() && Spec.Sound(Abs(dir)) && Abs(dir).total < Spec.PAGES
      ensures status == if Spec.AllocPage(old(Abs(dir)), virt, flags).ok then 0 else -1
      ensures Abs(dir) == Spec.AllocPage(old(Abs(dir)), virt, flags).space
      ensures KeptOutside(start, Words(), Abs(dir).tables.Values)
    {
      hide Abs, Laid, Spec.Sound, Spec.AllocPage, KeptOutside, OnlyTablesOf;
      ghost var before, words := Abs(dir), Words();
      Laws.AllocPageIsSound(before, virt, flags);
      Laws.AllocPageGrows(before, virt, flags);
      status := AllocPage(dir, virt, flags);
      OnlyTablesKept(dir);
      Laws.GrownTables(before, Abs(dir));
      KeptOn(start, words, Words(), before.tables.Values, Abs(dir).tables.Values);
    }

    method RollBack(dir: PageDirectory, virt: uint32, count: uint32, ghost start: seq<seq<uint32>>)
      requires Laid(dir) && KeptOutside(start, Words(), Abs(dir).tables.Values)
      modifies memory
      ensures Laid(dir) && Abs(dir) == Spec.UnmapPages(old(Abs(dir)), virt, 0, count)
      ensures KeptOutside(start, Words(), Abs(dir).tables.Values)
    {
      hide Abs, Laid, KeptOutside, Spec.UnmapPages, Spec.PageAt;
      ghost var words, tables := Words(), Abs(dir).tables.Values;
      Laws.UnmapPagesView(Abs(dir), virt, 0, count, 0);
      UnmapRange(dir, virt, count);
      KeptOn(start, words, Words(), tables, tables);
    }

    /** The rollback loop. */
    method UnmapRange(dir: PageDirectory, virt: uint32, count: uint32)
      requires Laid(dir)
      modifies memory
      ensures Laid(dir) && Abs(dir) == Spec.UnmapPages(old(Abs(dir)), virt, 0, count)
      ensures KeptOutside(old(Words()), Words(), Abs(dir).tables.Values)
    {
      hide Abs, Laid, KeptOutside, OnlyTablesOf, Spec.PageAt;
      ghost var outcome, start, tables := Spec.UnmapPages(Abs(dir), virt, 0, count), Words(), Abs(dir).tables;
      NothingWritten(start, tables.Values);
      for j := 0 to count
        invariant Laid(dir) && Spec.UnmapPages(Abs(dir), virt, j, count) == outcome && Abs(dir).tables == tables
        invariant KeptOutside(start, Words(), tables.Values)
      {
        ghost var words := Words();
        label Before:
        UnmapPage(dir, Spec.PageAt(virt, j));
        OnlyTablesKept@Before(dir);
        KeptOn(start, words, Words(), tables.Values, tables.Values);
      }
    }

    // ---- Writes ----

    /** Memory, frame by frame. */
    ghost function Words(): (words: seq<seq<uint32>>)
      reads memory
      ensures |words| == memory.Length0
      ensures forall f :: 0 <= f < memory.Length0 ==> |words[f]| == memory.Length1
      ensures forall f, w :: 0 <= f < memory.Length0 && 0 <= w < memory.Length1 ==> words[f][w] == memory[f, w]
    {
      seq(memory.Length0, f requires 0 <= f < memory.Length0 reads memory =>
        seq(memory.Length1, w requires 0 <= w < memory.Length1 reads memory => memory[f, w]))
    }

    twostate lemma OnlyTablesKept(dir: PageDirectory)
      requires Laid(dir) && OnlyTablesOf(dir)
      ensures KeptOutside(old(Words()), Words(), Abs(dir).tables.Values)
    {
      hide FrameAllocator.Valid, UsedIn, View, Words;
      ghost var before, after := old(Words()), Words();
      forall f: nat | f < |after| && f !in TableFrames(dir).Values ensures before[f] == after[f] {
        assert forall w :: 0 <= w < memory.Length1 ==> before[f][w] == after[f][w];
      }
    }

    method FreePages(dir: PageDirectory, virt: uint32, count: uint32)
      requires Laid(dir)
      modifies pmm, pmm.bitmap, memory
      ensures Laid(dir) && pmm.SameShape()
      ensures Abs(dir) == Spec.FreePages(old(Abs(dir)), virt, 0, count)
    {
      hide Abs, Laid;
      ghost var outcome := Spec.FreePages(Abs(dir), virt, 0, count);
      for i := 0 to count
        invariant Laid(dir) && pmm.SameShape() && Spec.FreePages(Abs(dir), virt, i, count) == outcome
      {
        var addr := Spec.PageAt(virt, i);
        var found, phys := GetPhysical(dir, addr);
        if found {
          ReturnFrame(dir, phys / Spec.PAGE);
        }
        UnmapPage(dir, addr);
      }
    }

    method IsMapped(dir: PageDirectory, virt: uint32) returns (mapped: bool)
      requires Laid(dir)
      ensures mapped <==> virt / Spec.PAGE in Abs(dir).view
    {
      var phys;
      mapped, phys := GetPhysical(dir, virt);
    }

    /** Tests start, start + 4096, ... below limit; stops at the first mapped page, the k-th. */
    method ScanRegion(dir: PageDirectory, start: uint32, limit: uint32)
      returns (free: bool, check: uint32, ghost k: nat)
      requires Laid(dir)
      requires start < limit ==> (limit - start) % Spec.PAGE == 0
      ensures free ==>
                Regions.PagesFree(Abs(dir), start / Spec.PAGE, if start < limit then (limit - start) / Spec.PAGE else 0)
      ensures !free ==> check == start + k * Spec.PAGE < limit && start / Spec.PAGE + k in Abs(dir).view
      ensures !free ==> Regions.PagesFree(Abs(dir), start / Spec.PAGE, k)
    {
      hide Abs, Laid;
      check, k := start, 0;
      while check < limit
        invariant check == start + k * Spec.PAGE && check / Spec.PAGE == start / Spec.PAGE + k
        invariant start < limit ==> check <= limit
        invariant Regions.PagesFree(Abs(dir), start / Spec.PAGE, k)
      {
        var mapped := IsMapped(dir, check);
        if mapped {
          return false, check, k;
        }
        Regions.NextPage(check);
        check, k := check + Spec.PAGE, k + 1;
      }
      free := true;
    }

    method FindFreeRegion(dir: PageDirectory, size: uint32, hint: uint32) returns (start: uint32)
      requires Laid(dir)
      ensures start == Regions.Found(Abs(dir), size, hint)
    {
      hide Abs, Laid, Regions.RoundUp, Regions.Found, Regions.FirstFree, Regions.PagesFree;
      var bytes := Regions.RoundUp(size);
      var addr: uint32 := if hint != 0 then hint else Regions.USER_START;
      var end: uint32 := Regions.KERNEL_START;
      ghost var s, n := Abs(dir), bytes / Spec.PAGE;
      Regions.FoundCases(s, size, hint);
      if hint != 0 {
        var free, _, k := ScanRegion(dir, hint, Wrap32(hint + bytes));
        Regions.EndWraps(hint, bytes);
        if free {
          return hint;
        }
        Regions.Blocked(s, hint / Spec.PAGE, n, k);
      }
      ghost var limit := Regions.Limit(bytes);
      ghost var first := Regions.FirstFree(s, addr, limit, bytes);
      while addr < Wrap32(end - bytes)
        invariant Regions.FirstFree(s, addr, limit, bytes) == first
      {
        var free, check, k := ScanRegion(dir, addr, Wrap32(addr + bytes));
        Regions.EndWraps(addr, bytes);
        if free {
          Regions.FirstFreeCases(s, addr, limit, bytes);
          return addr;
        }
        Regions.SkipBlocked(s, addr, limit, bytes, k);
        addr := check;  // resume after the mapped page
        addr := addr + Spec.PAGE;
      }
      Regions.FirstFreeCases(s, addr, limit, bytes);
      return 0;
    }

    /** Writing the one frame of one directory's table: a directory that does not share that table keeps
        its whole address space. */
    twostate lemma OtherDirectoryKeepsView(other: PageDirectory, frame: nat)
      requires old(Laid(other)) && pmm.Valid() && pmm.Formed() && pmm.SameShape()
      requires unchanged(other.entries) && unchanged(other.tables)
      requires OnlyRow(frame) && frame !in old(TableFrames(other)).Values
      ensures Laid(other) && TableFrames(other) == old(TableFrames(other)) && View(other) == old(View(other))
    {
      hide FrameAllocator.Valid, UsedIn;
      forall p | 0 <= p < Spec.PAGES ensures Lookup(other, p) == old(Lookup(other, p)) {
        if other.tables[p / 1024] != 0 {
          assert old(TableFrames(other))[p / 1024] == other.tables[p / 1024] / Spec.PAGE;
        }
      }
    }

    // ---- Directories side by side ----

    /** Directories with arrays of their own and tables in used frames. They may share tables, as those for
        the kernel's part, copied from one directory to the next: then in the same slot. */
    ghost predicate Together(dirs: set<PageDirectory>)
      reads pmm, pmm.bitmap, memory, set d | d in dirs :: d.entries, set d | d in dirs :: d.tables
    {
      && (forall d :: d in dirs ==> Laid(d) && Spec.Sound(Abs(d)))
      && (forall d, e :: d in dirs && e in dirs && d != e ==> SideBySide(d, e))
    }

    ghost predicate SideBySide(d: PageDirectory, e: PageDirectory)
      requires Laid(d) && Laid(e)
      reads pmm, pmm.bitmap, d.entries, d.tables, e.entries, e.tables
    {
      && d.entries != e.entries && d.entries != e.tables && d.tables != e.entries && d.tables != e.tables
      && Laws.InPlace(TableFrames(d), TableFrames(e))
    }

    /** The words of a page: those of the table that was written where it is shared, and the old ones
        elsewhere. */
    twostate lemma PagesStand(pair: Pair)
      requires var dir, other := pair.dir, pair.other;
               && old(Laid(other)) && Laid(dir) && pmm.SameShape()
               && unchanged(other.entries) && unchanged(other.tables)
               && KeptOutside(old(Words()), Words(), TableFrames(dir).Values)
               && Laws.InPlace(TableFrames(dir), old(TableFrames(other)))
      ensures var dir, other := pair.dir, pair.other;
              && Laid(other) && TableFrames(other) == old(TableFrames(other))
              && forall p :: 0 <= p < Spec.PAGES ==>
                   Lookup(other, p) == if Laws.Shared(TableFrames(dir), TableFrames(other), p / 1024)
                                       then Lookup(dir, p) else old(Lookup(other, p))
    {
      hide FrameAllocator.Valid, UsedIn, Words, KeptOutside;
      var dir, other := pair.dir, pair.other;
      LaidStands(other);
      forall p | 0 <= p < Spec.PAGES && !Laws.Shared(TableFrames(dir), TableFrames(other), p / 1024)
        ensures Lookup(other, p) == old(Lookup(other, p))
      {
        if other.tables[p / 1024] != 0 {
          TableIsFrame(other, p / 1024);
          KeptFrame(old(Words()), Words(), TableFrames(dir).Values, other.tables[p / 1024] / Spec.PAGE);
        }
      }
    }

    twostate lemma ViewFollows(pair: Pair)
      requires var dir, other := pair.dir, pair.other;
               && old(Laid(other)) && Laid(dir) && Laid(other) && TableFrames(other) == old(TableFrames(other))
               && forall p :: 0 <= p < Spec.PAGES ==>
                    Lookup(other, p) == if Laws.Shared(TableFrames(dir), TableFrames(other), p / 1024)
                                        then Lookup(dir, p) else old(Lookup(other, p))
      ensures Laws.Follows(old(Abs(pair.other)), Abs(pair.other), Abs(pair.dir))
    {
      hide FrameAllocator.Valid, UsedIn, Lookup, TableFrames, Laid, Laws.Shared;
    }

    /** A mapped page has a table. */
    lemma ViewIsShaped(dir: PageDirectory)
      requires Laid(dir)
      ensures forall p :: p in View(dir) ==>
                p < Spec.PAGES && p / 1024 in TableFrames(dir) && View(dir)[p] % 2 == 1
    {
      hide FrameAllocator.Valid, UsedIn;
    }

    /** Growing into free frames only, an operation on one directory leaves another its tables and the
        translations of those it does not share, sound, and side by side with the first. */
    twostate lemma OneStands(pair: Pair)
      requires var dir, other := pair.dir, pair.other;
               && old(Together({dir, other})) && dir != other
               && Laid(dir) && Spec.Sound(Abs(dir)) && pmm.SameShape()
               && unchanged(other.entries) && unchanged(other.tables)
               && Laws.Grows(old(Abs(dir)), Abs(dir))
               && KeptOutside(old(Words()), Words(), Abs(dir).tables.Values)
      ensures var dir, other := pair.dir, pair.other;
              && Laid(other) && TableFrames(other) == old(TableFrames(other))
              && Laws.Follows(old(Abs(other)), Abs(other), Abs(dir)) && Spec.Sound(Abs(other))
              && SideBySide(dir, other)
    {
      hide FrameAllocator.Valid, UsedIn, View, Spec.Sound, Words, TableFrames, KeptOutside, Laws.Grows, Laid, Lookup,
        Laws.Shared, Laws.InPlace, Laws.Follows;
      var dir, other := pair.dir, pair.other;
      ghost var s, t, o := old(Abs(dir)), Abs(dir), old(Abs(other));
      Laws.TablesAreUsed(o);
      Laws.StaysInPlace(s, t, o);
      PagesStand(pair);
      ViewFollows(pair);
      Laws.UsedIsInMemory(t);
      ViewIsShaped(other);
      Laws.SoundWithMore(o, Abs(other));
    }

    twostate lemma StayTogether(among: Among)
      requires var dir, dirs := among.dir, among.dirs;
               && old(Together(dirs)) && dir in dirs
               && Laid(dir) && Spec.Sound(Abs(dir)) && pmm.SameShape()
               && (forall o :: o in dirs && o != dir ==> unchanged(o.entries) && unchanged(o.tables))
               && Laws.Grows(old(Abs(dir)), Abs(dir))
               && KeptOutside(old(Words()), Words(), Abs(dir).tables.Values)
      ensures Together(among.dirs)
      ensures forall o :: o in among.dirs && o != among.dir ==>
                Laws.Follows(old(Abs(o)), Abs(o), Abs(among.dir))
    {
      hide FrameAllocator.Valid, UsedIn, Spec.Sound, Words, TableFrames, View, KeptOutside, Laws.Grows, Laid, Abs,
        Laws.InPlace, Laws.Follows;
      var dir, dirs := among.dir, among.dirs;
      forall o | o in dirs && o != dir
        ensures Laid(o) && Laws.Follows(old(Abs(o)), Abs(o), Abs(dir)) && TableFrames(o) == old(TableFrames(o))
        ensures Spec.Sound(Abs(o)) && SideBySide(dir, o) && SideBySide(o, dir)
      {
        OneStands(Pair(dir, o));
        Laws.InPlaceBothWays(TableFrames(dir), TableFrames(o));
      }
    }

    /** vmm_map_page on one of several directories. */
    method MapPageAmong(dir: PageDirectory, ghost dirs: set<PageDirectory>, virt: uint32, phys: uint32, flags: uint32)
      returns (status: int)
      requires Together(dirs) && dir in dirs
      modifies pmm, pmm.bitmap, memory, dir.entries, dir.tables
      ensures Together(dirs)
      ensures forall o :: o in dirs && o != dir ==> Laws.Follows(old(Abs(o)), Abs(o), Abs(dir))
      ensures Abs(dir) == Spec.MapPage(old(Abs(dir)), virt, phys, flags).space
      ensures status == if Spec.MapPage(old(Abs(dir)), virt, phys, flags).ok then 0 else -1
    {
      hide Laid, Abs, Spec.Sound, Spec.MapPage, OnlyTablesOf, View, TableFrames;
      Laws.MapPageGrows(Abs(dir), virt, phys, flags);
      Laws.MapPageIsSound(Abs(dir), virt, phys, flags);
      status := MapPage(dir, virt, phys, flags);
      OnlyTablesKept(dir);
      StayTogether(Among(dir, dirs));
    }

    /** vmm_unmap_page on one of several directories. */
    method UnmapPageAmong(dir: PageDirectory, ghost dirs: set<PageDirectory>, virt: uint32)
      requires Together(dirs) && dir in dirs
      modifies memory
      ensures Together(dirs)
      ensures forall o :: o in dirs && o != dir ==> Laws.Follows(old(Abs(o)), Abs(o), Abs(dir))
      ensures Abs(dir) == Spec.UnmapPage(old(Abs(dir)), virt)
    {
      hide Laid, Abs, Spec.Sound, OnlyTablesOf, View, TableFrames;
      Laws.UnmapPageIsSound(Abs(dir), virt);
      UnmapPage(dir, virt);
      OnlyTablesKept(dir);
      StayTogether(Among(dir, dirs));
    }

    /** vmm_alloc_pages on one of several directories. */
    method AllocPagesAmong(dir: PageDirectory, ghost dirs: set<PageDirectory>, virt: uint32, count: uint32,
                           flags: uint32)
      returns (status: int)
      requires Together(dirs) && dir in dirs
      modifies pmm, pmm.bitmap, memory, dir.entries, dir.tables
      ensures Together(dirs)
      ensures forall o :: o in dirs && o != dir ==> Laws.Follows(old(Abs(o)), Abs(o), Abs(dir))
      ensures Abs(dir) == Spec.AllocPages(old(Abs(dir)), virt, 0, count, flags).space
      ensures status == if Spec.AllocPages(old(Abs(dir)), virt, 0, count, flags).ok then 0 else -1
    {
      hide Laid, Abs, Spec.Sound, Spec.AllocPages, View, TableFrames;
      Laws.SoundTotal(Abs(dir));
      Laws.AllocPagesGrows(Abs(dir), virt, 0, count, flags);
      Laws.AllocPagesIsSound(Abs(dir), virt, 0, count, flags);
      status := AllocPages(dir, virt, count, flags);
      StayTogether(Among(dir, dirs));
    }
  }
}
