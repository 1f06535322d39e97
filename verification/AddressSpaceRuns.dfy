/** A run of the memory manager from a fresh allocator that frees one of its own page tables. */
module AddressSpaceRuns {
  import opened Bits
  import opened Frames
  import opened AddressSpaces
  import opened AddressSpaceLaws
  import opened Regions

  /** No frame used, no table, nothing mapped. */
  function Fresh(total: nat): Space {
    Space(total, {}, map[], map[])
  }

  lemma FreshIsSound(total: nat)
    requires 1 <= total < PAGES
    ensures Sound(Fresh(total))
  {
  }

  lemma LowestFree(used: set<nat>, total: nat, f: nat)
    requires 1 <= f < total && f !in used && forall g :: 1 <= g < f ==> g in used
    ensures FirstFit(used, total, 1, 1) == f
  {
    forall t: nat | 1 <= t < f ensures !RunIsFree(used, total, t, 1) {
      assert t in used;
    }
    assert RunIsFree(used, total, f, 1);
    FirstFitFound(used, total, 1, f);
  }

  lemma Indices()
    ensures DirIndex(0x1000) == 0 && DirIndex(0x40_0000) == 1
  {
  }

  /** Identity-mapping the second page of memory, as the start-up code does among others: its table goes
      into frame 1, which is the frame the page is mapped onto. */
  lemma PageOnItsOwnTable(total: nat, flags: uint32)
    requires 2 <= total < PAGES
    ensures var s := MapPage(Fresh(total), 0x1000, 0x1000, flags).space;
            && Sound(s) && s.total == total && s.used == {1} && s.tables == map[0 := 1]
            && 1 in s.view && s.view[1] / PAGE == 1 && s.view.Keys == {1}
  {
    hide FirstFit, EntryWord, Sound;
    FreshIsSound(total);
    LowestFree({}, total, 1);
    Indices();
    MapPageIsSound(Fresh(total), 0x1000, 0x1000, flags);
  }

  /** Freeing that page gives the table's frame back to the allocator, and the next table that is needed
      is placed on top of it. */
  lemma FreedTableIsOverlaid(total: nat, flags: uint32)
    requires 2 <= total < PAGES
    ensures var s := MapPage(Fresh(total), 0x1000, 0x1000, flags).space;
            var t := FreePages(s, 0x1000, 0, 1);
            var u := MapPage(t, 0x40_0000, 0, flags).space;
            && !FreesNoTable(s, 0x1000, 0, 1) && !Sound(t)
            && u.tables == map[0 := 1, 1 := 1]
  {
    hide FirstFit, EntryWord, Sound, MapPage;
    var s := MapPage(Fresh(total), 0x1000, 0x1000, flags).space;
    PageOnItsOwnTable(total, flags);
    FreeSecondPage(s);
    var t := FreePages(s, 0x1000, 0, 1);
    FreePagesIsSound(s, 0x1000, 0, 1);
    LowestFree({}, total, 1);
    Indices();
    NextTable(t, flags);
  }

  lemma FreeSecondPage(s: Space)
    requires s.used == {1} && s.tables == map[0 := 1] && 1 in s.view && s.view[1] / PAGE == 1
    ensures !FreesNoTable(s, 0x1000, 0, 1)
    ensures var t := FreePages(s, 0x1000, 0, 1);
            t.used == {} && t.tables == s.tables && t.total == s.total
  {
    hide FreePage;
    assert PageAt(0x1000, 0) == 0x1000;
    FreePageEffect(s, 0x1000);
    assert s.tables[0] in s.tables.Values;
    var t := FreePage(s, 0x1000);
    assert FreePages(s, 0x1000, 0, 1) == FreePages(t, 0x1000, 1, 1) == t;
  }

  lemma NextTable(t: Space, flags: uint32)
    requires t.tables == map[0 := 1] && FirstFit(t.used, t.total, 1, 1) == 1
    ensures MapPage(t, 0x40_0000, 0, flags).space.tables == map[0 := 1, 1 := 1]
  {
    hide FirstFit, EntryWord;
    Indices();
  }

  // ---- Frames that a failure keeps ----

  /** With two frames to give, a range of two pages takes one for a page and one for its table, fails, and
      leaves nothing mapped and both frames used. */
  lemma FailureKeepsFrames(flags: uint32)
    ensures var r := AllocPages(Fresh(3), 0x1000, 0, 2, flags);
            !r.ok && r.space.view == map[] && r.space.used == {1, 2} && r.space.tables == map[0 := 2]
  {
    hide FirstFit, EntryWord, Sound;
    LowestFree({}, 3, 1);
    LowestFree({1}, 3, 2);
    NoneFree({1, 2}, 3);
    Indices();
    var s := AllocPage(Fresh(3), 0x1000, flags).space;
    assert PageAt(0x1000, 0) == 0x1000;
    assert {} + {1} == {1} && {1} + {2} == {1, 2};
    AllocPagesStep(Fresh(3), 0x1000, 0, 2, flags);
    AllocPagesStep(s, 0x1000, 1, 2, flags);
    assert UnmapPages(s, 0x1000, 0, 1) == UnmapPages(UnmapPage(s, 0x1000), 0x1000, 1, 1) == UnmapPage(s, 0x1000);
  }

  lemma NoneFree(used: set<nat>, total: nat)
    requires forall g :: 1 <= g < total ==> g in used
    ensures FirstFit(used, total, 1, 1) == 0
  {
    FreeFrameFound(used, total);
  }

  // ---- A region above 3 GB ----

  /** Two pages are mapped far apart. A search for 0xD0000000 bytes from 0x10000000 meets the first, goes on
      after it, and returns the start reached untested: the second page lies in its region. */
  lemma WideRegionIsMapped(total: nat, flags: uint32)
    requires 3 <= total < PAGES
    ensures var s := MapPage(MapPage(Fresh(total), 0x2FFF_F000, 0, flags).space, 0xF000_0000, 0, flags).space;
            && Sound(s) && s.view.Keys == {0x2_FFFF, 0xF_0000}
            && Found(s, 0xD000_0000, 0x1000_0000) == 0x3000_0000
            && !RangeUnmapped(s, 0x3000_0000, 0xD000_0000)
  {
    hide MapPage, Sound, Found, RangeUnmapped, Rounded;
    var s := TwoMapped(total, flags);
    RoundedIs(0xD000_0000);
    SamePages(0xD000_0000, 0xD000_0000, Rounded(0xD000_0000));
    WideSkips(s, 0xD000_0000, 0x1000_0000, 0x2_FFFF);
    if RangeUnmapped(s, 0x3000_0000, 0xD000_0000) {
      RangeUnmappedAt(s, 0x3000_0000, 0xD000_0000, 0xC000_0000);
    }
  }

  /** Mapping a page whose table is missing puts the table in the lowest free frame. */
  lemma MapNew(s: Space, virt: uint32, flags: uint32, f: nat)
    requires Sound(s) && DirIndex(virt) !in s.tables && FirstFit(s.used, s.total, 1, 1) == f > 0
    ensures var t := MapPage(s, virt, 0, flags).space;
            && Sound(t) && t.total == s.total && t.used == s.used + {f} && t.tables == s.tables[DirIndex(virt) := f]
            && t.view.Keys == s.view.Keys + {virt / PAGE}
  {
    hide FirstFit, EntryWord, Sound;
    MapPageIsSound(s, virt, 0, flags);
  }

  lemma TwoMapped(total: nat, flags: uint32) returns (s: Space)
    requires 3 <= total < PAGES
    ensures s == MapPage(MapPage(Fresh(total), 0x2FFF_F000, 0, flags).space, 0xF000_0000, 0, flags).space
    ensures Sound(s) && s.view.Keys == {0x2_FFFF, 0xF_0000}
  {
    hide FirstFit, MapPage, Sound, DirIndex;
    var t := MapPage(Fresh(total), 0x2FFF_F000, 0, flags).space;
    s := MapPage(t, 0xF000_0000, 0, flags).space;
    FreshIsSound(total);
    LowestFree({}, total, 1);
    LowestFree({1}, total, 2);
    WideIndices();
    MapNew(Fresh(total), 0x2FFF_F000, flags, 1);
    assert t.used == {1};
    MapNew(t, 0xF000_0000, flags, 2);
  }

  lemma WideIndices()
    ensures DirIndex(0x2FFF_F000) == 191 && DirIndex(0xF000_0000) == 960
    ensures 0x2FFF_F000 / PAGE == 0x2_FFFF && 0xF000_0000 / PAGE == 0xF_0000
  {
  }
}
