/** An address space as a finite map from pages to entries, together with the frames its
    page tables live in and the set of frames in use; and what each operation of the
    virtual memory manager does to it. */
module AddressSpaces {
  import opened Bits
  import opened Frames

  const PAGE: nat := 0x1000
  const PAGES: nat := 0x10_0000
  const PAGE_MASK: nat := 0xFFFF_F000
  const FLAG_PRESENT: nat := 1

  /** total: frames of physical memory; used: the allocator's used frames; tables: the frame
      of each page table present; view: the entry of each page that is mapped. */
  datatype Space = Space(total: nat, used: set<nat>, tables: map<nat, nat>, view: map<nat, uint32>)

  datatype Outcome = Outcome(ok: bool, space: Space)

  /** What map and alloc rely on: page tables occupy distinct used frames, so a frame that the
      allocator hands out is never one of them. */
  ghost predicate Sound(s: Space) {
    && Shaped(s)
    && forall d :: d in s.tables ==> s.tables[d] in s.used
  }

  /** Tables occupy distinct frames of memory, and a mapped page has a table. */
  ghost predicate Shaped(s: Space) {
    && 1 <= s.total < PAGES
    && (forall f :: f in s.used ==> f < s.total)
    && (forall d :: d in s.tables ==> 1 <= s.tables[d] < s.total)
    && (forall d, e :: d in s.tables && e in s.tables && d != e ==> s.tables[d] != s.tables[e])
    && (forall p :: p in s.view ==> p < PAGES && p / 1024 in s.tables && s.view[p] % 2 == 1)
  }

  /** VMM_DIR_INDEX: the top ten bits, which are the page number's upper half. */
  function DirIndex(virt: uint32): (i: nat)
    ensures i < 1024 && i == virt / PAGE / 1024
  {
    TenBits(virt, 22);
    Pow22();
    And(Shr(virt, 22), 0x3FF)
  }

  /** VMM_TABLE_INDEX: the next ten bits, the page number's lower half. */
  function TableIndex(virt: uint32): (i: nat)
    ensures i < 1024 && i == virt / PAGE % 1024
  {
    TenBits(virt, 12);
    Pow22();
    And(Shr(virt, 12), 0x3FF)
  }

  lemma TenBits(virt: uint32, n: nat)
    ensures And(Shr(virt, n), 0x3FF) == virt / Pow2(n) % 1024
  {
    hide And, Shr;
    Pow22();
    ShrIsQuotient(virt, n);
    AndLow(Shr(virt, n), 10);
  }

  lemma Pow22()
    ensures Pow2(10) == 1024 && Pow2(12) == 0x1000 && Pow2(22) == 0x40_0000
  {
    Pow20();
    Pow12();
    assert Pow2(10) == 1024;
  }

  /** The word a page table stores: page-aligned address, low flag bits, present bit. */
  function EntryWord(phys: uint32, flags: uint32): (w: uint32)
    ensures w % 2 == 1 && w / PAGE == phys / PAGE && w % PAGE == PresentFlags(flags)
  {
    EntryBits(phys, flags);
    EntryParts(phys / PAGE, PresentFlags(flags));
    Or(Or(And(phys, PAGE_MASK), And(flags, 0xFFF)), FLAG_PRESENT)
  }

  /** The low twelve flag bits with the present bit set. */
  function PresentFlags(flags: uint32): (low: nat)
    ensures low < PAGE && low % 2 == 1
  {
    if flags % 2 == 1 then flags % PAGE else flags % PAGE + 1
  }

  lemma EntryBits(phys: uint32, flags: uint32)
    ensures Or(Or(And(phys, PAGE_MASK), And(flags, 0xFFF)), FLAG_PRESENT) == phys / PAGE * PAGE + PresentFlags(flags)
  {
    hide And;
    PageMask(phys);
    LowFlags(flags);
    MergeLow(phys / PAGE, flags % PAGE);
    OrOne(phys / PAGE * PAGE + flags % PAGE);
  }

  lemma LowFlags(flags: uint32)
    ensures And(flags, 0xFFF) == flags % PAGE
  {
    Pow12();
    AndLow(flags, 12);
  }

  lemma MergeLow(q: nat, low: nat)
    requires low < PAGE
    ensures Or(q * PAGE, low) == q * PAGE + low
  {
    Pow12();
    DivModUnique(q * PAGE, PAGE, q, 0);
    OrDisjoint(q * PAGE, low, 12);
  }

  lemma EntryParts(q: nat, low: nat)
    requires low < PAGE && low % 2 == 1 && q < PAGES
    ensures var w := q * PAGE + low; w < TWO_32 && w % 2 == 1 && w / PAGE == q && w % PAGE == low
  {
    DivModUnique(q * PAGE + low, PAGE, q, low);
  }

  lemma LowBit(x: nat)
    ensures And(x, FLAG_PRESENT) == x % 2
  {
    if x != 0 { assert And(x / 2, 0) == 0; }
  }

  lemma OrOne(x: nat)
    ensures Or(x, 1) == if x % 2 == 1 then x else x + 1
  {
    if x != 0 { assert Or(x / 2, 0) == x / 2; }
  }

  /** A directory entry: the table's address with its three flag bits. */
  function TableEntry(table: uint32): (w: uint32)
    requires table % PAGE == 0
    ensures w == table + 7
  {
    TableEntryBits(table);
    Or(Or(Or(table, 1), 2), 4)
  }

  lemma TableEntryBits(table: uint32)
    requires table % PAGE == 0
    ensures Or(Or(Or(table, 1), 2), 4) == table + 7 < TWO_32
  {
    hide Or;
    assert table == 8 * (512 * (table / PAGE));
    OrFlags(table);
  }

  lemma OrFlags(t: nat)
    requires t % 8 == 0
    ensures Or(Or(Or(t, 1), 2), 4) == t + 7
  {
    hide Or;
    OrSmall();
    OrHigh(t, 0, 1, 3);
    OrHigh(t, 1, 2, 3);
    OrHigh(t, 3, 4, 3);
  }

  lemma OrSmall()
    ensures Or(0, 1) == 1 && Or(1, 2) == 3 && Or(3, 4) == 7 && Pow2(3) == 8
  {
  }

  /** Merging low bits leaves the part above them alone. */
  lemma {:induction false} OrHigh(t: nat, x: nat, y: nat, n: nat)
    requires t % Pow2(n) == 0 && x < Pow2(n) && y < Pow2(n)
    ensures Or(t + x, y) == t + Or(x, y)
    decreases n
  {
    if n > 0 {
      HalveDivMod(t, n);
      OrHigh(t / 2, x / 2, y / 2, n - 1);
      OrUnfolded(t + x, y);
      OrUnfolded(x, y);
    }
  }

  lemma OrUnfolded(a: nat, b: nat)
    ensures Or(a, b) == 2 * Or(a / 2, b / 2) + (if a % 2 == 1 || b % 2 == 1 then 1 else 0)
  {
    OrWithZero(a / 2);
    OrWithZero(b / 2);
  }

  lemma OrWithZero(a: nat)
    ensures Or(a, 0) == a && Or(0, a) == a
  {
  }

  // ---- One page ----

  /** The space once directory slot d has a table, unless no frame is free. */
  ghost function WithTable(s: Space, d: nat): (t: Space)
    ensures t.total == s.total && t.view == s.view
  {
    var f := FirstFit(s.used, s.total, 1, 1);
    if d in s.tables || f == 0 then s else s.(used := s.used + {f}, tables := s.tables[d := f])
  }

  ghost function MapPage(s: Space, virt: uint32, phys: uint32, flags: uint32): (r: Outcome)
    ensures r.space.total == s.total
  {
    var t := WithTable(s, DirIndex(virt));
    if DirIndex(virt) !in t.tables then Outcome(false, s)
    else Outcome(true, t.(view := t.view[virt / PAGE := EntryWord(phys, flags)]))
  }

  ghost function UnmapPage(s: Space, virt: uint32): Space {
    s.(view := s.view - {virt / PAGE})
  }

  predicate IsMapped(s: Space, virt: uint32) {
    virt / PAGE in s.view
  }

  /** The page-aligned physical address of a mapped page. */
  function Physical(s: Space, virt: uint32): uint32
    requires IsMapped(s, virt)
  {
    s.view[virt / PAGE] / PAGE * PAGE
  }

  ghost function AllocPage(s: Space, virt: uint32, flags: uint32): (r: Outcome)
    requires s.total < PAGES
    ensures r.space.total == s.total
  {
    var frame := FirstFit(s.used, s.total, 1, 1);
    if frame == 0 then Outcome(false, s) else
    var r := MapPage(s.(used := s.used + {frame}), virt, frame * PAGE, flags);
    if r.ok then r else Outcome(false, r.space.(used := r.space.used - {frame}))
  }

  /** Freeing a page: its frame goes back to the allocator when the page is mapped. */
  ghost function FreePage(s: Space, virt: uint32): Space {
    UnmapPage(if IsMapped(s, virt) then s.(used := s.used - {Physical(s, virt) / PAGE}) else s, virt)
  }

  // ---- Ranges of pages, in 32-bit arithmetic ----

  function PageAt(virt: uint32, i: uint32): uint32 {
    Wrap32(virt + i * PAGE)
  }

  ghost function UnmapPages(s: Space, virt: uint32, i: uint32, count: uint32): Space
    decreases count - i
  {
    if i >= count then s else UnmapPages(UnmapPage(s, PageAt(virt, i)), virt, i + 1, count)
  }

  ghost function AllocPages(s: Space, virt: uint32, i: uint32, count: uint32, flags: uint32): Outcome
    requires s.total < PAGES
    decreases count - i
  {
    if i >= count then Outcome(true, s) else
    var r := AllocPage(s, PageAt(virt, i), flags);
    if r.ok then AllocPages(r.space, virt, i + 1, count, flags)
    else Outcome(false, UnmapPages(r.space, virt, 0, i))
  }

  ghost function FreePages(s: Space, virt: uint32, i: uint32, count: uint32): Space
    decreases count - i
  {
    if i >= count then s else FreePages(FreePage(s, PageAt(virt, i)), virt, i + 1, count)
  }
}
