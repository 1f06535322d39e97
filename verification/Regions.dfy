/** Searching an address space for an unmapped region: what trying every start in order finds. */
module Regions {
  import opened Bits
  import opened AddressSpaces

  const USER_START: nat := 0x10_0000
  const KERNEL_START: nat := 0xC000_0000

  /** None of the n pages from page p on is mapped. */
  ghost predicate PagesFree(s: Space, p: nat, n: nat) {
    forall q :: p <= q < p + n ==> q !in s.view
  }

  /** The region's end, in 32 bits, is not past its start, and the loop that tests its pages does
      nothing. */
  predicate Wraps(addr: nat, bytes: nat) {
    addr + bytes >= TWO_32
  }

  /** What testing a region finds free: it wraps, or none of its pages is mapped. */
  ghost predicate Accepted(s: Space, addr: nat, bytes: nat) {
    Wraps(addr, bytes) || PagesFree(s, addr / PAGE, bytes / PAGE)
  }

  /** How many pages from p on are unmapped, counting to n. */
  ghost function Gap(s: Space, p: nat, n: nat): (k: nat)
    ensures k <= n && PagesFree(s, p, k) && (k < n ==> p + k in s.view)
    decreases n
  {
    if n == 0 || p in s.view then 0 else 1 + Gap(s, p + 1, n - 1)
  }

  /** The first of addr, addr + 4096, ... below limit that is accepted, as long as they do not wrap. When
      none of these is, the start just after the page that blocks the last of them: it wraps, and is
      accepted as it stands. 0 if that is not below limit. */
  ghost function FirstFree(s: Space, addr: nat, limit: nat, bytes: nat): (r: nat)
    ensures r == 0 || r < limit
    decreases limit - addr
  {
    if addr >= limit then 0
    else if Accepted(s, addr, bytes) then addr
    else if !Wraps(addr + PAGE, bytes) then FirstFree(s, addr + PAGE, limit, bytes)
    else
      var r := addr + (Gap(s, addr / PAGE, bytes / PAGE) + 1) * PAGE;
      if r < limit then r else 0
  }

  /** `(size + 4095) & 0xFFFFF000`, in 32 bits. */
  function RoundUp(size: uint32): (r: uint32)
    ensures r % PAGE == 0
    ensures if size <= 0xFFFF_F000 then size <= r < size + PAGE else r == 0
  {
    RoundedUp(size, Wrap32(size + (PAGE - 1)));
    And(Wrap32(size + (PAGE - 1)), PAGE_MASK)
  }

  lemma RoundedUp(size: uint32, sum: uint32)
    requires sum == Wrap32(size + (PAGE - 1))
    ensures And(sum, PAGE_MASK) == sum / PAGE * PAGE && sum / PAGE * PAGE % PAGE == 0
    ensures if size <= 0xFFFF_F000 then size <= sum / PAGE * PAGE < size + PAGE else sum / PAGE * PAGE == 0
  {
    hide And;
    PageMask(sum);
    DivModUnique(sum / PAGE * PAGE, PAGE, sum / PAGE, 0);
  }

  /** The bytes asked for, in whole pages, however many. */
  function Rounded(size: nat): nat {
    (size + PAGE - 1) / PAGE * PAGE
  }

  lemma RoundedIs(size: uint32)
    ensures Rounded(size) % PAGE == 0 && size <= Rounded(size) < size + PAGE
    ensures if size <= 0xFFFF_F000 then RoundUp(size) == Rounded(size)
            else RoundUp(size) == 0 && Rounded(size) == TWO_32
    ensures size <= KERNEL_START ==> Rounded(size) <= KERNEL_START
  {
    DivModUnique(Rounded(size), PAGE, (size + PAGE - 1) / PAGE, 0);
    WholePages(size);
    if size <= 0xFFFF_F000 { SamePages(size, RoundUp(size), Rounded(size)); }
  }

  lemma WholePages(size: nat)
    ensures size <= Rounded(size) < size + PAGE
    ensures 0xFFFF_F000 < size < TWO_32 ==> Rounded(size) == TWO_32
    ensures size <= KERNEL_START ==> Rounded(size) <= KERNEL_START
  {
  }

  lemma SamePages(size: nat, a: nat, b: nat)
    requires a % PAGE == 0 && b % PAGE == 0 && size <= a < size + PAGE && size <= b < size + PAGE
    ensures a == b
  {
  }

  /** Where the scan starts. */
  function Start(hint: uint32): uint32 {
    if hint != 0 then hint else USER_START
  }

  /** `end - size`, which wraps for sizes above 3 GB. */
  function Limit(bytes: uint32): uint32 {
    Wrap32(KERNEL_START - bytes)
  }

  /** Testing the pages below a 32-bit end. */
  lemma EndWraps(addr: uint32, bytes: uint32)
    requires bytes % PAGE == 0
    ensures if Wraps(addr, bytes) then Wrap32(addr + bytes) < addr else Wrap32(addr + bytes) == addr + bytes
    ensures (Wrap32(addr + bytes) - addr) % PAGE == 0
  {
    if Wraps(addr, bytes) {
      DivModUnique(addr + bytes, TWO_32, 1, addr + bytes - TWO_32);
      DivModUnique(bytes - TWO_32, PAGE, bytes / PAGE - PAGES, 0);
    }
  }

  lemma LimitIs(bytes: uint32)
    ensures Limit(bytes) == if bytes <= KERNEL_START then KERNEL_START - bytes else TWO_32 + KERNEL_START - bytes
  {
  }

  /** What the search returns: the hint if its own region is accepted, else what the scan from it (from 1 MB
      without a hint) finds. */
  ghost function Found(s: Space, size: uint32, hint: uint32): (r: uint32) {
    var bytes := RoundUp(size);
    if hint != 0 && Accepted(s, hint, bytes) then hint
    else FirstFree(s, Start(hint), Limit(bytes), bytes)
  }

  lemma FoundCases(s: Space, size: uint32, hint: uint32)
    ensures var bytes := RoundUp(size);
            Found(s, size, hint)
              == if hint != 0 && Accepted(s, hint, bytes) then hint else FirstFree(s, Start(hint), Limit(bytes), bytes)
  {
    hide FirstFree, Accepted, RoundUp;
  }

  lemma FirstFreeCases(s: Space, addr: nat, limit: nat, bytes: nat)
    ensures addr >= limit ==> FirstFree(s, addr, limit, bytes) == 0
    ensures addr < limit && Accepted(s, addr, bytes) ==> FirstFree(s, addr, limit, bytes) == addr
  {
    hide Accepted;
  }

  lemma Blocked(s: Space, p: nat, n: nat, k: nat)
    requires k < n && p + k in s.view
    ensures !PagesFree(s, p, n)
  {
  }

  lemma {:induction false} GapIs(s: Space, p: nat, n: nat, k: nat)
    requires k < n && PagesFree(s, p, k) && p + k in s.view
    ensures Gap(s, p, n) == k
    decreases k
  {
    if k > 0 { GapIs(s, p + 1, n - 1, k - 1); }
  }

  /** The first mapped page of a region that does not wrap rules out every start up to it that does not
      wrap either, and the scan may resume just after it. */
  lemma {:induction false} SkipBlocked(s: Space, addr: nat, limit: nat, bytes: nat, k: nat)
    requires !Wraps(addr, bytes) && k < bytes / PAGE && PagesFree(s, addr / PAGE, k) && addr / PAGE + k in s.view
    ensures FirstFree(s, addr, limit, bytes) == FirstFree(s, addr + k * PAGE + PAGE, limit, bytes)
    decreases k
  {
    hide PagesFree, Gap;
    Blocked(s, addr / PAGE, bytes / PAGE, k);
    NextPage(addr);
    if addr < limit {
      if Wraps(addr + PAGE, bytes) {
        GapIs(s, addr / PAGE, bytes / PAGE, k);
      } else if k > 0 {
        FewerPages(s, addr / PAGE, k);
        SkipBlocked(s, addr + PAGE, limit, bytes, k - 1);
      }
    }
  }

  lemma FewerPages(s: Space, p: nat, k: nat)
    requires k > 0 && PagesFree(s, p, k)
    ensures PagesFree(s, p + 1, k - 1)
  {
  }

  lemma NextPage(addr: nat)
    ensures (addr + PAGE) / PAGE == addr / PAGE + 1
  {
    DivModUnique(addr + PAGE, PAGE, addr / PAGE + 1, addr % PAGE);
  }

  /** FirstFree is accepted, and no start below it that does not wrap is; one that wraps is just after a
      mapped page. It is 0 only when no start that does not wrap is accepted. */
  lemma {:induction false} FirstFreeIsLeast(s: Space, addr: nat, limit: nat, bytes: nat)
    requires addr > 0
    ensures var r := FirstFree(s, addr, limit, bytes);
            && (r != 0 ==> addr <= r < limit && r % PAGE == addr % PAGE && Accepted(s, r, bytes))
            && (r > addr && Wraps(r, bytes) ==> r / PAGE - 1 in s.view)
            && (forall a: nat ::
                  addr <= a < limit && a % PAGE == addr % PAGE && !Wraps(a, bytes) && Accepted(s, a, bytes) ==>
                    r != 0 && r <= a)
    decreases limit - addr
  {
    hide PagesFree;
    if addr < limit && !Accepted(s, addr, bytes) {
      if Wraps(addr + PAGE, bytes) {
        LastStart(s, addr, limit, bytes);
      } else {
        FirstFreeIsLeast(s, addr + PAGE, limit, bytes);
        SameOffset(addr, 1);
        forall a: nat | addr <= a < limit && a % PAGE == addr % PAGE && Accepted(s, a, bytes)
          ensures a >= addr + PAGE
        {
          OffsetStep(addr, a);
        }
      }
    }
  }

  lemma LastStart(s: Space, addr: nat, limit: nat, bytes: nat)
    requires 0 < addr < limit && !Accepted(s, addr, bytes) && Wraps(addr + PAGE, bytes)
    ensures var r := FirstFree(s, addr, limit, bytes);
            r != 0 ==> addr < r && r % PAGE == addr % PAGE && Wraps(r, bytes) && r / PAGE - 1 in s.view
    ensures forall a: nat :: addr <= a && a % PAGE == addr % PAGE && !Wraps(a, bytes) ==> a == addr
  {
    hide PagesFree;
    var k := Gap(s, addr / PAGE, bytes / PAGE);
    SameOffset(addr, k + 1);
    forall a: nat | addr <= a && a % PAGE == addr % PAGE && !Wraps(a, bytes) ensures a == addr {
      OffsetStep(addr, a);
    }
  }

  lemma SameOffset(addr: nat, k: nat)
    ensures (addr + k * PAGE) % PAGE == addr % PAGE && (addr + k * PAGE) / PAGE == addr / PAGE + k
  {
    DivModUnique(addr + k * PAGE, PAGE, addr / PAGE + k, addr % PAGE);
  }

  lemma OffsetStep(addr: nat, a: nat)
    requires a % PAGE == addr % PAGE && addr <= a
    ensures a == addr || a >= addr + PAGE
  {
  }

  // ---- When the region found is unmapped ----

  /** No address of the region is mapped, counting addresses in 32 bits. */
  ghost predicate RangeUnmapped(s: Space, start: nat, size: nat) {
    forall i: nat :: i < size ==> UnmappedAt(s, start, i)
  }

  predicate UnmappedAt(s: Space, start: nat, i: nat) {
    Wrap32(start + i) / PAGE !in s.view
  }

  lemma RangeUnmappedAt(s: Space, start: nat, size: nat, i: nat)
    requires RangeUnmapped(s, start, size) && i < size
    ensures Wrap32(start + i) / PAGE !in s.view
  {
    assert UnmappedAt(s, start, i);
  }

  /** Without wrapping, the region is unmapped when its n tested pages are and, if it is not aligned, the
      page under its end. */
  lemma TestedPagesCover(s: Space, start: nat, n: nat)
    requires n > 0 && start + n * PAGE < TWO_32 && PagesFree(s, start / PAGE, n)
    ensures RangeUnmapped(s, start, n * PAGE) <==> start % PAGE == 0 || start / PAGE + n !in s.view
  {
    forall i: nat | i < n * PAGE && (start % PAGE == 0 || start / PAGE + n !in s.view)
      ensures UnmappedAt(s, start, i)
    {
      PageOf(start, n, i);
    }
    if start % PAGE != 0 && RangeUnmapped(s, start, n * PAGE) {
      PageOf(start, n, n * PAGE - 1);
      LastPage(start, n);
      RangeUnmappedAt(s, start, n * PAGE, n * PAGE - 1);
    }
  }

  lemma PageOf(start: nat, n: nat, i: nat)
    requires i < n * PAGE && start + n * PAGE < TWO_32
    ensures start / PAGE <= (start + i) / PAGE <= start / PAGE + n && Wrap32(start + i) == start + i
    ensures (start + i) / PAGE == start / PAGE + n ==> start % PAGE != 0
  {
  }

  lemma LastPage(start: nat, n: nat)
    requires n > 0 && start % PAGE != 0
    ensures (start + n * PAGE - 1) / PAGE == start / PAGE + n
  {
    DivModUnique(start + n * PAGE - 1, PAGE, start / PAGE + n, start % PAGE - 1);
  }

  /** For an aligned start that does not wrap, testing one page per 4096 bytes tests the region. */
  lemma AlignedRegion(s: Space, start: nat, size: nat)
    requires size % PAGE == 0 && start % PAGE == 0 && start + size < TWO_32
    ensures RangeUnmapped(s, start, size) <==> PagesFree(s, start / PAGE, size / PAGE)
  {
    var n := size / PAGE;
    if n == 0 {
      assert RangeUnmapped(s, start, size) && PagesFree(s, start / PAGE, n);
    } else if PagesFree(s, start / PAGE, n) {
      TestedPagesCover(s, start, n);
    } else {
      var q :| start / PAGE <= q < start / PAGE + n && q in s.view;
      var i := (q - start / PAGE) * PAGE;
      PageStart(start, q);
      if RangeUnmapped(s, start, size) { RangeUnmappedAt(s, start, size, i); }
    }
  }

  lemma PageStart(start: nat, q: nat)
    requires start % PAGE == 0 && start / PAGE <= q && q * PAGE < TWO_32
    ensures Wrap32(start + (q - start / PAGE) * PAGE) / PAGE == q
  {
    DivModUnique(q * PAGE, PAGE, q, 0);
  }

  /** The pages of a region that wraps: those from the hint to the top, and those from 0 to its end. */
  ghost predicate WrappedPagesFree(s: Space, start: nat, size: nat)
    requires start < TWO_32 <= start + size
  {
    PagesFree(s, start / PAGE, PAGES - start / PAGE) && PagesFree(s, 0, (start + size - TWO_32 + PAGE - 1) / PAGE)
  }

  lemma WrappedRegion(s: Space, start: nat, size: nat)
    requires start < TWO_32 <= start + size && size <= TWO_32
    ensures RangeUnmapped(s, start, size) <==> WrappedPagesFree(s, start, size)
  {
    if WrappedPagesFree(s, start, size) {
      forall i: nat | i < size ensures UnmappedAt(s, start, i) {
        WrappedPage(start, size, i);
      }
    }
    if RangeUnmapped(s, start, size) {
      hide RangeUnmapped;
      forall q | start / PAGE <= q < PAGES ensures q !in s.view {
        var i := AddressOn(start, size, q);
        RangeUnmappedAt(s, start, size, i);
      }
      forall q | 0 <= q < (start + size - TWO_32 + PAGE - 1) / PAGE ensures q !in s.view {
        var i := AddressBelow(start, size, q);
        RangeUnmappedAt(s, start, size, i);
      }
    }
  }

  lemma WrappedPage(start: nat, size: nat, i: nat)
    requires start < TWO_32 <= start + size && size <= TWO_32 && i < size
    ensures var q := Wrap32(start + i) / PAGE;
            start / PAGE <= q < PAGES || 0 <= q < (start + size - TWO_32 + PAGE - 1) / PAGE
  {
    if start + i >= TWO_32 {
      DivModUnique(start + i, TWO_32, 1, start + i - TWO_32);
    }
  }

  lemma AddressOn(start: nat, size: nat, q: nat) returns (i: nat)
    requires start < TWO_32 <= start + size && start / PAGE <= q < PAGES
    ensures i < size && Wrap32(start + i) / PAGE == q
  {
    if q == start / PAGE {
      i := 0;
    } else {
      i := q * PAGE - start;
      DivModUnique(q * PAGE, PAGE, q, 0);
    }
  }

  lemma AddressBelow(start: nat, size: nat, q: nat) returns (i: nat)
    requires start < TWO_32 <= start + size && size <= TWO_32 && q < (start + size - TWO_32 + PAGE - 1) / PAGE
    ensures i < size && Wrap32(start + i) / PAGE == q
  {
    i := q * PAGE + TWO_32 - start;
    DivModUnique(start + i, TWO_32, 1, q * PAGE);
    DivModUnique(q * PAGE, PAGE, q, 0);
  }

  /** Whatever the size, the region returned, in whole pages, is unmapped if and only if: when it does not
      wrap, it is aligned or the page under its unaligned end is unmapped; when it does, the pages it
      wraps over are. */
  lemma FoundRegionIsUnmapped(s: Space, size: uint32, hint: uint32)
    requires size > 0 && Found(s, size, hint) != 0
    ensures var r := Found(s, size, hint);
            RangeUnmapped(s, r, Rounded(size)) <==>
              if Wraps(r, Rounded(size)) then WrappedPagesFree(s, r, Rounded(size))
              else r % PAGE == 0 || r / PAGE + Rounded(size) / PAGE !in s.view
  {
    hide RangeUnmapped, WrappedPagesFree, PagesFree, Rounded, Found;
    RoundedIs(size);
    var r := Found(s, size, hint);
    if Wraps(r, Rounded(size)) {
      WrappedRegion(s, r, Rounded(size));
    } else {
      FoundIsAccepted(s, size, hint);
      TestedPagesCover(s, r, Rounded(size) / PAGE);
    }
  }

  /** What is returned was accepted, and is the hint or has its offset in the page. */
  lemma FoundIsAccepted(s: Space, size: uint32, hint: uint32)
    requires Found(s, size, hint) != 0
    ensures var r := Found(s, size, hint);
            Accepted(s, r, RoundUp(size)) && r % PAGE == Start(hint) % PAGE
    ensures RoundUp(size) <= KERNEL_START && !Wraps(Start(hint), RoundUp(size)) ==>
              !Wraps(Found(s, size, hint), RoundUp(size))
  {
    hide Accepted, FirstFree, RoundUp, Limit;
    LimitIs(RoundUp(size));
    FirstFreeIsLeast(s, Start(hint), Limit(RoundUp(size)), RoundUp(size));
  }

  /** A hint whose region wraps is returned whatever is mapped there. */
  lemma WrappingHintIsUnchecked(s: Space, size: uint32, hint: uint32)
    requires hint != 0 && Wraps(hint, Rounded(size))
    ensures Found(s, size, hint) == hint
    ensures RangeUnmapped(s, hint, Rounded(size)) <==> WrappedPagesFree(s, hint, Rounded(size))
  {
    hide RangeUnmapped, WrappedPagesFree, FirstFree, Rounded;
    RoundedIs(size);
    WrappedRegion(s, hint, Rounded(size));
  }

  /** What a caller can rely on: whatever is mapped, the region returned is unmapped, if and only if the
      hint is aligned, its own region does not wrap, and the size is at most 3 GB (or is 0). */
  lemma HintIsSafeIff(size: uint32, hint: uint32)
    ensures (forall s: Space :: FindsUnmapped(s, size, hint)) <==>
              size == 0 || (hint % 4096 == 0 && hint + size <= 0xFFFF_F000 && size <= 0xC000_0000)
  {
    hide RangeUnmapped, Shaped, Found, FindsUnmapped;
    if size == 0 || (hint % PAGE == 0 && hint + size <= 0xFFFF_F000 && size <= KERNEL_START) {
      forall s: Space ensures FindsUnmapped(s, size, hint) {
        AlignedIsSafe(s, size, hint);
      }
    } else {
      var s := UnsafeSpace(size, hint);
      IsUnsafe(s, size, hint);
    }
  }

  /** In this address space, what the search returns is unmapped. */
  ghost predicate FindsUnmapped(s: Space, size: uint32, hint: uint32) {
    Shaped(s) && Found(s, size, hint) != 0 ==> RangeUnmapped(s, Found(s, size, hint), Rounded(size))
  }

  lemma AlignedIsSafe(s: Space, size: uint32, hint: uint32)
    requires size == 0 || (hint % PAGE == 0 && hint + size <= 0xFFFF_F000 && size <= KERNEL_START)
    ensures FindsUnmapped(s, size, hint)
  {
    hide RangeUnmapped, Found, Shaped, PagesFree, Rounded;
    RoundedIs(size);
    if size == 0 {
      NothingIsUnmapped(s, Found(s, size, hint));
    } else if Found(s, size, hint) != 0 {
      AlignedFits(hint, size);
      FoundIsAccepted(s, size, hint);
      FoundRegionIsUnmapped(s, size, hint);
    }
  }

  lemma NothingIsUnmapped(s: Space, start: nat)
    ensures Rounded(0) == 0 && RangeUnmapped(s, start, 0)
  {
  }

  lemma AlignedFits(hint: uint32, size: uint32)
    requires hint % PAGE == 0 && hint + size <= 0xFFFF_F000 && size <= KERNEL_START
    ensures !Wraps(Start(hint), Rounded(size)) && Start(hint) % PAGE == 0
  {
  }

  lemma IsUnsafe(s: Space, size: uint32, hint: uint32)
    requires Shaped(s)
    requires Found(s, size, hint) != 0 && !RangeUnmapped(s, Found(s, size, hint), Rounded(size))
    ensures !FindsUnmapped(s, size, hint)
  {
    hide RangeUnmapped, Found, Shaped, Rounded;
  }

  /** An address space with one mapped page, on frame 1. */
  function OnePage(p: nat): (s: Space)
    requires p < PAGES
    ensures Shaped(s)
  {
    Space(2, {1}, map[p / 1024 := 1], map[p := 0x1001])
  }

  /** And with two. */
  function TwoPages(p: nat, q: nat): (s: Space)
    requires p < PAGES && q < PAGES
    ensures Shaped(s)
  {
    Space(3, {1, 2}, map[p / 1024 := 1, q / 1024 := 2], map[p := 0x1001, q := 0x1001])
  }

  /** One in which what the search returns is not unmapped. */
  lemma UnsafeSpace(size: uint32, hint: uint32) returns (s: Space)
    requires size > 0 && !(hint % PAGE == 0 && hint + size <= 0xFFFF_F000 && size <= KERNEL_START)
    ensures Shaped(s) && Found(s, size, hint) != 0 && !RangeUnmapped(s, Found(s, size, hint), Rounded(size))
  {
    hide Rounded, Found, Shaped, FirstFree, RangeUnmapped;
    RoundedIs(size);
    if Wraps(Start(hint), Rounded(size)) {
      s := OnePage(Start(hint) / PAGE);
      StartIsReturned(s, size, hint);
      StartIsMapped(s, Start(hint), Rounded(size));
    } else if hint % PAGE != 0 {
      s := UnalignedIsUnsafe(size, hint);
    } else {
      s := WideIsUnsafe(size, hint);
    }
  }

  lemma StartIsMapped(s: Space, start: nat, bytes: nat)
    requires start < TWO_32 && bytes > 0 && start / PAGE in s.view
    ensures !RangeUnmapped(s, start, bytes)
  {
    hide RangeUnmapped;
    if RangeUnmapped(s, start, bytes) { RangeUnmappedAt(s, start, bytes, 0); }
  }

  lemma UnalignedIsUnsafe(size: uint32, hint: uint32) returns (s: Space)
    requires size > 0 && hint % PAGE != 0 && !Wraps(hint, Rounded(size))
    ensures Shaped(s) && Found(s, size, hint) == hint && !RangeUnmapped(s, hint, Rounded(size))
  {
    hide Rounded, Found, Shaped, FirstFree, RangeUnmapped;
    RoundedIs(size);
    var n := Rounded(size) / PAGE;
    s := OnePage(hint / PAGE + n);
    assert PagesFree(s, hint / PAGE, n);
    FoundCases(s, size, hint);
    TestedPagesCover(s, hint, n);
  }

  lemma StartIsReturned(s: Space, size: uint32, hint: uint32)
    requires size > 0 && Wraps(Start(hint), Rounded(size))
    ensures Found(s, size, hint) == Start(hint)
  {
    hide Rounded, PagesFree;
    RoundedIs(size);
    LimitIs(RoundUp(size));
    FoundCases(s, size, hint);
    FirstFreeCases(s, Start(hint), Limit(RoundUp(size)), RoundUp(size));
    NoPages(s, Start(hint) / PAGE);
  }

  lemma NoPages(s: Space, p: nat)
    ensures PagesFree(s, p, 0)
  {
  }

  /** Above 3 GB the scan runs into starts that wrap: here the start that the first page rules out is
      followed by one that ends at 4 GB, and is returned although its first page is mapped. */
  lemma WideIsUnsafe(size: uint32, hint: uint32) returns (s: Space)
    requires KERNEL_START < size && Start(hint) % PAGE == 0 && !Wraps(Start(hint), Rounded(size))
    ensures Shaped(s) && Found(s, size, hint) == TWO_32 - Rounded(size)
    ensures !RangeUnmapped(s, Found(s, size, hint), Rounded(size))
  {
    hide Rounded, FirstFree, Found, RangeUnmapped, Shaped;
    var p := WidePage(size, hint);
    s := TwoPages(p - 1, p);
    TwoPagesView(p - 1, p, Start(hint) / PAGE);
    WideSkips(s, size, hint, p - 1);
    StartIsMapped(s, p * PAGE, Rounded(size));
  }

  lemma TwoPagesView(p: nat, q: nat, start: nat)
    requires start <= p < q < PAGES
    ensures p in TwoPages(p, q).view && q in TwoPages(p, q).view && PagesFree(TwoPages(p, q), start, p - start)
  {
  }

  /** The first page of the region that ends at 4 GB. */
  lemma WidePage(size: uint32, hint: uint32) returns (p: nat)
    requires KERNEL_START < size && Start(hint) % PAGE == 0 && !Wraps(Start(hint), Rounded(size))
    ensures 0 < p < PAGES && p * PAGE == TWO_32 - Rounded(size)
    ensures KERNEL_START < Rounded(size) && Start(hint) / PAGE <= p - 1 < Start(hint) / PAGE + Rounded(size) / PAGE
  {
    hide Rounded;
    RoundedIs(size);
    p := (TWO_32 - Rounded(size)) / PAGE;
    var n := Rounded(size) / PAGE;
    assert Rounded(size) == n * PAGE && p == PAGES - n;
    DivModUnique(p * PAGE, PAGE, p, 0);
  }

  /** With pages unmapped from the start up to page p, and p mapped, the start after p is returned if it
      wraps. */
  lemma WideSkips(s: Space, size: uint32, hint: uint32, p: nat)
    requires KERNEL_START < size && Start(hint) % PAGE == 0 && !Wraps(Start(hint), Rounded(size))
    requires Start(hint) / PAGE <= p < Start(hint) / PAGE + Rounded(size) / PAGE && p in s.view
    requires PagesFree(s, Start(hint) / PAGE, p - Start(hint) / PAGE)
    requires TWO_32 <= (p + 1) * PAGE + Rounded(size) < TWO_32 + KERNEL_START
    ensures Found(s, size, hint) == (p + 1) * PAGE
  {
    hide Rounded, FirstFree, PagesFree;
    RoundedIs(size);
    var bytes, k := RoundUp(size), p - Start(hint) / PAGE;
    LimitIs(bytes);
    FoundCases(s, size, hint);
    Blocked(s, Start(hint) / PAGE, bytes / PAGE, k);
    SkipBlocked(s, Start(hint), Limit(bytes), bytes, k);
    FirstFreeCases(s, (p + 1) * PAGE, Limit(bytes), bytes);
  }

  /** For an aligned hint whose region does not wrap and a size of at most 3 GB, the answer is the least
      aligned address from the hint (or 1 MB) whose whole region is unmapped: the hint itself, or below
      3 GB minus the size; and 0 exactly when there is none. */
  lemma FoundIsLeast(s: Space, size: uint32, hint: uint32)
    requires hint % PAGE == 0 && hint + size <= 0xFFFF_F000 && size <= KERNEL_START
    ensures var r, start, bytes := Found(s, size, hint), if hint != 0 then hint else 0x10_0000, Rounded(size);
            && (r != 0 ==> && r % PAGE == 0 && start <= r && (r == hint || r < 0xC000_0000 - bytes)
                           && RangeUnmapped(s, r, bytes))
            && (forall a: nat ::
                  && a % PAGE == 0 && start <= a && (a == hint || a < 0xC000_0000 - bytes)
                  && RangeUnmapped(s, a, bytes)
                  ==> r != 0 && r <= a)
  {
    hide RangeUnmapped, PagesFree, Rounded, FirstFree, Found;
    RoundedIs(size);
    AlignedFits(hint, size);
    var r, start, bytes := Found(s, size, hint), Start(hint), Rounded(size);
    LimitIs(bytes);
    FoundCases(s, size, hint);
    FirstFreeIsLeast(s, start, Limit(bytes), bytes);
    if r != 0 {
      FoundIsAccepted(s, size, hint);
      AlignedRegion(s, r, bytes);
    }
    forall a: nat |
      a % PAGE == 0 && start <= a && (a == hint || a < KERNEL_START - bytes) && RangeUnmapped(s, a, bytes)
      ensures r != 0 && r <= a
    {
      AlignedRegion(s, a, bytes);
      assert Accepted(s, a, bytes);
    }
  }
}
