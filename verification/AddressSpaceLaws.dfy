/** What holds of every run of map, unmap, allocate and free on an address space. */
module AddressSpaceLaws {
  import opened Bits
  import opened Frames
  import opened AddressSpaces

  // ---- One page ----

  lemma FreshFrame(s: Space)
    requires Sound(s)
    ensures var f := FirstFit(s.used, s.total, 1, 1);
            f != 0 ==> 1 <= f < s.total && f !in s.used && f !in s.tables.Values
  {
    FirstFitIsLowest(s.used, s.total, 1, 1);
  }

  /** A page table is only ever placed in a frame that was free, never over another table. */
  lemma WithTableIsSound(s: Space, d: nat)
    requires Sound(s)
    ensures Sound(WithTable(s, d))
  {
    FreshFrame(s);
  }

  lemma MapPageIsSound(s: Space, virt: uint32, phys: uint32, flags: uint32)
    requires Sound(s)
    ensures Sound(MapPage(s, virt, phys, flags).space)
  {
    WithTableIsSound(s, DirIndex(virt));
  }

  /** The entry has the low twelve flag bits given, and the present bit. */
  predicate Carries(entry: uint32, flags: uint32) {
    entry % PAGE == if flags % 2 == 1 then flags % PAGE else flags % PAGE + 1
  }

  /** Mapping makes this page translate to the aligned address, with the flags given, and leaves every
      other page's entry as it was; it fails exactly when a table is missing and no frame is free for
      one. */
  lemma MapPageTranslates(s: Space, virt: uint32, phys: uint32, flags: uint32, other: uint32)
    requires Sound(s)
    ensures var r := MapPage(s, virt, phys, flags);
            && (r.ok <==> virt / PAGE / 1024 in s.tables || exists f :: 1 <= f < s.total && f !in s.used)
            && (!r.ok ==> r.space == s)
            && (r.ok ==> IsMapped(r.space, virt) && Physical(r.space, virt) == phys / PAGE * PAGE)
            && (r.ok ==> Carries(r.space.view[virt / PAGE], flags))
            && (r.ok && other / PAGE != virt / PAGE ==>
                  && IsMapped(r.space, other) == IsMapped(s, other)
                  && (IsMapped(s, other) ==> r.space.view[other / PAGE] == s.view[other / PAGE]))
  {
    FirstFitIsLowest(s.used, s.total, 1, 1);
    if exists f :: 1 <= f < s.total && f !in s.used {
      var f :| 1 <= f < s.total && f !in s.used;
      assert RunIsFree(s.used, s.total, f, 1);
    }
  }

  lemma AllocPageIsSound(s: Space, virt: uint32, flags: uint32)
    requires Sound(s)
    ensures Sound(AllocPage(s, virt, flags).space)
  {
    FreshFrame(s);
    var f := FirstFit(s.used, s.total, 1, 1);
    if f != 0 {
      var s1 := s.(used := s.used + {f});
      MapPageIsSound(s1, virt, f * PAGE, flags);
      if !MapPage(s1, virt, f * PAGE, flags).ok {
        assert s1.used - {f} == s.used;
      }
    }
  }

  /** A failed single-page allocation gives its frame back: nothing at all has changed. */
  lemma FailedAllocPageChangesNothing(s: Space, virt: uint32, flags: uint32)
    requires Sound(s) && !AllocPage(s, virt, flags).ok
    ensures AllocPage(s, virt, flags).space == s
  {
    FreshFrame(s);
    var f := FirstFit(s.used, s.total, 1, 1);
    assert f != 0 ==> s.used + {f} - {f} == s.used;
  }

  /** A successful one backs the page by a frame that was free, and may add one table frame. */
  lemma AllocPageUsesFreshFrames(s: Space, virt: uint32, flags: uint32)
    requires Sound(s) && AllocPage(s, virt, flags).ok
    ensures var t := AllocPage(s, virt, flags).space;
            var f := FirstFit(s.used, s.total, 1, 1);
            && f != 0 && f !in s.used && f !in t.tables.Values
            && IsMapped(t, virt) && t.view[virt / PAGE] / PAGE == f && Carries(t.view[virt / PAGE], flags)
            && t.view == s.view[virt / PAGE := t.view[virt / PAGE]]
            && Extends(s.tables, t.tables)
            && t.used == s.used + {f} + (t.tables.Values - s.tables.Values)
            && forall g :: g in s.used && g !in s.tables.Values ==> g !in t.tables.Values
  {
    FreshFrame(s);
    var f := FirstFit(s.used, s.total, 1, 1);
    var s1 := s.(used := s.used + {f});
    assert Sound(s1);
    FreshFrame(s1);
    DivModUnique(f * PAGE, PAGE, f, 0);
    TablesGrow(s1, DirIndex(virt));
  }

  ghost predicate Extends(a: map<nat, nat>, b: map<nat, nat>) {
    forall d :: d in a ==> d in b && b[d] == a[d]
  }

  lemma TablesGrow(s: Space, d: nat)
    requires Sound(s)
    ensures var t := WithTable(s, d);
            && Extends(s.tables, t.tables)
            && t.used == s.used + (t.tables.Values - s.tables.Values)
            && forall f :: f in s.used && f !in s.tables.Values ==> f !in t.tables.Values
  {
    var t := WithTable(s, d);
    var f := FirstFit(s.used, s.total, 1, 1);
    FreshFrame(s);
    if d !in s.tables && f != 0 {
      assert t.tables == s.tables[d := f];
      forall v ensures v in t.tables.Values <==> v in s.tables.Values || v == f {
        if v in s.tables.Values {
          var e :| e in s.tables && s.tables[e] == v;
          assert t.tables[e] == v;
        }
        assert t.tables[d] == f;
      }
    }
  }

  // ---- Ranges of pages ----

  /** The frames behind pages p .. p + n - 1. */
  ghost function Backing(view: map<nat, uint32>, p: nat, n: nat): set<nat> {
    set q | q in view && p <= q < p + n :: view[q] / PAGE
  }

  ghost function NewTables(s: Space, t: Space): set<nat> {
    t.tables.Values - s.tables.Values
  }

  /** The range of pages neither wraps past the top of the address space nor is mapped anywhere. */
  ghost predicate RangeIsFree(s: Space, virt: uint32, count: uint32) {
    && virt / PAGE + count <= PAGES
    && forall q :: virt / PAGE <= q < virt / PAGE + count ==> q !in s.view
  }

  lemma PageNumber(virt: uint32, i: uint32)
    requires virt / PAGE + i < PAGES
    ensures PageAt(virt, i) / PAGE == virt / PAGE + i
  {
    DivModUnique(virt + i * PAGE, PAGE, virt / PAGE + i, virt % PAGE);
  }

  /** t is s after the first n pages from virt have been allocated: they are backed by pairwise
      distinct frames that were free before, with the flags asked for, every other page is as it was, and the frames now
      used are the old ones, the backing frames, and those of the tables created. */
  ghost predicate Allocated(s: Space, t: Space, virt: uint32, n: uint32, flags: uint32) {
    && Sound(t) && t.total == s.total && Extends(s.tables, t.tables)
    && Backed(s, t, virt / PAGE, n) && Flagged(t.view, virt / PAGE, n, flags)
    && t.used == s.used + Backing(t.view, virt / PAGE, n) + NewTables(s, t)
  }

  ghost predicate Backed(s: Space, t: Space, p: nat, n: nat) {
    && (forall q :: q in t.view <==> q in s.view || p <= q < p + n)
    && (forall q :: q in s.view ==> q in t.view && t.view[q] == s.view[q])
    && (forall q :: q in t.view && p <= q < p + n ==>
          t.view[q] / PAGE !in s.used && t.view[q] / PAGE !in t.tables.Values)
    && (forall q, r :: q in t.view && r in t.view && p <= q < r < p + n ==>
          t.view[q] / PAGE != t.view[r] / PAGE)
  }

  /** Pages p .. p + n - 1 have these flags. */
  ghost predicate Flagged(view: map<nat, uint32>, p: nat, n: nat, flags: uint32) {
    forall q :: q in view && p <= q < p + n ==> Carries(view[q], flags)
  }

  lemma FlaggedNext(before: map<nat, uint32>, after: map<nat, uint32>, p: nat, n: nat, flags: uint32)
    requires Flagged(before, p, n, flags)
    requires p + n in after && after == before[p + n := after[p + n]] && Carries(after[p + n], flags)
    ensures Flagged(after, p, n + 1, flags)
  {
    hide Carries;
  }

  lemma AllocatedNext(s: Space, t: Space, virt: uint32, n: uint32, count: uint32, flags: uint32)
    requires Sound(s) && n < count && RangeIsFree(s, virt, count) && t.total < PAGES && Allocated(s, t, virt, n, flags)
    requires AllocPage(t, PageAt(virt, n), flags).ok
    ensures Allocated(s, AllocPage(t, PageAt(virt, n), flags).space, virt, n + 1, flags)
  {
    hide Carries, Sound, FirstFit, AllocPage, PageAt;
    var page := PageAt(virt, n);
    var u := AllocPage(t, page, flags).space;
    PageNumber(virt, n);
    AllocPageIsSound(t, page, flags);
    AllocPageUsesFreshFrames(t, page, flags);
    BackedNext(s, t, u, virt / PAGE, n, FirstFit(t.used, t.total, 1, 1));
    FlaggedNext(t.view, u.view, virt / PAGE, n, flags);
    NewTablesCompose(s, t, u);
  }

  lemma BackedNext(s: Space, t: Space, u: Space, p: nat, n: nat, f: nat)
    requires Backed(s, t, p, n) && p + n !in s.view
    requires p + n in u.view && u.view == t.view[p + n := u.view[p + n]] && u.view[p + n] / PAGE == f
    requires s.used <= t.used && Backing(t.view, p, n) <= t.used && f !in t.used && f !in u.tables.Values
    requires forall g :: g in t.used && g !in t.tables.Values ==> g !in u.tables.Values
    ensures Backed(s, u, p, n + 1)
    ensures Backing(u.view, p, n + 1) == Backing(t.view, p, n) + {f}
  {
    forall q | q in t.view && p <= q < p + n
      ensures u.view[q] / PAGE != f && u.view[q] / PAGE !in u.tables.Values
    {
      assert t.view[q] / PAGE in Backing(t.view, p, n);
    }
    BackingNext(t.view, u.view, p, n);
  }

  lemma BackingNext(before: map<nat, uint32>, after: map<nat, uint32>, p: nat, n: nat)
    requires p + n in after && after == before[p + n := after[p + n]]
    ensures Backing(after, p, n + 1) == Backing(before, p, n) + {after[p + n] / PAGE}
  {
    var f := after[p + n] / PAGE;
    forall g | g in Backing(before, p, n) ensures g in Backing(after, p, n + 1) {
      var q :| q in before && p <= q < p + n && before[q] / PAGE == g;
      assert after[q] / PAGE == g;
    }
    forall g | g in Backing(after, p, n + 1) ensures g in Backing(before, p, n) || g == f {
      var q :| q in after && p <= q < p + n + 1 && after[q] / PAGE == g;
      if q != p + n { assert before[q] / PAGE == g; }
    }
  }

  lemma NewTablesCompose(s: Space, t: Space, u: Space)
    requires Extends(s.tables, t.tables) && Extends(t.tables, u.tables)
    ensures Extends(s.tables, u.tables)
    ensures NewTables(s, t) + NewTables(t, u) == NewTables(s, u)
  {
  }

  lemma {:induction false} AllocPagesFrom(s: Space, t: Space, virt: uint32, i: uint32, count: uint32, flags: uint32)
    requires Sound(s) && RangeIsFree(s, virt, count) && i <= count && t.total < PAGES && Allocated(s, t, virt, i, flags)
    requires AllocPages(t, virt, i, count, flags).ok
    ensures Allocated(s, AllocPages(t, virt, i, count, flags).space, virt, count, flags)
    decreases count - i
  {
    hide Allocated, Sound, RangeIsFree, AllocPage, PageAt;
    if i < count {
      AllocatedNext(s, t, virt, i, count, flags);
      AllocPagesFrom(s, AllocPage(t, PageAt(virt, i), flags).space, virt, i + 1, count, flags);
    }
  }

  /** Allocating a free, non-wrapping range. */
  lemma AllocPagesBacksRange(s: Space, virt: uint32, count: uint32, flags: uint32)
    requires Sound(s) && RangeIsFree(s, virt, count) && AllocPages(s, virt, 0, count, flags).ok
    ensures Allocated(s, AllocPages(s, virt, 0, count, flags).space, virt, count, flags)
  {
    assert Backing(s.view, virt / PAGE, 0) == {};
    AllocPagesFrom(s, s, virt, 0, count, flags);
  }

  /** u is t after pages p .. p + n - 1 have been freed again. */
  ghost predicate Freed(t: Space, u: Space, p: nat, n: nat) {
    && u.total == t.total && u.tables == t.tables
    && u.view == t.view - Run(p, n)
    && u.used == t.used - Backing(t.view, p, n)
  }

  lemma FreedNext(t: Space, u: Space, virt: uint32, n: uint32, count: uint32)
    requires n < count && virt / PAGE + count <= PAGES && Freed(t, u, virt / PAGE, n)
    requires forall q :: virt / PAGE <= q < virt / PAGE + count ==> q in t.view
    ensures Freed(t, FreePage(u, PageAt(virt, n)), virt / PAGE, n + 1)
  {
    hide PageAt, Run;
    PageNumber(virt, n);
    var p := virt / PAGE;
    DivModUnique(u.view[p + n] / PAGE * PAGE, PAGE, u.view[p + n] / PAGE, 0);
    BackingNext(t.view, t.view, p, n);
    var v := FreePage(u, PageAt(virt, n));
    assert v.view == t.view - Run(p, n + 1);
    assert v.used == t.used - Backing(t.view, p, n + 1);
  }

  lemma {:induction false} FreePagesFrom(t: Space, u: Space, virt: uint32, i: uint32, count: uint32)
    requires i <= count && virt / PAGE + count <= PAGES && Freed(t, u, virt / PAGE, i)
    requires forall q :: virt / PAGE <= q < virt / PAGE + count ==> q in t.view
    ensures Freed(t, FreePages(u, virt, i, count), virt / PAGE, count)
    decreases count - i
  {
    hide Freed, FreePage, PageAt;
    if i < count {
      FreedNext(t, u, virt, i, count);
      FreePagesFrom(t, FreePage(u, PageAt(virt, i)), virt, i + 1, count);
    }
  }

  /** Allocating a free range and freeing it again restores every translation, and returns every
      frame except those of the page tables created on the way. */
  lemma FreeUndoesAllocPages(s: Space, virt: uint32, count: uint32, flags: uint32)
    requires Sound(s) && RangeIsFree(s, virt, count) && AllocPages(s, virt, 0, count, flags).ok
    ensures var t := AllocPages(s, virt, 0, count, flags).space;
            var u := FreePages(t, virt, 0, count);
            && u.view == s.view
            && u.tables == t.tables && Extends(s.tables, t.tables)
            && u.used == s.used + NewTables(s, t)
            && Sound(u)
  {
    hide AllocPages, FreePages, PageAt;
    AllocPagesBacksRange(s, virt, count, flags);
    var t := AllocPages(s, virt, 0, count, flags).space;
    assert Freed(t, t, virt / PAGE, 0);
    FreePagesFrom(t, t, virt, 0, count);
    BackingIsSeparate(s, t, virt / PAGE, count);
    var u := FreePages(t, virt, 0, count);
    FreedView(s, t, u, virt / PAGE, count);
    TakeOutMiddle(s.used, Backing(t.view, virt / PAGE, count), NewTables(s, t));
    SoundWithout(t, u, Backing(t.view, virt / PAGE, count));
  }

  lemma BackingIsSeparate(s: Space, t: Space, p: nat, n: nat)
    requires Backed(s, t, p, n)
    ensures Backing(t.view, p, n) !! s.used && Backing(t.view, p, n) !! t.tables.Values
  {
  }

  lemma FreedView(s: Space, t: Space, u: Space, p: nat, n: nat)
    requires Backed(s, t, p, n) && u.view == t.view - Run(p, n)
    requires forall q :: p <= q < p + n ==> q !in s.view
    ensures u.view == s.view
  {
    hide Run;
    assert forall q :: q in u.view <==> q in s.view;
  }

  lemma TakeOutMiddle(a: set<nat>, b: set<nat>, c: set<nat>)
    requires b !! a && b !! c
    ensures a + b + c - b == a + c
  {
  }

  /** Freeing frames that hold no page table keeps the space sound. */
  lemma SoundWithout(t: Space, u: Space, freed: set<nat>)
    requires Sound(t) && u.total == t.total && u.tables == t.tables && u.used == t.used - freed
    requires freed !! t.tables.Values
    requires forall q :: q in u.view ==> q in t.view && u.view[q] == t.view[q]
    ensures Sound(u)
  {
    assert forall d :: d in t.tables ==> t.tables[d] in t.tables.Values;
  }

  // ---- Failure ----

  /** q is one of the pages the first n iterations visit. */
  ghost predicate Visited(virt: uint32, n: uint32, q: nat) {
    exists j: uint32 :: j < n && PageAt(virt, j) / PAGE == q
  }

  lemma {:induction false} UnmapPagesView(s: Space, virt: uint32, i: uint32, n: uint32, q: nat)
    requires i <= n
    ensures var t := UnmapPages(s, virt, i, n);
            && t.used == s.used && t.tables == s.tables && t.total == s.total
            && (q in t.view <==> q in s.view && !exists j: uint32 :: i <= j < n && PageAt(virt, j) / PAGE == q)
            && (q in t.view ==> t.view[q] == s.view[q])
    decreases n - i
  {
    hide PageAt;
    if i < n {
      UnmapPagesView(UnmapPage(s, PageAt(virt, i)), virt, i + 1, n, q);
    }
  }

  /** t differs from s only in the pages the first n iterations visit. */
  ghost predicate SameElsewhere(s: Space, t: Space, virt: uint32, n: uint32) {
    forall q :: !Visited(virt, n, q) ==> (q in t.view <==> q in s.view) && (q in s.view ==> t.view[q] == s.view[q])
  }

  lemma SameElsewhereNext(s: Space, t: Space, virt: uint32, n: uint32, flags: uint32)
    requires Sound(t) && n + 1 < TWO_32 && SameElsewhere(s, t, virt, n) && AllocPage(t, PageAt(virt, n), flags).ok
    ensures SameElsewhere(s, AllocPage(t, PageAt(virt, n), flags).space, virt, n + 1)
  {
    hide Sound, AllocPage, PageAt;
    AllocPageUsesFreshFrames(t, PageAt(virt, n), flags);
    forall q | !Visited(virt, n + 1, q) ensures q != PageAt(virt, n) / PAGE && !Visited(virt, n, q) {
    }
  }

  /** The loop's first n allocations succeed, and the next does not. */
  ghost predicate FailsAt(s: Space, virt: uint32, n: uint32, flags: uint32)
    requires s.total < PAGES
  {
    var r := AllocPages(s, virt, 0, n, flags);
    r.ok && r.space.total < PAGES && !AllocPage(r.space, PageAt(virt, n), flags).ok
  }

  lemma {:induction false} AllocOneMore(s: Space, virt: uint32, i: uint32, n: uint32, flags: uint32)
    requires Sound(s) && s.total < PAGES && i <= n && n + 1 < TWO_32 && AllocPages(s, virt, i, n, flags).ok
    ensures var t := AllocPages(s, virt, i, n, flags).space;
            && t.total < PAGES
            && (AllocPage(t, PageAt(virt, n), flags).ok ==>
                  AllocPages(s, virt, i, n + 1, flags) == AllocPage(t, PageAt(virt, n), flags))
    decreases n - i
  {
    hide Sound, PageAt, AllocPage, AllocPages, UnmapPages;
    AllocPagesStep(s, virt, i, n + 1, flags);
    if i < n {
      AllocPagesStep(s, virt, i, n, flags);
      AllocPageIsSound(s, PageAt(virt, i), flags);
      AllocOneMore(AllocPage(s, PageAt(virt, i), flags).space, virt, i + 1, n, flags);
    } else {
      AllocPagesDone(s, virt, n, flags);
      AllocPagesDone(AllocPage(s, PageAt(virt, n), flags).space, virt, n + 1, flags);
    }
  }

  lemma {:induction false} FailedAllocFrom(s: Space, t: Space, virt: uint32, i: uint32, count: uint32, flags: uint32)
    returns (n: uint32)
    requires Sound(s) && s.total < PAGES && AllocPages(s, virt, 0, i, flags) == Outcome(true, t)
    requires Sound(t) && t.total < PAGES && i <= count && SameElsewhere(s, t, virt, i)
    requires !AllocPages(t, virt, i, count, flags).ok
    ensures n < count && FailsAt(s, virt, n, flags)
    ensures var u := AllocPages(t, virt, i, count, flags).space;
            forall q :: && (q in u.view <==> q in s.view && !Visited(virt, n, q))
                        && (q in u.view ==> u.view[q] == s.view[q])
    decreases count - i
  {
    hide Sound, AllocPage, PageAt, AllocPages, UnmapPages, Visited, SameElsewhere;
    var r := AllocPage(t, PageAt(virt, i), flags);
    if i == count { AllocPagesDone(t, virt, count, flags); }
    AllocPagesStep(t, virt, i, count, flags);
    if r.ok {
      SameElsewhereNext(s, t, virt, i, flags);
      AllocPageIsSound(t, PageAt(virt, i), flags);
      AllocOneMore(s, virt, 0, i, flags);
      n := FailedAllocFrom(s, r.space, virt, i + 1, count, flags);
    } else {
      n := i;
      FailedAllocPageChangesNothing(t, PageAt(virt, i), flags);
      forall q
        ensures var u := UnmapPages(t, virt, 0, i);
                (q in u.view <==> q in s.view && !Visited(virt, i, q)) && (q in u.view ==> u.view[q] == s.view[q])
      {
        UnmappedAgain(s, t, virt, i, q);
      }
    }
  }

  lemma UnmappedAgain(s: Space, t: Space, virt: uint32, i: uint32, q: nat)
    requires SameElsewhere(s, t, virt, i)
    ensures var u := UnmapPages(t, virt, 0, i);
            (q in u.view <==> q in s.view && !Visited(virt, i, q)) && (q in u.view ==> u.view[q] == s.view[q])
  {
    hide UnmapPages, PageAt;
    UnmapPagesView(t, virt, 0, i, q);
  }

  /** A range allocation whose first n pages could be allocated and whose next could not leaves none of
      those n pages mapped, and every other page as it was. */
  lemma FailedAllocPagesUnmaps(s: Space, virt: uint32, count: uint32, flags: uint32) returns (n: uint32)
    requires Sound(s) && s.total < PAGES && !AllocPages(s, virt, 0, count, flags).ok
    ensures n < count && FailsAt(s, virt, n, flags)
    ensures var u := AllocPages(s, virt, 0, count, flags).space;
            forall q :: && (q in u.view <==> q in s.view && !Visited(virt, n, q))
                        && (q in u.view ==> u.view[q] == s.view[q])
  {
    hide AllocPages, Sound;
    AllocPagesDone(s, virt, 0, flags);
    n := FailedAllocFrom(s, s, virt, 0, count, flags);
  }

  lemma {:induction false} BackingSize(view: map<nat, uint32>, p: nat, n: nat)
    requires forall q :: p <= q < p + n ==> q in view
    requires forall q, r :: q in view && r in view && p <= q < r < p + n ==> view[q] / PAGE != view[r] / PAGE
    ensures |Backing(view, p, n)| == n
    decreases n
  {
    if n == 0 {
      assert Backing(view, p, 0) == {};
    } else {
      BackingSize(view, p, n - 1);
      BackingNext(view, view, p, n - 1);
    }
  }

  lemma {:induction false} FailedAllocLeaksFrom(s: Space, t: Space, virt: uint32, i: uint32, count: uint32,
                                                flags: uint32)
    returns (n: uint32, reached: Space)
    requires Sound(s) && RangeIsFree(s, virt, count) && i <= count && Allocated(s, t, virt, i, flags)
    requires s.total < PAGES && t.total < PAGES
    requires AllocPages(s, virt, 0, i, flags) == Outcome(true, t) && !AllocPages(t, virt, i, count, flags).ok
    ensures n < count && Allocated(s, reached, virt, n, flags) && FailsAt(s, virt, n, flags)
    ensures AllocPages(s, virt, 0, n, flags).space == reached
    ensures AllocPages(t, virt, i, count, flags).space == UnmapPages(reached, virt, 0, n)
    decreases count - i
  {
    hide Allocated, Sound, RangeIsFree, AllocPage, AllocPages, PageAt, UnmapPages;
    var r := AllocPage(t, PageAt(virt, i), flags);
    AllocPagesDone(t, virt, i, flags);
    AllocPagesStep(t, virt, i, count, flags);
    if r.ok {
      AllocatedNext(s, t, virt, i, count, flags);
      AllocOneMore(s, virt, 0, i, flags);
      n, reached := FailedAllocLeaksFrom(s, r.space, virt, i + 1, count, flags);
    } else {
      AllocatedSound(s, t, virt, i, flags);
      FailedAllocPageChangesNothing(t, PageAt(virt, i), flags);
      n, reached := i, t;
    }
  }

  lemma SoundTotal(s: Space)
    requires Sound(s)
    ensures s.total < PAGES
  {
  }

  lemma AllocPagesStep(s: Space, virt: uint32, i: uint32, count: uint32, flags: uint32)
    requires s.total < PAGES && i < count
    ensures var r := AllocPage(s, PageAt(virt, i), flags);
            AllocPages(s, virt, i, count, flags)
            == if r.ok then AllocPages(r.space, virt, i + 1, count, flags)
               else Outcome(false, UnmapPages(r.space, virt, 0, i))
  {
    hide AllocPage, UnmapPages, PageAt;
  }

  lemma AllocPagesDone(s: Space, virt: uint32, count: uint32, flags: uint32)
    requires s.total < PAGES
    ensures AllocPages(s, virt, count, count, flags) == Outcome(true, s)
  {
  }

  lemma AllocatedSound(s: Space, t: Space, virt: uint32, i: uint32, flags: uint32)
    requires Allocated(s, t, virt, i, flags)
    ensures Sound(t)
  {
  }

  /** What a failed range allocation costs: the translations are as before, but the n frames
      that had backed the pages it unmapped are not returned, nor are those of new tables. */
  lemma FailedAllocPagesLeaks(s: Space, virt: uint32, count: uint32, flags: uint32)
    returns (n: uint32, reached: Space)
    requires Sound(s) && RangeIsFree(s, virt, count) && !AllocPages(s, virt, 0, count, flags).ok
    ensures n < count && Allocated(s, reached, virt, n, flags)
    ensures FailsAt(s, virt, n, flags) && reached == AllocPages(s, virt, 0, n, flags).space
    ensures var u := AllocPages(s, virt, 0, count, flags).space;
            && u.view == s.view && u.tables == reached.tables
            && u.used == s.used + Backing(reached.view, virt / PAGE, n) + NewTables(s, reached)
            && |Backing(reached.view, virt / PAGE, n)| == n
  {
    hide AllocPages, UnmapPages, PageAt, Sound;
    AllocatedNothing(s, virt, flags);
    AllocPagesDone(s, virt, 0, flags);
    n, reached := FailedAllocLeaksFrom(s, s, virt, 0, count, flags);
    BackingSize(reached.view, virt / PAGE, n);
    var u := UnmapPages(reached, virt, 0, n);
    forall q ensures q in u.view <==> q in s.view
             ensures q in u.view ==> u.view[q] == s.view[q] {
      UnmapPagesView(reached, virt, 0, n, q);
      RangePages(virt, n, q);
    }
    UnmapPagesView(reached, virt, 0, n, 0);
  }

  /** So a failure leaves the used set as it was if and only if the first page could not be allocated. */
  lemma FailedAllocPagesLeaksIff(s: Space, virt: uint32, count: uint32, flags: uint32)
    requires Sound(s) && RangeIsFree(s, virt, count) && !AllocPages(s, virt, 0, count, flags).ok
    ensures s.total < PAGES
    ensures AllocPages(s, virt, 0, count, flags).space.used == s.used <==> !AllocPage(s, PageAt(virt, 0), flags).ok
  {
    hide Sound, RangeIsFree, AllocPage, AllocPages, PageAt, UnmapPages;
    SoundTotal(s);
    var n, reached := FailedAllocPagesLeaks(s, virt, count, flags);
    AllocPagesDone(s, virt, 0, flags);
    if n == 0 {
      NoNewTables(s);
    } else {
      AllocPagesStep(s, virt, 0, n, flags);
      FirstIsBacked(s, reached, virt, n, flags);
    }
  }

  lemma NoNewTables(s: Space)
    ensures NewTables(s, s) == {}
  {
  }

  lemma FirstIsBacked(s: Space, t: Space, virt: uint32, n: uint32, flags: uint32)
    requires Allocated(s, t, virt, n, flags) && n > 0
    ensures exists f :: f in Backing(t.view, virt / PAGE, n) && f !in s.used
  {
    assert t.view[virt / PAGE] / PAGE in Backing(t.view, virt / PAGE, n);
  }

  /** A page can be allocated if and only if a frame is free for it, and another for its table when that is
      missing. */
  lemma AllocPageOkIff(s: Space, virt: uint32, flags: uint32)
    requires Sound(s)
    ensures s.total < PAGES
    ensures AllocPage(s, virt, flags).ok <==>
              exists f, g :: && IsFreeFrame(s, f) && IsFreeFrame(s, g) && (f != g || DirIndex(virt) in s.tables)
  {
    hide Sound, FirstFit, EntryWord;
    SoundTotal(s);
    var frame := FirstFit(s.used, s.total, 1, 1);
    FreeFrameFound(s.used, s.total);
    if frame != 0 {
      FreeFrameFound(s.used + {frame}, s.total);
      var other := FirstFit(s.used + {frame}, s.total, 1, 1);
      assert AllocPage(s, virt, flags).ok <==> DirIndex(virt) in s.tables || other != 0;
      assert IsFreeFrame(s, frame) && (other != 0 ==> IsFreeFrame(s, other) && other != frame);
    }
  }

  predicate IsFreeFrame(s: Space, f: nat) {
    1 <= f < s.total && f !in s.used
  }

  lemma FreeFrameFound(used: set<nat>, total: nat)
    ensures var f := FirstFit(used, total, 1, 1);
            if f != 0 then 1 <= f < total && f !in used else forall g :: 1 <= g < total ==> g in used
  {
    FirstFitIsLowest(used, total, 1, 1);
    forall g | 1 <= g < total && g !in used ensures FirstFit(used, total, 1, 1) != 0 {
      assert RunIsFree(used, total, g, 1);
    }
  }

  lemma AllocatedNothing(s: Space, virt: uint32, flags: uint32)
    requires Sound(s)
    ensures Allocated(s, s, virt, 0, flags) && s.total < PAGES
  {
    assert Backing(s.view, virt / PAGE, 0) == {};
  }

  /** The pages a non-wrapping range visits. */
  lemma RangePages(virt: uint32, n: uint32, q: nat)
    requires virt / PAGE + n <= PAGES
    ensures (exists j: uint32 :: 0 <= j < n && PageAt(virt, j) / PAGE == q) <==> virt / PAGE <= q < virt / PAGE + n
  {
    hide PageAt;
    if virt / PAGE <= q < virt / PAGE + n {
      PageNumber(virt, q - virt / PAGE);
    }
    forall j: uint32 | j < n ensures PageAt(virt, j) / PAGE == virt / PAGE + j {
      PageNumber(virt, j);
    }
  }

  // ---- When freeing is safe ----

  /** No page the iterations from i on visit is mapped onto a frame that holds a page table. */
  ghost predicate FreesNoTable(s: Space, virt: uint32, i: uint32, count: uint32) {
    forall j: uint32 :: i <= j < count && PageAt(virt, j) / PAGE in s.view ==>
      s.view[PageAt(virt, j) / PAGE] / PAGE !in s.tables.Values
  }

  lemma FreePageEffect(s: Space, virt: uint32)
    ensures var t := FreePage(s, virt);
            && t.total == s.total && t.tables == s.tables && t.view == s.view - {virt / PAGE}
            && t.used == if virt / PAGE in s.view then s.used - {s.view[virt / PAGE] / PAGE} else s.used
  {
    if virt / PAGE in s.view {
      var f := s.view[virt / PAGE] / PAGE;
      DivModUnique(f * PAGE, PAGE, f, 0);
    }
  }

  lemma {:induction false} FreePagesKeepsUnsound(s: Space, virt: uint32, i: uint32, count: uint32, d: nat)
    requires d in s.tables && s.tables[d] !in s.used
    ensures !Sound(FreePages(s, virt, i, count))
    decreases count - i
  {
    hide FreePage, PageAt;
    if i < count {
      FreePageEffect(s, PageAt(virt, i));
      FreePagesKeepsUnsound(FreePage(s, PageAt(virt, i)), virt, i + 1, count, d);
    }
  }

  /** vmm_free_pages frees whatever frame a page is mapped to. It keeps page tables safe from
      the allocator exactly when none of the pages it frees is mapped onto a page table. */
  lemma {:induction false} FreePagesIsSound(s: Space, virt: uint32, i: uint32, count: uint32)
    requires Sound(s)
    ensures Sound(FreePages(s, virt, i, count)) <==> FreesNoTable(s, virt, i, count)
    decreases count - i
  {
    hide FreePage, FreePages, PageAt, Sound, FreesNoTable;
    FreePagesStep(s, virt, i, count);
    if i < count {
      var page := PageAt(virt, i);
      var t := FreePage(s, page);
      FreePageEffect(s, page);
      if page / PAGE in s.view && s.view[page / PAGE] / PAGE in s.tables.Values {
        var d :| d in s.tables && s.tables[d] == s.view[page / PAGE] / PAGE;
        FreePagesKeepsUnsound(t, virt, i + 1, count, d);
      } else {
        SoundWithout(s, t, if page / PAGE in s.view then {s.view[page / PAGE] / PAGE} else {});
        FreePagesIsSound(t, virt, i + 1, count);
        FreesNoTableNext(s, t, virt, i, count);
      }
    }
  }

  lemma FreePagesStep(s: Space, virt: uint32, i: uint32, count: uint32)
    ensures FreePages(s, virt, i, count)
         == if i < count then FreePages(FreePage(s, PageAt(virt, i)), virt, i + 1, count) else s
    ensures FreesNoTable(s, virt, i, count) && i < count && PageAt(virt, i) / PAGE in s.view ==>
              s.view[PageAt(virt, i) / PAGE] / PAGE !in s.tables.Values
    ensures i >= count ==> FreesNoTable(s, virt, i, count)
  {
    hide FreePage, PageAt;
  }

  lemma FreesNoTableNext(s: Space, t: Space, virt: uint32, i: uint32, count: uint32)
    requires i < count && t.tables == s.tables && t.view == s.view - {PageAt(virt, i) / PAGE}
    requires PageAt(virt, i) / PAGE in s.view ==> s.view[PageAt(virt, i) / PAGE] / PAGE !in s.tables.Values
    ensures FreesNoTable(s, virt, i, count) <==> FreesNoTable(t, virt, i + 1, count)
  {
    hide PageAt;
    forall j: uint32 | i <= j < count && PageAt(virt, j) / PAGE in s.view && FreesNoTable(t, virt, i + 1, count)
      ensures s.view[PageAt(virt, j) / PAGE] / PAGE !in s.tables.Values
    {
      if PageAt(virt, j) / PAGE != PageAt(virt, i) / PAGE {
        assert PageAt(virt, j) / PAGE in t.view;
      }
    }
  }

  // ---- Whole runs ----

  datatype Op =
    | Map(virt: uint32, phys: uint32, flags: uint32)
    | Unmap(virt: uint32)
    | Alloc(virt: uint32, flags: uint32)
    | AllocRange(virt: uint32, count: uint32, flags: uint32)
    | FreeRange(virt: uint32, count: uint32)

  ghost function Apply(s: Space, op: Op): (t: Space)
    requires s.total < PAGES
  {
    match op
    case Map(virt, phys, flags) => MapPage(s, virt, phys, flags).space
    case Unmap(virt) => UnmapPage(s, virt)
    case Alloc(virt, flags) => AllocPage(s, virt, flags).space
    case AllocRange(virt, count, flags) => AllocPages(s, virt, 0, count, flags).space
    case FreeRange(virt, count) => FreePages(s, virt, 0, count)
  }

  /** The operation is about this page. */
  ghost predicate Names(op: Op, q: nat) {
    match op
    case AllocRange(virt, count, _) => Visited(virt, count, q)
    case FreeRange(virt, count) => Visited(virt, count, q)
    case _ => op.virt / PAGE == q
  }

  /** Freeing must not give away a page table; `FreePagesIsSound` says when it would. */
  ghost predicate Safe(s: Space, op: Op) {
    op.FreeRange? ==> FreesNoTable(s, op.virt, 0, op.count)
  }

  lemma ApplyIsSound(s: Space, op: Op)
    requires Sound(s) && Safe(s, op)
    ensures s.total < PAGES && Sound(Apply(s, op))
  {
    hide Sound, MapPage, AllocPage, AllocPages, FreePages, FreesNoTable;
    SoundTotal(s);
    match op
    case Map(virt, phys, flags) => MapPageIsSound(s, virt, phys, flags);
    case Unmap(virt) => UnmapPageIsSound(s, virt);
    case Alloc(virt, flags) => AllocPageIsSound(s, virt, flags);
    case AllocRange(virt, count, flags) => AllocPagesIsSound(s, virt, 0, count, flags);
    case FreeRange(virt, count) => FreePagesIsSound(s, virt, 0, count);
  }

  lemma UnmapPageIsSound(s: Space, virt: uint32)
    requires Sound(s)
    ensures Sound(UnmapPage(s, virt))
  {
  }

  lemma {:induction false} UnmapPagesIsSound(s: Space, virt: uint32, i: uint32, count: uint32)
    requires Sound(s)
    ensures Sound(UnmapPages(s, virt, i, count))
    decreases count - i
  {
    hide Sound, PageAt;
    if i < count {
      UnmapPageIsSound(s, PageAt(virt, i));
      UnmapPagesIsSound(UnmapPage(s, PageAt(virt, i)), virt, i + 1, count);
    }
  }

  lemma {:induction false} AllocPagesIsSound(s: Space, virt: uint32, i: uint32, count: uint32, flags: uint32)
    requires Sound(s) && s.total < PAGES && i <= count
    ensures Sound(AllocPages(s, virt, i, count, flags).space)
    decreases count - i
  {
    hide Sound, PageAt, AllocPage, AllocPages, UnmapPages;
    if i < count {
      var r := AllocPage(s, PageAt(virt, i), flags);
      AllocPageIsSound(s, PageAt(virt, i), flags);
      AllocPagesStep(s, virt, i, count, flags);
      if r.ok {
        AllocPagesIsSound(r.space, virt, i + 1, count, flags);
      } else {
        UnmapPagesIsSound(r.space, virt, 0, i);
      }
    } else {
      AllocPagesDone(s, virt, count, flags);
    }
  }

  ghost predicate SafeRun(s: Space, ops: seq<Op>)
    requires Sound(s)
    decreases |ops|
  {
    ops == [] || (Safe(s, ops[0]) && SafeRun(Next(s, ops[0]), ops[1..]))
  }

  ghost function Next(s: Space, op: Op): (t: Space)
    requires Sound(s) && Safe(s, op)
    ensures s.total < PAGES && Sound(t) && t == Apply(s, op)
  {
    ApplyIsSound(s, op);
    Apply(s, op)
  }

  ghost function After(s: Space, ops: seq<Op>): (t: Space)
    requires Sound(s) && SafeRun(s, ops)
    ensures Sound(t)
    decreases |ops|
  {
    if ops == [] then s else After(Next(s, ops[0]), ops[1..])
  }

  lemma {:induction false} RunSplits(s: Space, ops: seq<Op>, k: nat)
    requires Sound(s) && SafeRun(s, ops) && k <= |ops|
    ensures SafeRun(s, ops[..k]) && SafeRun(After(s, ops[..k]), ops[k..])
    ensures After(s, ops) == After(After(s, ops[..k]), ops[k..])
    decreases |ops|
  {
    hide Sound, Safe, Next;
    if k == 0 {
      assert ops[0..] == ops;
    } else {
      RunSplits(Next(s, ops[0]), ops[1..], k - 1);
      assert ops[..k][1..] == ops[1..][..k - 1] && ops[1..][k - 1..] == ops[k..];
    }
  }

  // ---- What one directory may take from the others ----

  /** The used set only grows, tables stay, and a new table is in a frame that was free. */
  ghost predicate Grows(s: Space, t: Space) {
    && t.total == s.total && s.used <= t.used && Extends(s.tables, t.tables)
    && forall f :: f in t.tables.Values ==> f in s.tables.Values || f !in s.used
  }

  lemma GrowsOn(s: Space, t: Space, u: Space)
    requires Grows(s, t) && Grows(t, u)
    ensures Grows(s, u)
  {
  }

  lemma GrownTables(s: Space, t: Space)
    requires Grows(s, t)
    ensures s.tables.Values <= t.tables.Values
  {
    forall f | f in s.tables.Values ensures f in t.tables.Values {
      var d :| d in s.tables && s.tables[d] == f;
      assert t.tables[d] == f;
    }
  }

  lemma TablesAreUsed(s: Space)
    requires Sound(s)
    ensures s.tables.Values <= s.used
  {
  }

  /** Both hold the same table in slot i. */
  predicate Shared(a: map<nat, nat>, b: map<nat, nat>, i: nat) {
    i in a && i in b && a[i] == b[i]
  }

  /** A table that both hold is in the same slot of both. */
  ghost predicate InPlace(a: map<nat, nat>, b: map<nat, nat>) {
    forall i, j :: i in a && j in b && a[i] == b[j] ==> i == j
  }

  lemma InPlaceBothWays(a: map<nat, nat>, b: map<nat, nat>)
    requires InPlace(a, b)
    ensures InPlace(b, a)
  {
  }

  /** Growth into free frames meets no table that was in a used one, so what is shared stays so. */
  lemma StaysInPlace(s: Space, t: Space, o: Space)
    requires Grows(s, t) && Sound(t) && o.used == s.used && o.tables.Values <= o.used && InPlace(s.tables, o.tables)
    ensures InPlace(t.tables, o.tables) && o.used <= t.used
    ensures forall i :: Shared(t.tables, o.tables, i) <==> Shared(s.tables, o.tables, i)
  {
    forall i, j | i in t.tables && j in o.tables && t.tables[i] == o.tables[j]
      ensures i == j && i in s.tables && s.tables[i] == t.tables[i]
    {
      assert o.tables[j] in o.tables.Values && t.tables[i] in t.tables.Values;
      var k :| k in s.tables && s.tables[k] == t.tables[i];
      assert t.tables[k] == s.tables[k];
    }
  }

  /** After an operation on another directory: the same tables, and a page translates as that directory
      now has it where its table is shared, and as before elsewhere. */
  ghost predicate Follows(before: Space, after: Space, dir: Space) {
    && after.tables == before.tables
    && forall p: nat :: SamePage(if Shared(dir.tables, after.tables, p / 1024) then dir else before, after, p)
  }

  /** Sharing nothing, it keeps its whole address space. */
  lemma FollowsApart(before: Space, after: Space, dir: Space)
    requires Follows(before, after, dir) && forall i :: !Shared(dir.tables, before.tables, i)
    ensures after.view == before.view
  {
    hide Shared;
    forall p: nat
      ensures (p in after.view <==> p in before.view) && (p in before.view ==> after.view[p] == before.view[p])
    {
      assert !Shared(dir.tables, before.tables, p / 1024);
      assert SamePage(before, after, p);
    }
  }

  lemma UsedIsInMemory(s: Space)
    requires Sound(s)
    ensures forall f :: f in s.used ==> f < s.total
  {
  }

  lemma SoundWithMore(o: Space, r: Space)
    requires Sound(o) && r.total == o.total && r.tables == o.tables && o.used <= r.used
    requires forall f :: f in r.used ==> f < r.total
    requires forall p :: p in r.view ==> p < PAGES && p / 1024 in r.tables && r.view[p] % 2 == 1
    ensures Sound(r)
  {
  }

  lemma MapPageGrows(s: Space, virt: uint32, phys: uint32, flags: uint32)
    requires Sound(s)
    ensures Grows(s, MapPage(s, virt, phys, flags).space)
  {
    hide Sound, FirstFit;
    TablesGrow(s, DirIndex(virt));
    TableFrameWasFree(s, DirIndex(virt));
  }

  lemma TableFrameWasFree(s: Space, d: nat)
    requires Sound(s)
    ensures forall f :: f in WithTable(s, d).tables.Values ==> f in s.tables.Values || f !in s.used
  {
    FreshFrame(s);
  }

  lemma AllocPageGrows(s: Space, virt: uint32, flags: uint32)
    requires Sound(s) && s.total < PAGES
    ensures Grows(s, AllocPage(s, virt, flags).space)
  {
    hide Sound, AllocPage, FirstFit;
    if AllocPage(s, virt, flags).ok {
      AllocPageUsesFreshFrames(s, virt, flags);
      assert forall g :: g in AllocPage(s, virt, flags).space.tables.Values && g in s.used ==> g in s.tables.Values;
    } else {
      FailedAllocPageChangesNothing(s, virt, flags);
    }
  }

  lemma {:induction false} AllocPagesGrows(s: Space, virt: uint32, i: uint32, count: uint32, flags: uint32)
    requires Sound(s) && s.total < PAGES && i <= count
    ensures Grows(s, AllocPages(s, virt, i, count, flags).space)
    decreases count - i
  {
    hide Sound, PageAt, AllocPage, AllocPages, UnmapPages;
    if i < count {
      var r := AllocPage(s, PageAt(virt, i), flags);
      AllocPageIsSound(s, PageAt(virt, i), flags);
      AllocPageGrows(s, PageAt(virt, i), flags);
      AllocPagesStep(s, virt, i, count, flags);
      if r.ok {
        AllocPagesGrows(r.space, virt, i + 1, count, flags);
        GrowsOn(s, r.space, AllocPages(r.space, virt, i + 1, count, flags).space);
      } else {
        UnmapPagesView(r.space, virt, 0, i, 0);
      }
    } else {
      AllocPagesDone(s, virt, count, flags);
    }
  }

  // ---- What a run does to one page ----

  /** The page translates as before. */
  ghost predicate SamePage(s: Space, t: Space, q: nat) {
    (q in t.view <==> q in s.view) && (q in s.view ==> t.view[q] == s.view[q])
  }

  lemma ApplyElsewhere(s: Space, op: Op, q: nat)
    requires Sound(s) && s.total < PAGES && !Names(op, q)
    ensures SamePage(s, Apply(s, op), q)
  {
    hide Sound, MapPage, AllocPage, AllocPages, FreePages, Visited;
    match op
    case Map(virt, phys, flags) => MapElsewhere(s, virt, phys, flags, q);
    case Unmap(_) =>
    case Alloc(virt, flags) => AllocElsewhere(s, virt, flags, q);
    case AllocRange(virt, count, flags) => AllocRangeElsewhere(s, virt, count, flags, q);
    case FreeRange(virt, count) => FreeElsewhere(s, virt, count, q);
  }

  lemma MapElsewhere(s: Space, virt: uint32, phys: uint32, flags: uint32, q: nat)
    requires q != virt / PAGE
    ensures SamePage(s, MapPage(s, virt, phys, flags).space, q)
  {
  }

  lemma AllocElsewhere(s: Space, virt: uint32, flags: uint32, q: nat)
    requires Sound(s) && s.total < PAGES && q != virt / PAGE
    ensures SamePage(s, AllocPage(s, virt, flags).space, q)
  {
    hide Sound, AllocPage, FirstFit;
    if AllocPage(s, virt, flags).ok {
      AllocPageUsesFreshFrames(s, virt, flags);
    } else {
      FailedAllocPageChangesNothing(s, virt, flags);
    }
  }

  lemma {:induction false} AllocPagesElsewhere(s: Space, virt: uint32, i: uint32, count: uint32, flags: uint32, q: nat)
    requires Sound(s) && s.total < PAGES && i <= count && AllocPages(s, virt, i, count, flags).ok
    requires forall j: uint32 :: i <= j < count ==> PageAt(virt, j) / PAGE != q
    ensures SamePage(s, AllocPages(s, virt, i, count, flags).space, q)
    decreases count - i
  {
    hide Sound, PageAt, AllocPage, AllocPages, UnmapPages;
    if i < count {
      AllocPagesStep(s, virt, i, count, flags);
      AllocPageIsSound(s, PageAt(virt, i), flags);
      AllocElsewhere(s, PageAt(virt, i), flags, q);
      AllocPagesElsewhere(AllocPage(s, PageAt(virt, i), flags).space, virt, i + 1, count, flags, q);
    } else {
      AllocPagesDone(s, virt, count, flags);
    }
  }

  lemma AllocRangeElsewhere(s: Space, virt: uint32, count: uint32, flags: uint32, q: nat)
    requires Sound(s) && s.total < PAGES && !Visited(virt, count, q)
    ensures SamePage(s, AllocPages(s, virt, 0, count, flags).space, q)
  {
    hide Sound, AllocPages, PageAt;
    if AllocPages(s, virt, 0, count, flags).ok {
      AllocPagesElsewhere(s, virt, 0, count, flags, q);
    } else {
      var n := FailedAllocPagesUnmaps(s, virt, count, flags);
      assert !Visited(virt, n, q);
    }
  }

  lemma FreeElsewhere(s: Space, virt: uint32, count: uint32, q: nat)
    requires !Visited(virt, count, q)
    ensures SamePage(s, FreePages(s, virt, 0, count), q)
  {
    hide FreePages, PageAt;
    FreePagesView(s, virt, 0, count, q);
  }

  lemma {:induction false} FreePagesView(s: Space, virt: uint32, i: uint32, count: uint32, q: nat)
    ensures q in FreePages(s, virt, i, count).view <==>
              q in s.view && forall j: uint32 :: i <= j < count ==> PageAt(virt, j) / PAGE != q
    ensures q in FreePages(s, virt, i, count).view ==> FreePages(s, virt, i, count).view[q] == s.view[q]
    decreases count - i
  {
    hide PageAt, FreePage;
    if i < count {
      FreePageEffect(s, PageAt(virt, i));
      FreePagesView(FreePage(s, PageAt(virt, i)), virt, i + 1, count, q);
    }
  }

  /** Whatever else is mapped, unmapped, allocated or freed, and however many tables that creates, a
      page keeps the translation it had when an operation last named it. */
  lemma {:induction false} LastOperationWins(s: Space, ops: seq<Op>, q: nat)
    requires Sound(s) && SafeRun(s, ops) && forall j :: 0 <= j < |ops| ==> !Names(ops[j], q)
    ensures SamePage(s, After(s, ops), q)
    decreases |ops|
  {
    hide Sound, Apply, Safe, Names;
    if ops != [] {
      ApplyElsewhere(s, ops[0], q);
      assert forall j :: 0 <= j < |ops[1..]| ==> ops[1..][j] == ops[j + 1];
      LastOperationWins(Next(s, ops[0]), ops[1..], q);
    }
  }

  /** What an operation makes of a page it names: the aligned address it mapped; nothing after an unmap
      or a free; a frame that was free after an allocation. One that fails leaves the page as it was,
      except that a failed range allocation has unmapped the pages it had reached. */
  ghost predicate Decided(t: Space, op: Op, u: Space, virt: uint32)
    requires t.total < PAGES
  {
    match op
    case Map(_, phys, flags) =>
      if MapPage(t, op.virt, phys, flags).ok
      then MappedWith(u, virt, flags) && Physical(u, virt) == phys / PAGE * PAGE
      else SamePage(t, u, virt / PAGE)
    case Unmap(_) => !IsMapped(u, virt)
    case Alloc(_, flags) =>
      if AllocPage(t, op.virt, flags).ok
      then MappedWith(u, virt, flags) && Physical(u, virt) / PAGE == FirstFit(t.used, t.total, 1, 1) != 0
      else SamePage(t, u, virt / PAGE)
    case AllocRange(_, count, flags) =>
      if AllocPages(t, op.virt, 0, count, flags).ok
      then MappedWith(u, virt, flags) && Physical(u, virt) / PAGE !in t.used
      else IsMapped(u, virt) ==> SamePage(t, u, virt / PAGE)
    case FreeRange(_, _) => !IsMapped(u, virt)
  }

  /** The page is mapped with these flags. */
  predicate MappedWith(s: Space, virt: uint32, flags: uint32) {
    IsMapped(s, virt) && Carries(s.view[virt / PAGE], flags)
  }

  lemma PageFrame(s: Space, virt: uint32)
    requires IsMapped(s, virt)
    ensures Physical(s, virt) / PAGE == s.view[virt / PAGE] / PAGE
  {
    DivModUnique(s.view[virt / PAGE] / PAGE * PAGE, PAGE, s.view[virt / PAGE] / PAGE, 0);
  }

  lemma ApplyDecides(t: Space, op: Op, virt: uint32)
    requires Sound(t) && t.total < PAGES && Names(op, virt / PAGE)
    ensures Decided(t, op, Apply(t, op), virt)
  {
    hide Sound, AllocPage, MapPage, AllocPages, FreePages, FirstFit, Visited, Physical;
    match op
    case Map(v, phys, flags) => MapDecides(t, v, phys, flags, virt);
    case Unmap(_) =>
    case Alloc(v, flags) => AllocDecides(t, v, flags, virt);
    case AllocRange(v, count, flags) => AllocRangeDecides(t, v, count, flags, virt);
    case FreeRange(v, count) => FreeDecides(t, v, count, virt);
  }

  lemma MapDecides(t: Space, v: uint32, phys: uint32, flags: uint32, virt: uint32)
    requires Sound(t) && t.total < PAGES && v / PAGE == virt / PAGE
    ensures Decided(t, Map(v, phys, flags), MapPage(t, v, phys, flags).space, virt)
  {
    hide Sound, MapPage;
    MapPageTranslates(t, v, phys, flags, v);
  }

  lemma AllocDecides(t: Space, v: uint32, flags: uint32, virt: uint32)
    requires Sound(t) && t.total < PAGES && v / PAGE == virt / PAGE
    ensures Decided(t, Alloc(v, flags), AllocPage(t, v, flags).space, virt)
  {
    hide Sound, AllocPage, FirstFit;
    if AllocPage(t, v, flags).ok {
      AllocPageUsesFreshFrames(t, v, flags);
      PageFrame(AllocPage(t, v, flags).space, virt);
    } else {
      FailedAllocPageChangesNothing(t, v, flags);
    }
  }

  lemma FreeDecides(t: Space, v: uint32, count: uint32, virt: uint32)
    requires t.total < PAGES && Visited(v, count, virt / PAGE)
    ensures Decided(t, FreeRange(v, count), FreePages(t, v, 0, count), virt)
  {
    hide FreePages, PageAt;
    FreePagesView(t, v, 0, count, virt / PAGE);
  }

  lemma AllocRangeDecides(t: Space, v: uint32, count: uint32, flags: uint32, virt: uint32)
    requires Sound(t) && t.total < PAGES && Visited(v, count, virt / PAGE)
    ensures Decided(t, AllocRange(v, count, flags), AllocPages(t, v, 0, count, flags).space, virt)
  {
    hide Sound, AllocPages, PageAt, Physical;
    var u := AllocPages(t, v, 0, count, flags).space;
    if AllocPages(t, v, 0, count, flags).ok {
      AllocPagesMaps(t, v, 0, count, flags, virt / PAGE, t.used);
      PageFrame(u, virt);
    } else {
      var n := FailedAllocPagesUnmaps(t, v, count, flags);
    }
  }

  /** A page that an iteration visits, or that is already on a frame outside the given set, ends up on
      a frame outside it. */
  lemma {:induction false} AllocPagesMaps(s: Space, virt: uint32, i: uint32, count: uint32, flags: uint32,
                                            q: nat, used: set<nat>)
    requires Sound(s) && s.total < PAGES && i <= count && AllocPages(s, virt, i, count, flags).ok && used <= s.used
    requires (exists j: uint32 :: i <= j < count && PageAt(virt, j) / PAGE == q)
          || (q in s.view && s.view[q] / PAGE !in used && Carries(s.view[q], flags))
    ensures var u := AllocPages(s, virt, i, count, flags).space;
            q in u.view && u.view[q] / PAGE !in used && Carries(u.view[q], flags)
    decreases count - i
  {
    hide Carries, Sound, PageAt, AllocPage, AllocPages, UnmapPages, FirstFit;
    if i < count {
      var page := PageAt(virt, i);
      var r := AllocPage(s, page, flags).space;
      AllocPagesStep(s, virt, i, count, flags);
      AllocPageIsSound(s, page, flags);
      AllocPageUsesFreshFrames(s, page, flags);
      AllocPagesMaps(r, virt, i + 1, count, flags, q, used);
    } else {
      AllocPagesDone(s, virt, count, flags);
    }
  }

  /** A page's translation is what the last operation that named it made of it. */
  lemma LastOperationDecides(s: Space, ops: seq<Op>, k: nat, virt: uint32)
    requires Sound(s) && SafeRun(s, ops) && k < |ops| && Names(ops[k], virt / PAGE)
    requires forall j :: k < j < |ops| ==> !Names(ops[j], virt / PAGE)
    ensures SafeRun(s, ops[..k]) && After(s, ops[..k]).total < PAGES
    ensures Decided(After(s, ops[..k]), ops[k], After(s, ops), virt)
  {
    hide Sound, Apply, Names, Decided, Safe;
    RunSplits(s, ops, k);
    var t := After(s, ops[..k]);
    SoundTotal(t);
    assert ops[k..][0] == ops[k] && ops[k..][1..] == ops[k + 1..];
    ApplyDecides(t, ops[k], virt);
    var rest := ops[k + 1..];
    forall j | 0 <= j < |rest| ensures !Names(rest[j], virt / PAGE) {
      assert rest[j] == ops[k + 1 + j];
    }
    LastOperationWins(Apply(t, ops[k]), rest, virt / PAGE);
    DecidedStands(t, ops[k], Apply(t, ops[k]), After(s, ops), virt);
  }

  lemma DecidedStands(t: Space, op: Op, u: Space, v: Space, virt: uint32)
    requires t.total < PAGES && Decided(t, op, u, virt) && SamePage(u, v, virt / PAGE)
    ensures Decided(t, op, v, virt)
  {
    hide MapPage, AllocPage, AllocPages, FirstFit;
  }
}
