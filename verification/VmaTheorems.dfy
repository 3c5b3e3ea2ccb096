/** What a caller of vma_alloc and vma_free can rely on (src/memory/vma.h),
    stated about the functions the methods of AddressSpace are proved to
    compute. */
module VmaTheorems {
  import opened Bitmap
  import opened FrameAllocator
  import opened Paging
  import opened Tables
  import opened Unmap
  import opened VirtualAllocator

  /** The virtual pages whose walk a call may disturb besides those it allocates: the self-map window,
      and the temporary slot with its alias below 4 MB. */
  predicate Volatile(p: nat) {
    p / 1024 == 1023 || p == 0xC03FF || p == 0x3FF
  }

  lemma BootPagesKept(a: Memory, b: Memory, k: Layout, p: nat)
    requires KernelMapped(a, k) && KernelMapped(b, k)
    requires p < BITMAP_SIZE && !Own(p / 1024) && !Volatile(p)
    ensures PageWalk(a, k.pd, p) == PageWalk(b, k.pd, p) == Some(p % 1024)
  {
    assert Names(a, k.pt, p % 1024, p % 1024) && Names(b, k.pt, p % 1024, p % 1024);
  }

  /** The page number of an address among n pages starting at v. */
  predicate Within(va: Word, v: Word, n: nat) {
    v <= va < v + n * PAGE_SIZE
  }

  /** The state after a call and its result, spelled out. */
  ghost predicate Allocated(s: Kernel, k: Layout, bytes: Word, hint: Word, t: Kernel, v: Word, start: nat) {
    var n := NumPages(bytes);
    && bytes != 0 && start == FirstFit(s.pages, n, HintPage(hint)) && Fits(s.pages, start, n)
    && v == start * PAGE_SIZE && t.pages == s.pages - Range(start, start + n)
    && RangeOk(s.m, (t.m, true), k, start, n)
  }

  /** A nonzero result is the address of the first fit, whose pages were free and own no boot entry. */
  lemma AllocateCases(s: Kernel, k: Layout, bytes: Word, hint: Word)
    requires KernelOk(s, k)
    ensures var n := NumPages(bytes);
            var start := FirstFit(s.pages, n, HintPage(hint));
            var (t, v) := Allocate(s, k, bytes, hint);
            && KernelOk(t, k)
            && (v != 0 ==> start >= 0 && Allocated(s, k, bytes, hint, t, v, start))
            && (bytes == 0 || start == -1 ==> v == 0 && t == s)
            && (bytes != 0 && start != -1 ==>
                  start >= 0 && Fits(s.pages, start, n)
                  && (t.m, MapRange(s.m, k, start, n).1) == MapRange(s.m, k, start, n)
                  && RangeOk(s.m, MapRange(s.m, k, start, n), k, start, n)
                  && (MapRange(s.m, k, start, n).1 ==> v == start * PAGE_SIZE)
                  && (!MapRange(s.m, k, start, n).1 ==> v == 0 && t.pages == s.pages))
  {
    hide MapRange, Outcome, Unshared, Held;
    var n := NumPages(bytes);
    var start := FirstFit(s.pages, n, HintPage(hint));
    FirstFitIsLeast(s.pages, n, HintPage(hint));
    if bytes != 0 && start != -1 {
      FitsOwn(s, k, start, n);
      MapRangeOk(s.m, k, start, n);
    }
  }

  /** Any call, whether it succeeds or fails, leaves the walk of every page outside the range it tries,
      apart from the volatile ones, as it was. */
  lemma AllocateKeeps(s: Kernel, k: Layout, bytes: Word, hint: Word, p: nat)
    requires KernelOk(s, k) && p < BITMAP_SIZE && !Volatile(p)
    requires var start := FirstFit(s.pages, NumPages(bytes), HintPage(hint));
             start == -1 || !(start <= p < start + NumPages(bytes))
    ensures PageWalk(Allocate(s, k, bytes, hint).0.m.mem, k.pd, p) == PageWalk(s.m.mem, k.pd, p)
  {
    hide MapRange, Unshared, SlotFrame;
    AllocateCases(s, k, bytes, hint);
    var start := FirstFit(s.pages, NumPages(bytes), HintPage(hint));
    if bytes != 0 && start != -1 {
      PageMoved(s.m, Allocate(s, k, bytes, hint).0.m, k, start, NumPages(bytes), p);
    }
  }

  /** A successful call maps every page of its range to a frame that was free and no longer is, and leaves
      the translation of every other address, apart from the volatile ones, exactly as it was: also in
      the ranges of the tables it added. */
  lemma AllocateMaps(s: Kernel, k: Layout, bytes: Word, hint: Word, va: Word)
    requires KernelOk(s, k) && Allocate(s, k, bytes, hint).1 != 0
    ensures var (t, v) := Allocate(s, k, bytes, hint);
            var before, after := Walk(s.m.mem, k.pd, va), Walk(t.m.mem, k.pd, va);
            && v % PAGE_SIZE == 0
            && (Within(va, v, NumPages(bytes)) ==>
                  && va / PAGE_SIZE in s.pages && va / PAGE_SIZE !in t.pages
                  && after.Some? && after.value % PAGE_SIZE == va % PAGE_SIZE
                  && after.value / PAGE_SIZE in s.m.frames && after.value / PAGE_SIZE !in t.m.frames)
            && (!Within(va, v, NumPages(bytes)) && !Volatile(va / PAGE_SIZE) ==> after == before)
  {
    hide MapRange, Unshared, SlotFrame, Outcome;
    AllocateCases(s, k, bytes, hint);
    var (t, v) := Allocate(s, k, bytes, hint);
    var start := FirstFit(s.pages, NumPages(bytes), HintPage(hint));
    WalkByPage(s.m.mem, k.pd, va);
    WalkByPage(t.m.mem, k.pd, va);
    if !Within(va, v, NumPages(bytes)) && !Volatile(va / PAGE_SIZE) {
      AllocateKeeps(s, k, bytes, hint, va / PAGE_SIZE);
    }
    if Within(va, v, NumPages(bytes)) {
      PageInRange(s, t, k, start, NumPages(bytes), va);
    }
  }

  lemma PageInRange(s: Kernel, t: Kernel, k: Layout, start: nat, n: nat, va: Word)
    requires KernelOk(s, k) && Fits(s.pages, start, n) && t.pages == s.pages - Range(start, start + n)
    requires RangeOk(s.m, (t.m, true), k, start, n) && start * PAGE_SIZE <= va < (start + n) * PAGE_SIZE
    ensures va / PAGE_SIZE in s.pages && va / PAGE_SIZE !in t.pages
    ensures var f := PageWalk(t.m.mem, k.pd, va / PAGE_SIZE);
            f.Some? && f.value in s.m.frames && f.value !in t.m.frames
  {
    hide Unshared, SlotFrame, Outcome, Inv;
    assert start <= va / PAGE_SIZE < start + n;
    assert va / PAGE_SIZE in s.pages;
    assert Own(va / PAGE_SIZE / 1024);
    PageBacked(s.m, t.m, k, start, n, va / PAGE_SIZE);
  }

  /** Page p outside the range keeps its walk. */
  lemma PageMoved(m: Machine, t: Machine, k: Layout, start: nat, n: nat, p: nat)
    requires Inv(m, k) && Inv(t, k) && Grown(m, t, k, start, n) && p < BITMAP_SIZE
    ensures !(start <= p < start + n) && !Volatile(p) ==> PageWalk(t.mem, k.pd, p) == PageWalk(m.mem, k.pd, p)
  {
    if !(start <= p < start + n) && !Volatile(p) {
      if Own(p / 1024) {
        PageWalkIsSlot(m.mem, k.pd, p);
        PageWalkIsSlot(t.mem, k.pd, p);
        var s := Page(p / 1024, p % 1024);
        assert SameOrFresh(m, t, k.pd, s, Written(m.mem, k.pd, start, n, s));
      } else {
        BootPagesKept(m.mem, t.mem, k, p);
      }
    }
  }

  lemma PageBacked(m: Machine, t: Machine, k: Layout, start: nat, n: nat, p: nat)
    requires RangeOk(m, (t, true), k, start, n) && start <= p < start + n && p < BITMAP_SIZE && Own(p / 1024)
    ensures var f := PageWalk(t.mem, k.pd, p);
            f.Some? && f.value in m.frames && f.value !in t.frames
  {
    PageWalkIsSlot(t.mem, k.pd, p);
    assert Backed(m, t, k.pd, p);
    var s := Page(p / 1024, p % 1024);
    assert HeldFrame(t.frames, k, SlotFrame(t.mem, k.pd, s).value);
  }

  /** Two pages of an allocation never share a frame, and none shares one with a page table. */
  lemma AllocateDistinct(s: Kernel, k: Layout, bytes: Word, hint: Word, p: nat, q: nat, i: nat)
    requires KernelOk(s, k) && Allocate(s, k, bytes, hint).1 != 0
    requires var start := Allocate(s, k, bytes, hint).1 / PAGE_SIZE;
             start <= p < start + NumPages(bytes) && start <= q < start + NumPages(bytes) && p != q
    ensures p < BITMAP_SIZE && q < BITMAP_SIZE
    ensures var mem := Allocate(s, k, bytes, hint).0.m.mem;
            && PageWalk(mem, k.pd, p).Some? && PageWalk(mem, k.pd, p) != PageWalk(mem, k.pd, q)
            && PageWalk(mem, k.pd, p) != SlotFrame(mem, k.pd, Table(i))
  {
    AllocateCases(s, k, bytes, hint);
    var t := Allocate(s, k, bytes, hint).0;
    var start := FirstFit(s.pages, NumPages(bytes), HintPage(hint));
    assert p in s.pages && q in s.pages;
    PageBacked(s.m, t.m, k, start, NumPages(bytes), p);
    PageBacked(s.m, t.m, k, start, NumPages(bytes), q);
    PageWalkIsSlot(t.m.mem, k.pd, p);
    PageWalkIsSlot(t.m.mem, k.pd, q);
    assert Page(p / 1024, p % 1024) != Page(q / 1024, q % 1024);
  }

  /** The frames that a request which fits needs: one for each page and one for each missing table. */
  ghost function Need(s: Kernel, k: Layout, bytes: Word, hint: Word): nat
    requires KernelOk(s, k)
  {
    var n := NumPages(bytes);
    var start := FirstFit(s.pages, n, HintPage(hint));
    FirstFitIsLeast(s.pages, n, HintPage(hint));
    if start == -1 then 0 else n + |AbsentTables(s.m.mem, k.pd, start, n)|
  }

  /** Exactly when a call succeeds, and what it then costs. For requests whose page count does not wrap: when
      some range fits and enough frames are free. A failing call leaves the virtual bit array as it was;
      it either changes nothing at all or has used up the last frame. */
  lemma AllocateExact(s: Kernel, k: Layout, bytes: Word, hint: Word)
    requires KernelOk(s, k) && bytes <= 0xFFFF_F000
    ensures var (t, v) := Allocate(s, k, bytes, hint);
            var fits := FirstFit(s.pages, NumPages(bytes), HintPage(hint)) != -1;
            && (v != 0 <==> bytes != 0 && fits && |s.m.frames| >= Need(s, k, bytes, hint))
            && (v != 0 ==> |t.m.frames| == |s.m.frames| - Need(s, k, bytes, hint))
            && (v == 0 ==> t.pages == s.pages && (t == s || (bytes != 0 && fits && t.m.frames == {})))
  {
    AllocateCases(s, k, bytes, hint);
    NumPagesCovers(bytes);
    var start := FirstFit(s.pages, NumPages(bytes), HintPage(hint));
    if bytes != 0 && start != -1 {
      assert NumPages(bytes) > 0;
      assert start in s.pages;
      assert Own(start / 1024) && start > 0;
    }
  }

  /** Above 0xFFFFF000 bytes the page count wraps to 0: the call maps and reserves nothing and returns the
      page of the hint. */
  lemma AllocateWrapped(s: Kernel, k: Layout, bytes: Word, hint: Word)
    requires KernelOk(s, k) && bytes > 0xFFFF_F000
    ensures Allocate(s, k, bytes, hint) == (s, HintPage(hint) * PAGE_SIZE)
  {
    NumPagesCovers(bytes);
    FirstFitIsLeast(s.pages, 0, HintPage(hint));
    assert Fits(s.pages, HintPage(hint), 0);
    assert s.pages - Range(HintPage(hint), HintPage(hint)) == s.pages;
  }

  /** With hint 0 such a call hands out 0xC0000000, which the boot mapping translates to physical address 0:
      the caller gets the kernel's own low memory. */
  lemma AllocateWrappedLowMemory(s: Kernel, k: Layout, bytes: Word)
    requires KernelOk(s, k) && bytes > 0xFFFF_F000
    ensures var (t, v) := Allocate(s, k, bytes, 0);
            v == 0xC000_0000 && Walk(t.m.mem, k.pd, v) == Some(0)
  {
    AllocateWrapped(s, k, bytes, 0);
    assert Names(s.m.mem, k.pt, 0, 0);
  }

  /** Every page that starts in the n pages' length from address v is free. */
  ghost predicate FreeAt(pages: set<nat>, v: nat, n: nat) {
    forall p: nat :: v <= p * 0x1000 < v + n * 0x1000 ==> p in pages
  }

  /** An address a search may try: on a page boundary, not below the page of the hint, and for hint 0 in the high
      gigabyte. */
  predicate Searched(v: nat, hint: Word) {
    v % 0x1000 == 0 && if hint == 0 then v >= 0xC000_0000 else v + 0xFFF >= hint
  }

  lemma SearchedPage(v: nat, hint: Word)
    requires v % 0x1000 == 0
    ensures Searched(v, hint) <==> v / 0x1000 >= HintPage(hint)
  {
  }

  lemma FreeAtFits(pages: set<nat>, v: nat, n: nat)
    requires v % 0x1000 == 0 && n > 0 && forall p :: p in pages ==> p < BITMAP_SIZE
    ensures FreeAt(pages, v, n) <==> Fits(pages, v / 0x1000, n)
  {
    var first := v / 0x1000;
    assert v == first * 0x1000;
    if FreeAt(pages, v, n) {
      assert first + n - 1 in pages;
    }
  }

  /** A successful call returns the lowest address it may try at which every page is free. */
  lemma HintRespected(s: Kernel, k: Layout, bytes: Word, hint: Word)
    requires KernelOk(s, k) && bytes <= 0xFFFF_F000 && Allocate(s, k, bytes, hint).1 != 0
    ensures var v, n := Allocate(s, k, bytes, hint).1, NumPages(bytes);
            && Searched(v, hint) && FreeAt(s.pages, v, n) && v + n * 0x1000 <= 0x1_0000_0000
            && forall u: nat :: Searched(u, hint) && u < v ==> !FreeAt(s.pages, u, n)
  {
    hide MapRange, Unshared, SlotFrame, Outcome, FreeAt, Searched, HintPage, NumPages;
    AllocateCases(s, k, bytes, hint);
    NumPagesCovers(bytes);
    var v, n := Allocate(s, k, bytes, hint).1, NumPages(bytes);
    FirstFitIsLeast(s.pages, n, HintPage(hint));
    SearchedPage(v, hint);
    FreeAtFits(s.pages, v, n);
    forall u: nat | Searched(u, hint) && u < v
      ensures !FreeAt(s.pages, u, n)
    {
      SearchedAligned(u, hint);
      SearchedPage(u, hint);
      FreeAtFits(s.pages, u, n);
      assert u / 0x1000 < v / 0x1000;
    }
  }

  /** The search finds nothing exactly when no address it may try has all its pages free. */
  lemma NoRoomExact(s: Kernel, k: Layout, n: nat, hint: Word)
    requires KernelOk(s, k) && n > 0
    ensures FirstFit(s.pages, n, HintPage(hint)) == -1
            <==> forall u: nat :: Searched(u, hint) ==> !FreeAt(s.pages, u, n)
  {
    hide Inv, FreeAt, Searched, HintPage;
    var r := FirstFit(s.pages, n, HintPage(hint));
    FirstFitIsLeast(s.pages, n, HintPage(hint));
    if r == -1 {
      forall u: nat | Searched(u, hint)
        ensures !FreeAt(s.pages, u, n)
      {
        SearchedAligned(u, hint);
        SearchedPage(u, hint);
        FreeAtFits(s.pages, u, n);
      }
    } else {
      SearchedPage(r * 0x1000, hint);
      FreeAtFits(s.pages, r * 0x1000, n);
    }
  }

  lemma SearchedAligned(v: nat, hint: Word)
    requires Searched(v, hint)
    ensures v % 0x1000 == 0
  {
  }

  // --------------------------------------------------------------- vma_free

  /** Freeing what a call allocated, with the same size, restores the virtual bit array exactly and leaves
      every page of the range unmapped; so the same search finds the same start again. */
  lemma AllocateThenFree(s: Kernel, k: Layout, bytes: Word, hint: Word, maxPhys: int, limit: nat)
    requires KernelOk(s, k) && Allocate(s, k, bytes, hint).1 != 0
    ensures var (t, v) := Allocate(s, k, bytes, hint);
            var n := NumPages(bytes);
            && v / PAGE_SIZE + n <= BITMAP_SIZE
            && var u := Deallocate(t, k, v, bytes, maxPhys, limit);
               && u.pages == s.pages
               && (forall p :: v / PAGE_SIZE <= p < v / PAGE_SIZE + n ==> PageWalk(u.m.mem, k.pd, p).None?)
               && FirstFit(u.pages, n, HintPage(hint)) == v / PAGE_SIZE
  {
    hide MapRange, UnmapRange, Unshared, SlotFrame;
    AllocateCases(s, k, bytes, hint);
    var (t, v) := Allocate(s, k, bytes, hint);
    var start, n := FirstFit(s.pages, NumPages(bytes), HintPage(hint)), NumPages(bytes);
    FitsOwn(s, k, start, n);
    Restored(s.pages, start, n);
    InvMemOk(t.m, k);
    UnmapRangeOk(t.m, k, start, n, maxPhys, limit);
    var u := UnmapRange(t.m, k, start, n, maxPhys, limit);
    forall p | start <= p < start + n
      ensures PageWalk(u.mem, k.pd, p).None?
    {
      assert Own(p / 1024);
      PageWalkIsSlot(u.mem, k.pd, p);
      assert InPages(Page(p / 1024, p % 1024), start, n);
    }
  }

  /** Table frames are frames pfa_free accepts. TablesFreeableInRuns shows that they are in every run. */
  ghost predicate TablesFreeable(mem: Memory, pd: nat, maxPhys: int, limit: nat)
    requires pd < BITMAP_SIZE
  {
    forall i :: !Absent(mem, pd, i) ==>
                  var f := SlotFrame(mem, pd, Table(i)).value; 0 < f < limit && f * PAGE_SIZE < maxPhys
  }

  /** What vma_free gives back. The frames that backed the range stay used; the page tables of its mapped
      pages become free while the directory still names them. So the ownership invariant survives a call
      exactly when the range has no mapped page. */
  lemma FreeGivesTables(s: Kernel, k: Layout, virtStart: Word, bytes: Word, maxPhys: int, limit: nat)
    requires KernelOk(s, k) && TablesFreeable(s.m.mem, k.pd, maxPhys, limit)
    requires bytes != 0 && virtStart != 0 && virtStart / PAGE_SIZE + NumPages(bytes) <= BITMAP_SIZE
    requires var p := virtStart / PAGE_SIZE; forall q :: p <= q < p + NumPages(bytes) ==> Own(q / 1024)
    ensures var u := Deallocate(s, k, virtStart, bytes, maxPhys, limit);
            var p, n := virtStart / PAGE_SIZE, NumPages(bytes);
            && (forall q :: p <= q < p + n && Mapped(s.m.mem, k.pd, q) ==>
                  && TableFrame(s.m.mem, k.pd, q) in u.m.frames
                  && SlotFrame(u.m.mem, k.pd, Table(q / 1024)) == Some(TableFrame(s.m.mem, k.pd, q))
                  && SlotFrame(s.m.mem, k.pd, Page(q / 1024, q % 1024)).value !in u.m.frames)
            && (Inv(u.m, k) <==> forall q :: p <= q < p + n ==> !Mapped(s.m.mem, k.pd, q))
  {
    hide UnmapRange;
    var p, n := virtStart / PAGE_SIZE, NumPages(bytes);
    InvMemOk(s.m, k);
    UnmapRangeOk(s.m, k, p, n, maxPhys, limit);
    var u := Deallocate(s, k, virtStart, bytes, maxPhys, limit);
    forall q | p <= q < p + n && Mapped(s.m.mem, k.pd, q)
      ensures TableFrame(s.m.mem, k.pd, q) in u.m.frames
      ensures SlotFrame(u.m.mem, k.pd, Table(q / 1024)) == Some(TableFrame(s.m.mem, k.pd, q))
      ensures SlotFrame(s.m.mem, k.pd, Page(q / 1024, q % 1024)).value !in u.m.frames
      ensures !Inv(u.m, k)
    {
      MappedGivesTable(s, u, k, p, n, maxPhys, limit, q);
    }
    if forall q :: p <= q < p + n ==> !Mapped(s.m.mem, k.pd, q) {
      NothingMapped(s, u, k, p, n, maxPhys, limit);
    }
  }

  lemma MappedGivesTable(s: Kernel, u: Kernel, k: Layout, p: nat, n: nat, maxPhys: int, limit: nat, q: nat)
    requires Inv(s.m, k) && TablesFreeable(s.m.mem, k.pd, maxPhys, limit) && p + n <= BITMAP_SIZE
    requires forall s' :: SlotFrame(u.m.mem, k.pd, s')
                       == if InPages(s', p, n) then None else SlotFrame(s.m.mem, k.pd, s')
    requires forall f :: f in u.m.frames <==> f in s.m.frames || GivenBack(s.m.mem, k.pd, p, n, maxPhys, limit, f)
    requires p <= q < p + n && Mapped(s.m.mem, k.pd, q) && Own(q / 1024)
    ensures TableFrame(s.m.mem, k.pd, q) in u.m.frames
    ensures SlotFrame(u.m.mem, k.pd, Table(q / 1024)) == Some(TableFrame(s.m.mem, k.pd, q))
    ensures SlotFrame(s.m.mem, k.pd, Page(q / 1024, q % 1024)).value !in u.m.frames
    ensures !Inv(u.m, k)
  {
    var f := TableFrame(s.m.mem, k.pd, q);
    assert SlotFrame(s.m.mem, k.pd, Table(q / 1024)) == Some(f);
    assert !Absent(s.m.mem, k.pd, q / 1024);
    assert GivenBack(s.m.mem, k.pd, p, n, maxPhys, limit, f);
    assert SlotFrame(u.m.mem, k.pd, Table(q / 1024)) == Some(f);
    assert !Held(u.m, k);
    var d := SlotFrame(s.m.mem, k.pd, Page(q / 1024, q % 1024)).value;
    assert HeldFrame(s.m.frames, k, d);
    forall r: nat | p <= r < p + n && Mapped(s.m.mem, k.pd, r)
      ensures TableFrame(s.m.mem, k.pd, r) != d
    {
      assert SlotFrame(s.m.mem, k.pd, Table(r / 1024)) == Some(TableFrame(s.m.mem, k.pd, r));
      assert Table(r / 1024) != Page(q / 1024, q % 1024);
    }
  }

  lemma NothingMapped(s: Kernel, u: Kernel, k: Layout, p: nat, n: nat, maxPhys: int, limit: nat)
    requires Inv(s.m, k) && KernelMapped(u.m.mem, k) && p + n <= BITMAP_SIZE
    requires forall s' :: SlotFrame(u.m.mem, k.pd, s')
                       == if InPages(s', p, n) then None else SlotFrame(s.m.mem, k.pd, s')
    requires forall f :: f in u.m.frames <==> f in s.m.frames || GivenBack(s.m.mem, k.pd, p, n, maxPhys, limit, f)
    requires forall q :: p <= q < p + n ==> !Mapped(s.m.mem, k.pd, q)
    ensures Inv(u.m, k)
  {
    assert u.m.frames == s.m.frames;
    forall s'
      ensures SlotFrame(u.m.mem, k.pd, s') == SlotFrame(s.m.mem, k.pd, s')
    {
      if InPages(s', p, n) {
        assert !Mapped(s.m.mem, k.pd, s'.i * 1024 + s'.j);
      }
    }
  }

  // ------------------------------------------------------------------- runs

  /** A run of the kernel: allocations of virtual ranges, and allocations and frees of single frames by others. */
  datatype Op = AllocRange(bytes: Word, hint: Word) | AllocFrame | FreeFrame(f: nat)

  /** The kernel and the frames that pfa_alloc has handed to others. */
  datatype System = System(kern: Kernel, held: set<nat>)

  /** Every frame belongs to one place only: it is free, held by someone, or named by exactly one page table
      or directory entry; and all of them were free at the start. */
  ghost predicate SystemOk(y: System, k: Layout, all: set<nat>) {
    && KernelOk(y.kern, k)
    && y.kern.m.frames !! y.held && k.pd !in y.held && k.pt !in y.held
    && y.kern.m.frames <= all && y.held <= all
    && forall s :: SlotFrame(y.kern.m.mem, k.pd, s).Some? ==>
                     SlotFrame(y.kern.m.mem, k.pd, s).value in all - y.held - y.kern.m.frames
  }

  /** The bounds of the frame allocator, which every frame of the start meets. */
  ghost predicate Bounds(all: set<nat>, maxPhys: int, limit: nat) {
    Sound(all, maxPhys) && maxPhys <= WORD_LIMIT && forall f :: f in all ==> f < limit
  }

  /** A frame is given back by a caller that holds it. */
  ghost function Step(y: System, k: Layout, maxPhys: int, limit: nat, op: Op): System
    requires KernelOk(y.kern, k)
  {
    match op
    case AllocRange(bytes, hint) => System(Allocate(y.kern, k, bytes, hint).0, y.held)
    case AllocFrame =>
      var (rest, addr) := Alloc(y.kern.m.frames, maxPhys);
      System(Kernel(Machine(y.kern.m.mem, rest), y.kern.pages),
             if addr == 0 then y.held else y.held + {addr / PAGE_SIZE})
    case FreeFrame(f) =>
      if f !in y.held || f * PAGE_SIZE >= WORD_LIMIT then y
      else System(Kernel(Machine(y.kern.m.mem, Release(y.kern.m.frames, f * PAGE_SIZE, maxPhys, limit)), y.kern.pages),
                  y.held - {f})
  }

  /** The frames not yet put to use by the kernel. */
  ghost function Unused(y: System): set<nat> {
    y.kern.m.frames + y.held
  }

  lemma StepOk(y: System, k: Layout, all: set<nat>, maxPhys: int, limit: nat, op: Op)
    requires SystemOk(y, k, all) && Bounds(all, maxPhys, limit)
    ensures var z := Step(y, k, maxPhys, limit, op);
            SystemOk(z, k, all) && Unused(z) <= Unused(y)
  {
    match op
    case AllocRange(bytes, hint) => RangeStepOk(y, k, all, bytes, hint);
    case AllocFrame => AllocStepOk(y, k, all, maxPhys, limit);
    case FreeFrame(f) => FreeStepOk(y, k, all, maxPhys, limit, f);
  }

  lemma AllocStepOk(y: System, k: Layout, all: set<nat>, maxPhys: int, limit: nat)
    requires SystemOk(y, k, all) && Bounds(all, maxPhys, limit)
    ensures var z := Step(y, k, maxPhys, limit, AllocFrame);
            SystemOk(z, k, all) && Unused(z) <= Unused(y)
  {
    hide Allocate, Unshared, SlotFrame, KernelMapped;
    AllocSound(y.kern.m.frames, maxPhys);
    if y.kern.m.frames != {} {
      var f := Least(y.kern.m.frames);
      assert f * PAGE_SIZE / PAGE_SIZE == f;
      FramesMoved(y, Step(y, k, maxPhys, limit, AllocFrame), k, all, y.held + {f});
    }
  }

  lemma FreeStepOk(y: System, k: Layout, all: set<nat>, maxPhys: int, limit: nat, f: nat)
    requires SystemOk(y, k, all) && Bounds(all, maxPhys, limit)
    ensures var z := Step(y, k, maxPhys, limit, FreeFrame(f));
            SystemOk(z, k, all) && Unused(z) <= Unused(y)
  {
    hide Allocate, Unshared, SlotFrame, KernelMapped;
    if f in y.held {
      assert f * PAGE_SIZE / PAGE_SIZE == f;
      FramesMoved(y, Step(y, k, maxPhys, limit, FreeFrame(f)), k, all, y.held - {f});
    }
  }

  /** Moving frames between free and held keeps the invariant. */
  lemma FramesMoved(y: System, z: System, k: Layout, all: set<nat>, held: set<nat>)
    requires SystemOk(y, k, all) && held <= Unused(y)
    requires forall f :: f in all ==> 0 < f < BITMAP_SIZE
    requires z == System(Kernel(Machine(y.kern.m.mem, Unused(y) - held), y.kern.pages), held)
    ensures SystemOk(z, k, all) && Unused(z) == Unused(y)
  {
    hide Unshared, SlotFrame;
  }

  lemma RangeStepOk(y: System, k: Layout, all: set<nat>, bytes: Word, hint: Word)
    requires SystemOk(y, k, all)
    ensures var z := System(Allocate(y.kern, k, bytes, hint).0, y.held);
            SystemOk(z, k, all) && z.kern.m.frames <= y.kern.m.frames
  {
    hide MapRange, Unshared, SlotFrame;
    AllocateCases(y.kern, k, bytes, hint);
    var t := Allocate(y.kern, k, bytes, hint).0;
    var start, n := FirstFit(y.kern.pages, NumPages(bytes), HintPage(hint)), NumPages(bytes);
    if bytes != 0 && start != -1 {
      forall s | SlotFrame(t.m.mem, k.pd, s).Some?
        ensures SlotFrame(t.m.mem, k.pd, s).value in all - y.held - t.m.frames
      {
        assert SameOrFresh(y.kern.m, t.m, k.pd, s, Written(y.kern.m.mem, k.pd, start, n, s));
        assert HeldFrame(t.m.frames, k, SlotFrame(t.m.mem, k.pd, s).value);
      }
    }
  }

  ghost function Run(y: System, k: Layout, all: set<nat>, maxPhys: int, limit: nat, ops: seq<Op>): System
    requires SystemOk(y, k, all) && Bounds(all, maxPhys, limit)
    decreases |ops|
  {
    if ops == [] then y
    else
      StepOk(y, k, all, maxPhys, limit, ops[0]);
      Run(Step(y, k, maxPhys, limit, ops[0]), k, all, maxPhys, limit, ops[1..])
  }

  /** Over any run, successful calls and failed ones alike, no two entries name one frame, and no page table or
      mapped page is ever free or held by someone; a frame the kernel has put to use is never handed out again. */
  lemma {:induction false} RunSafe(y: System, k: Layout, all: set<nat>, maxPhys: int, limit: nat, ops: seq<Op>)
    requires SystemOk(y, k, all) && Bounds(all, maxPhys, limit)
    ensures var z := Run(y, k, all, maxPhys, limit, ops);
            && SystemOk(z, k, all)
            && Unshared(z.kern.m.mem, k.pd)
            && Unused(z) <= Unused(y)
    decreases |ops|
  {
    hide Step, Unshared, SlotFrame;
    if ops != [] {
      StepOk(y, k, all, maxPhys, limit, ops[0]);
      RunSafe(Step(y, k, maxPhys, limit, ops[0]), k, all, maxPhys, limit, ops[1..]);
    }
  }

  // ------------------------------------------------- vma_free within a run

  /** In every state of a run pfa_free accepts the frame of every page table. */
  lemma TablesFreeableInRuns(y: System, k: Layout, all: set<nat>, maxPhys: int, limit: nat)
    requires SystemOk(y, k, all) && Bounds(all, maxPhys, limit)
    ensures TablesFreeable(y.kern.m.mem, k.pd, maxPhys, limit)
  {
    hide Unshared, SlotFrame;
    forall i | !Absent(y.kern.m.mem, k.pd, i)
      ensures var f := SlotFrame(y.kern.m.mem, k.pd, Table(i)).value; 0 < f < limit && f * PAGE_SIZE < maxPhys
    {
      assert SlotFrame(y.kern.m.mem, k.pd, Table(i)).value in all;
    }
  }

  /** So in every state of a run a call of vma_free keeps the ownership invariant exactly when its range has no
      mapped page. */
  lemma FreeInRunExact(y: System, k: Layout, all: set<nat>, maxPhys: int, limit: nat, virtStart: Word, bytes: Word)
    requires SystemOk(y, k, all) && Bounds(all, maxPhys, limit)
    requires bytes != 0 && virtStart != 0 && virtStart / PAGE_SIZE + NumPages(bytes) <= BITMAP_SIZE
    requires var p := virtStart / PAGE_SIZE; forall q :: p <= q < p + NumPages(bytes) ==> Own(q / 1024)
    ensures var p := virtStart / PAGE_SIZE;
            Inv(Deallocate(y.kern, k, virtStart, bytes, maxPhys, limit).m, k)
            <==> forall q :: p <= q < p + NumPages(bytes) ==> !Mapped(y.kern.m.mem, k.pd, q)
  {
    hide Unshared, SlotFrame, Deallocate;
    TablesFreeableInRuns(y, k, all, maxPhys, limit);
    FreeGivesTables(y.kern, k, virtStart, bytes, maxPhys, limit);
  }

  /** Freeing a range that was really allocated always breaks the ownership of frames: from any state of any
      run, vma_free after a successful vma_alloc leaves a page table that is named and free at once. */
  lemma AllocateThenFreeBreaks(y: System, k: Layout, all: set<nat>, maxPhys: int, limit: nat, bytes: Word, hint: Word)
    requires SystemOk(y, k, all) && Bounds(all, maxPhys, limit)
    requires bytes <= 0xFFFF_F000 && Allocate(y.kern, k, bytes, hint).1 != 0
    ensures var (t, v) := Allocate(y.kern, k, bytes, hint);
            && v / PAGE_SIZE + NumPages(bytes) <= BITMAP_SIZE
            && var u := Deallocate(t, k, v, bytes, maxPhys, limit);
               && !Inv(u.m, k)
               && TableFrame(t.m.mem, k.pd, v / PAGE_SIZE) in u.m.frames
               && SlotFrame(u.m.mem, k.pd, Table(v / PAGE_SIZE / 1024))
                  == Some(TableFrame(t.m.mem, k.pd, v / PAGE_SIZE))
  {
    hide MapRange, UnmapRange, Unshared, SlotFrame, Deallocate;
    AllocateCases(y.kern, k, bytes, hint);
    var (t, v) := Allocate(y.kern, k, bytes, hint);
    var start, n := FirstFit(y.kern.pages, NumPages(bytes), HintPage(hint)), NumPages(bytes);
    NumPagesCovers(bytes);
    FitsOwn(y.kern, k, start, n);
    RangeStepOk(y, k, all, bytes, hint);
    TablesFreeableInRuns(System(t, y.held), k, all, maxPhys, limit);
    PageBacked(y.kern.m, t.m, k, start, n, start);
    PageWalkIsSlot(t.m.mem, k.pd, start);
    assert Mapped(t.m.mem, k.pd, start);
    FreeGivesTables(t, k, v, bytes, maxPhys, limit);
  }

  /** The next pfa_alloc hands out the frame of a page table that the directory names. */
  ghost predicate HandsOutTable(s: Kernel, k: Layout, maxPhys: int)
    requires k.pd < BITMAP_SIZE
  {
    var addr := Alloc(s.m.frames, maxPhys).1;
    addr != 0 && exists i :: SlotFrame(s.m.mem, k.pd, Table(i)) == Some(addr / PAGE_SIZE)
  }

  /** The table behind page q is lower than every free frame. */
  ghost predicate TableLowest(s: Kernel, k: Layout, q: nat)
    requires k.pd < BITMAP_SIZE && q < BITMAP_SIZE
  {
    Mapped(s.m.mem, k.pd, q) && forall g :: g in s.m.frames ==> TableFrame(s.m.mem, k.pd, q) < g
  }

  /** In every state of a run, the pfa_alloc after a call of vma_free hands out a live page table exactly when
      the table of some mapped page of the range was lower than every free frame. */
  lemma FreedTableReused(y: System, k: Layout, all: set<nat>, maxPhys: int, limit: nat, virtStart: Word, bytes: Word)
    requires SystemOk(y, k, all) && Bounds(all, maxPhys, limit)
    requires bytes != 0 && virtStart != 0 && virtStart / PAGE_SIZE + NumPages(bytes) <= BITMAP_SIZE
    requires var p := virtStart / PAGE_SIZE; forall q :: p <= q < p + NumPages(bytes) ==> Own(q / 1024)
    ensures var p := virtStart / PAGE_SIZE;
            HandsOutTable(Deallocate(y.kern, k, virtStart, bytes, maxPhys, limit), k, maxPhys)
            <==> exists q: nat :: p <= q < p + NumPages(bytes) && TableLowest(y.kern, k, q)
  {
    hide UnmapRange, Unshared, SlotFrame;
    var p, n := virtStart / PAGE_SIZE, NumPages(bytes);
    InvMemOk(y.kern.m, k);
    UnmapRangeOk(y.kern.m, k, p, n, maxPhys, limit);
    TablesFreeableInRuns(y, k, all, maxPhys, limit);
    LowestGivenBack(y, Deallocate(y.kern, k, virtStart, bytes, maxPhys, limit), k, all, maxPhys, limit, p, n);
  }

  lemma LowestGivenBack(y: System, u: Kernel, k: Layout, all: set<nat>, maxPhys: int, limit: nat, p: nat, n: nat)
    requires SystemOk(y, k, all) && Bounds(all, maxPhys, limit) && k.pd < BITMAP_SIZE && p + n <= BITMAP_SIZE
    requires forall s :: SlotFrame(u.m.mem, k.pd, s)
                      == if InPages(s, p, n) then None else SlotFrame(y.kern.m.mem, k.pd, s)
    requires forall f :: f in u.m.frames <==>
                           f in y.kern.m.frames || GivenBack(y.kern.m.mem, k.pd, p, n, maxPhys, limit, f)
    ensures HandsOutTable(u, k, maxPhys) <==> exists q: nat :: p <= q < p + n && TableLowest(y.kern, k, q)
  {
    hide SystemOk, KernelOk, Bounds, Alloc, Unshared, SlotFrame, TableFrame, Mapped;
    var mem, frames := y.kern.m.mem, y.kern.m.frames;
    forall f | f in u.m.frames
      ensures 0 < f * PAGE_SIZE < maxPhys && f * PAGE_SIZE / PAGE_SIZE == f
    {
      FreedInBounds(y, k, all, maxPhys, limit, p, n, f);
    }
    AllocSound(u.m.frames, maxPhys);
    if HandsOutTable(u, k, maxPhys) {
      var l := Least(u.m.frames);
      var i :| SlotFrame(u.m.mem, k.pd, Table(i)) == Some(l);
      TableKept(y, k, all, i);
      var q: nat :| p <= q < p + n && Mapped(mem, k.pd, q) && TableFrame(mem, k.pd, q) == l;
      assert TableLowest(y.kern, k, q);
    }
    if q: nat :| p <= q < p + n && TableLowest(y.kern, k, q) {
      TableOfPage(mem, k.pd, q);
      TableKept(y, k, all, q / 1024);
      FreedTable(y, k, all, maxPhys, limit, p, n, q);
      var l := Least(u.m.frames);
      assert l !in frames;
      var r: nat :| p <= r < p + n && Mapped(mem, k.pd, r) && TableFrame(mem, k.pd, r) == l;
      TableOfPage(mem, k.pd, r);
      assert SlotFrame(u.m.mem, k.pd, Table(r / 1024)) == Some(l);
    }
  }

  lemma FreedInBounds(y: System, k: Layout, all: set<nat>, maxPhys: int, limit: nat, p: nat, n: nat, f: nat)
    requires SystemOk(y, k, all) && Bounds(all, maxPhys, limit) && p + n <= BITMAP_SIZE
    requires f in y.kern.m.frames || GivenBack(y.kern.m.mem, k.pd, p, n, maxPhys, limit, f)
    ensures 0 < f * PAGE_SIZE < maxPhys && f * PAGE_SIZE / PAGE_SIZE == f
  {
    hide Unshared, SlotFrame;
  }

  lemma TableKept(y: System, k: Layout, all: set<nat>, i: nat)
    requires SystemOk(y, k, all) && SlotFrame(y.kern.m.mem, k.pd, Table(i)).Some?
    ensures SlotFrame(y.kern.m.mem, k.pd, Table(i)).value in all - y.kern.m.frames
  {
    hide Unshared, SlotFrame;
  }

  lemma FreedTable(y: System, k: Layout, all: set<nat>, maxPhys: int, limit: nat, p: nat, n: nat, q: nat)
    requires SystemOk(y, k, all) && Bounds(all, maxPhys, limit) && p + n <= BITMAP_SIZE
    requires p <= q < p + n && Mapped(y.kern.m.mem, k.pd, q)
    ensures GivenBack(y.kern.m.mem, k.pd, p, n, maxPhys, limit, TableFrame(y.kern.m.mem, k.pd, q))
  {
    hide Unshared, SlotFrame, TableFrame;
    TableOfPage(y.kern.m.mem, k.pd, q);
    TableKept(y, k, all, q / 1024);
  }

  lemma TableOfPage(mem: Memory, pd: nat, q: nat)
    requires pd < BITMAP_SIZE && q < BITMAP_SIZE && Mapped(mem, pd, q)
    ensures SlotFrame(mem, pd, Table(q / 1024)) == Some(TableFrame(mem, pd, q))
  {
  }

  /** So when a successful call of vma_alloc has created a page table, freeing what it returned makes the next
      pfa_alloc hand out a page table that the directory still names. */
  lemma AllocateThenFreeReuses(y: System, k: Layout, all: set<nat>, maxPhys: int, limit: nat, bytes: Word, hint: Word)
    requires SystemOk(y, k, all) && Bounds(all, maxPhys, limit)
    requires bytes <= 0xFFFF_F000 && Allocate(y.kern, k, bytes, hint).1 != 0
    requires AbsentTables(y.kern.m.mem, k.pd, Allocate(y.kern, k, bytes, hint).1 / PAGE_SIZE, NumPages(bytes)) != {}
    ensures var (t, v) := Allocate(y.kern, k, bytes, hint);
            && v / PAGE_SIZE + NumPages(bytes) <= BITMAP_SIZE
            && HandsOutTable(Deallocate(t, k, v, bytes, maxPhys, limit), k, maxPhys)
  {
    hide MapRange, UnmapRange, Unshared, SlotFrame, Deallocate, HandsOutTable;
    AllocateCases(y.kern, k, bytes, hint);
    var (t, v) := Allocate(y.kern, k, bytes, hint);
    var start, n := FirstFit(y.kern.pages, NumPages(bytes), HintPage(hint)), NumPages(bytes);
    NumPagesCovers(bytes);
    FitsOwn(y.kern, k, start, n);
    RangeStepOk(y, k, all, bytes, hint);
    MapRangeTakesLowest(y.kern.m, k, start, n);
    var i :| i in AbsentTables(y.kern.m.mem, k.pd, start, n);
    CreatedTableLowest(y.kern, t, k, start, n, i);
    FreedTableReused(System(t, y.held), k, all, maxPhys, limit, v, bytes);
  }

  lemma CreatedTableLowest(s: Kernel, t: Kernel, k: Layout, start: nat, n: nat, i: nat)
    requires RangeOk(s.m, (t.m, true), k, start, n) && start + n <= BITMAP_SIZE
    requires forall q :: start <= q < start + n ==> Own(q / 1024)
    requires Lowest(s.m.frames, t.m.frames) && i in AbsentTables(s.m.mem, k.pd, start, n)
    ensures exists q: nat :: start <= q < start + n && TableLowest(t, k, q)
  {
    hide Unshared, SlotFrame, TableFrame;
    var q := if i * 1024 < start then start else i * 1024;
    assert q / 1024 == i && start <= q < start + n;
    PageBacked(s.m, t.m, k, start, n, q);
    PageWalkIsSlot(t.m.mem, k.pd, q);
    TableOfPage(t.m.mem, k.pd, q);
    assert SameOrFresh(s.m, t.m, k.pd, Table(i), Written(s.m.mem, k.pd, start, n, Table(i)));
    var f := SlotFrame(t.m.mem, k.pd, Table(i)).value;
    assert HeldFrame(t.m.frames, k, f);
    assert f in s.m.frames - t.m.frames;
    assert TableLowest(t, k, q);
  }
}
