/** Putting the layers together: the boot mapping and init_pfa establish what the
    virtual allocator relies on (src/boot.nasm, src/memory/pfa.h, src/main.c). */
module Startup {
  import opened Bitmap
  import FrameAllocator
  import opened MemoryMap
  import opened PfaInit
  import opened Paging
  import opened Tables
  import opened VirtualAllocator
  import opened VmaTheorems
  import opened PdeRanges
  import opened Unmap

  /** A frame of the kernel's image is reserved by init_pfa: of the bootstrap part up to kernel_physical_end,
      and of the 1 MB after it, where the linker goes on with the rest of the image. */
  lemma KernelFrameReserved(mbi: Info, kernelStart: Word, kernelEnd: Word, f: nat)
    requires kernelStart <= f * PAGE_SIZE < kernelEnd + KERNEL_SLACK
    requires kernelEnd + KERNEL_SLACK + PAGE_SIZE <= WORD_LIMIT
    ensures Reserved(mbi, kernelStart, kernelEnd, f)
  {
    assert kernelStart / PAGE_SIZE <= f;
    assert AddWord(kernelEnd, KERNEL_SLACK) == kernelEnd + KERNEL_SLACK;
    assert RoundUp(AddWord(kernelEnd, KERNEL_SLACK)) * PAGE_SIZE >= kernelEnd + KERNEL_SLACK;
  }

  /** After the boot code and init_pfa, with a directory entry 1023 that names the directory and a virtual bit
      array whose free pages avoid the boot and self-map entries, the system invariant holds, with every
      allocatable frame free and nothing handed out, and so do the bounds on frames that runs rely on. */
  lemma StartOk(mem: Memory, k: Layout, vm: VmBitmap, mbi: Info, kernelStart: Word, kernelEnd: Word, pages: set<nat>)
    requires BootMapped(mem, k.pd, k.pt) && k.pd < 1023 && k.pt < 1023
    requires kernelStart <= k.pd * PAGE_SIZE < kernelEnd + KERNEL_SLACK
    requires kernelStart <= k.pt * PAGE_SIZE < kernelEnd + KERNEL_SLACK
    requires kernelEnd + KERNEL_SLACK + PAGE_SIZE <= WORD_LIMIT
    requires ValidInfo(mbi) && mbi.HasMap() && vm.bitmapSize <= BITMAP_BYTES
    requires FrameAllocator.Sound(FrameAllocator.Allocatable(vm), vm.maxPhysAddr)
    requires forall f :: f in FrameAllocator.Allocatable(vm) <==>
               Covered(Entries(mbi.mmap, 0), f) && !Reserved(mbi, kernelStart, kernelEnd, f)
    requires forall p :: p in pages ==> p < BITMAP_SIZE && Own(p / 1024)
    ensures var m, free := SetEntry(mem, k.pd, 1023, PresentEntry(k.pd)), FrameAllocator.Allocatable(vm);
            SystemOk(System(Kernel(Machine(m, free), pages), {}), k, free)
    ensures Bounds(FrameAllocator.Allocatable(vm), vm.maxPhysAddr, BITS_PER_BYTE * vm.bitmapSize)
  {
    var m := SetEntry(mem, k.pd, 1023, PresentEntry(k.pd));
    KernelFrameReserved(mbi, kernelStart, kernelEnd, k.pd);
    KernelFrameReserved(mbi, kernelStart, kernelEnd, k.pt);
    SetEntryAll(mem, m, k.pd, 1023, PresentEntry(k.pd));
    forall i | 0 <= i < 1023
      ensures Names(m, k.pt, i, i)
    {
      assert Entry(mem, k.pt, i) == PresentEntry(i);
    }
    assert Entry(mem, k.pd, 0) == Entry(mem, k.pd, 768) == PresentEntry(k.pt);
    forall s
      ensures SlotFrame(m, k.pd, s) == None
    {
      if Own(s.i) {
        assert Entry(mem, k.pd, s.i) == 0;
      }
    }
  }

  /** setup_recursive_pd as written never establishes that hypothesis: it makes entry 1023 name the first
      page table and not the directory, so the kernel's mapping is not the one vma_alloc relies on. */
  lemma SetupRecursivePdMisses(mem: Memory, k: Layout)
    requires BootMapped(mem, k.pd, k.pt)
    ensures var m := SetupRecursivePd(mem, k.pd);
            Names(m, k.pd, 1023, k.pt) && !Names(m, k.pd, 1023, k.pd) && !KernelMapped(m, k)
  {
    hide SetupRecursivePd, Entry;
    RecursiveEntries(mem, k.pd, k.pt, 1023);
  }

  /** The words of the page directory, as the directory summary reads them. */
  ghost function Directory(mem: Memory, pd: nat): seq<Word>
    requires pd < BITMAP_SIZE
  {
    seq(1024, i requires 0 <= i < 1024 => Entry(mem, pd, i))
  }

  /** The summary that kernel_main prints first, after setup_recursive_pd: 1021 free entries, the first of them 1,
      in the runs 1 to 767 and 769 to 1022. */
  lemma FirstSummary(mem: Memory, k: Layout)
    requires BootMapped(mem, k.pd, k.pt)
    ensures var dir := Directory(SetupRecursivePd(mem, k.pd), k.pd);
            && |FreeBelow(dir, 1024)| == 1021
            && 1 in FreeBelow(dir, 1024) && FreeBelow(dir, 1) == {}
            && forall runs :: AllRuns(dir, runs) <==> runs == [PdeRange(1, 767), PdeRange(769, 1022)]
  {
    hide FreeBelow, AllRuns, SetupRecursivePd;
    var dir := Directory(SetupRecursivePd(mem, k.pd), k.pd);
    forall i | 0 <= i < 1024
      ensures IsPdeFree(dir[i]) <==> 1 <= i <= 767 || 769 <= i <= 1022
    {
      RecursiveEntries(mem, k.pd, k.pt, i);
    }
    TwoRuns(dir, 769);
  }

  /** All pages that the virtual allocator may hand out. */
  ghost function OwnPages(): set<nat> {
    set p: nat | p < BITMAP_SIZE && Own(p / 1024)
  }

  /** The allocation of 2 MB that kernel_main makes, with the self-map in place, no page handed out and no table
      yet: with 513 free frames it returns 0xC0400000, takes 513 of them, and the summary printed next differs by
      entry 769. */
  lemma FirstAllocation(s: Kernel, k: Layout)
    requires KernelOk(s, k) && s.pages == OwnPages() && |s.m.frames| >= 513
    requires forall i :: Absent(s.m.mem, k.pd, i)
    ensures var (t, v) := Allocate(s, k, 0x20_0000, 0);
            var dir := Directory(t.m.mem, k.pd);
            && v == 0xC040_0000 && |t.m.frames| == |s.m.frames| - 513
            && |FreeBelow(dir, 1024)| == 1020
            && forall runs :: AllRuns(dir, runs) <==> runs == [PdeRange(1, 767), PdeRange(770, 1022)]
  {
    hide MapRange, Unshared, SlotFrame, Outcome, FreeBelow, AllRuns;
    FirstStart(s.pages);
    assert NumPages(0x20_0000) == 512;
    AllocateCases(s, k, 0x20_0000, 0);
    AllocateExact(s, k, 0x20_0000, 0);
    assert AbsentTables(s.m.mem, k.pd, 0xC0400, 512) == {769};
    var t := Allocate(s, k, 0x20_0000, 0).0;
    forall i | 0 <= i < 1024
      ensures IsPdeFree(Directory(t.m.mem, k.pd)[i]) <==> 1 <= i <= 767 || 770 <= i <= 1022
    {
      EntryAfter(s, t, k, i);
    }
    TwoRuns(Directory(t.m.mem, k.pd), 770);
  }

  /** The first fit for 512 pages in the high gigabyte is the first page after the kernel's own 4 MB. */
  lemma FirstStart(pages: set<nat>)
    requires pages == OwnPages()
    ensures FirstFit(pages, 512, HintPage(0)) == 0xC0400
  {
    FirstFitIsLeast(pages, 512, HintPage(0));
    assert Fits(pages, 0xC0400, 512);
    forall t: nat | 0xC0000 <= t < 0xC0400
      ensures !Fits(pages, t, 512)
    {
      assert t !in pages;
    }
  }

  lemma EntryAfter(s: Kernel, t: Kernel, k: Layout, i: nat)
    requires KernelOk(s, k) && RangeOk(s.m, (t.m, true), k, 0xC0400, 512) && i < 1024
    requires forall j :: Absent(s.m.mem, k.pd, j)
    ensures IsPdeFree(Entry(t.m.mem, k.pd, i)) <==> 1 <= i <= 767 || 770 <= i <= 1022
  {
    hide Unshared;
    assert SameOrFresh(s.m, t.m, k.pd, Table(i), Written(s.m.mem, k.pd, 0xC0400, 512, Table(i)));
    assert Absent(s.m.mem, k.pd, i);
    if i == 769 {
      PageBacked(s.m, t.m, k, 0xC0400, 512, 0xC0400);
      PageWalkIsSlot(t.m.mem, k.pd, 0xC0400);
    }
  }
}
