/** Initialisation of the page frame allocator (src/memory/pfa.h): everything
    used, then the usable regions free, then the reservations. */
module PfaInit {
  import opened Bitmap
  import opened FrameAllocator
  import opened MemoryMap

  const KERNEL_SLACK := 0x10_0000   // 1 MB reserved after the kernel

  function SubWord(a: Word, b: Word): Word {
    (a - b) % WORD_LIMIT
  }

  lemma AddSub(a: Word, b: Word)
    ensures AddWord(a, SubWord(b, a)) == b
  {
  }

  /** The first page at or above an address, as the code rounds it. */
  function RoundUp(addr: Word): Word {
    AddWord(addr, PAGE_SIZE - 1) / PAGE_SIZE
  }

  /** Sizes the bit array from the highest usable address. */
  method GetMaxUsablePages(vm: VmBitmap, mbi: Info) returns (frames: Word)
    requires ValidInfo(mbi)
    modifies vm`maxPhysAddr, vm`totalFrames
    ensures mbi.HasMap() ==> && IsMaxUsable(Entries(mbi.mmap, 0), vm.maxPhysAddr)
                             && LimitOf(Entries(mbi.mmap, 0), vm.maxPhysAddr)
                             && frames == vm.totalFrames == vm.maxPhysAddr / PAGE_SIZE
    ensures !mbi.HasMap() ==>
              frames == 0 && vm.maxPhysAddr == old(vm.maxPhysAddr) && vm.totalFrames == old(vm.totalFrames)
  {
    if mbi.flags & INFO_MEM_MAP == 0 {
      return 0;
    }
    // first pass: display all regions
    ghost var visited := DisplayRegions(mbi);
    // second pass: usable memory statistics
    var maxUsableAddr, totalUsableKb := FindUsableMemoryBounds(mbi);
    vm.maxPhysAddr := maxUsableAddr;
    vm.totalFrames := vm.maxPhysAddr / PAGE_SIZE;
    return vm.totalFrames;
  }

  /** Step 1: everything that is scanned is marked used. */
  method InitBitmap(vm: VmBitmap, numFrames: Word)
    requires numFrames <= BITMAP_SIZE && vm.bitmap.Length == BITMAP_BYTES
    modifies vm`bitmapSize, vm.bitmap
    ensures vm.bitmapSize == BitmapBytes(numFrames)
    ensures forall f :: f in vm.Free() ==> f >= BITS_PER_BYTE * vm.bitmapSize
  {
    vm.bitmapSize := (numFrames + BITS_PER_BYTE - 1) / BITS_PER_BYTE;
    var i := 0;
    while i < vm.bitmapSize
      invariant i <= vm.bitmapSize == BitmapBytes(numFrames)
      invariant forall k :: 0 <= k < i ==> vm.bitmap[k] == 0xFF
    {
      vm.bitmap[i] := 0xFF;
      i := i + 1;
    }
    forall f | f in vm.Free()
      ensures f >= BITS_PER_BYTE * vm.bitmapSize
    {
      if f < BITS_PER_BYTE * vm.bitmapSize {
        ByteFull(vm.bitmap[..], f / BITS_PER_BYTE);
      }
    }
  }

  /** Step 2: the frames of the usable regions are marked free. */
  method MarkUsableMemory(vm: VmBitmap, mbi: Info)
    requires ValidInfo(mbi) && mbi.HasMap() && vm.bitmap.Length == BITMAP_BYTES
    requires MarksInBounds(Entries(mbi.mmap, 0))
    modifies vm.bitmap
    ensures forall f :: f in vm.Free() <==> f in old(vm.Free()) || Covered(Entries(mbi.mmap, 0), f)
  {
    hide Walking, WellFormed, Entries, ReadEntry, Covers, MarkEnd;
    WalkBegins(mbi.mmap);
    var mmap := mbi.mmapAddr;
    var mmapEnd := AddWord(mbi.mmapAddr, mbi.mmapLength);
    assert mmapEnd == mbi.mmapAddr + mbi.mmapLength;
    ghost var seen: seq<MapEntry>, off: nat := [], 0;
    while mmap < mmapEnd
      invariant mmap == mbi.mmapAddr + off
      invariant Walking(mbi.mmap, seen, off)
      invariant forall f :: f in vm.Free() <==> f in old(vm.Free()) || Covered(seen, f)
      decreases mmapEnd - mmap
    {
      WalkEnds(mbi.mmap, seen, off);
      WalkOn(mbi.mmap, seen, off);
      WalkVisits(mbi.mmap, seen, off);
      var e := ReadEntry(mbi.mmap, mmap - mbi.mmapAddr);
      MarkRegion(vm, e);
      CoveredStep(seen, e);
      NextEntryExact(mmap, e.size);
      seen, off := seen + [e], off + 4 + e.size;
      mmap := NextEntry(mmap, e.size);
    }
    WalkEnds(mbi.mmap, seen, off);
  }

  /** No usable region's cleared range leaves the bit buffer; MarkEndInBounds says exactly which do. */
  ghost predicate MarksInBounds(es: seq<MapEntry>) {
    forall e :: e in es && Marks(e) ==> MarkEnd(e) <= BITMAP_SIZE
  }

  lemma CoveredStep(es: seq<MapEntry>, e: MapEntry)
    ensures forall f :: Covered(es + [e], f) <==> Covered(es, f) || Covers(e, f)
  {
    var all := es + [e];
    forall f: nat
      ensures Covered(all, f) <==> Covered(es, f) || Covers(e, f)
    {
      assert all[|es|] == e;
      if Covered(es, f) {
        var i :| 0 <= i < |es| && Covers(es[i], f);
        assert all[i] == es[i];
      }
    }
  }

  /** The body of the marking pass for one entry. */
  method MarkRegion(vm: VmBitmap, e: MapEntry)
    requires vm.bitmap.Length == BITMAP_BYTES
    requires Marks(e) ==> MarkEnd(e) <= BITMAP_SIZE
    modifies vm.bitmap
    ensures forall f :: f in vm.Free() <==> f in old(vm.Free()) || Covers(e, f)
  {
    if e.kind == MEMORY_AVAILABLE {
      var base, length := e.addr, e.len;
      // only memory below 4 GB
      if base < WORD_LIMIT {
        if (base + length) % LIMIT64 > WORD_LIMIT {
          length := WORD_LIMIT - base; // truncate at 4 GB
        }
        var startFrame := base / PAGE_SIZE;
        var numFrames := (length / PAGE_SIZE) % WORD_LIMIT;
        assert numFrames == MarkLen(e);
        vm.MarkRangeFree(startFrame, numFrames);
      }
    }
  }

  /** Step 3: the NULL page, the EBDA, the VGA memory and the ROM area. */
  method ReserveSystemAreas(vm: VmBitmap)
    requires vm.bitmap.Length == BITMAP_BYTES
    modifies vm.bitmap
    ensures forall f :: f in vm.Free() <==> f in old(vm.Free()) && f != 0 && !(0x9F <= f < 0x100)
  {
    vm.Set(0); // NULL guard page
    vm.Set(0); // BIOS data area
    vm.MarkRangeUsed(0x9F000 / PAGE_SIZE, 16);
    vm.MarkRangeUsed(0xA0000 / PAGE_SIZE, 0x20000 / PAGE_SIZE);
    vm.MarkRangeUsed(0xC0000 / PAGE_SIZE, 0x40000 / PAGE_SIZE);
  }

  /** Step 4: the kernel's image and 1 MB after it. */
  method ReserveKernelMemory(vm: VmBitmap, kernelStart: Word, kernelEnd: Word)
    requires vm.bitmap.Length == BITMAP_BYTES
    modifies vm.bitmap
    ensures forall f :: f in vm.Free() <==> f in old(vm.Free()) && !InKernel(kernelStart, kernelEnd, f)
  {
    var reservedEnd := AddWord(kernelEnd, KERNEL_SLACK);
    var startFrame := kernelStart / PAGE_SIZE;
    var endFrame := RoundUp(reservedEnd);
    var numFrames := SubWord(endFrame, startFrame);
    AddSub(startFrame, endFrame);
    vm.MarkRangeUsed(startFrame, numFrames);
  }

  ghost predicate InKernel(kernelStart: Word, kernelEnd: Word, f: nat) {
    kernelStart / PAGE_SIZE <= f < RoundUp(AddWord(kernelEnd, KERNEL_SLACK))
  }

  /** Step 5: what the boot loader left behind. */
  method ReserveMultibootStructures(vm: VmBitmap, mbi: Info)
    requires ValidInfo(mbi) && vm.bitmap.Length == BITMAP_BYTES
    modifies vm.bitmap
    ensures forall f :: f in vm.Free() <==> f in old(vm.Free()) && !InMultiboot(mbi, f)
  {
    // 1. the frame numbered by the pointer it is given
    vm.Set(mbi.self / PAGE_SIZE);
    // 2. the memory map
    if mbi.flags & INFO_MEM_MAP != 0 {
      var mmapStartFrame := mbi.mmapAddr / PAGE_SIZE;
      var mmapPages := RoundUp(mbi.mmapLength);
      MapRangeInBounds(mbi);
      vm.MarkRangeUsed(mmapStartFrame, mmapPages);
    }
    // 3. modules
    label M: ghost var mid := vm.Free();
    if mbi.flags & INFO_MODS != 0 && mbi.modsCount > 0 {
      var i := 0;
      while i < mbi.modsCount
        invariant i <= mbi.modsCount
        invariant forall f :: f in vm.Free() <==> f in mid && !InModules(mbi.mods[..i], f)
      {
        var modStartFrame := mbi.mods[i].modStart / PAGE_SIZE;
        var modEndFrame := RoundUp(mbi.mods[i].modEnd);
        AddSub(modStartFrame, modEndFrame);
        ModulesStep(mbi.mods, i);
        vm.MarkRangeUsed(modStartFrame, SubWord(modEndFrame, modStartFrame));
        i := i + 1;
      }
      assert mbi.mods[..i] == mbi.mods;
    }
    // 4. the command line's frame
    if mbi.flags & INFO_CMDLINE != 0 {
      vm.Set(mbi.cmdline / PAGE_SIZE);
    }
  }

  lemma MapRangeInBounds(mbi: Info)
    requires ValidInfo(mbi) && mbi.HasMap()
    ensures AddWord(mbi.mmapAddr / PAGE_SIZE, RoundUp(mbi.mmapLength)) <= BITMAP_SIZE
  {
  }

  ghost predicate InModules(mods: seq<BootModule>, f: nat) {
    exists i :: 0 <= i < |mods| && InModule(mods[i], f)
  }

  ghost predicate InModule(m: BootModule, f: nat) {
    m.modStart / PAGE_SIZE <= f < RoundUp(m.modEnd)
  }

  lemma ModulesStep(mods: seq<BootModule>, i: nat)
    requires i < |mods|
    ensures forall f :: InModules(mods[..i + 1], f) <==> InModules(mods[..i], f) || InModule(mods[i], f)
  {
    forall f: nat
      ensures InModules(mods[..i + 1], f) <==> InModules(mods[..i], f) || InModule(mods[i], f)
    {
      assert mods[..i + 1][i] == mods[i];
      if InModules(mods[..i], f) {
        var k :| 0 <= k < i && InModule(mods[..i][k], f);
        assert mods[..i + 1][k] == mods[..i][k];
      }
      if InModules(mods[..i + 1], f) && !InModule(mods[i], f) {
        var k :| 0 <= k < i + 1 && InModule(mods[..i + 1][k], f);
        assert mods[..i][k] == mods[..i + 1][k];
      }
    }
  }

  ghost predicate InMultiboot(mbi: Info, f: nat) {
    || f == mbi.self / PAGE_SIZE
    || (mbi.HasMap() && InMap(mbi, f))
    || (mbi.HasMods() && mbi.modsCount > 0 && InModules(mbi.mods, f))
    || (mbi.HasCmdline() && f == mbi.cmdline / PAGE_SIZE)
  }

  /** The ranges the code reserves. */
  ghost predicate Reserved(mbi: Info, kernelStart: Word, kernelEnd: Word, f: nat) {
    || f == 0 || 0x9F <= f < 0x100
    || InKernel(kernelStart, kernelEnd, f)
    || InMultiboot(mbi, f)
  }

  // --------------------------------------------------------------- in bytes

  ghost predicate ByteOf(f: nat, a: nat) {
    f * 0x1000 <= a < (f + 1) * 0x1000
  }

  /** Frame f holds a byte of the addresses from lo up to hi. */
  ghost predicate Holds(f: nat, lo: nat, hi: nat) {
    exists a: nat :: lo <= a < hi && ByteOf(f, a)
  }

  lemma HoldsExact(f: nat, lo: nat, hi: nat)
    ensures Holds(f, lo, hi) <==> lo < hi && lo < (f + 1) * 0x1000 && f * 0x1000 < hi
  {
    if lo < hi && lo < (f + 1) * 0x1000 && f * 0x1000 < hi {
      assert ByteOf(f, if lo < f * 0x1000 then f * 0x1000 else lo);
    }
  }

  /** A frame that a region of type 1 makes usable: it lies below 4 GB and wholly within the region moved down to
      its page boundary. */
  ghost predicate UsableFrame(e: MapEntry, f: nat) {
    var top := if e.addr + e.len > 0x1_0000_0000 then 0x1_0000_0000 else e.addr + e.len;
    var start := e.addr - e.addr % 0x1000;
    && e.kind == 1 && e.addr < 0x1_0000_0000 && e.addr + e.len < LIMIT64
    && start <= f * 0x1000 && (f + 1) * 0x1000 <= start + (top - e.addr)
  }

  lemma CoversBytes(e: MapEntry, f: nat)
    requires Marks(e) ==> MarkEnd(e) <= BITMAP_SIZE
    ensures Covers(e, f) <==> UsableFrame(e, f)
  {
    if Marks(e) {
      if e.addr + e.len < LIMIT64 {
        MarkEndNoWrap(e);
      } else {
        MarkEndInBounds(e);
        MarkEndWrapped(e, e.addr + e.len - LIMIT64);
      }
    }
  }

  /** A frame kept for a boot module: it holds one of its bytes. A module that ends before it starts, within one
      page, takes that page. */
  ghost predicate ModuleFrame(m: BootModule, f: nat) {
    || Holds(f, m.modStart, m.modEnd)
    || (m.modEnd <= m.modStart && ByteOf(f, m.modStart) && f * 0x1000 < m.modEnd)
  }

  lemma RoundUpExact(addr: Word, f: nat)
    requires addr + 0xFFF < WORD_LIMIT
    ensures f < RoundUp(addr) <==> f * 0x1000 < addr
  {
    assert AddWord(addr, 0xFFF) == addr + 0xFFF;
  }

  lemma RoundDownExact(addr: Word, f: nat)
    ensures addr / PAGE_SIZE <= f <==> addr < (f + 1) * 0x1000
  {
  }

  lemma RangeBytes(lo: Word, hi: Word, f: nat)
    requires lo < hi && hi + 0xFFF < WORD_LIMIT
    ensures lo / PAGE_SIZE <= f < RoundUp(hi) <==> Holds(f, lo, hi)
  {
    RoundDownExact(lo, f);
    RoundUpExact(hi, f);
    HoldsExact(f, lo, hi);
  }

  lemma ModuleBytes(m: BootModule, f: nat)
    requires m.modEnd + 0xFFF < WORD_LIMIT
    ensures InModule(m, f) <==> ModuleFrame(m, f)
  {
    RoundDownExact(m.modStart, f);
    RoundUpExact(m.modEnd, f);
    HoldsExact(f, m.modStart, m.modEnd);
  }

  /** Every byte of a module is protected exactly when rounding up its end does not wrap: a module that reaches
      into the last page of the 32-bit addresses is not protected at all. */
  lemma ModuleKeptExact(m: BootModule)
    requires m.modStart < m.modEnd
    ensures (forall f: nat :: Holds(f, m.modStart, m.modEnd) ==> InModule(m, f)) <==> m.modEnd <= 0xFFFF_F000
  {
    if m.modEnd <= 0xFFFF_F000 {
      forall f: nat | Holds(f, m.modStart, m.modEnd)
        ensures InModule(m, f)
      {
        ModuleBytes(m, f);
      }
    } else {
      var f := m.modStart / PAGE_SIZE;
      HoldsExact(f, m.modStart, m.modEnd);
      assert Holds(f, m.modStart, m.modEnd) && !InModule(m, f);
    }
  }

  ghost predicate InMap(mbi: Info, f: nat) {
    mbi.mmapAddr / PAGE_SIZE <= f < AddWord(mbi.mmapAddr / PAGE_SIZE, RoundUp(mbi.mmapLength))
  }

  lemma MapBytes(mbi: Info, f: nat)
    requires mbi.mmapAddr + mbi.mmapLength < WORD_LIMIT && mbi.mmapLength + 0xFFF < WORD_LIMIT
    ensures var start := mbi.mmapAddr - mbi.mmapAddr % 0x1000;
            InMap(mbi, f) <==> Holds(f, start, start + mbi.mmapLength)
  {
    var first := mbi.mmapAddr / PAGE_SIZE;
    var start := mbi.mmapAddr - mbi.mmapAddr % 0x1000;
    assert start == first * 0x1000;
    assert AddWord(first, RoundUp(mbi.mmapLength)) == first + RoundUp(mbi.mmapLength);
    HoldsExact(f, start, start + mbi.mmapLength);
    if first <= f {
      RoundUpExact(mbi.mmapLength, f - first);
    }
  }

  /** The memory map itself is protected exactly when moving it down to its page boundary would not shorten the
      list of pages it touches. */
  lemma MapKeptExact(mbi: Info)
    requires mbi.mmapAddr + mbi.mmapLength < WORD_LIMIT && 0 < mbi.mmapLength && mbi.mmapLength + 0xFFF < WORD_LIMIT
    ensures (forall f: nat :: Holds(f, mbi.mmapAddr, mbi.mmapAddr + mbi.mmapLength) ==> InMap(mbi, f))
            <==> mbi.mmapAddr % 0x1000 + (mbi.mmapLength - 1) % 0x1000 < 0x1000
  {
    var lo, hi := mbi.mmapAddr, mbi.mmapAddr + mbi.mmapLength;
    var start := lo - lo % 0x1000;
    var last := (hi - 1) / 0x1000;
    HoldsExact(last, lo, hi);
    MapBytes(mbi, last);
    HoldsExact(last, start, start + mbi.mmapLength);
    LastPage(lo, mbi.mmapLength);
    forall f: nat | Holds(f, lo, hi) && InMap(mbi, last)
      ensures InMap(mbi, f)
    {
      HoldsExact(f, lo, hi);
      assert f <= last;
    }
  }

  lemma LastPage(lo: nat, n: nat)
    requires n > 0
    ensures (lo + n - 1) / 0x1000 * 0x1000 < lo - lo % 0x1000 + n <==> lo % 0x1000 + (n - 1) % 0x1000 < 0x1000
  {
    PageCarry(lo, n - 1);
  }

  /** The frame of the boot structure is reserved by the pointer that the start-up code passes, which is 3 GB
      above its physical address: the reserved frame is never the one that holds the structure. */
  lemma InfoFrameMissed(mbi: Info, f: nat)
    requires mbi.self >= 0xC000_0000 && ByteOf(f, mbi.self - 0xC000_0000)
    ensures f != mbi.self / PAGE_SIZE && mbi.self / PAGE_SIZE == f + 0xC_0000
  {
  }

  /** The 32-bit sums of the reservations do not wrap. */
  ghost predicate SumsFit(mbi: Info, kernelStart: Word, kernelEnd: Word) {
    && kernelStart <= kernelEnd && kernelEnd + 0x10_0000 + 0xFFF < WORD_LIMIT
    && (mbi.flags & 0x40 != 0 ==> mbi.mmapLength + 0xFFF < WORD_LIMIT)
    && (mbi.flags & 0x08 != 0 ==> forall i :: 0 <= i < |mbi.mods| ==> mbi.mods[i].modEnd + 0xFFF < WORD_LIMIT)
  }

  /** The frame holds a byte of something that is in use: the first page, 0x9F000 to 0xFFFFF, the kernel and 1 MB
      after it, the byte the structure's pointer names, the map moved down to its page boundary, a module, or the
      first byte of the command line. */
  ghost predicate InUse(mbi: Info, kernelStart: Word, kernelEnd: Word, f: nat) {
    || Holds(f, 0, 0x1000) || Holds(f, 0x9_F000, 0x10_0000)
    || Holds(f, kernelStart, kernelEnd + 0x10_0000)
    || ByteOf(f, mbi.self)
    || (mbi.flags & 0x40 != 0
        && var start := mbi.mmapAddr - mbi.mmapAddr % 0x1000; Holds(f, start, start + mbi.mmapLength))
    || (mbi.flags & 0x08 != 0 && exists i :: 0 <= i < |mbi.mods| && ModuleFrame(mbi.mods[i], f))
    || (mbi.flags & 0x04 != 0 && ByteOf(f, mbi.cmdline))
  }

  lemma ReservedBytes(mbi: Info, kernelStart: Word, kernelEnd: Word, f: nat)
    requires ValidInfo(mbi) && SumsFit(mbi, kernelStart, kernelEnd)
    ensures Reserved(mbi, kernelStart, kernelEnd, f) <==> InUse(mbi, kernelStart, kernelEnd, f)
  {
    hide Holds, InMap, InModule, ModuleFrame, RoundUp;
    HoldsExact(f, 0, 0x1000);
    HoldsExact(f, 0x9_F000, 0x10_0000);
    assert AddWord(kernelEnd, KERNEL_SLACK) == kernelEnd + 0x10_0000;
    RangeBytes(kernelStart, kernelEnd + 0x10_0000, f);
    ByteFrame(mbi.self, f);
    ByteFrame(mbi.cmdline, f);
    if mbi.flags & 0x40 != 0 {
      MapBytes(mbi, f);
    }
    if mbi.flags & 0x08 != 0 {
      ModulesBytes(mbi, f);
    }
  }

  lemma ByteFrame(a: Word, f: nat)
    ensures f == a / PAGE_SIZE <==> ByteOf(f, a)
  {
  }

  lemma ModulesBytes(mbi: Info, f: nat)
    requires forall i :: 0 <= i < |mbi.mods| ==> mbi.mods[i].modEnd + 0xFFF < WORD_LIMIT
    ensures InModules(mbi.mods, f) <==> exists i :: 0 <= i < |mbi.mods| && ModuleFrame(mbi.mods[i], f)
  {
    hide InModule, ModuleFrame;
    forall i | 0 <= i < |mbi.mods|
      ensures InModule(mbi.mods[i], f) <==> ModuleFrame(mbi.mods[i], f)
    {
      ModuleBytes(mbi.mods[i], f);
    }
  }

  ghost predicate UsableIn(es: seq<MapEntry>, f: nat) {
    exists i :: 0 <= i < |es| && UsableFrame(es[i], f)
  }

  /** The closed form in bytes: which frames initialisation leaves allocatable. */
  lemma AllocatableBytes(mbi: Info, kernelStart: Word, kernelEnd: Word, es: seq<MapEntry>, f: nat)
    requires ValidInfo(mbi) && SumsFit(mbi, kernelStart, kernelEnd) && MarksInBounds(es)
    ensures Covered(es, f) && !Reserved(mbi, kernelStart, kernelEnd, f)
            <==> UsableIn(es, f) && !InUse(mbi, kernelStart, kernelEnd, f)
  {
    hide Covers, UsableFrame, Reserved, InUse;
    ReservedBytes(mbi, kernelStart, kernelEnd, f);
    forall i | 0 <= i < |es|
      ensures Covers(es[i], f) <==> UsableFrame(es[i], f)
    {
      CoversBytes(es[i], f);
    }
  }

  /** Step 6: the number of free frames below totalFrames. */
  method CountFreeFrames(vm: VmBitmap) returns (freeCount: Word)
    requires vm.bitmap.Length == BITMAP_BYTES && vm.totalFrames <= BITMAP_SIZE
    ensures freeCount == |Below(vm.Free(), vm.totalFrames)|
  {
    freeCount := 0;
    assert Below(vm.Free(), 0) == {};
    var i := 0;
    while i < vm.totalFrames
      invariant i <= vm.totalFrames
      invariant freeCount == |Below(vm.Free(), i)| <= i
    {
      TestPage(vm.bitmap[..], i);
      BelowStep(vm.Free(), i);
      if vm.bitmap[i / BITS_PER_BYTE] & Mask(i % BITS_PER_BYTE) == 0 {
        freeCount := freeCount + 1;
      }
      i := i + 1;
    }
  }

  lemma BelowStep(s: set<nat>, i: nat)
    ensures |Below(s, i + 1)| == |Below(s, i)| + if i in s then 1 else 0
  {
    if i in s {
      assert Below(s, i + 1) == Below(s, i) + {i};
    } else {
      assert Below(s, i + 1) == Below(s, i);
    }
  }

  /** The closed form of initialisation. Without a memory map, or with less than one usable page, nothing
      is set up. Otherwise a frame can be allocated exactly when a usable region covers it and no
      reservation does, free_frames counts those below total_frames, and the allocator's invariant holds. */
  method InitPfa(vm: VmBitmap, mbi: Info, kernelStart: Word, kernelEnd: Word)
    requires ValidInfo(mbi) && vm.bitmap.Length == BITMAP_BYTES
    requires mbi.HasMap() ==> MarksInBounds(Entries(mbi.mmap, 0))
    modifies vm, vm.bitmap
    ensures !mbi.HasMap() ==> vm.totalFrames == 0 && vm.maxPhysAddr == old(vm.maxPhysAddr)
    ensures mbi.HasMap() ==> && LimitOf(Entries(mbi.mmap, 0), vm.maxPhysAddr)
                             && vm.totalFrames == vm.maxPhysAddr / PAGE_SIZE
    ensures vm.totalFrames == 0 ==>
              && vm.bitmap[..] == old(vm.bitmap[..]) && vm.bitmapSize == old(vm.bitmapSize)
              && vm.freeFrames == old(vm.freeFrames)
    ensures vm.totalFrames > 0 ==>
              && vm.bitmapSize == BitmapBytes(vm.totalFrames)
              && (forall f :: f in Allocatable(vm) <==>
                    Covered(Entries(mbi.mmap, 0), f) && !Reserved(mbi, kernelStart, kernelEnd, f))
              && Sound(Allocatable(vm), vm.maxPhysAddr)
              && vm.freeFrames == |Below(Allocatable(vm), vm.totalFrames)|
    ensures vm.totalFrames > 0 && SumsFit(mbi, kernelStart, kernelEnd) ==>
              forall f :: f in Allocatable(vm) <==>
                UsableIn(Entries(mbi.mmap, 0), f) && !InUse(mbi, kernelStart, kernelEnd, f)
  {
    hide LimitOf, UsableIn, InUse;
    var frames := GetMaxUsablePages(vm, mbi);
    vm.totalFrames := frames;
    if vm.totalFrames == 0 {
      return;
    }
    InitBitmap(vm, vm.totalFrames);
    MarkUsableMemory(vm, mbi);
    ReserveSystemAreas(vm);
    ReserveKernelMemory(vm, kernelStart, kernelEnd);
    ReserveMultibootStructures(vm, mbi);
    vm.freeFrames := CountFreeFrames(vm);
    ClosedForm(vm, mbi, kernelStart, kernelEnd);
    if SumsFit(mbi, kernelStart, kernelEnd) {
      forall f: nat
        ensures Covered(Entries(mbi.mmap, 0), f) && !Reserved(mbi, kernelStart, kernelEnd, f)
                <==> UsableIn(Entries(mbi.mmap, 0), f) && !InUse(mbi, kernelStart, kernelEnd, f)
      {
        AllocatableBytes(mbi, kernelStart, kernelEnd, Entries(mbi.mmap, 0), f);
      }
    }
  }

  lemma ClosedForm(vm: VmBitmap, mbi: Info, kernelStart: Word, kernelEnd: Word)
    requires ValidInfo(mbi) && mbi.HasMap() && MarksInBounds(Entries(mbi.mmap, 0))
    requires IsMaxUsable(Entries(mbi.mmap, 0), vm.maxPhysAddr)
    requires vm.totalFrames == vm.maxPhysAddr / PAGE_SIZE && vm.bitmapSize == BitmapBytes(vm.totalFrames)
    requires forall f :: f in Allocatable(vm) ==>
               Covered(Entries(mbi.mmap, 0), f) && !Reserved(mbi, kernelStart, kernelEnd, f)
    requires forall f :: Covered(Entries(mbi.mmap, 0), f) && !Reserved(mbi, kernelStart, kernelEnd, f) ==>
               f in vm.Free()
    ensures forall f :: f in Allocatable(vm) <==>
              Covered(Entries(mbi.mmap, 0), f) && !Reserved(mbi, kernelStart, kernelEnd, f)
    ensures Sound(Allocatable(vm), vm.maxPhysAddr)
    ensures Below(vm.Free(), vm.totalFrames) == Below(Allocatable(vm), vm.totalFrames)
  {
    var es := Entries(mbi.mmap, 0);
    forall f: nat | Covered(es, f)
      ensures f < BITS_PER_BYTE * vm.bitmapSize && f * PAGE_SIZE < vm.maxPhysAddr
    {
      BitmapLargeEnough(es, vm.maxPhysAddr, f);
    }
  }
}
