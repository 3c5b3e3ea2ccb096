/** The virtual allocator (src/memory/vma.h) and alloc_new_pt (src/memory/pfa.h)
    as they run: every load and store is a virtual access that the walk
    translates, so the directory is reached through the identity mapping, a new
    table through the temporary slot and an existing table through the
    self-map. */
module VirtualAllocator {
  import opened Bitmap
  import opened FrameAllocator
  import opened Paging
  import opened Tables
  import opened Unmap

  /** ceil(bytes / 4096), with the 32-bit sum of the code. */
  function NumPages(bytes: Word): nat {
    AddWord(bytes, PAGE_SIZE - 1) / PAGE_SIZE
  }

  /** The page count covers the request, and is the least that does, exactly for requests up to
      0xFFFFF000 bytes; above that the sum wraps and the count is 0. */
  lemma NumPagesCovers(bytes: Word)
    ensures NumPages(bytes) * PAGE_SIZE >= bytes <==> bytes <= 0xFFFF_F000
    ensures bytes <= 0xFFFF_F000 ==> NumPages(bytes) * PAGE_SIZE < bytes + PAGE_SIZE
    ensures bytes > 0xFFFF_F000 ==> NumPages(bytes) == 0
  {
  }

  /** The machine state together with the free pages of the virtual bit array. */
  datatype Kernel = Kernel(m: Machine, pages: set<nat>)

  ghost predicate KernelOk(s: Kernel, k: Layout) {
    && Inv(s.m, k)
    && forall p :: p in s.pages ==> p < BITMAP_SIZE && Own(p / 1024)
  }

  /** What vma_alloc does: the state after the call and the address returned. */
  ghost function Allocate(s: Kernel, k: Layout, bytes: Word, hint: Word): (Kernel, Word)
    requires KernelOk(s, k)
  {
    var n := NumPages(bytes);
    var start := FirstFit(s.pages, n, HintPage(hint));
    FirstFitIsLeast(s.pages, n, HintPage(hint));
    if bytes == 0 || start == -1 then (s, 0)
    else
      var (t, ok) := MapRange(s.m, k, start, n);
      if ok then (Kernel(t, s.pages - Range(start, start + n)), start * PAGE_SIZE)
      else (Kernel(t, s.pages), 0)
  }

  /** What vma_free does. */
  ghost function Deallocate(s: Kernel, k: Layout, virtStart: Word, bytes: Word, maxPhys: int, limit: nat): Kernel
    requires k.pd < BITMAP_SIZE && virtStart / PAGE_SIZE + NumPages(bytes) <= BITMAP_SIZE
  {
    var p, n := virtStart / PAGE_SIZE, NumPages(bytes);
    if bytes == 0 || virtStart == 0 then s
    else Kernel(UnmapRange(s.m, k, p, n, maxPhys, limit), s.pages + Range(p, p + n))
  }

  lemma FitsOwn(s: Kernel, k: Layout, start: nat, n: nat)
    requires KernelOk(s, k) && Fits(s.pages, start, n)
    ensures forall q :: start <= q < start + n ==> Own(q / 1024)
  {
    forall q | start <= q < start + n
      ensures Own(q / 1024)
    {
      assert q in s.pages;
    }
  }

  // ---------------------------------------------- where the accesses arrive

  /** The directory and the boot table are reached by identity. */
  lemma LowPages(mem: Memory, k: Layout)
    requires LowMapped(mem, k)
    ensures PageWalk(mem, k.pd, k.pd) == Some(k.pd)
    ensures PageWalk(mem, k.pd, k.pt) == Some(k.pt)
  {
    assert Names(mem, k.pt, k.pd, k.pd);
    assert Names(mem, k.pt, k.pt, k.pt);
  }

  lemma WindowPage(mem: Memory, k: Layout, i: nat)
    requires KernelMapped(mem, k) && i < 1024 && Present(Entry(mem, k.pd, i))
    ensures PageWalk(mem, k.pd, 1023 * 1024 + i) == Some(FrameOf(Entry(mem, k.pd, i)))
  {
    assert (1023 * 1024 + i) / 1024 == 1023 && (1023 * 1024 + i) % 1024 == i;
  }

  lemma SameMemory(a: Memory, b: Memory)
    requires forall g, j :: 0 <= g < BITMAP_SIZE && 0 <= j < 1024 ==> Entry(a, g, j) == Entry(b, g, j)
    ensures a == b
  {
    forall w | 0 <= w < |a|
      ensures a[w] == b[w]
    {
      assert Entry(a, w / 1024, w % 1024) == Entry(b, w / 1024, w % 1024);
    }
  }

  lemma WordAddr(p: nat, i: nat)
    requires p < BITMAP_SIZE && i < 1024
    ensures var va := p * PAGE_SIZE + 4 * i;
            va < WORD_LIMIT && va % 4 == 0 && va / PAGE_SIZE == p && va % PAGE_SIZE / 4 == i
  {
  }

  /** An access to entry j of window page i arrives at entry j of the table of directory entry i. */
  lemma WindowAccess(mem: Memory, k: Layout, i: nat, j: nat)
    requires KernelMapped(mem, k) && i < 1024 && j < 1024 && Present(Entry(mem, k.pd, i))
    ensures var va := GetPt(i) + 4 * j;
            && va < WORD_LIMIT && va % 4 == 0 && va % PAGE_SIZE / 4 == j
            && PageWalk(mem, k.pd, va / PAGE_SIZE) == Some(FrameOf(Entry(mem, k.pd, i)))
  {
    WordAddr(1023 * 1024 + i, j);
    WindowPage(mem, k, i);
  }

  /** An access to entry i of the directory at its identity-mapped address arrives there. */
  lemma DirectoryAccess(mem: Memory, k: Layout, i: nat)
    requires LowMapped(mem, k) && i < 1024
    ensures var va := k.pd * PAGE_SIZE + 4 * i;
            && va < WORD_LIMIT && va % 4 == 0 && va % PAGE_SIZE / 4 == i
            && PageWalk(mem, k.pd, va / PAGE_SIZE) == Some(k.pd)
  {
    WordAddr(k.pd, i);
    LowPages(mem, k);
  }

  /** A page of the kernel's own code and stack: linked at 0xC0000000 and up, within the 4 MB that the boot
      table maps below the temporary slot. */
  predicate KernelPage(p: nat) {
    p / 1024 == 768 && p % 1024 < 1023
  }

  class AddressSpace {
    const mem: array<Word>     // physical memory
    const k: Layout
    const pfa: VmBitmap        // physical frames
    const kernelVm: VmBitmap   // virtual pages
    const code: nat            // the page that the running code is in

    constructor (mem: array<Word>, k: Layout, pfa: VmBitmap, kernelVm: VmBitmap, code: nat)
      ensures this.mem == mem && this.k == k && this.pfa == pfa && this.kernelVm == kernelVm && this.code == code
    {
      this.mem, this.k, this.pfa, this.kernelVm, this.code := mem, k, pfa, kernelVm, code;
    }

    ghost predicate Wired()
      reads pfa
    {
      && mem.Length == MEM_WORDS
      && pfa.bitmap.Length == kernelVm.bitmap.Length == BITMAP_BYTES
      && pfa.bitmap != kernelVm.bitmap
      && pfa.bitmapSize <= BITMAP_BYTES
      && KernelPage(code)
    }

    ghost function State(): Machine
      requires Wired()
      reads mem, pfa, pfa.bitmap
    {
      Machine(mem[..], Allocatable(pfa))
    }

    ghost function KernelState(): Kernel
      requires Wired()
      reads mem, pfa, pfa.bitmap, kernelVm.bitmap
    {
      Kernel(State(), kernelVm.Free())
    }

    /** The machine part of Valid: all that alloc_new_pt and the page loop rely on. */
    ghost predicate MachineValid()
      reads mem, pfa, pfa.bitmap
    {
      && Wired()
      && Sound(Allocatable(pfa), pfa.maxPhysAddr)
      && Inv(State(), k)
    }

    ghost predicate Valid()
      reads mem, pfa, pfa.bitmap, kernelVm.bitmap
    {
      MachineValid() && KernelOk(KernelState(), k)
    }

    method Load(va: Word) returns (v: Word)
      requires mem.Length == MEM_WORDS && k.pd < BITMAP_SIZE
      requires va % 4 == 0 && PageWalk(mem[..], k.pd, va / PAGE_SIZE).Some?
      ensures v == Entry(mem[..], PageWalk(mem[..], k.pd, va / PAGE_SIZE).value, va % PAGE_SIZE / 4)
    {
      WalkByPage(mem[..], k.pd, va);
      var pa := Walk(mem[..], k.pd, va).value;
      v := mem[pa / 4];
    }

    method Store(va: Word, v: Word)
      requires mem.Length == MEM_WORDS && k.pd < BITMAP_SIZE
      requires va % 4 == 0 && PageWalk(mem[..], k.pd, va / PAGE_SIZE).Some?
      modifies mem
      ensures mem[..] == SetEntry(old(mem[..]), PageWalk(old(mem[..]), k.pd, va / PAGE_SIZE).value,
                                  va % PAGE_SIZE / 4, v)
    {
      WalkByPage(mem[..], k.pd, va);
      var pa := Walk(mem[..], k.pd, va).value;
      mem[pa / 4] := v;
    }

    method TempMap(physAddr: Word, ghost f: nat)
      requires mem.Length == MEM_WORDS && LowMapped(mem[..], k)
      requires f < BITMAP_SIZE && physAddr == f * PAGE_SIZE
      modifies mem
      ensures mem[..] == SetEntry(old(mem[..]), k.pt, 1023, PresentEntry(f))
      ensures Entry(mem[..], k.pt, 1023) == physAddr + 3
    {
      LowPages(mem[..], k);
      WordAddr(k.pt, 1023);
      FlagsOf(f);
      Store(k.pt * PAGE_SIZE + 4 * 1023, WithFlags(physAddr));
    }

    method TempUnmap()
      requires mem.Length == MEM_WORDS && LowMapped(mem[..], k)
      modifies mem
      ensures mem[..] == SetEntry(old(mem[..]), k.pt, 1023, 0)
    {
      LowPages(mem[..], k);
      WordAddr(k.pt, 1023);
      Store(k.pt * PAGE_SIZE + 4 * 1023, 0);
    }

    /** memset of the page seen through the temporary slot. */
    method ZeroTempPage(ghost f: nat)
      requires mem.Length == MEM_WORDS && KernelMapped(mem[..], k)
      requires f < BITMAP_SIZE && f != k.pd && f != k.pt && Names(mem[..], k.pt, 1023, f)
      modifies mem
      ensures mem[..] == ZeroFrame(old(mem[..]), f)
    {
      ghost var m0 := mem[..];
      var i := 0;
      while i < 1024
        invariant 0 <= i <= 1024
        invariant forall g, j :: 0 <= g < BITMAP_SIZE && 0 <= j < 1024 ==>
                    Entry(mem[..], g, j) == if g == f && j < i then 0 else Entry(m0, g, j)
        invariant KernelMapped(mem[..], k) && Names(mem[..], k.pt, 1023, f)
      {
        ghost var m1 := mem[..];
        WordAddr(0xC03FF, i);
        Store(TEMP_MAP_ADDR + 4 * i, 0);
        SetEntryAll(m1, mem[..], f, i, 0);
        KernelMappedOutside(m1, mem[..], k, f);
        i := i + 1;
      }
      ZeroFrameAll(m0, f);
      SameMemory(mem[..], ZeroFrame(m0, f));
    }

    /** pfa_alloc on sound bits: the lowest free frame, or 0 when there is none. */
    method TakeFrame() returns (addr: Word)
      requires Wired() && Sound(Allocatable(pfa), pfa.maxPhysAddr)
      modifies pfa.bitmap
      ensures Sound(Allocatable(pfa), pfa.maxPhysAddr)
      ensures if old(Allocatable(pfa)) == {} then addr == 0 && Allocatable(pfa) == {}
              else var f := Least(old(Allocatable(pfa)));
                   && f < BITMAP_SIZE && addr == f * PAGE_SIZE && addr != 0
                   && Allocatable(pfa) == old(Allocatable(pfa)) - {f}
    {
      AllocSound(Allocatable(pfa), pfa.maxPhysAddr);
      addr := PfaAlloc(pfa);
    }

    /** alloc_new_pt, for any entry; ok is false when the processor faults instead of returning. After the
        directory has been reloaded it has to fetch the next instruction and to reach the temporary slot; see
        CodeReachable and SlotReachable. */
    method AllocNewPt(pdeIndex: nat) returns (ok: bool)
      requires MachineValid() && pdeIndex < 1024
      modifies mem, pfa.bitmap
      ensures Sound(Allocatable(pfa), pfa.maxPhysAddr)
      ensures ok <==> old(State()).frames == {} || (pdeIndex != 0 && pdeIndex != 768)
      ensures ok ==> State() == NewTable(old(State()), k, pdeIndex)
      ensures ok && old(State()).frames != {} ==>
                && Entry(mem[..], k.pd, pdeIndex) == Least(old(State()).frames) * 0x1000 + 3
                && Entry(mem[..], k.pt, 1023) == 0
      ensures !ok ==> var f := Least(old(State()).frames);
                      && f < BITMAP_SIZE && State().frames == old(State()).frames - {f}
                      && State().mem == Linked(old(State()).mem, k, pdeIndex, f)
    {
      ghost var s := State();
      var ptPhys := TakeFrame();
      if ptPhys == 0 {
        return true;
      }
      ghost var f := Least(s.frames);
      TempMap(ptPhys, f);
      LinkTable(s, f, ptPhys, pdeIndex);
      SlotReachable(s.mem, k, pdeIndex, f);
      CodeReachable(s.mem, k, pdeIndex, f, code);
      if PageWalk(mem[..], k.pd, code).None? || PageWalk(mem[..], k.pd, k.pt).None? {
        return false;
      }
      TableLinked(s, k, pdeIndex);
      TempUnmap();
      NewTableEntries(s, k, pdeIndex, k.pd, pdeIndex);
      NewTableEntries(s, k, pdeIndex, k.pt, 1023);
      return true;
    }

    /** Zeroes the frame in the temporary slot and links it. */
    method LinkTable(ghost s: Machine, ghost f: nat, ptPhys: Word, pdeIndex: nat)
      requires mem.Length == MEM_WORDS && KernelMapped(s.mem, k) && pdeIndex < 1024
      requires s.frames != {} && f == Least(s.frames) && forall g :: g in s.frames ==> g < BITMAP_SIZE
      requires f != k.pd && f != k.pt && ptPhys == f * PAGE_SIZE
      requires mem[..] == SetEntry(s.mem, k.pt, 1023, PresentEntry(f))
      modifies mem
      ensures mem[..] == Linked(s.mem, k, pdeIndex, f)
    {
      hide ZeroFrame, SetEntry, PageWalk;
      SlotMapped(s.mem, mem[..], k, f);
      ZeroTempPage(f);
      DirectoryAccess(mem[..], k, pdeIndex);
      FlagsOf(f);
      Store(k.pd * PAGE_SIZE + 4 * pdeIndex, WithFlags(ptPhys));
    }

    /** One turn of the page loop of vma_alloc; ok is false when no frame is left. */
    method BackVirtualPage(virt: Word) returns (ok: bool)
      requires MachineValid() && virt % PAGE_SIZE == 0 && Own(virt / 0x40_0000)
      modifies mem, pfa.bitmap
      ensures MachineValid()
      ensures State() == BackPage(old(State()), k, virt / PAGE_SIZE).0
      ensures ok == BackPage(old(State()), k, virt / PAGE_SIZE).1
    {
      ghost var s := State();
      PageIndices(virt);
      var pdeIndex := virt / 0x40_0000;
      var pteIndex := virt / PAGE_SIZE % 1024;
      // make sure the table exists
      DirectoryAccess(mem[..], k, pdeIndex);
      var pde := Load(k.pd * PAGE_SIZE + 4 * pdeIndex);
      if pde % 2 == 0 {
        var done := AllocNewPt(pdeIndex);
      }
      ghost var t := WithTable(s, k, pdeIndex);
      WithTableOk(s, k, pdeIndex);
      BackPageOk(s, k, virt / PAGE_SIZE);
      ok := BackPresent(pdeIndex, pteIndex, t);
    }

    /** The frame for one page, and its entry written through the self-map. */
    method BackPresent(pdeIndex: nat, pteIndex: nat, ghost t: Machine) returns (ok: bool)
      requires Wired() && Sound(Allocatable(pfa), pfa.maxPhysAddr) && State() == t
      requires pdeIndex < 1024 && pteIndex < 1024 && KernelMapped(t.mem, k)
      requires t.frames != {} ==> Present(Entry(t.mem, k.pd, pdeIndex))
      modifies mem, pfa.bitmap
      ensures Sound(Allocatable(pfa), pfa.maxPhysAddr)
      ensures ok <==> t.frames != {}
      ensures !ok ==> State() == t
      ensures ok ==> (forall f :: f in t.frames ==> f < BITMAP_SIZE) && State() == MapPage(t, k, pdeIndex, pteIndex)
    {
      var pagePhys := TakeFrame();
      if pagePhys == 0 {
        return false;
      }
      WindowAccess(mem[..], k, pdeIndex, pteIndex);
      FlagsOf(Least(t.frames));
      Store(GetPt(pdeIndex) + 4 * pteIndex, WithFlags(pagePhys));
      return true;
    }

    /** vma_alloc. */
    method VmaAlloc(bytes: Word, hint: Word) returns (v: Word)
      requires Valid()
      modifies mem, pfa.bitmap, kernelVm.bitmap
      ensures Valid()
      ensures KernelState() == Allocate(old(KernelState()), k, bytes, hint).0
      ensures v == Allocate(old(KernelState()), k, bytes, hint).1
    {
      if bytes == 0 {
        return 0;
      }
      ghost var s := KernelState();
      var numPages: Word := AddWord(bytes, PAGE_SIZE - 1) / PAGE_SIZE;
      var start := kernelVm.FindFreeRange(numPages, hint);
      if start == -1 {
        return 0;
      }
      FirstFitIsLeast(s.pages, numPages, HintPage(hint));
      FitsOwn(s, k, start, numPages);
      RangeEnds(start, numPages);
      var virtStart: Word := start * PAGE_SIZE;
      kernelVm.MarkRangeUsed(start, numPages);
      var ok := BackRange(start, numPages);
      if !ok {
        // roll back the reservation
        kernelVm.MarkRangeFree(start, numPages);
        Restored(s.pages, start, numPages);
        return 0;
      }
      return virtStart;
    }

    /** The same turn, seen as one step of the loop over the n pages from page p. */
    method BackNext(virt: Word, ghost p: nat, ghost n: nat, ghost goal: (Machine, bool)) returns (ok: bool)
      requires MachineValid() && p < BITMAP_SIZE && virt == p * PAGE_SIZE && Own(p / 1024)
      requires 0 < n && p + n <= BITMAP_SIZE
      requires MapRange(State(), k, p, n) == goal
      modifies mem, pfa.bitmap
      ensures MachineValid()
      ensures ok ==> MapRange(State(), k, p + 1, n - 1) == goal
      ensures !ok ==> goal == (State(), false)
    {
      VirtOfPage(p);
      MapRangeTurn(State(), k, p, n);
      ok := BackVirtualPage(virt);
    }

    /** The page loop of vma_alloc. */
    method BackRange(start: Word, numPages: Word) returns (ok: bool)
      requires MachineValid() && start + numPages <= BITMAP_SIZE
      requires forall q :: start <= q < start + numPages ==> Own(q / 1024)
      modifies mem, pfa.bitmap
      ensures MachineValid()
      ensures State() == MapRange(old(State()), k, start, numPages).0
      ensures ok == MapRange(old(State()), k, start, numPages).1
    {
      hide BackPage, WithTable, NewTable, MapPage;
      ghost var p, n := start, numPages;
      ghost var goal := MapRange(State(), k, p, n);
      var page := 0;
      while page < numPages
        invariant 0 <= page <= numPages && p == start + page && n == numPages - page
        invariant MachineValid()
        invariant MapRange(State(), k, p, n) == goal
      {
        var virt := start * PAGE_SIZE + page * PAGE_SIZE;
        var backed := BackNext(virt, p, n, goal);
        p, n := p + 1, n - 1;
        if !backed {
          return false;
        }
        page := page + 1;
      }
      return true;
    }

    /** One turn of the page loop of vma_free. */
    method FreeVirtualPage(virt: Word)
      requires Wired() && MemOk(mem[..], k) && Own(virt / 0x40_0000)
      modifies mem, pfa.bitmap
      ensures MemOk(mem[..], k)
      ensures State() == UnmapPage(old(State()), k, virt / PAGE_SIZE, pfa.maxPhysAddr, BITS_PER_BYTE * pfa.bitmapSize)
    {
      PageIndices(virt);
      UnmapPageOk(State(), k, virt / PAGE_SIZE, pfa.maxPhysAddr, BITS_PER_BYTE * pfa.bitmapSize);
      var cleared := ClearIfPresent(virt / 0x40_0000, virt / PAGE_SIZE % 1024);
    }

    /** Its body: tests the table and the entry, clears the entry and frees the table's address. */
    method ClearIfPresent(pdeIndex: nat, pteIndex: nat) returns (cleared: bool)
      requires Wired() && KernelMapped(mem[..], k) && pdeIndex < 1024 && pteIndex < 1024
      modifies mem, pfa.bitmap
      ensures var pde := old(Entry(mem[..], k.pd, pdeIndex));
              && cleared == (Present(pde)
                             && Present(old(Entry(mem[..], FrameOf(Entry(mem[..], k.pd, pdeIndex)), pteIndex))))
              && State() == if !cleared then old(State())
                            else Machine(SetEntry(old(mem[..]), FrameOf(pde), pteIndex, 0),
                                         Release(old(Allocatable(pfa)), FrameOf(pde) * PAGE_SIZE,
                                                 pfa.maxPhysAddr, BITS_PER_BYTE * pfa.bitmapSize))
    {
      DirectoryAccess(mem[..], k, pdeIndex);
      var pde := Load(k.pd * PAGE_SIZE + 4 * pdeIndex);
      if pde % 2 == 0 {
        return false; // no table
      }
      var ptPhys := pde - pde % PAGE_SIZE;
      assert ptPhys == FrameOf(pde) * PAGE_SIZE;
      WindowAccess(mem[..], k, pdeIndex, pteIndex);
      var pte := Load(GetPt(pdeIndex) + 4 * pteIndex);
      if pte % 2 == 0 {
        return false; // not present
      }
      Store(GetPt(pdeIndex) + 4 * pteIndex, 0);
      PfaFree(pfa, ptPhys); // the table's address
      return true;
    }

    /** The page loop of vma_free. */
    method FreeRange(virtStart: Word, numPages: Word)
      requires Wired() && MemOk(mem[..], k)
      requires virtStart / PAGE_SIZE + numPages <= BITMAP_SIZE
      requires forall q :: virtStart / PAGE_SIZE <= q < virtStart / PAGE_SIZE + numPages ==> Own(q / 1024)
      modifies mem, pfa.bitmap
      ensures MemOk(mem[..], k)
      ensures State() == UnmapRange(old(State()), k, virtStart / PAGE_SIZE, numPages,
                                     pfa.maxPhysAddr, BITS_PER_BYTE * pfa.bitmapSize)
    {
      hide UnmapPage, Unshared;
      ghost var p, n := virtStart / PAGE_SIZE, numPages;
      ghost var goal := UnmapRange(State(), k, p, n, pfa.maxPhysAddr, BITS_PER_BYTE * pfa.bitmapSize);
      var page := 0;
      while page < numPages
        invariant 0 <= page <= numPages && p == virtStart / PAGE_SIZE + page && n == numPages - page
        invariant MemOk(mem[..], k)
        invariant UnmapRange(State(), k, p, n, pfa.maxPhysAddr, BITS_PER_BYTE * pfa.bitmapSize) == goal
      {
        VirtPlusPage(virtStart, page);
        var virt := virtStart + page * PAGE_SIZE;
        PageIndices(virt);
        FreeVirtualPage(virt);
        p, n := p + 1, n - 1;
        page := page + 1;
      }
    }

    /** vma_free. */
    method VmaFree(virtStart: Word, bytes: Word)
      requires Wired() && MemOk(mem[..], k)
      requires virtStart / PAGE_SIZE + NumPages(bytes) <= BITMAP_SIZE
      requires forall q :: virtStart / PAGE_SIZE <= q < virtStart / PAGE_SIZE + NumPages(bytes) ==> Own(q / 1024)
      modifies mem, pfa.bitmap, kernelVm.bitmap
      ensures MemOk(mem[..], k)
      ensures KernelState() == Deallocate(old(KernelState()), k, virtStart, bytes,
                                         pfa.maxPhysAddr, BITS_PER_BYTE * pfa.bitmapSize)
    {
      if bytes == 0 || virtStart == 0 {
        return;
      }
      var numPages: Word := AddWord(bytes, PAGE_SIZE - 1) / PAGE_SIZE;
      var startPage := virtStart / PAGE_SIZE;
      FreeRange(virtStart, numPages);
      RangeEnds(startPage, numPages);
      kernelVm.MarkRangeFree(startPage, numPages);
    }
  }

  lemma VirtPlusPage(virtStart: Word, page: nat)
    requires virtStart / PAGE_SIZE + page < BITMAP_SIZE
    ensures var virt := virtStart + page * PAGE_SIZE;
            virt < WORD_LIMIT && virt / PAGE_SIZE == virtStart / PAGE_SIZE + page
  {
  }

  lemma VirtOfPage(p: nat)
    requires p < BITMAP_SIZE
    ensures var virt := p * PAGE_SIZE;
            virt < WORD_LIMIT && virt % PAGE_SIZE == 0 && virt / PAGE_SIZE == p && virt / 0x40_0000 == p / 1024
  {
  }

  lemma Restored(pages: set<nat>, start: nat, n: nat)
    requires Fits(pages, start, n)
    ensures pages - Range(start, start + n) + Range(start, start + n) == pages
  {
  }

  lemma PageIndices(virt: Word)
    ensures virt / PAGE_SIZE / 1024 == virt / 0x40_0000 && virt / PAGE_SIZE < BITMAP_SIZE
  {
  }

  lemma RangeEnds(start: nat, n: Word)
    requires start + n <= BITMAP_SIZE
    ensures AddWord(start, n) == start + n
  {
  }

  /** The states alloc_new_pt goes through, up to the moment before it empties the temporary slot. */
  lemma SlotMapped(a: Memory, b: Memory, k: Layout, f: nat)
    requires KernelMapped(a, k) && f < BITMAP_SIZE && f != k.pd && f != k.pt
    requires b == SetEntry(a, k.pt, 1023, PresentEntry(f))
    ensures KernelMapped(b, k) && Names(b, k.pt, 1023, f)
    ensures KernelMapped(ZeroFrame(b, f), k)
  {
    SetEntryAt(a, k.pt, 1023, PresentEntry(f), k.pt, 1023);
    KernelMappedSlot(a, k, PresentEntry(f));
    ZeroFrameAll(b, f);
    KernelMappedOutside(b, ZeroFrame(b, f), k, f);
  }

  /** The memory when alloc_new_pt has linked frame f at entry i and the slot still names f. */
  ghost function Linked(mem: Memory, k: Layout, i: nat, f: nat): Memory
    requires k.pd < BITMAP_SIZE && k.pt < BITMAP_SIZE && i < 1024 && f < BITMAP_SIZE
  {
    SetEntry(ZeroFrame(SetEntry(mem, k.pt, 1023, PresentEntry(f)), f), k.pd, i, PresentEntry(f))
  }

  lemma LinkedEntry(mem: Memory, k: Layout, i: nat, f: nat, g: nat, j: nat)
    requires k.pd < BITMAP_SIZE && k.pt < BITMAP_SIZE && i < 1024 && f < BITMAP_SIZE && g < BITMAP_SIZE && j < 1024
    requires k.pd != k.pt && f != k.pd && f != k.pt
    ensures Entry(Linked(mem, k, i, f), g, j)
         == if g == k.pd && j == i then PresentEntry(f)
            else if g == f then 0
            else if g == k.pt && j == 1023 then PresentEntry(f)
            else Entry(mem, g, j)
  {
    var m1 := SetEntry(mem, k.pt, 1023, PresentEntry(f));
    SetEntryAt(mem, k.pt, 1023, PresentEntry(f), g, j);
    ZeroFrameAt(m1, f, g, j);
    SetEntryAt(ZeroFrame(m1, f), k.pd, i, PresentEntry(f), g, j);
  }

  /** At that moment the boot table, where the slot is to be emptied, is still mapped exactly when the entry is
      not 0: a new table for entry 0 takes the identity mapping away. */
  lemma SlotReachable(mem: Memory, k: Layout, i: nat, f: nat)
    requires KernelMapped(mem, k) && i < 1024 && f < BITMAP_SIZE && f != k.pd && f != k.pt
    ensures PageWalk(Linked(mem, k, i, f), k.pd, k.pt).Some? <==> i != 0
    ensures i != 0 ==> LowMapped(Linked(mem, k, i, f), k)
  {
    hide Linked;
    forall j | 0 <= j < 1024
      ensures j < 1023 ==> Names(Linked(mem, k, i, f), k.pt, j, j)
    {
      assert j < 1023 ==> Names(mem, k.pt, j, j);
      LinkedEntry(mem, k, i, f, k.pt, j);
    }
    LinkedEntry(mem, k, i, f, k.pd, 0);
    if i != 0 {
      LowPages(Linked(mem, k, i, f), k);
    } else {
      LinkedEntry(mem, k, i, f, f, k.pt);
      assert FrameOf(Entry(Linked(mem, k, i, f), k.pd, k.pt / 1024)) == f;
    }
  }

  /** At that moment the kernel's own code is still mapped exactly when the entry is not 768. */
  lemma CodeReachable(mem: Memory, k: Layout, i: nat, f: nat, p: nat)
    requires KernelMapped(mem, k) && i < 1024 && f < BITMAP_SIZE && f != k.pd && f != k.pt && KernelPage(p)
    ensures PageWalk(Linked(mem, k, i, f), k.pd, p).Some? <==> i != 768
    ensures i != 768 ==> PageWalk(Linked(mem, k, i, f), k.pd, p) == PageWalk(mem, k.pd, p)
  {
    hide Linked;
    assert Names(mem, k.pt, p % 1024, p % 1024);
    LinkedEntry(mem, k, i, f, k.pd, 768);
    LinkedEntry(mem, k, i, f, k.pt, p % 1024);
    LinkedEntry(mem, k, i, f, f, p % 1024);
  }

  lemma TableLinked(s: Machine, k: Layout, i: nat)
    requires KernelMapped(s.mem, k) && i < 1024 && s.frames != {} && forall g :: g in s.frames ==> g < BITMAP_SIZE
    requires Least(s.frames) != k.pd && Least(s.frames) != k.pt
    ensures SetEntry(Linked(s.mem, k, i, Least(s.frames)), k.pt, 1023, 0) == NewTable(s, k, i).mem
  {
    hide Linked, NewTable;
    var f := Least(s.frames);
    var m3 := Linked(s.mem, k, i, f);
    forall g, j | 0 <= g < BITMAP_SIZE && 0 <= j < 1024
      ensures Entry(SetEntry(m3, k.pt, 1023, 0), g, j) == Entry(NewTable(s, k, i).mem, g, j)
    {
      LinkedEntry(s.mem, k, i, f, g, j);
      SetEntryAt(m3, k.pt, 1023, 0, g, j);
      NewTableEntries(s, k, i, g, j);
    }
    SameMemory(SetEntry(m3, k.pt, 1023, 0), NewTable(s, k, i).mem);
  }

  /** Changing only a frame other than the two boot structures keeps the kernel's mapping. */
  lemma KernelMappedOutside(a: Memory, b: Memory, k: Layout, f: nat)
    requires KernelMapped(a, k) && f != k.pd && f != k.pt
    requires forall g, j :: 0 <= g < BITMAP_SIZE && 0 <= j < 1024 && g != f ==> Entry(b, g, j) == Entry(a, g, j)
    ensures KernelMapped(b, k)
  {
    forall i | 0 <= i < 1023
      ensures Names(b, k.pt, i, i)
    {
      assert Names(a, k.pt, i, i);
    }
  }

  /** So does a store to the temporary slot. */
  lemma KernelMappedSlot(a: Memory, k: Layout, v: Word)
    requires KernelMapped(a, k)
    ensures KernelMapped(SetEntry(a, k.pt, 1023, v), k)
  {
    var b := SetEntry(a, k.pt, 1023, v);
    SetEntryAll(a, b, k.pt, 1023, v);
    forall i | 0 <= i < 1023
      ensures Names(b, k.pt, i, i)
    {
      assert Names(a, k.pt, i, i);
    }
  }
}
