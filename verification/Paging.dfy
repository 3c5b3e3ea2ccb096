/** Two-level paging over physical memory: the walk of section 4.3 of the Intel
    SDM Volume 3A (32-bit paging, 4 KB pages), the boot mapping (src/boot.nasm)
    and the self-map (src/memory/memory.h, src/memory/vma.h). */
module Paging {
  import opened Bitmap

  const MEM_WORDS := 0x4000_0000      // 4 GB of 32-bit words
  const TEMP_MAP_ADDR := 0xC03F_F000  // last entry of the kernel's first table
  const PD_BASE_VADDR := 0xFFC0_0000

  /** Physical memory, word by word. */
  type Memory = m: seq<Word> | |m| == 0x4000_0000 ghost witness seq(0x4000_0000, _ => 0)

  datatype Option<T> = None | Some(value: T)

  // ---------------------------------------------------------------- entries

  /** Word i of frame f. */
  function Entry(mem: Memory, f: nat, i: nat): Word
    requires f < BITMAP_SIZE && i < 1024
  {
    mem[f * 1024 + i]
  }

  function SetEntry(mem: Memory, f: nat, i: nat, v: Word): Memory
    requires f < BITMAP_SIZE && i < 1024
  {
    mem[f * 1024 + i := v]
  }

  lemma SetEntryAt(mem: Memory, f: nat, i: nat, v: Word, g: nat, j: nat)
    requires f < BITMAP_SIZE && i < 1024 && g < BITMAP_SIZE && j < 1024
    ensures Entry(SetEntry(mem, f, i, v), g, j) == if g == f && j == i then v else Entry(mem, g, j)
  {
  }

  lemma SetEntryAll(mem: Memory, after: Memory, f: nat, i: nat, v: Word)
    requires f < BITMAP_SIZE && i < 1024 && after == SetEntry(mem, f, i, v)
    ensures forall g, j :: 0 <= g < BITMAP_SIZE && 0 <= j < 1024 ==>
              Entry(after, g, j) == if g == f && j == i then v else Entry(mem, g, j)
  {
    forall g, j | 0 <= g < BITMAP_SIZE && 0 <= j < 1024
      ensures Entry(after, g, j) == if g == f && j == i then v else Entry(mem, g, j)
    {
      SetEntryAt(mem, f, i, v, g, j);
    }
  }

  /** Present bit. */
  predicate Present(e: Word) {
    e % 2 == 1
  }

  /** The frame an entry names. */
  function FrameOf(e: Word): nat
    ensures FrameOf(e) < BITMAP_SIZE
  {
    e / PAGE_SIZE
  }

  /** A page-aligned address with bits 0 and 1 (present, writable) set. */
  function PresentEntry(f: nat): (e: Word)
    requires f < BITMAP_SIZE
    ensures Present(e) && FrameOf(e) == f
  {
    f * PAGE_SIZE + 3
  }

  /** A word with the present and writable bits or-ed in. */
  function WithFlags(w: Word): Word {
    w - w % 4 + 3
  }

  /** Or-ing the flags into a page address, or into an entry that has them, gives the entry. */
  lemma FlagsOf(f: nat)
    requires f < BITMAP_SIZE
    ensures WithFlags(f * PAGE_SIZE) == WithFlags(PresentEntry(f)) == PresentEntry(f)
  {
    FourTimes(f * 0x400, 0);
    FourTimes(f * 0x400, 3);
  }

  lemma FourTimes(q: nat, r: nat)
    requires r < 4
    ensures (4 * q + r) % 4 == r
  {
  }

  /** Entry i of frame f is present and names frame g. */
  predicate Names(mem: Memory, f: nat, i: nat, g: nat)
    requires f < BITMAP_SIZE && i < 1024
  {
    Present(Entry(mem, f, i)) && FrameOf(Entry(mem, f, i)) == g
  }

  // --------------------------------------------------------------- the walk

  /** The frame that page number p maps to in the directory at frame pd. */
  function PageWalk(mem: Memory, pd: nat, p: nat): Option<nat>
    requires pd < BITMAP_SIZE && p < BITMAP_SIZE
  {
    var pde := Entry(mem, pd, p / 1024);
    if !Present(pde) then None
    else
      var pte := Entry(mem, FrameOf(pde), p % 1024);
      if !Present(pte) then None else Some(FrameOf(pte))
  }

  /** The physical address that a virtual address translates to. */
  function Walk(mem: Memory, pd: nat, va: Word): Option<Word>
    requires pd < BITMAP_SIZE
  {
    var pde := Entry(mem, pd, va / 0x40_0000);
    if !Present(pde) then None
    else
      var pte := Entry(mem, FrameOf(pde), va / PAGE_SIZE % 1024);
      if !Present(pte) then None else Some(FrameOf(pte) * PAGE_SIZE + va % PAGE_SIZE)
  }

  lemma WalkByPage(mem: Memory, pd: nat, va: Word)
    requires pd < BITMAP_SIZE
    ensures var f := PageWalk(mem, pd, va / PAGE_SIZE);
            Walk(mem, pd, va) == if f.None? then None else Some(f.value * PAGE_SIZE + va % PAGE_SIZE)
  {
    assert va / PAGE_SIZE / 1024 == va / 0x40_0000;
  }

  // ------------------------------------------------------------------ rights

  /** Bits 1 and 2 of an entry allow writes and user accesses (section 4.6 of the same volume). */
  predicate WriteBit(e: Word) {
    e / 2 % 2 == 1
  }

  predicate UserBit(e: Word) {
    e / 4 % 2 == 1
  }

  /** The address is mapped and both entries of its translation allow writes. */
  predicate MayWrite(mem: Memory, pd: nat, va: Word)
    requires pd < BITMAP_SIZE
  {
    && Walk(mem, pd, va).Some?
    && WriteBit(Entry(mem, pd, va / 0x40_0000))
    && WriteBit(Entry(mem, FrameOf(Entry(mem, pd, va / 0x40_0000)), va / PAGE_SIZE % 1024))
  }

  /** And both allow accesses in user mode. */
  predicate MayUser(mem: Memory, pd: nat, va: Word)
    requires pd < BITMAP_SIZE
  {
    && Walk(mem, pd, va).Some?
    && UserBit(Entry(mem, pd, va / 0x40_0000))
    && UserBit(Entry(mem, FrameOf(Entry(mem, pd, va / 0x40_0000)), va / PAGE_SIZE % 1024))
  }

  /** A word whose low 12 bits are 3 is present, writable and closed to user mode. */
  lemma RightsBits(e: Word)
    requires e % 0x1000 == 3
    ensures Present(e) && WriteBit(e) && !UserBit(e)
  {
    var q := e / 0x1000;
    assert e / 2 == 2 * (0x400 * q) + 1;
    assert e / 4 == 2 * (0x200 * q);
    TwoTimes(0x400 * q, 1);
    TwoTimes(0x200 * q, 0);
  }

  lemma TwoTimes(q: nat, r: nat)
    requires r < 2
    ensures (2 * q + r) % 2 == r
  {
  }

  // ------------------------------------------------------------ the self-map

  /** Where the window shows table i. */
  function GetPt(i: nat): Word
    requires i < 1024
  {
    PD_BASE_VADDR + i * PAGE_SIZE
  }

  lemma GetPtIndices(i: nat, j: nat)
    requires i < 1024 && j < 1024
    ensures var va := GetPt(i) + 4 * j;
            va < WORD_LIMIT && va / 0x40_0000 == 1023 && va / PAGE_SIZE % 1024 == i && va % PAGE_SIZE == 4 * j
  {
    var va := GetPt(i) + 4 * j;
    assert va / PAGE_SIZE == 1023 * 1024 + i;
  }

  /** If entry 1023 names the directory's own frame, the window address of entry j of a present table i
      reaches exactly the physical word the walk of (i << 22) | (j << 12) reads as its page table entry. */
  lemma SelfMap(mem: Memory, pd: nat, i: nat, j: nat)
    requires pd < BITMAP_SIZE && i < 1024 && j < 1024
    requires var self := Entry(mem, pd, 1023); Present(self) && FrameOf(self) == pd
    requires Present(Entry(mem, pd, i))
    ensures Walk(mem, pd, GetPt(i) + 4 * j) == Some(FrameOf(Entry(mem, pd, i)) * PAGE_SIZE + 4 * j)
    ensures var va := i * 0x40_0000 + j * PAGE_SIZE;
            && va / 0x40_0000 == i && va / PAGE_SIZE % 1024 == j
            && (FrameOf(Entry(mem, pd, i)) * PAGE_SIZE + 4 * j) / 4 == FrameOf(Entry(mem, pd, i)) * 1024 + j
  {
    hide Entry;
    GetPtIndices(i, j);
    EntryIndices(i, j);
  }

  lemma EntryIndices(i: nat, j: nat)
    requires i < 1024 && j < 1024
    ensures var va := i * 0x40_0000 + j * PAGE_SIZE;
            va / 0x40_0000 == i && va / PAGE_SIZE % 1024 == j
  {
    assert i * 0x40_0000 + j * PAGE_SIZE == (i * 1024 + j) * PAGE_SIZE;
  }

  /** The window address of entry j of table i reaches that entry. */
  predicate WindowShows(mem: Memory, pd: nat, i: nat, j: nat)
    requires pd < BITMAP_SIZE && i < 1024 && j < 1024
  {
    Walk(mem, pd, GetPt(i) + 4 * j) == Some(FrameOf(Entry(mem, pd, i)) * PAGE_SIZE + 4 * j)
  }

  /** The window shows every present table exactly when the frame that entry 1023 names agrees with the
      directory on its present entries, as the directory itself does. */
  lemma SelfMapExact(mem: Memory, pd: nat)
    requires pd < BITMAP_SIZE && Present(Entry(mem, pd, 1023))
    ensures var f := FrameOf(Entry(mem, pd, 1023));
            (forall i, j :: 0 <= i < 1024 && 0 <= j < 1024 && Present(Entry(mem, pd, i)) ==> WindowShows(mem, pd, i, j))
            <==>
            (forall i :: 0 <= i < 1024 && Present(Entry(mem, pd, i)) ==> Names(mem, f, i, FrameOf(Entry(mem, pd, i))))
  {
    var f := FrameOf(Entry(mem, pd, 1023));
    forall i, j | 0 <= i < 1024 && 0 <= j < 1024
      ensures WindowShows(mem, pd, i, j) <==> Names(mem, f, i, FrameOf(Entry(mem, pd, i)))
    {
      GetPtIndices(i, j);
    }
    if forall i, j :: 0 <= i < 1024 && 0 <= j < 1024 && Present(Entry(mem, pd, i)) ==> WindowShows(mem, pd, i, j) {
      forall i | 0 <= i < 1024 && Present(Entry(mem, pd, i))
        ensures Names(mem, f, i, FrameOf(Entry(mem, pd, i)))
      {
        assert WindowShows(mem, pd, i, 0);
      }
    }
  }

  // ------------------------------------------------------------ boot mapping

  /** The state of the two paging structures when paging is turned on. */
  ghost predicate BootMapped(mem: Memory, pd: nat, pt: nat) {
    && pd < BITMAP_SIZE && pt < BITMAP_SIZE && pd != pt
    && (forall k :: 0 <= k < 1024 ==> Entry(mem, pt, k) == PresentEntry(k))
    && (forall k :: 0 <= k < 1024 ==> Entry(mem, pd, k) == if k == 0 || k == 768 then PresentEntry(pt) else 0)
  }

  /** The start-up code, with paging off: 1024 stores into the table, then two into the directory,
      which the loader has zeroed. */
  method Boot(mem: array<Word>, pd: nat, pt: nat)
    requires mem.Length == MEM_WORDS && pd < BITMAP_SIZE && pt < BITMAP_SIZE && pd != pt
    requires forall k :: 0 <= k < 1024 ==> Entry(mem[..], pd, k) == 0
    modifies mem
    ensures BootMapped(mem[..], pd, pt)
    ensures forall g, k :: 0 <= g < BITMAP_SIZE && 0 <= k < 1024 && g != pd && g != pt ==>
              Entry(mem[..], g, k) == old(Entry(mem[..], g, k))
  {
    ghost var m0 := mem[..];
    var edi, esi, ecx := pt * 1024, 0, 1024;
    while ecx > 0
      invariant 0 <= ecx <= 1024 && edi == pt * 1024 + (1024 - ecx) && esi == (1024 - ecx) * PAGE_SIZE
      invariant forall g, k :: 0 <= g < BITMAP_SIZE && 0 <= k < 1024 ==>
                  Entry(mem[..], g, k) == if g == pt && k < 1024 - ecx then PresentEntry(k) else Entry(m0, g, k)
    {
      ghost var m1 := mem[..];
      mem[edi] := esi + 3;
      assert mem[..] == SetEntry(m1, pt, 1024 - ecx, PresentEntry(1024 - ecx));
      SetEntryAll(m1, mem[..], pt, 1024 - ecx, PresentEntry(1024 - ecx));
      esi := esi + PAGE_SIZE;
      edi := edi + 1;
      ecx := ecx - 1;
    }
    var eax := pt * PAGE_SIZE + 3;
    ghost var m2 := mem[..];
    mem[pd * 1024] := eax;
    ghost var m3 := mem[..];
    assert m3 == SetEntry(m2, pd, 0, PresentEntry(pt));
    SetEntryAll(m2, m3, pd, 0, PresentEntry(pt));
    mem[pd * 1024 + 768] := eax;
    assert mem[..] == SetEntry(m3, pd, 768, PresentEntry(pt));
    SetEntryAll(m3, mem[..], pd, 768, PresentEntry(pt));
  }

  /** With the boot mapping, v and 0xC0000000 + v both reach v below 4 MB, and nothing else is mapped. */
  lemma BootWalk(mem: Memory, pd: nat, pt: nat, va: Word)
    requires BootMapped(mem, pd, pt)
    ensures Walk(mem, pd, va) ==
            if va < 0x40_0000 then Some(va)
            else if 0xC000_0000 <= va < 0xC040_0000 then Some(va - 0xC000_0000)
            else None
  {
    var i := va / 0x40_0000;
    assert Entry(mem, pd, i) == if i == 0 || i == 768 then PresentEntry(pt) else 0;
    assert Entry(mem, pt, va / PAGE_SIZE % 1024) == PresentEntry(va / PAGE_SIZE % 1024);
  }

  /** Both mappings are writable and closed to user mode: each entry is its frame's address plus 3. */
  lemma BootRights(mem: Memory, pd: nat, pt: nat, va: Word)
    requires BootMapped(mem, pd, pt) && (va < 0x40_0000 || 0xC000_0000 <= va < 0xC040_0000)
    ensures MayWrite(mem, pd, va) && !MayUser(mem, pd, va)
    ensures Entry(mem, pd, va / 0x40_0000) == pt * 0x1000 + 3
    ensures Entry(mem, pt, va / PAGE_SIZE % 1024) == va / PAGE_SIZE % 1024 * 0x1000 + 3
  {
    var i := va / 0x40_0000;
    assert Entry(mem, pd, i) == PresentEntry(pt);
    assert Entry(mem, pt, va / PAGE_SIZE % 1024) == PresentEntry(va / PAGE_SIZE % 1024);
    RightsBits(PresentEntry(pt));
    RightsBits(PresentEntry(va / PAGE_SIZE % 1024));
  }

  // -------------------------------------------- setup_recursive_pd, as written

  /** Stores entry 0 of the directory, with the flags, into entry 1023. */
  function SetupRecursivePd(mem: Memory, pd: nat): Memory
    requires pd < BITMAP_SIZE
  {
    SetEntry(mem, pd, 1023, WithFlags(Entry(mem, pd, 0)))
  }

  /** The window that this store opens after boot does not show the page tables: window page i is physical
      frame i. So it is the table of PDE i only where that table happens to be frame i; for the two boot
      entries that would need the kernel's first table to be frame 0 or 768. */
  lemma SetupRecursivePdWindow(mem: Memory, pd: nat, pt: nat, i: nat, j: nat)
    requires BootMapped(mem, pd, pt) && i < 1024 && j < 1024
    ensures var m := SetupRecursivePd(mem, pd);
            && FrameOf(Entry(m, pd, 1023)) == pt
            && Walk(m, pd, GetPt(i) + 4 * j) == Some(i * PAGE_SIZE + 4 * j)
            && (Present(Entry(m, pd, i)) && i != 1023 ==>
                  (Walk(m, pd, GetPt(i) + 4 * j) == Some(FrameOf(Entry(m, pd, i)) * PAGE_SIZE + 4 * j) <==> i == pt))
  {
    hide SetupRecursivePd, Entry;
    GetPtIndices(i, j);
    RecursiveEntries(mem, pd, pt, i);
  }

  lemma RecursiveEntries(mem: Memory, pd: nat, pt: nat, i: nat)
    requires BootMapped(mem, pd, pt) && i < 1024
    ensures var m := SetupRecursivePd(mem, pd);
            && Entry(m, pd, 1023) == PresentEntry(pt)
            && Entry(m, pt, i) == PresentEntry(i)
            && (i != 1023 ==> Entry(m, pd, i) == if i == 0 || i == 768 then PresentEntry(pt) else 0)
  {
    var m := SetupRecursivePd(mem, pd);
    assert Entry(mem, pd, 0) == PresentEntry(pt);
    FlagsOf(pt);
    assert m == SetEntry(mem, pd, 1023, PresentEntry(pt));
    SetEntryAt(mem, pd, 1023, PresentEntry(pt), pd, 1023);
    SetEntryAt(mem, pd, 1023, PresentEntry(pt), pt, i);
    SetEntryAt(mem, pd, 1023, PresentEntry(pt), pd, i);
  }
}
