/** What the page loop of vma_free (src/memory/vma.h) does to physical memory and
    to the allocatable frames. The entry of each mapped page is cleared, but the
    address handed to pfa_free is that of the page table. */
module Unmap {
  import opened Bitmap
  import opened FrameAllocator
  import opened Paging
  import opened Tables

  /** The part of the ownership invariant that does not speak of free frames. */
  ghost predicate MemOk(mem: Memory, k: Layout) {
    && KernelMapped(mem, k)
    && Unshared(mem, k.pd)
    && forall s :: SlotFrame(mem, k.pd, s).Some? ==>
                     SlotFrame(mem, k.pd, s).value != k.pd && SlotFrame(mem, k.pd, s).value != k.pt
  }

  lemma InvMemOk(m: Machine, k: Layout)
    requires Inv(m, k)
    ensures MemOk(m.mem, k)
  {
    forall s | SlotFrame(m.mem, k.pd, s).Some?
      ensures SlotFrame(m.mem, k.pd, s).value != k.pd && SlotFrame(m.mem, k.pd, s).value != k.pt
    {
      assert HeldFrame(m.frames, k, SlotFrame(m.mem, k.pd, s).value);
    }
  }

  predicate Mapped(mem: Memory, pd: nat, p: nat)
    requires pd < BITMAP_SIZE
  {
    SlotFrame(mem, pd, Page(p / 1024, p % 1024)).Some?
  }

  function TableFrame(mem: Memory, pd: nat, p: nat): nat
    requires pd < BITMAP_SIZE && p < BITMAP_SIZE
  {
    FrameOf(Entry(mem, pd, p / 1024))
  }

  /** One turn of the page loop, for a page of the allocator's own directory entries. */
  ghost function UnmapPage(m: Machine, k: Layout, p: nat, maxPhys: int, limit: nat): Machine
    requires k.pd < BITMAP_SIZE && p < BITMAP_SIZE
  {
    if !Mapped(m.mem, k.pd, p) then m
    else
      var t := TableFrame(m.mem, k.pd, p);
      Machine(SetEntry(m.mem, t, p % 1024, 0), Release(m.frames, t * PAGE_SIZE, maxPhys, limit))
  }

  ghost function UnmapRange(m: Machine, k: Layout, p: nat, n: nat, maxPhys: int, limit: nat): Machine
    requires k.pd < BITMAP_SIZE && p + n <= BITMAP_SIZE
    decreases n
  {
    if n == 0 then m
    else UnmapRange(UnmapPage(m, k, p, maxPhys, limit), k, p + 1, n - 1, maxPhys, limit)
  }

  lemma UnmapPageSlot(m: Machine, k: Layout, p: nat, maxPhys: int, limit: nat, s: Slot)
    requires MemOk(m.mem, k) && p < BITMAP_SIZE && Own(p / 1024)
    ensures SlotFrame(UnmapPage(m, k, p, maxPhys, limit).mem, k.pd, s)
         == if s == Page(p / 1024, p % 1024) then None else SlotFrame(m.mem, k.pd, s)
  {
    if Mapped(m.mem, k.pd, p) {
      var t := TableFrame(m.mem, k.pd, p);
      assert SlotFrame(m.mem, k.pd, Table(p / 1024)) == Some(t);
      if Own(s.i) {
        SetEntryAt(m.mem, t, p % 1024, 0, k.pd, s.i);
        if s.Page? && s.j < 1024 && Present(Entry(m.mem, k.pd, s.i)) {
          var u := FrameOf(Entry(m.mem, k.pd, s.i));
          assert SlotFrame(m.mem, k.pd, Table(s.i)) == Some(u);
          assert s.i != p / 1024 ==> Table(s.i) != Table(p / 1024) && u != t;
          SetEntryAt(m.mem, t, p % 1024, 0, u, s.j);
        }
      }
    }
  }

  lemma UnmapPageOk(m: Machine, k: Layout, p: nat, maxPhys: int, limit: nat)
    requires MemOk(m.mem, k) && p < BITMAP_SIZE && Own(p / 1024)
    ensures var t := UnmapPage(m, k, p, maxPhys, limit);
            && MemOk(t.mem, k)
            && (forall i :: 0 <= i < 1024 ==> Entry(t.mem, k.pd, i) == Entry(m.mem, k.pd, i))
            && (forall s :: SlotFrame(t.mem, k.pd, s)
                         == if s == Page(p / 1024, p % 1024) then None else SlotFrame(m.mem, k.pd, s))
  {
    var t := UnmapPage(m, k, p, maxPhys, limit);
    forall s
      ensures SlotFrame(t.mem, k.pd, s) == if s == Page(p / 1024, p % 1024) then None else SlotFrame(m.mem, k.pd, s)
    {
      UnmapPageSlot(m, k, p, maxPhys, limit, s);
    }
    if Mapped(m.mem, k.pd, p) {
      var f := TableFrame(m.mem, k.pd, p);
      assert SlotFrame(m.mem, k.pd, Table(p / 1024)) == Some(f);
      SetEntryAll(m.mem, t.mem, f, p % 1024, 0);
      forall a | 0 <= a < 1023
        ensures Names(t.mem, k.pt, a, a)
      {
        assert Names(m.mem, k.pt, a, a);
      }
    }
  }

  ghost predicate InPages(s: Slot, p: nat, n: nat) {
    s.Page? && s.j < 1024 && p <= s.i * 1024 + s.j < p + n
  }

  /** Frame f is the table of a mapped page of the range, and pfa_free accepts it. */
  ghost predicate GivenBack(mem: Memory, pd: nat, p: nat, n: nat, maxPhys: int, limit: nat, f: nat)
    requires pd < BITMAP_SIZE && p + n <= BITMAP_SIZE
  {
    && 0 < f < limit && f * PAGE_SIZE < maxPhys
    && exists q: nat :: p <= q < p + n && Mapped(mem, pd, q) && TableFrame(mem, pd, q) == f
  }

  /** The page loop of vma_free: every entry of the range ends up absent and no other slot changes; what
      becomes free are the page tables of the mapped pages, and nothing else. */
  lemma {:induction false} UnmapRangeOk(m: Machine, k: Layout, p: nat, n: nat, maxPhys: int, limit: nat)
    requires MemOk(m.mem, k) && p + n <= BITMAP_SIZE
    requires forall q :: p <= q < p + n ==> Own(q / 1024)
    ensures var t := UnmapRange(m, k, p, n, maxPhys, limit);
            && MemOk(t.mem, k)
            && (forall s :: SlotFrame(t.mem, k.pd, s) == if InPages(s, p, n) then None else SlotFrame(m.mem, k.pd, s))
            && (forall f :: f in t.frames <==> f in m.frames || GivenBack(m.mem, k.pd, p, n, maxPhys, limit, f))
    decreases n
  {
    hide UnmapPage, SlotFrame;
    if n > 0 {
      assert Own(p / 1024);
      UnmapPageOk(m, k, p, maxPhys, limit);
      var t := UnmapPage(m, k, p, maxPhys, limit);
      UnmapRangeOk(t, k, p + 1, n - 1, maxPhys, limit);
      forall f: nat
        ensures f in t.frames || GivenBack(t.mem, k.pd, p + 1, n - 1, maxPhys, limit, f)
           <==> f in m.frames || GivenBack(m.mem, k.pd, p, n, maxPhys, limit, f)
      {
        GivenBackStep(m, t, k, p, n, maxPhys, limit, f);
      }
    }
  }

  lemma GivenBackStep(m: Machine, t: Machine, k: Layout, p: nat, n: nat, maxPhys: int, limit: nat, f: nat)
    requires k.pd < BITMAP_SIZE && n > 0 && p + n <= BITMAP_SIZE
    requires t == UnmapPage(m, k, p, maxPhys, limit)
    requires forall i :: 0 <= i < 1024 ==> Entry(t.mem, k.pd, i) == Entry(m.mem, k.pd, i)
    requires forall s :: SlotFrame(t.mem, k.pd, s)
                      == if s == Page(p / 1024, p % 1024) then None else SlotFrame(m.mem, k.pd, s)
    ensures f in t.frames || GivenBack(t.mem, k.pd, p + 1, n - 1, maxPhys, limit, f)
       <==> f in m.frames || GivenBack(m.mem, k.pd, p, n, maxPhys, limit, f)
  {
    hide SlotFrame, Release;
    ReleaseTable(m.frames, TableFrame(m.mem, k.pd, p), maxPhys, limit);
    if GivenBack(t.mem, k.pd, p + 1, n - 1, maxPhys, limit, f) {
      var q: nat :| p + 1 <= q < p + n && Mapped(t.mem, k.pd, q) && TableFrame(t.mem, k.pd, q) == f;
      OtherPageKept(m, t, k, p, q);
    }
    if GivenBack(m.mem, k.pd, p, n, maxPhys, limit, f) {
      var q: nat :| p <= q < p + n && Mapped(m.mem, k.pd, q) && TableFrame(m.mem, k.pd, q) == f;
      if q != p {
        OtherPageKept(m, t, k, p, q);
      }
    }
  }

  lemma OtherPageKept(m: Machine, t: Machine, k: Layout, p: nat, q: nat)
    requires k.pd < BITMAP_SIZE && p < BITMAP_SIZE && q < BITMAP_SIZE && q != p
    requires forall i :: 0 <= i < 1024 ==> Entry(t.mem, k.pd, i) == Entry(m.mem, k.pd, i)
    requires forall s :: SlotFrame(t.mem, k.pd, s)
                      == if s == Page(p / 1024, p % 1024) then None else SlotFrame(m.mem, k.pd, s)
    ensures Mapped(t.mem, k.pd, q) == Mapped(m.mem, k.pd, q)
    ensures TableFrame(t.mem, k.pd, q) == TableFrame(m.mem, k.pd, q)
  {
    hide SlotFrame;
    assert Page(q / 1024, q % 1024) != Page(p / 1024, p % 1024);
  }

  /** Giving back the address of frame t frees t, if the allocator accepts it. */
  lemma ReleaseTable(free: set<nat>, t: nat, maxPhys: int, limit: nat)
    requires t < BITMAP_SIZE
    ensures Release(free, t * PAGE_SIZE, maxPhys, limit)
         == if 0 < t < limit && t * PAGE_SIZE < maxPhys then free + {t} else free
  {
    assert t * PAGE_SIZE / PAGE_SIZE == t;
  }
}
