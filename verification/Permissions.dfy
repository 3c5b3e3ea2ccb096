/** The words that vma_alloc and vma_free leave in the directory and in the page
    tables, flag bits included (src/memory/vma.h, src/memory/pfa.h). */
module Permissions {
  import opened Bitmap
  import FrameAllocator
  import opened Paging
  import opened Tables
  import opened Unmap
  import opened VirtualAllocator
  import opened VmaTheorems

  /** The word at a slot; 0 where there is no such word. */
  ghost function SlotWord(mem: Memory, pd: nat, s: Slot): Word
    requires pd < BITMAP_SIZE
  {
    match s
    case Table(i) => if Own(i) then Entry(mem, pd, i) else 0
    case Page(i, j) =>
      if Own(i) && j < 1024 && Present(Entry(mem, pd, i)) then Entry(mem, FrameOf(Entry(mem, pd, i)), j) else 0
  }

  lemma WordAndFrame(mem: Memory, pd: nat, s: Slot)
    requires pd < BITMAP_SIZE
    ensures SlotFrame(mem, pd, s).Some? <==> Present(SlotWord(mem, pd, s))
    ensures SlotFrame(mem, pd, s).Some? ==> SlotFrame(mem, pd, s).value == SlotWord(mem, pd, s) / 0x1000
  {
  }

  /** The word at slot s is as before, or it is 3 more than the address of a frame that was free. */
  ghost predicate Installed(m: Machine, t: Machine, pd: nat, s: Slot)
    requires pd < BITMAP_SIZE
  {
    var w := SlotWord(t.mem, pd, s);
    w == SlotWord(m.mem, pd, s) || (w % 0x1000 == 3 && w / 0x1000 in m.frames)
  }

  ghost predicate AllInstalled(m: Machine, t: Machine, pd: nat)
    requires pd < BITMAP_SIZE
  {
    t.frames <= m.frames && forall s :: Installed(m, t, pd, s)
  }

  lemma InstalledTwice(m: Machine, t: Machine, u: Machine, pd: nat)
    requires pd < BITMAP_SIZE && AllInstalled(m, t, pd) && AllInstalled(t, u, pd)
    ensures AllInstalled(m, u, pd)
  {
    hide SlotWord;
    forall s
      ensures Installed(m, u, pd, s)
    {
      assert Installed(m, t, pd, s) && Installed(t, u, pd, s);
    }
  }

  lemma NewTableWord(m: Machine, k: Layout, i: nat, s: Slot)
    requires Inv(m, k) && Own(i) && !Present(Entry(m.mem, k.pd, i)) && m.frames != {}
    ensures SlotWord(NewTable(m, k, i).mem, k.pd, s)
         == if s == Table(i) then FrameAllocator.Least(m.frames) * 0x1000 + 3 else SlotWord(m.mem, k.pd, s)
  {
    hide NewTable, Unshared;
    var f := FrameAllocator.Least(m.frames);
    if Own(s.i) {
      NewTableEntries(m, k, i, k.pd, s.i);
      match s
      case Table(_) =>
      case Page(a, b) =>
        if a == i {
          if b < 1024 {
            NewTableEntries(m, k, i, f, b);
          }
        } else if b < 1024 && Present(Entry(m.mem, k.pd, a)) {
          assert SlotFrame(m.mem, k.pd, Table(a)).Some?;
          NewTableEntries(m, k, i, FrameOf(Entry(m.mem, k.pd, a)), b);
        }
    }
  }

  lemma MapPageWord(m: Machine, k: Layout, i: nat, j: nat, s: Slot)
    requires Inv(m, k) && Own(i) && j < 1024 && Present(Entry(m.mem, k.pd, i)) && m.frames != {}
    ensures SlotWord(MapPage(m, k, i, j).mem, k.pd, s)
         == if s == Page(i, j) then FrameAllocator.Least(m.frames) * 0x1000 + 3 else SlotWord(m.mem, k.pd, s)
  {
    var f, t := FrameAllocator.Least(m.frames), FrameOf(Entry(m.mem, k.pd, i));
    assert SlotFrame(m.mem, k.pd, Table(i)) == Some(t);
    if Own(s.i) {
      SetEntryAt(m.mem, t, j, PresentEntry(f), k.pd, s.i);
      if s.Page? && s.j < 1024 && Present(Entry(m.mem, k.pd, s.i)) {
        var u := FrameOf(Entry(m.mem, k.pd, s.i));
        assert SlotFrame(m.mem, k.pd, Table(s.i)) == Some(u);
        assert s.i != i ==> Table(s.i) != Table(i) && u != t;
        SetEntryAt(m.mem, t, j, PresentEntry(f), u, s.j);
      }
    }
  }

  lemma BackPageInstalls(m: Machine, k: Layout, p: nat)
    requires Inv(m, k) && p < BITMAP_SIZE && Own(p / 1024)
    ensures AllInstalled(m, BackPage(m, k, p).0, k.pd)
  {
    hide NewTable, SlotWord, Unshared;
    var i, j := p / 1024, p % 1024;
    var t := WithTable(m, k, i);
    WithTableOk(m, k, i);
    forall s
      ensures Installed(m, t, k.pd, s)
    {
      if !Present(Entry(m.mem, k.pd, i)) && m.frames != {} {
        NewTableWord(m, k, i, s);
      } else {
        NoNewTable(m, k, i);
      }
    }
    if t.frames != {} {
      MapPageFrames(t, k, i, j);
      forall s
        ensures Installed(t, MapPage(t, k, i, j), k.pd, s)
      {
        hide MapPage;
        MapPageWord(t, k, i, j, s);
      }
      InstalledTwice(m, t, MapPage(t, k, i, j), k.pd);
    }
  }

  lemma NoNewTable(m: Machine, k: Layout, i: nat)
    requires Inv(m, k) && Own(i) && (Present(Entry(m.mem, k.pd, i)) || m.frames == {})
    ensures WithTable(m, k, i) == m
  {
  }

  /** The page loop stores nothing in the allocator's directory entries and tables but present, writable,
      supervisor entries for frames that were free: whatever its range, and however it ends. */
  lemma {:induction false} MapRangeInstalls(m: Machine, k: Layout, p: nat, n: nat)
    requires Inv(m, k) && p + n <= BITMAP_SIZE
    requires forall q :: p <= q < p + n ==> Own(q / 1024)
    ensures AllInstalled(m, MapRange(m, k, p, n).0, k.pd)
    decreases n
  {
    hide BackPage, Unshared, SlotWord, SlotFrame, Outcome;
    if n > 0 {
      assert Own(p / 1024);
      MapRangeTurn(m, k, p, n);
      BackPageInstalls(m, k, p);
      var (t, ok) := BackPage(m, k, p);
      if ok {
        BackPageOk(m, k, p);
        MapRangeInstalls(t, k, p + 1, n - 1);
        InstalledTwice(m, t, MapRange(t, k, p + 1, n - 1).0, k.pd);
      }
    }
  }

  // ------------------------------------------------------------------- runs

  /** Every word of the allocator's directory entries and tables is 0 or a frame address plus 3. */
  ghost predicate Clean(mem: Memory, pd: nat)
    requires pd < BITMAP_SIZE
  {
    forall s :: CleanWord(SlotWord(mem, pd, s))
  }

  predicate CleanWord(w: Word) {
    w == 0 || w % 0x1000 == 3
  }

  lemma InstalledClean(m: Machine, t: Machine, pd: nat)
    requires pd < BITMAP_SIZE && AllInstalled(m, t, pd) && Clean(m.mem, pd)
    ensures Clean(t.mem, pd)
  {
    hide SlotWord;
    forall s
      ensures CleanWord(SlotWord(t.mem, pd, s))
    {
      assert Installed(m, t, pd, s) && CleanWord(SlotWord(m.mem, pd, s));
    }
  }

  /** What a call of vma_alloc does to the words. */
  lemma AllocateInstalls(s: Kernel, k: Layout, bytes: Word, hint: Word)
    requires KernelOk(s, k)
    ensures AllInstalled(s.m, Allocate(s, k, bytes, hint).0.m, k.pd)
    ensures Clean(s.m.mem, k.pd) ==> Clean(Allocate(s, k, bytes, hint).0.m.mem, k.pd)
  {
    hide MapRange, Unshared, SlotWord, SlotFrame, Outcome, Clean;
    AllocateCases(s, k, bytes, hint);
    var n := NumPages(bytes);
    var start := FirstFit(s.pages, n, HintPage(hint));
    if bytes != 0 && start != -1 {
      FitsOwn(s, k, start, n);
      MapRangeInstalls(s.m, k, start, n);
    }
    if Clean(s.m.mem, k.pd) {
      InstalledClean(s.m, Allocate(s, k, bytes, hint).0.m, k.pd);
    }
  }

  /** After a successful call every address of the range may be written, in supervisor mode only, and the page
      table entry behind it is the address of its frame plus 3. */
  lemma AllocateRights(s: Kernel, k: Layout, bytes: Word, hint: Word, va: Word)
    requires KernelOk(s, k) && Clean(s.m.mem, k.pd) && Allocate(s, k, bytes, hint).1 != 0
    requires Within(va, Allocate(s, k, bytes, hint).1, NumPages(bytes))
    ensures var mem := Allocate(s, k, bytes, hint).0.m.mem;
            && MayWrite(mem, k.pd, va) && !MayUser(mem, k.pd, va)
            && Entry(mem, FrameOf(Entry(mem, k.pd, va / 0x40_0000)), va / PAGE_SIZE % 1024)
               == Walk(mem, k.pd, va).value - va % PAGE_SIZE + 3
  {
    hide MapRange, Unshared, SlotFrame, SlotWord, Outcome, Clean, Allocate;
    AllocateCases(s, k, bytes, hint);
    AllocateMaps(s, k, bytes, hint, va);
    AllocateInstalls(s, k, bytes, hint);
    assert Own(va / PAGE_SIZE / 1024);
    CleanRights(Allocate(s, k, bytes, hint).0.m.mem, k.pd, va);
  }

  lemma CleanRights(mem: Memory, pd: nat, va: Word)
    requires pd < BITMAP_SIZE && Clean(mem, pd) && Own(va / PAGE_SIZE / 1024) && Walk(mem, pd, va).Some?
    ensures MayWrite(mem, pd, va) && !MayUser(mem, pd, va)
    ensures Entry(mem, FrameOf(Entry(mem, pd, va / 0x40_0000)), va / PAGE_SIZE % 1024)
         == Walk(mem, pd, va).value - va % PAGE_SIZE + 3
  {
    var i, j := va / PAGE_SIZE / 1024, va / PAGE_SIZE % 1024;
    PageIndices(va);
    var pde := Entry(mem, pd, i);
    var pte := Entry(mem, FrameOf(pde), j);
    assert SlotWord(mem, pd, Table(i)) == pde && SlotWord(mem, pd, Page(i, j)) == pte;
    assert CleanWord(SlotWord(mem, pd, Table(i))) && CleanWord(SlotWord(mem, pd, Page(i, j)));
    RightsBits(pde);
    RightsBits(pte);
  }

  lemma StepClean(y: System, k: Layout, all: set<nat>, maxPhys: int, limit: nat, op: Op)
    requires SystemOk(y, k, all) && Clean(y.kern.m.mem, k.pd)
    ensures Clean(Step(y, k, maxPhys, limit, op).kern.m.mem, k.pd)
  {
    hide SlotWord, SlotFrame, Unshared, Allocate, Clean;
    if op.AllocRange? {
      AllocateInstalls(y.kern, k, op.bytes, op.hint);
    }
  }

  /** Over any run no other word ever appears in the allocator's directory entries and tables: all that is
      mapped there is writable and closed to user mode. */
  lemma {:induction false} RunClean(y: System, k: Layout, all: set<nat>, maxPhys: int, limit: nat, ops: seq<Op>)
    requires SystemOk(y, k, all) && Bounds(all, maxPhys, limit) && Clean(y.kern.m.mem, k.pd)
    ensures Clean(Run(y, k, all, maxPhys, limit, ops).kern.m.mem, k.pd)
    decreases |ops|
  {
    hide Step, Unshared, SlotFrame, SlotWord, Clean;
    if ops != [] {
      StepOk(y, k, all, maxPhys, limit, ops[0]);
      StepClean(y, k, all, maxPhys, limit, ops[0]);
      RunClean(Step(y, k, maxPhys, limit, ops[0]), k, all, maxPhys, limit, ops[1..]);
    }
  }

  /** The boot mapping, with the self-map entry set, is such a state. */
  lemma BootClean(mem: Memory, k: Layout)
    requires BootMapped(mem, k.pd, k.pt)
    ensures Clean(SetEntry(mem, k.pd, 1023, PresentEntry(k.pd)), k.pd)
  {
    var m := SetEntry(mem, k.pd, 1023, PresentEntry(k.pd));
    SetEntryAll(mem, m, k.pd, 1023, PresentEntry(k.pd));
    forall s
      ensures SlotWord(m, k.pd, s) == 0
    {
      if Own(s.i) {
        assert Entry(mem, k.pd, s.i) == 0;
      }
    }
  }

  // --------------------------------------------------------------- vma_free

  lemma UnmapPageWord(m: Machine, k: Layout, p: nat, maxPhys: int, limit: nat, s: Slot)
    requires MemOk(m.mem, k) && p < BITMAP_SIZE && Own(p / 1024)
    ensures SlotWord(UnmapPage(m, k, p, maxPhys, limit).mem, k.pd, s)
         == if s == Page(p / 1024, p % 1024) && Mapped(m.mem, k.pd, p) then 0 else SlotWord(m.mem, k.pd, s)
  {
    if Mapped(m.mem, k.pd, p) {
      var t := TableFrame(m.mem, k.pd, p);
      assert SlotFrame(m.mem, k.pd, Table(p / 1024)) == Some(t);
      if Own(s.i) {
        SetEntryAt(m.mem, t, p % 1024, 0, k.pd, s.i);
        if s.Page? && s.j < 1024 && Present(Entry(m.mem, k.pd, s.i)) {
          var u := FrameOf(Entry(m.mem, k.pd, s.i));
          assert SlotFrame(m.mem, k.pd, Table(s.i)) == Some(u);
          assert s.i != p / 1024 ==> Table(s.i) != Table(p / 1024) && u != t;
          SetEntryAt(m.mem, t, p % 1024, 0, u, s.j);
        }
      }
    }
  }

  /** vma_free zeroes the entries of the mapped pages of its range and leaves every other word. */
  lemma {:induction false} UnmapRangeWords(m: Machine, k: Layout, p: nat, n: nat, maxPhys: int, limit: nat, s: Slot)
    requires MemOk(m.mem, k) && p + n <= BITMAP_SIZE
    requires forall q :: p <= q < p + n ==> Own(q / 1024)
    ensures SlotWord(UnmapRange(m, k, p, n, maxPhys, limit).mem, k.pd, s)
         == if InPages(s, p, n) && SlotFrame(m.mem, k.pd, s).Some? then 0 else SlotWord(m.mem, k.pd, s)
    decreases n
  {
    hide UnmapPage, SlotWord, SlotFrame, Unshared;
    if n > 0 {
      assert Own(p / 1024);
      UnmapPageOk(m, k, p, maxPhys, limit);
      UnmapPageWord(m, k, p, maxPhys, limit, s);
      UnmapRangeWords(UnmapPage(m, k, p, maxPhys, limit), k, p + 1, n - 1, maxPhys, limit, s);
      InPagesStep(s, p, n);
    }
  }

  lemma InPagesStep(s: Slot, p: nat, n: nat)
    requires n > 0
    ensures InPages(s, p, n) <==> InPages(s, p + 1, n - 1) || s == Page(p / 1024, p % 1024)
    ensures !InPages(Page(p / 1024, p % 1024), p + 1, n - 1)
  {
  }
}
