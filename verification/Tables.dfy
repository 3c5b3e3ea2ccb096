/** What growing the page tables does, as functions on physical memory and the
    set of allocatable frames: alloc_new_pt (src/memory/pfa.h) and the page loop
    of vma_alloc (src/memory/vma.h), with the ownership invariant they keep. */
module Tables {
  import opened Bitmap
  import opened FrameAllocator
  import opened Paging

  /** The frames of the boot page directory and of the boot page table. */
  datatype Layout = Layout(pd: nat, pt: nat)

  datatype Machine = Machine(mem: Memory, frames: set<nat>)

  /** Directory entries other than the two boot entries and the self-map. */
  predicate Own(i: nat) {
    i < 1024 && i != 0 && i != 768 && i != 1023
  }

  /** The identity mapping of the low 4 MB, but for the temporary slot, which is entry 1023 of the boot table. */
  ghost predicate LowMapped(mem: Memory, k: Layout) {
    && k.pd < 1023 && k.pt < 1023 && k.pd != k.pt
    && Names(mem, k.pd, 0, k.pt)
    && forall i :: 0 <= i < 1023 ==> Names(mem, k.pt, i, i)
  }

  /** The part of the mapping the kernel itself runs on. Entry 1023 naming the directory's own frame is
      the self-map that GET_PT relies on. */
  ghost predicate KernelMapped(mem: Memory, k: Layout) {
    LowMapped(mem, k) && Names(mem, k.pd, 768, k.pt) && Names(mem, k.pd, 1023, k.pd)
  }

  // ------------------------------------------------------------- ownership

  /** A place that can name a frame: directory entry i, or entry j of the table of directory entry i. */
  datatype Slot = Table(i: nat) | Page(i: nat, j: nat)

  function SlotFrame(mem: Memory, pd: nat, s: Slot): Option<nat>
    requires pd < BITMAP_SIZE
  {
    match s
    case Table(i) =>
      if Own(i) && Present(Entry(mem, pd, i)) then Some(FrameOf(Entry(mem, pd, i))) else None
    case Page(i, j) =>
      if Own(i) && j < 1024 && Present(Entry(mem, pd, i)) && Present(Entry(mem, FrameOf(Entry(mem, pd, i)), j))
      then Some(FrameOf(Entry(mem, FrameOf(Entry(mem, pd, i)), j))) else None
  }

  lemma PageWalkIsSlot(mem: Memory, pd: nat, p: nat)
    requires pd < BITMAP_SIZE && p < BITMAP_SIZE && Own(p / 1024)
    ensures PageWalk(mem, pd, p) == SlotFrame(mem, pd, Page(p / 1024, p % 1024))
  {
  }

  /** No frame named by a slot can be allocated or is one of the boot structures. */
  ghost predicate Held(m: Machine, k: Layout)
    requires k.pd < BITMAP_SIZE
  {
    && k.pd !in m.frames && k.pt !in m.frames
    && forall s :: SlotFrame(m.mem, k.pd, s).Some? ==> HeldFrame(m.frames, k, SlotFrame(m.mem, k.pd, s).value)
  }

  ghost predicate HeldFrame(frames: set<nat>, k: Layout, f: nat) {
    f !in frames && f != k.pd && f != k.pt
  }

  /** No two slots name the same frame. */
  ghost predicate Unshared(mem: Memory, pd: nat)
    requires pd < BITMAP_SIZE
  {
    forall s, t :: s != t && SlotFrame(mem, pd, s).Some? && SlotFrame(mem, pd, t).Some? ==>
                     SlotFrame(mem, pd, s) != SlotFrame(mem, pd, t)
  }

  ghost predicate Inv(m: Machine, k: Layout) {
    && KernelMapped(m.mem, k)
    && Held(m, k)
    && Unshared(m.mem, k.pd)
    && (forall f :: f in m.frames ==> 0 < f < BITMAP_SIZE)
  }

  // ------------------------------------------------------------- one table

  function ZeroFrame(mem: Memory, f: nat): Memory
    requires f < BITMAP_SIZE
  {
    seq(MEM_WORDS, w requires 0 <= w < MEM_WORDS => if f * 1024 <= w < f * 1024 + 1024 then 0 else mem[w])
  }

  lemma ZeroFrameAt(mem: Memory, f: nat, g: nat, j: nat)
    requires f < BITMAP_SIZE && g < BITMAP_SIZE && j < 1024
    ensures Entry(ZeroFrame(mem, f), g, j) == if g == f then 0 else Entry(mem, g, j)
  {
  }

  lemma ZeroFrameAll(mem: Memory, f: nat)
    requires f < BITMAP_SIZE
    ensures forall g, j :: 0 <= g < BITMAP_SIZE && 0 <= j < 1024 ==>
              Entry(ZeroFrame(mem, f), g, j) == if g == f then 0 else Entry(mem, g, j)
  {
    forall g, j | 0 <= g < BITMAP_SIZE && 0 <= j < 1024
      ensures Entry(ZeroFrame(mem, f), g, j) == if g == f then 0 else Entry(mem, g, j)
    {
      ZeroFrameAt(mem, f, g, j);
    }
  }

  /** alloc_new_pt: the lowest free frame, zeroed, becomes table i; the temporary slot ends up empty.
      Without a free frame nothing happens. */
  ghost function NewTable(m: Machine, k: Layout, i: nat): Machine
    requires k.pd < BITMAP_SIZE && k.pt < BITMAP_SIZE && i < 1024
    requires forall f :: f in m.frames ==> f < BITMAP_SIZE
  {
    if m.frames == {} then m
    else
      var f := Least(m.frames);
      Machine(SetEntry(SetEntry(ZeroFrame(m.mem, f), k.pd, i, PresentEntry(f)), k.pt, 1023, 0), m.frames - {f})
  }

  lemma NewTableEntries(m: Machine, k: Layout, i: nat, g: nat, j: nat)
    requires k.pd < BITMAP_SIZE && k.pt < BITMAP_SIZE && i < 1024 && g < BITMAP_SIZE && j < 1024
    requires forall f :: f in m.frames ==> f < BITMAP_SIZE
    requires m.frames != {} && k.pd != k.pt
    ensures var f, m' := Least(m.frames), NewTable(m, k, i);
            Entry(m'.mem, g, j) == if g == k.pt && j == 1023 then 0
                                   else if g == k.pd && j == i then PresentEntry(f)
                                   else if g == f then 0 else Entry(m.mem, g, j)
  {
    var f := Least(m.frames);
    var z := ZeroFrame(m.mem, f);
    ZeroFrameAt(m.mem, f, g, j);
    SetEntryAt(z, k.pd, i, PresentEntry(f), g, j);
    SetEntryAt(SetEntry(z, k.pd, i, PresentEntry(f)), k.pt, 1023, 0, g, j);
  }

  /** A new table changes one slot: its own. The pages of its range stay unmapped. */
  lemma NewTableSlot(m: Machine, k: Layout, i: nat, s: Slot)
    requires Inv(m, k) && Own(i) && !Present(Entry(m.mem, k.pd, i)) && m.frames != {}
    ensures SlotFrame(NewTable(m, k, i).mem, k.pd, s)
         == if s == Table(i) then Some(Least(m.frames)) else SlotFrame(m.mem, k.pd, s)
  {
    var f := Least(m.frames);
    if Own(s.i) {
      NewTableEntries(m, k, i, k.pd, s.i);
      match s
      case Table(_) =>
      case Page(a, b) =>
        if a == i {
          if b < 1024 {
            NewTableEntries(m, k, i, f, b);
          }
        } else if b < 1024 && Present(Entry(m.mem, k.pd, a)) {
          assert SlotFrame(m.mem, k.pd, Table(a)).Some?;
          NewTableEntries(m, k, i, FrameOf(Entry(m.mem, k.pd, a)), b);
        }
    }
  }

  lemma NewTableInv(m: Machine, k: Layout, i: nat)
    requires Inv(m, k) && Own(i) && !Present(Entry(m.mem, k.pd, i)) && m.frames != {}
    ensures Inv(NewTable(m, k, i), k)
  {
    var m' := NewTable(m, k, i);
    forall a | 0 <= a < 1024
      ensures a < 1023 ==> Names(m'.mem, k.pt, a, a)
      ensures !Own(a) ==> Entry(m'.mem, k.pd, a) == Entry(m.mem, k.pd, a)
    {
      assert a < 1023 ==> Names(m.mem, k.pt, a, a);
      NewTableEntries(m, k, i, k.pt, a);
      NewTableEntries(m, k, i, k.pd, a);
    }
    forall s
      ensures SlotFrame(m'.mem, k.pd, s) == if s == Table(i) then Some(Least(m.frames)) else SlotFrame(m.mem, k.pd, s)
    {
      NewTableSlot(m, k, i, s);
    }
  }

  // -------------------------------------------------------------- one page

  /** The store of the page table entry for a present table: the lowest free frame backs page (i, j). */
  ghost function MapPage(m: Machine, k: Layout, i: nat, j: nat): Machine
    requires k.pd < BITMAP_SIZE && i < 1024 && j < 1024
    requires m.frames != {} && forall f :: f in m.frames ==> f < BITMAP_SIZE
  {
    var f := Least(m.frames);
    Machine(SetEntry(m.mem, FrameOf(Entry(m.mem, k.pd, i)), j, PresentEntry(f)), m.frames - {f})
  }

  lemma MapPageSlot(m: Machine, k: Layout, i: nat, j: nat, s: Slot)
    requires Inv(m, k) && Own(i) && j < 1024 && Present(Entry(m.mem, k.pd, i)) && m.frames != {}
    ensures SlotFrame(MapPage(m, k, i, j).mem, k.pd, s)
         == if s == Page(i, j) then Some(Least(m.frames)) else SlotFrame(m.mem, k.pd, s)
  {
    var f, t := Least(m.frames), FrameOf(Entry(m.mem, k.pd, i));
    assert SlotFrame(m.mem, k.pd, Table(i)) == Some(t);
    if Own(s.i) {
      SetEntryAt(m.mem, t, j, PresentEntry(f), k.pd, s.i);
      if s.Page? && s.j < 1024 && Present(Entry(m.mem, k.pd, s.i)) {
        var u := FrameOf(Entry(m.mem, k.pd, s.i));
        assert SlotFrame(m.mem, k.pd, Table(s.i)) == Some(u);
        assert s.i != i ==> Table(s.i) != Table(i) && u != t;
        SetEntryAt(m.mem, t, j, PresentEntry(f), u, s.j);
      }
    }
  }

  lemma MapPageInv(m: Machine, k: Layout, i: nat, j: nat)
    requires Inv(m, k) && Own(i) && j < 1024 && Present(Entry(m.mem, k.pd, i)) && m.frames != {}
    ensures Inv(MapPage(m, k, i, j), k)
  {
    var m' := MapPage(m, k, i, j);
    var f, t := Least(m.frames), FrameOf(Entry(m.mem, k.pd, i));
    assert SlotFrame(m.mem, k.pd, Table(i)) == Some(t);
    forall a | 0 <= a < 1024
      ensures a < 1023 ==> Names(m'.mem, k.pt, a, a)
      ensures Entry(m'.mem, k.pd, a) == Entry(m.mem, k.pd, a)
    {
      assert a < 1023 ==> Names(m.mem, k.pt, a, a);
      SetEntryAt(m.mem, t, j, PresentEntry(f), k.pt, a);
      SetEntryAt(m.mem, t, j, PresentEntry(f), k.pd, a);
    }
    forall s
      ensures SlotFrame(m'.mem, k.pd, s) == if s == Page(i, j) then Some(f) else SlotFrame(m.mem, k.pd, s)
    {
      MapPageSlot(m, k, i, j, s);
    }
  }

  /** The first half of a turn of the page loop: a new table if the directory has none. */
  ghost function WithTable(m: Machine, k: Layout, i: nat): Machine
    requires k.pd < BITMAP_SIZE && k.pt < BITMAP_SIZE && i < 1024
    requires forall f :: f in m.frames ==> f < BITMAP_SIZE
  {
    if Present(Entry(m.mem, k.pd, i)) then m else NewTable(m, k, i)
  }

  /** If the directory still has no table after that, no frame is left. */
  lemma WithTableOk(m: Machine, k: Layout, i: nat)
    requires Inv(m, k) && Own(i)
    ensures var t := WithTable(m, k, i);
            Inv(t, k) && t.frames <= m.frames && (t.frames != {} ==> Present(Entry(t.mem, k.pd, i)))
  {
    if !Present(Entry(m.mem, k.pd, i)) && m.frames != {} {
      NewTableInv(m, k, i);
      NewTableEntries(m, k, i, k.pd, i);
    }
  }

  /** One turn of the page loop: a table if the directory has none, then a frame; false when no frame is left.
      If the table could not be allocated there is no frame for the page either, so no entry is written. */
  ghost function BackPage(m: Machine, k: Layout, p: nat): (Machine, bool)
    requires k.pd < BITMAP_SIZE && k.pt < BITMAP_SIZE && p < BITMAP_SIZE
    requires forall f :: f in m.frames ==> f < BITMAP_SIZE
  {
    var i, j := p / 1024, p % 1024;
    var t := WithTable(m, k, i);
    if t.frames == {} then (t, false) else (MapPage(t, k, i, j), true)
  }

  /** The page loop over pages p .. p+n-1. */
  ghost function MapRange(m: Machine, k: Layout, p: nat, n: nat): (Machine, bool)
    requires k.pd < BITMAP_SIZE && k.pt < BITMAP_SIZE && p + n <= BITMAP_SIZE
    requires forall f :: f in m.frames ==> f < BITMAP_SIZE
    decreases n
  {
    if n == 0 then (m, true)
    else
      var (t, ok) := BackPage(m, k, p);
      if ok then MapRange(t, k, p + 1, n - 1) else (t, false)
  }

  lemma MapRangeTurn(m: Machine, k: Layout, p: nat, n: nat)
    requires Inv(m, k) && n > 0 && p + n <= BITMAP_SIZE
    ensures var (t, ok) := BackPage(m, k, p);
            && t.frames <= m.frames
            && MapRange(m, k, p, n) == if ok then MapRange(t, k, p + 1, n - 1) else (t, false)
  {
  }

  // ------------------------------------------------------ what the loop does

  ghost predicate Absent(mem: Memory, pd: nat, i: nat)
    requires pd < BITMAP_SIZE
  {
    SlotFrame(mem, pd, Table(i)).None?
  }

  /** The directory entries that pages p .. p+n-1 need and that have no table yet. */
  ghost function AbsentTables(mem: Memory, pd: nat, p: nat, n: nat): set<nat>
    requires pd < BITMAP_SIZE
  {
    set i: nat | i < 1024 && Absent(mem, pd, i) && n > 0 && p / 1024 <= i <= (p + n - 1) / 1024
  }

  /** The slots the loop may write: the pages of the range, and the tables it lacks. */
  ghost predicate Written(mem: Memory, pd: nat, p: nat, n: nat, s: Slot)
    requires pd < BITMAP_SIZE
  {
    match s
    case Table(i) => i in AbsentTables(mem, pd, p, n)
    case Page(i, j) => j < 1024 && p <= i * 1024 + j < p + n
  }

  /** Slot s of after is as before, or newly names a frame that was free before. */
  ghost predicate SameOrFresh(m: Machine, t: Machine, pd: nat, s: Slot, written: bool)
    requires pd < BITMAP_SIZE
  {
    || SlotFrame(t.mem, pd, s) == SlotFrame(m.mem, pd, s)
    || (written && SlotFrame(t.mem, pd, s).Some? && SlotFrame(t.mem, pd, s).value in m.frames)
  }

  ghost predicate Backed(m: Machine, t: Machine, pd: nat, p: nat)
    requires pd < BITMAP_SIZE
  {
    var f := SlotFrame(t.mem, pd, Page(p / 1024, p % 1024));
    f.Some? && f.value in m.frames
  }

  /** The effect of the first half of a turn on the slots and on the number of free frames. */
  lemma WithTableSlots(m: Machine, k: Layout, i: nat)
    requires Inv(m, k) && Own(i)
    ensures var t, grows := WithTable(m, k, i), Absent(m.mem, k.pd, i) && m.frames != {};
            && (forall s :: SlotFrame(t.mem, k.pd, s)
                          == if s == Table(i) && grows then Some(Least(m.frames)) else SlotFrame(m.mem, k.pd, s))
            && |t.frames| == |m.frames| - (if grows then 1 else 0)
  {
    if Absent(m.mem, k.pd, i) && m.frames != {} {
      forall s
        ensures SlotFrame(NewTable(m, k, i).mem, k.pd, s)
             == if s == Table(i) then Some(Least(m.frames)) else SlotFrame(m.mem, k.pd, s)
      {
        NewTableSlot(m, k, i, s);
      }
    }
  }

  lemma MapPageSlots(m: Machine, k: Layout, i: nat, j: nat)
    requires Inv(m, k) && Own(i) && j < 1024 && Present(Entry(m.mem, k.pd, i)) && m.frames != {}
    ensures forall s :: SlotFrame(MapPage(m, k, i, j).mem, k.pd, s)
                     == if s == Page(i, j) then Some(Least(m.frames)) else SlotFrame(m.mem, k.pd, s)
    ensures |MapPage(m, k, i, j).frames| == |m.frames| - 1
  {
    forall s
      ensures SlotFrame(MapPage(m, k, i, j).mem, k.pd, s)
           == if s == Page(i, j) then Some(Least(m.frames)) else SlotFrame(m.mem, k.pd, s)
    {
      MapPageSlot(m, k, i, j, s);
    }
  }

  lemma BackPageOk(m: Machine, k: Layout, p: nat)
    requires Inv(m, k) && p < BITMAP_SIZE && Own(p / 1024)
    ensures var (t, ok) := BackPage(m, k, p);
            var need := 1 + if Absent(m.mem, k.pd, p / 1024) then 1 else 0;
            && Inv(t, k) && Grown(m, t, k, p, 1)
            && (ok ==> Backed(m, t, k.pd, p) && !Absent(t.mem, k.pd, p / 1024) && |m.frames| == |t.frames| + need)
            && (!ok ==> t.frames == {} && |m.frames| < need)
  {
    hide Unshared, WithTable, NewTable, MapPage;
    var i, j := p / 1024, p % 1024;
    WithTableOk(m, k, i);
    WithTableSlots(m, k, i);
    var t := WithTable(m, k, i);
    if t.frames != {} {
      MapPageInv(t, k, i, j);
      MapPageSlots(t, k, i, j);
      MapPageFrames(t, k, i, j);
    }
  }

  lemma MapPageFrames(m: Machine, k: Layout, i: nat, j: nat)
    requires k.pd < BITMAP_SIZE && i < 1024 && j < 1024
    requires m.frames != {} && forall f :: f in m.frames ==> f < BITMAP_SIZE
    ensures MapPage(m, k, i, j).frames <= m.frames
  {
  }

  lemma AbsentStep(m: Memory, t: Memory, pd: nat, p: nat, n: nat)
    requires pd < BITMAP_SIZE && n > 0 && (p + n - 1) / 1024 < 1024
    requires forall i: nat :: i != p / 1024 ==> (Absent(t, pd, i) <==> Absent(m, pd, i))
    requires !Absent(t, pd, p / 1024)
    ensures |AbsentTables(m, pd, p, n)| == |AbsentTables(t, pd, p + 1, n - 1)|
                                        + if Absent(m, pd, p / 1024) then 1 else 0
  {
    hide Absent;
    var rest := AbsentTables(t, pd, p + 1, n - 1);
    var here := if Absent(m, pd, p / 1024) then {p / 1024} else {};
    forall i: nat
      ensures i in AbsentTables(m, pd, p, n) <==> i in rest + here
    {
      SpanStep(p, n, i);
    }
    assert AbsentTables(m, pd, p, n) == rest + here;
    assert p / 1024 !in rest;
  }

  /** The directory entries of a range are that of its first page and those of the others. */
  lemma SpanStep(p: nat, n: nat, i: nat)
    requires n > 0
    ensures p / 1024 <= i <= (p + n - 1) / 1024 <==>
            i == p / 1024 || (n > 1 && (p + 1) / 1024 <= i <= (p + 1 + (n - 1) - 1) / 1024)
  {
    assert p / 1024 <= (p + 1) / 1024 <= p / 1024 + 1;
    assert p / 1024 <= (p + n - 1) / 1024;
  }

  /** What the loop over p .. p+n-1 has done to m when it ends in t. */
  ghost predicate Grown(m: Machine, t: Machine, k: Layout, p: nat, n: nat)
    requires k.pd < BITMAP_SIZE
  {
    && t.frames <= m.frames
    && forall s :: SameOrFresh(m, t, k.pd, s, Written(m.mem, k.pd, p, n, s))
  }

  /** How the loop over p .. p+n-1 ends. Every slot is as before, or is one the range needs and names a frame
      that was free. On success every page is backed, and exactly one frame per page and per missing table
      was used; it fails exactly when fewer are free, and then none is left. */
  ghost predicate Outcome(m: Machine, t: Machine, ok: bool, k: Layout, p: nat, n: nat)
    requires k.pd < BITMAP_SIZE
  {
    var need := n + |AbsentTables(m.mem, k.pd, p, n)|;
    && Grown(m, t, k, p, n)
    && (ok ==> forall q :: p <= q < p + n ==> Backed(m, t, k.pd, q))
    && (ok <==> |m.frames| >= need)
    && (ok ==> |t.frames| == |m.frames| - need)
    && (!ok ==> t.frames == {})
  }

  ghost predicate RangeOk(m: Machine, r: (Machine, bool), k: Layout, p: nat, n: nat) {
    Inv(r.0, k) && Outcome(m, r.0, r.1, k, p, n)
  }

  /** The page loop over any range outside the boot and self-map entries keeps the invariant and ends as
      Outcome says. */
  lemma {:induction false} MapRangeOk(m: Machine, k: Layout, p: nat, n: nat)
    requires Inv(m, k) && p + n <= BITMAP_SIZE
    requires forall q :: p <= q < p + n ==> Own(q / 1024)
    ensures RangeOk(m, MapRange(m, k, p, n), k, p, n)
    decreases n
  {
    hide BackPage;
    if n == 0 {
      assert AbsentTables(m.mem, k.pd, p, n) == {};
    } else {
      assert Own(p / 1024);
      MapRangeTurn(m, k, p, n);
      var (t, ok) := BackPage(m, k, p);
      FirstPage(m, k, p, n, t, ok);
      if ok {
        MapRangeOk(t, k, p + 1, n - 1);
        OtherPages(m, t, MapRange(t, k, p + 1, n - 1), k, p, n);
      }
    }
  }

  lemma FirstPage(m: Machine, k: Layout, p: nat, n: nat, t: Machine, ok: bool)
    requires Inv(m, k) && n > 0 && p + n <= BITMAP_SIZE && Own(p / 1024)
    requires BackPage(m, k, p) == (t, ok)
    ensures Inv(t, k)
    ensures ok ==> Turned(m, t, k, p)
    ensures !ok ==> RangeOk(m, (t, false), k, p, n)
  {
    BackPageOk(m, k, p);
    if !ok {
      FirstPageFails(m, t, k, p, n);
    }
  }

  /** One successful turn for page p took m to t. */
  ghost predicate Turned(m: Machine, t: Machine, k: Layout, p: nat)
    requires k.pd < BITMAP_SIZE
  {
    && Grown(m, t, k, p, 1) && Backed(m, t, k.pd, p) && !Absent(t.mem, k.pd, p / 1024)
    && |m.frames| == |t.frames| + 1 + if Absent(m.mem, k.pd, p / 1024) then 1 else 0
  }

  lemma OtherPages(m: Machine, t: Machine, r: (Machine, bool), k: Layout, p: nat, n: nat)
    requires k.pd < BITMAP_SIZE && n > 0 && p + n <= BITMAP_SIZE
    requires Turned(m, t, k, p) && RangeOk(t, r, k, p + 1, n - 1)
    ensures RangeOk(m, r, k, p, n)
  {
    OutcomeStep(m, t, r.0, r.1, k, p, n);
  }

  lemma OutcomeStep(m: Machine, t: Machine, u: Machine, ok: bool, k: Layout, p: nat, n: nat)
    requires k.pd < BITMAP_SIZE && n > 0 && p + n <= BITMAP_SIZE
    requires Turned(m, t, k, p)
    requires Outcome(t, u, ok, k, p + 1, n - 1)
    ensures Outcome(m, u, ok, k, p, n)
  {
    GrownStep(m, t, u, k, p, n);
    AbsentAfterBackPage(m, t, k, p, n);
    if ok {
      forall q | p <= q < p + n
        ensures Backed(m, u, k.pd, q)
      {
      }
    }
  }

  lemma FirstPageFails(m: Machine, t: Machine, k: Layout, p: nat, n: nat)
    requires k.pd < BITMAP_SIZE && n > 0 && (p + n - 1) / 1024 < 1024
    requires Grown(m, t, k, p, 1) && t.frames == {}
    requires |m.frames| < 1 + if Absent(m.mem, k.pd, p / 1024) then 1 else 0
    ensures Outcome(m, t, false, k, p, n)
  {
    var i := p / 1024;
    assert i <= (p + n - 1) / 1024;
    if Absent(m.mem, k.pd, i) {
      assert i in AbsentTables(m.mem, k.pd, p, n);
      assert {i} <= AbsentTables(m.mem, k.pd, p, n);
      CardinalityOfSubset({i}, AbsentTables(m.mem, k.pd, p, n));
    }
    forall s
      ensures SameOrFresh(m, t, k.pd, s, Written(m.mem, k.pd, p, n, s))
    {
      assert SameOrFresh(m, t, k.pd, s, Written(m.mem, k.pd, p, 1, s));
    }
  }

  lemma CardinalityOfSubset(a: set<nat>, b: set<nat>)
    requires a <= b
    ensures |a| <= |b|
  {
    assert b == a + (b - a);
  }

  lemma GrownStep(m: Machine, t: Machine, u: Machine, k: Layout, p: nat, n: nat)
    requires k.pd < BITMAP_SIZE && n > 0 && p + n <= BITMAP_SIZE
    requires Grown(m, t, k, p, 1) && Grown(t, u, k, p + 1, n - 1) && Backed(m, t, k.pd, p)
    ensures Grown(m, u, k, p, n) && Backed(m, u, k.pd, p)
    ensures forall q :: p < q < p + n && Backed(t, u, k.pd, q) ==> Backed(m, u, k.pd, q)
  {
    forall s
      ensures SameOrFresh(m, u, k.pd, s, Written(m.mem, k.pd, p, n, s))
    {
      assert SameOrFresh(m, t, k.pd, s, Written(m.mem, k.pd, p, 1, s));
      assert SameOrFresh(t, u, k.pd, s, Written(t.mem, k.pd, p + 1, n - 1, s));
      if s.Table? {
        WrittenTable(m, t, k, p, n, s.i);
      }
    }
    var own := Page(p / 1024, p % 1024);
    assert SameOrFresh(t, u, k.pd, own, Written(t.mem, k.pd, p + 1, n - 1, own));
  }

  lemma WrittenTable(m: Machine, t: Machine, k: Layout, p: nat, n: nat, i: nat)
    requires k.pd < BITMAP_SIZE && n > 0 && p + n <= BITMAP_SIZE
    requires Grown(m, t, k, p, 1)
    ensures i in AbsentTables(m.mem, k.pd, p, 1) ==> i in AbsentTables(m.mem, k.pd, p, n)
    ensures i in AbsentTables(t.mem, k.pd, p + 1, n - 1) ==> i in AbsentTables(m.mem, k.pd, p, n)
  {
    assert SameOrFresh(m, t, k.pd, Table(i), Written(m.mem, k.pd, p, 1, Table(i)));
  }

  lemma AbsentAfterBackPage(m: Machine, t: Machine, k: Layout, p: nat, n: nat)
    requires k.pd < BITMAP_SIZE && n > 0 && p + n <= BITMAP_SIZE
    requires Grown(m, t, k, p, 1) && !Absent(t.mem, k.pd, p / 1024)
    ensures |AbsentTables(m.mem, k.pd, p, n)| == |AbsentTables(t.mem, k.pd, p + 1, n - 1)|
                                              + if Absent(m.mem, k.pd, p / 1024) then 1 else 0
  {
    forall i: nat | i != p / 1024
      ensures Absent(t.mem, k.pd, i) <==> Absent(m.mem, k.pd, i)
    {
      assert SameOrFresh(m, t, k.pd, Table(i), Written(m.mem, k.pd, p, 1, Table(i)));
    }
    AbsentStep(m.mem, t.mem, k.pd, p, n);
  }

  // -------------------------------------------------- which frames are taken

  /** after is what is left of before when its lowest frames are taken. */
  ghost predicate Lowest(before: set<nat>, after: set<nat>) {
    after <= before && forall f, g :: f in before - after && g in after ==> f < g
  }

  lemma LowestTwice(a: set<nat>, b: set<nat>, c: set<nat>)
    requires Lowest(a, b) && Lowest(b, c)
    ensures Lowest(a, c)
  {
    forall f, g | f in a - c && g in c
      ensures f < g
    {
      assert f in a - b || f in b - c;
    }
  }

  lemma LeastTaken(s: set<nat>)
    requires s != {}
    ensures Lowest(s, s - {Least(s)})
  {
  }

  lemma BackPageTakesLowest(m: Machine, k: Layout, p: nat)
    requires Inv(m, k) && p < BITMAP_SIZE && Own(p / 1024)
    ensures Lowest(m.frames, BackPage(m, k, p).0.frames)
  {
    hide Unshared, SlotFrame, SetEntry, ZeroFrame;
    var t := WithTable(m, k, p / 1024);
    if m.frames != {} {
      LeastTaken(m.frames);
    }
    if t.frames != {} {
      LeastTaken(t.frames);
      LowestTwice(m.frames, t.frames, t.frames - {Least(t.frames)});
    }
  }

  /** However the page loop ends, the frames it took were lower than all that it left. */
  lemma {:induction false} MapRangeTakesLowest(m: Machine, k: Layout, p: nat, n: nat)
    requires Inv(m, k) && p + n <= BITMAP_SIZE
    requires forall q :: p <= q < p + n ==> Own(q / 1024)
    ensures Lowest(m.frames, MapRange(m, k, p, n).0.frames)
    decreases n
  {
    hide BackPage, Unshared, SlotFrame, Outcome;
    if n > 0 {
      assert Own(p / 1024);
      MapRangeTurn(m, k, p, n);
      BackPageTakesLowest(m, k, p);
      var (t, ok) := BackPage(m, k, p);
      if ok {
        BackPageOk(m, k, p);
        MapRangeTakesLowest(t, k, p + 1, n - 1);
        LowestTwice(m.frames, t.frames, MapRange(t, k, p + 1, n - 1).0.frames);
      }
    }
  }
}
