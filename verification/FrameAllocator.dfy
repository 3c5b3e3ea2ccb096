/** The page frame allocator after initialisation: pfa_alloc and pfa_free
    (src/memory/pfa.h). The 128 KB bit buffer is scanned up to bitmapSize bytes. */
module FrameAllocator {
  import opened Bitmap

  ghost function Below(s: set<nat>, limit: nat): set<nat> {
    set f | f in s && f < limit
  }

  /** The frames pfa_alloc can see: free bits among the scanned bytes. */
  ghost function Allocatable(vm: VmBitmap): set<nat>
    reads vm, vm.bitmap
  {
    Below(vm.Free(), BITS_PER_BYTE * vm.bitmapSize)
  }

  ghost predicate IsLeast(s: set<nat>, m: nat) {
    m in s && forall x :: x in s ==> m <= x
  }

  lemma {:induction false} LeastExists(s: set<nat>)
    requires s != {}
    ensures exists m :: IsLeast(s, m)
  {
    var x :| x in s;
    var below := set z | z in s && z < x;
    if below == {} {
      forall z | z in s
        ensures x <= z
      {
        assert z !in below;
      }
      assert IsLeast(s, x);
    } else {
      assert x in s && x !in below && below <= s;
      LeastExists(below);
      var m :| IsLeast(below, m);
      forall z | z in s
        ensures m <= z
      {
        assert m < x;
        assert z in below || x <= z;
      }
      assert IsLeast(s, m);
    }
  }

  ghost function Least(s: set<nat>): (m: nat)
    requires s != {}
    ensures m in s && forall x :: x in s ==> m <= x
  {
    LeastExists(s);
    var m :| IsLeast(s, m);
    m
  }

  // --------------------------------------------------------------- pfa_alloc

  /** What pfa_alloc does to any bit array: the free set after the call, and the address returned.
      A free frame 0 is used up silently, and so is the lowest frame when it lies at or above maxPhys. */
  ghost function Alloc(free: set<nat>, maxPhys: int): (set<nat>, nat) {
    var usable := free - {0};
    if 0 in free && maxPhys == 0 then (usable, 0)
    else if usable == {} then ({}, 0)
    else
      var m := Least(usable);
      (usable - {m}, if m * PAGE_SIZE < maxPhys then m * PAGE_SIZE else 0)
  }

  /** On any bits, sound or not: an address handed out is that of the lowest free frame but 0, lies below maxPhys
      and is used from then on. Without one, either no frame but 0 was free, or the lowest lies at or above
      maxPhys and is lost, or the scan stopped at frame 0 because nothing lies below maxPhys. */
  lemma AllocAny(free: set<nat>, maxPhys: nat)
    ensures var (rest, addr) := Alloc(free, maxPhys);
            && (addr != 0 ==>
                  && addr % 0x1000 == 0 && addr < maxPhys && addr / 0x1000 in free
                  && rest == free - {0, addr / 0x1000}
                  && forall f :: f in free ==> f == 0 || addr <= f * 0x1000)
            && (addr == 0 && maxPhys > 0 ==>
                  || (rest == {} && free <= {0})
                  || exists f :: f in free && f * 0x1000 >= maxPhys && rest == free - {0, f}
                                 && forall g :: g in free ==> g == 0 || f <= g)
            && (addr == 0 && maxPhys == 0 && 0 in free ==> rest == free - {0})
  {
    if !(0 in free && maxPhys == 0) && free - {0} != {} {
      var m := Least(free - {0});
      assert m in free && m * PAGE_SIZE / 0x1000 == m && free - {0} - {m} == free - {0, m};
      assert forall g :: g in free ==> g == 0 || g in free - {0};
    }
  }

  /** All scanned bits below idx have been seen: only bit 0 can have been free, and it is now used. */
  ghost predicate Scanned(before: set<nat>, now: set<nat>, idx: nat) {
    && now == (if idx == 0 then before else before - {0})
    && forall f: nat :: 0 < f < idx ==> f !in before
  }

  lemma ScanOn(before: set<nat>, now: set<nat>, i: nat, j: nat)
    requires Scanned(before, now, i) && i <= j
    requires forall f: nat :: i <= f < j && f in now ==> f == 0
    ensures j > 0 ==> Scanned(before, now - {0}, j)
  {
    forall f: nat | 0 < f < j
      ensures f !in before
    {
      if i <= f {
        assert f !in now;
      }
    }
  }

  /** The outcome of a scan that stopped at the free frame f. */
  ghost predicate StoppedAt(before: set<nat>, now: set<nat>, f: nat, maxPhys: int, addr: nat) {
    && f in before && (forall g: nat :: 0 < g < f ==> g !in before)
    && (f == 0 ==> maxPhys == 0)
    && now == before - {0} - {f}
    && addr == (if f * PAGE_SIZE < maxPhys then f * PAGE_SIZE else 0)
  }

  lemma ScanStopped(before: set<nat>, now: set<nat>, f: nat, limit: nat, maxPhys: int, addr: nat)
    requires StoppedAt(before, now, f, maxPhys, addr) && f < limit
    requires 0 in before && maxPhys == 0 ==> f == 0
    ensures Alloc(Below(before, limit), maxPhys) == (Below(now, limit), addr)
  {
    var free := Below(before, limit);
    var rest := Below(now, limit);
    assert f in free;
    assert rest == free - {0} - {f};
    if f != 0 {
      assert f in free - {0};
      var m := Least(free - {0});
      assert m in before;
    } else {
      assert rest == free - {0};
    }
  }

  lemma TestPage(bytes: seq<bv8>, page: nat)
    requires page < BITS_PER_BYTE * |bytes|
    ensures bytes[page / BITS_PER_BYTE] & Mask(page % BITS_PER_BYTE) == 0 <==> page in FreePages(bytes)
  {
    assert IsUsed(bytes, page) == Bit(bytes[page / BITS_PER_BYTE], page % BITS_PER_BYTE);
  }

  lemma ByteFull(bytes: seq<bv8>, i: nat)
    requires i < |bytes| && bytes[i] == 0xFF
    ensures forall f: nat :: BITS_PER_BYTE * i <= f < BITS_PER_BYTE * (i + 1) ==> f !in FreePages(bytes)
  {
    FullByte(bytes[i]);
    forall f: nat | BITS_PER_BYTE * i <= f < BITS_PER_BYTE * (i + 1)
      ensures f !in FreePages(bytes)
    {
      assert f / BITS_PER_BYTE == i;
      assert Bit(bytes[i], f % BITS_PER_BYTE);
    }
  }

  method PfaAlloc(vm: VmBitmap) returns (addr: Word)
    requires vm.bitmapSize <= vm.bitmap.Length == BITMAP_BYTES
    modifies vm.bitmap
    ensures (Allocatable(vm), addr) == Alloc(old(Allocatable(vm)), vm.maxPhysAddr)
    ensures vm.Free() - Allocatable(vm) == old(vm.Free() - Allocatable(vm))
  {
    ghost var before := vm.Free();
    var byte := 0;
    while byte < vm.bitmapSize
      invariant byte <= vm.bitmapSize
      invariant Scanned(before, vm.Free(), BITS_PER_BYTE * byte)
      invariant 0 in before && vm.maxPhysAddr == 0 ==> byte == 0
    {
      if vm.bitmap[byte] != 0xFF { // at least one free bit in this byte
        var hit, a, f := ScanByte(vm, byte, before);
        if hit {
          ScanStopped(before, vm.Free(), f, BITS_PER_BYTE * vm.bitmapSize, vm.maxPhysAddr, a);
          return a;
        }
      } else {
        ByteFull(vm.bitmap[..], byte);
        ScanOn(before, vm.Free(), BITS_PER_BYTE * byte, BITS_PER_BYTE * (byte + 1));
        assert vm.Free() - {0} == vm.Free();
      }
      byte := byte + 1;
    }
    assert Allocatable(vm) == {};
    assert old(Allocatable(vm)) - {0} == {};
    return 0; // out of frames
  }

  /** The inner loop of pfa_alloc over one byte; hit tells whether it returned from pfa_alloc. */
  method ScanByte(vm: VmBitmap, byte: Word, ghost before: set<nat>) returns (hit: bool, addr: Word, ghost frame: nat)
    requires byte < vm.bitmapSize <= vm.bitmap.Length == BITMAP_BYTES
    requires Scanned(before, vm.Free(), BITS_PER_BYTE * byte)
    requires 0 in before && vm.maxPhysAddr == 0 ==> byte == 0
    modifies vm.bitmap
    ensures !hit ==> Scanned(before, vm.Free(), BITS_PER_BYTE * (byte + 1))
    ensures !hit ==> !(0 in before && vm.maxPhysAddr == 0)
    ensures hit ==> frame < BITS_PER_BYTE * (byte + 1) && StoppedAt(before, vm.Free(), frame, vm.maxPhysAddr, addr)
    ensures hit && 0 in before && vm.maxPhysAddr == 0 ==> frame == 0
  {
    var bit := 0;
    while bit < BITS_PER_BYTE
      invariant bit <= BITS_PER_BYTE
      invariant Scanned(before, vm.Free(), BITS_PER_BYTE * byte + bit)
      invariant 0 in before && vm.maxPhysAddr == 0 ==> byte == bit == 0
    {
      var testBit := Mask(bit);
      var frameNum: Word := byte * BITS_PER_BYTE + bit;
      TestPage(vm.bitmap[..], frameNum);
      ScanOn(before, vm.Free(), frameNum, frameNum);
      if vm.bitmap[byte] & testBit == 0 {
        assert frameNum in vm.Free();
        vm.Set(frameNum); // mark as used
        var physAddr: Word := frameNum * PAGE_SIZE;
        // do not go past the highest usable physical address
        if physAddr >= vm.maxPhysAddr {
          assert vm.Free() == before - {0} - {frameNum};
          return true, 0, frameNum;
        }
        // frame 0 cannot be returned, 0 is the error code
        if physAddr != 0 {
          assert vm.Free() == before - {0} - {frameNum};
          return true, physAddr, frameNum;
        }
      } else {
        assert frameNum !in vm.Free();
        ScanOn(before, vm.Free(), frameNum, frameNum + 1);
        assert vm.Free() - {0} == vm.Free();
      }
      bit := bit + 1;
    }
    return false, 0, 0;
  }

  // ---------------------------------------------------------------- pfa_free

  /** What pfa_free does to the allocatable frames when bits below limit are scanned. */
  ghost function Release(free: set<nat>, addr: Word, maxPhys: int, limit: nat): set<nat> {
    if addr == 0 || addr >= maxPhys || addr / PAGE_SIZE >= limit then free
    else free + {addr / PAGE_SIZE}
  }

  method PfaFree(vm: VmBitmap, addr: Word)
    requires vm.bitmapSize <= vm.bitmap.Length == BITMAP_BYTES
    modifies vm.bitmap
    ensures Allocatable(vm) == Release(old(Allocatable(vm)), addr, vm.maxPhysAddr, BITS_PER_BYTE * vm.bitmapSize)
    ensures vm.Free() == if addr == 0 || addr >= vm.maxPhysAddr then old(vm.Free())
                         else old(vm.Free()) + {addr / PAGE_SIZE}
  {
    if addr == 0 || addr >= vm.maxPhysAddr {
      return;
    }
    var frameNum := addr / PAGE_SIZE;
    var used := vm.Test(frameNum);
    if used {
      vm.Clear(frameNum);
    }
  }

  // ------------------------------------------------- the allocator's invariant

  /** Every allocatable frame has a nonzero address below maxPhys. */
  ghost predicate Sound(free: set<nat>, maxPhys: int) {
    forall f :: f in free ==> 0 < f * PAGE_SIZE < maxPhys
  }

  /** On a sound bit array pfa_alloc takes the lowest free frame and nothing else,
      and fails, changing nothing, exactly when there is none. */
  lemma AllocSound(free: set<nat>, maxPhys: int)
    requires Sound(free, maxPhys)
    ensures var (rest, addr) := Alloc(free, maxPhys);
            && Sound(rest, maxPhys)
            && (addr == 0 <==> free == {})
            && (free == {} ==> rest == {})
            && (free != {} ==> addr == Least(free) * PAGE_SIZE && rest == free - {Least(free)} && |rest| == |free| - 1)
  {
    assert 0 !in free;
    assert free - {0} == free;
  }

  /** pfa_free keeps the invariant for every address but those of the inside of frame 0:
      for 1 .. 4095 (below maxPhys) it frees frame 0. */
  lemma ReleaseSound(free: set<nat>, addr: Word, maxPhys: int, limit: nat)
    requires Sound(free, maxPhys) && 0 < limit
    ensures Sound(Release(free, addr, maxPhys, limit), maxPhys) <==> !(0 < addr < PAGE_SIZE && addr < maxPhys)
  {
    if 0 < addr < PAGE_SIZE && addr < maxPhys {
      assert 0 in Release(free, addr, maxPhys, limit);
    }
  }

  // ------------------------------------------------ runs of allocate and free

  /** A client call: allocate, or give back the i-th address it holds. */
  datatype Call = Take | GiveBack(i: nat)

  /** The allocatable frames and the addresses handed out and not yet given back. */
  datatype Ledger = Ledger(free: set<nat>, held: seq<nat>)

  ghost predicate Legal(l: Ledger, c: Call) {
    c.GiveBack? ==> c.i < |l.held|
  }

  ghost function Step(l: Ledger, c: Call, maxPhys: int, limit: nat): Ledger
    requires Legal(l, c) && LedgerOk(l, maxPhys, limit)
  {
    match c
    case Take =>
      var (rest, addr) := Alloc(l.free, maxPhys);
      Ledger(rest, if addr == 0 then l.held else l.held + [addr])
    case GiveBack(i) =>
      Ledger(Release(l.free, l.held[i], maxPhys, limit), l.held[..i] + l.held[i + 1..])
  }

  /** The frame of each held address. */
  ghost function HeldFrames(held: seq<nat>): set<nat> {
    if held == [] then {} else HeldFrames(held[..|held| - 1]) + {held[|held| - 1] / PAGE_SIZE}
  }

  /** A proper address to hold: a nonzero page address in bounds, of a frame that is not free. */
  ghost predicate Holdable(addr: nat, free: set<nat>, maxPhys: int, limit: nat) {
    addr % PAGE_SIZE == 0 && 0 < addr < maxPhys && addr / PAGE_SIZE < limit && addr / PAGE_SIZE !in free
  }

  ghost predicate LedgerOk(l: Ledger, maxPhys: int, limit: nat) {
    && maxPhys <= WORD_LIMIT
    && Sound(l.free, maxPhys)
    && (forall f :: f in l.free ==> f < limit)
    && (forall i :: 0 <= i < |l.held| ==> Holdable(l.held[i], l.free, maxPhys, limit))
    && (forall i, j :: 0 <= i < j < |l.held| ==> l.held[i] != l.held[j])
  }

  /** Taking the lowest free frame: its address becomes holdable, and what was holdable stays so. */
  lemma TakeHoldable(free: set<nat>, addr: nat, maxPhys: int, limit: nat)
    requires Sound(free, maxPhys) && free != {} && forall f :: f in free ==> f < limit
    ensures Holdable(Least(free) * PAGE_SIZE, free - {Least(free)}, maxPhys, limit)
    ensures Holdable(addr, free, maxPhys, limit) ==>
              addr != Least(free) * PAGE_SIZE && Holdable(addr, free - {Least(free)}, maxPhys, limit)
  {
    var f := Least(free);
    assert f * PAGE_SIZE / PAGE_SIZE == f;
  }

  lemma TakeOk(l: Ledger, maxPhys: int, limit: nat)
    requires LedgerOk(l, maxPhys, limit)
    ensures LedgerOk(Step(l, Take, maxPhys, limit), maxPhys, limit)
  {
    var n := Step(l, Take, maxPhys, limit);
    AllocSound(l.free, maxPhys);
    if l.free != {} {
      var addr := Least(l.free) * PAGE_SIZE;
      assert n.held == l.held + [addr];
      forall i | 0 <= i < |l.held|
        ensures n.held[i] != addr && Holdable(n.held[i], n.free, maxPhys, limit)
      {
        TakeHoldable(l.free, l.held[i], maxPhys, limit);
      }
      TakeHoldable(l.free, 0, maxPhys, limit);
    }
  }

  lemma TakeConserves(l: Ledger, maxPhys: int, limit: nat)
    requires LedgerOk(l, maxPhys, limit)
    ensures var n := Step(l, Take, maxPhys, limit);
            n.free + HeldFrames(n.held) == l.free + HeldFrames(l.held)
  {
    AllocSound(l.free, maxPhys);
    var n := Step(l, Take, maxPhys, limit);
    if l.free == {} {
      assert n.free == l.free && n.held == l.held;
    } else {
      var f := Least(l.free);
      assert n.free == l.free - {f} && n.held == l.held + [f * PAGE_SIZE];
      HeldTake(l.free, l.held, f);
    }
  }

  lemma HeldTake(free: set<nat>, held: seq<nat>, f: nat)
    requires f in free
    ensures (free - {f}) + HeldFrames(held + [f * PAGE_SIZE]) == free + HeldFrames(held)
  {
    HeldAppend(held, f * PAGE_SIZE);
  }

  lemma HeldAppend(held: seq<nat>, addr: nat)
    ensures HeldFrames(held + [addr]) == HeldFrames(held) + {addr / PAGE_SIZE}
  {
    assert (held + [addr])[..|held|] == held;
  }

  lemma {:induction false} HeldRemove(held: seq<nat>, i: nat)
    requires i < |held|
    ensures HeldFrames(held) == HeldFrames(held[..i] + held[i + 1..]) + {held[i] / PAGE_SIZE}
  {
    var n := |held| - 1;
    if i == n {
      assert held[..i] + held[i + 1..] == held[..n];
    } else {
      HeldRemove(held[..n], i);
      assert held[..i] + held[i + 1..] == held[..n][..i] + held[..n][i + 1..] + [held[n]];
      HeldAppend(held[..n][..i] + held[..n][i + 1..], held[n]);
    }
  }

  lemma {:induction false} HeldMember(held: seq<nat>, f: nat)
    ensures f in HeldFrames(held) <==> exists i :: 0 <= i < |held| && held[i] / PAGE_SIZE == f
  {
    if held != [] {
      var n := |held| - 1;
      HeldMember(held[..n], f);
      assert forall i :: 0 <= i < n ==> held[..n][i] == held[i];
    }
  }

  lemma GiveBackOk(l: Ledger, i: nat, maxPhys: int, limit: nat)
    requires LedgerOk(l, maxPhys, limit) && i < |l.held|
    ensures var n := Step(l, GiveBack(i), maxPhys, limit);
            LedgerOk(n, maxPhys, limit) && n.free + HeldFrames(n.held) == l.free + HeldFrames(l.held)
  {
    hide HeldFrames;
    var n := Step(l, GiveBack(i), maxPhys, limit);
    var f := l.held[i] / PAGE_SIZE;
    assert n.free == l.free + {f};
    forall k | 0 <= k < |n.held|
      ensures n.held[k] == l.held[if k < i then k else k + 1]
      ensures Holdable(n.held[k], n.free, maxPhys, limit)
    {
      assert n.held[k] != l.held[i];
    }
    HeldRemove(l.held, i);
  }

  lemma StepOk(l: Ledger, c: Call, maxPhys: int, limit: nat)
    requires LedgerOk(l, maxPhys, limit) && Legal(l, c)
    ensures var n := Step(l, c, maxPhys, limit);
            LedgerOk(n, maxPhys, limit) && n.free + HeldFrames(n.held) == l.free + HeldFrames(l.held)
  {
    match c
    case Take => TakeOk(l, maxPhys, limit); TakeConserves(l, maxPhys, limit);
    case GiveBack(i) => GiveBackOk(l, i, maxPhys, limit);
  }

  ghost predicate LegalRun(l: Ledger, calls: seq<Call>, maxPhys: int, limit: nat)
    requires LedgerOk(l, maxPhys, limit)
    decreases |calls|
  {
    calls == [] ||
    (Legal(l, calls[0]) &&
     (StepOk(l, calls[0], maxPhys, limit); LegalRun(Step(l, calls[0], maxPhys, limit), calls[1..], maxPhys, limit)))
  }

  ghost function Run(l: Ledger, calls: seq<Call>, maxPhys: int, limit: nat): Ledger
    requires LedgerOk(l, maxPhys, limit) && LegalRun(l, calls, maxPhys, limit)
    decreases |calls|
  {
    if calls == [] then l
    else StepOk(l, calls[0], maxPhys, limit); Run(Step(l, calls[0], maxPhys, limit), calls[1..], maxPhys, limit)
  }

  /** Over any run in which clients free only what they hold, no address is held twice, every held
      address is below maxPhys and was free at the start, and nothing is lost or made up. */
  lemma {:induction false} RunConserves(free: set<nat>, calls: seq<Call>, maxPhys: int, limit: nat)
    requires LedgerOk(Ledger(free, []), maxPhys, limit) && LegalRun(Ledger(free, []), calls, maxPhys, limit)
    ensures var n := Run(Ledger(free, []), calls, maxPhys, limit);
            && (forall i, j :: 0 <= i < j < |n.held| ==> n.held[i] / PAGE_SIZE != n.held[j] / PAGE_SIZE)
            && (forall i :: 0 <= i < |n.held| ==> 0 < n.held[i] < maxPhys && n.held[i] % PAGE_SIZE == 0)
            && n.free !! HeldFrames(n.held)
            && n.free + HeldFrames(n.held) == free
            && |n.free| + |n.held| == |free|
  {
    RunKeeps(Ledger(free, []), calls, maxPhys, limit);
    var n := Run(Ledger(free, []), calls, maxPhys, limit);
    HeldCount(n.held);
    forall f | f in n.free
      ensures f !in HeldFrames(n.held)
    {
      HeldMember(n.held, f);
    }
    assert |n.free + HeldFrames(n.held)| == |n.free| + |n.held|;
  }

  lemma {:induction false} RunKeeps(l: Ledger, calls: seq<Call>, maxPhys: int, limit: nat)
    requires LedgerOk(l, maxPhys, limit) && LegalRun(l, calls, maxPhys, limit)
    ensures var n := Run(l, calls, maxPhys, limit);
            LedgerOk(n, maxPhys, limit) && n.free + HeldFrames(n.held) == l.free + HeldFrames(l.held)
    decreases |calls|
  {
    if calls != [] {
      StepOk(l, calls[0], maxPhys, limit);
      RunKeeps(Step(l, calls[0], maxPhys, limit), calls[1..], maxPhys, limit);
    }
  }

  /** Distinct page-aligned addresses have distinct frames. */
  lemma {:induction false} HeldCount(held: seq<nat>)
    requires forall i :: 0 <= i < |held| ==> held[i] % PAGE_SIZE == 0
    requires forall i, j :: 0 <= i < j < |held| ==> held[i] != held[j]
    ensures |HeldFrames(held)| == |held|
  {
    if held != [] {
      var n := |held| - 1;
      var rest := held[..n];
      HeldCount(rest);
      HeldMember(rest, held[n] / PAGE_SIZE);
      assert forall i :: 0 <= i < n ==> rest[i] == held[i] && held[i] != held[n];
      assert held[n] / PAGE_SIZE !in HeldFrames(rest);
    }
  }
}
