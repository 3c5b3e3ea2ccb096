/** Bit arrays: one bit per 4 KB page, packed in bytes (src/util/bitmap.h).
    A clear bit means "free". The simple thing a bit array must agree with is
    the set of the numbers of its free pages. */
module Bitmap {

  const PAGE_SIZE := 0x1000
  const BITS_PER_BYTE := 8
  const BITMAP_SIZE := 0x10_0000       // pages in 4 GB
  const BITMAP_BYTES := 0x2_0000       // bytes for that many bits
  const WORD_LIMIT := 0x1_0000_0000

  /** A 32-bit unsigned integer (uint32_t, uintptr_t, size_t). */
  type Word = w: int | 0 <= w < WORD_LIMIT

  /** Addition as the machine does it. */
  function AddWord(a: Word, b: Word): Word {
    (a + b) % WORD_LIMIT
  }

  // ---------------------------------------------------------------- one byte

  function Mask(k: nat): bv8
    requires k < BITS_PER_BYTE
  {
    (1 as bv8) << k
  }

  predicate Bit(b: bv8, k: nat)
    requires k < BITS_PER_BYTE
  {
    b & Mask(k) != 0
  }

  lemma MaskValue(k: nat)
    requires k < BITS_PER_BYTE
    ensures Mask(k) == [0x01 as bv8, 0x02, 0x04, 0x08, 0x10, 0x20, 0x40, 0x80][k]
  {
    if k == 0 {} else if k == 1 {} else if k == 2 {} else if k == 3 {}
    else if k == 4 {} else if k == 5 {} else if k == 6 {} else {}
  }

  /** Byte b' is b with bit k set to the value used and every other bit unchanged. */
  ghost predicate DiffersAt(b: bv8, b': bv8, k: nat, used: bool) {
    forall m :: 0 <= m < BITS_PER_BYTE ==> Bit(b', m) == if m == k then used else Bit(b, m)
  }

  lemma SetBit(b: bv8, k: nat)
    requires k < BITS_PER_BYTE
    ensures DiffersAt(b, b | Mask(k), k, true)
  {
    MaskValue(k);
    forall m | 0 <= m < BITS_PER_BYTE
      ensures Bit(b | Mask(k), m) == (Bit(b, m) || m == k)
    {
      MaskValue(m);
    }
  }

  lemma ClearBit(b: bv8, k: nat)
    requires k < BITS_PER_BYTE
    ensures DiffersAt(b, b & !Mask(k), k, false)
  {
    MaskValue(k);
    forall m | 0 <= m < BITS_PER_BYTE
      ensures Bit(b & !Mask(k), m) == (Bit(b, m) && m != k)
    {
      MaskValue(m);
    }
  }

  /** The byte test of the allocator's scan: 0xFF is exactly "no bit is clear". */
  lemma FullByte(b: bv8)
    ensures b == 0xFF <==> forall k :: 0 <= k < BITS_PER_BYTE ==> Bit(b, k)
  {
    forall k | 0 <= k < BITS_PER_BYTE
      ensures b == 0xFF ==> Bit(b, k)
    {
      MaskValue(k);
    }
    if forall k :: 0 <= k < BITS_PER_BYTE ==> Bit(b, k) {
      assert Bit(b, 0) && Bit(b, 1) && Bit(b, 2) && Bit(b, 3) && Bit(b, 4) && Bit(b, 5) && Bit(b, 6) && Bit(b, 7);
      MaskValue(0); MaskValue(1); MaskValue(2); MaskValue(3);
      MaskValue(4); MaskValue(5); MaskValue(6); MaskValue(7);
    }
  }

  // ------------------------------------------------------------ many bytes

  predicate IsUsed(bytes: seq<bv8>, page: nat)
    requires page < BITS_PER_BYTE * |bytes|
  {
    Bit(bytes[page / BITS_PER_BYTE], page % BITS_PER_BYTE)
  }

  ghost function FreePages(bytes: seq<bv8>): set<nat> {
    set p: nat | p < BITS_PER_BYTE * |bytes| && !IsUsed(bytes, p)
  }

  ghost predicate From(start: nat, p: nat) {
    start <= p
  }

  ghost function Range(start: nat, end: int): set<nat> {
    set p: nat | p < end && From(start, p)
  }

  /** Storing a byte that differs in one bit changes the state of one page. */
  lemma StoreByte(bytes: seq<bv8>, page: nat, b: bv8, used: bool)
    requires page < BITS_PER_BYTE * |bytes|
    requires DiffersAt(bytes[page / BITS_PER_BYTE], b, page % BITS_PER_BYTE, used)
    ensures FreePages(bytes[page / BITS_PER_BYTE := b])
         == if used then FreePages(bytes) - {page} else FreePages(bytes) + {page}
  {
    var after := bytes[page / BITS_PER_BYTE := b];
    forall p: nat | p < BITS_PER_BYTE * |bytes|
      ensures IsUsed(after, p) == if p == page then used else IsUsed(bytes, p)
    {
    }
  }

  lemma SetPage(bytes: seq<bv8>, page: nat)
    requires page < BITS_PER_BYTE * |bytes|
    ensures var i, k := page / BITS_PER_BYTE, page % BITS_PER_BYTE;
            FreePages(bytes[i := bytes[i] | Mask(k)]) == FreePages(bytes) - {page}
  {
    var i, k := page / BITS_PER_BYTE, page % BITS_PER_BYTE;
    SetBit(bytes[i], k);
    StoreByte(bytes, page, bytes[i] | Mask(k), true);
  }

  lemma ClearPage(bytes: seq<bv8>, page: nat)
    requires page < BITS_PER_BYTE * |bytes|
    ensures var i, k := page / BITS_PER_BYTE, page % BITS_PER_BYTE;
            FreePages(bytes[i := bytes[i] & !Mask(k)]) == FreePages(bytes) + {page}
  {
    var i, k := page / BITS_PER_BYTE, page % BITS_PER_BYTE;
    ClearBit(bytes[i], k);
    StoreByte(bytes, page, bytes[i] & !Mask(k), false);
  }

  // ------------------------------------------------- first fit, the simple way

  /** Pages s .. s+n-1 lie below 2^20 and are all free. */
  ghost predicate Fits(free: set<nat>, s: nat, n: nat) {
    s + n <= BITMAP_SIZE && forall p: nat :: s <= p < s + n ==> p in free
  }

  /** The first start at or after s that fits, found by trying every start; -1 if there is none. */
  ghost function FirstFit(free: set<nat>, n: nat, s: nat): int
    decreases BITMAP_SIZE - s
  {
    if s >= BITMAP_SIZE then -1
    else if Fits(free, s, n) then s
    else FirstFit(free, n, s + 1)
  }

  lemma {:induction false} FirstFitIsLeast(free: set<nat>, n: nat, s: nat)
    ensures var r := FirstFit(free, n, s);
            && (r == -1 ==> forall t: nat :: s <= t < BITMAP_SIZE ==> !Fits(free, t, n))
            && (r != -1 ==> && s <= r < BITMAP_SIZE && Fits(free, r, n)
                            && forall t: nat :: s <= t < r ==> !Fits(free, t, n))
    decreases BITMAP_SIZE - s
  {
    if s < BITMAP_SIZE && !Fits(free, s, n) {
      FirstFitIsLeast(free, n, s + 1);
    }
  }

  /** Starts that do not fit may be skipped. */
  lemma {:induction false} FirstFitSkip(free: set<nat>, n: nat, s: nat, t: nat)
    requires s <= t <= BITMAP_SIZE + 1
    requires forall u: nat :: s <= u < t && u < BITMAP_SIZE ==> !Fits(free, u, n)
    ensures FirstFit(free, n, s) == FirstFit(free, n, t)
    decreases t - s
  {
    if s < t {
      FirstFitSkip(free, n, s + 1, t);
    }
  }

  /** The page the search starts from: the hint's page, or the start of the high half. */
  function HintPage(hint: Word): nat {
    if hint == 0 then 0xC000_0000 / PAGE_SIZE else hint / PAGE_SIZE
  }

  // ------------------------------------------------------------- the record

  class VmBitmap {
    const bitmap: array<bv8>   // each bit represents one 4 KB page
    var bitmapSize: Word       // in bytes
    var totalFrames: Word
    var freeFrames: Word
    var maxPhysAddr: Word

    constructor (buffer: array<bv8>)
      ensures bitmap == buffer
      ensures bitmapSize == totalFrames == freeFrames == maxPhysAddr == 0
    {
      bitmap := buffer;
      bitmapSize, totalFrames, freeFrames, maxPhysAddr := 0, 0, 0, 0;
    }

    /** The pages whose bits are clear. */
    ghost function Free(): set<nat>
      reads bitmap
    {
      FreePages(bitmap[..])
    }

    method Set(bit: Word)
      requires bit < BITS_PER_BYTE * bitmap.Length
      modifies bitmap
      ensures Free() == old(Free()) - {bit}
    {
      var i := bit / BITS_PER_BYTE;
      SetPage(bitmap[..], bit);
      ghost var before := bitmap[..];
      bitmap[i] := bitmap[i] | Mask(bit % BITS_PER_BYTE);
      assert bitmap[..] == before[i := before[i] | Mask(bit % BITS_PER_BYTE)];
    }

    method Clear(bit: Word)
      requires bit < BITS_PER_BYTE * bitmap.Length
      modifies bitmap
      ensures Free() == old(Free()) + {bit}
    {
      var i := bit / BITS_PER_BYTE;
      ClearPage(bitmap[..], bit);
      ghost var before := bitmap[..];
      bitmap[i] := bitmap[i] & !Mask(bit % BITS_PER_BYTE);
      assert bitmap[..] == before[i := before[i] & !Mask(bit % BITS_PER_BYTE)];
    }

    method Test(bit: Word) returns (used: bool)
      requires bit < BITS_PER_BYTE * bitmap.Length
      ensures used <==> bit !in Free()
    {
      used := bitmap[bit / BITS_PER_BYTE] & Mask(bit % BITS_PER_BYTE) != 0;
      assert used == IsUsed(bitmap[..], bit);
    }

    /** The end of the loop wraps like any 32-bit sum; an end at or below the start marks nothing. */
    method MarkRangeUsed(startPage: Word, numPages: Word)
      requires AddWord(startPage, numPages) <= BITS_PER_BYTE * bitmap.Length
      modifies bitmap
      ensures Free() == old(Free()) - Range(startPage, AddWord(startPage, numPages))
    {
      var i := startPage;
      while i < AddWord(startPage, numPages)
        invariant startPage <= i
        invariant i <= AddWord(startPage, numPages) || i == startPage
        invariant Free() == old(Free()) - Range(startPage, i)
      {
        Set(i);
        i := i + 1;
      }
    }

    method MarkRangeFree(startPage: Word, numPages: Word)
      requires AddWord(startPage, numPages) <= BITS_PER_BYTE * bitmap.Length
      modifies bitmap
      ensures Free() == old(Free()) + Range(startPage, AddWord(startPage, numPages))
    {
      var i := startPage;
      while i < AddWord(startPage, numPages)
        invariant startPage <= i
        invariant i <= AddWord(startPage, numPages) || i == startPage
        invariant Free() == old(Free()) + Range(startPage, i)
      {
        Clear(i);
        i := i + 1;
      }
    }

    /** The length of the run of free pages at i, cut at numPages and at 2^20: the inner loop of the search. */
    method CountFree(i: Word, numPages: Word) returns (freeCount: Word)
      requires bitmap.Length == BITMAP_BYTES && i < BITMAP_SIZE
      ensures freeCount <= numPages && i + freeCount <= BITMAP_SIZE
      ensures forall p: nat :: i <= p < i + freeCount ==> p in Free()
      ensures freeCount < numPages ==>
                || i + freeCount == BITMAP_SIZE
                || i + freeCount !in Free()
                || AddWord(i, numPages) < i + numPages
    {
      freeCount := 0;
      var j := i;
      while j < AddWord(i, numPages) && j < BITMAP_SIZE
        invariant j == i + freeCount && freeCount <= numPages && j <= BITMAP_SIZE
        invariant forall p: nat :: i <= p < j ==> p in Free()
      {
        if bitmap[j / BITS_PER_BYTE] & Mask(j % BITS_PER_BYTE) != 0 {
          assert IsUsed(bitmap[..], j);
          break; // not free
        }
        assert !IsUsed(bitmap[..], j);
        freeCount := freeCount + 1;
        j := j + 1;
      }
    }

    /** The skipping search gives the same answer as trying every start. */
    method FindFreeRange(numPages: Word, hint: Word) returns (start: int)
      requires bitmap.Length == BITMAP_BYTES
      ensures start == FirstFit(Free(), numPages, HintPage(hint))
    {
      var i := if hint == 0 then 0xC000_0000 / PAGE_SIZE else hint / PAGE_SIZE;
      while i < BITMAP_SIZE
        invariant i <= BITMAP_SIZE + 1
        invariant FirstFit(Free(), numPages, HintPage(hint)) == FirstFit(Free(), numPages, i)
      {
        var freeCount := CountFree(i, numPages);
        if freeCount == numPages {
          return i;
        }
        FirstFitSkip(Free(), numPages, i, i + freeCount + 1);
        i := i + freeCount;
        i := i + 1;
      }
      return -1;
    }
  }
}
