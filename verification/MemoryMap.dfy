/** The boot loader's memory map (section 3.3 of the Multiboot Specification
    0.6.96): a buffer of packed little-endian entries, each preceded by its own
    size, and the bounds pass over it (src/memory/pfa_helpers.h). */
module MemoryMap {
  import opened Bitmap

  const LIMIT64 := 0x1_0000_0000_0000_0000
  const MEMORY_AVAILABLE := 1
  const INFO_CMDLINE: bv32 := 0x04
  const INFO_MODS: bv32 := 0x08
  const INFO_MEM_MAP: bv32 := 0x40

  type Byte = b: int | 0 <= b < 256
  type Word64 = w: int | 0 <= w < LIMIT64

  /** multiboot_mmap_entry; size counts the bytes after itself. */
  datatype MapEntry = MapEntry(size: Word, addr: Word64, len: Word64, kind: Word)

  // ---------------------------------------------------- little-endian numbers

  function FromLE(s: seq<Byte>): nat {
    if s == [] then 0 else s[0] + 256 * FromLE(s[1..])
  }

  function ToLE(v: nat, k: nat): (s: seq<Byte>)
    ensures |s| == k
  {
    if k == 0 then [] else [v % 256] + ToLE(v / 256, k - 1)
  }

  function Pow256(k: nat): nat {
    if k == 0 then 1 else 256 * Pow256(k - 1)
  }

  lemma {:induction false} LEBound(s: seq<Byte>)
    ensures FromLE(s) < Pow256(|s|)
  {
    if s != [] {
      LEBound(s[1..]);
    }
  }

  lemma {:induction false} LERoundTrip(v: nat, k: nat)
    requires v < Pow256(k)
    ensures FromLE(ToLE(v, k)) == v
  {
    if k > 0 {
      LERoundTrip(v / 256, k - 1);
      assert ToLE(v, k)[1..] == ToLE(v / 256, k - 1);
    }
  }

  lemma PowValues()
    ensures Pow256(4) == WORD_LIMIT && Pow256(8) == LIMIT64
  {
    assert Pow256(2) == 0x1_0000;
    assert Pow256(4) == 256 * (256 * Pow256(2));
    assert Pow256(6) == 256 * (256 * Pow256(4));
    assert Pow256(8) == 256 * (256 * Pow256(6));
  }

  function Read32(buf: seq<Byte>, off: nat): Word
    requires off + 4 <= |buf|
  {
    LEBound(buf[off..off + 4]);
    PowValues();
    FromLE(buf[off..off + 4])
  }

  function Read64(buf: seq<Byte>, off: nat): Word64
    requires off + 8 <= |buf|
  {
    LEBound(buf[off..off + 8]);
    PowValues();
    FromLE(buf[off..off + 8])
  }

  // -------------------------------------------------------------- the walk

  function ReadEntry(buf: seq<Byte>, off: nat): MapEntry
    requires off + 24 <= |buf|
  {
    MapEntry(Read32(buf, off), Read64(buf, off + 4), Read64(buf, off + 12), Read32(buf, off + 20))
  }

  /** Numbers are stored with their low byte first. */
  lemma LowByteFirst(buf: seq<Byte>, off: nat)
    requires off + 4 <= |buf|
    ensures var a: int, b: int, c: int, d: int := buf[off], buf[off + 1], buf[off + 2], buf[off + 3];
            Read32(buf, off) == a + 0x100 * b + 0x1_0000 * c + 0x100_0000 * d
  {
    var s := buf[off..off + 4];
    assert FromLE(s[3..]) == s[3];
    assert s[2..][1..] == s[3..] && s[1..][1..] == s[2..];
    assert FromLE(s[1..]) == s[1] + 256 * (s[2] + 256 * FromLE(s[3..]));
  }

  lemma {:induction false} JoinLE(s: seq<Byte>, k: nat)
    requires k <= |s|
    ensures FromLE(s) == FromLE(s[..k]) + Pow256(k) * FromLE(s[k..])
  {
    if k > 0 {
      JoinLE(s[1..], k - 1);
      assert s[..k][1..] == s[1..][..k - 1] && s[1..][k - 1..] == s[k..];
      JoinStep(s[0], FromLE(s[1..][..k - 1]), Pow256(k - 1), FromLE(s[k..]));
    }
  }

  lemma JoinStep(low: nat, mid: nat, power: nat, high: nat)
    ensures low + 256 * (mid + power * high) == (low + 256 * mid) + (256 * power) * high
  {
  }

  lemma WordHalves(buf: seq<Byte>, off: nat)
    requires off + 8 <= |buf|
    ensures Read64(buf, off) == Read32(buf, off) + WORD_LIMIT * Read32(buf, off + 4)
  {
    var s := buf[off..off + 8];
    PowValues();
    JoinLE(s, 4);
    assert s[..4] == buf[off..off + 4] && s[4..] == buf[off + 4..off + 8];
  }

  /** Where the fields of an entry lie: size in bytes 0 to 3, base in 4 to 11, length in 12 to 19, type in 20 to
      23, each number with its low half first. */
  lemma EntryLayout(buf: seq<Byte>, off: nat)
    requires off + 24 <= |buf|
    ensures var e := ReadEntry(buf, off);
            && e.size == Read32(buf, off) && e.kind == Read32(buf, off + 20)
            && e.addr == Read32(buf, off + 4) + WORD_LIMIT * Read32(buf, off + 8)
            && e.len == Read32(buf, off + 12) + WORD_LIMIT * Read32(buf, off + 16)
  {
    WordHalves(buf, off + 4);
    WordHalves(buf, off + 12);
  }

  /** From off on, the buffer is a list of whole entries that ends exactly at its end. */
  ghost predicate WellFormed(buf: seq<Byte>, off: nat)
    decreases |buf| - off
  {
    || off == |buf|
    || (&& off + 24 <= |buf|
        && Read32(buf, off) >= 20
        && off + 4 + Read32(buf, off) <= |buf|
        && WellFormed(buf, off + 4 + Read32(buf, off)))
  }

  /** The entries a walk from off visits. */
  ghost function Entries(buf: seq<Byte>, off: nat): seq<MapEntry>
    requires WellFormed(buf, off)
    decreases |buf| - off
  {
    if off == |buf| then []
    else [ReadEntry(buf, off)] + Entries(buf, off + 4 + Read32(buf, off))
  }

  lemma WalkStep(buf: seq<Byte>, off: nat)
    requires WellFormed(buf, off) && off < |buf|
    ensures off + 24 <= |buf|
    ensures var e := ReadEntry(buf, off);
            var next := off + 4 + e.size;
            && off < next <= |buf|
            && WellFormed(buf, next)
            && Entries(buf, off) == [e] + Entries(buf, next)
  {
  }

  /** The pointer step of the walk: it cannot wrap inside a map that ends below 2^32. */
  function NextEntry(mmap: Word, size: Word): Word {
    AddWord(AddWord(mmap, size), 4)
  }

  lemma NextEntryExact(mmap: Word, size: Word)
    requires mmap + size + 4 < WORD_LIMIT
    ensures NextEntry(mmap, size) == mmap + size + 4
  {
  }

  /** An entry together with the extension bytes its size field announces. */
  datatype Raw = Raw(entry: MapEntry, tail: seq<Byte>)

  ghost predicate RawOk(r: Raw) {
    r.entry.size == 20 + |r.tail|
  }

  ghost function Encode(r: Raw): seq<Byte> {
    ToLE(r.entry.size, 4) + ToLE(r.entry.addr, 8) + ToLE(r.entry.len, 8) + ToLE(r.entry.kind, 4) + r.tail
  }

  ghost function EncodeAll(rs: seq<Raw>): seq<Byte> {
    if rs == [] then [] else Encode(rs[0]) + EncodeAll(rs[1..])
  }

  ghost function EntriesOf(rs: seq<Raw>): seq<MapEntry> {
    if rs == [] then [] else [rs[0].entry] + EntriesOf(rs[1..])
  }

  lemma ReadEncoded(before: seq<Byte>, r: Raw, after: seq<Byte>)
    ensures var buf := before + Encode(r) + after;
            && |before| + 24 <= |buf|
            && ReadEntry(buf, |before|) == r.entry
            && Read32(buf, |before|) == r.entry.size
  {
    var buf, o := before + Encode(r) + after, |before|;
    PowValues();
    assert buf[o..o + 4] == ToLE(r.entry.size, 4);
    assert buf[o + 4..o + 12] == ToLE(r.entry.addr, 8);
    assert buf[o + 12..o + 20] == ToLE(r.entry.len, 8);
    assert buf[o + 20..o + 24] == ToLE(r.entry.kind, 4);
    LERoundTrip(r.entry.size, 4);
    LERoundTrip(r.entry.addr, 8);
    LERoundTrip(r.entry.len, 8);
    LERoundTrip(r.entry.kind, 4);
  }

  lemma WalkPrepend(buf: seq<Byte>, off: nat, e: MapEntry)
    requires off + 24 <= |buf| && ReadEntry(buf, off) == e && e.size >= 20
    requires off + 4 + e.size <= |buf| && WellFormed(buf, off + 4 + e.size)
    ensures WellFormed(buf, off)
    ensures Entries(buf, off) == [e] + Entries(buf, off + 4 + e.size)
  {
  }

  lemma EncodedLength(r: Raw)
    requires RawOk(r)
    ensures |Encode(r)| == 4 + r.entry.size
  {
  }

  lemma WalkDone(buf: seq<Byte>)
    ensures WellFormed(buf, |buf|) && Entries(buf, |buf|) == []
  {
  }

  lemma {:induction false} WalkEncodedFrom(before: seq<Byte>, rs: seq<Raw>, buf: seq<Byte>)
    requires forall r :: r in rs ==> RawOk(r)
    requires buf == before + EncodeAll(rs)
    ensures WellFormed(buf, |before|)
    ensures Entries(buf, |before|) == EntriesOf(rs)
    decreases |rs|
  {
    hide Encode, ReadEntry, Read32, WellFormed, Entries;
    if rs == [] {
      assert buf == before;
      WalkDone(buf);
    } else {
      var r, rest := rs[0], EncodeAll(rs[1..]);
      assert RawOk(r);
      var next := before + Encode(r);
      assert buf == next + rest;
      EncodedLength(r);
      ReadEncoded(before, r, rest);
      WalkEncodedFrom(next, rs[1..], buf);
      assert |next| == |before| + 4 + r.entry.size;
      WalkPrepend(buf, |before|, r.entry);
    }
  }

  /** On a buffer that encodes a list of entries with any extension bytes, the walk visits
      exactly those entries, in order, and stops exactly at the end of the buffer. */
  lemma WalkEncoded(rs: seq<Raw>)
    requires forall r :: r in rs ==> RawOk(r)
    ensures WellFormed(EncodeAll(rs), 0)
    ensures Entries(EncodeAll(rs), 0) == EntriesOf(rs)
  {
    WalkEncodedFrom([], rs, EncodeAll(rs));
  }

  // ------------------------------------------------------------ boot record

  datatype BootModule = BootModule(modStart: Word, modEnd: Word)

  /** multiboot_info_t as the allocator reads it; self is the pointer it is given, and
      mods and mmap are what mods_addr and mmap_addr point to. */
  datatype Info = Info(self: Word, flags: bv32, cmdline: Word,
                       modsCount: Word, mods: seq<BootModule>,
                       mmapLength: Word, mmapAddr: Word, mmap: seq<Byte>)
  {
    predicate HasMap() { flags & INFO_MEM_MAP != 0 }
    predicate HasMods() { flags & INFO_MODS != 0 }
    predicate HasCmdline() { flags & INFO_CMDLINE != 0 }
  }

  /** The loader's promises about the fields whose flags are set; the others may hold anything. */
  ghost predicate ValidInfo(mbi: Info) {
    && (mbi.HasMods() ==> |mbi.mods| == mbi.modsCount)
    && (mbi.HasMap() ==>
          && |mbi.mmap| == mbi.mmapLength
          && mbi.mmapAddr + mbi.mmapLength < WORD_LIMIT
          && WellFormed(mbi.mmap, 0))
  }

  // ------------------------------------------------------------ bounds pass

  /** The end of a region with the 64-bit sum, capped at the last 32-bit address. */
  function CappedEnd(e: MapEntry): Word {
    var end := (e.addr + e.len) % LIMIT64;
    if end > 0xFFFF_FFFF then 0xFFFF_FFFF else end
  }

  predicate Counts(e: MapEntry) {
    e.kind == MEMORY_AVAILABLE && e.addr < 0xFFFF_FFFF
  }

  /** m is the highest capped end of a usable region, 0 when there is none. */
  ghost predicate IsMaxUsable(es: seq<MapEntry>, m: Word) {
    && (forall i :: 0 <= i < |es| && Counts(es[i]) ==> CappedEnd(es[i]) <= m)
    && (m == 0 || exists i :: 0 <= i < |es| && Counts(es[i]) && CappedEnd(es[i]) == m)
  }

  /** Where the 64-bit sum of base and length ends. */
  function EndOf(e: MapEntry): nat {
    if e.addr + e.len < LIMIT64 then e.addr + e.len else e.addr + e.len - LIMIT64
  }

  /** Entry i is a region of type 1 that starts below the last 32-bit address. */
  predicate UsableLow(es: seq<MapEntry>, i: nat)
    requires i < |es|
  {
    es[i].kind == 1 && es[i].addr < 0xFFFF_FFFF
  }

  /** m is the least limit that no such region passes, or the last 32-bit address if some region does. */
  ghost predicate LimitOf(es: seq<MapEntry>, m: nat) {
    && m <= 0xFFFF_FFFF
    && (forall i :: 0 <= i < |es| && UsableLow(es, i) ==> EndOf(es[i]) <= m || m == 0xFFFF_FFFF)
    && (m == 0 || exists i :: 0 <= i < |es| && UsableLow(es, i)
                              && (EndOf(es[i]) == m || (EndOf(es[i]) > m && m == 0xFFFF_FFFF)))
  }

  lemma WordEnd(e: MapEntry)
    ensures (e.addr + e.len) % LIMIT64 == EndOf(e)
  {
  }

  /** The result of the bounds pass is that limit: regions of other types do not count. */
  lemma LimitExact(es: seq<MapEntry>, m: Word)
    ensures IsMaxUsable(es, m) <==> LimitOf(es, m)
  {
    forall i | 0 <= i < |es|
      ensures Counts(es[i]) <==> UsableLow(es, i)
      ensures CappedEnd(es[i]) == if EndOf(es[i]) > 0xFFFF_FFFF then 0xFFFF_FFFF else EndOf(es[i])
    {
      WordEnd(es[i]);
    }
    if IsMaxUsable(es, m) && m != 0 {
      var i :| 0 <= i < |es| && Counts(es[i]) && CappedEnd(es[i]) == m;
      assert UsableLow(es, i);
    }
    if LimitOf(es, m) && m != 0 {
      var i :| 0 <= i < |es| && UsableLow(es, i)
               && (EndOf(es[i]) == m || (EndOf(es[i]) > m && m == 0xFFFF_FFFF));
      assert Counts(es[i]) && CappedEnd(es[i]) == m;
    }
  }

  lemma NoMaxUsable()
    ensures IsMaxUsable([], 0)
  {
  }

  lemma MaxStep(es: seq<MapEntry>, e: MapEntry, m: Word, m': Word)
    requires IsMaxUsable(es, m)
    requires m' == if Counts(e) && CappedEnd(e) > m then CappedEnd(e) else m
    ensures IsMaxUsable(es + [e], m')
  {
    var all := es + [e];
    assert all[|es|] == e;
    if m != 0 {
      var i :| 0 <= i < |es| && Counts(es[i]) && CappedEnd(es[i]) == m;
      assert all[i] == es[i];
    }
  }

  /** A walk that has visited the entries seen and stands at offset off. */
  ghost predicate Walking(mmap: seq<Byte>, seen: seq<MapEntry>, off: int) {
    && 0 <= off <= |mmap|
    && WellFormed(mmap, 0) && WellFormed(mmap, off)
    && Entries(mmap, 0) == seen + Entries(mmap, off)
  }

  lemma WalkOn(mmap: seq<Byte>, seen: seq<MapEntry>, off: nat)
    requires Walking(mmap, seen, off) && off < |mmap|
    ensures off + 24 <= |mmap|
    ensures off < off + 4 + ReadEntry(mmap, off).size <= |mmap|
    ensures Walking(mmap, seen + [ReadEntry(mmap, off)], off + 4 + ReadEntry(mmap, off).size)
  {
    hide WellFormed, Entries, ReadEntry;
    WalkStep(mmap, off);
    var e := ReadEntry(mmap, off);
    assert seen + ([e] + Entries(mmap, off + 4 + e.size)) == seen + [e] + Entries(mmap, off + 4 + e.size);
  }

  lemma WalkVisits(mmap: seq<Byte>, seen: seq<MapEntry>, off: nat)
    requires Walking(mmap, seen, off) && off < |mmap|
    ensures off + 24 <= |mmap| && ReadEntry(mmap, off) in Entries(mmap, 0)
  {
    assert (seen + Entries(mmap, off))[|seen|] == ReadEntry(mmap, off);
  }

  lemma WalkEnds(mmap: seq<Byte>, seen: seq<MapEntry>, off: int)
    requires Walking(mmap, seen, off)
    ensures 0 <= off <= |mmap|
    ensures off == |mmap| ==> seen == Entries(mmap, 0)
  {
  }

  lemma WalkBegins(mmap: seq<Byte>)
    requires WellFormed(mmap, 0)
    ensures Walking(mmap, [], 0)
  {
  }

  /** What one available region adds to the total, with the cap and the sums of the code: above 4 GB the
      capped length wraps. */
  function RegionKb(e: MapEntry): Word {
    var end := (e.addr + e.len) % LIMIT64;
    var length := if end > 0xFFFF_FFFF then (0xFFFF_FFFF - e.addr) % LIMIT64 else e.len;
    length / 1024 % WORD_LIMIT
  }

  ghost function TotalKb(es: seq<MapEntry>): Word {
    if es == [] then 0
    else
      var last := es[|es| - 1];
      AddWord(TotalKb(es[..|es| - 1]), if last.kind == MEMORY_AVAILABLE then RegionKb(last) else 0)
  }

  /** The kilobytes of a region below the cap. */
  function UsableKb(e: MapEntry): nat {
    if e.addr > 0xFFFF_FFFF then 0
    else ((if e.addr + e.len > 0xFFFF_FFFF then 0xFFFF_FFFF else e.addr + e.len) - e.addr) / 1024
  }

  /** A region without 64-bit wrap is counted by what lies below the cap exactly when it starts below it, or
      so far above that the wrapped length is again a multiple of 2^32 kilobytes. */
  lemma RegionKbExact(e: MapEntry)
    requires e.addr + e.len < LIMIT64
    requires e.addr > 0xFFFF_FFFF ==> e.len > 0
    ensures RegionKb(e) == UsableKb(e) <==>
            e.addr <= 0xFFFF_FFFF || (e.addr - 0xFFFF_FFFF + 1023) / 1024 % WORD_LIMIT == 0
  {
    hide RegionKb;
    if e.addr > 0xFFFF_FFFF {
      HighKb(e);
    } else {
      LowKb(e);
    }
  }

  lemma LowKb(e: MapEntry)
    requires e.addr <= 0xFFFF_FFFF && e.addr + e.len < LIMIT64
    ensures RegionKb(e) == UsableKb(e)
  {
    var end := e.addr + e.len;
    assert end % LIMIT64 == end;
    if end > 0xFFFF_FFFF {
      assert (0xFFFF_FFFF - e.addr) % LIMIT64 == 0xFFFF_FFFF - e.addr;
    }
  }

  lemma HighKb(e: MapEntry)
    requires e.addr > 0xFFFF_FFFF && e.len > 0 && e.addr + e.len < LIMIT64
    ensures RegionKb(e) == 0 <==> (e.addr - 0xFFFF_FFFF + 1023) / 1024 % WORD_LIMIT == 0
  {
    var end := e.addr + e.len;
    assert end % LIMIT64 == end;
    WrappedKb(e.addr - 0xFFFF_FFFF);
  }

  /** The kilobytes of a length that is d below 0 and wraps. */
  lemma WrappedKb(d: nat)
    requires 0 < d < LIMIT64
    ensures (0 - d) % LIMIT64 == LIMIT64 - d
    ensures (LIMIT64 - d) / 1024 % WORD_LIMIT == 0 <==> (d + 1023) / 1024 % WORD_LIMIT == 0
  {
    var k := (d + 1023) / 1024;
    assert (LIMIT64 - d) / 1024 == LIMIT64 / 1024 - k;
    NegatedTurns(k);
  }

  lemma NegatedTurns(k: nat)
    ensures (0x40_0000 * WORD_LIMIT - k) % WORD_LIMIT == 0 <==> k % WORD_LIMIT == 0
  {
  }

  /** The kilobytes of the regions of type 1 below the cap. */
  ghost function UsableTotal(es: seq<MapEntry>): nat {
    if es == [] then 0
    else (if es[0].kind == 1 then UsableKb(es[0]) else 0) + UsableTotal(es[1..])
  }

  lemma {:induction false} UsableTotalAppend(es: seq<MapEntry>, e: MapEntry)
    ensures UsableTotal(es + [e]) == UsableTotal(es) + if e.kind == 1 then UsableKb(e) else 0
  {
    if es == [] {
      assert [e][1..] == [];
    } else {
      assert (es + [e])[1..] == es[1..] + [e];
      UsableTotalAppend(es[1..], e);
    }
  }

  /** When every region of type 1 starts below 4 GB and none wraps, the total counted is the true one, modulo
      2^32. */
  lemma {:induction false} TotalKbExact(es: seq<MapEntry>)
    requires forall i :: 0 <= i < |es| && es[i].kind == 1 ==>
                           es[i].addr <= 0xFFFF_FFFF && es[i].addr + es[i].len < LIMIT64
    ensures TotalKb(es) == UsableTotal(es) % WORD_LIMIT
  {
    if es != [] {
      var n := |es| - 1;
      TotalKbExact(es[..n]);
      UsableTotalAppend(es[..n], es[n]);
      assert es[..n] + [es[n]] == es;
      if es[n].kind == 1 {
        RegionKbExact(es[n]);
        SumWord(UsableTotal(es[..n]), UsableKb(es[n]));
      }
    }
  }

  lemma SumWord(a: nat, b: nat)
    ensures (a % WORD_LIMIT + b) % WORD_LIMIT == (a + b) % WORD_LIMIT
  {
  }

  /** The body of the bounds pass for one entry. */
  method VisitRegion(e: MapEntry, maxUsableAddr: Word, totalUsableKb: Word, ghost seen: seq<MapEntry>)
    returns (maxAddr: Word, totalKb: Word)
    requires IsMaxUsable(seen, maxUsableAddr) && totalUsableKb == TotalKb(seen)
    ensures IsMaxUsable(seen + [e], maxAddr) && totalKb == TotalKb(seen + [e])
  {
    hide IsMaxUsable;
    maxAddr, totalKb := maxUsableAddr, totalUsableKb;
    if e.kind == MEMORY_AVAILABLE {
      var base, length := e.addr, e.len;
      var end := (base + length) % LIMIT64;
      // cap at 4 GB
      if end > 0xFFFF_FFFF {
        end := 0xFFFF_FFFF;
        length := (end - base) % LIMIT64;
      }
      // track the highest usable address
      if end > maxUsableAddr && base < 0xFFFF_FFFF {
        maxAddr := end;
      }
      totalKb := AddWord(totalKb, length / 1024 % WORD_LIMIT);
    }
    MaxStep(seen, e, maxUsableAddr, maxAddr);
    assert (seen + [e])[..|seen|] == seen;
  }

  method FindUsableMemoryBounds(mbi: Info) returns (maxUsableAddr: Word, totalUsableKb: Word)
    requires ValidInfo(mbi) && mbi.HasMap()
    ensures LimitOf(Entries(mbi.mmap, 0), maxUsableAddr) && IsMaxUsable(Entries(mbi.mmap, 0), maxUsableAddr)
    ensures totalUsableKb == TotalKb(Entries(mbi.mmap, 0))
  {
    hide Walking, WellFormed, Entries, ReadEntry, IsMaxUsable, LimitOf;
    maxUsableAddr, totalUsableKb := 0, 0;
    NoMaxUsable();
    WalkBegins(mbi.mmap);
    var mmap := mbi.mmapAddr;
    var mmapEnd := AddWord(mbi.mmapAddr, mbi.mmapLength);
    assert mmapEnd == mbi.mmapAddr + mbi.mmapLength;
    ghost var seen: seq<MapEntry>, off: nat := [], 0;
    while mmap < mmapEnd
      invariant mmap == mbi.mmapAddr + off
      invariant Walking(mbi.mmap, seen, off)
      invariant IsMaxUsable(seen, maxUsableAddr) && totalUsableKb == TotalKb(seen)
      decreases mmapEnd - mmap
    {
      WalkEnds(mbi.mmap, seen, off);
      WalkOn(mbi.mmap, seen, off);
      var e := ReadEntry(mbi.mmap, mmap - mbi.mmapAddr);
      maxUsableAddr, totalUsableKb := VisitRegion(e, maxUsableAddr, totalUsableKb, seen);
      NextEntryExact(mmap, e.size);
      seen, off := seen + [e], off + 4 + e.size;
      mmap := NextEntry(mmap, e.size);
    }
    WalkEnds(mbi.mmap, seen, off);
    LimitExact(seen, maxUsableAddr);
  }

  /** The display pass of get_max_usable_pages, which prints nothing: the entries it passes over. */
  method DisplayRegions(mbi: Info) returns (ghost visited: seq<MapEntry>)
    requires ValidInfo(mbi) && mbi.HasMap()
    ensures visited == Entries(mbi.mmap, 0)
  {
    hide Walking, WellFormed, Entries, ReadEntry;
    visited := [];
    WalkBegins(mbi.mmap);
    var mmap := mbi.mmapAddr;
    var mmapEnd := AddWord(mbi.mmapAddr, mbi.mmapLength);
    assert mmapEnd == mbi.mmapAddr + mbi.mmapLength;
    ghost var off: nat := 0;
    while mmap < mmapEnd
      invariant mmap == mbi.mmapAddr + off
      invariant Walking(mbi.mmap, visited, off)
      decreases mmapEnd - mmap
    {
      WalkEnds(mbi.mmap, visited, off);
      WalkOn(mbi.mmap, visited, off);
      var e := ReadEntry(mbi.mmap, mmap - mbi.mmapAddr);
      NextEntryExact(mmap, e.size);
      visited, off := visited + [e], off + 4 + e.size;
      mmap := NextEntry(mmap, e.size);
    }
    WalkEnds(mbi.mmap, visited, off);
  }

  // ------------------------------------------- what the marking pass will clear

  /** The frames the marking pass clears for an available region: first frame, and the end of the
      loop with the truncations and sums the code uses. */
  function MarkLen(e: MapEntry): Word {
    var length := if (e.addr + e.len) % LIMIT64 > WORD_LIMIT && e.addr < WORD_LIMIT
                  then WORD_LIMIT - e.addr else e.len;
    (length / PAGE_SIZE) % WORD_LIMIT
  }

  function MarkEnd(e: MapEntry): Word
    requires e.addr < WORD_LIMIT
  {
    AddWord(e.addr / PAGE_SIZE, MarkLen(e))
  }

  predicate Marks(e: MapEntry) {
    e.kind == MEMORY_AVAILABLE && e.addr < WORD_LIMIT
  }

  ghost predicate Covers(e: MapEntry, f: nat) {
    Marks(e) && e.addr / PAGE_SIZE <= f < MarkEnd(e)
  }

  ghost predicate Covered(es: seq<MapEntry>, f: nat) {
    exists i :: 0 <= i < |es| && Covers(es[i], f)
  }

  /** Without 64-bit wrap the cleared frames are the floor of base/4096 and the floor of the clipped
      length/4096 frames from there, never past 2^20. */
  lemma MarkEndNoWrap(e: MapEntry)
    requires e.addr < WORD_LIMIT && e.addr + e.len < LIMIT64
    ensures MarkEnd(e) == e.addr / PAGE_SIZE
                          + (if e.addr + e.len > WORD_LIMIT then WORD_LIMIT - e.addr else e.len) / PAGE_SIZE
    ensures MarkEnd(e) <= BITMAP_SIZE
  {
  }

  lemma AddMod(a: Word, b: nat)
    ensures AddWord(a, b % WORD_LIMIT) == (a + b) % WORD_LIMIT
  {
  }

  /** The quotients of a sum by the page size: the offsets may carry one page. */
  lemma PageCarry(a: nat, b: nat)
    ensures (a + b) / PAGE_SIZE == a / PAGE_SIZE + b / PAGE_SIZE
                                + (if a % PAGE_SIZE + b % PAGE_SIZE >= PAGE_SIZE then 1 else 0)
  {
  }

  /** The end of a region whose 64-bit sum wraps to r. */
  lemma MarkEndWrapped(e: MapEntry, r: nat)
    requires e.addr < WORD_LIMIT && e.addr + e.len == LIMIT64 + r
    ensures var carry := e.addr % PAGE_SIZE + e.len % PAGE_SIZE >= PAGE_SIZE;
            MarkEnd(e) == if !carry then r / PAGE_SIZE else if r < PAGE_SIZE then 0xFFFF_FFFF else r / PAGE_SIZE - 1
  {
    assert r < e.addr;
    PageCarry(e.addr, e.len);
    AddMod(e.addr / PAGE_SIZE, e.len / PAGE_SIZE);
    assert MarkLen(e) == (e.len / PAGE_SIZE) % WORD_LIMIT;
    var carry := if e.addr % PAGE_SIZE + e.len % PAGE_SIZE >= PAGE_SIZE then 1 else 0;
    assert e.addr / PAGE_SIZE + e.len / PAGE_SIZE == BITMAP_SIZE * WORD_LIMIT + (r / PAGE_SIZE - carry);
    WholeTurns(r / PAGE_SIZE - carry);
  }

  lemma WholeTurns(t: int)
    requires -1 <= t < WORD_LIMIT
    ensures (BITMAP_SIZE * WORD_LIMIT + t) % WORD_LIMIT == if t < 0 then 0xFFFF_FFFF else t
  {
  }

  /** Exactly when the marking pass stays within 2^20 bits: not when base + length wraps past 2^64 into
      the first page while the two page offsets add up to a page. */
  lemma MarkEndInBounds(e: MapEntry)
    requires e.addr < WORD_LIMIT
    ensures MarkEnd(e) <= BITMAP_SIZE <==>
            !(LIMIT64 <= e.addr + e.len < LIMIT64 + PAGE_SIZE
              && e.addr % PAGE_SIZE + e.len % PAGE_SIZE >= PAGE_SIZE)
  {
    if e.addr + e.len < LIMIT64 {
      MarkEndNoWrap(e);
    } else {
      MarkEndWrapped(e, e.addr + e.len - LIMIT64);
    }
  }

  /** A region that does leave it: its start frame is 1 and its page count 2^52 - 2, so the 32-bit end is the
      last word. */
  lemma MarkEndLeavesBitmap()
    ensures var e := MapEntry(20, 0x1FFF, LIMIT64 - 0x1FFF, MEMORY_AVAILABLE);
            Marks(e) && MarkEnd(e) == 0xFFFF_FFFF
  {
    MarkEndWrapped(MapEntry(20, 0x1FFF, LIMIT64 - 0x1FFF, MEMORY_AVAILABLE), 0);
  }

  /** Every byte of frame f belongs to the region. */
  ghost predicate Inside(e: MapEntry, f: nat) {
    e.addr <= f * PAGE_SIZE && (f + 1) * PAGE_SIZE <= e.addr + e.len
  }

  /** The frames cleared for a region lie wholly inside it exactly when it is page aligned or shorter than a
      page: the start is rounded down. */
  lemma CoversInside(e: MapEntry)
    requires Marks(e) && e.addr + e.len < LIMIT64
    ensures (forall f: nat :: Covers(e, f) ==> Inside(e, f)) <==> e.addr % PAGE_SIZE == 0 || MarkLen(e) == 0
  {
    MarkEndNoWrap(e);
    var first, n := e.addr / PAGE_SIZE, MarkLen(e);
    MarkLenFits(e);
    if e.addr % PAGE_SIZE == 0 {
      forall f: nat | Covers(e, f)
        ensures Inside(e, f)
      {
        assert (f + 1) * PAGE_SIZE <= (first + n) * PAGE_SIZE;
      }
    } else if n > 0 {
      assert Covers(e, first) && first * PAGE_SIZE < e.addr;
    }
  }

  lemma MarkLenFits(e: MapEntry)
    requires e.addr < WORD_LIMIT && e.addr + e.len < LIMIT64
    ensures MarkLen(e) * PAGE_SIZE <= e.len && MarkEnd(e) == e.addr / PAGE_SIZE + MarkLen(e)
  {
  }

  function BitmapBytes(frames: Word): Word
    requires frames <= BITMAP_SIZE
  {
    (frames + BITS_PER_BYTE - 1) / BITS_PER_BYTE
  }

  /** There is a bit for every frame, and less than a byte more. */
  lemma BitmapBytesExact(frames: Word)
    requires frames <= BITMAP_SIZE
    ensures frames <= BITS_PER_BYTE * BitmapBytes(frames) < frames + 8
  {
  }

  /** The two passes cap 4 GB differently, yet the bit array sized from the first pass has a bit for
      every frame the second one clears, and each such frame starts below the highest usable address. */
  lemma BitmapLargeEnough(es: seq<MapEntry>, m: Word, f: nat)
    requires IsMaxUsable(es, m)
    requires forall i :: 0 <= i < |es| && Marks(es[i]) ==> MarkEnd(es[i]) <= BITMAP_SIZE
    requires Covered(es, f)
    ensures f < BITS_PER_BYTE * BitmapBytes(m / PAGE_SIZE) <= BITS_PER_BYTE * BITMAP_BYTES
    ensures f * PAGE_SIZE < m
  {
    var i :| 0 <= i < |es| && Covers(es[i], f);
    var e := es[i];
    MarkedEnd(e);
    FrameFits(f, m);
  }

  lemma FrameFits(f: nat, m: Word)
    requires (f + 1) * PAGE_SIZE <= m || (m == 0xFFFF_FFFF && f < BITMAP_SIZE)
    ensures f < BITS_PER_BYTE * BitmapBytes(m / PAGE_SIZE) <= BITS_PER_BYTE * BITMAP_BYTES
    ensures f * PAGE_SIZE < m
  {
    assert f <= m / PAGE_SIZE;
    assert m / PAGE_SIZE <= 0xF_FFFF;
  }

  /** A region that marks any frame at all, and stays in bounds, does not wrap; its frames lie below its capped end. */
  lemma MarkedEnd(e: MapEntry)
    requires Marks(e) && e.addr / PAGE_SIZE < MarkEnd(e) <= BITMAP_SIZE
    ensures Counts(e)
    ensures if e.addr + e.len > 0xFFFF_FFFF then CappedEnd(e) == 0xFFFF_FFFF
            else MarkEnd(e) * PAGE_SIZE <= CappedEnd(e)
  {
    if e.addr + e.len >= LIMIT64 {
      MarkEndWrapped(e, e.addr + e.len - LIMIT64);
      assert false;
    }
    MarkEndNoWrap(e);
  }
}
