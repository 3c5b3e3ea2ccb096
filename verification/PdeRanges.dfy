/** The directory summary (src/memory/memory.h): counting the free directory
    entries, finding the first one, and collecting the free runs. */
module PdeRanges {
  import opened Bitmap
  import opened Paging

  const PDE_COUNT := 1024

  /** Inclusive bounds of a run. */
  datatype PdeRange = PdeRange(start: nat, end: nat)

  predicate IsPdeFree(pde: Word) {
    pde % 2 == 0
  }

  /** An entry that counts as free is one through which no address of its 4 MB translates, whatever the rest of
      memory holds; through any other entry an address translates as soon as its page table entry is present. */
  lemma FreeMeansUnmapped(mem: Memory, pd: nat, va: Word)
    requires pd < BITMAP_SIZE
    ensures var pde := Entry(mem, pd, va / 0x40_0000);
            && (IsPdeFree(pde) ==> Walk(mem, pd, va).None?)
            && (!IsPdeFree(pde) ==>
                  (Walk(mem, pd, va).Some? <==> Present(Entry(mem, FrameOf(pde), va / PAGE_SIZE % 1024))))
  {
  }

  /** The free entries below i. */
  ghost function FreeBelow(pd: seq<Word>, i: nat): set<nat>
    requires i <= |pd|
  {
    set j: nat | j < i && IsPdeFree(pd[j])
  }

  lemma FreeBelowStep(pd: seq<Word>, i: nat)
    requires i < |pd|
    ensures FreeBelow(pd, i + 1) == FreeBelow(pd, i) + if IsPdeFree(pd[i]) then {i} else {}
    ensures |FreeBelow(pd, i + 1)| == |FreeBelow(pd, i)| + if IsPdeFree(pd[i]) then 1 else 0
  {
    if IsPdeFree(pd[i]) {
      assert FreeBelow(pd, i + 1) == FreeBelow(pd, i) + {i};
    } else {
      assert FreeBelow(pd, i + 1) == FreeBelow(pd, i);
    }
  }

  method CountFreePdes(pd: seq<Word>) returns (freeCount: nat)
    requires |pd| == PDE_COUNT
    ensures freeCount == |FreeBelow(pd, PDE_COUNT)|
  {
    freeCount := 0;
    assert FreeBelow(pd, 0) == {};
    var i := 0;
    while i < PDE_COUNT
      invariant 0 <= i <= PDE_COUNT
      invariant freeCount == |FreeBelow(pd, i)|
    {
      FreeBelowStep(pd, i);
      if IsPdeFree(pd[i]) {
        freeCount := freeCount + 1;
      }
      i := i + 1;
    }
  }

  method FindFirstFreePde(pd: seq<Word>) returns (first: int)
    requires |pd| == PDE_COUNT
    ensures first == -1 <==> FreeBelow(pd, PDE_COUNT) == {}
    ensures first != -1 ==> first in FreeBelow(pd, PDE_COUNT) && FreeBelow(pd, first) == {}
  {
    var i := 0;
    while i < PDE_COUNT
      invariant 0 <= i <= PDE_COUNT
      invariant FreeBelow(pd, i) == {}
    {
      if IsPdeFree(pd[i]) {
        assert i in FreeBelow(pd, PDE_COUNT);
        return i;
      }
      FreeBelowStep(pd, i);
      i := i + 1;
    }
    return -1;
  }

  /** A maximal run of free entries. */
  ghost predicate MaximalRun(pd: seq<Word>, r: PdeRange) {
    && r.start <= r.end < |pd|
    && (forall j :: r.start <= j <= r.end ==> IsPdeFree(pd[j]))
    && (r.start > 0 ==> !IsPdeFree(pd[r.start - 1]))
    && (r.end + 1 < |pd| ==> !IsPdeFree(pd[r.end + 1]))
  }

  /** rs lists maximal runs, in increasing order, with at least one entry between any two. */
  ghost predicate RunList(pd: seq<Word>, rs: seq<PdeRange>) {
    && (forall i :: 0 <= i < |rs| ==> MaximalRun(pd, rs[i]))
    && (forall i, j :: 0 <= i < j < |rs| ==> rs[i].end + 1 < rs[j].start)
  }

  /** The entries of a list of runs. */
  ghost function Union(rs: seq<PdeRange>): set<nat> {
    if rs == [] then {} else Union(rs[..|rs| - 1]) + Span(rs[|rs| - 1])
  }

  ghost function Span(r: PdeRange): set<nat> {
    set j: nat | j <= r.end && From(r.start, j)
  }

  ghost function TotalLength(rs: seq<PdeRange>): int {
    if rs == [] then 0 else TotalLength(rs[..|rs| - 1]) + (rs[|rs| - 1].end - rs[|rs| - 1].start + 1)
  }

  /** All runs of the directory: every free entry lies in one. */
  ghost predicate AllRuns(pd: seq<Word>, rs: seq<PdeRange>) {
    RunList(pd, rs) && Union(rs) == FreeBelow(pd, |pd|)
  }

  lemma {:induction false} UnionMember(rs: seq<PdeRange>, j: nat)
    ensures j in Union(rs) <==> exists i :: 0 <= i < |rs| && rs[i].start <= j <= rs[i].end
  {
    if rs != [] {
      var n := |rs| - 1;
      UnionMember(rs[..n], j);
      assert forall i :: 0 <= i < n ==> rs[..n][i] == rs[i];
    }
  }

  lemma {:induction false} RunCount(pd: seq<Word>, rs: seq<PdeRange>)
    requires RunList(pd, rs)
    ensures rs != [] ==> 2 * |rs| <= rs[|rs| - 1].end + 2
  {
    if |rs| > 1 {
      var n := |rs| - 1;
      RunCount(pd, rs[..n]);
      assert rs[..n][n - 1] == rs[n - 1];
      assert rs[n - 1].end + 1 < rs[n].start;
    }
  }

  /** At most 512 runs exist in 1024 entries, so a buffer of 512 never cuts the list. */
  lemma AtMost512(pd: seq<Word>, rs: seq<PdeRange>)
    requires |pd| == PDE_COUNT && RunList(pd, rs)
    ensures |rs| <= 512
  {
    RunCount(pd, rs);
    if rs != [] {
      assert rs[|rs| - 1].end < PDE_COUNT;
    }
  }

  /** The directory determines the list of all its runs. */
  lemma RunsUnique(pd: seq<Word>, a: seq<PdeRange>, b: seq<PdeRange>)
    requires AllRuns(pd, a) && AllRuns(pd, b)
    ensures a == b
  {
    forall i | 0 <= i < |a|
      ensures i < |b| && a[i] == b[i]
    {
      SameAt(pd, a, b, i);
    }
    if b != [] {
      SameAt(pd, b, a, |b| - 1);
    }
  }

  lemma {:induction false} SameAt(pd: seq<Word>, a: seq<PdeRange>, b: seq<PdeRange>, i: nat)
    requires AllRuns(pd, a) && AllRuns(pd, b) && i < |a|
    ensures i < |b| && a[i] == b[i]
    decreases i, 1
  {
    var j := Matching(pd, a, b, i);
    if i > 0 {
      SameAt(pd, a, b, i - 1);
      assert a[i - 1].end + 1 < a[i].start;
    }
    assert i <= j;
    if j > 0 {
      assert b[j - 1].end + 1 < b[j].start;
      EarlierRun(pd, a, b, i, j - 1);
    }
  }

  /** A run of b that starts before a[i] comes before index i. */
  lemma {:induction false} EarlierRun(pd: seq<Word>, a: seq<PdeRange>, b: seq<PdeRange>, i: nat, x: nat)
    requires AllRuns(pd, a) && AllRuns(pd, b) && i < |a| && x < |b|
    requires b[x].start < a[i].start
    ensures x < i
    decreases i, 0
  {
    var h := Matching(pd, b, a, x);
    SameAt(pd, a, b, h);
  }

  /** Every run of one list occurs in the other. */
  lemma Matching(pd: seq<Word>, a: seq<PdeRange>, b: seq<PdeRange>, i: nat) returns (j: nat)
    requires AllRuns(pd, a) && AllRuns(pd, b) && i < |a|
    ensures j < |b| && b[j] == a[i]
  {
    var s := a[i].start;
    UnionMember(a, s);
    assert s in Union(b);
    UnionMember(b, s);
    j :| 0 <= j < |b| && b[j].start <= s <= b[j].end;
    SameRun(pd, a[i], b[j]);
  }

  lemma SameRun(pd: seq<Word>, a: PdeRange, b: PdeRange)
    requires MaximalRun(pd, a) && MaximalRun(pd, b) && b.start <= a.start <= b.end
    ensures a == b
  {
    assert a.start > 0 ==> !IsPdeFree(pd[a.start - 1]);
    assert a.end + 1 < |pd| ==> !IsPdeFree(pd[a.end + 1]);
    assert b.end + 1 < |pd| ==> !IsPdeFree(pd[b.end + 1]);
  }

  lemma LastApart(pd: seq<Word>, rs: seq<PdeRange>)
    requires RunList(pd, rs) && rs != []
    ensures RunList(pd, rs[..|rs| - 1]) && Union(rs[..|rs| - 1]) !! Span(rs[|rs| - 1])
  {
    var n := |rs| - 1;
    forall j | j in Union(rs[..n])
      ensures j !in Span(rs[n])
    {
      UnionMember(rs[..n], j);
      var i :| 0 <= i < n && rs[..n][i].start <= j <= rs[..n][i].end;
      assert rs[i].end + 1 < rs[n].start;
    }
  }

  /** The lengths of the runs sum to the number of entries they cover. */
  lemma {:induction false} LengthsSum(pd: seq<Word>, rs: seq<PdeRange>)
    requires RunList(pd, rs)
    ensures TotalLength(rs) == |Union(rs)|
  {
    if rs != [] {
      var n := |rs| - 1;
      LastApart(pd, rs);
      LengthsSum(pd, rs[..n]);
      assert MaximalRun(pd, rs[n]);
      SpanSize(rs[n].start, rs[n].end);
      assert |Union(rs)| == |Union(rs[..n])| + |Span(rs[n])|;
    }
  }

  lemma {:induction false} SpanSize(a: nat, b: nat)
    requires a <= b
    ensures |Span(PdeRange(a, b))| == b - a + 1
    decreases b
  {
    if a == b {
      assert Span(PdeRange(a, b)) == {a};
    } else {
      SpanSize(a, b - 1);
      assert Span(PdeRange(a, b)) == Span(PdeRange(a, b - 1)) + {b};
    }
  }

  /** The runs closed before entry i, while the loop stands at i with start as its open run (or -1). */
  ghost predicate Collecting(pd: seq<Word>, rs: seq<PdeRange>, start: int, i: nat) {
    && i <= |pd|
    && -1 <= start < i
    && RunList(pd, rs)
    && Union(rs) == FreeBelow(pd, if start == -1 then i else start)
    && (forall j :: 0 <= j < |rs| ==> rs[j].end + 1 < if start == -1 then i else start)
    && (start == -1 ==> i > 0 ==> !IsPdeFree(pd[i - 1]))
    && (start > 0 ==> !IsPdeFree(pd[start - 1]))
    && (start != -1 ==> forall j :: start <= j < i ==> IsPdeFree(pd[j]))
  }

  lemma OpenRun(pd: seq<Word>, rs: seq<PdeRange>, start: int, i: nat)
    requires Collecting(pd, rs, start, i) && i < |pd| && IsPdeFree(pd[i])
    ensures Collecting(pd, rs, if start == -1 then i else start, i + 1)
  {
  }

  lemma NoRun(pd: seq<Word>, rs: seq<PdeRange>, i: nat)
    requires Collecting(pd, rs, -1, i) && i < |pd| && !IsPdeFree(pd[i])
    ensures Collecting(pd, rs, -1, i + 1)
  {
    FreeBelowStep(pd, i);
  }

  lemma CloseRun(pd: seq<Word>, rs: seq<PdeRange>, start: nat, i: nat)
    requires Collecting(pd, rs, start, i) && (i < |pd| ==> !IsPdeFree(pd[i]))
    ensures var all := rs + [PdeRange(start, i - 1)];
            && RunList(pd, all) && Union(all) == FreeBelow(pd, i)
            && (i < |pd| ==> Collecting(pd, all, -1, i + 1))
  {
    hide Union, RunList, FreeBelow;
    var r := PdeRange(start, i - 1);
    RunAppend(pd, rs, r);
    UnionAppend(rs, r);
    FreeBelowRun(pd, start, i);
    if i < |pd| {
      FreeBelowStep(pd, i);
    }
  }

  lemma RunAppend(pd: seq<Word>, rs: seq<PdeRange>, r: PdeRange)
    requires RunList(pd, rs) && MaximalRun(pd, r)
    requires forall j :: 0 <= j < |rs| ==> rs[j].end + 1 < r.start
    ensures RunList(pd, rs + [r])
  {
  }

  lemma UnionAppend(rs: seq<PdeRange>, r: PdeRange)
    ensures Union(rs + [r]) == Union(rs) + Span(r)
  {
    assert (rs + [r])[..|rs|] == rs;
  }

  lemma FreeBelowRun(pd: seq<Word>, start: nat, i: nat)
    requires start < i <= |pd| && forall j :: start <= j < i ==> IsPdeFree(pd[j])
    ensures FreeBelow(pd, i) == FreeBelow(pd, start) + Span(PdeRange(start, i - 1))
  {
  }

  /** The runs copied so far are the first maxRanges of those found. */
  ghost predicate Copied(ranges: seq<PdeRange>, was: seq<PdeRange>, count: nat, maxRanges: nat, runs: seq<PdeRange>) {
    && |ranges| == |was|
    && count == (if |runs| < maxRanges then |runs| else maxRanges) <= |ranges|
    && ranges == runs[..count] + was[count..]
  }

  /** The end of a run: it is stored if the buffer has room. */
  method StoreRun(ranges: array<PdeRange>, count: nat, maxRanges: nat, start: nat, end: nat,
                  ghost runs: seq<PdeRange>, ghost was: seq<PdeRange>)
    returns (newCount: nat)
    requires maxRanges <= ranges.Length && Copied(ranges[..], was, count, maxRanges, runs)
    modifies ranges
    ensures Copied(ranges[..], was, newCount, maxRanges, runs + [PdeRange(start, end)])
  {
    ghost var before := ranges[..];
    newCount := count;
    if count < maxRanges {
      ranges[count] := PdeRange(start, end);
      newCount := count + 1;
      assert ranges[..] == before[count := PdeRange(start, end)];
    }
  }

  /** The collecting loop fills the buffer with the first maxRanges of the maximal free runs and leaves the
      rest of it alone. */
  method CollectFreePdeRanges(pd: seq<Word>, ranges: array<PdeRange>, maxRanges: nat)
    returns (rangeCount: nat, ghost runs: seq<PdeRange>)
    requires |pd| == PDE_COUNT && maxRanges <= ranges.Length
    modifies ranges
    ensures AllRuns(pd, runs)
    ensures Copied(ranges[..], old(ranges[..]), rangeCount, maxRanges, runs)
  {
    hide Collecting, RunList, Union, Copied;
    ghost var was := ranges[..];
    runs := [];
    rangeCount := 0;
    var start := -1;
    var i := 0;
    CollectingNone(pd);
    CopiedNone(was, maxRanges);
    while i < PDE_COUNT
      invariant 0 <= i <= PDE_COUNT
      invariant Collecting(pd, runs, start, i) && -1 <= start
      invariant Copied(ranges[..], was, rangeCount, maxRanges, runs)
    {
      if IsPdeFree(pd[i]) {
        OpenRun(pd, runs, start, i);
        if start == -1 {
          start := i;
        }
      } else if start != -1 {
        CloseRun(pd, runs, start, i);
        StartBelow(pd, runs, start, i);
        rangeCount := StoreRun(ranges, rangeCount, maxRanges, start, i - 1, runs, was);
        runs := runs + [PdeRange(start, i - 1)];
        start := -1;
      } else {
        NoRun(pd, runs, i);
      }
      i := i + 1;
    }
    // a trailing run
    if start != -1 {
      CloseRun(pd, runs, start, i);
      rangeCount := StoreRun(ranges, rangeCount, maxRanges, start, PDE_COUNT - 1, runs, was);
      runs := runs + [PdeRange(start, PDE_COUNT - 1)];
    } else {
      AllCollected(pd, runs, i);
    }
  }

  lemma CollectingNone(pd: seq<Word>)
    ensures Collecting(pd, [], -1, 0)
  {
    assert FreeBelow(pd, 0) == {};
  }

  lemma CopiedNone(was: seq<PdeRange>, maxRanges: nat)
    requires maxRanges <= |was|
    ensures Copied(was, was, 0, maxRanges, [])
  {
  }

  lemma StartBelow(pd: seq<Word>, rs: seq<PdeRange>, start: int, i: nat)
    requires Collecting(pd, rs, start, i)
    ensures -1 <= start < i
  {
  }

  lemma AllCollected(pd: seq<Word>, rs: seq<PdeRange>, i: nat)
    requires Collecting(pd, rs, -1, i)
    ensures RunList(pd, rs) && Union(rs) == FreeBelow(pd, i)
  {
  }

  /** The summary agrees with itself: with room for 512 runs the printed runs are all of them, their union is
      the set of free entries, their lengths sum to its size, and the first starts at its least element. */
  lemma SummaryAgrees(pd: seq<Word>, runs: seq<PdeRange>)
    requires |pd| == PDE_COUNT && AllRuns(pd, runs)
    ensures |runs| <= 512
    ensures TotalLength(runs) == |FreeBelow(pd, PDE_COUNT)|
    ensures runs == [] <==> FreeBelow(pd, PDE_COUNT) == {}
    ensures runs != [] ==> runs[0].start in FreeBelow(pd, PDE_COUNT) && FreeBelow(pd, runs[0].start) == {}
  {
    AtMost512(pd, runs);
    LengthsSum(pd, runs);
    if runs != [] {
      UnionMember(runs, runs[0].start);
      forall j | j in FreeBelow(pd, runs[0].start)
        ensures false
      {
        assert j in FreeBelow(pd, PDE_COUNT);
        UnionMember(runs, j);
      }
    }
  }

  lemma TwoRunsAll(pd: seq<Word>, from: nat)
    requires |pd| == 1024 && 768 < from < 1023
    requires forall i :: 0 <= i < 1024 ==> (IsPdeFree(pd[i]) <==> 1 <= i <= 767 || from <= i <= 1022)
    ensures AllRuns(pd, [PdeRange(1, 767), PdeRange(from, 1022)])
  {
    hide IsPdeFree, Union;
    var a, b := PdeRange(1, 767), PdeRange(from, 1022);
    assert MaximalRun(pd, a) && MaximalRun(pd, b);
    TwoSpans(a, b);
    assert Span(a) + Span(b) == FreeBelow(pd, 1024);
  }

  lemma TwoSpans(a: PdeRange, b: PdeRange)
    ensures Union([a, b]) == Span(a) + Span(b)
    ensures TotalLength([a, b]) == (a.end - a.start + 1) + (b.end - b.start + 1)
  {
    assert [a, b][..1] == [a] && [a][..0] == [];
    assert Union([a]) == Union([]) + Span(a);
    assert TotalLength([a]) == TotalLength([]) + (a.end - a.start + 1);
  }

  /** A directory whose free entries are 1 to 767 and from on to 1022: what the three calls find in it. */
  lemma TwoRuns(pd: seq<Word>, from: nat)
    requires |pd| == 1024 && 768 < from < 1023
    requires forall i :: 0 <= i < 1024 ==> (IsPdeFree(pd[i]) <==> 1 <= i <= 767 || from <= i <= 1022)
    ensures |FreeBelow(pd, 1024)| == 1790 - from
    ensures 1 in FreeBelow(pd, 1024) && FreeBelow(pd, 1) == {}
    ensures forall runs :: AllRuns(pd, runs) <==> runs == [PdeRange(1, 767), PdeRange(from, 1022)]
  {
    var both := [PdeRange(1, 767), PdeRange(from, 1022)];
    TwoRunsAll(pd, from);
    TwoSpans(both[0], both[1]);
    LengthsSum(pd, both);
    hide RunList, Union, TotalLength;
    forall runs | AllRuns(pd, runs)
      ensures runs == both
    {
      RunsUnique(pd, runs, both);
    }
  }
}
