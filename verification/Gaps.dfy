/** Maximal gaps: the reference meaning of the free index. */
module Gaps {
  import opened Types
  import opened OrderedSet
  import opened Blocks

  predicate InRange(x: int, base: int, size: int) {
    base <= x < base + size
  }

  ghost function Span(base: int, size: int): iset<int> {
    iset x: int | InRange(x, base, size)
  }

  ghost predicate Covers(alloc: seq<AllocatedBlock>, x: int) {
    exists i :: 0 <= i < |alloc| && alloc[i].virtualBase <= x < alloc[i].End()
  }

  /** The addresses that belong to some allocated block. */
  ghost function Occupied(alloc: seq<AllocatedBlock>): iset<int> {
    iset x: int | Covers(alloc, x)
  }

  /** g is a nonempty stretch of [lo, hi) that is unoccupied and cannot be extended either way. */
  ghost predicate MaximalGap(occ: iset<int>, lo: nat, hi: nat, g: FreeBlock) {
    && g.size > 0 && lo <= g.virtualBase && g.End() <= hi
    && (forall x :: g.virtualBase <= x < g.End() ==> x !in occ)
    && (g.virtualBase == lo || g.virtualBase - 1 in occ)
    && (g.End() == hi || g.End() in occ)
  }

  /** Every address of [lo, hi) is in at most one maximal gap. */
  lemma GapUnique(occ: iset<int>, lo: nat, hi: nat, f: FreeBlock, g: FreeBlock, x: int)
    requires MaximalGap(occ, lo, hi, f) && MaximalGap(occ, lo, hi, g)
    requires f.virtualBase <= x < f.End() && g.virtualBase <= x < g.End()
    ensures f == g
  {
  }

  /** Two maximal gaps neither overlap nor touch. */
  lemma GapsApart(occ: iset<int>, lo: nat, hi: nat, f: FreeBlock, g: FreeBlock)
    requires MaximalGap(occ, lo, hi, f) && MaximalGap(occ, lo, hi, g) && f != g
    ensures f.End() < g.virtualBase || g.End() < f.virtualBase
  {
  }

  /** Every unoccupied range lies in a maximal gap. */
  lemma {:induction false} GapAround(occ: iset<int>, hi: u64, base: nat, end: nat) returns (g: FreeBlock)
    requires base < end <= hi
    requires forall x :: base <= x < end ==> x !in occ
    ensures MaximalGap(occ, 0, hi, g) && g.virtualBase <= base && end <= g.End()
    decreases base + (hi - end)
  {
    if base > 0 && base - 1 !in occ {
      g := GapAround(occ, hi, base - 1, end);
    } else if end < hi && end !in occ {
      g := GapAround(occ, hi, base, end + 1);
    } else {
      g := FreeBlock(base, end - base);
    }
  }

  /** What remains of gap f before and after the claimed range. */
  ghost predicate Remnant(f: FreeBlock, base: nat, size: nat, g: FreeBlock) {
    && g.size > 0
    && ((g.virtualBase == f.virtualBase && g.End() == base) || (g.virtualBase == base + size && g.End() == f.End()))
  }

  /** Claiming a range of a maximal gap changes that gap alone: it becomes its remnants. */
  lemma SplitGap(occ: iset<int>, hi: nat, f: FreeBlock, base: nat, size: nat, g: FreeBlock)
    requires MaximalGap(occ, 0, hi, f)
    requires size > 0 && f.virtualBase <= base && base + size <= f.End()
    ensures MaximalGap(occ + Span(base, size), 0, hi, g)
            <==> (g != f && MaximalGap(occ, 0, hi, g)) || Remnant(f, base, size, g)
  {
    var occ' := occ + Span(base, size);
    if MaximalGap(occ', 0, hi, g) {
      if g.End() <= f.virtualBase || f.End() <= g.virtualBase {
        assert MaximalGap(occ, 0, hi, g);
      } else {
        assert base in occ' && base + size - 1 in occ';
        assert f.virtualBase <= g.virtualBase && g.End() <= f.End();
        assert InRange(g.virtualBase, base, size) ==> g.virtualBase in occ';
      }
    }
    if g != f && MaximalGap(occ, 0, hi, g) {
      GapsApart(occ, 0, hi, f, g);
    }
  }

  /** Inserting a block that overlaps no other keeps the layout and occupies its range. */
  lemma {:induction false} InsertBlock(alloc: seq<AllocatedBlock>, lo: nat, hi: nat, b: AllocatedBlock)
    requires Layout(alloc, lo, hi) && hi < U64
    requires b.size > 0 && lo <= b.virtualBase && b.End() <= hi
    requires forall x :: b.virtualBase <= x < b.End() ==> x !in Occupied(alloc)
    ensures var i := LowerBound(alloc, AllocatedLess, b);
            && Insert(alloc, AllocatedLess, b) == InsertAt(alloc, i, b)
            && (i < |alloc| ==> AllocatedLess(b, alloc[i]))
    ensures Layout(Insert(alloc, AllocatedLess, b), lo, hi)
    ensures Occupied(Insert(alloc, AllocatedLess, b)) == Occupied(alloc) + Span(b.virtualBase, b.size)
  {
    var i := LowerBound(alloc, AllocatedLess, b);
    forall k | 0 <= k < |alloc|
      ensures if k < i then alloc[k].End() <= b.virtualBase else b.End() <= alloc[k].virtualBase
    {
      BlockApart(alloc, b, k);
      if i < k {
        assert alloc[i].End() <= alloc[k].virtualBase;
      }
    }
    InsertAtLayout(alloc, lo, hi, i, b);
    InsertAtCovers(alloc, i, b);
  }

  lemma BlockApart(alloc: seq<AllocatedBlock>, b: AllocatedBlock, k: nat)
    requires k < |alloc| && alloc[k].size > 0 && b.size > 0
    requires forall x :: b.virtualBase <= x < b.End() ==> x !in Occupied(alloc)
    ensures alloc[k].End() <= b.virtualBase || b.End() <= alloc[k].virtualBase
  {
    var x := if alloc[k].virtualBase < b.virtualBase then b.virtualBase else alloc[k].virtualBase;
    if alloc[k].virtualBase <= x < alloc[k].End() {
      assert Covers(alloc, x) && x in Occupied(alloc);
    }
  }

  lemma InsertAtLayout(alloc: seq<AllocatedBlock>, lo: nat, hi: nat, i: nat, b: AllocatedBlock)
    requires Layout(alloc, lo, hi) && i <= |alloc|
    requires b.size > 0 && lo <= b.virtualBase && b.End() <= hi
    requires forall k :: 0 <= k < |alloc| ==>
      if k < i then alloc[k].End() <= b.virtualBase else b.End() <= alloc[k].virtualBase
    ensures Layout(InsertAt(alloc, i, b), lo, hi)
  {
  }

  lemma InsertAtCovers(alloc: seq<AllocatedBlock>, i: nat, b: AllocatedBlock)
    requires i <= |alloc|
    ensures Occupied(InsertAt(alloc, i, b)) == Occupied(alloc) + Span(b.virtualBase, b.size)
  {
    var t := InsertAt(alloc, i, b);
    forall x: int
      ensures Covers(t, x) <==> Covers(alloc, x) || b.virtualBase <= x < b.End()
    {
      if k :| 0 <= k < |alloc| && alloc[k].virtualBase <= x < alloc[k].End() {
        assert t[if k < i then k else k + 1] == alloc[k];
      }
      if b.virtualBase <= x < b.End() {
        assert t[i] == b;
      }
      if k :| 0 <= k < |t| && t[k].virtualBase <= x < t[k].End() {
        assert t[k] == if k < i then alloc[k] else if k == i then b else alloc[k - 1];
      }
    }
  }

  /** The maximal gaps of a layout, listed in address order. */
  function GapList(alloc: seq<AllocatedBlock>, lo: u64, hi: u64): (r: seq<FreeBlock>)
    requires lo <= hi
  {
    if alloc == [] then (if lo < hi then [FreeBlock(lo, hi - lo)] else [])
    else if lo <= alloc[0].virtualBase && alloc[0].End() <= hi then
      (if lo < alloc[0].virtualBase then [FreeBlock(lo, alloc[0].virtualBase - lo)] else [])
      + GapList(alloc[1..], alloc[0].End(), hi)
    else []
  }

  /** Cutting the first block off a layout: the gap before it, and the gaps after it. */
  lemma FirstGap(occ: iset<int>, lo: nat, a: AllocatedBlock, hi: nat, g: FreeBlock)
    requires lo <= a.virtualBase && a.size > 0 && a.End() <= hi
    requires forall x :: x in occ ==> a.End() <= x
    ensures MaximalGap(occ + Span(a.virtualBase, a.size), lo, hi, g)
            <==> (lo < a.virtualBase && g == FreeBlock(lo, a.virtualBase - lo))
                 || MaximalGap(occ, a.End(), hi, g)
  {
    var occ' := occ + Span(a.virtualBase, a.size);
    assert a.virtualBase in occ' && a.End() - 1 in occ';
    if MaximalGap(occ', lo, hi, g) {
      assert InRange(g.virtualBase, a.virtualBase, a.size) ==> g.virtualBase in occ';
      if a.End() <= g.virtualBase {
        assert MaximalGap(occ, a.End(), hi, g);
      }
    }
  }

  /** The recursive list and the pointwise definition agree. */
  lemma {:induction false} GapListExact(alloc: seq<AllocatedBlock>, lo: u64, hi: u64)
    requires lo <= hi && Layout(alloc, lo, hi)
    ensures forall g :: g in GapList(alloc, lo, hi) <==> MaximalGap(Occupied(alloc), lo, hi, g)
  {
    if alloc == [] {
      forall g
        ensures g in GapList(alloc, lo, hi) <==> MaximalGap(Occupied(alloc), lo, hi, g)
      {
        assert g.virtualBase - 1 !in Occupied(alloc) && g.End() !in Occupied(alloc);
      }
    } else {
      var a, rest := alloc[0], alloc[1..];
      GapListExact(rest, a.End(), hi);
      assert InsertAt(rest, 0, a) == alloc;
      InsertAtCovers(rest, 0, a);
      forall g
        ensures g in GapList(alloc, lo, hi) <==> MaximalGap(Occupied(alloc), lo, hi, g)
      {
        FirstGap(Occupied(rest), lo, a, hi, g);
      }
    }
  }

  /** The gaps and the blocks together fill the range, and there is at most one gap more than blocks. */
  lemma {:induction false} GapListFills(alloc: seq<AllocatedBlock>, lo: u64, hi: u64)
    requires lo <= hi && Layout(alloc, lo, hi)
    ensures SumFree(GapList(alloc, lo, hi)) + SumAllocated(alloc) == hi - lo
    ensures |GapList(alloc, lo, hi)| <= |alloc| + 1
  {
    if alloc == [] {
    } else {
      var a := alloc[0];
      GapListFills(alloc[1..], a.End(), hi);
      var first := if lo < a.virtualBase then [FreeBlock(lo, a.virtualBase - lo)] else [];
      var rest := GapList(alloc[1..], a.End(), hi);
      assert GapList(alloc, lo, hi) == first + rest;
      assert SumFree(first) == a.virtualBase - lo;
      SumFreeSplit(first, rest);
    }
  }

  ghost predicate Ascending(s: seq<FreeBlock>, lo: nat) {
    && (forall i :: 0 <= i < |s| ==> lo <= s[i].virtualBase && s[i].size > 0)
    && (forall i, j :: 0 <= i < j < |s| ==> s[i].End() <= s[j].virtualBase)
  }

  lemma {:induction false} GapListAscending(alloc: seq<AllocatedBlock>, lo: u64, hi: u64)
    requires lo <= hi && Layout(alloc, lo, hi)
    ensures Ascending(GapList(alloc, lo, hi), lo)
  {
    if alloc == [] {
    } else {
      GapListAscending(alloc[1..], alloc[0].End(), hi);
    }
  }

  /** A free index that lists exactly the maximal gaps is a rearrangement of the gap list. */
  lemma {:induction false} IndexIsGapList(alloc: seq<AllocatedBlock>, hi: u64, free: seq<FreeBlock>)
    requires Layout(alloc, 0, hi) && Sorted(free, FreeLess)
    requires forall g :: g in free <==> MaximalGap(Occupied(alloc), 0, hi, g)
    ensures multiset(free) == multiset(GapList(alloc, 0, hi))
  {
    var gaps := GapList(alloc, 0, hi);
    GapListExact(alloc, 0, hi);
    GapListAscending(alloc, 0, hi);
    forall g
      ensures multiset(free)[g] == multiset(gaps)[g]
    {
      DistinctCount(free, g);
      DistinctCount(gaps, g);
    }
  }
}
