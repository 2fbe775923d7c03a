/** What free promises: no failed assertion, exact merging, round trips, and order independence. */
module Freeing {
  import opened Types
  import opened OrderedSet
  import opened Blocks
  import opened Gaps
  import opened Allocator
  import opened AllocatorInvariant
  import opened Lookup

  /** The free block that freeing block i leaves behind. */
  ghost predicate MergedBlock(s: State, i: nat, m: FreeBlock)
    requires i < |s.alloc|
  {
    m.virtualBase == EndBefore(s, i) && m.End() == StartAfter(s, i)
  }

  lemma NeighbourBounds(s: State, i: nat)
    requires Inv(s) && i < |s.alloc|
    ensures EndBefore(s, i) <= s.alloc[i].virtualBase && s.alloc[i].End() <= StartAfter(s, i) <= s.max
    ensures EndBefore(s, i) == if i == 0 then 0 else s.alloc[i - 1].End()
  {
  }

  /** No other block lies between the neighbours. */
  lemma OthersOutside(s: State, i: nat, j: nat)
    requires Inv(s) && i < |s.alloc| && j < |s.alloc| && j != i
    ensures s.alloc[j].End() <= EndBefore(s, i) || StartAfter(s, i) <= s.alloc[j].virtualBase
  {
    NeighbourBounds(s, i);
    if j < i - 1 {
      assert s.alloc[j].End() <= s.alloc[i - 1].virtualBase;
    } else if i + 1 < j {
      assert s.alloc[i + 1].End() <= s.alloc[j].virtualBase;
    }
  }

  lemma RestOutsideMerged(s: State, i: nat, x: int)
    requires Inv(s) && i < |s.alloc| && x in Occupied(RemoveAt(s.alloc, i))
    ensures x < EndBefore(s, i) || StartAfter(s, i) <= x
  {
    var rest := RemoveAt(s.alloc, i);
    var k :| 0 <= k < |rest| && rest[k].virtualBase <= x < rest[k].End();
    var j := if k < i then k else k + 1;
    assert rest[k] == s.alloc[j] && j != i;
    OthersOutside(s, i, j);
  }

  lemma RemoveAtLayout(alloc: seq<AllocatedBlock>, hi: nat, i: nat)
    requires Layout(alloc, 0, hi) && i < |alloc|
    ensures Layout(RemoveAt(alloc, i), 0, hi)
  {
  }

  /** Removing block i frees exactly its addresses. */
  lemma RemoveBlock(s: State, i: nat)
    requires Inv(s) && i < |s.alloc|
    ensures Layout(RemoveAt(s.alloc, i), 0, s.max)
    ensures Occupied(s.alloc) == Occupied(RemoveAt(s.alloc, i)) + Span(s.alloc[i].virtualBase, s.alloc[i].size)
    ensures SumAllocated(s.alloc) == SumAllocated(RemoveAt(s.alloc, i)) + s.alloc[i].size
  {
    var rest := RemoveAt(s.alloc, i);
    RemoveAtLayout(s.alloc, s.max, i);
    assert InsertAt(rest, i, s.alloc[i]) == s.alloc;
    InsertAtCovers(rest, i, s.alloc[i]);
    SumAllocatedInsert(rest, i, s.alloc[i]);
  }

  /** The merged block is the maximal gap around the freed range. */
  lemma MergedIsMaximal(s: State, i: nat, m: FreeBlock)
    requires Inv(s) && i < |s.alloc| && MergedBlock(s, i, m)
    ensures MaximalGap(Occupied(RemoveAt(s.alloc, i)), 0, s.max, m)
    ensures m.virtualBase <= s.alloc[i].virtualBase && s.alloc[i].End() <= m.End()
  {
    NeighbourBounds(s, i);
    var rest := RemoveAt(s.alloc, i);
    forall x | m.virtualBase <= x < m.End()
      ensures x !in Occupied(rest)
    {
      if x in Occupied(rest) {
        RestOutsideMerged(s, i, x);
      }
    }
    if i > 0 {
      assert rest[i - 1] == s.alloc[i - 1] && Covers(rest, EndBefore(s, i) - 1);
    }
    if i + 1 < |s.alloc| {
      assert rest[i] == s.alloc[i + 1] && Covers(rest, StartAfter(s, i));
    }
  }

  /** The gaps before the free are those after it, but for the merged block and its remnants. */
  lemma GapsAfterFree(s: State, i: nat, m: FreeBlock, g: FreeBlock)
    requires Inv(s) && i < |s.alloc| && MergedBlock(s, i, m)
    ensures g in s.free
            <==> (g != m && MaximalGap(Occupied(RemoveAt(s.alloc, i)), 0, s.max, g))
                 || Remnant(m, s.alloc[i].virtualBase, s.alloc[i].size, g)
    ensures Remnant(m, s.alloc[i].virtualBase, s.alloc[i].size, g) ==>
              !MaximalGap(Occupied(RemoveAt(s.alloc, i)), 0, s.max, g)
  {
    RemoveBlock(s, i);
    MergedIsMaximal(s, i, m);
    var occ := Occupied(RemoveAt(s.alloc, i));
    SplitGap(occ, s.max, m, s.alloc[i].virtualBase, s.alloc[i].size, g);
    if Remnant(m, s.alloc[i].virtualBase, s.alloc[i].size, g) && MaximalGap(occ, 0, s.max, g) {
      GapUnique(occ, 0, s.max, m, g, g.virtualBase);
    }
  }

  /** A neighbour that is in the index is taken out and joined; the assertion holds. */
  lemma AbsorbExact(m: Merge, neighbour: FreeBlock, prev: bool)
    requires Sorted(m.free, FreeLess) && neighbour in m.free
    ensures var r := Absorb(m, neighbour, prev);
            && r.Ok? && Sorted(r.value.free, FreeLess)
            && (forall g :: g in r.value.free <==> g in m.free && g != neighbour)
            && r.value.block == FreeBlock(if prev then neighbour.virtualBase else m.block.virtualBase,
                                          Add(m.block.size, neighbour.size))
  {
    FindFree(m.free, neighbour);
    RemoveFree(m.free, Find(m.free, FreeLess, neighbour).value);
  }

  ghost predicate Nonempty(free: seq<FreeBlock>) {
    forall g :: g in free ==> g.size > 0
  }

  lemma FreeBlocksNonempty(s: State)
    requires Inv(s)
    ensures Nonempty(s.free)
  {
  }

  /** One index is another without the gap [lo, hi). */
  ghost predicate Cut(after: seq<FreeBlock>, before: seq<FreeBlock>, lo: int, hi: int) {
    && Sorted(after, FreeLess)
    && forall g :: g in after <==> g in before && !(g.virtualBase == lo && g.End() == hi)
  }

  /** The gap [lo, hi) next to the block was cut out of the index and joined to the block. */
  ghost predicate Joined(m: Merge, r: Outcome<Merge>, lo: int, hi: int, prev: bool) {
    && r.Ok? && Cut(r.value.free, m.free, lo, hi) && Nonempty(r.value.free)
    && r.value.block.virtualBase == (if prev then lo else m.block.virtualBase)
    && r.value.block.End() == (if prev then m.block.End() else hi)
  }

  /** That is what happens if the gap is in the index, or is empty. */
  lemma AbsorbGap(m: Merge, lo: u64, hi: u64, prev: bool)
    requires Sorted(m.free, FreeLess) && Nonempty(m.free) && m.block.End() < U64
    requires lo <= hi && (lo < hi ==> FreeBlock(lo, hi - lo) in m.free)
    requires if prev then hi == m.block.virtualBase else lo == m.block.End()
    ensures Joined(m, if lo != hi then Absorb(m, FreeBlock(lo, Sub(hi, lo)), prev) else Ok(m), lo, hi, prev)
  {
    if lo != hi {
      AbsorbExact(m, FreeBlock(lo, hi - lo), prev);
    }
  }

  /** What lies between a block and the allocated block before it is a free block. */
  lemma GapBefore(s: State, i: nat, lo: u64, hi: u64)
    requires Inv(s) && i < |s.alloc| && lo == EndBefore(s, i) && hi == s.alloc[i].virtualBase
    ensures lo < hi ==> FreeBlock(lo, hi - lo) in s.free
  {
    NeighbourBounds(s, i);
    if lo < hi {
      GapsAfterFree(s, i, FreeBlock(lo, StartAfter(s, i) - lo), FreeBlock(lo, hi - lo));
    }
  }

  /** And so is what lies between it and the next. */
  lemma GapAfter(s: State, i: nat, lo: u64, hi: u64)
    requires Inv(s) && i < |s.alloc| && lo == s.alloc[i].End() && hi == StartAfter(s, i)
    ensures lo < hi ==> FreeBlock(lo, hi - lo) in s.free
  {
    NeighbourBounds(s, i);
    if lo < hi {
      var first := EndBefore(s, i);
      GapsAfterFree(s, i, FreeBlock(first, hi - first), FreeBlock(lo, hi - lo));
    }
  }

  lemma MergeBeforeExact(s: State, i: nat, m: Merge)
    requires Inv(s) && i < |s.alloc| && m == Merge(s.free, FreeBlock(s.alloc[i].virtualBase, s.alloc[i].size))
    ensures Joined(m, MergeBefore(s, i), EndBefore(s, i), s.alloc[i].virtualBase, true)
  {
    NeighbourBounds(s, i);
    FreeBlocksNonempty(s);
    GapBefore(s, i, EndBefore(s, i), s.alloc[i].virtualBase);
    AbsorbGap(m, EndBefore(s, i), s.alloc[i].virtualBase, true);
  }

  lemma MergeAfterAbsorbs(s: State, i: nat, before: Merge, lo: u64, hi: u64)
    requires i < |s.alloc| && s.alloc[i].End() == lo && hi == StartAfter(s, i)
    ensures MergeAfter(s, i, before)
            == if lo != hi then Absorb(before, FreeBlock(lo, Sub(hi, lo)), false) else Ok(before)
  {
  }

  lemma MergeAfterExact(s: State, i: nat, before: Merge)
    requires Inv(s) && i < |s.alloc| && before.block.End() == s.alloc[i].End() && Nonempty(before.free)
    requires Cut(before.free, s.free, EndBefore(s, i), s.alloc[i].virtualBase)
    ensures Joined(before, MergeAfter(s, i, before), s.alloc[i].End(), StartAfter(s, i), false)
  {
    NeighbourBounds(s, i);
    var lo, hi := s.alloc[i].End(), StartAfter(s, i);
    GapAfter(s, i, lo, hi);
    MergeAfterAbsorbs(s, i, before, lo, hi);
    AbsorbGap(before, lo, hi, false);
  }

  /** One free block: it stays, or is the merged one, exactly when it is a maximal gap afterwards. */
  lemma FreeIndexAt(s: State, i: nat, m: FreeBlock, g: FreeBlock)
    requires Inv(s) && i < |s.alloc| && MergedBlock(s, i, m)
    ensures MaximalGap(Occupied(RemoveAt(s.alloc, i)), 0, s.max, g)
            <==> g == m || (g in s.free
                            && !(g.virtualBase == EndBefore(s, i) && g.End() == s.alloc[i].virtualBase)
                            && !(g.virtualBase == s.alloc[i].End() && g.End() == StartAfter(s, i)))
  {
    MergedIsMaximal(s, i, m);
    GapsAfterFree(s, i, m, g);
    FreeBlocksNonempty(s);
  }

  /** The index after the free lists exactly the maximal gaps that remain. */
  lemma FreeIndexExact(s: State, i: nat, before: Merge, after: Merge)
    requires Inv(s) && i < |s.alloc| && MergedBlock(s, i, after.block)
    requires Cut(before.free, s.free, EndBefore(s, i), s.alloc[i].virtualBase)
    requires Cut(after.free, before.free, s.alloc[i].End(), StartAfter(s, i))
    ensures ExactIndex(Insert(after.free, FreeLess, after.block), RemoveAt(s.alloc, i), s.max)
  {
    InsertFree(after.free, after.block);
    forall g
      ensures g in Insert(after.free, FreeLess, after.block)
              <==> MaximalGap(Occupied(RemoveAt(s.alloc, i)), 0, s.max, g)
    {
      FreeIndexAt(s, i, after.block, g);
    }
  }

  /** Freeing block i fails no assertion, keeps the invariant and takes out exactly that block. */
  lemma ReleaseKeeps(s: State, i: nat) returns (t: State)
    requires Inv(s) && i < |s.alloc|
    ensures Release(s, i) == (t, Ok(())) && Inv(t)
    ensures t.max == s.max && t.alloc == RemoveAt(s.alloc, i) && t.used == s.used - s.alloc[i].size
  {
    MergeBeforeExact(s, i, Merge(s.free, FreeBlock(s.alloc[i].virtualBase, s.alloc[i].size)));
    var before := MergeBefore(s, i).value;
    MergeAfterExact(s, i, before);
    FreeIndexExact(s, i, before, MergeAfter(s, i, before).value);
    RemoveBlock(s, i);
    t := Release(s, i).0;
  }

  /** Freeing a block base succeeds without failing an assertion and takes out exactly that block. */
  lemma FreeBlockKeeps(s: State, i: nat)
    requires Inv(s) && i < |s.alloc|
    ensures var (s', r) := Free(s, s.alloc[i].virtualBase);
            && r == Ok(()) && Inv(s') && s'.max == s.max
            && s'.alloc == RemoveAt(s.alloc, i) && s'.used == s.used - s.alloc[i].size
  {
    LookupBase(s.alloc, s.max, i);
    var t := ReleaseKeeps(s, i);
  }

  /** The blocks whose base is not in the set. */
  function Without(alloc: seq<AllocatedBlock>, bases: set<u64>): seq<AllocatedBlock> {
    if alloc == [] then []
    else (if alloc[0].virtualBase in bases then [] else [alloc[0]]) + Without(alloc[1..], bases)
  }

  ghost predicate LiveBase(alloc: seq<AllocatedBlock>, vbase: u64) {
    exists i :: 0 <= i < |alloc| && alloc[i].virtualBase == vbase
  }

  lemma {:induction false} WithoutSplit(a: seq<AllocatedBlock>, b: seq<AllocatedBlock>, bases: set<u64>)
    ensures Without(a + b, bases) == Without(a, bases) + Without(b, bases)
  {
    if a == [] {
      assert a + b == b;
    } else {
      assert (a + b)[1..] == a[1..] + b;
      WithoutSplit(a[1..], b, bases);
    }
  }

  lemma {:induction false} WithoutAbsent(alloc: seq<AllocatedBlock>, bases: set<u64>)
    requires forall i :: 0 <= i < |alloc| ==> alloc[i].virtualBase !in bases
    ensures Without(alloc, bases) == alloc
  {
    if alloc == [] {
    } else {
      WithoutAbsent(alloc[1..], bases);
    }
  }

  lemma {:induction false} WithoutUnion(alloc: seq<AllocatedBlock>, a: set<u64>, b: set<u64>)
    ensures Without(Without(alloc, a), b) == Without(alloc, a + b)
  {
    if alloc == [] {
    } else {
      WithoutUnion(alloc[1..], a, b);
      WithoutSplit(if alloc[0].virtualBase in a then [] else [alloc[0]], Without(alloc[1..], a), b);
    }
  }

  lemma {:induction false} RemoveIsWithout(alloc: seq<AllocatedBlock>, i: nat)
    requires i < |alloc|
    requires forall k :: 0 <= k < |alloc| && k != i ==> alloc[k].virtualBase != alloc[i].virtualBase
    ensures Without(alloc, {alloc[i].virtualBase}) == RemoveAt(alloc, i)
  {
    if i == 0 {
      WithoutAbsent(alloc[1..], {alloc[0].virtualBase});
    } else {
      RemoveIsWithout(alloc[1..], i - 1);
      assert [alloc[0]] + RemoveAt(alloc[1..], i - 1) == RemoveAt(alloc, i);
    }
  }

  /** free on any address: it succeeds exactly on the base of a live block and removes exactly that block. */
  lemma FreeExact(s: State, vbase: u64)
    requires Inv(s)
    ensures var (s', r) := Free(s, vbase);
            && Inv(s') && s'.max == s.max
            && s'.alloc == Without(s.alloc, {vbase})
            && (r == Ok(()) <==> LiveBase(s.alloc, vbase))
            && (!r.Ok? ==> r == Err(NotFound) && s' == s)
  {
    if i :| 0 <= i < |s.alloc| && s.alloc[i].virtualBase == vbase {
      FreeBlockKeeps(s, i);
      RemoveIsWithout(s.alloc, i);
    } else {
      WithoutAbsent(s.alloc, {vbase});
    }
  }

  lemma AllocateInserts(s: State, args: AllocArgs, host: Option<u64>)
    requires Allocate(s, args, host).1.Ok?
    ensures var (t, r) := Allocate(s, args, host);
            && t.max == s.max
            && t.alloc == InsertAt(s.alloc, LowerBound(s.alloc, AllocatedLess, r.value), r.value)
  {
  }

  lemma InsertedThenFreed(s: State, t: State, k: nat, b: AllocatedBlock)
    requires Inv(s) && Inv(t) && t.max == s.max && k <= |s.alloc| && t.alloc == InsertAt(s.alloc, k, b)
    ensures Free(t, b.virtualBase) == (s, Ok(()))
  {
    assert t.alloc[k] == b && RemoveAt(t.alloc, k) == s.alloc;
    FreeBlockKeeps(t, k);
    StateDetermined(Free(t, b.virtualBase).0, s);
  }

  /** Allocating and then freeing what was allocated restores the state. */
  lemma AllocateFreeRoundTrip(s: State, args: AllocArgs, host: Option<u64>)
    requires Inv(s) && Inv(Allocate(s, args, host).0) && Allocate(s, args, host).1.Ok?
    ensures var (s', r) := Allocate(s, args, host);
            Free(s', r.value.virtualBase) == (s, Ok(()))
  {
    AllocateInserts(s, args, host);
    var (t, r) := Allocate(s, args, host);
    InsertedThenFreed(s, t, LowerBound(s.alloc, AllocatedLess, r.value), r.value);
  }

  /** Frees one address after another; failures are skipped, as the caller of free may do. */
  function FreeAll(s: State, vbases: seq<u64>): State
    decreases |vbases|
  {
    if vbases == [] then s else FreeAll(Free(s, vbases[0]).0, vbases[1..])
  }

  function Elements(vbases: seq<u64>): set<u64> {
    set v | v in vbases
  }

  lemma ElementsSplit(vbases: seq<u64>)
    requires vbases != []
    ensures Elements(vbases) == {vbases[0]} + Elements(vbases[1..])
  {
  }

  /** What remains after the frees depends on the set of addresses alone. */
  lemma {:induction false} FreeAllExact(s: State, vbases: seq<u64>)
    requires Inv(s)
    ensures Inv(FreeAll(s, vbases)) && FreeAll(s, vbases).max == s.max
    ensures FreeAll(s, vbases).alloc == Without(s.alloc, Elements(vbases))
    decreases |vbases|
  {
    if vbases == [] {
      WithoutAbsent(s.alloc, Elements(vbases));
    } else {
      FreeExact(s, vbases[0]);
      var t := Free(s, vbases[0]).0;
      FreeAllExact(t, vbases[1..]);
      WithoutUnion(s.alloc, {vbases[0]}, Elements(vbases[1..]));
      ElementsSplit(vbases);
    }
  }

  /** The order in which blocks are freed does not matter. */
  lemma {:induction false} FreeOrderIrrelevant(s: State, vs: seq<u64>, ws: seq<u64>)
    requires Inv(s) && Elements(vs) == Elements(ws)
    ensures FreeAll(s, vs) == FreeAll(s, ws)
  {
    FreeAllExact(s, vs);
    FreeAllExact(s, ws);
    StateDetermined(FreeAll(s, vs), FreeAll(s, ws));
  }

  lemma {:induction false} WithoutEverything(alloc: seq<AllocatedBlock>, bases: set<u64>)
    requires forall i :: 0 <= i < |alloc| ==> alloc[i].virtualBase in bases
    ensures Without(alloc, bases) == []
  {
    if alloc == [] {
    } else {
      WithoutEverything(alloc[1..], bases);
    }
  }

  /** Freeing every live block, in any order, gives back the fresh state. */
  lemma {:induction false} FreeEverything(s: State, vbases: seq<u64>)
    requires Inv(s) && forall i :: 0 <= i < |s.alloc| ==> s.alloc[i].virtualBase in vbases
    ensures FreeAll(s, vbases) == Fresh(s.max)
  {
    FreeAllExact(s, vbases);
    WithoutEverything(s.alloc, Elements(vbases));
    FreshInv(s.max);
    StateDetermined(FreeAll(s, vbases), Fresh(s.max));
  }
}
