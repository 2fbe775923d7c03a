/** The gap invariant: what it determines, and how claiming and freeing a block preserve it. */
module AllocatorInvariant {
  import opened Types
  import opened Alignment
  import opened OrderedSet
  import opened Blocks
  import opened Gaps
  import opened Allocator

  lemma FreshInv(max: u64)
    requires 0 < max <= 0x8000_0000_0000_0000
    ensures Inv(Fresh(max))
  {
  }

  /** The allocated set determines the whole state. */
  lemma StateDetermined(s: State, t: State)
    requires Inv(s) && Inv(t) && s.max == t.max && s.alloc == t.alloc
    ensures s == t
  {
    SortedUnique(s.free, t.free);
  }

  /** Conservation: the free sizes add up to the available memory; and there are few free blocks. */
  lemma Conservation(s: State)
    requires Inv(s)
    ensures s.used == SumAllocated(s.alloc)
    ensures Sub(s.max, s.used) == SumFree(s.free) == s.max - s.used
    ensures |s.free| <= |s.alloc| + 1
  {
    GapListFills(s.alloc, 0, s.max);
    IndexIsGapList(s.alloc, s.max, s.free);
    var gaps := GapList(s.alloc, 0, s.max);
    SumFreePermuted(s.free, gaps);
    assert |s.free| == |multiset(s.free)| == |multiset(gaps)| == |gaps|;
  }

  lemma FreeBlockAvailable(s: State, f: FreeBlock)
    requires Inv(s) && f in s.free
    ensures f.size <= s.max - s.used
  {
    Conservation(s);
    var i :| 0 <= i < |s.free| && s.free[i] == f;
    SumFreeRemove(s.free, i);
  }

  lemma FreeBlockGap(s: State, i: nat)
    requires Inv(s) && i < |s.free|
    ensures MaximalGap(Occupied(s.alloc), 0, s.max, s.free[i])
  {
  }

  lemma InsertNonemptyFree(free: seq<FreeBlock>, f: FreeBlock)
    requires Sorted(free, FreeLess)
    ensures Sorted(InsertNonempty(free, f), FreeLess)
    ensures forall g :: g in InsertNonempty(free, f) <==> g in free || (g == f && f.size > 0)
  {
    InsertFree(free, f);
  }

  function FirstRemnant(f: FreeBlock, base: u64): FreeBlock
    requires f.virtualBase <= base
  {
    FreeBlock(f.virtualBase, base - f.virtualBase)
  }

  function LastRemnant(f: FreeBlock, end: u64): FreeBlock
    requires end <= f.End() < U64
  {
    FreeBlock(end, f.End() - end)
  }

  lemma RemnantsAreTwo(f: FreeBlock, base: u64, size: u64, g: FreeBlock)
    requires f.virtualBase <= base && base + size <= f.End() < U64
    ensures Remnant(f, base, size, g)
            <==> g.size > 0 && (g == FirstRemnant(f, base) || g == LastRemnant(f, base + size))
  {
  }

  /** In range, nothing in the split arithmetic wraps. */
  lemma SplitPieces(free: seq<FreeBlock>, i: nat, base: u64, size: u64)
    requires i < |free| && free[i].virtualBase <= base && base + size <= free[i].End() < U64
    ensures Split(free, i, base, size)
            == InsertNonempty(InsertNonempty(RemoveAt(free, i), FirstRemnant(free[i], base)),
                              LastRemnant(free[i], base + size))
  {
    var f, end := free[i], base + size;
    assert Add(base, size) == end && Add(f.virtualBase, f.size) == f.End();
    assert FirstRemnant(f, base) == FreeBlock(f.virtualBase, Sub(base, f.virtualBase));
    assert LastRemnant(f, end) == FreeBlock(end, Sub(f.End(), end));
  }

  /** Splitting replaces the chosen free block by its nonempty remnants. */
  lemma SplitExact(free: seq<FreeBlock>, i: nat, base: u64, size: u64)
    requires Sorted(free, FreeLess) && i < |free|
    requires size > 0 && free[i].virtualBase <= base && base + size <= free[i].End() < U64
    ensures Sorted(Split(free, i, base, size), FreeLess)
    ensures forall g :: g in Split(free, i, base, size)
                        <==> (g in free && g != free[i]) || Remnant(free[i], base, size, g)
  {
    var f := free[i];
    SplitPieces(free, i, base, size);
    RemoveFree(free, i);
    var rest, first, last := RemoveAt(free, i), FirstRemnant(f, base), LastRemnant(f, base + size);
    InsertNonemptyFree(rest, first);
    InsertNonemptyFree(InsertNonempty(rest, first), last);
    forall g
      ensures g in Split(free, i, base, size) <==> (g in free && g != f) || Remnant(f, base, size, g)
    {
      RemnantsAreTwo(f, base, size, g);
    }
  }

  predicate InBlock(f: FreeBlock, base: u64, size: u64) {
    size > 0 && f.virtualBase <= base && base + size <= f.End()
  }

  /** The block that a claim records. */
  function ClaimedBlock(p: Placement, args: AllocArgs, hostBase: u64): AllocatedBlock {
    AllocatedBlock(hostBase, p.base, args.size, And(args.flags, PERM_MASK))
  }

  lemma ClaimedIndex(s: State, p: Placement, size: u64, alloc: seq<AllocatedBlock>)
    requires Inv(s) && p.index < |s.free| && InBlock(s.free[p.index], p.base, size)
    requires Occupied(alloc) == Occupied(s.alloc) + Span(p.base, size)
    ensures ExactIndex(Split(s.free, p.index, p.base, size), alloc, s.max)
  {
    FreeBlockGap(s, p.index);
    SplitExact(s.free, p.index, p.base, size);
    forall g
      ensures g in Split(s.free, p.index, p.base, size) <==> MaximalGap(Occupied(alloc), 0, s.max, g)
    {
      SplitGap(Occupied(s.alloc), s.max, s.free[p.index], p.base, size, g);
    }
  }

  lemma InsertedSum(s: State, i: nat, b: AllocatedBlock)
    requires 0 < s.max && i <= |s.alloc| && Layout(InsertAt(s.alloc, i, b), 0, s.max) && s.used == SumAllocated(s.alloc)
    ensures s.used + b.size == SumAllocated(InsertAt(s.alloc, i, b)) <= s.max
  {
    SumAllocatedInsert(s.alloc, i, b);
    GapListFills(InsertAt(s.alloc, i, b), 0, s.max);
  }

  /** Without a clash and without a wrapped counter, a claim inserts its block and splits the free block. */
  lemma {:induction false} ClaimInserts(
    s: State, p: Placement, args: AllocArgs, hostBase: u64, b: AllocatedBlock, i: nat)
    requires p.index < |s.free| && b == ClaimedBlock(p, args, hostBase) && i == LowerBound(s.alloc, AllocatedLess, b)
    requires (i < |s.alloc| ==> AllocatedLess(b, s.alloc[i])) && s.used + args.size < U64
    ensures Claim(s, p, args, hostBase)
            == (State(s.max, s.used + args.size, InsertAt(s.alloc, i, b), Split(s.free, p.index, p.base, args.size)),
                Ok(b))
  {
  }

  /** Claiming a range inside a free block succeeds, keeps the invariant and occupies that range. */
  lemma ClaimKeeps(s: State, p: Placement, args: AllocArgs, hostBase: u64)
    requires Inv(s) && p.index < |s.free| && InBlock(s.free[p.index], p.base, args.size)
    ensures var (s', r) := Claim(s, p, args, hostBase);
            && r == Ok(ClaimedBlock(p, args, hostBase)) && Inv(s') && s'.max == s.max
            && s'.alloc == InsertAt(s.alloc, LowerBound(s.alloc, AllocatedLess, r.value), r.value)
            && s'.used == s.used + args.size
            && Occupied(s'.alloc) == Occupied(s.alloc) + Span(p.base, args.size)
  {
    FreeBlockGap(s, p.index);
    var b := ClaimedBlock(p, args, hostBase);
    var i := LowerBound(s.alloc, AllocatedLess, b);
    InsertBlock(s.alloc, 0, s.max, b);
    InsertedSum(s, i, b);
    ClaimInserts(s, p, args, hostBase, b, i);
    ClaimedIndex(s, p, args.size, InsertAt(s.alloc, i, b));
  }

  /** A layout that a block was inserted into had left the block's range unoccupied. */
  lemma InsertedRangeWasFree(alloc: seq<AllocatedBlock>, i: nat, b: AllocatedBlock, hi: nat, x: int)
    requires i <= |alloc| && Layout(InsertAt(alloc, i, b), 0, hi)
    requires b.virtualBase <= x < b.End()
    ensures x < hi && x !in Occupied(alloc)
  {
    var t := InsertAt(alloc, i, b);
    assert t[i] == b;
    assert forall k :: 0 <= k < |alloc| ==> alloc[k] == t[if k < i then k else k + 1];
  }

  /** Claiming past the end of the free block either fails an assertion or breaks the invariant. */
  lemma OverrunBreaks(s: State, p: Placement, args: AllocArgs, hostBase: u64)
    requires Inv(s) && p.index < |s.free|
    requires s.free[p.index].virtualBase <= p.base <= s.free[p.index].End() < p.base + args.size
    ensures var (s', r) := Claim(s, p, args, hostBase); r.Abort? || !Inv(s')
  {
    var b := AllocatedBlock(hostBase, p.base, args.size, And(args.flags, PERM_MASK));
    if Find(s.alloc, AllocatedLess, b).None? {
      var i := LowerBound(s.alloc, AllocatedLess, b);
      var alloc := InsertAt(s.alloc, i, b);
      FreeBlockGap(s, p.index);
      if Layout(alloc, 0, s.max) {
        InsertedRangeWasFree(s.alloc, i, b, s.max, s.free[p.index].End());
      }
    }
  }
}
