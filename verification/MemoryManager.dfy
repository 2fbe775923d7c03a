/** The memory manager itself: its two ordered sets and its counter, updated in place. */
module Memory {
  import opened Types
  import opened Alignment
  import opened OrderedSet
  import opened Blocks
  import opened Allocator
  import opened AllocatorInvariant
  import opened Allocation
  import opened Freeing
  import opened Lookup

  class MemoryManager {
    const maxMemory: u64
    var usedMemory: u64
    var allocatedBlocks: seq<AllocatedBlock>
    var freeBlocks: seq<FreeBlock>

    ghost function Abs(): State
      reads this
    {
      State(maxMemory, usedMemory, allocatedBlocks, freeBlocks)
    }

    ghost predicate Valid()
      reads this
    {
      Inv(Abs())
    }

    constructor (size: u64)
      ensures Abs() == Fresh(size)
      ensures Valid() <==> 0 < size <= 0x8000_0000_0000_0000
    {
      maxMemory := size;
      usedMemory := 0;
      allocatedBlocks := [];
      freeBlocks := [FreeBlock(0, size)];
      if 0 < size <= 0x8000_0000_0000_0000 {
        FreshInv(size);
      }
    }

    method BlockFromVAddr(vaddr: u64) returns (r: Outcome<AllocatedBlock>)
      ensures r == Allocator.BlockFromVAddr(Abs(), vaddr)
    {
      var it := Find(allocatedBlocks, AllocatedLess, Probe(vaddr));
      if it.Some? {
        return Ok(allocatedBlocks[it.value]);
      }
      return Err(NotFound);
    }

    method FindFreeBlock(requestedSize: u64, alignment: u64) returns (r: Outcome<nat>)
      ensures r == Allocator.FindFreeBlock(freeBlocks, requestedSize, alignment)
    {
      var it := LowerBound(freeBlocks, FreeLess, FreeBlock(0, requestedSize));
      if it == |freeBlocks| {
        return Err(NoVirtualMemory);
      }
      if alignment != 0 {
        ghost var from := it;
        while it < |freeBlocks|
          invariant from <= it <= |freeBlocks|
          invariant it > from ==> IsPowerOfTwo(alignment)
          invariant IsPowerOfTwo(alignment) ==>
            FirstWithRoom(freeBlocks, it, requestedSize, alignment)
            == FirstWithRoom(freeBlocks, from, requestedSize, alignment)
        {
          var alignedAddr := AlignedBase(freeBlocks[it].virtualBase, alignment);
          if !alignedAddr.Ok? {
            return Abort;
          }
          var avalSize := Sub(freeBlocks[it].size, Sub(alignedAddr.value, freeBlocks[it].virtualBase));
          if avalSize >= requestedSize {
            break;
          }
          it := it + 1;
        }
        if it == |freeBlocks| {
          return Err(NoVirtualMemory);
        }
      }
      return Ok(it);
    }

    method FindFreeAddr(size: u64, alignment: u64) returns (r: Outcome<u64>)
      ensures r == Allocator.FindFreeAddr(Abs(), size, alignment)
    {
      var it := FindFreeBlock(size, alignment);
      match it {
        case Ok(i) =>
          if alignment != 0 {
            r := AlignedBase(freeBlocks[i].virtualBase, alignment);
          } else {
            r := Ok(freeBlocks[i].virtualBase);
          }
        case Err(e) => r := Err(e);
        case Abort => r := Abort;
      }
    }

    /** The block, in index order, that holds the hint, and the start address the hint leads to there. */
    method FindAtHint(args: AllocArgs, alignment: u64) returns (r: Option<Placement>)
      requires args.hint.Some? && alignment == args.SearchAlignment()
      requires alignment == 0 || IsPowerOfTwo(alignment)
      ensures r == PlaceAtHint(freeBlocks, args)
    {
      var hint := args.hint.value;
      var it := 0;
      while it < |freeBlocks|
        invariant it <= |freeBlocks|
        invariant FirstHolding(freeBlocks, it, hint) == FirstHolding(freeBlocks, 0, hint)
      {
        if hint >= freeBlocks[it].virtualBase && hint <= Add(freeBlocks[it].virtualBase, freeBlocks[it].size) {
          break;
        }
        it := it + 1;
      }
      if it == |freeBlocks| {
        return None;
      }
      var end := Add(freeBlocks[it].virtualBase, freeBlocks[it].size);
      if alignment != 0 {
        var alignedDownAddr := AlignDown(hint, alignment).value;
        if alignedDownAddr < freeBlocks[it].virtualBase {
          var alignedUpAddr := AlignUp(hint, alignment).value;
          if alignedUpAddr > end {
            return None;
          }
          hint := alignedUpAddr;
        } else {
          hint := alignedDownAddr;
        }
      } else if Sub(end, hint) < args.size {
        if args.Forced() {
          return None;
        }
        hint := freeBlocks[it].virtualBase;
      }
      return Some(Placement(it, hint));
    }

    /** Extracts the free block, asks the host, splits, and records the new block. */
    method Commit(p: Placement, args: AllocArgs, host: Option<u64>) returns (r: Outcome<AllocatedBlock>)
      requires Valid() && p.index < |freeBlocks|
      modifies this
      ensures (Abs(), r) == if host.None? then (old(Abs()), Err(NoHostMemory))
                            else Claim(old(Abs()), p, args, host.value)
    {
      var freeBlock := freeBlocks[p.index];
      freeBlocks := RemoveAt(freeBlocks, p.index);
      if host.None? {
        RemoveFree(old(freeBlocks), p.index);
        InsertFree(freeBlocks, freeBlock);
        freeBlocks := Insert(freeBlocks, FreeLess, freeBlock);
        SortedUnique(freeBlocks, old(freeBlocks));
        return Err(NoHostMemory);
      }
      var allocatedBlock := AllocatedBlock(host.value, p.base, args.size, And(args.flags, PERM_MASK));

      var freeBlockFirst := FreeBlock(freeBlock.virtualBase, Sub(allocatedBlock.virtualBase, freeBlock.virtualBase));
      if freeBlockFirst.size != 0 {
        freeBlocks := Insert(freeBlocks, FreeLess, freeBlockFirst);
      }
      var end := Add(allocatedBlock.virtualBase, allocatedBlock.size);
      var freeBlockLast := FreeBlock(end, Sub(Add(freeBlock.virtualBase, freeBlock.size), end));
      if freeBlockLast.size != 0 {
        freeBlocks := Insert(freeBlocks, FreeLess, freeBlockLast);
      }
      if Find(allocatedBlocks, AllocatedLess, allocatedBlock).Some? {
        return Abort;
      }
      allocatedBlocks := Insert(allocatedBlocks, AllocatedLess, allocatedBlock);
      usedMemory := Add(usedMemory, allocatedBlock.size);
      return Ok(allocatedBlock);
    }

    method Allocate(args: AllocArgs, host: Option<u64>) returns (r: Outcome<AllocatedBlock>)
      requires Valid()
      modifies this
      ensures (Abs(), r) == Allocator.Allocate(old(Abs()), args, host)
      ensures Valid() && !r.Abort? <==> Fits(old(Abs()), args) || host.None?
    {
      AllocateKeepsIff(Abs(), args, host);
      var alignment := args.alignment;
      if args.size == 0 {
        return Err(InvalidSize);
      }
      if Sub(maxMemory, usedMemory) < args.size {
        return Err(NoVirtualMemory);
      }
      if alignment != 0 && !IsPowerOfTwo(alignment) {
        return Err(InvalidAlignment);
      }
      if alignment != 0 {
        var alignedSize := AlignDown(args.size, alignment).value;
        if alignedSize != args.size {
          return Err(InvalidSize);
        }
      }
      if args.hint.Some? && alignment != 0 && args.Forced() {
        var alignedAddr := AlignDown(args.hint.value, alignment).value;
        if args.hint.value != alignedAddr {
          return Err(InvalidAddress);
        }
        alignment := 0;
      }

      var place: Option<Placement> := None;
      if args.hint.Some? {
        place := FindAtHint(args, alignment);
        if place.None? && args.Forced() {
          return Err(NoVirtualMemory);
        }
      }
      if place.None? {
        var it := FindFreeBlock(args.size, alignment);
        match it {
          case Err(e) => return Err(e);
          case Abort => return Abort;
          case Ok(i) => place := Some(Placement(i, StartIn(freeBlocks[i], alignment)));
        }
      }
      r := Commit(place.value, args, host);
    }

    /** Takes a neighbour, which must be in the free index, and joins it to the block being freed. */
    method HandleBlock(newFreeBlock: FreeBlock, block: FreeBlock, prev: bool)
      returns (ok: bool, merged: FreeBlock)
      modifies `freeBlocks
      ensures match Absorb(Merge(old(freeBlocks), newFreeBlock), block, prev)
              case Ok(m) => ok && freeBlocks == m.free && merged == m.block
              case _ => !ok && freeBlocks == old(freeBlocks)
    {
      merged := newFreeBlock;
      var freeBlockIt := Find(freeBlocks, FreeLess, block);
      if freeBlockIt.None? {
        return false, merged;
      }
      var found := freeBlocks[freeBlockIt.value];
      if prev {
        merged := merged.(virtualBase := found.virtualBase);
      }
      merged := merged.(size := Add(merged.size, found.size));
      freeBlocks := RemoveAt(freeBlocks, freeBlockIt.value);
      return true, merged;
    }

    method MergePrevious(i: nat) returns (ok: bool, newFreeBlock: FreeBlock)
      requires i < |allocatedBlocks|
      modifies `freeBlocks
      ensures match MergeBefore(old(Abs()), i)
              case Ok(m) => ok && freeBlocks == m.free && newFreeBlock == m.block
              case _ => !ok && freeBlocks == old(freeBlocks)
    {
      var b := allocatedBlocks[i];
      newFreeBlock := FreeBlock(b.virtualBase, b.size);
      ok := true;
      if i != 0 {
        var prevAllocBlock := allocatedBlocks[i - 1];
        var prevAllocBlockEnd := Add(prevAllocBlock.virtualBase, prevAllocBlock.size);
        if prevAllocBlockEnd != b.virtualBase {
          var prevFreeBlock := FreeBlock(prevAllocBlockEnd, Sub(b.virtualBase, prevAllocBlockEnd));
          ok, newFreeBlock := HandleBlock(newFreeBlock, prevFreeBlock, true);
        }
      } else if b.virtualBase != 0 {
        ok, newFreeBlock := HandleBlock(newFreeBlock, FreeBlock(0, b.virtualBase), true);
      }
    }

    method MergeNext(i: nat, block: FreeBlock) returns (ok: bool, newFreeBlock: FreeBlock)
      requires i < |allocatedBlocks|
      modifies `freeBlocks
      ensures match MergeAfter(old(Abs()), i, Merge(old(freeBlocks), block))
              case Ok(m) => ok && freeBlocks == m.free && newFreeBlock == m.block
              case _ => !ok && freeBlocks == old(freeBlocks)
    {
      newFreeBlock := block;
      ok := true;
      var thisAllocBlockEnd := Add(allocatedBlocks[i].virtualBase, allocatedBlocks[i].size);
      if i + 1 != |allocatedBlocks| {
        var nextAllocBlock := allocatedBlocks[i + 1];
        if thisAllocBlockEnd != nextAllocBlock.virtualBase {
          var nextFreeBlock := FreeBlock(thisAllocBlockEnd, Sub(nextAllocBlock.virtualBase, thisAllocBlockEnd));
          ok, newFreeBlock := HandleBlock(newFreeBlock, nextFreeBlock, false);
        }
      } else if thisAllocBlockEnd != maxMemory {
        var lastFreeBlock := FreeBlock(thisAllocBlockEnd, Sub(maxMemory, thisAllocBlockEnd));
        ok, newFreeBlock := HandleBlock(newFreeBlock, lastFreeBlock, false);
      }
    }

    /** Merges block i with the gaps around it and takes it out. */
    method Release(i: nat) returns (r: Outcome<()>)
      requires i < |allocatedBlocks|
      modifies this
      ensures (Abs(), r) == Allocator.Release(old(Abs()), i)
    {
      var ok, newFreeBlock := MergePrevious(i);
      if !ok {
        return Abort;
      }
      ok, newFreeBlock := MergeNext(i, newFreeBlock);
      if !ok {
        return Abort;
      }
      usedMemory := Sub(usedMemory, allocatedBlocks[i].size);
      allocatedBlocks := RemoveAt(allocatedBlocks, i);
      freeBlocks := Insert(freeBlocks, FreeLess, newFreeBlock);
      return Ok(());
    }

    method Free(vbase: u64) returns (r: Outcome<()>)
      requires Valid()
      modifies this
      ensures (Abs(), r) == Allocator.Free(old(Abs()), vbase)
      ensures Valid() && !r.Abort?
      ensures allocatedBlocks == Without(old(allocatedBlocks), {vbase})
    {
      FreeExact(Abs(), vbase);
      var it := Find(allocatedBlocks, AllocatedLess, Probe(vbase));
      if it.None? || allocatedBlocks[it.value].virtualBase != vbase {
        return Err(NotFound);
      }
      r := Release(it.value);
    }

    method SetFlags(vbase: u64, flags: u64) returns (r: Outcome<u64>)
      requires Valid()
      modifies `allocatedBlocks
      ensures (Abs(), r) == Allocator.SetFlags(old(Abs()), vbase, flags)
      ensures Valid()
    {
      SetFlagsExact(Abs(), vbase, flags);
      var it := Find(allocatedBlocks, AllocatedLess, Probe(vbase));
      if it.None? {
        return Err(NotFound);
      }
      var block := allocatedBlocks[it.value];
      if block.virtualBase == vbase {
        allocatedBlocks := allocatedBlocks[it.value := block.(flags := flags)];
        return Ok(block.flags);
      }
      return Err(InvalidAddress);
    }

    /** Hands every block back to the host, first to last, and rebuilds the two sets. */
    method Reset()
      modifies this
      ensures Abs() == Allocator.Reset(old(Abs()))
    {
      while allocatedBlocks != []
        invariant usedMemory == old(usedMemory) && freeBlocks == old(freeBlocks)
        decreases |allocatedBlocks|
      {
        allocatedBlocks := RemoveAt(allocatedBlocks, 0);
      }
      freeBlocks := [];
      freeBlocks := Insert(freeBlocks, FreeLess, FreeBlock(0, maxMemory));
    }
  }
}
