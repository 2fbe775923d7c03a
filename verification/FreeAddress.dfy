/** findFreeAddr by itself: the request sizes for which its wrapping room test can be trusted. */
module FreeAddress {
  import opened Types
  import opened Alignment
  import opened OrderedSet
  import opened Blocks
  import opened Gaps
  import opened Allocator
  import opened AllocatorInvariant
  import opened Allocation

  /** The address found, if any, starts a range inside one free block. */
  ghost predicate AnswerFits(s: State, size: u64, alignment: u64) {
    match FindFreeBlock(s.free, size, alignment)
    case Ok(i) =>
      var x := StartIn(s.free[i], alignment);
      s.free[i].virtualBase <= x && x + size <= s.free[i].End() && Multiple(x, alignment)
    case _ => true
  }

  /** An aligned start misses the end of a nonempty block of at least this size by one byte at most. */
  predicate LargeEnough(size: u64, alignment: u64) {
    alignment <= (if size == 0 then 1 else size) + 1
  }

  lemma LargeEnoughFits(s: State, size: u64, alignment: u64)
    requires Inv(s) && ValidAlignment(alignment) && LargeEnough(size, alignment)
    ensures AnswerFits(s, size, alignment)
  {
    var r := FindFreeBlock(s.free, size, alignment);
    if r.Ok? {
      var f := s.free[r.value];
      FreeBlockGap(s, r.value);
      SkipsSmaller(s.free, size, r.value);
      if alignment != 0 {
        AlignedBaseIsCeiling(f.virtualBase, alignment);
        assert HasRoom(f, size, alignment);
      }
    }
  }

  /** An alignment that is no power of two fails an assertion as soon as some free block is large enough. */
  lemma BadAlignment(s: State, size: u64, alignment: u64)
    requires Inv(s) && !ValidAlignment(alignment)
    ensures FindFreeAddr(s, size, alignment)
            == if exists f :: f in s.free && f.size >= size then Abort else Err(NoVirtualMemory)
  {
    var i := LowerBound(s.free, FreeLess, FreeBlock(0, size));
    if i < |s.free| {
      SkipsSmaller(s.free, size, i);
      assert s.free[i] in s.free;
    }
    if f :| f in s.free && f.size >= size {
      var k :| 0 <= k < |s.free| && s.free[k] == f;
      SkipsSmaller(s.free, size, k);
    }
  }

  /** Whatever the request, no answer is above 2^63. */
  lemma AnswerBelow(s: State, size: u64, alignment: u64)
    requires Inv(s) && FindFreeAddr(s, size, alignment).Ok?
    ensures FindFreeAddr(s, size, alignment).value <= 0x8000_0000_0000_0000
  {
    var f := s.free[FindFreeBlock(s.free, size, alignment).value];
    FreeBlockGap(s, FindFreeBlock(s.free, size, alignment).value);
    if alignment != 0 {
      AlignedBaseIsCeiling(f.virtualBase, alignment);
      HalfIsMultiple(alignment);
    }
  }

  function Witness(size: u64): State
    requires size < 0x7fff_ffff_ffff_ffff
  {
    var n := if size == 0 then 1 else size;
    State(1 + n, 1, [AllocatedBlock(0, 0, 1, 0)], [FreeBlock(1, n)])
  }

  lemma WitnessInv(size: u64)
    requires size < 0x7fff_ffff_ffff_ffff
    ensures Inv(Witness(size))
  {
    var s := Witness(size);
    assert SumAllocated(s.alloc) == 1;
    GapListExact(s.alloc, 0, s.max);
    assert s.alloc[1..] == [];
    assert GapList(s.alloc, 0, s.max) == s.free;
  }

  /** One allocated byte at 0 and one free block just too small: the room test wraps and lets it pass. */
  lemma SmallSizeWraps(size: u64, alignment: u64)
    requires IsPowerOfTwo(alignment) && !LargeEnough(size, alignment)
    ensures size < 0x7fff_ffff_ffff_ffff
    ensures Inv(Witness(size)) && !AnswerFits(Witness(size), size, alignment)
  {
    var k := WordExponent(alignment);
    Pow2Monotone(k, 63);
    Pow2Of64();
    WitnessInv(size);
    var s := Witness(size);
    AlignedBaseIsCeiling(1, alignment);
    var x := StartIn(s.free[0], alignment);
    CloseMultiples(x, alignment, alignment);
    SkipsSmaller(s.free, size, 0);
    assert HasRoom(s.free[0], size, alignment);
  }

  /** The answer is sound on every heap exactly when the size is large enough for the alignment. */
  lemma AnswerSoundIff(size: u64, alignment: u64)
    requires ValidAlignment(alignment)
    ensures (forall s: State :: Inv(s) ==> AnswerFits(s, size, alignment)) <==> LargeEnough(size, alignment)
  {
    if LargeEnough(size, alignment) {
      forall s: State | Inv(s)
        ensures AnswerFits(s, size, alignment)
      {
        LargeEnoughFits(s, size, alignment);
      }
    } else {
      SmallSizeWraps(size, alignment);
    }
  }

  /** With a size that the loader or allocate may pass, the answer is the best-fit start of a free range. */
  lemma AnswerIsFree(s: State, size: u64, alignment: u64)
    requires Inv(s) && ValidSize(size, alignment)
    ensures var r := FindFreeAddr(s, size, alignment);
            && (r.Ok? <==> exists x :: CanStart(s, x, size, alignment))
            && (r.Ok? ==> CanStart(s, r.value, size, alignment))
            && (!r.Ok? ==> r == Err(NoVirtualMemory))
  {
    FoundAdmits(s, size, alignment);
    BestFit(s, size, alignment);
    StartInSomeBlock(s, size, alignment);
    var r := FindFreeBlock(s.free, size, alignment);
    if r.Ok? {
      BlockRangeFree(s, s.free[r.value], StartIn(s.free[r.value], alignment), size);
    }
  }

  /** A fresh manager answers with address 0 whatever fits it. */
  lemma FreshAnswersZero(max: u64, size: u64, alignment: u64)
    requires 0 < max && size <= max && ValidAlignment(alignment)
    ensures FindFreeAddr(Fresh(max), size, alignment) == Ok(0)
  {
    var f := FreeBlock(0, max);
    assert LowerBound([f], FreeLess, FreeBlock(0, size)) == 0;
    if alignment != 0 {
      AlignDownIsFloor(0, alignment);
      assert Multiple(0, alignment);
      assert StartIn(f, alignment) == 0 && HasRoom(f, size, alignment);
    }
  }
}
