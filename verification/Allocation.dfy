/** What allocate promises: complete search, best fit, exact hints, and when a loose hint is safe. */
module Allocation {
  import opened Types
  import opened Alignment
  import opened OrderedSet
  import opened Blocks
  import opened Gaps
  import opened Allocator
  import opened AllocatorInvariant

  predicate ValidAlignment(alignment: u64) {
    alignment == 0 || IsPowerOfTwo(alignment)
  }

  predicate ValidSize(size: u64, alignment: u64) {
    size > 0 && ValidAlignment(alignment) && Multiple(size, alignment)
  }

  /** [x, x + size) lies in the address space and no address of it is allocated. */
  ghost predicate RangeFree(s: State, x: int, size: nat) {
    0 <= x && x + size <= s.max && forall y :: x <= y < x + size ==> y !in Occupied(s.alloc)
  }

  ghost predicate CanStart(s: State, x: int, size: nat, alignment: nat) {
    Multiple(x, alignment) && RangeFree(s, x, size)
  }

  /** Block f alone has an aligned place for the request. */
  ghost predicate Admits(f: FreeBlock, size: nat, alignment: nat) {
    exists x: int :: Multiple(x, alignment) && f.virtualBase <= x && x + size <= f.End()
  }

  /** A block of at least the requested size: the room test is exact, and its subtractions do not wrap. */
  lemma RoomExact(f: FreeBlock, size: u64, alignment: u64)
    requires f.End() <= 0x8000_0000_0000_0000 && ValidSize(size, alignment) && size <= f.size
    ensures var x := StartIn(f, alignment);
            && f.virtualBase <= x <= f.End()
            && IsCeiling(x, f.virtualBase, alignment)
            && (HasRoom(f, size, alignment) <==> x + size <= f.End())
    ensures HasRoom(f, size, alignment) <==> Admits(f, size, alignment)
  {
    var x := StartIn(f, alignment);
    if alignment != 0 {
      AlignedSizeCoversAlignment(size, alignment);
      AlignedBaseIsCeiling(f.virtualBase, alignment);
    }
    if HasRoom(f, size, alignment) {
      assert Multiple(x, alignment) && f.virtualBase <= x && x + size <= f.End();
    }
  }

  /** The starting point of the search skips exactly the blocks that are too small. */
  lemma {:induction false} SkipsSmaller(free: seq<FreeBlock>, size: u64, k: nat)
    requires Sorted(free, FreeLess) && k < |free|
    ensures LowerBound(free, FreeLess, FreeBlock(0, size)) <= k <==> size <= free[k].size
  {
    var from := LowerBound(free, FreeLess, FreeBlock(0, size));
    if from < k {
      assert FreeLess(free[from], free[k]);
    }
  }

  /** A block that admits the request is not passed over. */
  lemma NotPassedOver(s: State, size: u64, alignment: u64, k: nat)
    requires Inv(s) && ValidSize(size, alignment) && k < |s.free| && Admits(s.free[k], size, alignment)
    ensures var r := FindFreeBlock(s.free, size, alignment); r.Ok? && r.value <= k
  {
    FreeBlockGap(s, k);
    SkipsSmaller(s.free, size, k);
    RoomExact(s.free[k], size, alignment);
  }

  /** The block found admits the request, and the request starts at the least aligned address in it. */
  lemma FoundAdmits(s: State, size: u64, alignment: u64)
    requires Inv(s) && ValidSize(size, alignment)
    ensures !FindFreeBlock(s.free, size, alignment).Abort?
    ensures var r := FindFreeBlock(s.free, size, alignment);
            && (r.Err? ==> r.error == NoVirtualMemory)
            && (r.Ok? ==>
                  var f := s.free[r.value];
                  && Admits(f, size, alignment)
                  && StartIn(f, alignment) + size <= f.End()
                  && IsCeiling(StartIn(f, alignment), f.virtualBase, alignment))
  {
    var r := FindFreeBlock(s.free, size, alignment);
    if r.Ok? {
      FreeBlockGap(s, r.value);
      SkipsSmaller(s.free, size, r.value);
      RoomExact(s.free[r.value], size, alignment);
      assert HasRoom(s.free[r.value], size, alignment);
    }
  }

  /** Best fit: the search yields the least (size, base) block that admits the request, or none admits it. */
  lemma BestFit(s: State, size: u64, alignment: u64)
    requires Inv(s) && ValidSize(size, alignment)
    ensures var r := FindFreeBlock(s.free, size, alignment);
            && (r.Ok? <==> exists f :: f in s.free && Admits(f, size, alignment))
            && (r.Ok? ==>
                  var f := s.free[r.value];
                  && Admits(f, size, alignment)
                  && IsCeiling(StartIn(f, alignment), f.virtualBase, alignment)
                  && forall g :: g in s.free && Admits(g, size, alignment) ==> g == f || FreeLess(f, g))
  {
    FoundAdmits(s, size, alignment);
    var r := FindFreeBlock(s.free, size, alignment);
    if r.Ok? {
      assert s.free[r.value] in s.free;
    }
    forall g | g in s.free && Admits(g, size, alignment)
      ensures r.Ok? && (g == s.free[r.value] || FreeLess(s.free[r.value], g))
    {
      var k :| 0 <= k < |s.free| && s.free[k] == g;
      NotPassedOver(s, size, alignment, k);
    }
  }

  /** A free range lies inside a single free block. */
  lemma RangeInBlock(s: State, x: nat, size: nat) returns (g: FreeBlock)
    requires Inv(s) && size > 0 && RangeFree(s, x, size)
    ensures g in s.free && g.virtualBase <= x && x + size <= g.End()
  {
    g := GapAround(Occupied(s.alloc), s.max, x, x + size);
  }

  lemma BlockRangeFree(s: State, f: FreeBlock, x: int, size: nat)
    requires Inv(s) && f in s.free && f.virtualBase <= x && x + size <= f.End()
    ensures RangeFree(s, x, size)
  {
  }

  /** A request that has a place somewhere is never refused for lack of available memory. */
  lemma EarlyCheckHarmless(s: State, x: nat, size: nat)
    requires Inv(s) && size > 0 && RangeFree(s, x, size)
    ensures size <= s.max - s.used == Sub(s.max, s.used)
  {
    var g := RangeInBlock(s, x, size);
    FreeBlockAvailable(s, g);
    Conservation(s);
  }

  /** The checks that precede the search, in arithmetic terms: which requests pass, how each other one is refused. */
  lemma RefusalExact(s: State, args: AllocArgs)
    requires Inv(s)
    ensures Refusal(s, args)
            == if args.size == 0 then Some(InvalidSize)
               else if args.size > s.max - s.used then Some(NoVirtualMemory)
               else if !ValidAlignment(args.alignment) then Some(InvalidAlignment)
               else if !Multiple(args.size, args.alignment) then Some(InvalidSize)
               else if args.hint.Some? && args.Forced() && !Multiple(args.hint.value, args.alignment)
               then Some(InvalidAddress)
               else None
  {
    Conservation(s);
    AlignDownIsFloor(args.size, args.alignment);
    if args.hint.Some? {
      AlignDownIsFloor(args.hint.value, args.alignment);
    }
  }

  /** Some block admits the request exactly when it has a start address anywhere. */
  lemma StartInSomeBlock(s: State, size: u64, alignment: u64)
    requires Inv(s) && size > 0
    ensures (exists x :: CanStart(s, x, size, alignment)) <==> (exists f :: f in s.free && Admits(f, size, alignment))
  {
    if x :| CanStart(s, x, size, alignment) {
      var g := RangeInBlock(s, x, size);
      assert g in s.free && Admits(g, size, alignment);
    }
    if f :| f in s.free && Admits(f, size, alignment) {
      var x :| Multiple(x, alignment) && f.virtualBase <= x && x + size <= f.End();
      BlockRangeFree(s, f, x, size);
      assert CanStart(s, x, size, alignment);
    }
  }

  /** An unhinted request: it fails for virtual memory exactly when it has no place at all. */
  lemma UnhintedComplete(s: State, args: AllocArgs, host: Option<u64>)
    requires Inv(s) && args.hint.None? && ValidSize(args.size, args.alignment)
    ensures var (s', r) := Allocate(s, args, host);
            && (r == Err(NoVirtualMemory) <==> !exists x :: CanStart(s, x, args.size, args.alignment))
            && (r.Ok? <==> host.Some? && exists x :: CanStart(s, x, args.size, args.alignment))
            && (!r.Ok? ==> s' == s && (r == Err(NoVirtualMemory) || (r == Err(NoHostMemory) && host.None?)))
            && (r.Ok? ==> CanStart(s, r.value.virtualBase, args.size, args.alignment) && Inv(s'))
  {
    RefusalExact(s, args);
    FoundAdmits(s, args.size, args.alignment);
    BestFit(s, args.size, args.alignment);
    StartInSomeBlock(s, args.size, args.alignment);
    if x :| CanStart(s, x, args.size, args.alignment) {
      EarlyCheckHarmless(s, x, args.size);
    }
    var r := FindFreeBlock(s.free, args.size, args.alignment);
    if Refusal(s, args).None? && r.Ok? {
      var p := Placement(r.value, StartIn(s.free[r.value], args.alignment));
      assert Place(s.free, args) == Ok(p);
      BlockRangeFree(s, s.free[p.index], p.base, args.size);
      assert CanStart(s, p.base, args.size, args.alignment);
      if host.Some? {
        ClaimKeeps(s, p, args, host.value);
      }
    }
  }

  /** Free blocks do not touch, so a block that holds the start of a free range contains that range. */
  lemma HoldingContains(s: State, hint: u64, size: u64, k: nat)
    requires Inv(s) && size > 0 && RangeFree(s, hint, size) && k < |s.free| && Holds(s.free[k], hint)
    ensures s.free[k].virtualBase <= hint && hint + size <= s.free[k].End()
  {
    var g := RangeInBlock(s, hint, size);
    FreeBlockGap(s, k);
    if g != s.free[k] {
      GapsApart(Occupied(s.alloc), 0, s.max, g, s.free[k]);
    }
  }

  /** If the range at the hint is free, the scan stops at the block that contains it. */
  lemma {:induction false} ScanFindsRange(s: State, hint: u64, size: u64)
    requires Inv(s) && size > 0 && RangeFree(s, hint, size)
    ensures var i := FirstHolding(s.free, 0, hint);
            i < |s.free| && s.free[i].virtualBase <= hint && hint + size <= s.free[i].End()
  {
    var g := RangeInBlock(s, hint, size);
    var k :| 0 <= k < |s.free| && s.free[k] == g;
    FreeBlockGap(s, k);
    assert Holds(s.free[k], hint);
    HoldingContains(s, hint, size, FirstHolding(s.free, 0, hint));
  }

  /** Where an enforced hint is placed, in terms of the block that the scan stops at. */
  lemma ForcedAtScan(s: State, args: AllocArgs, i: nat)
    requires Inv(s) && args.hint.Some? && args.Forced() && i == FirstHolding(s.free, 0, args.hint.value)
    ensures Place(s.free, args)
            == if i < |s.free| && args.hint.value + args.size <= s.free[i].End() then Ok(Placement(i, args.hint.value))
               else Err(NoVirtualMemory)
  {
    if i < |s.free| {
      FreeBlockGap(s, i);
    }
  }

  /** The enforced-hint search finds the hint exactly when the range at the hint is free. */
  lemma ForcedPlace(s: State, args: AllocArgs)
    requires Inv(s) && args.hint.Some? && args.Forced() && args.size > 0
    ensures Place(s.free, args).Ok? <==> RangeFree(s, args.hint.value, args.size)
    ensures var r := Place(s.free, args);
            r.Ok? ==> r.value.base == args.hint.value && InBlock(s.free[r.value.index], r.value.base, args.size)
  {
    var hint, i := args.hint.value, FirstHolding(s.free, 0, args.hint.value);
    ForcedAtScan(s, args, i);
    if RangeFree(s, hint, args.size) {
      ScanFindsRange(s, hint, args.size);
    }
    if i < |s.free| && hint + args.size <= s.free[i].End() {
      BlockRangeFree(s, s.free[i], hint, args.size);
    }
  }

  /** An enforced hint succeeds, host permitting, exactly when its whole range is free; and only at the hint. */
  lemma ForcedExact(s: State, args: AllocArgs, host: Option<u64>)
    requires Inv(s) && args.hint.Some? && args.Forced() && ValidSize(args.size, args.alignment)
    ensures var (s', r) := Allocate(s, args, host);
            var possible := Multiple(args.hint.value, args.alignment) && RangeFree(s, args.hint.value, args.size);
            && (r.Ok? <==> possible && host.Some?)
            && (r.Ok? ==> r.value.virtualBase == args.hint.value && Inv(s'))
            && (!r.Ok? ==> s' == s && r.Err?)
            && (possible && host.None? ==> r == Err(NoHostMemory))
            && (!possible ==> r == Err(NoVirtualMemory) || r == Err(InvalidAddress))
            && (Multiple(args.hint.value, args.alignment) && !possible ==> r == Err(NoVirtualMemory))
  {
    RefusalExact(s, args);
    ForcedPlace(s, args);
    if RangeFree(s, args.hint.value, args.size) {
      EarlyCheckHarmless(s, args.hint.value, args.size);
    }
    var r := Place(s.free, args);
    if Refusal(s, args).None? && r.Ok? && host.Some? {
      ClaimKeeps(s, r.value, args, host.value);
    }
  }

  /** A loose hint starts inside the block that holds it, at its end at the latest. */
  lemma LooseStart(f: FreeBlock, hint: u64, size: u64, alignment: u64)
    requires f.End() <= 0x8000_0000_0000_0000 && ValidAlignment(alignment) && alignment <= 0x8000_0000_0000_0000
    requires Holds(f, hint)
    ensures var x := StartAtHint(f, hint, size, alignment, false);
            x.Some? ==> f.virtualBase <= x.value <= f.End() && Multiple(x.value, alignment)
  {
    if alignment != 0 {
      AlignDownIsFloor(hint, alignment);
      AlignUpIsCeiling(hint, alignment);
    }
  }

  /** The placement chosen for a request leaves room for it. Nothing else checks this for a loose hint. */
  predicate Fits(s: State, args: AllocArgs) {
    Refusal(s, args).None? ==>
      match Place(s.free, args)
      case Ok(p) => InBlock(s.free[p.index], p.base, args.size)
      case _ => true
  }

  lemma LoosePlaceInside(s: State, args: AllocArgs)
    requires Inv(s) && Refusal(s, args).None? && args.hint.Some? && !args.Forced()
    ensures var r := PlaceAtHint(s.free, args);
            r.Some? ==> s.free[r.value.index].virtualBase <= r.value.base <= s.free[r.value.index].End()
  {
    RefusalExact(s, args);
    var i := FirstHolding(s.free, 0, args.hint.value);
    if i < |s.free| {
      FreeBlockGap(s, i);
      AlignedSizeCoversAlignment(args.size, args.alignment);
      LooseStart(s.free[i], args.hint.value, args.size, args.alignment);
    }
  }

  /** Every placement, checked or not, starts inside its free block or at its end. */
  lemma PlaceInside(s: State, args: AllocArgs)
    requires Inv(s) && Refusal(s, args).None?
    ensures var r := Place(s.free, args);
            r.Ok? ==> s.free[r.value.index].virtualBase <= r.value.base <= s.free[r.value.index].End()
  {
    RefusalExact(s, args);
    if args.hint.Some? && args.Forced() {
      ForcedPlace(s, args);
    } else {
      if args.hint.Some? {
        LoosePlaceInside(s, args);
      }
      FoundAdmits(s, args.size, args.alignment);
    }
  }

  /** allocate keeps the invariant and trips no assertion exactly when it claims nothing or what it claims fits. */
  lemma AllocateKeepsIff(s: State, args: AllocArgs, host: Option<u64>)
    requires Inv(s)
    ensures var (s', r) := Allocate(s, args, host);
            && (Inv(s') && !r.Abort? <==> Fits(s, args) || host.None?)
            && (r.Err? ==> s' == s)
  {
    if Refusal(s, args).None? && host.Some? {
      PlaceInside(s, args);
      RefusalExact(s, args);
      var r := Place(s.free, args);
      if r.Ok? {
        FreeBlockGap(s, r.value.index);
        if InBlock(s.free[r.value.index], r.value.base, args.size) {
          ClaimKeeps(s, r.value, args, host.value);
        } else {
          OverrunBreaks(s, r.value, args, host.value);
        }
      }
    }
  }

  /** Unhinted and enforced-hint requests are always checked. */
  lemma CheckedFits(s: State, args: AllocArgs)
    requires Inv(s) && (args.hint.None? || args.Forced())
    ensures Fits(s, args)
  {
    RefusalExact(s, args);
    if Refusal(s, args).None? {
      if args.hint.Some? {
        ForcedPlace(s, args);
      } else {
        FoundAdmits(s, args.size, args.alignment);
      }
    }
  }

  /** A loose, unaligned hint is safe exactly when the block that holds the hint is large enough by itself. */
  lemma LooseHintFits(s: State, args: AllocArgs)
    requires Inv(s) && args.hint.Some? && !args.Forced() && args.alignment == 0 && Refusal(s, args).None?
    ensures var i := FirstHolding(s.free, 0, args.hint.value);
            Fits(s, args) <==> (i < |s.free| ==> args.size <= s.free[i].size)
  {
  }

  /** With an alignment the rounded hint must leave room; a hint that no rounding keeps in the block is dropped. */
  lemma LooseAlignedHintFits(s: State, args: AllocArgs)
    requires Inv(s) && args.hint.Some? && !args.Forced() && args.alignment != 0 && Refusal(s, args).None?
    ensures var i := FirstHolding(s.free, 0, args.hint.value);
            Fits(s, args) <==>
              (i < |s.free| ==>
                 var f, hint := s.free[i], args.hint.value;
                 var down, up := AlignDown(hint, args.alignment).value, AlignUp(hint, args.alignment).value;
                 if f.virtualBase <= down then down + args.size <= f.End()
                 else up <= f.End() ==> up + args.size <= f.End())
  {
    var i := FirstHolding(s.free, 0, args.hint.value);
    RefusalExact(s, args);
    FoundAdmits(s, args.size, args.alignment);
    if i < |s.free| {
      FreeBlockGap(s, i);
      PlaceInside(s, args);
    }
  }

  /** Where a loose hint that block f holds is put: at the hint if there is room from there on, and else at the block's
      base; with an alignment, at the hint rounded down or, if that is before the block, rounded up, unless that is past
      its end. */
  function LooseStartOf(f: FreeBlock, hint: nat, size: nat, alignment: nat): Option<int> {
    if alignment == 0 then Some(if hint + size <= f.End() then hint else f.virtualBase)
    else
      var down := hint - hint % alignment;
      if f.virtualBase <= down then Some(down)
      else if down + alignment <= f.End() then Some(down + alignment)
      else None
  }

  /** At most one free block holds the hint. */
  lemma {:induction false} OneHolds(s: State, hint: u64, f: FreeBlock)
    requires Inv(s) && f in s.free && f.virtualBase <= hint <= f.End()
    ensures var i := FirstHolding(s.free, 0, hint); i < |s.free| && s.free[i] == f
  {
    var k :| 0 <= k < |s.free| && s.free[k] == f;
    FreeBlockGap(s, k);
    assert Holds(s.free[k], hint);
    var i := FirstHolding(s.free, 0, hint);
    assert i <= k;
    FreeBlockGap(s, i);
    if s.free[i] != f {
      GapsApart(Occupied(s.alloc), 0, s.max, s.free[i], f);
    }
  }

  lemma LooseStartExact(f: FreeBlock, hint: u64, size: u64, alignment: u64)
    requires f.End() <= 0x8000_0000_0000_0000 && ValidAlignment(alignment) && alignment <= 0x8000_0000_0000_0000
    requires f.virtualBase <= hint <= f.End()
    ensures var x, y := StartAtHint(f, hint, size, alignment, false), LooseStartOf(f, hint, size, alignment);
            (x.Some? <==> y.Some?) && (x.Some? ==> x.value == y.value)
  {
    if alignment != 0 {
      MaskWord(hint, alignment);
      AlignUpIsCeiling(hint, alignment);
      AlignDownIsFloor(hint, alignment);
      if hint % alignment != 0 {
        RoundedUp(hint, alignment, AlignUp(hint, alignment).value);
      }
    }
  }

  lemma RoundedUp(v: nat, a: nat, r: int)
    requires a > 0 && v % a != 0 && IsCeiling(r, v, a) && r < v + a
    ensures r == v - v % a + a
  {
    RemainderIsFloor(v, a);
    MultipleSum(v - v % a, a, a);
    CloseMultiples(r, v - v % a + a, a);
  }

  lemma {:induction false} LoosePlace(s: State, args: AllocArgs, f: FreeBlock, i: nat)
    requires Inv(s) && args.hint.Some? && !args.Forced() && Refusal(s, args).None?
    requires f in s.free && f.virtualBase <= args.hint.value <= f.End()
    requires i == FirstHolding(s.free, 0, args.hint.value)
    ensures i < |s.free| && s.free[i] == f
    ensures var start := LooseStartOf(f, args.hint.value, args.size, args.alignment);
            if start.Some? then 0 <= start.value < U64 && Place(s.free, args) == Ok(Placement(i, start.value))
            else Place(s.free, args) == Place(s.free, args.(hint := None))
  {
    RefusalExact(s, args);
    OneHolds(s, args.hint.value, f);
    FreeBlockGap(s, i);
    AlignedSizeCoversAlignment(args.size, args.alignment);
    LooseStartExact(f, args.hint.value, args.size, args.alignment);
  }

  /** A loose hint that fits is put there, with the requested size and permissions; a hint that its block drops is
      ignored. */
  lemma {:induction false} LooseHintExact(s: State, args: AllocArgs, host: Option<u64>, f: FreeBlock)
    requires Inv(s) && args.hint.Some? && !args.Forced() && Refusal(s, args).None? && Fits(s, args)
    requires f in s.free && f.virtualBase <= args.hint.value <= f.End()
    ensures var start := LooseStartOf(f, args.hint.value, args.size, args.alignment);
            var r := Allocate(s, args, host).1;
            if start.None? then Allocate(s, args, host) == Allocate(s, args.(hint := None), host)
            else if host.None? then r == Err(NoHostMemory)
            else && r.Ok? && r.value.virtualBase == start.value && r.value.size == args.size
                 && r.value.hostBase == host.value && r.value.flags == And(args.flags, 7)
  {
    LoosePlace(s, args, f, FirstHolding(s.free, 0, args.hint.value));
    RefusalExact(s, args);
    RefusalExact(s, args.(hint := None));
    var p := Place(s.free, args);
    if p.Ok? && host.Some? {
      ClaimKeeps(s, p.value, args, host.value);
    }
  }

  lemma {:induction false} NoneHolds(s: State, hint: u64)
    requires Inv(s) && forall f :: f in s.free ==> !(f.virtualBase <= hint <= f.End())
    ensures FirstHolding(s.free, 0, hint) == |s.free|
  {
    var i := FirstHolding(s.free, 0, hint);
    if i < |s.free| {
      FreeBlockGap(s, i);
    }
  }

  /** A loose hint that no free block holds is ignored. */
  lemma {:induction false} LooseHintElsewhere(s: State, args: AllocArgs, host: Option<u64>)
    requires Inv(s) && args.hint.Some? && !args.Forced() && Refusal(s, args).None?
    requires forall f :: f in s.free ==> !(f.virtualBase <= args.hint.value <= f.End())
    ensures Allocate(s, args, host) == Allocate(s, args.(hint := None), host)
  {
    NoneHolds(s, args.hint.value);
    RefusalExact(s, args);
    RefusalExact(s, args.(hint := None));
  }

  /** One byte allocated at address 4 of 16: 4 bytes are free below it and 11 above. */
  const HOLED := State(16, 1, [AllocatedBlock(100, 4, 1, 3)], [FreeBlock(0, 4), FreeBlock(5, 11)])

  lemma HoledInv()
    ensures Inv(HOLED)
  {
    var alloc := HOLED.alloc;
    assert SumAllocated(alloc) == 1;
    GapListExact(alloc, 0, 16);
    assert GapList(alloc[1..], 5, 16) == [FreeBlock(5, 11)];
    assert GapList(alloc, 0, 16) == HOLED.free;
  }

  /** A loose hint that overruns: there is room for 8 bytes at address 5, but they are claimed at the hint, at 0. */
  lemma LooseHintOverruns(hostBase: u64)
    ensures var args := AllocArgs(8, 0, Some(0), PERM_READ_WRITE);
            CanStart(HOLED, 5, 8, 0) && !Inv(Allocate(HOLED, args, Some(hostBase)).0)
  {
    var s, args := HOLED, AllocArgs(8, 0, Some(0), PERM_READ_WRITE);
    HoledInv();
    BlockRangeFree(s, s.free[1], 5, 8);
    assert And(PERM_READ_WRITE, FORCE_HINT) == 0;
    assert Refusal(s, args).None?;
    assert FirstHolding(s.free, 0, 0) == 0;
    LooseHintFits(s, args);
    AllocateKeepsIff(s, args, Some(hostBase));
    assert Place(s.free, args) == Ok(Placement(0, 0));
  }

  /** A successful, fitting allocation: the block, and where it is put. */
  lemma AllocateEffect(s: State, args: AllocArgs, host: Option<u64>)
    requires Inv(s) && Fits(s, args) && Allocate(s, args, host).1.Ok?
    ensures var (s', r) := Allocate(s, args, host);
            var i := LowerBound(s.alloc, AllocatedLess, r.value);
            && Inv(s') && s'.max == s.max && host.Some?
            && r.value.hostBase == host.value && r.value.size == args.size
            && r.value.flags == And(args.flags, PERM_MASK)
            && s'.alloc == InsertAt(s.alloc, i, r.value)
            && Occupied(s'.alloc) == Occupied(s.alloc) + Span(r.value.virtualBase, args.size)
            && RangeFree(s, r.value.virtualBase, args.size)
  {
    var p := Place(s.free, args).value;
    ClaimKeeps(s, p, args, host.value);
    BlockRangeFree(s, s.free[p.index], p.base, args.size);
  }

  /** Everything an enforced hint needs, the sizes included. */
  lemma ForcedOkIff(s: State, args: AllocArgs, host: Option<u64>)
    requires Inv(s) && args.hint.Some? && args.Forced()
    ensures var r := Allocate(s, args, host).1;
            && (r.Ok? <==> host.Some? && ValidSize(args.size, args.alignment)
                           && Multiple(args.hint.value, args.alignment)
                           && RangeFree(s, args.hint.value, args.size))
            && (r.Ok? ==> r.value.virtualBase == args.hint.value)
            && (!r.Ok? ==> r.Err? && Allocate(s, args, host).0 == s)
  {
    RefusalExact(s, args);
    if ValidSize(args.size, args.alignment) {
      ForcedExact(s, args, host);
    }
  }

  /** An unhinted allocation is a best fit: no block that admits the request is smaller, or as small and lower; the
      block starts at the least aligned address there; and nothing but that range is claimed. */
  lemma UnhintedBestFit(s: State, args: AllocArgs, host: Option<u64>)
    requires Inv(s) && args.hint.None? && Allocate(s, args, host).1.Ok?
    ensures var (s', r) := Allocate(s, args, host);
            && r.value.size == args.size && r.value.flags == And(args.flags, PERM_MASK)
            && host == Some(r.value.hostBase)
            && Occupied(s'.alloc) == Occupied(s.alloc) + Span(r.value.virtualBase, args.size)
            && exists f :: f in s.free && Admits(f, args.size, args.alignment)
                 && IsCeiling(r.value.virtualBase, f.virtualBase, args.alignment)
                 && forall g :: g in s.free && Admits(g, args.size, args.alignment) ==> g == f || FreeLess(f, g)
  {
    RefusalExact(s, args);
    CheckedFits(s, args);
    AllocateEffect(s, args, host);
    BestFit(s, args.size, args.alignment);
    var i := FindFreeBlock(s.free, args.size, args.alignment).value;
    assert s.free[i] in s.free;
  }
}
