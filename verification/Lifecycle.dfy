/** The virtual machine's hold on guest memory, from construction through loading to destruction. */
module Lifecycle {
  import opened Types
  import opened Alignment
  import opened OrderedSet
  import opened Blocks
  import opened Gaps
  import opened Allocator
  import opened Allocation
  import opened Freeing
  import opened Restore
  import opened BridgeTable
  import opened Segments
  import opened Boot

  // ---------- construction ----------

  function NullArgs(page: u64): AllocArgs {
    AllocArgs(page, 0, Some(0), FORCE_HINT)
  }

  function StackArgs(max: u64, page: u64, stackSize: u64): AllocArgs {
    AllocArgs(stackSize, page, Some(Sub(max, stackSize)), SEGMENT_FLAGS)
  }

  datatype Stack = Stack(base: u64, top: u64)

  /** Claims the null block and the stack. Whatever goes wrong fails an assertion. */
  function Construct(mem: State, page: u64, stackSize: u64, nullHost: Option<u64>, stackHost: Option<u64>)
    : (State, Outcome<Stack>)
  {
    if !IsPowerOfTwo(page) || AlignDown(stackSize, page) != Ok(stackSize) then (mem, Abort)
    else
      var (mem1, r1) := Allocate(mem, NullArgs(page), nullHost);
      if !r1.Ok? then (mem1, Abort)
      else
        var (mem2, r2) := Allocate(mem1, StackArgs(mem1.max, page, stackSize), stackHost);
        if !r2.Ok? then (mem2, Abort)
        else (mem2, Ok(Stack(r2.value.virtualBase, Add(r2.value.virtualBase, r2.value.size))))
  }

  lemma NullFlags()
    ensures And(FORCE_HINT, FORCE_HINT) != 0 && And(FORCE_HINT, PERM_MASK) == 0
  {
  }

  /** The block is live, and its range is all that has become occupied. */
  ghost predicate Adds(mem: State, t: State, b: AllocatedBlock) {
    b in t.alloc && Occupied(t.alloc) == Occupied(mem.alloc) + Span(b.virtualBase, b.size)
  }

  /** What a fitting allocation adds, in full. */
  lemma AllocateAdds(mem: State, args: AllocArgs, host: Option<u64>, t: State, b: AllocatedBlock)
    requires Inv(mem) && Fits(mem, args) && Allocate(mem, args, host) == (t, Ok(b))
    ensures host.Some? && b == AllocatedBlock(host.value, b.virtualBase, args.size, And(args.flags, PERM_MASK))
    ensures Adds(mem, t, b) && Extends(mem, t, [b.virtualBase]) && forall c :: c in mem.alloc ==> c in t.alloc
  {
    AllocateEffect(mem, args, host);
    AllocateExtends(mem, args, host);
    InsertAtElements(mem.alloc, LowerBound(mem.alloc, AllocatedLess, b), b);
  }

  /** The null block: page 0 is claimed exactly when it is free and the host serves it. */
  lemma NullBlock(mem: State, page: u64, host: Option<u64>, t: State, r: Outcome<AllocatedBlock>)
    requires Inv(mem) && page > 0 && Allocate(mem, NullArgs(page), host) == (t, r)
    ensures r.Ok? <==> host.Some? && RangeFree(mem, 0, page)
    ensures r.Ok? ==> && Extends(mem, t, [0]) && 0 in Occupied(t.alloc)
                      && Adds(mem, t, AllocatedBlock(host.value, 0, page, 0))
  {
    var args := NullArgs(page);
    NullFlags();
    ForcedOkIff(mem, args, host);
    if r.Ok? {
      CheckedFits(mem, args);
      AllocateAdds(mem, args, host, t, r.value);
      assert 0 in Span(0, page) by {
        assert InRange(0, 0, page);
      }
    }
  }

  lemma StackBlock(mem: State, page: u64, stackSize: u64, host: Option<u64>, t: State, r: Outcome<AllocatedBlock>)
    requires Inv(mem) && IsPowerOfTwo(page) && Allocate(mem, StackArgs(mem.max, page, stackSize), host) == (t, r)
    ensures r.Ok? <==> && host.Some? && stackSize > 0 && Multiple(stackSize, page)
                       && Multiple(Sub(mem.max, stackSize), page) && RangeFree(mem, Sub(mem.max, stackSize), stackSize)
    ensures r.Ok? ==> && r.value == AllocatedBlock(host.value, Sub(mem.max, stackSize), stackSize, 3)
                      && Adds(mem, t, r.value) && Extends(mem, t, [r.value.virtualBase])
                      && forall c :: c in mem.alloc ==> c in t.alloc
  {
    var args := StackArgs(mem.max, page, stackSize);
    SegmentFlags();
    ForcedOkIff(mem, args, host);
    if r.Ok? {
      CheckedFits(mem, args);
      AllocateAdds(mem, args, host, t, r.value);
    }
  }

  /** When a machine can be constructed on the given memory. */
  ghost predicate RoomForMachine(mem: State, page: u64, stackSize: u64) {
    var base := Sub(mem.max, stackSize);
    && IsPowerOfTwo(page) && stackSize > 0 && Multiple(stackSize, page) && Multiple(base, page)
    && RangeFree(mem, 0, page) && RangeFree(mem, base, stackSize) && page <= base
  }

  lemma ClaimedLow(mem: State, t: State, page: u64, base: u64, size: u64)
    requires t.max == mem.max && page > 0 && size > 0 && Occupied(t.alloc) == Occupied(mem.alloc) + Span(0, page)
    ensures RangeFree(t, base, size) <==> RangeFree(mem, base, size) && page <= base
  {
    AvoidsBoth(Occupied(mem.alloc), Span(0, page), base, size);
    AvoidsSpan(0, page, base, size);
  }

  /** A null page that may not be touched and a stack below the top that may be read and written are live, and their two
      ranges are all that has become occupied. */
  ghost predicate HoldsMachine(mem: State, t: State, page: u64, stackSize: u64, nullHost: u64, stackHost: u64)
    requires stackSize <= mem.max
  {
    && AllocatedBlock(nullHost, 0, page, 0) in t.alloc
    && AllocatedBlock(stackHost, mem.max - stackSize, stackSize, 3) in t.alloc
    && Occupied(t.alloc) == Occupied(mem.alloc) + Span(0, page) + Span(mem.max - stackSize, stackSize)
  }

  lemma BothLive(mem: State, t: State, t2: State, page: u64, stackSize: u64, nullHost: u64, b: AllocatedBlock)
    requires stackSize <= mem.max && Adds(mem, t, AllocatedBlock(nullHost, 0, page, 0))
    requires Adds(t, t2, b) && b == AllocatedBlock(b.hostBase, mem.max - stackSize, stackSize, 3)
    requires forall c :: c in t.alloc ==> c in t2.alloc
    ensures HoldsMachine(mem, t2, page, stackSize, nullHost, b.hostBase)
  {
  }

  /** The same, with the stack's base; freeing the two bases undoes it. */
  ghost predicate MachineHeld(
    mem: State, t: State, page: u64, stackSize: u64, nullHost: u64, stackHost: u64, base: u64)
  {
    && stackSize <= mem.max && base == mem.max - stackSize && 0 in Occupied(t.alloc)
    && HoldsMachine(mem, t, page, stackSize, nullHost, stackHost) && Extends(mem, t, [0] + [base])
  }

  lemma BothHeld(mem: State, t: State, t2: State, page: u64, stackSize: u64, nullHost: u64, b: AllocatedBlock)
    requires stackSize <= mem.max && 0 in Occupied(t.alloc) && Extends(mem, t, [0]) && Extends(t, t2, [b.virtualBase])
    requires Adds(mem, t, AllocatedBlock(nullHost, 0, page, 0))
    requires Adds(t, t2, b) && b == AllocatedBlock(b.hostBase, mem.max - stackSize, stackSize, 3)
    requires forall c :: c in t.alloc ==> c in t2.alloc
    ensures MachineHeld(mem, t2, page, stackSize, nullHost, b.hostBase, b.virtualBase)
  {
    BothLive(mem, t, t2, page, stackSize, nullHost, b);
    ExtendsTransitive(mem, t, t2, [0], [b.virtualBase]);
  }

  lemma RoomAfterNull(mem: State, t: State, page: u64, stackSize: u64, base: u64)
    requires t.max == mem.max && base == Sub(mem.max, stackSize) && RangeFree(mem, 0, page)
    requires IsPowerOfTwo(page) && Occupied(t.alloc) == Occupied(mem.alloc) + Span(0, page)
    ensures RoomForMachine(mem, page, stackSize)
            <==> && stackSize > 0 && Multiple(stackSize, page) && Multiple(base, page) && RangeFree(t, base, stackSize)
    ensures RoomForMachine(mem, page, stackSize) ==> base == mem.max - stackSize
  {
    if stackSize > 0 {
      ClaimedLow(mem, t, page, base, stackSize);
    }
  }

  lemma StackAfterNull(mem: State, t: State, page: u64, stackSize: u64, nullHost: u64, host: Option<u64>,
                       t2: State, r: Outcome<AllocatedBlock>)
    requires Extends(mem, t, [0]) && 0 in Occupied(t.alloc) && IsPowerOfTwo(page) && Multiple(stackSize, page)
    requires Adds(mem, t, AllocatedBlock(nullHost, 0, page, 0)) && RangeFree(mem, 0, page)
    requires Allocate(t, StackArgs(t.max, page, stackSize), host) == (t2, r)
    ensures r.Ok? <==> RoomForMachine(mem, page, stackSize) && host.Some?
    ensures r.Ok? ==> r.value.size == stackSize
                      && MachineHeld(mem, t2, page, stackSize, nullHost, host.value, r.value.virtualBase)
  {
    StackBlock(t, page, stackSize, host, t2, r);
    RoomAfterNull(mem, t, page, stackSize, Sub(mem.max, stackSize));
    if r.Ok? {
      BothHeld(mem, t, t2, page, stackSize, nullHost, r.value);
    }
  }

  lemma ConstructSteps(mem: State, page: u64, stackSize: u64, nullHost: Option<u64>, stackHost: Option<u64>,
                       t: State, r: Outcome<Stack>)
    returns (t1: State, r1: Outcome<AllocatedBlock>, t2: State, r2: Outcome<AllocatedBlock>)
    requires Construct(mem, page, stackSize, nullHost, stackHost) == (t, r)
    ensures (t1, r1) == Allocate(mem, NullArgs(page), nullHost)
    ensures (t2, r2) == Allocate(t1, StackArgs(t1.max, page, stackSize), stackHost)
    ensures r.Ok? <==> IsPowerOfTwo(page) && AlignDown(stackSize, page) == Ok(stackSize) && r1.Ok? && r2.Ok?
    ensures r.Ok? ==> t == t2 && r.value == Stack(r2.value.virtualBase, Add(r2.value.virtualBase, r2.value.size))
    ensures !r.Ok? ==> r.Abort?
  {
    t1, r1 := Allocate(mem, NullArgs(page), nullHost).0, Allocate(mem, NullArgs(page), nullHost).1;
    var args := StackArgs(t1.max, page, stackSize);
    t2, r2 := Allocate(t1, args, stackHost).0, Allocate(t1, args, stackHost).1;
  }

  /** Construction succeeds exactly when page 0 and the top of memory are free whole pages and the host serves both. */
  lemma ConstructExact(mem: State, page: u64, stackSize: u64, nullHost: Option<u64>, stackHost: Option<u64>,
                       t: State, r: Outcome<Stack>)
    requires Inv(mem) && Construct(mem, page, stackSize, nullHost, stackHost) == (t, r)
    ensures !r.Err? && (r.Ok? <==> RoomForMachine(mem, page, stackSize) && nullHost.Some? && stackHost.Some?)
    ensures r.Ok? ==> r.value.top == mem.max
                      && MachineHeld(mem, t, page, stackSize, nullHost.value, stackHost.value, r.value.base)
  {
    AlignDownIsFloor(stackSize, page);
    var t1, r1, t2, r2 := ConstructSteps(mem, page, stackSize, nullHost, stackHost, t, r);
    if IsPowerOfTwo(page) && Multiple(stackSize, page) {
      NullBlock(mem, page, nullHost, t1, r1);
      if r1.Ok? {
        StackAfterNull(mem, t1, page, stackSize, nullHost.value, stackHost, t2, r2);
      }
    }
  }

  /** On a fresh memory that is: whole pages throughout, and room for the stack above page 0. */
  lemma ConstructFresh(max: u64, page: u64, stackSize: u64)
    requires 0 < max <= 0x8000_0000_0000_0000
    ensures RoomForMachine(Fresh(max), page, stackSize)
            <==> && IsPowerOfTwo(page) && stackSize > 0 && Multiple(stackSize, page) && Multiple(max, page)
                 && page + stackSize <= max
  {
    if stackSize <= max && Multiple(stackSize, page) {
      assert max == (max - stackSize) + stackSize;
      if Multiple(max, page) {
        MultipleSum(max, stackSize, page);
      }
      if Multiple(max - stackSize, page) {
        MultipleSum(max - stackSize, stackSize, page);
      }
    }
  }

  // ---------- destruction ----------

  /** Frees one block after another; a free that fails fails an assertion. */
  function Destroy(mem: State, vbases: seq<u64>): Outcome<State>
    decreases |vbases|
  {
    if vbases == [] then Ok(mem)
    else
      var (t, r) := Free(mem, vbases[0]);
      if r.Ok? then Destroy(t, vbases[1..]) else Abort
  }

  lemma FirstAndRest(mem: State, t: State, vbases: seq<u64>)
    requires vbases != [] && LiveBase(mem.alloc, vbases[0])
    requires forall i :: 0 < i < |vbases| ==>
               (LiveBase(t.alloc, vbases[i]) <==> LiveBase(mem.alloc, vbases[i]) && vbases[i] != vbases[0])
    ensures AllDifferent(vbases) && AllLive(mem, vbases) <==> AllDifferent(vbases[1..]) && AllLive(t, vbases[1..])
  {
  }

  lemma LiveAfterFree(mem: State, t: State, vbases: seq<u64>)
    requires Inv(mem) && vbases != [] && Free(mem, vbases[0]) == (t, Ok(()))
    ensures Inv(t) && LiveBase(mem.alloc, vbases[0])
    ensures AllDifferent(vbases) && AllLive(mem, vbases) <==> AllDifferent(vbases[1..]) && AllLive(t, vbases[1..])
  {
    FreeExact(mem, vbases[0]);
    forall i | 0 < i < |vbases|
      ensures LiveBase(t.alloc, vbases[i]) <==> LiveBase(mem.alloc, vbases[i]) && vbases[i] != vbases[0]
    {
      LiveWithout(mem.alloc, {vbases[0]}, vbases[i]);
    }
    FirstAndRest(mem, t, vbases);
  }

  /** Destruction trips no assertion exactly when each address is the base of a live block and none is listed twice. */
  lemma {:induction false} DestroyExact(mem: State, vbases: seq<u64>)
    requires Inv(mem)
    ensures Destroy(mem, vbases)
            == if AllDifferent(vbases) && AllLive(mem, vbases) then Ok(FreeAll(mem, vbases)) else Abort
    decreases |vbases|
  {
    if vbases == [] {
    } else {
      FreeExact(mem, vbases[0]);
      var (t, r) := Free(mem, vbases[0]);
      if r.Ok? {
        LiveAfterFree(mem, t, vbases);
        DestroyExact(t, vbases[1..]);
      }
    }
  }

  lemma PermutedLive(t: State, all: seq<u64>, some: seq<u64>)
    requires AllLive(t, all) && multiset(some) == multiset(all)
    ensures AllLive(t, some)
  {
    forall i | 0 <= i < |some|
      ensures LiveBase(t.alloc, some[i])
    {
      assert some[i] in multiset(all);
    }
  }

  /** A block that is not freed is still there, so the state is not what it was. */
  lemma {:induction false} LostRemains(s: State, t: State, all: seq<u64>, freed: seq<u64>, v: u64)
    requires Extends(s, t, all) && v in all && v !in freed && LiveBase(t.alloc, v)
    ensures FreeAll(t, freed) != s
  {
    FreeAllExact(t, freed);
    LiveWithout(t.alloc, Elements(freed), v);
    LiveWithout(t.alloc, Elements(all), v);
  }

  lemma FreedAndLost(freed: seq<u64>, lost: seq<u64>)
    requires AllDifferent(freed + lost)
    ensures AllDifferent(freed) && forall v :: v in lost ==> v !in freed
  {
    var both := freed + lost;
    forall i, j | 0 <= i < j < |freed|
      ensures freed[i] != freed[j]
    {
      assert both[i] != both[j];
    }
    forall i, j | 0 <= i < |freed| && 0 <= j < |lost|
      ensures freed[i] != lost[j]
    {
      assert both[i] != both[|freed| + j];
    }
  }

  /** Part of what a state was extended by is freed, in any order: no free fails, and the state is restored exactly when
      nothing was left out. */
  lemma {:induction false} DestroyRestoresIff(s: State, t: State, all: seq<u64>, freed: seq<u64>, lost: seq<u64>)
    requires Extends(s, t, all) && multiset(freed + lost) == multiset(all)
    ensures Destroy(t, freed).Ok? && (Destroy(t, freed) == Ok(s) <==> lost == [])
  {
    DifferentPermuted(all, freed + lost);
    PermutedLive(t, all, freed + lost);
    FreedAndLost(freed, lost);
    assert AllLive(t, freed) by {
      assert forall i :: 0 <= i < |freed| ==> freed[i] == (freed + lost)[i];
    }
    DestroyExact(t, freed);
    if lost == [] {
      assert freed + lost == freed;
      FreeingRestores(s, t, all, freed);
    } else {
      assert (freed + lost)[|freed|] == lost[0];
      assert lost[0] in Elements(freed + lost);
      LostRemains(s, t, all, freed, lost[0]);
    }
  }

  lemma ConstructExtends(mem: State, page: u64, stackSize: u64, nullHost: Option<u64>, stackHost: Option<u64>,
                         m1: State, stack: Stack)
    requires Inv(mem) && Construct(mem, page, stackSize, nullHost, stackHost) == (m1, Ok(stack))
    ensures Extends(mem, m1, [0] + [stack.base]) && 0 in Occupied(m1.alloc)
  {
    ConstructExact(mem, page, stackSize, nullHost, stackHost, m1, Ok(stack));
  }

  /** What a machine holds after a load, sorted into what its destructors free and what they do not. */
  lemma LoadLoses(held: seq<u64>, before: seq<u64>, claimed: seq<u64>, listed: seq<u64>, started: bool, order: seq<u64>)
    requires !started ==> listed == before
    requires multiset(order) == multiset(held + (claimed + listed))
    ensures multiset(order + (if started then before else []))
            == multiset((held + before) + (claimed + (if started then listed else [])))
  {
  }

  /** A load on a machine that holds some blocks and lists its segments: however it ends, no assertion of the
      destructors fails, in whatever order they free; and memory is as it was before the machine took anything exactly
      when the machine listed no segments before or the load ended before its query answered. Otherwise the earlier
      segments stay behind. */
  lemma {:induction false} LeavesNoTraceIff(
    mem: State, held: seq<u64>, s: Snapshot, es: seq<Entry>, page: u64, image: Image, iftHost: Option<u64>,
    hosts: seq<Option<u64>>, t: Snapshot, order: seq<u64>)
    requires Extends(mem, s.mem, held + s.segments) && 0 in Occupied(s.mem.alloc)
    requires Shape(s.table, 0, es) && !s.table.HasBuiltIFT() && HostsAllow(|s.ram|, image, hosts)
    requires t == LoadBinary(s, page, image, iftHost, hosts).0
    requires multiset(order) == multiset(held + (TableBlocks(t.table) + t.segments))
    ensures Destroy(t.mem, order).Ok?
    ensures Destroy(t.mem, order) == Ok(mem) <==> s.segments == [] || !Reserves(s, page, image, iftHost)
  {
    var started := Reserves(s, page, image, iftHost);
    var claimed := TableBlocks(t.table);
    LoadBinaryExtends(s, page, image, iftHost, hosts, es, t);
    var more := claimed + (if started then t.segments else []);
    ExtendsTransitive(mem, s.mem, t.mem, held + s.segments, more);
    LoadLoses(held, s.segments, claimed, t.segments, started, order);
    DestroyRestoresIff(mem, t.mem, (held + s.segments) + more, order, if started then s.segments else []);
  }

  lemma {:induction false} FirstLoad(
    mem: State, held: seq<u64>, s: Snapshot, es: seq<Entry>, page: u64, image: Image, iftHost: Option<u64>,
    hosts: seq<Option<u64>>, t: Snapshot, order: seq<u64>)
    requires Extends(mem, s.mem, held) && s.segments == [] && 0 in Occupied(s.mem.alloc)
    requires Shape(s.table, 0, es) && !s.table.HasBuiltIFT() && HostsAllow(|s.ram|, image, hosts)
    requires t == LoadBinary(s, page, image, iftHost, hosts).0
    requires multiset(order) == multiset(held + (TableBlocks(t.table) + t.segments))
    ensures Destroy(t.mem, order) == Ok(mem)
  {
    assert held + s.segments == held;
    LeavesNoTraceIff(mem, held, s, es, page, image, iftHost, hosts, t, order);
  }

  /** A machine that was constructed and then loaded a binary, however that ended, is destroyed without a failed
      assertion and leaves no trace in memory, in whatever order its blocks are freed. */
  lemma {:induction false} LeavesNoTrace(
    mem: State, page: u64, stackSize: u64, nullHost: Option<u64>, stackHost: Option<u64>, stack: Stack,
    s: Snapshot, es: seq<Entry>, image: Image, iftHost: Option<u64>, hosts: seq<Option<u64>>, t: Snapshot,
    held: seq<u64>, order: seq<u64>)
    requires Inv(mem) && Construct(mem, page, stackSize, nullHost, stackHost) == (s.mem, Ok(stack))
    requires s.segments == [] && Shape(s.table, 0, es) && !s.table.HasBuiltIFT() && HostsAllow(|s.ram|, image, hosts)
    requires t == LoadBinary(s, page, image, iftHost, hosts).0
    requires held == [0] + [stack.base] && multiset(order) == multiset(held + (TableBlocks(t.table) + t.segments))
    ensures Destroy(t.mem, order) == Ok(mem)
  {
    ConstructExtends(mem, page, stackSize, nullHost, stackHost, s.mem, stack);
    FirstLoad(mem, held, s, es, page, image, iftHost, hosts, t, order);
  }
}
