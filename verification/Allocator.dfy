/** The memory manager's state and the effect of each of its operations, as functions of the state. */
module Allocator {
  import opened Types
  import opened Alignment
  import opened OrderedSet
  import opened Blocks
  import opened Gaps

  const PERM_READ: u64 := 1
  const PERM_WRITE: u64 := 2
  const PERM_EXEC: u64 := 4
  const FORCE_HINT: u64 := 8
  const PERM_READ_WRITE: u64 := 3
  const PERM_MASK: u64 := 7

  datatype State = State(max: u64, used: u64, alloc: seq<AllocatedBlock>, free: seq<FreeBlock>)

  datatype AllocArgs = AllocArgs(size: u64, alignment: u64, hint: Option<u64>, flags: u64) {
    predicate Forced() { And(flags, FORCE_HINT) != 0 }

    /** An enforced hint is checked for alignment up front, and alignment is then dropped. */
    function SearchAlignment(): u64 {
      if hint.Some? && Forced() then 0 else alignment
    }
  }

  ghost predicate ExactIndex(free: seq<FreeBlock>, alloc: seq<AllocatedBlock>, max: nat) {
    && Sorted(free, FreeLess)
    && (forall g :: g in free <==> MaximalGap(Occupied(alloc), 0, max, g))
  }

  /** The free index is exactly the set of maximal gaps of the allocated set. */
  ghost predicate Inv(s: State) {
    && 0 < s.max <= 0x8000_0000_0000_0000
    && Layout(s.alloc, 0, s.max)
    && ExactIndex(s.free, s.alloc, s.max)
    && s.used == SumAllocated(s.alloc)
  }

  function Fresh(max: u64): State {
    State(max, 0, [], [FreeBlock(0, max)])
  }

  // ---------- searching ----------

  /** The start of a request inside a free block. */
  function StartIn(f: FreeBlock, alignment: u64): u64
    requires alignment == 0 || IsPowerOfTwo(alignment)
  {
    if alignment == 0 then f.virtualBase else AlignedBase(f.virtualBase, alignment).value
  }

  /** The room test of the search. Both subtractions wrap. */
  predicate HasRoom(f: FreeBlock, size: u64, alignment: u64)
    requires alignment == 0 || IsPowerOfTwo(alignment)
  {
    alignment == 0 || Sub(f.size, Sub(StartIn(f, alignment), f.virtualBase)) >= size
  }

  function FirstWithRoom(free: seq<FreeBlock>, from: nat, size: u64, alignment: u64): (i: nat)
    requires from <= |free|
    requires alignment == 0 || IsPowerOfTwo(alignment)
    ensures from <= i <= |free|
    ensures forall k :: from <= k < i ==> !HasRoom(free[k], size, alignment)
    ensures i < |free| ==> HasRoom(free[i], size, alignment)
    decreases |free| - from
  {
    if from == |free| || HasRoom(free[from], size, alignment) then from
    else FirstWithRoom(free, from + 1, size, alignment)
  }

  function FindFreeBlock(free: seq<FreeBlock>, size: u64, alignment: u64): (r: Outcome<nat>)
    ensures r.Ok? ==> r.value < |free| && (alignment == 0 || IsPowerOfTwo(alignment))
  {
    var from := LowerBound(free, FreeLess, FreeBlock(0, size));
    if from == |free| then Err(NoVirtualMemory)
    else if alignment == 0 then Ok(from)
    else if !IsPowerOfTwo(alignment) then Abort
    else
      var i := FirstWithRoom(free, from, size, alignment);
      if i == |free| then Err(NoVirtualMemory) else Ok(i)
  }

  function FindFreeAddr(s: State, size: u64, alignment: u64): Outcome<u64> {
    match FindFreeBlock(s.free, size, alignment)
    case Ok(i) => Ok(StartIn(s.free[i], alignment))
    case Err(e) => Err(e)
    case Abort => Abort
  }

  /** The hint scan accepts the end address of a block as well. */
  predicate Holds(f: FreeBlock, hint: u64) {
    f.virtualBase <= hint <= Add(f.virtualBase, f.size)
  }

  function FirstHolding(free: seq<FreeBlock>, from: nat, hint: u64): (i: nat)
    requires from <= |free|
    ensures from <= i <= |free|
    ensures forall k :: from <= k < i ==> !Holds(free[k], hint)
    ensures i < |free| ==> Holds(free[i], hint)
    decreases |free| - from
  {
    if from == |free| || Holds(free[from], hint) then from else FirstHolding(free, from + 1, hint)
  }

  /** Where a hinted request starts in the block that holds the hint. None: not in this block. */
  function StartAtHint(f: FreeBlock, hint: u64, size: u64, alignment: u64, forced: bool): Option<u64>
    requires alignment == 0 || IsPowerOfTwo(alignment)
  {
    if alignment != 0 then
      var down := AlignDown(hint, alignment).value;
      if down < f.virtualBase then
        var up := AlignUp(hint, alignment).value;
        if up > Add(f.virtualBase, f.size) then None else Some(up)
      else Some(down)
    else if Sub(Add(f.virtualBase, f.size), hint) < size then
      (if !forced then Some(f.virtualBase) else None)
    else Some(hint)
  }

  datatype Placement = Placement(index: nat, base: u64)

  function PlaceAtHint(free: seq<FreeBlock>, args: AllocArgs): (r: Option<Placement>)
    requires args.SearchAlignment() == 0 || IsPowerOfTwo(args.SearchAlignment())
    ensures r.Some? ==> r.value.index < |free|
  {
    if args.hint.None? then None
    else
      var i := FirstHolding(free, 0, args.hint.value);
      if i == |free| then None
      else
        match StartAtHint(free[i], args.hint.value, args.size, args.SearchAlignment(), args.Forced())
        case Some(base) => Some(Placement(i, base))
        case None => None
  }

  /** The free block and the start address that a checked request is given. */
  function Place(free: seq<FreeBlock>, args: AllocArgs): (r: Outcome<Placement>)
    requires args.SearchAlignment() == 0 || IsPowerOfTwo(args.SearchAlignment())
    ensures r.Ok? ==> r.value.index < |free|
    ensures r.Err? ==> r.error == NoVirtualMemory
    ensures !r.Abort?
  {
    var hinted := PlaceAtHint(free, args);
    if hinted.Some? then Ok(hinted.value)
    else if args.hint.Some? && args.Forced() then Err(NoVirtualMemory)
    else
      match FindFreeBlock(free, args.size, args.SearchAlignment())
      case Ok(i) => Ok(Placement(i, StartIn(free[i], args.SearchAlignment())))
      case Err(e) => Err(e)
      case Abort => Abort
  }

  // ---------- operations ----------

  /** The checks that come before any search, in their order. */
  function Refusal(s: State, args: AllocArgs): Option<Error> {
    if args.size == 0 then Some(InvalidSize)
    else if Sub(s.max, s.used) < args.size then Some(NoVirtualMemory)
    else if args.alignment != 0 && !IsPowerOfTwo(args.alignment) then Some(InvalidAlignment)
    else if args.alignment != 0 && AlignDown(args.size, args.alignment).value != args.size then Some(InvalidSize)
    else if args.hint.Some? && args.alignment != 0 && args.Forced()
            && AlignDown(args.hint.value, args.alignment).value != args.hint.value
    then Some(InvalidAddress)
    else None
  }

  function InsertNonempty(free: seq<FreeBlock>, f: FreeBlock): seq<FreeBlock> {
    if f.size != 0 then Insert(free, FreeLess, f) else free
  }

  /** The free index after a claimed range is cut out of block i. The arithmetic wraps. */
  function Split(free: seq<FreeBlock>, i: nat, base: u64, size: u64): seq<FreeBlock>
    requires i < |free|
  {
    var f, end := free[i], Add(base, size);
    var first := FreeBlock(f.virtualBase, Sub(base, f.virtualBase));
    var last := FreeBlock(end, Sub(Add(f.virtualBase, f.size), end));
    InsertNonempty(InsertNonempty(RemoveAt(free, i), first), last)
  }

  function Claim(s: State, p: Placement, args: AllocArgs, hostBase: u64): (State, Outcome<AllocatedBlock>)
    requires p.index < |s.free|
  {
    var block := AllocatedBlock(hostBase, p.base, args.size, And(args.flags, PERM_MASK));
    var free := Split(s.free, p.index, p.base, args.size);
    if Find(s.alloc, AllocatedLess, block).Some? then (s.(free := free), Abort)
    else (State(s.max, Add(s.used, args.size), Insert(s.alloc, AllocatedLess, block), free), Ok(block))
  }

  /** host is the host allocator's answer: the base of a host range, or nothing. */
  function Allocate(s: State, args: AllocArgs, host: Option<u64>): (State, Outcome<AllocatedBlock>) {
    var refusal := Refusal(s, args);
    if refusal.Some? then (s, Err(refusal.value))
    else
      match Place(s.free, args)
      case Err(e) => (s, Err(e))
      case Abort => (s, Abort)
      case Ok(p) =>
        if host.None? then (s, Err(NoHostMemory)) else Claim(s, p, args, host.value)
  }

  datatype Merge = Merge(free: seq<FreeBlock>, block: FreeBlock)

  /** Takes one neighbour out of the free index and joins it to the block. The neighbour must be there. */
  function Absorb(m: Merge, neighbour: FreeBlock, prev: bool): Outcome<Merge> {
    match Find(m.free, FreeLess, neighbour)
    case None => Abort
    case Some(k) =>
      var f := m.free[k];
      var base := if prev then f.virtualBase else m.block.virtualBase;
      Ok(Merge(RemoveAt(m.free, k), FreeBlock(base, Add(m.block.size, f.size))))
  }

  /** The end of the block before block i, or the start of the address space. */
  function EndBefore(s: State, i: nat): u64
    requires i < |s.alloc|
  {
    if i == 0 then 0 else Add(s.alloc[i - 1].virtualBase, s.alloc[i - 1].size)
  }

  /** The start of the block after block i, or the end of the address space. */
  function StartAfter(s: State, i: nat): u64
    requires i < |s.alloc|
  {
    if i + 1 == |s.alloc| then s.max else s.alloc[i + 1].virtualBase
  }

  function MergeBefore(s: State, i: nat): Outcome<Merge>
    requires i < |s.alloc|
  {
    var b := s.alloc[i];
    var m := Merge(s.free, FreeBlock(b.virtualBase, b.size));
    var prevEnd := EndBefore(s, i);
    if prevEnd != b.virtualBase then Absorb(m, FreeBlock(prevEnd, Sub(b.virtualBase, prevEnd)), true) else Ok(m)
  }

  function MergeAfter(s: State, i: nat, m: Merge): Outcome<Merge>
    requires i < |s.alloc|
  {
    var end := Add(s.alloc[i].virtualBase, s.alloc[i].size);
    var next := StartAfter(s, i);
    if end != next then Absorb(m, FreeBlock(end, Sub(next, end)), false) else Ok(m)
  }

  /** Frees block i of the allocated set. */
  function Release(s: State, i: nat): (State, Outcome<()>)
    requires i < |s.alloc|
  {
    var before := MergeBefore(s, i);
    if !before.Ok? then (s, Abort)
    else
      var after := MergeAfter(s, i, before.value);
      if !after.Ok? then (s.(free := before.value.free), Abort)
      else
        var free := Insert(after.value.free, FreeLess, after.value.block);
        (State(s.max, Sub(s.used, s.alloc[i].size), RemoveAt(s.alloc, i), free), Ok(()))
  }

  function Free(s: State, vbase: u64): (State, Outcome<()>) {
    match Find(s.alloc, AllocatedLess, Probe(vbase))
    case None => (s, Err(NotFound))
    case Some(i) => if s.alloc[i].virtualBase != vbase then (s, Err(NotFound)) else Release(s, i)
  }

  function BlockFromVAddr(s: State, vaddr: u64): Outcome<AllocatedBlock> {
    match Find(s.alloc, AllocatedLess, Probe(vaddr))
    case Some(i) => Ok(s.alloc[i])
    case None => Err(NotFound)
  }

  function SetFlags(s: State, vbase: u64, flags: u64): (State, Outcome<u64>) {
    match Find(s.alloc, AllocatedLess, Probe(vbase))
    case None => (s, Err(NotFound))
    case Some(i) =>
      if s.alloc[i].virtualBase != vbase then (s, Err(InvalidAddress))
      else (s.(alloc := s.alloc[i := s.alloc[i].(flags := flags)]), Ok(s.alloc[i].flags))
  }

  /** reset rebuilds both sets and leaves the used counter as it was. */
  function Reset(s: State): State {
    State(s.max, s.used, [], [FreeBlock(0, s.max)])
  }
}
