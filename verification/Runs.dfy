/** Whole runs of the memory manager. */
module Runs {
  import opened Types
  import opened Blocks
  import opened Gaps
  import opened Allocator
  import opened AllocatorInvariant
  import opened Allocation
  import opened Lookup
  import opened Freeing

  datatype Op =
    | AllocateOp(args: AllocArgs, host: Option<u64>)
    | FreeOp(vbase: u64)
    | SetFlagsOp(vbase: u64, flags: u64)

  function Next(s: State, op: Op): State {
    match op
    case AllocateOp(args, host) => Allocate(s, args, host).0
    case FreeOp(vbase) => Free(s, vbase).0
    case SetFlagsOp(vbase, flags) => SetFlags(s, vbase, flags).0
  }

  predicate Aborts(s: State, op: Op) {
    match op
    case AllocateOp(args, host) => Allocate(s, args, host).1.Abort?
    case FreeOp(vbase) => Free(s, vbase).1.Abort?
    case SetFlagsOp(vbase, flags) => SetFlags(s, vbase, flags).1.Abort?
  }

  function Run(s: State, ops: seq<Op>): State
    decreases |ops|
  {
    if ops == [] then s else Run(Next(s, ops[0]), ops[1..])
  }

  /** The invariant holds before and after every operation, and no assertion fails. */
  ghost predicate Safe(s: State, ops: seq<Op>)
    decreases |ops|
  {
    Inv(s) && (ops == [] || (!Aborts(s, ops[0]) && Safe(Next(s, ops[0]), ops[1..])))
  }

  predicate OpFits(s: State, op: Op) {
    match op
    case AllocateOp(args, host) => Fits(s, args) || host.None?
    case _ => true
  }

  predicate AllFit(s: State, ops: seq<Op>)
    decreases |ops|
  {
    ops == [] || (OpFits(s, ops[0]) && AllFit(Next(s, ops[0]), ops[1..]))
  }

  lemma StepSafeIff(s: State, op: Op)
    requires Inv(s)
    ensures Inv(Next(s, op)) && !Aborts(s, op) <==> OpFits(s, op)
  {
    match op {
      case AllocateOp(args, host) => AllocateKeepsIff(s, args, host);
      case FreeOp(vbase) => FreeExact(s, vbase);
      case SetFlagsOp(vbase, flags) => SetFlagsExact(s, vbase, flags);
    }
  }

  /** A run is safe exactly when every claim in it fits its free block. */
  lemma {:induction false} RunSafeIff(s: State, ops: seq<Op>)
    requires Inv(s)
    ensures Safe(s, ops) <==> AllFit(s, ops)
    decreases |ops|
  {
    if ops == [] {
    } else {
      StepSafeIff(s, ops[0]);
      if OpFits(s, ops[0]) {
        RunSafeIff(Next(s, ops[0]), ops[1..]);
      } else if Inv(Next(s, ops[0])) {
        assert Aborts(s, ops[0]);
      }
    }
  }

  /** Requests without a hint, or with an enforced one. */
  predicate Checked(op: Op) {
    op.AllocateOp? ==> op.args.hint.None? || op.args.Forced()
  }

  lemma {:induction false} CheckedRunFits(s: State, ops: seq<Op>)
    requires Inv(s) && forall i :: 0 <= i < |ops| ==> Checked(ops[i])
    ensures AllFit(s, ops) && Inv(Run(s, ops)) && Run(s, ops).max == s.max
    decreases |ops|
  {
    if ops == [] {
    } else {
      if ops[0].AllocateOp? {
        CheckedFits(s, ops[0].args);
      }
      StepSafeIff(s, ops[0]);
      CheckedRunFits(Next(s, ops[0]), ops[1..]);
    }
  }

  /** Every state reached from a fresh manager by checked operations is sound and conserves memory. */
  lemma {:induction false} ReachableSound(max: u64, ops: seq<Op>)
    requires 0 < max <= 0x8000_0000_0000_0000 && forall i :: 0 <= i < |ops| ==> Checked(ops[i])
    ensures Safe(Fresh(max), ops)
    ensures var s := Run(Fresh(max), ops);
            && Layout(s.alloc, 0, max)
            && multiset(s.free) == multiset(GapList(s.alloc, 0, max))
            && |s.free| <= |s.alloc| + 1
            && SumAllocated(s.alloc) == s.used && SumFree(s.free) == max - s.used
    ensures var s := Run(Fresh(max), ops);
            forall f, g :: f in s.free && g in s.free && f != g ==>
              f.End() < g.virtualBase || g.End() < f.virtualBase
  {
    FreshInv(max);
    CheckedRunFits(Fresh(max), ops);
    RunSafeIff(Fresh(max), ops);
    var s := Run(Fresh(max), ops);
    Conservation(s);
    IndexIsGapList(s.alloc, s.max, s.free);
    forall f, g | f in s.free && g in s.free && f != g
      ensures f.End() < g.virtualBase || g.End() < f.virtualBase
    {
      GapsApart(Occupied(s.alloc), 0, s.max, f, g);
    }
  }

  lemma {:induction false} LayoutHasSize(alloc: seq<AllocatedBlock>, max: nat)
    requires Layout(alloc, 0, max)
    ensures alloc == [] || SumAllocated(alloc) > 0
  {
  }

  /** reset keeps the counter, so the invariant survives it exactly when nothing was in use. */
  lemma ResetKeepsIff(s: State)
    requires Inv(s)
    ensures Inv(Reset(s)) <==> s.used == 0
    ensures s.used == 0 ==> Reset(s) == Fresh(s.max) == s
    ensures Reset(s) == Fresh(s.max).(used := s.used)
  {
    FreshInv(s.max);
    LayoutHasSize(s.alloc, s.max);
    if s.used == 0 {
      StateDetermined(s, Fresh(s.max));
    }
  }

  // ---------- no waste ----------

  datatype Request = Request(size: u64, flags: u64, hostBase: u64)

  function Plain(q: Request): AllocArgs {
    AllocArgs(q.size, 0, None, q.flags)
  }

  /** The addresses granted to a run of plain requests. */
  function Granted(s: State, requests: seq<Request>): seq<Option<u64>>
    decreases |requests|
  {
    if requests == [] then []
    else
      var (s', r) := Allocate(s, Plain(requests[0]), Some(requests[0].hostBase));
      [if r.Ok? then Some(r.value.virtualBase) else None] + Granted(s', requests[1..])
  }

  /** The reference: hand out addresses from the bottom up, refusing only what no longer fits at all. */
  function Bump(max: u64, next: u64, requests: seq<Request>): seq<Option<u64>>
    requires next <= max
    decreases |requests|
  {
    if requests == [] then []
    else if requests[0].size <= max - next then [Some(next)] + Bump(max, next + requests[0].size, requests[1..])
    else [None] + Bump(max, next, requests[1..])
  }

  /** All allocated memory lies below all free memory. */
  ghost predicate Packed(s: State) {
    s.used <= s.max && s.free == if s.used < s.max then [FreeBlock(s.used, s.max - s.used)] else []
  }

  lemma PackedAllocate(s: State, args: AllocArgs, hostBase: u64)
    requires Inv(s) && Packed(s) && args.size > 0 && args.hint.None? && args.alignment == 0
    ensures Allocate(s, args, Some(hostBase))
            == if args.size > s.max - s.used then (s, Err(NoVirtualMemory))
               else if s.free != [] then Claim(s, Placement(0, s.used), args, hostBase) else (s, Abort)
    ensures args.size <= s.max - s.used ==> |s.free| == 1
  {
    RefusalExact(s, args);
    if args.size <= s.max - s.used {
      PackedPlace(s, args);
    }
  }

  lemma PackedPlace(s: State, args: AllocArgs)
    requires Inv(s) && Packed(s) && 0 < args.size <= s.max - s.used && args.hint.None? && args.alignment == 0
    ensures |s.free| == 1 && Place(s.free, args) == Ok(Placement(0, s.used))
  {
  }

  lemma PackedSplit(free: seq<FreeBlock>, base: u64, size: u64)
    requires |free| == 1 && free[0].virtualBase == base && size <= free[0].size && free[0].End() < U64
    ensures Split(free, 0, base, size)
            == if size < free[0].size then [FreeBlock(base + size, free[0].size - size)] else []
  {
  }

  /** A request that fits the free part is granted at its start. */
  lemma PackedGrant(s: State, args: AllocArgs, hostBase: u64)
    requires Inv(s) && Packed(s) && |s.free| == 1 && 0 < args.size <= s.max - s.used
    ensures var (t, r) := Claim(s, Placement(0, s.used), args, hostBase);
            && Inv(t) && Packed(t) && t.max == s.max && t.used == s.used + args.size
            && r.Ok? && r.value.virtualBase == s.used
  {
    ClaimKeeps(s, Placement(0, s.used), args, hostBase);
    PackedSplit(s.free, s.used, args.size);
  }

  lemma PackedStep(s: State, q: Request) returns (t: State, r: Outcome<AllocatedBlock>)
    requires Inv(s) && Packed(s) && q.size > 0
    ensures Allocate(s, Plain(q), Some(q.hostBase)) == (t, r)
    ensures Inv(t) && Packed(t) && t.max == s.max
    ensures if q.size <= s.max - s.used then r.Ok? && r.value.virtualBase == s.used && t.used == s.used + q.size
            else r == Err(NoVirtualMemory) && t == s
  {
    PackedAllocate(s, Plain(q), q.hostBase);
    if q.size <= s.max - s.used {
      PackedGrant(s, Plain(q), q.hostBase);
      var claimed := Claim(s, Placement(0, s.used), Plain(q), q.hostBase);
      t, r := claimed.0, claimed.1;
    } else {
      t, r := s, Err(NoVirtualMemory);
    }
  }

  /** The first request of a run, and the state the others see. */
  lemma GrantedFirst(s: State, requests: seq<Request>) returns (t: State, first: Option<u64>)
    requires Inv(s) && Packed(s) && requests != [] && requests[0].size > 0
    ensures Granted(s, requests) == [first] + Granted(t, requests[1..])
    ensures Inv(t) && Packed(t) && t.max == s.max
    ensures if requests[0].size <= s.max - s.used then first == Some(s.used) && t.used == s.used + requests[0].size
            else first == None && t.used == s.used
  {
    var r: Outcome<AllocatedBlock>;
    t, r := PackedStep(s, requests[0]);
    first := if r.Ok? then Some(r.value.virtualBase) else None;
  }

  lemma {:induction false} BumpFirst(max: u64, next: u64, requests: seq<Request>, first: Option<u64>, after: u64)
    requires next <= max && after <= max && requests != []
    requires if requests[0].size <= max - next then first == Some(next) && after == next + requests[0].size
             else first == None && after == next
    ensures Bump(max, next, requests) == [first] + Bump(max, after, requests[1..])
  {
  }

  /** Plain requests on a fresh manager are packed without a gap, and refused only when nothing could hold them. */
  lemma {:induction false} NoWaste(s: State, requests: seq<Request>)
    requires Inv(s) && Packed(s) && forall i :: 0 <= i < |requests| ==> requests[i].size > 0
    ensures Granted(s, requests) == Bump(s.max, s.used, requests)
    decreases |requests|
  {
    if requests == [] {
    } else {
      var t, first := GrantedFirst(s, requests);
      BumpFirst(s.max, s.used, requests, first, t.used);
      NoWaste(t, requests[1..]);
    }
  }

  lemma {:induction false} FreshNoWaste(max: u64, requests: seq<Request>)
    requires 0 < max <= 0x8000_0000_0000_0000 && forall i :: 0 <= i < |requests| ==> requests[i].size > 0
    ensures Granted(Fresh(max), requests) == Bump(max, 0, requests)
  {
    FreshInv(max);
    NoWaste(Fresh(max), requests);
  }
}
