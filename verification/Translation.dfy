/** From guest addresses to host addresses. */
module Translation {
  import opened Types
  import opened Alignment
  import opened OrderedSet
  import opened Blocks
  import opened Gaps
  import opened Allocator
  import opened AllocatorInvariant
  import opened Allocation
  import opened Lookup
  import opened Freeing
  import opened Runs

  /** The end address of the block is accepted as well. */
  function VirtualToHost(b: AllocatedBlock, vaddr: u64): Outcome<u64> {
    if b.virtualBase <= vaddr <= Add(b.virtualBase, b.size)
    then Ok(Add(Sub(vaddr, b.virtualBase), b.hostBase))
    else Err(InvalidAddress)
  }

  function Translate(s: State, vaddr: u64): Outcome<u64> {
    match BlockFromVAddr(s, vaddr)
    case Ok(b) => VirtualToHost(b, vaddr)
    case Err(e) => Err(e)
    case Abort => Abort
  }

  /** One block by itself also translates its end address, to the end of its host range. */
  lemma VirtualToHostExact(b: AllocatedBlock, vaddr: u64)
    requires b.End() < U64 && b.hostBase + b.size < U64
    ensures VirtualToHost(b, vaddr) == if vaddr < b.virtualBase || vaddr > b.End() then Err(InvalidAddress)
                                       else Ok(b.hostBase + (vaddr - b.virtualBase))
  {
  }

  ghost predicate HostApart(a: AllocatedBlock, b: AllocatedBlock) {
    a.hostBase + a.size <= b.hostBase || b.hostBase + b.size <= a.hostBase
  }

  /** The host ranges of the live blocks do not wrap and do not overlap. */
  ghost predicate HostDisjoint(alloc: seq<AllocatedBlock>) {
    && (forall i :: 0 <= i < |alloc| ==> alloc[i].hostBase + alloc[i].size <= U64)
    && (forall i, j :: 0 <= i < j < |alloc| ==> HostApart(alloc[i], alloc[j]))
  }

  lemma IndexApart(alloc: seq<AllocatedBlock>, i: nat, j: nat)
    requires HostDisjoint(alloc) && i < |alloc| && j < |alloc| && i != j
    ensures HostApart(alloc[i], alloc[j])
  {
    assert if i < j then HostApart(alloc[i], alloc[j]) else HostApart(alloc[j], alloc[i]);
  }

  /** A live block, whatever its flags. */
  ghost predicate HasBlock(alloc: seq<AllocatedBlock>, hostBase: u64, base: u64, size: u64) {
    exists k :: 0 <= k < |alloc|
                && alloc[k].hostBase == hostBase && alloc[k].virtualBase == base && alloc[k].size == size
  }

  /** A covered address translates to the same offset in its block's host range. */
  lemma TranslateInBlock(s: State, k: nat, vaddr: u64)
    requires Inv(s) && k < |s.alloc| && Contains(s.alloc[k], vaddr)
    requires s.alloc[k].hostBase + s.alloc[k].size <= U64
    ensures Translate(s, vaddr) == Ok(s.alloc[k].hostBase + (vaddr - s.alloc[k].virtualBase))
  {
    LookupExact(s.alloc, s.max, vaddr);
    assert Covers(s.alloc, vaddr);
    ContainerUnique(s.alloc, s.max, vaddr, k, Find(s.alloc, AllocatedLess, Probe(vaddr)).value);
  }

  /** Translation succeeds exactly on the covered addresses. */
  lemma TranslateExact(s: State, vaddr: u64)
    requires Inv(s)
    ensures Translate(s, vaddr).Ok? <==> vaddr in Occupied(s.alloc)
    ensures !Translate(s, vaddr).Ok? ==> Translate(s, vaddr) == Err(NotFound)
  {
    LookupExact(s.alloc, s.max, vaddr);
  }

  /** Distinct covered addresses have distinct host addresses. */
  lemma TranslateInjective(s: State, v: u64, w: u64)
    requires Inv(s) && HostDisjoint(s.alloc) && v != w
    requires v in Occupied(s.alloc) && w in Occupied(s.alloc)
    ensures Translate(s, v).Ok? && Translate(s, w).Ok? && Translate(s, v) != Translate(s, w)
  {
    var i :| 0 <= i < |s.alloc| && s.alloc[i].virtualBase <= v < s.alloc[i].End();
    var j :| 0 <= j < |s.alloc| && s.alloc[j].virtualBase <= w < s.alloc[j].End();
    TranslateInBlock(s, i, v);
    TranslateInBlock(s, j, w);
    if i != j {
      IndexApart(s.alloc, i, j);
    }
  }

  /** The host's answer does not overlap a live block's host range. */
  ghost predicate HostFresh(alloc: seq<AllocatedBlock>, hostBase: u64, size: u64) {
    && hostBase + size <= U64
    && forall i :: 0 <= i < |alloc| ==>
         alloc[i].hostBase + alloc[i].size <= hostBase || hostBase + size <= alloc[i].hostBase
  }

  ghost predicate HostBehaves(s: State, op: Op) {
    op.AllocateOp? && op.host.Some? ==> HostFresh(s.alloc, op.host.value, op.args.size)
  }

  /** What one step can do to the allocated set. */
  datatype Effect = Same | Inserted(i: nat, block: AllocatedBlock) | Removed(i: nat) | Reflagged(i: nat, flags: u64)

  predicate EffectInRange(alloc: seq<AllocatedBlock>, e: Effect) {
    match e
    case Same => true
    case Inserted(i, _) => i <= |alloc|
    case Removed(i) => i < |alloc|
    case Reflagged(i, _) => i < |alloc|
  }

  function After(alloc: seq<AllocatedBlock>, e: Effect): seq<AllocatedBlock>
    requires EffectInRange(alloc, e)
  {
    match e
    case Same => alloc
    case Inserted(i, b) => InsertAt(alloc, i, b)
    case Removed(i) => RemoveAt(alloc, i)
    case Reflagged(i, flags) => alloc[i := alloc[i].(flags := flags)]
  }

  lemma AllocationEffect(s: State, args: AllocArgs, host: Option<u64>) returns (e: Effect)
    requires Inv(s) && (Fits(s, args) || host.None?)
    ensures e.Same? || e.Inserted?
    ensures EffectInRange(s.alloc, e) && Allocate(s, args, host).0.alloc == After(s.alloc, e)
    ensures e.Inserted? ==> host == Some(e.block.hostBase) && e.block.size == args.size
  {
    AllocateKeepsIff(s, args, host);
    var (s', r) := Allocate(s, args, host);
    if r.Ok? {
      AllocateEffect(s, args, host);
      e := Inserted(LowerBound(s.alloc, AllocatedLess, r.value), r.value);
    } else {
      e := Same;
    }
  }

  lemma FreeEffect(s: State, vbase: u64) returns (e: Effect)
    requires Inv(s)
    ensures e.Same? || e.Removed?
    ensures EffectInRange(s.alloc, e) && Free(s, vbase).0.alloc == After(s.alloc, e)
    ensures e.Removed? ==> s.alloc[e.i].virtualBase == vbase
  {
    FreeExact(s, vbase);
    if i :| 0 <= i < |s.alloc| && s.alloc[i].virtualBase == vbase {
      FreeBlockKeeps(s, i);
      e := Removed(i);
    } else {
      e := Same;
    }
  }

  /** Every safe step has one of these effects. */
  lemma StepEffect(s: State, op: Op) returns (e: Effect)
    requires Inv(s) && OpFits(s, op)
    ensures EffectInRange(s.alloc, e) && Next(s, op).alloc == After(s.alloc, e)
    ensures e.Inserted? ==> op.AllocateOp? && op.host == Some(e.block.hostBase) && op.args.size == e.block.size
    ensures e.Removed? ==> op == FreeOp(s.alloc[e.i].virtualBase)
  {
    match op {
      case AllocateOp(args, host) =>
        e := AllocationEffect(s, args, host);
      case FreeOp(vbase) =>
        e := FreeEffect(s, vbase);
      case SetFlagsOp(vbase, flags) =>
        var it := Find(s.alloc, AllocatedLess, Probe(vbase));
        e := if it.Some? && s.alloc[it.value].virtualBase == vbase then Reflagged(it.value, flags) else Same;
    }
  }

  lemma InsertHostDisjoint(alloc: seq<AllocatedBlock>, n: nat, b: AllocatedBlock)
    requires HostDisjoint(alloc) && n <= |alloc| && HostFresh(alloc, b.hostBase, b.size)
    ensures HostDisjoint(InsertAt(alloc, n, b))
  {
    var t := InsertAt(alloc, n, b);
    forall i, j | 0 <= i < j < |t|
      ensures HostApart(t[i], t[j])
    {
      var k, l := if i < n then i else i - 1, if j < n then j else j - 1;
      if i != n && j != n {
        assert HostApart(alloc[k], alloc[l]);
      }
    }
  }

  lemma RemoveHostDisjoint(alloc: seq<AllocatedBlock>, n: nat)
    requires HostDisjoint(alloc) && n < |alloc|
    ensures HostDisjoint(RemoveAt(alloc, n))
  {
    var t := RemoveAt(alloc, n);
    forall i, j | 0 <= i < j < |t|
      ensures HostApart(t[i], t[j])
    {
      assert HostApart(alloc[if i < n then i else i + 1], alloc[if j < n then j else j + 1]);
    }
  }

  lemma ReflagHostDisjoint(alloc: seq<AllocatedBlock>, n: nat, flags: u64)
    requires HostDisjoint(alloc) && n < |alloc|
    ensures HostDisjoint(alloc[n := alloc[n].(flags := flags)])
  {
    var t := alloc[n := alloc[n].(flags := flags)];
    forall i, j | 0 <= i < j < |t|
      ensures HostApart(t[i], t[j])
    {
      assert HostApart(alloc[i], alloc[j]);
    }
  }

  lemma EffectKeepsHostDisjoint(alloc: seq<AllocatedBlock>, e: Effect)
    requires HostDisjoint(alloc) && EffectInRange(alloc, e)
    requires e.Inserted? ==> HostFresh(alloc, e.block.hostBase, e.block.size)
    ensures HostDisjoint(After(alloc, e))
  {
    match e {
      case Same =>
      case Inserted(i, b) => InsertHostDisjoint(alloc, i, b);
      case Removed(i) => RemoveHostDisjoint(alloc, i);
      case Reflagged(i, flags) => ReflagHostDisjoint(alloc, i, flags);
    }
  }

  lemma EffectKeepsBlock(alloc: seq<AllocatedBlock>, e: Effect, k: nat)
    requires EffectInRange(alloc, e) && k < |alloc| && (e.Removed? ==> e.i != k)
    ensures HasBlock(After(alloc, e), alloc[k].hostBase, alloc[k].virtualBase, alloc[k].size)
  {
    var j := if e.Inserted? && e.i <= k then k + 1 else if e.Removed? && e.i < k then k - 1 else k;
    var b := After(alloc, e)[j];
    assert b.hostBase == alloc[k].hostBase && b.virtualBase == alloc[k].virtualBase && b.size == alloc[k].size;
  }

  /** Every safe step keeps the host ranges of live blocks apart, if the host hands out fresh ranges. */
  lemma StepKeepsHostDisjoint(s: State, op: Op)
    requires Inv(s) && HostDisjoint(s.alloc) && OpFits(s, op) && HostBehaves(s, op)
    ensures HostDisjoint(Next(s, op).alloc)
  {
    var e := StepEffect(s, op);
    EffectKeepsHostDisjoint(s.alloc, e);
  }

  /** A safe step that does not free a block keeps the translation of the block's addresses. */
  lemma StepKeepsTranslation(s: State, op: Op, k: nat, vaddr: u64) returns (j: nat)
    requires Inv(s) && HostDisjoint(s.alloc) && OpFits(s, op) && HostBehaves(s, op)
    requires k < |s.alloc| && Contains(s.alloc[k], vaddr) && op != FreeOp(s.alloc[k].virtualBase)
    ensures var t := Next(s, op);
            && Inv(t) && HostDisjoint(t.alloc) && Translate(t, vaddr) == Translate(s, vaddr)
            && j < |t.alloc| && Contains(t.alloc[j], vaddr) && t.alloc[j].virtualBase == s.alloc[k].virtualBase
  {
    StepSafeIff(s, op);
    StepKeepsHostDisjoint(s, op);
    var e := StepEffect(s, op);
    EffectKeepsBlock(s.alloc, e, k);
    j := SameBlockSameTranslation(s, Next(s, op), k, vaddr);
  }

  lemma SameRangeSameTranslation(s: State, t: State, k: nat, j: nat, vaddr: u64)
    requires Inv(s) && Inv(t) && k < |s.alloc| && j < |t.alloc| && Contains(s.alloc[k], vaddr)
    requires s.alloc[k].hostBase + s.alloc[k].size <= U64
    requires t.alloc[j] == s.alloc[k].(flags := t.alloc[j].flags)
    ensures Translate(t, vaddr) == Translate(s, vaddr)
  {
    TranslateInBlock(s, k, vaddr);
    TranslateInBlock(t, j, vaddr);
  }

  lemma SameBlockSameTranslation(s: State, t: State, k: nat, vaddr: u64) returns (j: nat)
    requires Inv(s) && HostDisjoint(s.alloc) && Inv(t)
    requires k < |s.alloc| && Contains(s.alloc[k], vaddr)
    requires HasBlock(t.alloc, s.alloc[k].hostBase, s.alloc[k].virtualBase, s.alloc[k].size)
    ensures Translate(t, vaddr) == Translate(s, vaddr)
    ensures j < |t.alloc| && Contains(t.alloc[j], vaddr) && t.alloc[j].virtualBase == s.alloc[k].virtualBase
  {
    var b := s.alloc[k];
    j :| 0 <= j < |t.alloc|
         && t.alloc[j].hostBase == b.hostBase && t.alloc[j].virtualBase == b.virtualBase && t.alloc[j].size == b.size;
    SameRangeSameTranslation(s, t, k, j, vaddr);
  }

  ghost predicate HostBehavesThroughout(s: State, ops: seq<Op>)
    decreases |ops|
  {
    ops == [] || (HostBehaves(s, ops[0]) && HostBehavesThroughout(Next(s, ops[0]), ops[1..]))
  }

  /** Through a whole safe run that does not free a block, its addresses keep their translation. */
  lemma {:induction false} TranslationStable(s: State, ops: seq<Op>, k: nat, vaddr: u64)
    requires Inv(s) && HostDisjoint(s.alloc) && AllFit(s, ops) && HostBehavesThroughout(s, ops)
    requires k < |s.alloc| && Contains(s.alloc[k], vaddr) && FreeOp(s.alloc[k].virtualBase) !in ops
    ensures Inv(Run(s, ops)) && HostDisjoint(Run(s, ops).alloc)
    ensures Translate(Run(s, ops), vaddr) == Translate(s, vaddr)
    decreases |ops|
  {
    if ops == [] {
    } else {
      var j := StepKeepsTranslation(s, ops[0], k, vaddr);
      TranslationStable(Next(s, ops[0]), ops[1..], j, vaddr);
    }
  }

  // ---------- a loose hint that overruns ----------

  const HOLE_OP := AllocateOp(AllocArgs(1, 0, Some(4), 11), Some(100)) // PERM_READ_WRITE | FORCE_HINT
  const LOOSE_OP := AllocateOp(AllocArgs(8, 0, Some(0), PERM_READ_WRITE), Some(200))

  lemma HoleFlags()
    ensures And(11, FORCE_HINT) != 0 && And(11, PERM_MASK) == 3
  {
    assert And(11, 8) == 8 && And(11, 7) == 3;
  }

  lemma HoleGranted() returns (t: State, b: AllocatedBlock)
    ensures Allocate(Fresh(16), HOLE_OP.args, Some(100)) == (t, Ok(b))
    ensures b == HOLED.alloc[0] && Inv(t) && t.max == 16 && t.alloc == InsertAt([], 0, b)
  {
    var s, args := Fresh(16), HOLE_OP.args;
    FreshInv(16);
    HoleFlags();
    BlockRangeFree(s, FreeBlock(0, 16), 4, 1);
    ForcedOkIff(s, args, Some(100));
    CheckedFits(s, args);
    AllocateEffect(s, args, Some(100));
    t, b := Allocate(s, args, Some(100)).0, Allocate(s, args, Some(100)).1.value;
  }

  /** An enforced hint at 4 makes the hole. */
  lemma HoleMade()
    ensures Next(Fresh(16), HOLE_OP) == HOLED
  {
    HoledInv();
    var t, b := HoleGranted();
    assert t.alloc == [b];
    StateDetermined(t, HOLED);
  }

  lemma HoleBehaves()
    ensures HostBehaves(Fresh(16), HOLE_OP) && HostBehaves(HOLED, LOOSE_OP)
  {
  }

  lemma HoleSafe()
    ensures !Aborts(Fresh(16), HOLE_OP) && Inv(Fresh(16))
  {
    FreshInv(16);
    HoleFlags();
    CheckedFits(Fresh(16), HOLE_OP.args);
    StepSafeIff(Fresh(16), HOLE_OP);
  }

  lemma {:induction false} RunTwo(s: State, op: Op, op2: Op)
    ensures Run(s, [op]) == Next(s, op) && Run(s, [op, op2]) == Next(Next(s, op), op2)
  {
    assert [op][1..] == [] && [op, op2][1..] == [op2];
    assert Run(Next(s, op), [op2]) == Run(Next(Next(s, op), op2), []) by {
      assert [op2][1..] == [];
    }
  }

  lemma {:induction false} BehaveTwo(s: State, op: Op, op2: Op)
    requires HostBehaves(s, op) && HostBehaves(Next(s, op), op2)
    ensures HostBehavesThroughout(s, [op, op2])
  {
    assert [op, op2][1..] == [op2];
    assert HostBehavesThroughout(Next(s, op), [op2]) by {
      assert [op2][1..] == [];
    }
  }

  lemma {:induction false} SafeOne(s: State, op: Op)
    requires Inv(s) && !Aborts(s, op) && Inv(Next(s, op))
    ensures Safe(s, [op])
  {
    assert [op][1..] == [];
  }

  /** Two requests on a new manager, with a host that behaves: after the first there is room for the second, which has a
      loose hint and breaks the invariant. */
  lemma LooseHintRun()
    ensures HostBehavesThroughout(Fresh(16), [HOLE_OP, LOOSE_OP])
    ensures Safe(Fresh(16), [HOLE_OP]) && CanStart(Run(Fresh(16), [HOLE_OP]), 5, 8, 0)
    ensures !Inv(Run(Fresh(16), [HOLE_OP, LOOSE_OP]))
  {
    HoleMade();
    HoleBehaves();
    HoleSafe();
    HoledInv();
    LooseHintOverruns(200);
    RunTwo(Fresh(16), HOLE_OP, LOOSE_OP);
    BehaveTwo(Fresh(16), HOLE_OP, LOOSE_OP);
    SafeOne(Fresh(16), HOLE_OP);
  }
}
