/** Looking an address up in the allocated set with the comparator that mixes blocks and addresses. */
module Lookup {
  import opened Types
  import opened OrderedSet
  import opened Blocks
  import opened Gaps
  import opened Allocator

  predicate Contains(b: AllocatedBlock, vaddr: u64) {
    b.virtualBase <= vaddr < b.End()
  }

  /** The reference search: the first block, in order, that contains the address. */
  function LinearScan(alloc: seq<AllocatedBlock>, vaddr: u64): Option<nat> {
    if alloc == [] then None
    else if Contains(alloc[0], vaddr) then Some(0)
    else
      match LinearScan(alloc[1..], vaddr)
      case Some(i) => Some(i + 1)
      case None => None
  }

  /** A search tree over the indices [lo, hi) probes some index, then goes on to one side. */
  function Descend(alloc: seq<AllocatedBlock>, key: AllocatedBlock, lo: nat, hi: nat, root: (nat, nat) -> nat): nat
    requires lo <= hi <= |alloc|
    requires forall l, h :: 0 <= l < h ==> l <= root(l, h) < h
    decreases hi - lo
  {
    if lo == hi then lo
    else if AllocatedLess(alloc[root(lo, hi)], key) then Descend(alloc, key, root(lo, hi) + 1, hi, root)
    else Descend(alloc, key, lo, root(lo, hi), root)
  }

  lemma AddressOrder(alloc: seq<AllocatedBlock>, max: u64, i: nat, k: nat)
    requires Layout(alloc, 0, max) && i <= k < |alloc|
    ensures i == k || alloc[i].End() <= alloc[k].virtualBase
  {
  }

  /** Along the address order the comparator is true up to the lower bound and false from there on. */
  lemma {:induction false} ProbeMonotone(alloc: seq<AllocatedBlock>, max: u64, vaddr: u64, m: nat)
    requires Layout(alloc, 0, max) && m < |alloc|
    ensures AllocatedLess(alloc[m], Probe(vaddr)) <==> m < LowerBound(alloc, AllocatedLess, Probe(vaddr))
    ensures AllocatedLess(Probe(vaddr), alloc[m]) ==> !AllocatedLess(alloc[m], Probe(vaddr))
  {
    var i := LowerBound(alloc, AllocatedLess, Probe(vaddr));
    if i <= m {
      AddressOrder(alloc, max, i, m);
    }
  }

  /** Whatever the shape of the tree, the descent ends at the lower bound. */
  lemma {:induction false} DescentFindsLowerBound(
    alloc: seq<AllocatedBlock>, max: u64, vaddr: u64, lo: nat, hi: nat, root: (nat, nat) -> nat)
    requires Layout(alloc, 0, max)
    requires forall l, h :: 0 <= l < h ==> l <= root(l, h) < h
    requires lo <= LowerBound(alloc, AllocatedLess, Probe(vaddr)) <= hi <= |alloc|
    ensures Descend(alloc, Probe(vaddr), lo, hi, root) == LowerBound(alloc, AllocatedLess, Probe(vaddr))
    decreases hi - lo
  {
    if lo == hi {
    } else {
      var m := root(lo, hi);
      ProbeMonotone(alloc, max, vaddr, m);
      if AllocatedLess(alloc[m], Probe(vaddr)) {
        DescentFindsLowerBound(alloc, max, vaddr, m + 1, hi, root);
      } else {
        DescentFindsLowerBound(alloc, max, vaddr, lo, m, root);
      }
    }
  }

  /** At most one block of a layout contains an address. */
  lemma ContainerUnique(alloc: seq<AllocatedBlock>, max: u64, vaddr: u64, i: nat, j: nat)
    requires Layout(alloc, 0, max) && i < |alloc| && j < |alloc|
    requires Contains(alloc[i], vaddr) && Contains(alloc[j], vaddr)
    ensures i == j
  {
  }

  /** The search finds a block exactly when some block contains the address; and it finds that block. */
  lemma LookupExact(alloc: seq<AllocatedBlock>, max: u64, vaddr: u64)
    requires Layout(alloc, 0, max)
    ensures var r := Find(alloc, AllocatedLess, Probe(vaddr));
            && (r.Some? <==> vaddr in Occupied(alloc))
            && (r.Some? ==> Contains(alloc[r.value], vaddr))
  {
    var r := Find(alloc, AllocatedLess, Probe(vaddr));
    if r.Some? {
      assert Contains(alloc[r.value], vaddr) && Covers(alloc, vaddr);
    }
    if k :| 0 <= k < |alloc| && alloc[k].virtualBase <= vaddr < alloc[k].End() {
      var i := LowerBound(alloc, AllocatedLess, Probe(vaddr));
      ProbeMonotone(alloc, max, vaddr, k);
      assert i <= k;
      AddressOrder(alloc, max, i, k);
    }
  }

  /** blockFromVAddr gives the live block that contains the address, flags and all, and otherwise NotFound. */
  lemma BlockFromVAddrExact(s: State, vaddr: u64, r: Outcome<AllocatedBlock>)
    requires Inv(s) && r == BlockFromVAddr(s, vaddr)
    ensures r.Ok? ==> r.value in s.alloc && Contains(r.value, vaddr)
    ensures forall b :: b in s.alloc && Contains(b, vaddr) ==> r == Ok(b)
    ensures !r.Ok? ==> r == Err(NotFound)
  {
    LookupExact(s.alloc, s.max, vaddr);
    forall b | b in s.alloc && Contains(b, vaddr)
      ensures r == Ok(b)
    {
      var k :| 0 <= k < |s.alloc| && s.alloc[k] == b;
      assert Covers(s.alloc, vaddr);
      ContainerUnique(s.alloc, s.max, vaddr, k, Find(s.alloc, AllocatedLess, Probe(vaddr)).value);
    }
  }

  lemma {:induction false} LinearScanExact(alloc: seq<AllocatedBlock>, vaddr: u64)
    ensures var r := LinearScan(alloc, vaddr);
            && (r.Some? <==> vaddr in Occupied(alloc))
            && (r.Some? ==> r.value < |alloc| && Contains(alloc[r.value], vaddr))
  {
    if alloc == [] {
    } else {
      LinearScanExact(alloc[1..], vaddr);
      assert InsertAt(alloc[1..], 0, alloc[0]) == alloc;
      InsertAtCovers(alloc[1..], 0, alloc[0]);
    }
  }

  /** The ordered search and the linear scan agree. */
  lemma {:induction false} LookupIsLinearScan(alloc: seq<AllocatedBlock>, max: u64, vaddr: u64)
    requires Layout(alloc, 0, max)
    ensures Find(alloc, AllocatedLess, Probe(vaddr)) == LinearScan(alloc, vaddr)
  {
    LookupExact(alloc, max, vaddr);
    LinearScanExact(alloc, vaddr);
    var r := LinearScan(alloc, vaddr);
    if r.Some? {
      ContainerUnique(alloc, max, vaddr, Find(alloc, AllocatedLess, Probe(vaddr)).value, r.value);
    }
  }

  /** A block's own base finds that block. */
  lemma LookupBase(alloc: seq<AllocatedBlock>, max: u64, i: nat)
    requires Layout(alloc, 0, max) && i < |alloc|
    ensures Find(alloc, AllocatedLess, Probe(alloc[i].virtualBase)) == Some(i)
  {
    LookupExact(alloc, max, alloc[i].virtualBase);
    assert Covers(alloc, alloc[i].virtualBase);
    ContainerUnique(alloc, max, alloc[i].virtualBase,
                    i, Find(alloc, AllocatedLess, Probe(alloc[i].virtualBase)).value);
  }

  lemma ReplacedLayout(alloc: seq<AllocatedBlock>, max: nat, i: nat, b: AllocatedBlock)
    requires Layout(alloc, 0, max) && i < |alloc| && b.virtualBase == alloc[i].virtualBase && b.size == alloc[i].size
    ensures Layout(alloc[i := b], 0, max)
  {
  }

  /** Flags play no part in the layout. */
  lemma FlagsKeepLayout(alloc: seq<AllocatedBlock>, max: nat, i: nat, flags: u64)
    requires Layout(alloc, 0, max) && i < |alloc|
    ensures var t := alloc[i := alloc[i].(flags := flags)];
            && Layout(t, 0, max)
            && Occupied(t) == Occupied(alloc) && SumAllocated(t) == SumAllocated(alloc)
  {
    var b := alloc[i].(flags := flags);
    ReplacedLayout(alloc, max, i, b);
    var rest := RemoveAt(alloc, i);
    assert InsertAt(rest, i, alloc[i]) == alloc && InsertAt(rest, i, b) == alloc[i := b];
    SumAllocatedInsert(rest, i, alloc[i]);
    SumAllocatedInsert(rest, i, b);
    InsertAtCovers(rest, i, alloc[i]);
    InsertAtCovers(rest, i, b);
  }

  /** setFlags succeeds exactly on the base of a live block, returns the old flags and changes those flags alone. */
  lemma SetFlagsExact(s: State, vbase: u64, flags: u64)
    requires Inv(s)
    ensures var (s', r) := SetFlags(s, vbase, flags);
            && Inv(s') && s'.free == s.free && s'.used == s.used && s'.max == s.max
            && |s'.alloc| == |s.alloc|
            && (forall k :: 0 <= k < |s.alloc| ==>
                  s'.alloc[k] == if s.alloc[k].virtualBase == vbase then s.alloc[k].(flags := flags) else s.alloc[k])
            && (forall k :: 0 <= k < |s.alloc| && s.alloc[k].virtualBase == vbase ==> r == Ok(s.alloc[k].flags))
            && (!r.Ok? ==> s' == s && r == Err(if vbase in Occupied(s.alloc) then InvalidAddress else NotFound))
  {
    LookupExact(s.alloc, s.max, vbase);
    var it := Find(s.alloc, AllocatedLess, Probe(vbase));
    forall k | 0 <= k < |s.alloc| && s.alloc[k].virtualBase == vbase
      ensures it == Some(k)
    {
      LookupBase(s.alloc, s.max, k);
    }
    if it.Some? {
      FlagsKeepLayout(s.alloc, s.max, it.value, flags);
    }
  }
}
