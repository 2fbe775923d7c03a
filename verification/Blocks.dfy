/** Free and allocated blocks, and the two orders the memory manager keeps them in. */
module Blocks {
  import opened Types
  import opened OrderedSet

  datatype FreeBlock = FreeBlock(virtualBase: u64, size: u64) {
    function End(): nat { virtualBase + size }
  }

  datatype AllocatedBlock = AllocatedBlock(hostBase: u64, virtualBase: u64, size: u64, flags: u64) {
    function End(): nat { virtualBase + size }
  }

  predicate FreeLess(a: FreeBlock, b: FreeBlock) {
    if a.size == b.size then a.virtualBase < b.virtualBase else a.size < b.size
  }

  /** A block of size 0 stands for a virtual address that is looked up. */
  predicate AllocatedLess(a: AllocatedBlock, b: AllocatedBlock) {
    if a.size == 0 then a.virtualBase < b.virtualBase
    else if b.size == 0 then Add(a.virtualBase, a.size) <= b.virtualBase
    else a.virtualBase < b.virtualBase
  }

  function Probe(vaddr: u64): AllocatedBlock {
    AllocatedBlock(0, vaddr, 0, 0)
  }

  function SumFree(s: seq<FreeBlock>): nat {
    if s == [] then 0 else s[0].size + SumFree(s[1..])
  }

  function SumAllocated(s: seq<AllocatedBlock>): nat {
    if s == [] then 0 else s[0].size + SumAllocated(s[1..])
  }

  /** Blocks that are nonempty, ascending, disjoint, and inside [lo, hi). */
  ghost predicate Layout(s: seq<AllocatedBlock>, lo: nat, hi: nat) {
    && (forall i :: 0 <= i < |s| ==> s[i].size > 0 && lo <= s[i].virtualBase && s[i].End() <= hi)
    && (forall i, j :: 0 <= i < j < |s| ==> s[i].End() <= s[j].virtualBase)
  }

  /** Inserting into the free index keeps it sorted and adds exactly the new block. */
  lemma InsertFree(s: seq<FreeBlock>, b: FreeBlock)
    requires Sorted(s, FreeLess)
    ensures Sorted(Insert(s, FreeLess, b), FreeLess)
    ensures forall g :: g in Insert(s, FreeLess, b) <==> g in s || g == b
  {
    var i := LowerBound(s, FreeLess, b);
    if i < |s| && !FreeLess(b, s[i]) {
      assert s[i] == b;
    } else {
      forall k | i <= k < |s|
        ensures FreeLess(b, s[k])
      {
        assert k == i || FreeLess(s[i], s[k]);
      }
      InsertAtSorted(s, FreeLess, i, b);
      InsertAtElements(s, i, b);
    }
  }

  lemma RemoveFree(s: seq<FreeBlock>, i: nat)
    requires Sorted(s, FreeLess) && i < |s|
    ensures Sorted(RemoveAt(s, i), FreeLess)
    ensures forall g :: g in RemoveAt(s, i) <==> g in s && g != s[i]
  {
    RemoveAtSorted(s, FreeLess, i);
    var t := RemoveAt(s, i);
    forall g | g in s && g != s[i]
      ensures g in t
    {
      var k :| 0 <= k < |s| && s[k] == g;
      assert if k < i then t[k] == g else t[k - 1] == g;
    }
  }

  /** An exact search finds a free block exactly when it is there. */
  lemma FindFree(s: seq<FreeBlock>, b: FreeBlock)
    requires Sorted(s, FreeLess)
    ensures Find(s, FreeLess, b).Some? <==> b in s
    ensures b in s ==> s[Find(s, FreeLess, b).value] == b
  {
    if k :| 0 <= k < |s| && s[k] == b {
      var i := LowerBound(s, FreeLess, b);
      assert i <= k;
    }
  }

  lemma NonemptyHasElement(t: seq<FreeBlock>)
    ensures t == [] || exists g :: g in t
  {
    assert t == [] || t[0] in t;
  }

  /** A sorted index is determined by its elements. */
  lemma {:induction false} SortedUnique(s: seq<FreeBlock>, t: seq<FreeBlock>)
    requires Sorted(s, FreeLess) && Sorted(t, FreeLess)
    requires forall g :: g in s <==> g in t
    ensures s == t
  {
    if s == [] {
      NonemptyHasElement(t);
    } else {
      assert s[0] in t && t[0] in s;
      assert s[0] == t[0] && s == [s[0]] + s[1..] && t == [t[0]] + t[1..];
      forall g
        ensures g in s[1..] <==> g in t[1..]
      {
        assert s[0] !in s[1..] && t[0] !in t[1..];
        assert g in s <==> g in t;
      }
      SortedUnique(s[1..], t[1..]);
    }
  }

  lemma {:induction false} SumFreeSplit(s: seq<FreeBlock>, t: seq<FreeBlock>)
    ensures SumFree(s + t) == SumFree(s) + SumFree(t)
  {
    if s == [] {
      assert s + t == t;
    } else {
      assert (s + t)[1..] == s[1..] + t;
      SumFreeSplit(s[1..], t);
    }
  }

  lemma {:induction false} SumAllocatedSplit(s: seq<AllocatedBlock>, t: seq<AllocatedBlock>)
    ensures SumAllocated(s + t) == SumAllocated(s) + SumAllocated(t)
  {
    if s == [] {
      assert s + t == t;
    } else {
      assert (s + t)[1..] == s[1..] + t;
      SumAllocatedSplit(s[1..], t);
    }
  }

  lemma {:induction false} SumFreeRemove(s: seq<FreeBlock>, i: nat)
    requires i < |s|
    ensures SumFree(s) == s[i].size + SumFree(RemoveAt(s, i))
    ensures multiset(RemoveAt(s, i)) == multiset(s) - multiset{s[i]}
  {
    var a, b := s[..i], s[i + 1..];
    assert s == a + ([s[i]] + b) by {
      assert s == s[..i] + s[i..] && s[i..] == [s[i]] + b;
    }
    assert RemoveAt(s, i) == a + b;
    SumFreeSplit(a, b);
    SumFreeSplit(a, [s[i]] + b);
    assert ([s[i]] + b)[1..] == b;
  }

  /** The sum does not depend on the order. */
  lemma {:induction false} SumFreePermuted(s: seq<FreeBlock>, t: seq<FreeBlock>)
    requires multiset(s) == multiset(t)
    ensures SumFree(s) == SumFree(t)
  {
    if s == [] {
      assert |multiset(t)| == 0;
    } else {
      assert s[0] in multiset(t);
      var i :| 0 <= i < |t| && t[i] == s[0];
      SumFreeRemove(s, 0);
      SumFreeRemove(t, i);
      SumFreePermuted(RemoveAt(s, 0), RemoveAt(t, i));
    }
  }

  lemma {:induction false} SumAllocatedInsert(s: seq<AllocatedBlock>, i: nat, b: AllocatedBlock)
    requires i <= |s|
    ensures SumAllocated(InsertAt(s, i, b)) == SumAllocated(s) + b.size
  {
    assert s == s[..i] + s[i..] && InsertAt(s, i, b) == s[..i] + ([b] + s[i..]);
    SumAllocatedSplit(s[..i], s[i..]);
    SumAllocatedSplit(s[..i], [b] + s[i..]);
  }
}
