/** Giving back what was claimed: a state extended by new blocks, and the frees that undo the extension. */
module Restore {
  import opened Types
  import opened OrderedSet
  import opened Blocks
  import opened Allocator
  import opened AllocatorInvariant
  import opened Allocation
  import opened Freeing

  ghost predicate AllDifferent(vbases: seq<u64>) {
    forall i, j :: 0 <= i < j < |vbases| ==> vbases[i] != vbases[j]
  }

  ghost predicate AllLive(mem: State, vbases: seq<u64>) {
    forall i :: 0 <= i < |vbases| ==> LiveBase(mem.alloc, vbases[i])
  }

  lemma {:induction false} LiveWithout(alloc: seq<AllocatedBlock>, bases: set<u64>, v: u64)
    ensures LiveBase(Without(alloc, bases), v) <==> LiveBase(alloc, v) && v !in bases
  {
    if alloc == [] {
    } else {
      LiveWithout(alloc[1..], bases, v);
      LiveConcat(if alloc[0].virtualBase in bases then [] else [alloc[0]], Without(alloc[1..], bases), v);
      LiveConcat([alloc[0]], alloc[1..], v);
      assert alloc == [alloc[0]] + alloc[1..];
      LiveSingle(alloc[0], v);
    }
  }

  lemma LiveSingle(b: AllocatedBlock, v: u64)
    ensures LiveBase([b], v) <==> b.virtualBase == v
  {
    assert [b][0] == b;
  }

  lemma LiveConcat(a: seq<AllocatedBlock>, b: seq<AllocatedBlock>, v: u64)
    ensures LiveBase(a + b, v) <==> LiveBase(a, v) || LiveBase(b, v)
  {
    if i :| 0 <= i < |a| && a[i].virtualBase == v {
      assert (a + b)[i] == a[i];
    }
    if i :| 0 <= i < |b| && b[i].virtualBase == v {
      assert (a + b)[|a| + i] == b[i];
    }
  }

  /** t is s with further blocks, whose bases are listed, each once. */
  ghost predicate Extends(s: State, t: State, bases: seq<u64>) {
    && Inv(s) && Inv(t) && t.max == s.max && Without(t.alloc, Elements(bases)) == s.alloc
    && AllDifferent(bases) && AllLive(t, bases)
  }

  lemma ExtendsNothing(s: State)
    requires Inv(s)
    ensures Extends(s, s, [])
  {
    WithoutAbsent(s.alloc, Elements([]));
  }

  lemma ElementsConcat(a: seq<u64>, b: seq<u64>)
    ensures Elements(a + b) == Elements(a) + Elements(b)
  {
  }

  lemma ExtendsTransitive(s: State, t: State, u: State, a: seq<u64>, b: seq<u64>)
    requires Extends(s, t, a) && Extends(t, u, b)
    ensures Extends(s, u, a + b)
  {
    WithoutUnion(u.alloc, Elements(b), Elements(a));
    ElementsConcat(a, b);
    assert Elements(b) + Elements(a) == Elements(a + b);
    LiveTogether(t, u, a, b);
  }

  lemma LiveTogether(t: State, u: State, a: seq<u64>, b: seq<u64>)
    requires Without(u.alloc, Elements(b)) == t.alloc && AllLive(t, a) && AllLive(u, b)
    requires AllDifferent(a) && AllDifferent(b)
    ensures AllDifferent(a + b) && AllLive(u, a + b)
  {
    forall i | 0 <= i < |a|
      ensures LiveBase(u.alloc, a[i]) && a[i] !in b
    {
      LiveWithout(u.alloc, Elements(b), a[i]);
    }
  }

  lemma RemoveInserted(alloc: seq<AllocatedBlock>, i: nat, b: AllocatedBlock, max: u64)
    requires i <= |alloc| && Layout(InsertAt(alloc, i, b), 0, max)
    ensures Without(InsertAt(alloc, i, b), {b.virtualBase}) == alloc
  {
    RemoveIsWithout(InsertAt(alloc, i, b), i);
    assert RemoveAt(InsertAt(alloc, i, b), i) == alloc;
  }

  lemma InsertedExtends(s: State, t: State, i: nat, b: AllocatedBlock)
    requires Inv(s) && Inv(t) && t.max == s.max && i <= |s.alloc| && t.alloc == InsertAt(s.alloc, i, b)
    ensures Extends(s, t, [b.virtualBase])
  {
    RemoveInserted(s.alloc, i, b, t.max);
    assert Elements([b.virtualBase]) == {b.virtualBase};
    assert t.alloc[i].virtualBase == b.virtualBase;
  }

  /** A fitting allocation extends the state by its block. */
  lemma AllocateExtends(s: State, args: AllocArgs, host: Option<u64>)
    requires Inv(s) && Fits(s, args) && Allocate(s, args, host).1.Ok?
    ensures var (t, r) := Allocate(s, args, host); Extends(s, t, [r.value.virtualBase])
  {
    AllocateEffect(s, args, host);
    var (t, r) := Allocate(s, args, host);
    InsertedExtends(s, t, LowerBound(s.alloc, AllocatedLess, r.value), r.value);
  }

  lemma {:induction false} WithoutReflagged(alloc: seq<AllocatedBlock>, other: seq<AllocatedBlock>, bases: set<u64>)
    requires |alloc| == |other|
    requires forall k :: 0 <= k < |alloc| ==>
               other[k] == alloc[k] || (other[k].virtualBase == alloc[k].virtualBase && alloc[k].virtualBase in bases)
    ensures Without(other, bases) == Without(alloc, bases)
  {
    if alloc == [] {
    } else {
      WithoutReflagged(alloc[1..], other[1..], bases);
    }
  }

  lemma DifferentPermuted(a: seq<u64>, b: seq<u64>)
    requires AllDifferent(a) && multiset(a) == multiset(b)
    ensures AllDifferent(b) && Elements(a) == Elements(b)
  {
    forall i, j | 0 <= i < j < |b|
      ensures b[i] != b[j]
    {
      DistinctCount(a, b[i]);
      if b[i] == b[j] {
        TwiceCounted(b, i, j);
      }
    }
    forall v
      ensures v in a <==> v in b
    {
      assert v in multiset(a) <==> v in multiset(b);
    }
  }

  /** Freeing the listed blocks, in any order, undoes the extension. */
  lemma {:induction false} FreeingRestores(s: State, t: State, bases: seq<u64>, order: seq<u64>)
    requires Extends(s, t, bases) && Elements(order) == Elements(bases)
    ensures FreeAll(t, order) == s
  {
    FreeAllExact(t, order);
    StateDetermined(FreeAll(t, order), s);
  }
}
