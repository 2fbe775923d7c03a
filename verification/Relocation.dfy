/** The relocation pass of the loader, over the address translation and the bridge's symbols. */
module Relocation {
  import opened Types
  import opened OrderedSet
  import opened Blocks
  import opened Gaps
  import opened Allocator
  import opened Lookup
  import opened Translation
  import opened BridgeTable
  import opened Elf
  import opened Words

  /** The patch that a relocation stands for. A relative one with addend 0 adds to the word in place. */
  function PatchOf(mem: State, t: Table, base: u64, r: RelocInfo): Outcome<Patch> {
    match Translate(mem, Add(base, r.patchOffset))
    case Err(e) => Err(e)
    case Abort => Abort
    case Ok(addr) =>
      if r.kind.Relative? then Ok(if r.addend != 0 then Store(addr, base + r.addend) else AddTo(addr, base))
      else if r.symbol.None? then Abort
      else
        match AddressForSymbol(t, r.symbol.value)
        case Ok(vaddr) => Ok(Store(addr, vaddr))
        case Err(e) => Err(e)
        case Abort => Abort
  }

  /** The pass stops at the first relocation that fails; those before it stay applied. A write past host memory
      faults. */
  function Relocate(mem: State, t: Table, ram: seq<u8>, base: u64, relocs: seq<RelocInfo>): (seq<u8>, Outcome<()>)
    decreases |relocs|
  {
    if relocs == [] then (ram, Ok(()))
    else
      match PatchOf(mem, t, base, relocs[0])
      case Err(e) => (ram, Err(e))
      case Abort => (ram, Abort)
      case Ok(p) =>
        if p.addr + 4 > |ram| then (ram, Abort)
        else Relocate(mem, t, ApplyPatch(ram, p), base, relocs[1..])
  }

  /** The relocation has a patch, and its word lies in host memory. */
  predicate Patchable(mem: State, t: Table, n: nat, base: u64, r: RelocInfo) {
    PatchOf(mem, t, base, r).Ok? && PatchOf(mem, t, base, r).value.addr + 4 <= n
  }

  ghost predicate Relocatable(mem: State, t: Table, n: nat, base: u64, relocs: seq<RelocInfo>) {
    forall k :: 0 <= k < |relocs| ==> Patchable(mem, t, n, base, relocs[k])
  }

  function Patches(mem: State, t: Table, n: nat, base: u64, relocs: seq<RelocInfo>): (ps: seq<Patch>)
    requires Relocatable(mem, t, n, base, relocs)
    ensures |ps| == |relocs| && InBounds(ps, n)
    ensures forall k :: 0 <= k < |relocs| ==> ps[k] == PatchOf(mem, t, base, relocs[k]).value
  {
    seq(|relocs|, k requires 0 <= k < |relocs| && Patchable(mem, t, n, base, relocs[k]) =>
      PatchOf(mem, t, base, relocs[k]).value)
  }

  lemma RelocatableCons(mem: State, t: Table, n: nat, base: u64, relocs: seq<RelocInfo>)
    requires relocs != []
    ensures Relocatable(mem, t, n, base, relocs)
            <==> Patchable(mem, t, n, base, relocs[0]) && Relocatable(mem, t, n, base, relocs[1..])
  {
    if Patchable(mem, t, n, base, relocs[0]) && Relocatable(mem, t, n, base, relocs[1..]) {
      forall k | 0 <= k < |relocs|
        ensures Patchable(mem, t, n, base, relocs[k])
      {
        assert k == 0 || relocs[k] == relocs[1..][k - 1];
      }
    }
  }

  lemma PatchesCons(mem: State, t: Table, n: nat, base: u64, relocs: seq<RelocInfo>, rest: seq<RelocInfo>)
    requires relocs != [] && rest == relocs[1..]
    requires Relocatable(mem, t, n, base, relocs) && Relocatable(mem, t, n, base, rest)
    ensures Patches(mem, t, n, base, relocs)
            == [PatchOf(mem, t, base, relocs[0]).value] + Patches(mem, t, n, base, rest)
  {
    var l, r := Patches(mem, t, n, base, relocs), Patches(mem, t, n, base, rest);
    forall k | 0 <= k < |rest|
      ensures l[k + 1] == r[k]
    {
      assert relocs[k + 1] == rest[k];
    }
    ConsEqual(l, PatchOf(mem, t, base, relocs[0]).value, r);
  }

  /** The pass applies all patches, or does not succeed. */
  ghost predicate Relocates(mem: State, t: Table, ram: seq<u8>, base: u64, relocs: seq<RelocInfo>) {
    if Relocatable(mem, t, |ram|, base, relocs)
    then Relocate(mem, t, ram, base, relocs) == (ApplyAll(ram, Patches(mem, t, |ram|, base, relocs)), Ok(()))
    else !Relocate(mem, t, ram, base, relocs).1.Ok?
  }

  lemma {:induction false} RelocateFirst(mem: State, t: Table, ram: seq<u8>, base: u64, relocs: seq<RelocInfo>,
                                         rest: seq<RelocInfo>, p: Patch)
    requires relocs != [] && rest == relocs[1..] && Patchable(mem, t, |ram|, base, relocs[0])
    requires p == PatchOf(mem, t, base, relocs[0]).value && Relocates(mem, t, ApplyPatch(ram, p), base, rest)
    ensures Relocates(mem, t, ram, base, relocs)
  {
    RelocatableCons(mem, t, |ram|, base, relocs);
    assert Relocate(mem, t, ram, base, relocs) == Relocate(mem, t, ApplyPatch(ram, p), base, rest);
    if Relocatable(mem, t, |ram|, base, relocs) {
      PatchesCons(mem, t, |ram|, base, relocs, rest);
      ApplyFirst(ram, Patches(mem, t, |ram|, base, relocs), p, Patches(mem, t, |ram|, base, rest));
    }
  }

  lemma {:induction false} FirstUnpatchable(mem: State, t: Table, ram: seq<u8>, base: u64, relocs: seq<RelocInfo>)
    requires relocs != [] && !Patchable(mem, t, |ram|, base, relocs[0])
    ensures Relocates(mem, t, ram, base, relocs)
  {
  }

  /** The pass succeeds exactly when every relocation has a patch, and then it applies them all. */
  lemma {:induction false} RelocateExact(mem: State, t: Table, ram: seq<u8>, base: u64, relocs: seq<RelocInfo>)
    ensures Relocates(mem, t, ram, base, relocs)
    decreases |relocs|
  {
    if relocs == [] {
    } else if Patchable(mem, t, |ram|, base, relocs[0]) {
      var p := PatchOf(mem, t, base, relocs[0]).value;
      RelocateExact(mem, t, ApplyPatch(ram, p), base, relocs[1..]);
      RelocateFirst(mem, t, ram, base, relocs, relocs[1..], p);
    } else {
      FirstUnpatchable(mem, t, ram, base, relocs);
    }
  }

  function PatchAddress(base: u64, r: RelocInfo): u64 {
    Add(base, r.patchOffset)
  }

  /** What it takes: an allocated address whose word lies in host memory and, if there is a symbol, a known one. */
  predicate Applicable(mem: State, t: Table, n: nat, base: u64, r: RelocInfo) {
    var addr := Translate(mem, PatchAddress(base, r));
    && addr.Ok? && addr.value + 4 <= n
    && (r.kind.Symbol? ==> r.symbol.Some? && AddressForSymbol(t, r.symbol.value).Ok?)
  }

  lemma PatchableIff(mem: State, t: Table, n: nat, base: u64, r: RelocInfo)
    ensures Patchable(mem, t, n, base, r) <==> Applicable(mem, t, n, base, r)
  {
  }

  /** Why a relocation cannot be applied. An address that is not allocated comes first, an unknown symbol next; an entry
      without a symbol fails an assertion, and a word past the end of host memory faults. */
  ghost function Failure(mem: State, t: Table, base: u64, r: RelocInfo): Outcome<()> {
    if PatchAddress(base, r) !in Occupied(mem.alloc) then Err(NotFound)
    else if r.kind.Relative? || r.symbol.None? then Abort
    else
      match AddressForSymbol(t, r.symbol.value)
      case Err(e) => Err(e)
      case _ => Abort
  }

  lemma {:induction false} UnpatchableFails(mem: State, t: Table, ram: seq<u8>, base: u64, relocs: seq<RelocInfo>)
    requires Inv(mem) && relocs != [] && !Patchable(mem, t, |ram|, base, relocs[0])
    ensures Relocate(mem, t, ram, base, relocs) == (ram, Failure(mem, t, base, relocs[0]))
  {
    TranslateExact(mem, PatchAddress(base, relocs[0]));
  }

  /** The first k relocations are applicable and the next is not. */
  ghost predicate FailsAt(mem: State, t: Table, n: nat, base: u64, relocs: seq<RelocInfo>, k: nat) {
    && k < |relocs| && (forall j :: 0 <= j < k ==> Applicable(mem, t, n, base, relocs[j]))
    && !Applicable(mem, t, n, base, relocs[k])
  }

  lemma {:induction false} RelocateOnce(mem: State, t: Table, ram: seq<u8>, base: u64, relocs: seq<RelocInfo>)
    requires relocs != [] && Patchable(mem, t, |ram|, base, relocs[0])
    ensures Relocate(mem, t, ram, base, relocs)
            == Relocate(mem, t, ApplyPatch(ram, PatchOf(mem, t, base, relocs[0]).value), base, relocs[1..])
  {
  }

  lemma FailsAtRest(mem: State, t: Table, n: nat, base: u64, relocs: seq<RelocInfo>, k: nat)
    requires 0 < k && FailsAt(mem, t, n, base, relocs, k)
    ensures FailsAt(mem, t, n, base, relocs[1..], k - 1)
  {
  }

  /** The pass has applied the first k relocations and failed for the reason of the next. */
  ghost predicate FailedAt(mem: State, t: Table, ram: seq<u8>, base: u64, relocs: seq<RelocInfo>, k: nat) {
    && k < |relocs|
    && Relocate(mem, t, ram, base, relocs)
       == (Relocate(mem, t, ram, base, relocs[..k]).0, Failure(mem, t, base, relocs[k]))
  }

  lemma {:induction false} FailsLater(mem: State, t: Table, ram: seq<u8>, base: u64, relocs: seq<RelocInfo>, k: nat,
                                      next: seq<u8>)
    requires 0 < k < |relocs| && Patchable(mem, t, |ram|, base, relocs[0])
    requires next == ApplyPatch(ram, PatchOf(mem, t, base, relocs[0]).value)
    requires FailedAt(mem, t, next, base, relocs[1..], k - 1)
    ensures FailedAt(mem, t, ram, base, relocs, k)
  {
    RelocateOnce(mem, t, ram, base, relocs);
    RelocateOnce(mem, t, ram, base, relocs[..k]);
    assert relocs[..k][1..] == relocs[1..][..k - 1];
  }

  /** A pass that fails has applied the relocations before the first that is not applicable, and fails for the reason of
      that one. */
  lemma {:induction false} RelocateFails(
    mem: State, t: Table, ram: seq<u8>, base: u64, relocs: seq<RelocInfo>, k: nat)
    requires Inv(mem) && FailsAt(mem, t, |ram|, base, relocs, k)
    ensures FailedAt(mem, t, ram, base, relocs, k)
    decreases k
  {
    PatchableIff(mem, t, |ram|, base, relocs[0]);
    if k == 0 {
      UnpatchableFails(mem, t, ram, base, relocs);
    } else {
      var next := ApplyPatch(ram, PatchOf(mem, t, base, relocs[0]).value);
      FailsAtRest(mem, t, |ram|, base, relocs, k);
      RelocateFails(mem, t, next, base, relocs[1..], k - 1);
      FailsLater(mem, t, ram, base, relocs, k, next);
    }
  }

  /** So some relocation decides whenever not all are applicable. */
  lemma FirstFailure(mem: State, t: Table, n: nat, base: u64, relocs: seq<RelocInfo>, m: nat) returns (k: nat)
    requires m < |relocs| && !Applicable(mem, t, n, base, relocs[m])
    ensures FailsAt(mem, t, n, base, relocs, k) && k <= m
  {
    k := 0;
    while Applicable(mem, t, n, base, relocs[k])
      invariant k <= m && forall j :: 0 <= j < k ==> Applicable(mem, t, n, base, relocs[j])
      decreases m - k
    {
      k := k + 1;
    }
  }

  // ---------- in guest terms ----------

  ghost predicate HostInside(alloc: seq<AllocatedBlock>, n: nat) {
    forall k :: 0 <= k < |alloc| ==> alloc[k].hostBase + alloc[k].size <= n
  }

  /** The four bytes from v lie in one block. */
  ghost predicate WordInside(mem: State, v: u64) {
    exists k :: 0 <= k < |mem.alloc| && Contains(mem.alloc[k], v) && v + 4 <= mem.alloc[k].End()
  }

  ghost predicate SymbolsKnown(t: Table, relocs: seq<RelocInfo>) {
    forall k :: 0 <= k < |relocs| && relocs[k].kind.Symbol? ==>
      relocs[k].symbol.Some? && AddressForSymbol(t, relocs[k].symbol.value).Ok?
  }

  ghost predicate WordsDisjoint(base: u64, relocs: seq<RelocInfo>) {
    forall i, j :: 0 <= i < j < |relocs| ==>
      || PatchAddress(base, relocs[i]) + 4 <= PatchAddress(base, relocs[j])
      || PatchAddress(base, relocs[j]) + 4 <= PatchAddress(base, relocs[i])
  }

  /** What the pass needs of the memory and of the list: words inside blocks, and known symbols. */
  ghost predicate Ready(mem: State, t: Table, n: nat, base: u64, relocs: seq<RelocInfo>) {
    && Inv(mem) && HostDisjoint(mem.alloc) && HostInside(mem.alloc, n) && n < U64
    && SymbolsKnown(t, relocs)
    && forall k :: 0 <= k < |relocs| ==> WordInside(mem, PatchAddress(base, relocs[k]))
  }

  function GuestWord(mem: State, ram: seq<u8>, v: u64): u32
    requires Translate(mem, v).Ok? && Translate(mem, v).value + 4 <= |ram|
  {
    ReadWord(ram, Translate(mem, v).value)
  }

  /** The reference: the word a relocation leaves behind. */
  function RelocatedWord(t: Table, base: u64, r: RelocInfo, word: u32): u32
    requires r.kind.Symbol? ==> r.symbol.Some? && AddressForSymbol(t, r.symbol.value).Ok?
  {
    if r.kind.Symbol? then AddressForSymbol(t, r.symbol.value).value % U32
    else if r.addend != 0 then (base + r.addend) % U32
    else (word + base) % U32
  }

  lemma WordTranslates(mem: State, n: nat, v: u64)
    requires Inv(mem) && HostDisjoint(mem.alloc) && HostInside(mem.alloc, n) && WordInside(mem, v)
    ensures Translate(mem, v).Ok? && Translate(mem, v).value + 4 <= n
  {
    var k :| 0 <= k < |mem.alloc| && Contains(mem.alloc[k], v) && v + 4 <= mem.alloc[k].End();
    TranslateInBlock(mem, k, v);
  }

  /** Guest words that do not overlap have host words that do not overlap. */
  lemma WordsStayApart(mem: State, v: u64, w: u64)
    requires Inv(mem) && HostDisjoint(mem.alloc) && WordInside(mem, v) && WordInside(mem, w)
    requires v + 4 <= w || w + 4 <= v
    ensures Translate(mem, v).Ok? && Translate(mem, w).Ok?
    ensures var a, b := Translate(mem, v).value, Translate(mem, w).value; a + 4 <= b || b + 4 <= a
  {
    var i :| 0 <= i < |mem.alloc| && Contains(mem.alloc[i], v) && v + 4 <= mem.alloc[i].End();
    var j :| 0 <= j < |mem.alloc| && Contains(mem.alloc[j], w) && w + 4 <= mem.alloc[j].End();
    TranslateInBlock(mem, i, v);
    TranslateInBlock(mem, j, w);
    if i != j {
      IndexApart(mem.alloc, i, j);
    }
  }

  lemma ReadyIsRelocatable(mem: State, t: Table, n: nat, base: u64, relocs: seq<RelocInfo>)
    requires Ready(mem, t, n, base, relocs)
    ensures Relocatable(mem, t, n, base, relocs)
  {
    forall k | 0 <= k < |relocs|
      ensures PatchOf(mem, t, base, relocs[k]).Ok? && PatchOf(mem, t, base, relocs[k]).value.addr + 4 <= n
    {
      WordTranslates(mem, n, PatchAddress(base, relocs[k]));
    }
  }

  lemma ReadyIsDisjoint(mem: State, t: Table, n: nat, base: u64, relocs: seq<RelocInfo>)
    requires Ready(mem, t, n, base, relocs) && WordsDisjoint(base, relocs) && Relocatable(mem, t, n, base, relocs)
    ensures Disjoint(Patches(mem, t, n, base, relocs))
  {
    var ps := Patches(mem, t, n, base, relocs);
    forall i, j | 0 <= i < j < |ps|
      ensures Apart(ps[i], ps[j])
    {
      WordsStayApart(mem, PatchAddress(base, relocs[i]), PatchAddress(base, relocs[j]));
      PatchAddr(mem, t, base, relocs[i]);
      PatchAddr(mem, t, base, relocs[j]);
    }
  }

  lemma PatchAddr(mem: State, t: Table, base: u64, r: RelocInfo)
    requires PatchOf(mem, t, base, r).Ok?
    ensures Translate(mem, PatchAddress(base, r)) == Ok(PatchOf(mem, t, base, r).value.addr)
  {
  }

  lemma PatchWord(mem: State, t: Table, base: u64, r: RelocInfo, word: u32)
    requires PatchOf(mem, t, base, r).Ok?
    ensures r.kind.Symbol? ==> r.symbol.Some? && AddressForSymbol(t, r.symbol.value).Ok?
    ensures PatchedWord(PatchOf(mem, t, base, r).value, word) == RelocatedWord(t, base, r, word)
  {
  }

  /** The relocated image: every listed word is relocated exactly once, from its original value. */
  lemma {:induction false} RelocatedImage(mem: State, t: Table, ram: seq<u8>, base: u64, relocs: seq<RelocInfo>, k: nat)
    requires Ready(mem, t, |ram|, base, relocs) && WordsDisjoint(base, relocs) && k < |relocs|
    ensures var (ram', r) := Relocate(mem, t, ram, base, relocs);
            var v := PatchAddress(base, relocs[k]);
            && r.Ok? && |ram'| == |ram|
            && Translate(mem, v).Ok? && Translate(mem, v).value + 4 <= |ram|
            && GuestWord(mem, ram', v) == RelocatedWord(t, base, relocs[k], GuestWord(mem, ram, v))
  {
    ReadyIsRelocatable(mem, t, |ram|, base, relocs);
    ReadyIsDisjoint(mem, t, |ram|, base, relocs);
    RelocateExact(mem, t, ram, base, relocs);
    var ps := Patches(mem, t, |ram|, base, relocs);
    PatchedOnce(ram, ps, k);
    PatchAddr(mem, t, base, relocs[k]);
    PatchWord(mem, t, base, relocs[k], ReadWord(ram, ps[k].addr));
  }

  /** A mapped byte outside every listed word keeps its value. */
  lemma {:induction false} RestOfImageUnchanged(
    mem: State, t: Table, ram: seq<u8>, base: u64, relocs: seq<RelocInfo>, x: u64)
    requires Ready(mem, t, |ram|, base, relocs) && x in Occupied(mem.alloc)
    requires forall k :: 0 <= k < |relocs| ==>
               !(PatchAddress(base, relocs[k]) <= x < PatchAddress(base, relocs[k]) + 4)
    ensures Translate(mem, x).Ok? && Translate(mem, x).value < |ram|
    ensures var ram' := Relocate(mem, t, ram, base, relocs).0;
            |ram'| == |ram| && ram'[Translate(mem, x).value] == ram[Translate(mem, x).value]
  {
    ReadyIsRelocatable(mem, t, |ram|, base, relocs);
    RelocateExact(mem, t, ram, base, relocs);
    var ps := Patches(mem, t, |ram|, base, relocs);
    var i :| 0 <= i < |mem.alloc| && mem.alloc[i].virtualBase <= x < mem.alloc[i].End();
    TranslateInBlock(mem, i, x);
    forall k | 0 <= k < |ps|
      ensures !Hits(ps[k], Translate(mem, x).value)
    {
      PatchAddr(mem, t, base, relocs[k]);
      ByteMissesWord(mem, x, PatchAddress(base, relocs[k]));
    }
    ElsewhereUnchanged(ram, ps, Translate(mem, x).value);
  }

  lemma ByteMissesWord(mem: State, x: u64, v: u64)
    requires Inv(mem) && HostDisjoint(mem.alloc) && x in Occupied(mem.alloc) && WordInside(mem, v)
    requires !(v <= x < v + 4)
    ensures Translate(mem, x).Ok? && Translate(mem, v).Ok?
    ensures var a, b := Translate(mem, x).value, Translate(mem, v).value; !(b <= a < b + 4)
  {
    var i :| 0 <= i < |mem.alloc| && mem.alloc[i].virtualBase <= x < mem.alloc[i].End();
    var j :| 0 <= j < |mem.alloc| && Contains(mem.alloc[j], v) && v + 4 <= mem.alloc[j].End();
    TranslateInBlock(mem, i, x);
    TranslateInBlock(mem, j, v);
    if i != j {
      IndexApart(mem.alloc, i, j);
    }
  }

  lemma PatchesWithoutOne(mem: State, t: Table, n: nat, base: u64, relocs: seq<RelocInfo>, i: nat)
    requires Relocatable(mem, t, n, base, relocs) && i < |relocs|
    ensures Relocatable(mem, t, n, base, RemoveAt(relocs, i))
    ensures multiset(Patches(mem, t, n, base, relocs))
            == multiset(Patches(mem, t, n, base, RemoveAt(relocs, i)))
               + multiset{PatchOf(mem, t, base, relocs[i]).value}
  {
    PatchesRemoveAt(mem, t, n, base, relocs, i);
    RemoveAtMultiset(Patches(mem, t, n, base, relocs), i);
  }

  lemma PatchesRemoveAt(mem: State, t: Table, n: nat, base: u64, relocs: seq<RelocInfo>, i: nat)
    requires Relocatable(mem, t, n, base, relocs) && i < |relocs|
    ensures Relocatable(mem, t, n, base, RemoveAt(relocs, i))
    ensures Patches(mem, t, n, base, RemoveAt(relocs, i)) == RemoveAt(Patches(mem, t, n, base, relocs), i)
  {
  }

  lemma {:induction false} PatchesPermuted(
    mem: State, t: Table, n: nat, base: u64, relocs: seq<RelocInfo>, others: seq<RelocInfo>)
    requires Relocatable(mem, t, n, base, relocs) && Relocatable(mem, t, n, base, others)
    requires multiset(relocs) == multiset(others)
    ensures multiset(Patches(mem, t, n, base, relocs)) == multiset(Patches(mem, t, n, base, others))
    decreases |relocs|
  {
    if relocs == [] {
      assert |multiset(others)| == 0;
    } else {
      assert relocs[0] in multiset(others);
      var i :| 0 <= i < |others| && others[i] == relocs[0];
      RemoveAtMultiset(relocs, 0);
      RemoveAtMultiset(others, i);
      PatchesWithoutOne(mem, t, n, base, relocs, 0);
      PatchesWithoutOne(mem, t, n, base, others, i);
      PatchesPermuted(mem, t, n, base, RemoveAt(relocs, 0), RemoveAt(others, i));
    }
  }

  lemma PermutedRelocatable(mem: State, t: Table, n: nat, base: u64, relocs: seq<RelocInfo>, others: seq<RelocInfo>)
    requires Relocatable(mem, t, n, base, relocs) && multiset(relocs) == multiset(others)
    ensures Relocatable(mem, t, n, base, others)
  {
    forall k | 0 <= k < |others|
      ensures PatchOf(mem, t, base, others[k]).Ok? && PatchOf(mem, t, base, others[k]).value.addr + 4 <= n
    {
      assert others[k] in multiset(relocs);
      var j :| 0 <= j < |relocs| && relocs[j] == others[k];
    }
  }

  /** The order of the list does not matter. */
  lemma {:induction false} RelocationOrderIrrelevant(
    mem: State, t: Table, ram: seq<u8>, base: u64, relocs: seq<RelocInfo>, others: seq<RelocInfo>)
    requires Ready(mem, t, |ram|, base, relocs) && WordsDisjoint(base, relocs)
    requires multiset(relocs) == multiset(others)
    ensures Relocate(mem, t, ram, base, others) == Relocate(mem, t, ram, base, relocs)
  {
    ReadyIsRelocatable(mem, t, |ram|, base, relocs);
    ReadyIsDisjoint(mem, t, |ram|, base, relocs);
    PermutedRelocatable(mem, t, |ram|, base, relocs, others);
    PatchesPermuted(mem, t, |ram|, base, relocs, others);
    var ps, qs := Patches(mem, t, |ram|, base, relocs), Patches(mem, t, |ram|, base, others);
    PatchOrderIrrelevant(ram, ps, qs);
    RelocateAll(mem, t, ram, base, relocs, ps);
    RelocateAll(mem, t, ram, base, others, qs);
  }

  lemma {:induction false} RelocateAll(
    mem: State, t: Table, ram: seq<u8>, base: u64, relocs: seq<RelocInfo>, ps: seq<Patch>)
    requires Relocatable(mem, t, |ram|, base, relocs) && ps == Patches(mem, t, |ram|, base, relocs)
    ensures Relocate(mem, t, ram, base, relocs) == (ApplyAll(ram, ps), Ok(()))
  {
    RelocateExact(mem, t, ram, base, relocs);
  }

  /** A word with an amount added, modulo 2^32. */
  function Shifted(word: u32, amount: int): u32 {
    (word + amount) % U32
  }

  lemma ModularShift(a: int, b: int)
    ensures (a % U32 + b) % U32 == (a + b) % U32
  {
  }

  /** One word relocated for two bases. */
  lemma RebasedWord(t: Table, base: u64, base2: u64, r: RelocInfo, word: u32, w: u32, w2: u32)
    requires r.kind.Symbol? ==> r.symbol.Some? && AddressForSymbol(t, r.symbol.value).Ok?
    requires w == RelocatedWord(t, base, r, word) && w2 == RelocatedWord(t, base2, r, word)
    ensures w2 == if r.kind.Symbol? then w else Shifted(w, base2 - base)
  {
    ModularShift(base + r.addend, base2 - base);
    ModularShift(word + base, base2 - base);
  }

  /** The same image at another base: relative words differ by the difference of the bases, symbol words not at all. */
  lemma {:induction false} RebaseLaw(mem: State, ram: seq<u8>, base: u64, mem2: State, ram2: seq<u8>, base2: u64,
                  t: Table, relocs: seq<RelocInfo>, k: nat)
    requires Ready(mem, t, |ram|, base, relocs) && WordsDisjoint(base, relocs) && k < |relocs|
    requires Ready(mem2, t, |ram2|, base2, relocs) && WordsDisjoint(base2, relocs)
    requires var v, v2 := PatchAddress(base, relocs[k]), PatchAddress(base2, relocs[k]);
             && Translate(mem, v).Ok? && Translate(mem, v).value + 4 <= |ram|
             && Translate(mem2, v2).Ok? && Translate(mem2, v2).value + 4 <= |ram2|
             && GuestWord(mem, ram, v) == GuestWord(mem2, ram2, v2)
    ensures |Relocate(mem, t, ram, base, relocs).0| == |ram| && |Relocate(mem2, t, ram2, base2, relocs).0| == |ram2|
    ensures var w := GuestWord(mem, Relocate(mem, t, ram, base, relocs).0, PatchAddress(base, relocs[k]));
            var w2 := GuestWord(mem2, Relocate(mem2, t, ram2, base2, relocs).0, PatchAddress(base2, relocs[k]));
            w2 == if relocs[k].kind.Symbol? then w else Shifted(w, base2 - base)
  {
    RelocatedImage(mem, t, ram, base, relocs, k);
    RelocatedImage(mem2, t, ram2, base2, relocs, k);
    var w := GuestWord(mem, Relocate(mem, t, ram, base, relocs).0, PatchAddress(base, relocs[k]));
    var w2 := GuestWord(mem2, Relocate(mem2, t, ram2, base2, relocs).0, PatchAddress(base2, relocs[k]));
    RebasedWord(t, base, base2, relocs[k], GuestWord(mem, ram, PatchAddress(base, relocs[k])), w, w2);
  }

  // ---------- the ABI ----------

  /** The addend A of an entry, by section 4.6 of ELF for the ARM Architecture: an explicit one in a RELA array; the
      word in place in a REL array, except that A is always 0 for R_ARM_JUMP_SLOT there. */
  function AbiAddend(e: RelEntry, rela: bool, word: u32): int {
    if rela then e.addend else if e.rtype == R_ARM_JUMP_SLOT then 0 else word
  }

  /** The same section gives R_ARM_RELATIVE the value B(S) + A. A decoded entry computes that, at its own place, unless
      an explicit addend is 0 and the word in place is not. */
  lemma RelativeMeetsAbi(t: Table, base: u64, e: RelEntry, rela: bool, nameOf: nat -> Outcome<string>, r: RelocInfo,
                         word: u32)
    requires e.rtype == R_ARM_RELATIVE && Decoded(e, rela, nameOf, r)
    ensures r.kind.Relative? && r.patchOffset == e.offset
    ensures RelocatedWord(t, base, r, word) == (base + AbiAddend(e, rela, word)) % U32
            <==> !rela || e.addend != 0 || word == 0
  {
    if rela && e.addend == 0 && word != 0 {
      ShiftChanges(word, base);
    }
  }

  lemma ShiftChanges(word: u32, base: int)
    requires word != 0
    ensures (word + base) % U32 != base % U32
  {
    ModularShift(base, word);
  }

  predicate AbiSymbolType(rtype: nat) {
    rtype == R_ARM_ABS32 || rtype == R_ARM_GLOB_DAT || rtype == R_ARM_JUMP_SLOT
  }

  /** And it gives the three symbol types the value S + A; no pseudo-address is a Thumb function. A decoded entry writes
      S, the address of the symbol it names. That is the same exactly when A is 0 modulo 2^32: an explicit addend that
      is, no word in place, or a REL jump slot. */
  lemma SymbolMeetsAbi(t: Table, base: u64, e: RelEntry, rela: bool, nameOf: nat -> Outcome<string>, r: RelocInfo,
                       name: string, address: u64, word: u32)
    requires AbiSymbolType(e.rtype) && Decoded(e, rela, nameOf, r)
    requires nameOf(e.symbolIndex) == Ok(name) && AddressForSymbol(t, name) == Ok(address)
    ensures r.kind.Symbol? && r.patchOffset == e.offset && r.symbol == Some(name) && e.symbolIndex != 0
    ensures RelocatedWord(t, base, r, word) == (address + AbiAddend(e, rela, word)) % U32
            <==> if rela then e.addend % U32 == 0 else e.rtype == R_ARM_JUMP_SLOT || word == 0
  {
    AddendVanishes(address, AbiAddend(e, rela, word));
  }

  lemma AddendVanishes(address: int, addend: int)
    ensures address % U32 == (address + addend) % U32 <==> addend % U32 == 0
  {
    ModularShift(addend, address);
    if addend % U32 != 0 {
      ShiftChanges(addend % U32, address);
    }
  }

  /** A REL R_ARM_ABS32 against a function at address 16, on a word that holds the addend 4: the code leaves 16. */
  lemma RelAddendIsLost()
    ensures var t := Table(16, map["f" := 16], map[], map[16 := Emitter32(0)]);
            var e := RelEntry(8, R_ARM_ABS32, 1, 0);
            var nameOf := (i: nat) => Ok("f");
            && Decode(e, false, nameOf) == Ok(RelocInfo(8, 0, Symbol, Some("f")))
            && AddressForSymbol(t, "f") == Ok(16)
            && RelocatedWord(t, 0, Decode(e, false, nameOf).value, 4) == 16
            && 16 + AbiAddend(e, false, 4) == 20
  {
  }
}
