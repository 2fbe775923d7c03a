/** Decoded program headers and relocation entries of a 32-bit ELF image. */
module Elf {
  import opened Types
  import opened Alignment
  import opened Allocator

  const R_ARM_ABS32: nat := 2
  const R_ARM_GLOB_DAT: nat := 21
  const R_ARM_JUMP_SLOT: nat := 22
  const R_ARM_RELATIVE: nat := 23
  const R_AARCH64_ABS64: nat := 257
  const R_AARCH64_GLOB_DAT: nat := 1025
  const R_AARCH64_JUMP_SLOT: nat := 1026
  const R_AARCH64_RELATIVE: nat := 1027

  const PF_X: nat := 1
  const PF_W: nat := 2
  const PF_R: nat := 4

  datatype ProgramHeader =
    ProgramHeader(flags: u64, offset: u64, vaddr: u64, filesz: u64, memsz: u64, align: u64)

  /** The first address of the segment's allocation, relative to the image base. */
  function AllocationOffset(p: ProgramHeader): Outcome<u64> {
    if p.align > 1 then
      if p.vaddr % p.align != p.offset % p.align then Err(InvalidSegment)
      else AlignDown(p.vaddr, p.align)
    else Ok(p.vaddr)
  }

  function AllocationSize(p: ProgramHeader): Outcome<u64> {
    if p.memsz < p.filesz then Err(InvalidSegment)
    else if p.align > 1 then AlignUp(p.memsz, p.align)
    else Ok(p.memsz)
  }

  function WrapPermissionFlags(flags: u64): u64 {
    (if And(flags, PF_R) != 0 then PERM_READ else 0)
    + (if And(flags, PF_W) != 0 then PERM_WRITE else 0)
    + (if And(flags, PF_X) != 0 then PERM_EXEC else 0)
  }

  /** Bits 1, 2 and 4 of a block's flags, read, write and execute, are those that header flags 4, 2 and 1 ask for. */
  predicate Grants(permissions: u64, flags: u64) {
    && permissions < 8
    && (And(permissions, 1) != 0 <==> And(flags, 4) != 0)
    && (And(permissions, 2) != 0 <==> And(flags, 2) != 0)
    && (And(permissions, 4) != 0 <==> And(flags, 1) != 0)
  }

  /** The low bits of a sum of different powers. */
  lemma {:induction false} BitsOfSum(r: bool, w: bool, x: bool)
    ensures var sum := (if r then 1 else 0) + (if w then 2 else 0) + (if x then 4 else 0);
            (And(sum, 1) != 0 <==> r) && (And(sum, 2) != 0 <==> w) && (And(sum, 4) != 0 <==> x)
  {
    assert And(1, 4) == And(2, 4) == And(3, 4) == 0 && And(5, 4) == And(6, 4) == And(7, 4) == 4;
  }

  /** Each permission is granted exactly when the header has the flag for it. */
  lemma {:induction false} PermissionsCorrespond(flags: u64)
    ensures Grants(WrapPermissionFlags(flags), flags)
  {
    BitsOfSum(And(flags, 4) != 0, And(flags, 2) != 0, And(flags, 1) != 0);
  }

  /** A header whose allocation can be computed. */
  predicate Loadable(p: ProgramHeader) {
    AllocationOffset(p).Ok? && AllocationSize(p).Ok?
  }

  /** How far into its allocation a segment starts. */
  function StartOffset(p: ProgramHeader): int
    requires Loadable(p)
  {
    p.vaddr - AllocationOffset(p).value
  }

  /** The file bytes, placed at vaddr, stay inside the allocation. Nothing in the code checks this. */
  predicate CopyFits(p: ProgramHeader)
    requires Loadable(p)
  {
    StartOffset(p) + p.filesz <= AllocationSize(p).value
  }

  /** The segment's memory, [vaddr, vaddr + memsz), lies inside the allocation. Nothing checks this either. */
  predicate MemoryFits(p: ProgramHeader)
    requires Loadable(p)
  {
    StartOffset(p) + p.memsz <= AllocationSize(p).value
  }

  /** When the allocation of a segment is defined, and what it then covers. Alignments 0 and 1 ask for nothing. */
  lemma AllocationExact(p: ProgramHeader)
    ensures Loadable(p) <==>
              && p.filesz <= p.memsz
              && (p.align > 1 ==> IsPowerOfTwo(p.align) && p.vaddr % p.align == p.offset % p.align)
    ensures Loadable(p) && p.align <= 1 ==> AllocationOffset(p) == Ok(p.vaddr) && AllocationSize(p) == Ok(p.memsz)
    ensures Loadable(p) && p.align > 1 ==>
              && IsFloor(AllocationOffset(p).value, p.vaddr, p.align)
              && p.vaddr < AllocationOffset(p).value + p.align
              && (if p.memsz <= U64 - p.align then IsCeiling(AllocationSize(p).value, p.memsz, p.align)
                  else AllocationSize(p) == Ok(0))
  {
    if p.align > 1 {
      AlignDownIsFloor(p.vaddr, p.align);
      AlignUpIsCeiling(p.memsz, p.align);
    }
  }

  /** Rounded down, or up, to a multiple of the alignment. Alignments 0 and 1 round nothing. */
  function RoundDown(a: nat, align: nat): nat {
    if align > 1 then a - a % align else a
  }

  function RoundUp(a: nat, align: nat): nat {
    if align > 1 then RoundDown(a + align - 1, align) else a
  }

  /** The size of a segment's allocation: its memory size, rounded up, and 0 where that wraps. */
  function BlockSize(p: ProgramHeader): nat {
    if p.align > 1 && p.memsz > U64 - p.align then 0 else RoundUp(p.memsz, p.align)
  }

  lemma OffsetRounded(p: ProgramHeader)
    requires Loadable(p)
    ensures AllocationOffset(p) == Ok(RoundDown(p.vaddr, p.align))
  {
    AllocationExact(p);
    if p.align > 1 {
      MaskWord(p.vaddr, p.align);
    }
  }

  lemma WordRoundedUp(v: u64, a: u64)
    requires IsPowerOfTwo(a) && a > 1
    ensures AlignUp(v, a) == Ok(if v > U64 - a then 0 else RoundUp(v, a))
  {
    AlignUpIsCeiling(v, a);
    if v <= U64 - a {
      MaskWord(Add(v, a - 1), a);
    }
  }

  /** The same in one formula each. */
  lemma AllocationRounded(p: ProgramHeader)
    requires Loadable(p)
    ensures AllocationOffset(p) == Ok(RoundDown(p.vaddr, p.align)) && AllocationSize(p) == Ok(BlockSize(p))
  {
    AllocationExact(p);
    OffsetRounded(p);
    if p.align > 1 {
      WordRoundedUp(p.memsz, p.align);
    }
  }

  /** A segment starts as far into its allocation as its address is past a multiple of the alignment. */
  lemma StartOffsetExact(p: ProgramHeader)
    requires Loadable(p)
    ensures StartOffset(p) == if p.align > 1 then p.vaddr % p.align else 0
    ensures p.align <= 1 ==> CopyFits(p) && MemoryFits(p)
  {
    if p.align > 1 {
      AllocationExact(p);
      MaskWord(p.vaddr, p.align);
    }
  }

  ghost predicate PlainHeader(p: ProgramHeader, vaddr: u64, align: u64) {
    p.vaddr == vaddr && p.align == align && p.memsz <= U64 - align && Loadable(p)
  }

  lemma AlignedFits(p: ProgramHeader, vaddr: u64, align: u64)
    requires IsPowerOfTwo(align) && align > 1 && Multiple(vaddr, align) && PlainHeader(p, vaddr, align)
    ensures CopyFits(p) && MemoryFits(p)
  {
    AllocationExact(p);
    StartOffsetExact(p);
  }

  /** A page's worth at an address that is not aligned. */
  function Misaligned(vaddr: u64, align: u64): ProgramHeader {
    ProgramHeader(0, vaddr, vaddr, align, align, align)
  }

  lemma MisalignedOverruns(vaddr: u64, align: u64)
    requires IsPowerOfTwo(align) && 1 < align <= 0x8000_0000_0000_0000 && !Multiple(vaddr, align)
    ensures PlainHeader(Misaligned(vaddr, align), vaddr, align)
    ensures !CopyFits(Misaligned(vaddr, align)) && !MemoryFits(Misaligned(vaddr, align))
  {
    var p := Misaligned(vaddr, align);
    AllocationExact(p);
    StartOffsetExact(p);
    assert Multiple(align, align);
  }

  /** The size ignores where in its first page the segment starts: from that start the copy overruns for some sizes, and
      for some sizes part of the segment's memory is left out. */
  lemma CopyFitsIff(vaddr: u64, align: u64)
    requires IsPowerOfTwo(align) && 1 < align <= 0x8000_0000_0000_0000
    ensures Multiple(vaddr, align) <==> forall p: ProgramHeader :: PlainHeader(p, vaddr, align) ==> CopyFits(p)
    ensures Multiple(vaddr, align) <==> forall p: ProgramHeader :: PlainHeader(p, vaddr, align) ==> MemoryFits(p)
  {
    if Multiple(vaddr, align) {
      forall p: ProgramHeader | PlainHeader(p, vaddr, align)
        ensures CopyFits(p) && MemoryFits(p)
      {
        AlignedFits(p, vaddr, align);
      }
    } else {
      MisalignedOverruns(vaddr, align);
    }
  }

  // ---------- relocation entries ----------

  datatype RelocKind = Relative | Symbol

  datatype RelocInfo = RelocInfo(patchOffset: u64, addend: int, kind: RelocKind, symbol: Option<string>)

  /** An entry of a REL or RELA array. A REL entry has no addend of its own. */
  datatype RelEntry = RelEntry(offset: u64, rtype: nat, symbolIndex: nat, addend: int)

  predicate IsRelativeReloc(rtype: nat) {
    rtype == R_ARM_RELATIVE || rtype == R_AARCH64_RELATIVE
  }

  predicate IsSymbolReloc(rtype: nat) {
    || rtype == R_ARM_ABS32 || rtype == R_ARM_GLOB_DAT || rtype == R_ARM_JUMP_SLOT
    || rtype == R_AARCH64_ABS64 || rtype == R_AARCH64_GLOB_DAT || rtype == R_AARCH64_JUMP_SLOT
  }

  /** Index 0 is no symbol; names of the others come from the symbol and string tables. */
  function SymbolName(index: nat, nameOf: nat -> Outcome<string>): Outcome<string> {
    if index == 0 then Err(InvalidIndex) else nameOf(index)
  }

  function Decode(e: RelEntry, rela: bool, nameOf: nat -> Outcome<string>): Outcome<RelocInfo> {
    var addend := if rela then e.addend else 0;
    if IsRelativeReloc(e.rtype) then Ok(RelocInfo(e.offset, addend, Relative, None))
    else if IsSymbolReloc(e.rtype) then
      match SymbolName(e.symbolIndex, nameOf)
      case Ok(name) => Ok(RelocInfo(e.offset, addend, Symbol, Some(name)))
      case Err(error) => Err(error)
      case Abort => Abort
    else Err(InvalidRelocation)
  }

  /** Decodes an array in order, up to the first entry that cannot be decoded. */
  function DecodeAll(entries: seq<RelEntry>, rela: bool, nameOf: nat -> Outcome<string>)
    : (seq<RelocInfo>, Outcome<()>)
  {
    if entries == [] then ([], Ok(()))
    else
      var n := |entries| - 1;
      var (before, outcome) := DecodeAll(entries[..n], rela, nameOf);
      if !outcome.Ok? then (before, outcome)
      else
        match Decode(entries[n], rela, nameOf)
        case Ok(r) => (before + [r], Ok(()))
        case Err(e) => (before, Err(e))
        case Abort => (before, Abort)
  }

  /** The relocation that an entry asks for: its place; its addend, explicit in a RELA array and 0 in a REL one; and by
      its type, its kind and the name of its symbol. */
  predicate Decoded(e: RelEntry, rela: bool, nameOf: nat -> Outcome<string>, r: RelocInfo) {
    && r.patchOffset == e.offset && r.addend == (if rela then e.addend else 0)
    && match r.kind
       case Relative => e.rtype in {23, 1027} && r.symbol == None
       case Symbol =>
         && e.rtype in {2, 21, 22, 257, 1025, 1026} && e.symbolIndex != 0
         && r.symbol.Some? && nameOf(e.symbolIndex) == Ok(r.symbol.value)
  }

  /** How an entry fails: its type is unknown, or it has no symbol, or its symbol has no name. */
  predicate Undecodable(e: RelEntry, nameOf: nat -> Outcome<string>, outcome: Outcome<()>) {
    if e.rtype in {2, 21, 22, 257, 1025, 1026} then
      if e.symbolIndex == 0 then outcome == Err(InvalidIndex)
      else
        match nameOf(e.symbolIndex)
        case Ok(_) => false
        case Err(error) => outcome == Err(error)
        case Abort => outcome == Abort
    else e.rtype !in {23, 1027} && outcome == Err(InvalidRelocation)
  }

  /** The entries visited, up to the first bad one, each with its own relocation; the bad one's error is the outcome. */
  ghost predicate Visited(entries: seq<RelEntry>, rela: bool, nameOf: nat -> Outcome<string>, found: seq<RelocInfo>,
                          outcome: Outcome<()>)
  {
    && |found| <= |entries| && (forall k :: 0 <= k < |found| ==> Decoded(entries[k], rela, nameOf, found[k]))
    && if outcome == Ok(()) then |found| == |entries|
       else |found| < |entries| && Undecodable(entries[|found|], nameOf, outcome)
  }

  lemma DecodeExact(e: RelEntry, rela: bool, nameOf: nat -> Outcome<string>)
    ensures match Decode(e, rela, nameOf)
            case Ok(r) => Decoded(e, rela, nameOf, r)
            case Err(error) => Undecodable(e, nameOf, Err(error))
            case Abort => Undecodable(e, nameOf, Abort)
  {
  }

  lemma VisitedNext(entries: seq<RelEntry>, rela: bool, nameOf: nat -> Outcome<string>, found: seq<RelocInfo>,
                    e: RelEntry, r: RelocInfo)
    requires Visited(entries, rela, nameOf, found, Ok(())) && Decoded(e, rela, nameOf, r)
    ensures Visited(entries + [e], rela, nameOf, found + [r], Ok(()))
  {
  }

  lemma {:induction false} DecodeAllVisits(entries: seq<RelEntry>, rela: bool, nameOf: nat -> Outcome<string>)
    ensures var (relocs, outcome) := DecodeAll(entries, rela, nameOf); Visited(entries, rela, nameOf, relocs, outcome)
    decreases |entries|
  {
    if entries == [] {
    } else {
      var n := |entries| - 1;
      DecodeAllVisits(entries[..n], rela, nameOf);
      DecodeExact(entries[n], rela, nameOf);
      assert entries == entries[..n] + [entries[n]];
      var (before, outcome) := DecodeAll(entries[..n], rela, nameOf);
      if outcome.Ok? && Decode(entries[n], rela, nameOf).Ok? {
        VisitedNext(entries[..n], rela, nameOf, before, entries[n], Decode(entries[n], rela, nameOf).value);
      }
    }
  }

  /** No entry both decodes and fails, nor does either in two ways. */
  lemma EntryDecides(e: RelEntry, rela: bool, nameOf: nat -> Outcome<string>)
    ensures forall r, o :: Decoded(e, rela, nameOf, r) ==> !Undecodable(e, nameOf, o)
    ensures forall r, r2 :: Decoded(e, rela, nameOf, r) && Decoded(e, rela, nameOf, r2) ==> r == r2
    ensures forall o, o2 :: Undecodable(e, nameOf, o) && Undecodable(e, nameOf, o2) ==> o == o2
  {
  }

  lemma VisitedAsFar(entries: seq<RelEntry>, rela: bool, nameOf: nat -> Outcome<string>, found: seq<RelocInfo>,
                     outcome: Outcome<()>, found2: seq<RelocInfo>, outcome2: Outcome<()>)
    requires Visited(entries, rela, nameOf, found, outcome) && Visited(entries, rela, nameOf, found2, outcome2)
    ensures |found| <= |found2|
  {
    if !outcome2.Ok? {
      EntryDecides(entries[|found2|], rela, nameOf);
    }
  }

  lemma VisitedOnce(entries: seq<RelEntry>, rela: bool, nameOf: nat -> Outcome<string>, found: seq<RelocInfo>,
                    outcome: Outcome<()>, found2: seq<RelocInfo>, outcome2: Outcome<()>)
    requires Visited(entries, rela, nameOf, found, outcome) && Visited(entries, rela, nameOf, found2, outcome2)
    ensures found == found2 && outcome == outcome2
  {
    VisitedAsFar(entries, rela, nameOf, found, outcome, found2, outcome2);
    VisitedAsFar(entries, rela, nameOf, found2, outcome2, found, outcome);
    forall k | 0 <= k < |found|
      ensures found[k] == found2[k]
    {
      EntryDecides(entries[k], rela, nameOf);
    }
    if |found| < |entries| {
      EntryDecides(entries[|found|], rela, nameOf);
    }
  }

  /** The relation is the function: what a visit can find, and what it comes to, is settled by the entries. */
  lemma {:induction false} DecodeAllExact(entries: seq<RelEntry>, rela: bool, nameOf: nat -> Outcome<string>,
                                          found: seq<RelocInfo>, outcome: Outcome<()>)
    ensures Visited(entries, rela, nameOf, found, outcome)
            <==> DecodeAll(entries, rela, nameOf) == (found, outcome)
  {
    DecodeAllVisits(entries, rela, nameOf);
    var (relocs, o) := DecodeAll(entries, rela, nameOf);
    if Visited(entries, rela, nameOf, found, outcome) {
      VisitedOnce(entries, rela, nameOf, found, outcome, relocs, o);
    }
  }

  /** The list after the visit: what was there before, then the relocations of the entries visited. */
  ghost predicate Appends(relocs: seq<RelocInfo>, entries: seq<RelEntry>, rela: bool, nameOf: nat -> Outcome<string>,
                          all: seq<RelocInfo>, outcome: Outcome<()>)
  {
    relocs <= all && Visited(entries, rela, nameOf, all[|relocs|..], outcome)
  }

  lemma {:induction false} OneMoreVisited(relocs: seq<RelocInfo>, entries: seq<RelEntry>, rela: bool,
                                          nameOf: nat -> Outcome<string>, all: seq<RelocInfo>, i: nat, r: RelocInfo)
    requires i < |entries| && Appends(relocs, entries[..i], rela, nameOf, all, Ok(()))
    requires Decoded(entries[i], rela, nameOf, r)
    ensures Appends(relocs, entries[..i + 1], rela, nameOf, all + [r], Ok(()))
  {
    VisitedNext(entries[..i], rela, nameOf, all[|relocs|..], entries[i], r);
    assert entries[..i] + [entries[i]] == entries[..i + 1];
    assert (all + [r])[|relocs|..] == all[|relocs|..] + [r];
  }

  lemma {:induction false} BadEntryVisited(relocs: seq<RelocInfo>, entries: seq<RelEntry>, rela: bool,
                                           nameOf: nat -> Outcome<string>, all: seq<RelocInfo>, i: nat,
                                           outcome: Outcome<()>)
    requires i < |entries| && Appends(relocs, entries[..i], rela, nameOf, all, Ok(()))
    requires Undecodable(entries[i], nameOf, outcome)
    ensures Appends(relocs, entries, rela, nameOf, all, outcome)
  {
  }

  /** One array of relocations, appended to those visited before. A bad entry leaves those before it in the list. */
  method VisitArray(relocs: seq<RelocInfo>, entries: seq<RelEntry>, rela: bool, nameOf: nat -> Outcome<string>)
    returns (all: seq<RelocInfo>, r: Outcome<()>)
    ensures Appends(relocs, entries, rela, nameOf, all, r)
  {
    all := relocs;
    for i := 0 to |entries|
      invariant Appends(relocs, entries[..i], rela, nameOf, all, Ok(()))
    {
      var e := entries[i];
      var found: RelocInfo;
      if IsRelativeReloc(e.rtype) {
        found := RelocInfo(e.offset, if rela then e.addend else 0, Relative, None);
      } else if IsSymbolReloc(e.rtype) {
        var name := SymbolName(e.symbolIndex, nameOf);
        if !name.Ok? {
          r := if name.Err? then Err(name.error) else Abort;
          BadEntryVisited(relocs, entries, rela, nameOf, all, i, r);
          return;
        }
        found := RelocInfo(e.offset, if rela then e.addend else 0, Symbol, Some(name.value));
      } else {
        BadEntryVisited(relocs, entries, rela, nameOf, all, i, Err(InvalidRelocation));
        return all, Err(InvalidRelocation);
      }
      OneMoreVisited(relocs, entries, rela, nameOf, all, i, found);
      all := all + [found];
    }
    assert entries[..|entries|] == entries;
    return all, Ok(());
  }
}
