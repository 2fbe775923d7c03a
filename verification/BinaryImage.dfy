/** What loading a binary leaves behind, in terms of its headers, its file, its relocations and its function arrays. */
module BinaryImage {
  import opened Types
  import opened Alignment
  import opened OrderedSet
  import opened Blocks
  import opened Gaps
  import opened Allocator
  import opened AllocatorInvariant
  import opened Allocation
  import opened Lookup
  import opened FreeAddress
  import opened Translation
  import opened BridgeTable
  import opened BridgeProofs
  import opened Elf
  import opened Words
  import opened Relocation
  import opened Segments
  import opened Loading
  import opened LoadImage
  import opened FinalImage
  import opened Boot

  /** A load of a binary: the machine before it, and the host's answers for the table and for each segment. */
  datatype Launch = Launch(s: Snapshot, page: u64, image: Image, iftHost: Option<u64>, hosts: seq<Option<u64>>) {
    ghost predicate Allowed() { HostsAllow(|s.ram|, image, hosts) }

    function Result(): (Snapshot, Outcome<()>)
      requires Allowed()
    {
      LoadBinary(s, page, image, iftHost, hosts)
    }
  }

  /** es are the functions registered with the bridge, whose table is yet to be built. */
  ghost predicate Launchable(c: Launch, es: seq<Entry>) {
    Inv(c.s.mem) && Shape(c.s.table, 0, es) && !c.s.table.HasBuiltIFT() && c.Allowed()
  }

  // ---------- what the image and the host are expected to be ----------

  /** The fields of a 32-bit header are 32-bit words. */
  predicate Narrow(p: ProgramHeader) {
    p.vaddr < U32 && p.memsz < U32 && p.align < U32
  }

  /** The file data, placed at its address, stays inside the segment's block. */
  predicate DataFits(p: ProgramHeader) {
    p.vaddr + p.filesz <= RoundDown(p.vaddr, p.align) + RoundUp(p.memsz, p.align)
  }

  /** The relocation is of the word at byte i of the segment's file data. */
  predicate WordOf(p: ProgramHeader, i: nat, r: RelocInfo) {
    i + 4 <= p.filesz && r.patchOffset == p.vaddr + i
  }

  ghost predicate InData(headers: seq<ProgramHeader>, r: RelocInfo) {
    exists k, i :: 0 <= k < |headers| && 0 <= i && WordOf(headers[k], i, r)
  }

  /** A 32-bit image whose segments' data fit and whose relocated words lie apart in the data of its segments. */
  ghost predicate WellFormed(image: Image) {
    && (forall k :: 0 <= k < |image.headers| ==> Narrow(image.headers[k]) && DataFits(image.headers[k]))
    && (forall j :: 0 <= j < |image.relocs| ==> InData(image.headers, image.relocs[j]))
    && RelocsApart(image.relocs)
  }

  /** A range inside host memory that overlaps no live block's. */
  ghost predicate HostRange(alloc: seq<AllocatedBlock>, n: nat, host: Option<u64>, size: nat) {
    host.Some? ==>
      && host.value + size <= n < U64
      && forall b :: b in alloc ==> RangesApart(b.hostBase, b.size, host.value, size)
  }

  ghost predicate AnswersApart(a: Option<u64>, m: nat, b: Option<u64>, n: nat) {
    a.Some? && b.Some? ==> RangesApart(a.value, m, b.value, n)
  }

  /** The host hands out ranges inside host memory that overlap neither live blocks nor each other. The table takes
      4 bytes for each function, if there is any. */
  ghost predicate HostServes(c: Launch, es: seq<Entry>) {
    var alloc, n, ps := c.s.mem.alloc, |c.s.ram|, c.image.headers;
    && n < U64 && HostDisjoint(alloc) && HostInside(alloc, n) && |c.hosts| == |ps|
    && (forall k :: 0 <= k < |ps| ==> HostRange(alloc, n, c.hosts[k], RoundUp(ps[k].memsz, ps[k].align)))
    && (forall j, k :: 0 <= j < k < |ps| ==>
          AnswersApart(c.hosts[j], RoundUp(ps[j].memsz, ps[j].align), c.hosts[k], RoundUp(ps[k].memsz, ps[k].align)))
    && (es != [] ==>
          && HostRange(alloc, n, c.iftHost, 4 * |es|)
          && forall k :: 0 <= k < |ps| ==>
               AnswersApart(c.iftHost, 4 * |es|, c.hosts[k], RoundUp(ps[k].memsz, ps[k].align)))
  }

  // ---------- what is left behind ----------

  /** Byte i of segment k of the file is at its own address. */
  ghost predicate ByteInPlace(image: Image, t: Snapshot, base: u64, k: nat, i: nat) {
    && k < |image.headers| && i < image.headers[k].filesz
    && var p := image.headers[k];
       && p.offset + i < |image.buffer| && base + p.vaddr + i < U64
       && HoldsByte(t.mem, t.ram, base + p.vaddr + i, image.buffer[p.offset + i])
  }

  /** Some relocated word covers the offset from the image's base. */
  ghost predicate Relocated(relocs: seq<RelocInfo>, off: nat) {
    exists j :: 0 <= j < |relocs| && relocs[j].patchOffset <= off < relocs[j].patchOffset + 4
  }

  /** The word that relocation j leaves, from the file's word at byte i of segment k. */
  ghost predicate WordInPlace(image: Image, t: Snapshot, base: u64, j: nat, k: nat, i: nat) {
    && j < |image.relocs| && k < |image.headers|
    && var p, r := image.headers[k], image.relocs[j];
       && p.offset + i + 4 <= |image.buffer| && base + r.patchOffset < U64
       && var word, v := ReadWord(image.buffer, p.offset + i), base + r.patchOffset;
          match r.kind
          case Relative =>
            HoldsWord(t.mem, t.ram, v, if r.addend != 0 then (base + r.addend) % U32 else (word + base) % U32)
          case Symbol =>
            && r.symbol.Some? && AddressForSymbol(t.table, r.symbol.value).Ok?
            && HoldsWord(t.mem, t.ram, v, AddressForSymbol(t.table, r.symbol.value).value % U32)
  }

  /** The block of segment k: at the multiple of the alignment below its address, of whole alignments, in the host's
      range, with the permissions of its header. */
  ghost predicate BlockInPlace(c: Launch, t: Snapshot, base: u64, k: nat, b: AllocatedBlock) {
    && k < |c.image.headers| && k < |c.hosts| && k < |t.segments|
    && var p := c.image.headers[k];
       && b in t.mem.alloc && c.hosts[k] == Some(b.hostBase)
       && b.virtualBase == base + RoundDown(p.vaddr, p.align) == t.segments[k]
       && b.size == RoundUp(p.memsz, p.align) && Grants(b.flags, p.flags)
  }

  /** fs are the functions of the array, in its order; an absent array leaves what there was before. */
  ghost predicate ArrayInPlace(t: Snapshot, base: u64, funcs: Option<FuncArray>, before: seq<u64>, fs: seq<u64>) {
    if funcs.None? then fs == before
    else
      var addr := Translate(t.mem, Add(base, funcs.value.offset));
      && addr.Ok? && addr.value + 4 * funcs.value.size <= |t.ram|
      && exists at :: Picks(t.ram, addr.value, funcs.value.size, fs, at)
  }

  /** The file at a base: its bytes, its words relocated, its blocks and its functions. */
  ghost predicate FileInPlace(c: Launch, t: Snapshot, base: u64) {
    && (forall k, i :: 0 <= k < |c.image.headers| && 0 <= i < c.image.headers[k].filesz
                       && !Relocated(c.image.relocs, c.image.headers[k].vaddr + i)
          ==> ByteInPlace(c.image, t, base, k, i))
    && (forall j, k, i :: 0 <= j < |c.image.relocs| && 0 <= k < |c.image.headers| && 0 <= i
                          && WordOf(c.image.headers[k], i, c.image.relocs[j])
          ==> WordInPlace(c.image, t, base, j, k, i))
  }

  ghost predicate SegmentInPlace(c: Launch, t: Snapshot, base: u64, k: nat) {
    exists b :: BlockInPlace(c, t, base, k, b)
  }

  ghost predicate BlocksInPlace(c: Launch, t: Snapshot, base: u64) {
    && |t.segments| == |c.image.headers|
    && forall k :: 0 <= k < |c.image.headers| ==> SegmentInPlace(c, t, base, k)
  }

  ghost predicate ArraysInPlace(c: Launch, t: Snapshot, base: u64) {
    && ArrayInPlace(t, base, c.image.initArray, c.s.initializers, t.initializers)
    && ArrayInPlace(t, base, c.image.finiArray, c.s.finalizers, t.finalizers)
  }

  // ---------- the stages of a load ----------

  function StartOf(c: Launch, mem: State, infos: seq<SegmentInfo>): Start {
    Start(mem, c.s.ram, c.page, infos, c.image.buffer, c.hosts)
  }

  /** The stages of a load that ended well: mem is memory with the table in it. */
  ghost predicate Staged(c: Launch, t: Snapshot, mem: State, infos: seq<SegmentInfo>, base: u64) {
    && BuildIFT(c.s.table, c.s.mem, c.iftHost) == (t.table, mem, Ok(()))
    && AllLaidOut(c.image.headers, infos) && StartOf(c, mem, infos).Allowed()
    && Load(StartOf(c, mem, infos), t.table, c.s.segments, c.image.relocs)
       == Loaded(t.mem, t.ram, t.segments, Ok(base))
    && ReadFunctions(t.mem, t.ram, base, c.image.initArray, c.s.initializers) == Ok(t.initializers)
    && ReadFunctions(t.mem, t.ram, base, c.image.finiArray, c.s.finalizers) == Ok(t.finalizers)
  }

  lemma {:induction false} ReadArraysStages(s: Snapshot, base: u64, image: Image, t: Snapshot)
    requires ReadArrays(s, base, image) == (t, Ok(()))
    ensures t == s.(initializers := t.initializers, finalizers := t.finalizers)
    ensures ReadFunctions(s.mem, s.ram, base, image.initArray, s.initializers) == Ok(t.initializers)
    ensures ReadFunctions(s.mem, s.ram, base, image.finiArray, s.finalizers) == Ok(t.finalizers)
  {
  }

  lemma {:induction false} LayoutStages(
    s: Snapshot, page: u64, image: Image, infos: seq<SegmentInfo>, hosts: seq<Option<u64>>, t: Snapshot)
    returns (base: u64)
    requires CopiesAllowed(|s.ram|, image.buffer, infos, hosts)
    requires LoadLayout(s, page, image, infos, hosts) == (t, Ok(()))
    ensures Load(Start(s.mem, s.ram, page, infos, image.buffer, hosts), s.table, s.segments, image.relocs)
            == Loaded(t.mem, t.ram, t.segments, Ok(base))
    ensures t.table == s.table
    ensures ReadFunctions(t.mem, t.ram, base, image.initArray, s.initializers) == Ok(t.initializers)
    ensures ReadFunctions(t.mem, t.ram, base, image.finiArray, s.finalizers) == Ok(t.finalizers)
  {
    var l := Load(Start(s.mem, s.ram, page, infos, image.buffer, hosts), s.table, s.segments, image.relocs);
    base := l.outcome.value;
    ReadArraysStages(s.(mem := l.mem, ram := l.ram, segments := l.segments), base, image, t);
  }

  lemma {:induction false} LaunchStages(c: Launch, t: Snapshot)
    returns (mem: State, infos: seq<SegmentInfo>, base: u64)
    requires c.Allowed() && c.Result() == (t, Ok(()))
    ensures Staged(c, t, mem, infos, base)
  {
    var (table, mem1, built) := BuildIFT(c.s.table, c.s.mem, c.iftHost);
    mem := mem1;
    infos := InfosOf(c.image.headers).value;
    InfosExact(c.image.headers);
    HostsAllowCopies(|c.s.ram|, c.image, c.hosts, infos);
    base := LayoutStages(c.s.(table := table, mem := mem), c.page, c.image, infos, c.hosts, t);
  }

  // ---------- the host's ranges, with the table in memory ----------

  lemma NarrowSize(p: ProgramHeader)
    requires Narrow(p)
    ensures BlockSize(p) == RoundUp(p.memsz, p.align)
  {
  }

  /** The table's block is what buildIFT inserts. */
  lemma TableInserted(t: Table, mem: State, host: Option<u64>, es: seq<Entry>, t2: Table, mem2: State)
    returns (i: nat, b: AllocatedBlock)
    requires Inv(mem) && Shape(t, 0, es) && !t.HasBuiltIFT() && es != []
    requires BuildIFT(t, mem, host) == (t2, mem2, Ok(()))
    ensures i <= |mem.alloc| && mem2.alloc == InsertAt(mem.alloc, i, b)
    ensures host == Some(b.hostBase) && b.size == 4 * |es|
  {
    var args := TableArgs(|es|);
    var a := BuildSteps(t, mem, host, es, t2, mem2, Ok(()));
    CheckedFits(mem, args);
    AllocateEffect(mem, args, host);
    b := a.value;
    i := LowerBound(mem.alloc, AllocatedLess, b);
  }

  /** Every range handed out for a segment is still apart from the live blocks. */
  ghost predicate RangesServe(mem: State, n: nat, ps: seq<ProgramHeader>, hosts: seq<Option<u64>>) {
    && n < U64 && HostDisjoint(mem.alloc) && HostInside(mem.alloc, n) && |hosts| == |ps|
    && forall k :: 0 <= k < |ps| ==> HostRange(mem.alloc, n, hosts[k], RoundUp(ps[k].memsz, ps[k].align))
  }

  lemma RangeStillFree(alloc: seq<AllocatedBlock>, i: nat, b: AllocatedBlock, n: nat, host: Option<u64>, size: nat)
    requires i <= |alloc| && HostRange(alloc, n, host, size) && AnswersApart(Some(b.hostBase), b.size, host, size)
    ensures HostRange(InsertAt(alloc, i, b), n, host, size)
  {
    InsertAtElements(alloc, i, b);
  }

  lemma RangeIsFresh(alloc: seq<AllocatedBlock>, n: nat, host: u64, size: nat)
    requires HostRange(alloc, n, Some(host), size) && size < U64
    ensures HostFresh(alloc, host, size) && host + size <= n
  {
    forall i | 0 <= i < |alloc|
      ensures alloc[i].hostBase + alloc[i].size <= host || host + size <= alloc[i].hostBase
    {
      assert alloc[i] in alloc;
    }
  }

  lemma InsertedInside(alloc: seq<AllocatedBlock>, i: nat, b: AllocatedBlock, n: nat)
    requires i <= |alloc| && HostInside(alloc, n) && b.hostBase + b.size <= n
    ensures HostInside(InsertAt(alloc, i, b), n)
  {
  }

  /** The table's range is one of the host's answers, so the other answers still serve. */
  lemma TableLeavesRanges(c: Launch, es: seq<Entry>, table: Table, mem: State)
    requires Launchable(c, es) && HostServes(c, es)
    requires BuildIFT(c.s.table, c.s.mem, c.iftHost) == (table, mem, Ok(()))
    ensures RangesServe(mem, |c.s.ram|, c.image.headers, c.hosts)
  {
    var ps, alloc, n := c.image.headers, c.s.mem.alloc, |c.s.ram|;
    ShapeCount(c.s.table, 0, es);
    if es != [] {
      var i, b := TableInserted(c.s.table, c.s.mem, c.iftHost, es, table, mem);
      RangeIsFresh(alloc, n, b.hostBase, b.size);
      InsertHostDisjoint(alloc, i, b);
      InsertedInside(alloc, i, b, n);
      forall k | 0 <= k < |ps|
        ensures HostRange(mem.alloc, n, c.hosts[k], RoundUp(ps[k].memsz, ps[k].align))
      {
        RangeStillFree(alloc, i, b, n, c.hosts[k], RoundUp(ps[k].memsz, ps[k].align));
      }
    }
  }

  /** The layouts ask for blocks of the headers' sizes. */
  lemma StartBehaves(c: Launch, es: seq<Entry>, mem: State, infos: seq<SegmentInfo>)
    requires WellFormed(c.image) && HostServes(c, es) && AllLaidOut(c.image.headers, infos)
    requires RangesServe(mem, |c.s.ram|, c.image.headers, c.hosts)
    ensures HostsBehave(StartOf(c, mem, infos))
  {
    var ps, n := c.image.headers, |c.s.ram|;
    forall k | 0 <= k < |ps|
      ensures infos[k].allocSize == RoundUp(ps[k].memsz, ps[k].align)
    {
      NarrowSize(ps[k]);
      assert LaidOut(ps[k], infos[k]);
    }
    forall k | 0 <= k < |ps| && c.hosts[k].Some?
      ensures HostFresh(mem.alloc, c.hosts[k].value, infos[k].allocSize)
      ensures c.hosts[k].value + infos[k].allocSize <= n
    {
      RangeIsFresh(mem.alloc, n, c.hosts[k].value, infos[k].allocSize);
    }
    forall j, k | 0 <= j < k < |ps| && c.hosts[j].Some? && c.hosts[k].Some?
      ensures RangesApart(c.hosts[j].value, infos[j].allocSize, c.hosts[k].value, infos[k].allocSize)
    {
      assert AnswersApart(c.hosts[j], infos[j].allocSize, c.hosts[k], infos[k].allocSize);
    }
  }

  // ---------- the image ----------

  lemma {:induction false} LayoutsFit(image: Image, infos: seq<SegmentInfo>)
    requires WellFormed(image) && AllLaidOut(image.headers, infos)
    ensures InfosFit(infos)
  {
    forall k | 0 <= k < |infos|
      ensures infos[k].memDataOffset + infos[k].fileDataSize <= infos[k].allocSize
    {
      var p := image.headers[k];
      assert LaidOut(p, infos[k]) && Narrow(p) && DataFits(p);
      NarrowSize(p);
    }
  }

  lemma {:induction false} LayoutsSound(image: Image, infos: seq<SegmentInfo>)
    requires WellFormed(image) && AllLaidOut(image.headers, infos)
    ensures Sound(infos, image.relocs)
  {
    LayoutsFit(image, infos);
    forall j | 0 <= j < |image.relocs|
      ensures InFile(infos, image.relocs[j])
    {
      assert InData(image.headers, image.relocs[j]);
      var k, i :| 0 <= k < |image.headers| && 0 <= i && WordOf(image.headers[k], i, image.relocs[j]);
      assert LaidOut(image.headers[k], infos[k]);
      assert WordAt(infos[k], i, image.relocs[j]);
    }
  }

  lemma LayoutsStraight(ps: seq<ProgramHeader>, infos: seq<SegmentInfo>, base: u64)
    requires AllLaidOut(ps, infos) && base <= 0x8000_0000_0000_0000
    requires forall k :: 0 <= k < |ps| ==> Narrow(ps[k])
    ensures Straight(base, infos)
  {
    forall k | 0 <= k < |infos|
      ensures base + infos[k].allocOffset < U64
    {
      assert LaidOut(ps[k], infos[k]) && Narrow(ps[k]);
    }
  }

  /** Memory after buildIFT: the invariant holds, and the table is that of the functions. */
  lemma TableBuilt(c: Launch, es: seq<Entry>, table: Table, mem: State)
    requires Launchable(c, es) && BuildIFT(c.s.table, c.s.mem, c.iftHost) == (table, mem, Ok(()))
    ensures Inv(mem) && Shape(table, table.iftBase, es) && table.vars == c.s.table.vars
  {
    ShapeCount(c.s.table, 0, es);
    if es == [] {
      EmitCallWithoutSlots(c.s.table, c.s.mem, c.iftHost, 0, true);
    } else {
      BuildOutcome(c.s.table, c.s.mem, c.iftHost, es, table, mem, Ok(()));
      BuildShape(c.s.table, c.s.mem, c.iftHost, es, table, mem);
    }
  }

  /** The load of a layout, as the lemmas about loaded images see it. */
  function CaseOf(c: Launch, t: Snapshot, mem: State, infos: seq<SegmentInfo>, base: u64): Case {
    Case(StartOf(c, mem, infos), t.table, c.s.segments, c.image.relocs, base)
  }

  function EndOf(t: Snapshot, base: u64): Loaded {
    Loaded(t.mem, t.ram, t.segments, Ok(base))
  }

  lemma {:induction false} BaseBelow(
    s: Start, t: Table, segments: seq<u64>, relocs: seq<RelocInfo>, base: u64, l: Loaded)
    requires Inv(s.mem) && s.Allowed() && l == Load(s, t, segments, relocs) && l.outcome == Ok(base)
    ensures base <= 0x8000_0000_0000_0000
  {
    LoadFinishes(s, t, segments, relocs, base, l);
    AnswerBelow(s.mem, TotalSize(s.infos, |s.infos|), s.page);
  }

  lemma {:induction false} LaunchLoads(
    c: Launch, es: seq<Entry>, t: Snapshot, mem: State, infos: seq<SegmentInfo>, base: u64)
    requires Launchable(c, es) && WellFormed(c.image) && HostServes(c, es) && Staged(c, t, mem, infos, base)
    ensures Loads(CaseOf(c, t, mem, infos, base), EndOf(t, base))
  {
    TableBuilt(c, es, t.table, mem);
    TableLeavesRanges(c, es, t.table, mem);
    StartBehaves(c, es, mem, infos);
    LayoutsSound(c.image, infos);
    BaseBelow(StartOf(c, mem, infos), t.table, c.s.segments, c.image.relocs, base, EndOf(t, base));
    LayoutsStraight(c.image.headers, infos, base);
  }

  lemma {:induction false} MappedInPlace(
    image: Image, t: Snapshot, s: Start, base: u64, p: ProgramHeader, k: nat, i: nat, v: u64)
    requires s.buffer == image.buffer && k < |s.infos| == |image.headers| && p == image.headers[k]
    requires LaidOut(p, s.infos[k]) && ByteMapped(s, t.mem, t.ram, k, i, v) && v == base + p.vaddr + i
    ensures ByteInPlace(image, t, base, k, i)
  {
    var b :| FileByte(s, k, i, b) && HoldsByte(t.mem, t.ram, v, b);
  }

  lemma {:induction false} RelocatedInPlace(
    image: Image, t: Snapshot, d: Case, l: Loaded, p: ProgramHeader, j: nat, k: nat, i: nat, v: u64)
    requires d.s.buffer == image.buffer && d.t == t.table && d.relocs == image.relocs
    requires l.mem == t.mem && l.ram == t.ram && k < |d.s.infos| == |image.headers| && p == image.headers[k]
    requires LaidOut(p, d.s.infos[k]) && WordRelocated(d, l, j, k, i, v) && v == d.base + d.relocs[j].patchOffset
    ensures WordInPlace(image, t, d.base, j, k, i)
  {
    var w :| FileWord(d.s, k, i, w) && HoldsWord(l.mem, l.ram, v, RelocatedWord(d.t, d.base, d.relocs[j], w));
  }

  /** Where byte i of header k's data lies, by its layout. */
  lemma {:induction false} LaunchAt(d: Case, p: ProgramHeader, k: nat, i: nat, off: nat)
    requires d.base <= 0x8000_0000_0000_0000 && k < |d.s.infos| && LaidOut(p, d.s.infos[k])
    requires Narrow(p) && DataFits(p) && i < p.filesz && off == p.vaddr + i
    ensures d.base + off < U64 && At(d, k, i, off, d.base + off)
  {
  }

  lemma {:induction false} Uncovered(relocs: seq<RelocInfo>, off: nat)
    requires !Relocated(relocs, off)
    ensures forall j :: 0 <= j < |relocs| ==> !InWord(relocs[j], off)
  {
  }

  /** What the lemmas about loaded images say of every file byte and of every relocated word. */
  ghost predicate BytesLoaded(d: Case, l: Loaded) {
    forall k: nat, i: nat, off: nat, v: u64 :: At(d, k, i, off, v) && !Relocated(d.relocs, off) ==>
      ByteMapped(d.s, l.mem, l.ram, k, i, v)
  }

  ghost predicate RelocOf(d: Case, j: nat, k: nat, i: nat, v: u64) {
    && j < |d.relocs| && k < |d.s.infos| && WordAt(d.s.infos[k], i, d.relocs[j])
    && v == d.base + d.relocs[j].patchOffset
  }

  ghost predicate WordsLoaded(d: Case, l: Loaded) {
    forall j: nat, k: nat, i: nat, v: u64 :: RelocOf(d, j, k, i, v) ==> WordRelocated(d, l, j, k, i, v)
  }

  lemma {:induction false} ImageLoaded(d: Case, l: Loaded)
    requires Loads(d, l)
    ensures BytesLoaded(d, l) && WordsLoaded(d, l)
  {
    forall k: nat, i: nat, off: nat, v: u64 | At(d, k, i, off, v) && !Relocated(d.relocs, off)
      ensures ByteMapped(d.s, l.mem, l.ram, k, i, v)
    {
      Uncovered(d.relocs, off);
      LoadedFileByte(d, l, k, i, off, v);
    }
    forall j: nat, k: nat, i: nat, v: u64 | RelocOf(d, j, k, i, v)
      ensures WordRelocated(d, l, j, k, i, v)
    {
      LoadedFileWord(d, l, j, k, i, v);
    }
  }

  /** The headers' layouts, loaded from a start with the image's file. */
  ghost predicate Lays(image: Image, t: Snapshot, d: Case, l: Loaded) {
    && l.mem == t.mem && l.ram == t.ram && d.relocs == image.relocs && d.t == t.table && d.s.buffer == image.buffer
    && AllLaidOut(image.headers, d.s.infos) && d.base <= 0x8000_0000_0000_0000
  }

  lemma {:induction false} LaunchByte(
    image: Image, t: Snapshot, d: Case, l: Loaded, p: ProgramHeader, k: nat, i: nat, off: nat)
    requires BytesLoaded(d, l) && Lays(image, t, d, l) && k < |image.headers| && p == image.headers[k]
    requires Narrow(p) && DataFits(p) && i < p.filesz && off == p.vaddr + i && !Relocated(d.relocs, off)
    ensures ByteInPlace(image, t, d.base, k, i)
  {
    assert LaidOut(p, d.s.infos[k]);
    LaunchAt(d, p, k, i, off);
    MappedInPlace(image, t, d.s, d.base, p, k, i, d.base + off);
  }

  lemma {:induction false} LaunchWord(
    image: Image, t: Snapshot, d: Case, l: Loaded, p: ProgramHeader, j: nat, k: nat, i: nat, off: nat)
    requires WordsLoaded(d, l) && Lays(image, t, d, l) && k < |image.headers| && p == image.headers[k]
    requires Narrow(p) && DataFits(p) && j < |d.relocs| && WordOf(p, i, d.relocs[j]) && off == d.relocs[j].patchOffset
    ensures WordInPlace(image, t, d.base, j, k, i)
  {
    assert LaidOut(p, d.s.infos[k]);
    LaunchAt(d, p, k, i, off);
    assert RelocOf(d, j, k, i, d.base + off);
    RelocatedInPlace(image, t, d, l, p, j, k, i, d.base + off);
  }

  // ---------- the blocks ----------

  /** What a load that ended well has placed and protected. */
  ghost predicate Arranged(s: Start, base: u64, p: Placed, l: Loaded) {
    && |s.hosts| == |s.infos| && HostsGiven(s.hosts, |s.hosts|)
    && Placeable(s.mem, base, s.page, s.infos, |s.infos|)
    && BlocksPlaced(base, s.infos, s.hosts, |s.infos|, p.blocks, p.mem.alloc) && l.segments == Bases(p.blocks)
    && ProtectedExactly(p.mem, base, s.infos, |s.infos|, Protected(l.mem, Ok(())))
  }

  lemma {:induction false} LoadArranges(
    s: Start, t: Table, segments: seq<u64>, relocs: seq<RelocInfo>, base: u64, l: Loaded)
    returns (p: Placed)
    requires Inv(s.mem) && s.Allowed() && l == Load(s, t, segments, relocs) && l.outcome == Ok(base)
    ensures Arranged(s, base, p, l)
  {
    p := s.Placement(base);
    LoadStages(s, t, segments, relocs, base, p, l);
    LoadEndsIn(s, t, segments, relocs, base, p, l);
    PlacementExact(s.mem, base, s.page, s.infos, s.hosts, |s.infos|);
    PlacedProtects(s, base, p, l.mem);
  }

  lemma {:induction false} OwnBase(mem: State, base: u64, page: u64, infos: seq<SegmentInfo>, j: nat, k: nat)
    requires Placeable(mem, base, page, infos, |infos|) && j < |infos| && k < |infos| && j != k
    ensures SegmentBase(base, infos[j]) != SegmentBase(base, infos[k])
  {
    var a, b := infos[if j < k then j else k], infos[if j < k then k else j];
    assert CanPlace(mem, base, page, a) && CanPlace(mem, base, page, b);
    assert RangesApart(SegmentBase(base, a), a.allocSize, SegmentBase(base, b), b.allocSize);
  }

  /** Segment k's block at the end: as it was placed, with its own permissions. */
  lemma {:induction false} ArrangedBlock(s: Start, base: u64, p: Placed, l: Loaded, k: nat) returns (b: AllocatedBlock)
    requires Arranged(s, base, p, l) && k < |s.infos|
    ensures b in l.mem.alloc && s.hosts[k] == Some(b.hostBase) && b.flags == s.infos[k].permissions
    ensures b.virtualBase == SegmentBase(base, s.infos[k]) && b.size == s.infos[k].allocSize
    ensures k < |l.segments| && l.segments[k] == b.virtualBase
  {
    var block := p.blocks[k];
    assert block == BlockAt(base, s.infos[k], s.hosts[k].value) && block in p.mem.alloc;
    var a :| 0 <= a < |p.mem.alloc| && p.mem.alloc[a] == block;
    assert Loading.Reflagged(p.mem.alloc[a], l.mem.alloc[a], base, s.infos, |s.infos|);
    forall j | 0 <= j < |s.infos| && j != k
      ensures SegmentBase(base, s.infos[j]) != SegmentBase(base, s.infos[k])
    {
      OwnBase(s.mem, base, s.page, s.infos, j, k);
    }
    OwnPermissions(block, base, s.infos, |s.infos|, k);
    b := l.mem.alloc[a];
  }

  lemma {:induction false} LaunchBlock(
    c: Launch, t: Snapshot, mem: State, infos: seq<SegmentInfo>, base: u64, p: Placed, k: nat)
    requires Arranged(StartOf(c, mem, infos), base, p, EndOf(t, base)) && AllLaidOut(c.image.headers, infos)
    requires base <= 0x8000_0000_0000_0000 && k < |c.image.headers| && Narrow(c.image.headers[k])
    ensures SegmentInPlace(c, t, base, k)
  {
    var b := ArrangedBlock(StartOf(c, mem, infos), base, p, EndOf(t, base), k);
    assert LaidOut(c.image.headers[k], infos[k]);
    NarrowSize(c.image.headers[k]);
    assert BlockInPlace(c, t, base, k, b);
  }

  // ---------- the main results ----------

  /** The blocks of a binary that was loaded: each segment's is where its header says, with the permissions its header
      asks for. */
  lemma {:induction false} LoadedBlocks(c: Launch, es: seq<Entry>, t: Snapshot, mem: State, infos: seq<SegmentInfo>,
                                        base: u64)
    requires Launchable(c, es) && Staged(c, t, mem, infos, base)
    requires forall k :: 0 <= k < |c.image.headers| ==> Narrow(c.image.headers[k])
    ensures BlocksInPlace(c, t, base)
  {
    TableBuilt(c, es, t.table, mem);
    var start := StartOf(c, mem, infos);
    BaseBelow(start, t.table, c.s.segments, c.image.relocs, base, EndOf(t, base));
    var p := LoadArranges(start, t.table, c.s.segments, c.image.relocs, base, EndOf(t, base));
    forall k | 0 <= k < |c.image.headers|
      ensures SegmentInPlace(c, t, base, k)
    {
      LaunchBlock(c, t, mem, infos, base, p, k);
    }
  }

  lemma {:induction false} FunctionsInPlace(
    t: Snapshot, base: u64, funcs: Option<FuncArray>, before: seq<u64>, fs: seq<u64>)
    requires ReadFunctions(t.mem, t.ram, base, funcs, before) == Ok(fs)
    ensures ArrayInPlace(t, base, funcs, before, fs)
  {
    if funcs.Some? {
      var at := FunctionsInOrder(t.ram, Translate(t.mem, Add(base, funcs.value.offset)).value, funcs.value.size, fs);
    }
  }

  /** The array's first address is allocated and, from there on, all of it lies in host memory. */
  predicate CanRead(mem: State, n: nat, base: u64, funcs: Option<FuncArray>) {
    funcs.Some? ==>
      var addr := Translate(mem, Add(base, funcs.value.offset));
      addr.Ok? && addr.value + 4 * funcs.value.size <= n
  }

  /** What reading an array that cannot be read comes to. */
  ghost function ReadFailure(mem: State, base: u64, funcs: Option<FuncArray>): Outcome<()>
    requires funcs.Some?
  {
    if Add(base, funcs.value.offset) !in Occupied(mem.alloc) then Err(NotFound) else Abort
  }

  ghost predicate FunctionsRead(
    t: Snapshot, base: u64, funcs: Option<FuncArray>, before: seq<u64>, r: Outcome<seq<u64>>)
  {
    if CanRead(t.mem, |t.ram|, base, funcs) then r.Ok? && ArrayInPlace(t, base, funcs, before, r.value)
    else match r
         case Ok(_) => false
         case Err(e) => ReadFailure(t.mem, base, funcs) == Err(e)
         case Abort => ReadFailure(t.mem, base, funcs) == Abort
  }

  lemma {:induction false} ReadFunctionsExact(t: Snapshot, base: u64, funcs: Option<FuncArray>, before: seq<u64>)
    requires Inv(t.mem)
    ensures FunctionsRead(t, base, funcs, before, ReadFunctions(t.mem, t.ram, base, funcs, before))
  {
    if funcs.Some? {
      TranslateExact(t.mem, Add(base, funcs.value.offset));
    }
    if CanRead(t.mem, |t.ram|, base, funcs) {
      FunctionsInPlace(t, base, funcs, before, ReadFunctions(t.mem, t.ram, base, funcs, before).value);
    }
  }

  /** Initializers come from the one array and finalizers from the other. The first that cannot be read ends it; what
      was read before it stays. */
  lemma {:induction false} ReadArraysExact(s: Snapshot, base: u64, image: Image, t: Snapshot, r: Outcome<()>)
    requires Inv(s.mem) && ReadArrays(s, base, image) == (t, r)
    ensures t == s.(initializers := t.initializers, finalizers := t.finalizers)
    ensures if CanRead(s.mem, |s.ram|, base, image.initArray)
            then ArrayInPlace(t, base, image.initArray, s.initializers, t.initializers)
            else t == s && r == ReadFailure(s.mem, base, image.initArray)
    ensures CanRead(s.mem, |s.ram|, base, image.initArray) ==>
              if CanRead(s.mem, |s.ram|, base, image.finiArray)
              then r.Ok? && ArrayInPlace(t, base, image.finiArray, s.finalizers, t.finalizers)
              else t.finalizers == s.finalizers && r == ReadFailure(s.mem, base, image.finiArray)
  {
    ReadFunctionsExact(s, base, image.initArray, s.initializers);
    ReadFunctionsExact(s, base, image.finiArray, s.finalizers);
  }

  lemma {:induction false} LaidFile(c: Launch, t: Snapshot, d: Case, l: Loaded)
    requires WellFormed(c.image) && BytesLoaded(d, l) && WordsLoaded(d, l) && Lays(c.image, t, d, l)
    ensures FileInPlace(c, t, d.base)
  {
    var image := c.image;
    forall k, i | 0 <= k < |image.headers| && 0 <= i < image.headers[k].filesz
                  && !Relocated(image.relocs, image.headers[k].vaddr + i)
      ensures ByteInPlace(image, t, d.base, k, i)
    {
      LaunchByte(image, t, d, l, image.headers[k], k, i, image.headers[k].vaddr + i);
    }
    forall j, k, i | 0 <= j < |image.relocs| && 0 <= k < |image.headers| && 0 <= i
                     && WordOf(image.headers[k], i, image.relocs[j])
      ensures WordInPlace(image, t, d.base, j, k, i)
    {
      LaunchWord(image, t, d, l, image.headers[k], j, k, i, image.relocs[j].patchOffset);
    }
  }

  lemma {:induction false} LoadedFile(c: Launch, es: seq<Entry>, t: Snapshot, mem: State, infos: seq<SegmentInfo>,
                                      base: u64)
    requires Launchable(c, es) && WellFormed(c.image) && HostServes(c, es) && Staged(c, t, mem, infos, base)
    ensures FileInPlace(c, t, base)
  {
    LaunchLoads(c, es, t, mem, infos, base);
    TableBuilt(c, es, t.table, mem);
    BaseBelow(StartOf(c, mem, infos), t.table, c.s.segments, c.image.relocs, base, EndOf(t, base));
    ImageLoaded(CaseOf(c, t, mem, infos, base), EndOf(t, base));
    LaidFile(c, t, CaseOf(c, t, mem, infos, base), EndOf(t, base));
  }

  /** A binary that was loaded: there is a base at which all of it is in place. The file's bytes are at their addresses,
      the relocated words are the file's, relocated once with the table that was built; the blocks are the headers' and
      the functions to call are those of the arrays. */
  lemma {:induction false} LoadedBinary(c: Launch, es: seq<Entry>, t: Snapshot) returns (base: u64)
    requires Launchable(c, es) && WellFormed(c.image) && HostServes(c, es) && c.Result() == (t, Ok(()))
    ensures FileInPlace(c, t, base) && BlocksInPlace(c, t, base) && ArraysInPlace(c, t, base)
    ensures Shape(t.table, t.table.iftBase, es) && t.table.vars == c.s.table.vars
  {
    var mem, infos, at := LaunchStages(c, t);
    base := at;
    TableBuilt(c, es, t.table, mem);
    LoadedFile(c, es, t, mem, infos, base);
    LoadedBlocks(c, es, t, mem, infos, base);
    FunctionsInPlace(t, base, c.image.initArray, c.s.initializers, t.initializers);
    FunctionsInPlace(t, base, c.image.finiArray, c.s.finalizers, t.finalizers);
  }

  /** The word that an entry of a relocation array leaves at its own offset, from the file's word there. */
  ghost predicate EntryInPlace(image: Image, t: Snapshot, base: u64, e: RelEntry, rela: bool,
                               nameOf: nat -> Outcome<string>, f: nat)
  {
    && f + 4 <= |image.buffer| && base + e.offset < U64
    && if e.rtype in {23, 1027} then
         HoldsWord(t.mem, t.ram, base + e.offset,
                   ((if rela && e.addend != 0 then e.addend else ReadWord(image.buffer, f)) + base) % U32)
       else
         && nameOf(e.symbolIndex).Ok? && AddressForSymbol(t.table, nameOf(e.symbolIndex).value).Ok?
         && HoldsWord(t.mem, t.ram, base + e.offset,
                      AddressForSymbol(t.table, nameOf(e.symbolIndex).value).value % U32)
  }

  /** The same from the entries that the relocations were decoded from. */
  lemma {:induction false} LoadedEntry(c: Launch, t: Snapshot, base: u64, j: nat, k: nat, i: nat, e: RelEntry,
                                       rela: bool, nameOf: nat -> Outcome<string>)
    requires FileInPlace(c, t, base) && j < |c.image.relocs| && Decoded(e, rela, nameOf, c.image.relocs[j])
    requires k < |c.image.headers| && i + 4 <= c.image.headers[k].filesz && e.offset == c.image.headers[k].vaddr + i
    ensures EntryInPlace(c.image, t, base, e, rela, nameOf, c.image.headers[k].offset + i)
  {
    assert WordOf(c.image.headers[k], i, c.image.relocs[j]);
    assert WordInPlace(c.image, t, base, j, k, i);
  }
}
