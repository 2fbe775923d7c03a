/** What loading a binary comes to: when it succeeds and, when it does not, with which error. */
module Outcomes {
  import opened Types
  import opened Alignment
  import opened OrderedSet
  import opened Blocks
  import opened Gaps
  import opened Allocator
  import opened AllocatorInvariant
  import opened Allocation
  import opened Lookup
  import opened FreeAddress
  import opened Translation
  import opened Restore
  import opened BridgeTable
  import opened BridgeProofs
  import opened Elf
  import opened Words
  import opened Relocation
  import opened Segments
  import opened Loading
  import opened LoadImage
  import opened FinalImage
  import opened Boot
  import opened BinaryImage

  // ---------- placement ----------

  lemma {:induction false} RefusedNext(
    mem: State, base: u64, page: u64, infos: seq<SegmentInfo>, n: nat, t: State, host: Option<u64>)
    requires n < |infos| && Placeable(mem, base, page, infos, n + 1) && Inv(t) && t.max == mem.max && host.None?
    requires Occupied(t.alloc) == Occupied(mem.alloc) + Claimed(base, infos, n)
    ensures Allocate(t, SegmentArgs(base, page, infos[n]), host).1 == Err(NoHostMemory)
  {
    var info := infos[n];
    SegmentFlags();
    PlaceableNext(mem, base, page, infos, n);
    FreeBetween(mem, base, infos, n, t, SegmentBase(base, info), info.allocSize);
    ForcedExact(t, SegmentArgs(base, page, info), host);
  }

  lemma {:induction false} PlaceableFirst(mem: State, base: u64, page: u64, infos: seq<SegmentInfo>, m: nat, n: nat)
    requires m <= n <= |infos| && Placeable(mem, base, page, infos, n)
    ensures Placeable(mem, base, page, infos, m)
  {
  }

  lemma {:induction false} RefusedAt(
    mem: State, base: u64, page: u64, infos: seq<SegmentInfo>, hosts: seq<Option<u64>>, m: nat, before: Placed,
    p: Placed)
    requires Inv(mem) && m < |infos| == |hosts| && Placeable(mem, base, page, infos, m + 1)
    requires HostsGiven(hosts, m) && hosts[m].None?
    requires before == PlaceFirst(mem, base, page, infos, hosts, m)
    requires p == PlaceOne(before, base, page, infos[m], hosts[m])
    ensures p.outcome == Err(NoHostMemory)
  {
    PlaceableFirst(mem, base, page, infos, m, m + 1);
    PlacementExact(mem, base, page, infos, hosts, m);
    RefusedNext(mem, base, page, infos, m, before.mem, hosts[m]);
  }

  lemma {:induction false} PlacesNext(
    mem: State, base: u64, page: u64, infos: seq<SegmentInfo>, hosts: seq<Option<u64>>, m: nat)
    requires m < |infos| == |hosts|
    ensures PlaceFirst(mem, base, page, infos, hosts, m + 1)
            == PlaceOne(PlaceFirst(mem, base, page, infos, hosts, m), base, page, infos[m], hosts[m])
  {
  }

  lemma FirstRefused(hosts: seq<Option<u64>>, n: nat) returns (m: nat)
    requires n <= |hosts| && !HostsGiven(hosts, n)
    ensures m < n && HostsGiven(hosts, m) && hosts[m].None?
  {
    m := 0;
    while hosts[m].Some?
      invariant m < n && HostsGiven(hosts, m)
      decreases n - m
    {
      m := m + 1;
    }
  }

  lemma {:induction false} RefusedHere(
    mem: State, base: u64, page: u64, infos: seq<SegmentInfo>, hosts: seq<Option<u64>>, m: nat, next: nat)
    requires Inv(mem) && m < next == m + 1 <= |infos| == |hosts| && Placeable(mem, base, page, infos, next)
    requires HostsGiven(hosts, m) && hosts[m].None?
    ensures PlaceFirst(mem, base, page, infos, hosts, next).outcome == Err(NoHostMemory)
  {
    PlacesNext(mem, base, page, infos, hosts, m);
    var before := PlaceFirst(mem, base, page, infos, hosts, m);
    RefusedAt(mem, base, page, infos, hosts, m, before, PlaceOne(before, base, page, infos[m], hosts[m]));
  }

  lemma {:induction false} RefusedFrom(
    mem: State, base: u64, page: u64, infos: seq<SegmentInfo>, hosts: seq<Option<u64>>, m: nat, next: nat, n: nat)
    requires Inv(mem) && m < next == m + 1 <= n <= |infos| == |hosts| && HostsGiven(hosts, m) && hosts[m].None?
    requires Placeable(mem, base, page, infos, next)
    ensures PlaceFirst(mem, base, page, infos, hosts, n).outcome == Err(NoHostMemory)
  {
    RefusedHere(mem, base, page, infos, hosts, m, next);
    FailureSticks(mem, base, page, infos, hosts, next, n);
  }

  /** With room for every segment, placement fails only for the host, and with its error. */
  lemma {:induction false} PlacementRefused(
    mem: State, base: u64, page: u64, infos: seq<SegmentInfo>, hosts: seq<Option<u64>>, n: nat)
    requires Inv(mem) && n <= |infos| == |hosts| && Placeable(mem, base, page, infos, n) && !HostsGiven(hosts, n)
    ensures PlaceFirst(mem, base, page, infos, hosts, n).outcome == Err(NoHostMemory)
  {
    var m := FirstRefused(hosts, n);
    PlaceableFirst(mem, base, page, infos, m + 1, n);
    RefusedFrom(mem, base, page, infos, hosts, m, m + 1, n);
  }

  // ---------- relocation ----------

  /** The only thing that can be missing, once the relocated words are in place. */
  ghost predicate SymbolKnown(t: Table, r: RelocInfo) {
    r.kind.Symbol? ==> r.symbol.Some? && AddressForSymbol(t, r.symbol.value).Ok?
  }

  lemma ApplicableIff(mem: State, t: Table, n: nat, base: u64, r: RelocInfo)
    requires Inv(mem) && HostDisjoint(mem.alloc) && HostInside(mem.alloc, n) && WordInside(mem, PatchAddress(base, r))
    ensures Applicable(mem, t, n, base, r) <==> SymbolKnown(t, r)
    ensures PatchAddress(base, r) in Occupied(mem.alloc)
  {
    WordTranslates(mem, n, PatchAddress(base, r));
    TranslateExact(mem, PatchAddress(base, r));
  }

  lemma {:induction false} UnknownSymbolFails(
    mem: State, t: Table, ram: seq<u8>, base: u64, relocs: seq<RelocInfo>)
    requires Inv(mem) && HostDisjoint(mem.alloc) && HostInside(mem.alloc, |ram|) && WordsInside(mem, base, relocs)
    requires t.HasBuiltIFT() && !SymbolsKnown(t, relocs)
    requires forall j :: 0 <= j < |relocs| && relocs[j].kind.Symbol? ==> relocs[j].symbol.Some?
    ensures Relocate(mem, t, ram, base, relocs).1 == Err(NotFound)
  {
    var m: nat :| m < |relocs| && !SymbolKnown(t, relocs[m]);
    ApplicableIff(mem, t, |ram|, base, relocs[m]);
    var k := FirstFailure(mem, t, |ram|, base, relocs, m);
    ApplicableIff(mem, t, |ram|, base, relocs[k]);
    RelocateFails(mem, t, ram, base, relocs, k);
  }

  // ---------- a load ----------

  ghost predicate Room(mem: State, size: nat, page: u64) {
    exists x :: CanStart(mem, x, size, page)
  }

  /** Every relocation against a symbol says which. */
  ghost predicate SymbolsGiven(relocs: seq<RelocInfo>) {
    forall j :: 0 <= j < |relocs| && relocs[j].kind.Symbol? ==> relocs[j].symbol.Some?
  }

  /** What a load that is placed at a base comes to. */
  lemma {:induction false} UnplacedFails(
    s: Start, t: Table, segments: seq<u64>, relocs: seq<RelocInfo>, base: u64, l: Loaded)
    requires s.Allowed() && Inv(s.mem) && Tiles(s.page, s.infos) && !HostsGiven(s.hosts, |s.hosts|)
    requires CanStart(s.mem, base, SumSizes(s.infos, |s.infos|), s.page)
    requires Query(s) == Ok(base) && l == Load(s, t, segments, relocs)
    ensures l.outcome == Err(NoHostMemory)
  {
    TilesFit(s.mem, s.page, s.infos, base);
    PlacementRefused(s.mem, base, s.page, s.infos, s.hosts, |s.infos|);
    MapFailure(s, base, s.Placement(base), NoHostMemory);
  }

  lemma {:induction false} MapFailure(s: Start, base: u64, p: Placed, e: Error)
    requires s.Allowed() && p == s.Placement(base) && p.outcome == Err(e)
    ensures Map(s, base).outcome == Err(e)
  {
  }

  lemma {:induction false} MappedFinishes(
    s: Start, t: Table, segments: seq<u64>, relocs: seq<RelocInfo>, base: u64, p: Placed, ram: seq<u8>, l: Loaded)
    requires s.Allowed() && Query(s) == Ok(base) && p == s.Placement(base) && p.outcome.Ok?
    requires ram == Map(s, base).ram && l == Load(s, t, segments, relocs)
    ensures Relocate(p.mem, t, ram, base, relocs).1.Err? ==>
              l.outcome == Err(Relocate(p.mem, t, ram, base, relocs).1.error)
  {
    MapOutcome(s, base, p);
  }

  lemma {:induction false} UnknownSymbolStops(
    s: Start, t: Table, segments: seq<u64>, relocs: seq<RelocInfo>, base: u64, l: Loaded)
    requires s.Allowed() && Inv(s.mem) && HostsBehave(s) && HostsGiven(s.hosts, |s.hosts|)
    requires Tiles(s.page, s.infos) && Sound(s.infos, relocs)
    requires Query(s) == Ok(base) && l == Load(s, t, segments, relocs)
    requires t.HasBuiltIFT() && SymbolsGiven(relocs) && !SymbolsKnown(t, relocs)
    ensures l.outcome == Err(NotFound)
  {
    var p, ram := s.Placement(base), Map(s, base).ram;
    TilesPlaced(s.mem, s.page, s.infos, s.hosts, base);
    TilesAreStraight(s, base);
    Settles(s, base, p);
    MapFills(s, base, p);
    RelocWordsInside(s, base, p, relocs);
    UnknownSymbolFails(p.mem, t, ram, base, relocs);
    MappedFinishes(s, t, segments, relocs, base, p, ram, l);
  }

  /** A query without an answer leaves everything as it was. */
  lemma {:induction false} QueryFails(s: Start, t: Table, segments: seq<u64>, relocs: seq<RelocInfo>, e: Error)
    requires s.Allowed() && Query(s) == Err(e)
    ensures Load(s, t, segments, relocs) == Loaded(s.mem, s.ram, segments, Err(e))
  {
  }

  lemma {:induction false} StoppedRelocating(
    s: Start, t: Table, segments: seq<u64>, relocs: seq<RelocInfo>, base: u64, m: Loaded, ram: seq<u8>, r: Outcome<()>)
    requires s.Allowed() && Query(s) == Ok(base) && m == Map(s, base) && m.outcome.Ok?
    requires Relocate(m.mem, t, m.ram, base, relocs) == (ram, r) && !r.Ok?
    ensures Load(s, t, segments, relocs)
            == Loaded(m.mem, ram, m.segments, match r { case Err(e) => Err(e) case _ => Abort })
  {
  }

  /** A load that stops at relocation k: the segments stay placed, listed and unprotected, with the first k relocations
      applied. */
  lemma {:induction false} RelocationStops(
    s: Start, t: Table, segments: seq<u64>, relocs: seq<RelocInfo>, base: u64, p: Placed, ram: seq<u8>, k: nat,
    l: Loaded)
    requires s.Allowed() && Inv(s.mem) && Query(s) == Ok(base) && p == s.Placement(base) && p.outcome.Ok?
    requires Filled(s, p, ram) && FailsAt(p.mem, t, |ram|, base, relocs, k) && l == Load(s, t, segments, relocs)
    ensures l.mem == p.mem && l.segments == Bases(p.blocks)
    ensures l.ram == Relocate(p.mem, t, ram, base, relocs[..k]).0
    ensures l.outcome == match Failure(p.mem, t, base, relocs[k]) { case Err(e) => Err(e) case _ => Abort }
  {
    MapOutcome(s, base, p);
    MapFills(s, base, p);
    PlacementExact(s.mem, base, s.page, s.infos, s.hosts, |s.infos|);
    RelocateFails(p.mem, t, ram, base, relocs, k);
    StoppedRelocating(s, t, segments, relocs, base, Map(s, base), Relocate(p.mem, t, ram, base, relocs[..k]).0,
                      Failure(p.mem, t, base, relocs[k]));
  }

  lemma {:induction false} QueryRoom(s: Start, size: nat, r: Outcome<u64>)
    requires Inv(s.mem) && Tiles(s.page, s.infos) && s.infos != []
    requires size == SumSizes(s.infos, |s.infos|) && r == Query(s)
    ensures r.Ok? <==> Room(s.mem, size, s.page)
    ensures r.Ok? ==> CanStart(s.mem, r.value, size, s.page)
    ensures !r.Ok? ==> r == Err(NoVirtualMemory)
  {
    QueryHolds(s.mem, s.page, s.infos);
    if Room(s.mem, size, s.page) {
      var x :| CanStart(s.mem, x, size, s.page);
    }
  }

  /** What is missing for a layout, if anything: room, then host memory, then a symbol. */
  ghost predicate LoadVerdict(s: Start, t: Table, relocs: seq<RelocInfo>, outcome: Outcome<u64>) {
    if !Room(s.mem, SumSizes(s.infos, |s.infos|), s.page) then outcome == Err(NoVirtualMemory)
    else if !HostsGiven(s.hosts, |s.hosts|) then outcome == Err(NoHostMemory)
    else if !SymbolsKnown(t, relocs) then outcome == Err(NotFound)
    else outcome.Ok?
  }

  lemma {:induction false} AnsweredOutcome(
    s: Start, t: Table, segments: seq<u64>, relocs: seq<RelocInfo>, base: u64, l: Loaded)
    requires s.Allowed() && Inv(s.mem) && HostsBehave(s) && Tiles(s.page, s.infos)
    requires Sound(s.infos, relocs) && t.HasBuiltIFT() && SymbolsGiven(relocs) && l == Load(s, t, segments, relocs)
    requires Query(s) == Ok(base) && CanStart(s.mem, base, SumSizes(s.infos, |s.infos|), s.page)
    ensures LoadVerdict(s, t, relocs, l.outcome)
  {
    assert Room(s.mem, SumSizes(s.infos, |s.infos|), s.page);
    if !HostsGiven(s.hosts, |s.hosts|) {
      UnplacedFails(s, t, segments, relocs, base, l);
    } else if !SymbolsKnown(t, relocs) {
      UnknownSymbolStops(s, t, segments, relocs, base, l);
    } else {
      LoadsAnswered(s, t, segments, relocs, base, l);
    }
  }

  /** A tiled, sound image is refused for want of room, then of host memory, then of a symbol, and for nothing else. */
  lemma {:induction false} LoadOutcome(s: Start, t: Table, segments: seq<u64>, relocs: seq<RelocInfo>, l: Loaded)
    requires s.Allowed() && Inv(s.mem) && HostsBehave(s) && Tiles(s.page, s.infos) && s.infos != []
    requires Sound(s.infos, relocs) && t.HasBuiltIFT() && SymbolsGiven(relocs) && l == Load(s, t, segments, relocs)
    ensures LoadVerdict(s, t, relocs, l.outcome)
  {
    QueryRoom(s, SumSizes(s.infos, |s.infos|), Query(s));
    if Query(s).Ok? {
      AnsweredOutcome(s, t, segments, relocs, Query(s).value, l);
    } else {
      QueryFails(s, t, segments, relocs, NoVirtualMemory);
    }
  }

  // ---------- a binary ----------

  /** The sizes of the first n segments' blocks, added up. */
  function TotalOf(ps: seq<ProgramHeader>, n: nat): nat
    requires n <= |ps|
  {
    if n == 0 then 0 else TotalOf(ps, n - 1) + RoundUp(ps[n - 1].memsz, ps[n - 1].align)
  }

  predicate TileOf(page: u64, p: ProgramHeader, total: nat) {
    var offset, size := RoundDown(p.vaddr, p.align), RoundUp(p.memsz, p.align);
    && size > 0 && ValidAlignment(page) && Multiple(offset, page) && Multiple(size, page) && offset + size <= total
  }

  ghost predicate TilesApart(p: ProgramHeader, q: ProgramHeader) {
    RangesApart(RoundDown(p.vaddr, p.align), RoundUp(p.memsz, p.align),
                RoundDown(q.vaddr, q.align), RoundUp(q.memsz, q.align))
  }

  /** The segments' blocks are whole pages and, in any order, tile the range from 0 to their total size. */
  ghost predicate HeadersTile(page: u64, ps: seq<ProgramHeader>) {
    && TotalOf(ps, |ps|) < U64
    && (forall k :: 0 <= k < |ps| ==> TileOf(page, ps[k], TotalOf(ps, |ps|)))
    && (forall j, k :: 0 <= j < k < |ps| ==> TilesApart(ps[j], ps[k]))
  }

  /** The array lies in the block of some segment. */
  predicate ArrayIn(p: ProgramHeader, a: FuncArray) {
    var offset := RoundDown(p.vaddr, p.align);
    var end := offset + RoundUp(p.memsz, p.align);
    offset <= a.offset < end && a.offset + 4 * a.size <= end
  }

  ghost predicate ArrayInside(ps: seq<ProgramHeader>, funcs: Option<FuncArray>) {
    funcs.Some? ==> exists k :: 0 <= k < |ps| && ArrayIn(ps[k], funcs.value)
  }

  /** A well-formed image of loadable segments that tile, with its arrays in its segments. */
  ghost predicate Complete(c: Launch) {
    && WellFormed(c.image) && AllLoadable(c.image.headers) && c.image.headers != []
    && HeadersTile(c.page, c.image.headers) && SymbolsGiven(c.image.relocs)
    && ArrayInside(c.image.headers, c.image.initArray) && ArrayInside(c.image.headers, c.image.finiArray)
  }

  lemma {:induction false} TotalsAgree(ps: seq<ProgramHeader>, infos: seq<SegmentInfo>, n: nat)
    requires AllLaidOut(ps, infos) && n <= |ps| && forall k :: 0 <= k < |ps| ==> Narrow(ps[k])
    ensures SumSizes(infos, n) == TotalOf(ps, n)
    decreases n
  {
    if n == 0 {
    } else {
      TotalsAgree(ps, infos, n - 1);
      NarrowSize(ps[n - 1]);
      assert LaidOut(ps[n - 1], infos[n - 1]);
    }
  }

  lemma {:induction false} LayoutsTile(page: u64, ps: seq<ProgramHeader>, infos: seq<SegmentInfo>)
    requires AllLaidOut(ps, infos) && HeadersTile(page, ps) && forall k :: 0 <= k < |ps| ==> Narrow(ps[k])
    ensures Tiles(page, infos) && SumSizes(infos, |infos|) == TotalOf(ps, |ps|)
  {
    TotalsAgree(ps, infos, |ps|);
    forall k | 0 <= k < |infos|
      ensures ValidSize(infos[k].allocSize, page) && Multiple(infos[k].allocOffset, page)
      ensures infos[k].allocOffset + infos[k].allocSize <= TotalOf(ps, |ps|)
    {
      NarrowSize(ps[k]);
      assert LaidOut(ps[k], infos[k]) && TileOf(page, ps[k], TotalOf(ps, |ps|));
    }
    forall j, k | 0 <= j < k < |infos|
      ensures RangesApart(infos[j].allocOffset, infos[j].allocSize, infos[k].allocOffset, infos[k].allocSize)
    {
      NarrowSize(ps[j]);
      NarrowSize(ps[k]);
      assert LaidOut(ps[j], infos[j]) && LaidOut(ps[k], infos[k]) && TilesApart(ps[j], ps[k]);
    }
  }

  // ---------- the arrays ----------

  lemma {:induction false} LoadKeepsLength(c: Case, l: Loaded)
    requires Loads(c, l)
    ensures |l.ram| == |c.s.ram|
  {
    var p, ram := InStages(c, l);
    ReadyIsRelocatable(p.mem, c.t, |ram|, c.base, c.relocs);
    RelocateAll(p.mem, c.t, ram, c.base, c.relocs, Patches(p.mem, c.t, |ram|, c.base, c.relocs));
  }

  lemma {:induction false} LoadKeepsInv(c: Case, l: Loaded)
    requires Loads(c, l)
    ensures Inv(l.mem)
  {
    var p, ram := InStages(c, l);
    ReflaggedInv(p.mem, c.base, c.s.infos, |c.s.infos|, Protected(l.mem, Ok(())));
  }

  lemma BlockAddressTranslates(mem: State, b: AllocatedBlock, v: u64)
    requires Inv(mem) && b in mem.alloc && Contains(b, v) && b.hostBase + b.size <= U64
    ensures Translate(mem, v) == Ok(b.hostBase + (v - b.virtualBase))
  {
    var a :| 0 <= a < |mem.alloc| && mem.alloc[a] == b;
    TranslateInBlock(mem, a, v);
  }

  /** An array inside a live block whose host range is inside host memory can be read. */
  lemma {:induction false} ReadableInBlock(
    mem: State, ram: seq<u8>, base: u64, funcs: Option<FuncArray>, before: seq<u64>, b: AllocatedBlock)
    requires Inv(mem) && funcs.Some? && b in mem.alloc && b.hostBase + b.size <= |ram| < U64
    requires base + funcs.value.offset < U64 && b.virtualBase <= base + funcs.value.offset < b.End()
    requires base + funcs.value.offset + 4 * funcs.value.size <= b.End()
    ensures ReadFunctions(mem, ram, base, funcs, before).Ok?
  {
    var v := base + funcs.value.offset;
    BlockAddressTranslates(mem, b, v);
    assert v + 4 * funcs.value.size <= b.End();
  }

  lemma {:induction false} ArrayReadable(
    c: Launch, t: Snapshot, base: u64, k: nat, funcs: Option<FuncArray>, before: seq<u64>)
    requires Inv(t.mem) && |t.ram| == |c.s.ram| < U64 && base <= 0x8000_0000_0000_0000 && SegmentInPlace(c, t, base, k)
    requires k < |c.image.headers| && Narrow(c.image.headers[k]) && k < |c.hosts|
    requires HostRange(c.s.mem.alloc, |c.s.ram|, c.hosts[k],
                       RoundUp(c.image.headers[k].memsz, c.image.headers[k].align))
    requires funcs.Some? && ArrayIn(c.image.headers[k], funcs.value)
    ensures ReadFunctions(t.mem, t.ram, base, funcs, before).Ok?
  {
    var b :| BlockInPlace(c, t, base, k, b);
    ReadableInBlock(t.mem, t.ram, base, funcs, before, b);
  }

  lemma {:induction false} ReadArraysSucceeds(s: Snapshot, base: u64, image: Image)
    requires ReadFunctions(s.mem, s.ram, base, image.initArray, s.initializers).Ok?
    requires ReadFunctions(s.mem, s.ram, base, image.finiArray, s.finalizers).Ok?
    ensures ReadArrays(s, base, image).1.Ok?
  {
  }

  /** The snapshot between the segments and the arrays. */
  function Midway(c: Launch, table: Table, l: Loaded): Snapshot {
    c.s.(table := table, mem := l.mem, ram := l.ram, segments := l.segments)
  }

  lemma {:induction false} ArraySucceeds(
    c: Launch, es: seq<Entry>, d: Case, l: Loaded, base: u64, t: Snapshot, p: Placed, mem: State,
    funcs: Option<FuncArray>, before: seq<u64>)
    requires Complete(c) && HostServes(c, es) && ArrayInside(c.image.headers, funcs)
    requires Loads(d, l) && d.s == StartOf(c, mem, d.s.infos) && base == d.base <= 0x8000_0000_0000_0000
    requires Arranged(d.s, base, p, l) && AllLaidOut(c.image.headers, d.s.infos) && l.outcome == Ok(base)
    requires t.mem == l.mem && t.ram == l.ram && t.segments == l.segments
    ensures ReadFunctions(t.mem, t.ram, base, funcs, before).Ok?
  {
    if funcs.Some? {
      LoadKeepsLength(d, l);
      LoadKeepsInv(d, l);
      var k :| 0 <= k < |c.image.headers| && ArrayIn(c.image.headers[k], funcs.value);
      LaunchBlock(c, t, mem, d.s.infos, base, p, k);
      ArrayReadable(c, t, base, k, funcs, before);
    }
  }

  /** What a layout comes to, from what its segments come to. */
  lemma {:induction false} LayoutOutcome(
    s: Snapshot, page: u64, image: Image, infos: seq<SegmentInfo>, hosts: seq<Option<u64>>, l: Loaded)
    requires CopiesAllowed(|s.ram|, image.buffer, infos, hosts)
    requires l == Load(Start(s.mem, s.ram, page, infos, image.buffer, hosts), s.table, s.segments, image.relocs)
    ensures var r := LoadLayout(s, page, image, infos, hosts).1;
            match l.outcome
            case Err(e) => r == Err(e)
            case Abort => r == Abort
            case Ok(base) =>
              r == ReadArrays(s.(mem := l.mem, ram := l.ram, segments := l.segments), base, image).1
  {
  }

  lemma {:induction false} BinaryToLayout(
    c: Launch, table: Table, mem: State, infos: seq<SegmentInfo>, t: Snapshot, r: Outcome<()>)
    requires c.Allowed() && c.Result() == (t, r)
    requires BuildIFT(c.s.table, c.s.mem, c.iftHost) == (table, mem, Ok(()))
    requires InfosOf(c.image.headers) == Ok(infos)
    ensures CopiesAllowed(|c.s.ram|, c.image.buffer, infos, c.hosts)
    ensures (t, r) == LoadLayout(c.s.(table := table, mem := mem), c.page, c.image, infos, c.hosts)
  {
    HostsAllowCopies(|c.s.ram|, c.image, c.hosts, infos);
  }

  /** The symbols that the relocations name are registered. */
  ghost predicate SymbolsRegistered(t: Table, es: seq<Entry>, relocs: seq<RelocInfo>) {
    forall j :: 0 <= j < |relocs| && relocs[j].kind.Symbol? && relocs[j].symbol.Some? ==>
      Registered(t, es, relocs[j].symbol.value)
  }

  lemma RegisteredIsKnown(t: Table, es: seq<Entry>, relocs: seq<RelocInfo>)
    requires Shape(t, t.iftBase, es) && t.HasBuiltIFT() && SymbolsGiven(relocs)
    ensures SymbolsKnown(t, relocs) <==> SymbolsRegistered(t, es, relocs)
  {
    forall j | 0 <= j < |relocs| && relocs[j].kind.Symbol?
      ensures AddressForSymbol(t, relocs[j].symbol.value).Ok? <==> Registered(t, es, relocs[j].symbol.value)
    {
      AddressExact(t, es, relocs[j].symbol.value);
    }
  }

  lemma NullBlockBuilds(c: Launch, es: seq<Entry>, table: Table, mem: State)
    requires Launchable(c, es) && 0 in Occupied(c.s.mem.alloc)
    requires BuildIFT(c.s.table, c.s.mem, c.iftHost) == (table, mem, Ok(()))
    ensures table.HasBuiltIFT()
  {
    SentinelExact(c.s.table, c.s.mem, c.iftHost, es, table, mem);
  }

  /** The start that the layouts of a complete image give. */
  ghost predicate Prepared(c: Launch, es: seq<Entry>, table: Table, mem: State, infos: seq<SegmentInfo>) {
    var s := StartOf(c, mem, infos);
    && s.Allowed() && Inv(mem) && HostsBehave(s) && Tiles(c.page, infos) && infos != []
    && SumSizes(infos, |infos|) == TotalOf(c.image.headers, |c.image.headers|)
    && Sound(infos, c.image.relocs) && table.HasBuiltIFT() && Shape(table, table.iftBase, es)
    && table.vars == c.s.table.vars && AllLaidOut(c.image.headers, infos)
  }

  lemma {:induction false} Prepares(
    c: Launch, es: seq<Entry>, table: Table, mem: State, infos: seq<SegmentInfo>)
    requires Launchable(c, es) && HostServes(c, es) && Complete(c) && 0 in Occupied(c.s.mem.alloc)
    requires BuildIFT(c.s.table, c.s.mem, c.iftHost) == (table, mem, Ok(()))
    requires AllLaidOut(c.image.headers, infos) && StartOf(c, mem, infos).Allowed()
    ensures Prepared(c, es, table, mem, infos)
  {
    TableBuilt(c, es, table, mem);
    TableLeavesRanges(c, es, table, mem);
    StartBehaves(c, es, mem, infos);
    LayoutsSound(c.image, infos);
    LayoutsTile(c.page, c.image.headers, infos);
    NullBlockBuilds(c, es, table, mem);
  }

  lemma {:induction false} ArraysSucceed(
    c: Launch, es: seq<Entry>, table: Table, mem: State, infos: seq<SegmentInfo>, l: Loaded, base: u64)
    requires Complete(c) && HostServes(c, es) && Prepared(c, es, table, mem, infos)
    requires HostsGiven(c.hosts, |c.hosts|) && SymbolsKnown(table, c.image.relocs)
    requires l == Load(StartOf(c, mem, infos), table, c.s.segments, c.image.relocs) && l.outcome == Ok(base)
    ensures ReadArrays(Midway(c, table, l), base, c.image).1.Ok?
  {
    var s, t := StartOf(c, mem, infos), Midway(c, table, l);
    BaseBelow(s, table, c.s.segments, c.image.relocs, base, l);
    LoadFinishes(s, table, c.s.segments, c.image.relocs, base, l);
    LoadsAnswered(s, table, c.s.segments, c.image.relocs, base, l);
    var p := LoadArranges(s, table, c.s.segments, c.image.relocs, base, l);
    var d := Case(s, table, c.s.segments, c.image.relocs, base);
    ArraySucceeds(c, es, d, l, base, t, p, mem, c.image.initArray, c.s.initializers);
    ArraySucceeds(c, es, d, l, base, t, p, mem, c.image.finiArray, c.s.finalizers);
    ReadArraysSucceeds(t, base, c.image);
  }

  /** What is missing, if anything: room for the segments, then host memory, then a symbol. */
  ghost predicate Verdict(c: Launch, es: seq<Entry>, mem: State, r: Outcome<()>) {
    if !Room(mem, TotalOf(c.image.headers, |c.image.headers|), c.page) then r == Err(NoVirtualMemory)
    else if !HostsGiven(c.hosts, |c.hosts|) then r == Err(NoHostMemory)
    else if !SymbolsRegistered(c.s.table, es, c.image.relocs) then r == Err(NotFound)
    else r.Ok?
  }

  lemma {:induction false} PreparedOutcome(
    c: Launch, es: seq<Entry>, table: Table, mem: State, infos: seq<SegmentInfo>, l: Loaded, r: Outcome<()>)
    requires Complete(c) && HostServes(c, es) && Prepared(c, es, table, mem, infos)
    requires l == Load(StartOf(c, mem, infos), table, c.s.segments, c.image.relocs)
    requires match l.outcome
             case Err(e) => r == Err(e)
             case Abort => r == Abort
             case Ok(base) => r == ReadArrays(Midway(c, table, l), base, c.image).1
    ensures Verdict(c, es, mem, r)
  {
    RegisteredIsKnown(table, es, c.image.relocs);
    LoadOutcome(StartOf(c, mem, infos), table, c.s.segments, c.image.relocs, l);
    if l.outcome.Ok? {
      ArraysSucceed(c, es, table, mem, infos, l, l.outcome.value);
    }
  }

  /** With the table built and a null block held, a complete image is loaded if and only if there is room for it, the
      host serves every segment and every symbol it names is registered; otherwise the first of these that fails is the
      error. mem is memory with the table in it. */
  lemma {:induction false} BinaryOutcome(
    c: Launch, es: seq<Entry>, table: Table, mem: State, t: Snapshot, r: Outcome<()>)
    requires Launchable(c, es) && HostServes(c, es) && Complete(c) && 0 in Occupied(c.s.mem.alloc)
    requires BuildIFT(c.s.table, c.s.mem, c.iftHost) == (table, mem, Ok(())) && c.Result() == (t, r)
    ensures Verdict(c, es, mem, r)
  {
    InfosExact(c.image.headers);
    var infos := InfosOf(c.image.headers).value;
    BinaryToLayout(c, table, mem, infos, t, r);
    Prepares(c, es, table, mem, infos);
    var l := Load(StartOf(c, mem, infos), table, c.s.segments, c.image.relocs);
    LayoutOutcome(c.s.(table := table, mem := mem), c.page, c.image, infos, c.hosts, l);
    PreparedOutcome(c, es, table, mem, infos, l, r);
  }

  lemma RoomForTable(mem: State, n: nat)
    ensures Room(mem, 4 * n, 4) <==> exists x :: CanStart(mem, x, n * ENTRY_SIZE, 4)
  {
    assert 4 * n == n * ENTRY_SIZE;
  }

  /** Why the table cannot be built, and what is left then. */
  lemma TableOutcome(c: Launch, es: seq<Entry>, table: Table, mem: State, built: Outcome<()>)
    requires Launchable(c, es) && BuildIFT(c.s.table, c.s.mem, c.iftHost) == (table, mem, built)
    ensures built.Ok? <==> es == [] || (c.iftHost.Some? && Room(c.s.mem, 4 * |es|, 4))
    ensures !built.Ok? ==> built == Err(if Room(c.s.mem, 4 * |es|, 4) then NoHostMemory else NoVirtualMemory)
    ensures !built.Ok? ==> table == c.s.table && mem == c.s.mem
  {
    RoomForTable(c.s.mem, |es|);
    if es == [] {
      EmitCallWithoutSlots(c.s.table, c.s.mem, c.iftHost, 0, true);
    } else {
      BuildOutcome(c.s.table, c.s.mem, c.iftHost, es, table, mem, built);
    }
  }

  lemma {:induction false} UnbuiltStops(c: Launch, built: Outcome<()>)
    requires c.Allowed() && BuildIFT(c.s.table, c.s.mem, c.iftHost) == (c.s.table, c.s.mem, built) && !built.Ok?
    ensures c.Result() == (c.s, built)
  {
  }

  lemma {:induction false} BadHeaderStops(c: Launch, table: Table, mem: State, e: Error)
    requires c.Allowed() && BuildIFT(c.s.table, c.s.mem, c.iftHost) == (table, mem, Ok(()))
    requires InfosOf(c.image.headers) == Err(e)
    ensures c.Result() == (c.s.(table := table, mem := mem), Err(e))
  {
  }

  /** A load that does not get as far as its segments: the table cannot be built, for want of room or of host memory,
      and nothing has changed; or a header is not loadable, and only the table has been built. */
  lemma {:induction false} BinaryRefused(
    c: Launch, es: seq<Entry>, table: Table, mem: State, built: Outcome<()>, t: Snapshot, r: Outcome<()>)
    requires Launchable(c, es) && c.Result() == (t, r)
    requires BuildIFT(c.s.table, c.s.mem, c.iftHost) == (table, mem, built)
    ensures built.Ok? <==> es == [] || (c.iftHost.Some? && Room(c.s.mem, 4 * |es|, 4))
    ensures !built.Ok? ==> t == c.s && r == Err(if Room(c.s.mem, 4 * |es|, 4) then NoHostMemory else NoVirtualMemory)
    ensures built.Ok? && !AllLoadable(c.image.headers) ==>
              && t == c.s.(table := table, mem := mem)
              && exists k: nat :: FirstBad(c.image.headers, k) && r == Err(HeaderError(c.image.headers[k]))
  {
    TableOutcome(c, es, table, mem, built);
    InfosExact(c.image.headers);
    AllOrFirstBad(c.image.headers, InfosOf(c.image.headers));
    if !built.Ok? {
      UnbuiltStops(c, built);
    } else if !AllLoadable(c.image.headers) {
      BadHeaderStops(c, table, mem, InfosOf(c.image.headers).error);
    }
  }

  // ---------- for one ----------

  /** A machine of 64 bytes that holds a null block of 4. */
  const SMALL_MEMORY := State(64, 4, [AllocatedBlock(0, 0, 4, 0)], [FreeBlock(4, 60)])

  /** One readable and executable segment of four file bytes, which hold one relative word, in a block of 8. */
  const SMALL_IMAGE :=
    Image([ProgramHeader(5, 0, 0, 4, 8, 4)], [1, 2, 3, 4], [RelocInfo(0, 0, Relative, None)], None, None)

  const SMALL_LAUNCH :=
    Launch(Snapshot(SMALL_MEMORY, EMPTY, seq(16, _ => 0), [], [], []), 4, SMALL_IMAGE, None, [Some(4)])

  lemma SmallMemory()
    ensures Inv(SMALL_MEMORY) && 0 in Occupied(SMALL_MEMORY.alloc) && CanStart(SMALL_MEMORY, 4, 8, 4)
  {
    var s := SMALL_MEMORY;
    assert SumAllocated(s.alloc) == 4;
    GapListExact(s.alloc, 0, 64);
    assert s.alloc[1..] == [];
    assert GapList(s.alloc, 0, 64) == s.free;
    assert s.alloc[0].virtualBase <= 0 < s.alloc[0].End();
    BlockRangeFree(s, s.free[0], 4, 8);
  }

  lemma SmallHeader()
    ensures var p := SMALL_IMAGE.headers[0];
            && Narrow(p) && DataFits(p) && Loadable(p) && TileOf(4, p, 8) && WordOf(p, 0, SMALL_IMAGE.relocs[0])
            && RoundDown(p.vaddr, p.align) == 0 && RoundUp(p.memsz, p.align) == 8
  {
    FourIsAPower();
    AllocationExact(SMALL_IMAGE.headers[0]);
  }

  lemma SmallComplete()
    ensures Complete(SMALL_LAUNCH) && TotalOf(SMALL_IMAGE.headers, 1) == 8
  {
    SmallHeader();
    assert TotalOf(SMALL_IMAGE.headers, 0) == 0;
    assert InData(SMALL_IMAGE.headers, SMALL_IMAGE.relocs[0]);
  }

  lemma OneBlockApart(b: AllocatedBlock, n: nat, host: u64, size: nat)
    requires b.hostBase + b.size <= host && host + size <= n < U64
    ensures HostDisjoint([b]) && HostInside([b], n) && HostRange([b], n, Some(host), size)
  {
  }

  lemma SmallServed()
    ensures HostServes(SMALL_LAUNCH, []) && HostsGiven(SMALL_LAUNCH.hosts, 1)
  {
    SmallHeader();
    assert |SMALL_LAUNCH.s.ram| == 16;
    OneBlockApart(AllocatedBlock(0, 0, 4, 0), 16, 4, 8);
  }

  lemma SmallAllowed()
    ensures SMALL_LAUNCH.Allowed()
  {
    assert |SMALL_LAUNCH.s.ram| == 16;
    assert CopyAllowed(16, SMALL_IMAGE, SMALL_IMAGE.headers[0], 4);
  }

  lemma LaunchableWithoutFunctions(c: Launch, mem: State)
    requires c.s.mem == mem && Inv(mem) && c.s.table == EMPTY && c.Allowed()
    ensures Launchable(c, [])
  {
    EmptyShape();
  }

  /** It is loaded, so all that is said of loaded binaries applies to it. */
  lemma {:induction false} SmallBinaryLoads()
    ensures SMALL_LAUNCH.Allowed() && SMALL_LAUNCH.Result().1.Ok?
  {
    var c := SMALL_LAUNCH;
    SmallMemory();
    SmallComplete();
    SmallServed();
    SmallAllowed();
    LaunchableWithoutFunctions(c, SMALL_MEMORY);
    EmitCallWithoutSlots(EMPTY, SMALL_MEMORY, None, 0, true);
    var (table, mem, built) := BuildIFT(EMPTY, SMALL_MEMORY, None);
    BinaryOutcome(c, [], table, mem, c.Result().0, c.Result().1);
  }
}
