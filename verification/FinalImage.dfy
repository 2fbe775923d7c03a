/** The image a load leaves behind, byte by byte and word by word, and the same image at two bases. */
module FinalImage {
  import opened Types
  import opened Alignment
  import opened OrderedSet
  import opened Blocks
  import opened Gaps
  import opened Allocator
  import opened AllocatorInvariant
  import opened Allocation
  import opened Lookup
  import opened Freeing
  import opened Translation
  import opened BridgeTable
  import opened BridgeProofs
  import opened Elf
  import opened Words
  import opened Relocation
  import opened Segments
  import opened Loading
  import opened LoadImage

  // ---------- host ranges ----------

  /** The host allocator hands out ranges inside host memory that overlap neither live blocks nor each other. */
  ghost predicate HostsBehave(s: Start) {
    && |s.hosts| == |s.infos| && |s.ram| < U64 && HostDisjoint(s.mem.alloc) && HostInside(s.mem.alloc, |s.ram|)
    && (forall k :: 0 <= k < |s.hosts| && s.hosts[k].Some? ==>
          && HostFresh(s.mem.alloc, s.hosts[k].value, s.infos[k].allocSize)
          && s.hosts[k].value + s.infos[k].allocSize <= |s.ram|)
    && (forall j, k :: 0 <= j < k < |s.hosts| && s.hosts[j].Some? && s.hosts[k].Some? ==>
          RangesApart(s.hosts[j].value, s.infos[j].allocSize, s.hosts[k].value, s.infos[k].allocSize))
  }

  /** An old block, or the block of some segment, in the host range that was handed out for it. */
  ghost predicate Known(s: Start, base: u64, b: AllocatedBlock)
    requires |s.hosts| == |s.infos|
  {
    b in s.mem.alloc || exists k :: 0 <= k < |s.infos| && OnHost(s, base, k, b)
  }

  predicate OnHost(s: Start, base: u64, k: nat, b: AllocatedBlock)
    requires k < |s.infos| == |s.hosts|
  {
    s.hosts[k].Some? && b == BlockAt(base, s.infos[k], s.hosts[k].value)
  }

  lemma OldApart(alloc: seq<AllocatedBlock>, b: AllocatedBlock, c: AllocatedBlock)
    requires HostDisjoint(alloc) && b in alloc && c in alloc && b != c
    ensures HostApart(b, c)
  {
    var i :| 0 <= i < |alloc| && alloc[i] == b;
    var j :| 0 <= j < |alloc| && alloc[j] == c;
    IndexApart(alloc, i, j);
  }

  lemma OldNewApart(s: Start, base: u64, b: AllocatedBlock, c: AllocatedBlock, k: nat)
    requires HostsBehave(s) && b in s.mem.alloc && k < |s.infos| && OnHost(s, base, k, c)
    ensures HostApart(b, c)
  {
    var i :| 0 <= i < |s.mem.alloc| && s.mem.alloc[i] == b;
  }

  lemma NewApart(s: Start, base: u64, b: AllocatedBlock, j: nat, c: AllocatedBlock, k: nat)
    requires HostsBehave(s) && j < |s.infos| && k < |s.infos| && b != c
    requires OnHost(s, base, j, b) && OnHost(s, base, k, c)
    ensures HostApart(b, c)
  {
    var a, d := s.hosts[j].value, s.hosts[k].value;
    assert j < k ==> RangesApart(a, s.infos[j].allocSize, d, s.infos[k].allocSize);
    assert k < j ==> RangesApart(d, s.infos[k].allocSize, a, s.infos[j].allocSize);
  }

  lemma KnownApart(s: Start, base: u64, b: AllocatedBlock, c: AllocatedBlock)
    requires HostsBehave(s) && Known(s, base, b) && Known(s, base, c) && b != c
    ensures HostApart(b, c)
  {
    if b in s.mem.alloc && c in s.mem.alloc {
      OldApart(s.mem.alloc, b, c);
    } else if b in s.mem.alloc {
      var k :| 0 <= k < |s.infos| && OnHost(s, base, k, c);
      OldNewApart(s, base, b, c, k);
    } else if c in s.mem.alloc {
      var j :| 0 <= j < |s.infos| && OnHost(s, base, j, b);
      OldNewApart(s, base, c, b, j);
    } else {
      var j :| 0 <= j < |s.infos| && OnHost(s, base, j, b);
      var k :| 0 <= k < |s.infos| && OnHost(s, base, k, c);
      NewApart(s, base, b, j, c, k);
    }
  }

  lemma KnownInside(s: Start, base: u64, b: AllocatedBlock)
    requires HostsBehave(s) && Known(s, base, b)
    ensures b.hostBase + b.size <= |s.ram|
  {
    if b in s.mem.alloc {
      var i :| 0 <= i < |s.mem.alloc| && s.mem.alloc[i] == b;
    }
  }

  lemma {:induction false} UnlistedStays(alloc: seq<AllocatedBlock>, bases: set<u64>, b: AllocatedBlock)
    requires b in alloc && b.virtualBase !in bases
    ensures b in Without(alloc, bases)
  {
    if alloc[0] == b {
    } else {
      UnlistedStays(alloc[1..], bases, b);
    }
  }

  lemma SameBaseSameBlock(alloc: seq<AllocatedBlock>, max: nat, b: AllocatedBlock, c: AllocatedBlock)
    requires Layout(alloc, 0, max) && b in alloc && c in alloc && b.virtualBase == c.virtualBase
    ensures b == c
  {
  }

  /** After placement there are old blocks and segments' blocks, and no others. */
  lemma {:induction false} PlacedKnown(s: Start, base: u64, p: Placed, b: AllocatedBlock)
    requires |s.hosts| == |s.infos| && HostsGiven(s.hosts, |s.hosts|)
    requires Between(s.mem, base, s.infos, s.hosts, |s.infos|, p) && b in p.mem.alloc
    ensures Known(s, base, b)
  {
    var bases := SegmentBases(base, s.infos, |s.infos|);
    if b.virtualBase in bases {
      var k :| 0 <= k < |bases| && bases[k] == b.virtualBase;
      SameBaseSameBlock(p.mem.alloc, p.mem.max, b, p.blocks[k]);
      assert OnHost(s, base, k, b);
    } else {
      UnlistedStays(p.mem.alloc, Elements(bases), b);
    }
  }

  /** Placement keeps the host ranges of live blocks apart. */
  lemma {:induction false} PlacedHosts(s: Start, base: u64, p: Placed)
    requires HostsBehave(s) && Inv(s.mem) && p == s.Placement(base) && p.outcome.Ok?
    ensures HostDisjoint(p.mem.alloc) && HostInside(p.mem.alloc, |s.ram|)
  {
    PlacementExact(s.mem, base, s.page, s.infos, s.hosts, |s.infos|);
    BetweenHosts(s, base, p);
  }

  lemma {:induction false} BetweenHosts(s: Start, base: u64, p: Placed)
    requires HostsBehave(s) && HostsGiven(s.hosts, |s.hosts|)
    requires Between(s.mem, base, s.infos, s.hosts, |s.infos|, p)
    ensures HostDisjoint(p.mem.alloc) && HostInside(p.mem.alloc, |s.ram|)
  {
    var alloc := p.mem.alloc;
    forall i | 0 <= i < |alloc|
      ensures Known(s, base, alloc[i]) && alloc[i].hostBase + alloc[i].size <= |s.ram|
    {
      PlacedKnown(s, base, p, alloc[i]);
      KnownInside(s, base, alloc[i]);
    }
    forall i, j | 0 <= i < j < |alloc|
      ensures HostApart(alloc[i], alloc[j])
    {
      assert alloc[i].End() <= alloc[j].virtualBase;
      KnownApart(s, base, alloc[i], alloc[j]);
    }
  }

  // ---------- what memory holds ----------

  ghost predicate HoldsByte(mem: State, ram: seq<u8>, v: u64, b: u8) {
    Translate(mem, v).Ok? && Translate(mem, v).value < |ram| && ram[Translate(mem, v).value] == b
  }

  ghost predicate HoldsWord(mem: State, ram: seq<u8>, v: u64, w: u32) {
    Translate(mem, v).Ok? && Translate(mem, v).value + 4 <= |ram| && ReadWord(ram, Translate(mem, v).value) == w
  }

  lemma SplitJoin(b0: u8, b1: u8, b2: u8, b3: u8)
    ensures var w := JoinBytes(b0, b1, b2, b3);
            WordByte(w, 0) == b0 && WordByte(w, 1) == b1 && WordByte(w, 2) == b2 && WordByte(w, 3) == b3
  {
    var w := JoinBytes(b0, b1, b2, b3);
    DivModUnique(w, 256, b1 + 256 * b2 + 65536 * b3, b0);
    DivModUnique(b1 + 256 * b2 + 65536 * b3, 256, b2 + 256 * b3, b1);
    DivModUnique(b2 + 256 * b3, 256, b3, b2);
  }

  lemma ByteOfWord(ram: seq<u8>, a: nat, o: nat)
    requires a + 4 <= |ram| && o < 4
    ensures WordByte(ReadWord(ram, a), o) == ram[a + o]
  {
    SplitJoin(ram[a], ram[a + 1], ram[a + 2], ram[a + 3]);
  }

  /** The bytes of a word inside a block lie next to each other in host memory too. */
  lemma WordIsContiguous(mem: State, v: u64, o: nat, x: u64)
    requires Inv(mem) && HostDisjoint(mem.alloc) && WordInside(mem, v) && o < 4 && x == v + o
    ensures Translate(mem, v).Ok? && Translate(mem, x).Ok? && Translate(mem, x).value == Translate(mem, v).value + o
  {
    var k :| 0 <= k < |mem.alloc| && Contains(mem.alloc[k], v) && v + 4 <= mem.alloc[k].End();
    TranslateInBlock(mem, k, v);
    TranslateInBlock(mem, k, x);
  }

  lemma WordHoldsByte(mem: State, ram: seq<u8>, v: u64, w: u32, o: nat, x: u64)
    requires Inv(mem) && HostDisjoint(mem.alloc) && WordInside(mem, v)
    requires HoldsWord(mem, ram, v, w) && o < 4 && x == v + o
    ensures HoldsByte(mem, ram, x, WordByte(w, o))
  {
    WordIsContiguous(mem, v, o, x);
    ByteOfWord(ram, Translate(mem, v).value, o);
  }

  // ---------- the image ----------

  /** Byte i of a segment's file data, counted from the image's base. */
  function FileOffset(info: SegmentInfo, i: nat): nat {
    info.allocOffset + info.memDataOffset + i
  }

  /** Each segment's file data fits its allocation. */
  ghost predicate InfosFit(infos: seq<SegmentInfo>) {
    forall k :: 0 <= k < |infos| ==> infos[k].memDataOffset + infos[k].fileDataSize <= infos[k].allocSize
  }

  /** No segment's address wraps around, as none of a 32-bit image does. */
  ghost predicate Straight(base: u64, infos: seq<SegmentInfo>) {
    forall k :: 0 <= k < |infos| ==> base + infos[k].allocOffset < U64
  }

  predicate WordAt(info: SegmentInfo, i: nat, r: RelocInfo) {
    i + 4 <= info.fileDataSize && r.patchOffset == FileOffset(info, i)
  }

  ghost predicate InFile(infos: seq<SegmentInfo>, r: RelocInfo) {
    exists k, i :: 0 <= k < |infos| && 0 <= i && WordAt(infos[k], i, r)
  }

  /** Every relocated word lies in the file data of some segment. */
  ghost predicate RelocsInFile(infos: seq<SegmentInfo>, relocs: seq<RelocInfo>) {
    forall j :: 0 <= j < |relocs| ==> InFile(infos, relocs[j])
  }

  predicate InWord(r: RelocInfo, off: nat) {
    r.patchOffset <= off < r.patchOffset + 4
  }

  ghost predicate RelocsApart(relocs: seq<RelocInfo>) {
    forall i, j :: 0 <= i < j < |relocs| ==>
      relocs[i].patchOffset + 4 <= relocs[j].patchOffset || relocs[j].patchOffset + 4 <= relocs[i].patchOffset
  }

  ghost predicate Sized(blocks: seq<AllocatedBlock>, infos: seq<SegmentInfo>) {
    |blocks| == |infos| && forall k :: 0 <= k < |infos| ==> blocks[k].size == infos[k].allocSize
  }

  /** What a complete placement has established. */
  ghost predicate Settled(s: Start, base: u64, p: Placed) {
    && p.outcome.Ok? && Held(p.mem, base, s.infos, p.blocks) && Sized(p.blocks, s.infos)
    && InfosFit(s.infos) && Straight(base, s.infos)
    && HostDisjoint(p.mem.alloc) && HostInside(p.mem.alloc, |s.ram|) && |s.ram| < U64
  }

  lemma {:induction false} Settles(s: Start, base: u64, p: Placed)
    requires Inv(s.mem) && HostsBehave(s) && InfosFit(s.infos) && Straight(base, s.infos)
    requires p == s.Placement(base) && p.outcome.Ok?
    ensures Settled(s, base, p)
  {
    AllPlaced(s, base, p);
    PlacedSizes(s, base, p);
    PlacedHosts(s, base, p);
  }

  lemma {:induction false} PlacedSizes(s: Start, base: u64, p: Placed)
    requires Inv(s.mem) && |s.hosts| == |s.infos| && p == s.Placement(base) && p.outcome.Ok?
    ensures Sized(p.blocks, s.infos)
  {
    PlacementExact(s.mem, base, s.page, s.infos, s.hosts, |s.infos|);
  }

  /** A file byte lies in its segment's block. */
  lemma FileByteInBlock(s: Start, base: u64, p: Placed, k: nat, i: nat, v: u64)
    requires Settled(s, base, p) && k < |s.infos| && i < s.infos[k].fileDataSize
    requires v == base + FileOffset(s.infos[k], i)
    ensures p.blocks[k] in p.mem.alloc && Contains(p.blocks[k], v)
    ensures v - p.blocks[k].virtualBase == s.infos[k].memDataOffset + i
    ensures v in Occupied(p.mem.alloc)
  {
    var b := p.blocks[k];
    assert b.virtualBase == SegmentBase(base, s.infos[k]) && b in p.mem.alloc;
    var a :| 0 <= a < |p.mem.alloc| && p.mem.alloc[a] == b;
    assert p.mem.alloc[a].virtualBase <= v < p.mem.alloc[a].End();
  }

  lemma FileWordInBlock(s: Start, base: u64, p: Placed, k: nat, r: RelocInfo, i: nat)
    requires Settled(s, base, p) && k < |s.infos| && WordAt(s.infos[k], i, r)
    ensures PatchAddress(base, r) == base + r.patchOffset && base + r.patchOffset + 4 < U64
    ensures WordInside(p.mem, PatchAddress(base, r))
  {
    var b := p.blocks[k];
    assert b.virtualBase == SegmentBase(base, s.infos[k]) && b in p.mem.alloc;
    var a :| 0 <= a < |p.mem.alloc| && p.mem.alloc[a] == b;
    assert p.mem.alloc[a].End() <= p.mem.max;
    assert Contains(p.mem.alloc[a], PatchAddress(base, r)) && PatchAddress(base, r) + 4 <= p.mem.alloc[a].End();
  }

  /** Host memory with every segment's file bytes copied to its block. */
  ghost predicate Filled(s: Start, p: Placed, ram: seq<u8>) {
    && CopiesInside(|s.ram|, s.buffer, p.blocks, s.infos) && |p.blocks| == |s.infos|
    && ram == CopyFirst(s.ram, s.buffer, p.blocks, s.infos, |s.infos|)
  }

  lemma {:induction false} MapIsFilled(s: Start, base: u64, p: Placed)
    requires s.Allowed() && p == s.Placement(base) && p.outcome.Ok?
    ensures Filled(s, p, Map(s, base).ram) && Map(s, base).mem == p.mem
  {
    MapFills(s, base, p);
  }

  lemma SizedFit(s: Start, base: u64, p: Placed)
    requires Settled(s, base, p)
    ensures CopiesFit(p.blocks, s.infos)
    ensures forall k :: 0 <= k < |s.infos| ==> SegmentBase(base, s.infos[k]) == base + s.infos[k].allocOffset
  {
  }

  /** Byte i of segment k in the file. */
  ghost predicate FileByte(s: Start, k: nat, i: nat, b: u8) {
    && k < |s.infos| && i < s.infos[k].fileDataSize && s.infos[k].fileDataOffset + i < |s.buffer|
    && b == s.buffer[s.infos[k].fileDataOffset + i]
  }

  /** A file byte and the guest byte at v are the same. */
  ghost predicate ByteMapped(s: Start, mem: State, ram: seq<u8>, k: nat, i: nat, v: u64) {
    exists b :: FileByte(s, k, i, b) && HoldsByte(mem, ram, v, b)
  }

  lemma {:induction false} CopiedByteMapped(s: Start, mem: State, ram: seq<u8>, k: nat, i: nat, v: u64, host: nat)
    requires k < |s.infos| && i < s.infos[k].fileDataSize && Translate(mem, v) == Ok(host)
    requires SameByteAt(ram, host, s.buffer, s.infos[k].fileDataOffset + i)
    ensures ByteMapped(s, mem, ram, k, i, v)
  {
    assert FileByte(s, k, i, ram[host]) && HoldsByte(mem, ram, v, ram[host]);
  }

  /** The mapped image: every file byte of every segment is found at its guest address, whatever segments came later. */
  lemma {:induction false} MappedByte(s: Start, base: u64, p: Placed, ram: seq<u8>, k: nat, i: nat, v: u64)
    requires Settled(s, base, p) && Filled(s, p, ram)
    requires k < |s.infos| && i < s.infos[k].fileDataSize && v == base + FileOffset(s.infos[k], i)
    ensures ByteMapped(s, p.mem, ram, k, i, v)
  {
    SizedFit(s, base, p);
    var host := p.blocks[k].hostBase + s.infos[k].memDataOffset + i;
    LoadedByte(p.mem, base, s.infos, p.blocks, s.ram, s.buffer, k, i, v, host, s.infos[k].fileDataOffset + i);
    CopiedByteMapped(s, p.mem, ram, k, i, v, host);
  }

  /** The word at byte i of segment k in the file. */
  ghost predicate FileWord(s: Start, k: nat, i: nat, w: u32) {
    && k < |s.infos| && s.infos[k].fileDataOffset + i + 4 <= |s.buffer|
    && w == ReadWord(s.buffer, s.infos[k].fileDataOffset + i)
  }

  ghost predicate WordMapped(s: Start, mem: State, ram: seq<u8>, k: nat, i: nat, v: u64) {
    exists w :: FileWord(s, k, i, w) && HoldsWord(mem, ram, v, w)
  }

  lemma {:induction false} CopiedWordMapped(s: Start, mem: State, ram: seq<u8>, k: nat, i: nat, v: u64, host: nat)
    requires k < |s.infos| && Translate(mem, v) == Ok(host) && host + 4 <= |ram|
    requires s.infos[k].fileDataOffset + i + 4 <= |s.buffer|
    requires ReadWord(ram, host) == ReadWord(s.buffer, s.infos[k].fileDataOffset + i)
    ensures WordMapped(s, mem, ram, k, i, v)
  {
    var w := ReadWord(ram, host);
    assert FileWord(s, k, i, w) && HoldsWord(mem, ram, v, w);
  }

  lemma {:induction false} FilledWord(s: Start, base: u64, p: Placed, ram: seq<u8>, k: nat, i: nat, v: u64)
    requires Held(p.mem, base, s.infos, p.blocks) && HostDisjoint(p.mem.alloc) && CopiesFit(p.blocks, s.infos)
    requires Filled(s, p, ram) && k < |s.infos| && i + 4 <= s.infos[k].fileDataSize
    requires v == SegmentBase(base, s.infos[k]) + (s.infos[k].memDataOffset + i)
    ensures WordMapped(s, p.mem, ram, k, i, v)
  {
    var host := p.blocks[k].hostBase + s.infos[k].memDataOffset + i;
    LoadedWord(p.mem, base, s.infos, p.blocks, s.ram, s.buffer, k, i, v, ram, host, s.infos[k].fileDataOffset + i);
    CopiedWordMapped(s, p.mem, ram, k, i, v, host);
  }

  /** And every word. */
  lemma {:induction false} MappedWord(s: Start, base: u64, p: Placed, ram: seq<u8>, k: nat, i: nat, v: u64)
    requires Settled(s, base, p) && Filled(s, p, ram)
    requires k < |s.infos| && i + 4 <= s.infos[k].fileDataSize && v == base + FileOffset(s.infos[k], i)
    ensures WordMapped(s, p.mem, ram, k, i, v)
  {
    SizedFit(s, base, p);
    FilledWord(s, base, p, ram, k, i, v);
  }

  // ---------- relocation and permissions ----------

  /** Setting permissions does not move anything. */
  lemma {:induction false} ProtectKeepsTranslation(mem: State, base: u64, infos: seq<SegmentInfo>, q: Protected, v: u64)
    requires Inv(mem) && HostDisjoint(mem.alloc) && v in Occupied(mem.alloc)
    requires ProtectedExactly(mem, base, infos, |infos|, q)
    ensures Translate(q.mem, v) == Translate(mem, v)
  {
    ReflaggedInv(mem, base, infos, |infos|, q);
    var k :| 0 <= k < |mem.alloc| && mem.alloc[k].virtualBase <= v < mem.alloc[k].End();
    assert Loading.Reflagged(mem.alloc[k], q.mem.alloc[k], base, infos, |infos|);
    SameRangeSameTranslation(mem, q.mem, k, k, v);
  }

  lemma {:induction false} RelocatedSymbols(mem: State, t: Table, ram: seq<u8>, base: u64, relocs: seq<RelocInfo>)
    requires Relocate(mem, t, ram, base, relocs).1.Ok?
    ensures SymbolsKnown(t, relocs)
  {
    RelocateExact(mem, t, ram, base, relocs);
    forall k | 0 <= k < |relocs| && relocs[k].kind.Symbol?
      ensures relocs[k].symbol.Some? && AddressForSymbol(t, relocs[k].symbol.value).Ok?
    {
      PatchWord(mem, t, base, relocs[k], 0);
    }
  }

  ghost predicate WordsInside(mem: State, base: u64, relocs: seq<RelocInfo>) {
    forall k :: 0 <= k < |relocs| ==> WordInside(mem, PatchAddress(base, relocs[k]))
  }

  lemma {:induction false} RelocWordsInside(s: Start, base: u64, p: Placed, relocs: seq<RelocInfo>)
    requires Settled(s, base, p) && RelocsInFile(s.infos, relocs)
    ensures WordsInside(p.mem, base, relocs)
    ensures forall j :: 0 <= j < |relocs| ==> PatchAddress(base, relocs[j]) == base + relocs[j].patchOffset
  {
    forall j | 0 <= j < |relocs|
      ensures WordInside(p.mem, PatchAddress(base, relocs[j]))
      ensures PatchAddress(base, relocs[j]) == base + relocs[j].patchOffset
    {
      assert InFile(s.infos, relocs[j]);
      var k, i :| 0 <= k < |s.infos| && 0 <= i && WordAt(s.infos[k], i, relocs[j]);
      FileWordInBlock(s, base, p, k, relocs[j], i);
    }
  }

  lemma {:induction false} ApartInGuest(base: u64, relocs: seq<RelocInfo>)
    requires RelocsApart(relocs)
    requires forall j :: 0 <= j < |relocs| ==> PatchAddress(base, relocs[j]) == base + relocs[j].patchOffset
    ensures WordsDisjoint(base, relocs)
  {
  }

  lemma {:induction false} PlacedReady(s: Start, t: Table, base: u64, p: Placed, relocs: seq<RelocInfo>)
    requires Settled(s, base, p) && RelocsInFile(s.infos, relocs) && RelocsApart(relocs) && SymbolsKnown(t, relocs)
    ensures Ready(p.mem, t, |s.ram|, base, relocs) && WordsDisjoint(base, relocs)
  {
    RelocWordsInside(s, base, p, relocs);
    ApartInGuest(base, relocs);
  }

  // ---------- a load that ended well ----------

  /** A load, and the base its image came to lie at. */
  datatype Case = Case(s: Start, t: Table, segments: seq<u64>, relocs: seq<RelocInfo>, base: u64)

  /** An image whose segments fit their allocations and whose relocated words lie apart in its file data. */
  ghost predicate Sound(infos: seq<SegmentInfo>, relocs: seq<RelocInfo>) {
    InfosFit(infos) && RelocsInFile(infos, relocs) && RelocsApart(relocs)
  }

  ghost predicate Loads(c: Case, l: Loaded) {
    && c.s.Allowed() && Inv(c.s.mem) && HostsBehave(c.s) && Sound(c.s.infos, c.relocs) && Straight(c.base, c.s.infos)
    && l == Load(c.s, c.t, c.segments, c.relocs) && l.outcome == Ok(c.base)
  }

  /** The stages behind it: ram is host memory before relocation. */
  ghost predicate Stages(c: Case, p: Placed, ram: seq<u8>, l: Loaded) {
    && Settled(c.s, c.base, p) && Filled(c.s, p, ram)
    && Ready(p.mem, c.t, |ram|, c.base, c.relocs) && WordsDisjoint(c.base, c.relocs)
    && l.ram == Relocate(p.mem, c.t, ram, c.base, c.relocs).0
    && ProtectedExactly(p.mem, c.base, c.s.infos, |c.s.infos|, Protected(l.mem, Ok(())))
  }

  lemma {:induction false} PlacedProtects(s: Start, base: u64, p: Placed, mem: State)
    requires Inv(s.mem) && |s.hosts| == |s.infos| && p == s.Placement(base) && p.outcome.Ok?
    requires mem == ProtectFirst(p.mem, base, s.infos, |s.infos|).mem
    ensures ProtectedExactly(p.mem, base, s.infos, |s.infos|, Protected(mem, Ok(())))
  {
    PlacementExact(s.mem, base, s.page, s.infos, s.hosts, |s.infos|);
    PlacedBasesLive(s.mem, base, s.infos, s.hosts, p);
    ProtectExact(p.mem, base, s.infos, |s.infos|, ProtectFirst(p.mem, base, s.infos, |s.infos|));
  }

  lemma {:induction false} InStages(c: Case, l: Loaded) returns (p: Placed, ram: seq<u8>)
    requires Loads(c, l)
    ensures Stages(c, p, ram, l)
  {
    p, ram := c.s.Placement(c.base), Map(c.s, c.base).ram;
    LoadStages(c.s, c.t, c.segments, c.relocs, c.base, p, l);
    MapIsFilled(c.s, c.base, p);
    Settles(c.s, c.base, p);
    RelocatedSymbols(p.mem, c.t, ram, c.base, c.relocs);
    PlacedReady(c.s, c.t, c.base, p, c.relocs);
    PlacedProtects(c.s, c.base, p, l.mem);
  }

  lemma {:induction false} InFinalMemory(c: Case, p: Placed, ram: seq<u8>, l: Loaded, v: u64)
    requires Stages(c, p, ram, l) && v in Occupied(p.mem.alloc)
    ensures Translate(l.mem, v) == Translate(p.mem, v)
  {
    ProtectKeepsTranslation(p.mem, c.base, c.s.infos, Protected(l.mem, Ok(())), v);
  }

  /** Guest byte v is not part of any relocated word. */
  ghost predicate Untouched(base: u64, relocs: seq<RelocInfo>, v: u64) {
    forall j :: 0 <= j < |relocs| ==> !(PatchAddress(base, relocs[j]) <= v < PatchAddress(base, relocs[j]) + 4)
  }

  lemma {:induction false} RelocationKeepsByte(
    mem: State, t: Table, ram: seq<u8>, base: u64, relocs: seq<RelocInfo>, v: u64, b: u8)
    requires Ready(mem, t, |ram|, base, relocs) && Untouched(base, relocs, v) && v in Occupied(mem.alloc)
    requires HoldsByte(mem, ram, v, b)
    ensures HoldsByte(mem, Relocate(mem, t, ram, base, relocs).0, v, b)
  {
    RestOfImageUnchanged(mem, t, ram, base, relocs, v);
  }

  /** Where file byte i of segment k lies, seen from the image's base. */
  ghost predicate At(c: Case, k: nat, i: nat, off: nat, v: u64) {
    && k < |c.s.infos| && i < c.s.infos[k].fileDataSize && off == FileOffset(c.s.infos[k], i) && v == c.base + off
  }

  lemma {:induction false} FileByteTranslates(
    c: Case, p: Placed, ram: seq<u8>, l: Loaded, k: nat, i: nat, off: nat, v: u64)
    requires Stages(c, p, ram, l) && At(c, k, i, off, v)
    ensures v in Occupied(p.mem.alloc) && Translate(l.mem, v) == Translate(p.mem, v)
  {
    FileByteInBlock(c.s, c.base, p, k, i, v);
    InFinalMemory(c, p, ram, l, v);
  }

  lemma {:induction false} OutsideWords(c: Case, p: Placed, ram: seq<u8>, l: Loaded, off: nat, v: u64)
    requires Stages(c, p, ram, l) && RelocsInFile(c.s.infos, c.relocs) && v == c.base + off
    requires forall j :: 0 <= j < |c.relocs| ==> !InWord(c.relocs[j], off)
    ensures Untouched(c.base, c.relocs, v)
  {
    RelocWordsInside(c.s, c.base, p, c.relocs);
    forall j | 0 <= j < |c.relocs|
      ensures !(PatchAddress(c.base, c.relocs[j]) <= v < PatchAddress(c.base, c.relocs[j]) + 4)
    {
      assert !InWord(c.relocs[j], off);
    }
  }

  /** After a load every file byte outside the relocated words is found at its guest address. */
  lemma {:induction false} LoadedFileByte(c: Case, l: Loaded, k: nat, i: nat, off: nat, v: u64)
    requires Loads(c, l) && At(c, k, i, off, v)
    requires forall j :: 0 <= j < |c.relocs| ==> !InWord(c.relocs[j], off)
    ensures ByteMapped(c.s, l.mem, l.ram, k, i, v)
  {
    var p, ram := InStages(c, l);
    MappedByte(c.s, c.base, p, ram, k, i, v);
    FileByteTranslates(c, p, ram, l, k, i, off, v);
    OutsideWords(c, p, ram, l, off, v);
    var b :| FileByte(c.s, k, i, b) && HoldsByte(p.mem, ram, v, b);
    RelocationKeepsByte(p.mem, c.t, ram, c.base, c.relocs, v, b);
    assert HoldsByte(l.mem, l.ram, v, b);
  }

  /** The word of relocation j is the file's word, relocated. */
  ghost predicate WordRelocated(c: Case, l: Loaded, j: nat, k: nat, i: nat, v: u64) {
    && j < |c.relocs|
    && (c.relocs[j].kind.Symbol? ==> c.relocs[j].symbol.Some? && AddressForSymbol(c.t, c.relocs[j].symbol.value).Ok?)
    && exists w :: FileWord(c.s, k, i, w) && HoldsWord(l.mem, l.ram, v, RelocatedWord(c.t, c.base, c.relocs[j], w))
  }

  lemma {:induction false} RelocationSetsWord(
    mem: State, t: Table, ram: seq<u8>, base: u64, relocs: seq<RelocInfo>, j: nat, v: u64, w: u32)
    requires Ready(mem, t, |ram|, base, relocs) && WordsDisjoint(base, relocs) && j < |relocs|
    requires v == PatchAddress(base, relocs[j]) && HoldsWord(mem, ram, v, w)
    ensures HoldsWord(mem, Relocate(mem, t, ram, base, relocs).0, v, RelocatedWord(t, base, relocs[j], w))
  {
    RelocatedImage(mem, t, ram, base, relocs, j);
  }

  /** Before relocation the word of relocation j is the file's. */
  lemma {:induction false} WordInPlace(c: Case, p: Placed, ram: seq<u8>, l: Loaded, j: nat, k: nat, i: nat, v: u64)
    returns (w: u32)
    requires Stages(c, p, ram, l) && j < |c.relocs| && k < |c.s.infos| && WordAt(c.s.infos[k], i, c.relocs[j])
    requires v == c.base + c.relocs[j].patchOffset
    ensures FileWord(c.s, k, i, w) && HoldsWord(p.mem, ram, v, w) && v == PatchAddress(c.base, c.relocs[j])
  {
    FileWordInBlock(c.s, c.base, p, k, c.relocs[j], i);
    MappedWord(c.s, c.base, p, ram, k, i, v);
    w :| FileWord(c.s, k, i, w) && HoldsWord(p.mem, ram, v, w);
  }

  lemma {:induction false} StageWord(
    c: Case, p: Placed, ram: seq<u8>, l: Loaded, j: nat, k: nat, i: nat, v: u64, w: u32)
    requires Stages(c, p, ram, l) && j < |c.relocs| && v == PatchAddress(c.base, c.relocs[j])
    requires FileWord(c.s, k, i, w) && HoldsWord(p.mem, ram, v, w) && Translate(l.mem, v) == Translate(p.mem, v)
    ensures WordRelocated(c, l, j, k, i, v)
  {
    RelocationSetsWord(p.mem, c.t, ram, c.base, c.relocs, j, v, w);
    assert HoldsWord(l.mem, l.ram, v, RelocatedWord(c.t, c.base, c.relocs[j], w));
  }

  lemma {:induction false} StageFileWord(
    c: Case, p: Placed, ram: seq<u8>, l: Loaded, j: nat, k: nat, i: nat, v: u64)
    requires Stages(c, p, ram, l) && j < |c.relocs| && k < |c.s.infos| && WordAt(c.s.infos[k], i, c.relocs[j])
    requires v == c.base + c.relocs[j].patchOffset
    ensures WordRelocated(c, l, j, k, i, v)
  {
    var w := WordInPlace(c, p, ram, l, j, k, i, v);
    FileByteTranslates(c, p, ram, l, k, i, c.relocs[j].patchOffset, v);
    StageWord(c, p, ram, l, j, k, i, v, w);
  }

  /** After a load every relocated word is the file's word, relocated exactly once. */
  lemma {:induction false} LoadedFileWord(c: Case, l: Loaded, j: nat, k: nat, i: nat, v: u64)
    requires Loads(c, l) && j < |c.relocs| && k < |c.s.infos| && WordAt(c.s.infos[k], i, c.relocs[j])
    requires v == c.base + c.relocs[j].patchOffset
    ensures WordRelocated(c, l, j, k, i, v)
  {
    var p, ram := InStages(c, l);
    StageFileWord(c, p, ram, l, j, k, i, v);
  }

  /** A tiled, sound image with known symbols and a willing host is loaded if and only if it has room, and then all that
      is said of loads that end well applies. */
  lemma {:induction false} LoadsIff(s: Start, t: Table, segments: seq<u64>, relocs: seq<RelocInfo>, l: Loaded)
    requires s.Allowed() && Inv(s.mem) && HostsBehave(s) && HostsGiven(s.hosts, |s.hosts|)
    requires Tiles(s.page, s.infos) && s.infos != [] && Sound(s.infos, relocs) && SymbolsKnown(t, relocs)
    requires l == Load(s, t, segments, relocs)
    ensures l.outcome.Ok? <==> exists x :: CanStart(s.mem, x, SumSizes(s.infos, |s.infos|), s.page)
    ensures l.outcome.Ok? ==> Loads(Case(s, t, segments, relocs, l.outcome.value), l)
  {
    QueryHolds(s.mem, s.page, s.infos);
    var r := Query(s);
    if r.Ok? {
      LoadsAnswered(s, t, segments, relocs, r.value, l);
    }
  }

  lemma {:induction false} LoadsAnswered(
    s: Start, t: Table, segments: seq<u64>, relocs: seq<RelocInfo>, base: u64, l: Loaded)
    requires s.Allowed() && Inv(s.mem) && HostsBehave(s) && HostsGiven(s.hosts, |s.hosts|)
    requires Tiles(s.page, s.infos) && Sound(s.infos, relocs) && SymbolsKnown(t, relocs)
    requires Query(s) == Ok(base) && l == Load(s, t, segments, relocs)
    ensures l.outcome == Ok(base) && Loads(Case(s, t, segments, relocs, base), l)
  {
    var p := s.Placement(base);
    TilesPlaced(s.mem, s.page, s.infos, s.hosts, base);
    TilesAreStraight(s, base);
    Settles(s, base, p);
    PlacedReady(s, t, base, p, relocs);
    ReadyIsRelocatable(p.mem, t, |s.ram|, base, relocs);
    LoadSucceeds(s, t, segments, relocs, base, p);
  }

  lemma TilesAreStraight(s: Start, base: u64)
    requires forall k :: 0 <= k < |s.infos| ==> SegmentBase(base, s.infos[k]) == base + s.infos[k].allocOffset
    ensures Straight(base, s.infos)
  {
  }

  /** For one: a segment of four file bytes that hold one relative word, on a new manager. */
  const SMALL_START := Start(Fresh(16), seq(16, _ => 0), 4, [SegmentInfo(0, 4, 0, 0, 8, 5)], [1, 2, 3, 4], [Some(0)])
  const SMALL_RELOCS := [RelocInfo(0, 0, Relative, None)]

  lemma SmallTiles()
    ensures Tiles(SMALL_START.page, SMALL_START.infos) && SumSizes(SMALL_START.infos, 1) == 8
  {
    FourIsAPower();
    assert SumSizes(SMALL_START.infos, 0) == 0;
    assert Multiple(8, 4) && Multiple(0, 4);
  }

  lemma OneRelative(t: Table, info: SegmentInfo, r: RelocInfo)
    requires info.memDataOffset + info.fileDataSize <= info.allocSize && WordAt(info, 0, r) && r.kind.Relative?
    ensures Sound([info], [r]) && SymbolsKnown(t, [r])
  {
    assert [info][0] == info && [r][0] == r;
  }

  lemma SmallSound()
    ensures Sound(SMALL_START.infos, SMALL_RELOCS) && SymbolsKnown(EMPTY, SMALL_RELOCS)
  {
    OneRelative(EMPTY, SegmentInfo(0, 4, 0, 0, 8, 5), RelocInfo(0, 0, Relative, None));
  }

  lemma SmallHosts()
    ensures SMALL_START.Allowed() && HostsBehave(SMALL_START) && HostsGiven(SMALL_START.hosts, 1)
  {
    assert |SMALL_START.ram| == 16 && SMALL_START.mem.alloc == [];
  }

  lemma {:induction false} SmallImageLoads()
    ensures SMALL_START.Allowed()
    ensures var l := Load(SMALL_START, EMPTY, [], SMALL_RELOCS);
            l.outcome.Ok? && Loads(Case(SMALL_START, EMPTY, [], SMALL_RELOCS, l.outcome.value), l)
  {
    var s := SMALL_START;
    FreshInv(16);
    SmallTiles();
    SmallSound();
    SmallHosts();
    BlockRangeFree(s.mem, FreeBlock(0, 16), 0, 8);
    assert CanStart(s.mem, 0, 8, 4);
    LoadsIff(s, EMPTY, [], SMALL_RELOCS, Load(s, EMPTY, [], SMALL_RELOCS));
  }

  // ---------- the same image at two bases ----------

  /** The same segments, file, relocations and symbols; memory, page size and base may differ. */
  predicate SameImage(c: Case, d: Case) {
    c.s.infos == d.s.infos && c.s.buffer == d.s.buffer && c.relocs == d.relocs && c.t == d.t
  }

  ghost predicate SameByte(l: Loaded, v: u64, m: Loaded, w: u64) {
    exists b :: HoldsByte(l.mem, l.ram, v, b) && HoldsByte(m.mem, m.ram, w, b)
  }

  /** The words at the two addresses differ by the amount. */
  ghost predicate ShiftedWord(l: Loaded, v: u64, m: Loaded, w: u64, amount: int) {
    exists word: u32 :: HoldsWord(l.mem, l.ram, v, word) && HoldsWord(m.mem, m.ram, w, Shifted(word, amount))
  }

  /** The value that a symbol relocation writes. */
  function SymbolWord(t: Table, r: RelocInfo): u32
    requires r.symbol.Some? && AddressForSymbol(t, r.symbol.value).Ok?
  {
    AddressForSymbol(t, r.symbol.value).value % U32
  }

  /** Byte o of relocation j's word is that of the symbol's address. */
  ghost predicate SymbolByteAt(c: Case, l: Loaded, j: nat, o: nat, x: u64) {
    && j < |c.relocs| && c.relocs[j].symbol.Some? && AddressForSymbol(c.t, c.relocs[j].symbol.value).Ok?
    && HoldsByte(l.mem, l.ram, x, WordByte(SymbolWord(c.t, c.relocs[j]), o))
  }

  lemma {:induction false} StageSymbolByte(
    c: Case, p: Placed, ram: seq<u8>, l: Loaded, j: nat, v: u64, w: u32, o: nat, x: u64)
    requires Stages(c, p, ram, l) && j < |c.relocs| && c.relocs[j].kind.Symbol? && o < 4 && x == v + o
    requires v == PatchAddress(c.base, c.relocs[j]) && HoldsWord(p.mem, ram, v, w)
    requires Translate(l.mem, x) == Translate(p.mem, x)
    ensures SymbolByteAt(c, l, j, o, x)
  {
    RelocationSetsWord(p.mem, c.t, ram, c.base, c.relocs, j, v, w);
    WordHoldsByte(p.mem, l.ram, v, SymbolWord(c.t, c.relocs[j]), o, x);
  }

  lemma {:induction false} SymbolByteStages(
    c: Case, p: Placed, ram: seq<u8>, l: Loaded, j: nat, k: nat, i: nat, v: u64, o: nat, x: u64)
    requires Stages(c, p, ram, l) && j < |c.relocs| && c.relocs[j].kind.Symbol? && o < 4 && x == v + o
    requires k < |c.s.infos| && WordAt(c.s.infos[k], i, c.relocs[j]) && v == c.base + c.relocs[j].patchOffset
    ensures SymbolByteAt(c, l, j, o, x)
  {
    var w := WordInPlace(c, p, ram, l, j, k, i, v);
    assert At(c, k, i + o, c.relocs[j].patchOffset + o, x);
    FileByteTranslates(c, p, ram, l, k, i + o, c.relocs[j].patchOffset + o, x);
    StageSymbolByte(c, p, ram, l, j, v, w, o, x);
  }

  /** Byte o of a symbol word does not depend on the base. */
  lemma {:induction false} LoadedSymbolByte(c: Case, l: Loaded, j: nat, k: nat, i: nat, v: u64, o: nat, x: u64)
    requires Loads(c, l) && j < |c.relocs| && c.relocs[j].kind.Symbol? && k < |c.s.infos| && o < 4
    requires WordAt(c.s.infos[k], i, c.relocs[j]) && v == c.base + c.relocs[j].patchOffset && x == v + o
    ensures SymbolByteAt(c, l, j, o, x)
  {
    var p, ram := InStages(c, l);
    SymbolByteStages(c, p, ram, l, j, k, i, v, o, x);
  }

  /** No relative relocation covers the offset. */
  ghost predicate NotRelative(relocs: seq<RelocInfo>, off: nat) {
    forall j :: 0 <= j < |relocs| && relocs[j].kind.Relative? ==> !InWord(relocs[j], off)
  }

  lemma {:induction false} SameSymbolByte(c: Case, l: Loaded, d: Case, m: Loaded, j: nat, off: nat, v: u64, w: u64)
    requires Loads(c, l) && Loads(d, m) && SameImage(c, d) && j < |c.relocs| && c.relocs[j].kind.Symbol?
    requires InWord(c.relocs[j], off) && v == c.base + off && w == d.base + off
    ensures SameByte(l, v, m, w)
  {
    assert InFile(c.s.infos, c.relocs[j]);
    var k, i :| 0 <= k < |c.s.infos| && 0 <= i && WordAt(c.s.infos[k], i, c.relocs[j]);
    var o := off - c.relocs[j].patchOffset;
    LoadedSymbolByte(c, l, j, k, i, v - o, o, v);
    LoadedSymbolByte(d, m, j, k, i, w - o, o, w);
  }

  lemma {:induction false} SameFileByte(
    c: Case, l: Loaded, d: Case, m: Loaded, k: nat, i: nat, off: nat, v: u64, w: u64)
    requires Loads(c, l) && Loads(d, m) && SameImage(c, d) && At(c, k, i, off, v) && At(d, k, i, off, w)
    requires forall j :: 0 <= j < |c.relocs| ==> !InWord(c.relocs[j], off)
    ensures SameByte(l, v, m, w)
  {
    LoadedFileByte(c, l, k, i, off, v);
    LoadedFileByte(d, m, k, i, off, w);
    var b :| FileByte(c.s, k, i, b) && HoldsByte(l.mem, l.ram, v, b);
  }

  /** The same image loaded twice: file bytes outside the relative words are the same. */
  lemma {:induction false} RebaseKeepsBytes(
    c: Case, l: Loaded, d: Case, m: Loaded, k: nat, i: nat, off: nat, v: u64, w: u64)
    requires Loads(c, l) && Loads(d, m) && SameImage(c, d) && At(c, k, i, off, v) && At(d, k, i, off, w)
    requires NotRelative(c.relocs, off)
    ensures SameByte(l, v, m, w)
  {
    if j :| 0 <= j < |c.relocs| && InWord(c.relocs[j], off) {
      SameSymbolByte(c, l, d, m, j, off, v, w);
    } else {
      SameFileByte(c, l, d, m, k, i, off, v, w);
    }
  }

  /** And the relative words differ by the difference of the bases, modulo 2^32. */
  lemma {:induction false} RebaseShiftsWords(
    c: Case, l: Loaded, d: Case, m: Loaded, j: nat, k: nat, i: nat, v: u64, w: u64)
    requires Loads(c, l) && Loads(d, m) && SameImage(c, d) && j < |c.relocs| && c.relocs[j].kind.Relative?
    requires k < |c.s.infos| && WordAt(c.s.infos[k], i, c.relocs[j])
    requires v == c.base + c.relocs[j].patchOffset && w == d.base + c.relocs[j].patchOffset
    ensures ShiftedWord(l, v, m, w, d.base - c.base)
  {
    LoadedFileWord(c, l, j, k, i, v);
    LoadedFileWord(d, m, j, k, i, w);
    ShiftWords(c, l, d, m, j, k, i, v, w);
  }

  lemma {:induction false} ShiftWords(c: Case, l: Loaded, d: Case, m: Loaded, j: nat, k: nat, i: nat, v: u64, w: u64)
    requires SameImage(c, d) && j < |c.relocs| && c.relocs[j].kind.Relative?
    requires WordRelocated(c, l, j, k, i, v) && WordRelocated(d, m, j, k, i, w)
    ensures ShiftedWord(l, v, m, w, d.base - c.base)
  {
    var x :| FileWord(c.s, k, i, x) && HoldsWord(l.mem, l.ram, v, RelocatedWord(c.t, c.base, c.relocs[j], x));
    var y := RelocatedWord(c.t, c.base, c.relocs[j], x);
    RebasedWord(c.t, c.base, d.base, c.relocs[j], x, y, RelocatedWord(d.t, d.base, d.relocs[j], x));
  }
}
