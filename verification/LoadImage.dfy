/** The whole of loading, from the segments' layout to their permissions, as one function of the state. */
module LoadImage {
  import opened Types
  import opened Blocks
  import opened Allocator
  import opened FreeAddress
  import opened Restore
  import opened BridgeTable
  import opened Translation
  import opened Elf
  import opened Relocation
  import opened Segments
  import opened Loading

  /** What the copies need of the file and of the host's answers. Nothing in the code checks this. */
  ghost predicate CopiesAllowed(n: nat, buffer: seq<u8>, infos: seq<SegmentInfo>, hosts: seq<Option<u64>>) {
    && |hosts| == |infos|
    && forall k :: 0 <= k < |infos| && hosts[k].Some? ==>
         && infos[k].fileDataOffset + infos[k].fileDataSize <= |buffer|
         && hosts[k].value + infos[k].memDataOffset + infos[k].fileDataSize <= n
  }

  /** What a load starts from: memory, host memory, the segments' layout, the file, the host's answers. */
  datatype Start = Start(mem: State, ram: seq<u8>, page: u64, infos: seq<SegmentInfo>, buffer: seq<u8>,
                         hosts: seq<Option<u64>>) {
    ghost predicate Allowed() { CopiesAllowed(|ram|, buffer, infos, hosts) }

    /** The segments placed from a base on. */
    function Placement(base: u64): Placed
      requires |hosts| == |infos|
    {
      PlaceFirst(mem, base, page, infos, hosts, |infos|)
    }
  }

  lemma AllocateHost(mem: State, args: AllocArgs, host: Option<u64>)
    ensures var r := Allocate(mem, args, host).1; r.Ok? ==> host == Some(r.value.hostBase)
  {
  }

  ghost predicate OnHosts(blocks: seq<AllocatedBlock>, hosts: seq<Option<u64>>) {
    |blocks| <= |hosts| && forall k :: 0 <= k < |blocks| ==> hosts[k] == Some(blocks[k].hostBase)
  }

  lemma PlaceOneOnHost(before: Placed, p: Placed, base: u64, page: u64, info: SegmentInfo, host: Option<u64>)
    requires p == PlaceOne(before, base, page, info, host)
    ensures !p.outcome.Ok? ==> p.blocks == before.blocks
    ensures p.outcome.Ok? ==> before.outcome.Ok? && |p.blocks| == |before.blocks| + 1
    ensures p.outcome.Ok? ==> host == Some(p.blocks[|before.blocks|].hostBase)
    ensures forall k :: 0 <= k < |before.blocks| ==> k < |p.blocks| && p.blocks[k] == before.blocks[k]
  {
    AllocateHost(before.mem, SegmentArgs(base, page, info), host);
  }

  /** The k-th block placed lies where the host's k-th answer says. */
  lemma {:induction false} PlacedOnHosts(
    mem: State, base: u64, page: u64, infos: seq<SegmentInfo>, hosts: seq<Option<u64>>, n: nat, p: Placed)
    requires n <= |infos| == |hosts| && p == PlaceFirst(mem, base, page, infos, hosts, n)
    ensures OnHosts(p.blocks, hosts) && |p.blocks| <= n && (p.outcome.Ok? ==> |p.blocks| == n)
  {
    if n == 0 {
    } else {
      var before := PlaceFirst(mem, base, page, infos, hosts, n - 1);
      PlacedOnHosts(mem, base, page, infos, hosts, n - 1, before);
      PlaceOneOnHost(before, p, base, page, infos[n - 1], hosts[n - 1]);
      OnHostsNext(before.blocks, p.blocks, hosts, before.outcome.Ok?, p.outcome.Ok?, n);
    }
  }

  lemma OnHostsNext(
    a: seq<AllocatedBlock>, b: seq<AllocatedBlock>, hosts: seq<Option<u64>>, before: bool, after: bool, n: nat)
    requires 0 < n <= |hosts| && OnHosts(a, hosts) && |a| <= n - 1 && (before ==> |a| == n - 1)
    requires if after then before && |b| == |a| + 1 && hosts[n - 1] == Some(b[|a|].hostBase) else b == a
    requires forall k :: 0 <= k < |a| ==> k < |b| && b[k] == a[k]
    ensures OnHosts(b, hosts) && |b| <= n && (after ==> |b| == n)
  {
  }

  lemma PlacedCopiesInside(
    n: nat, buffer: seq<u8>, infos: seq<SegmentInfo>, hosts: seq<Option<u64>>, blocks: seq<AllocatedBlock>)
    requires CopiesAllowed(n, buffer, infos, hosts) && OnHosts(blocks, hosts)
    ensures CopiesInside(n, buffer, blocks, infos)
  {
  }

  datatype Loaded = Loaded(mem: State, ram: seq<u8>, segments: seq<u64>, outcome: Outcome<u64>)

  /** Claims and fills the segments. */
  function Map(s: Start, base: u64): Loaded
    requires s.Allowed()
  {
    var p := s.Placement(base);
    PlacedOnHosts(s.mem, base, s.page, s.infos, s.hosts, |s.infos|, p);
    PlacedCopiesInside(|s.ram|, s.buffer, s.infos, s.hosts, p.blocks);
    var ram := CopyFirst(s.ram, s.buffer, p.blocks, s.infos, |p.blocks|);
    Loaded(p.mem, ram, Bases(p.blocks),
           match p.outcome { case Ok(_) => Ok(base) case Err(e) => Err(e) case Abort => Abort })
  }

  /** After the last segment: as many different live blocks as segments, each at its segment's base. */
  lemma {:induction false} AllPlaced(s: Start, base: u64, p: Placed)
    requires Inv(s.mem) && |s.hosts| == |s.infos| && p == s.Placement(base) && p.outcome.Ok?
    ensures Held(p.mem, base, s.infos, p.blocks)
  {
    PlacementExact(s.mem, base, s.page, s.infos, s.hosts, |s.infos|);
    PlacedBlocksDiffer(s.mem, base, s.page, s.infos, s.hosts, p);
  }

  lemma {:induction false} MapFills(s: Start, base: u64, p: Placed)
    requires s.Allowed() && p == s.Placement(base) && p.outcome.Ok?
    ensures |p.blocks| == |s.infos| && CopiesInside(|s.ram|, s.buffer, p.blocks, s.infos)
    ensures Map(s, base).mem == p.mem
    ensures Map(s, base).ram == CopyFirst(s.ram, s.buffer, p.blocks, s.infos, |s.infos|)
  {
    PlacedOnHosts(s.mem, base, s.page, s.infos, s.hosts, |s.infos|, p);
    PlacedCopiesInside(|s.ram|, s.buffer, s.infos, s.hosts, p.blocks);
  }

  /** Copies of the first blocks do not depend on later ones. */
  lemma {:induction false} CopyFirstPrefix(ram: seq<u8>, buffer: seq<u8>, blocks: seq<AllocatedBlock>,
                                           more: seq<AllocatedBlock>, infos: seq<SegmentInfo>, n: nat)
    requires CopiesInside(|ram|, buffer, blocks, infos) && CopiesInside(|ram|, buffer, more, infos)
    requires n <= |blocks| && blocks <= more
    ensures CopyFirst(ram, buffer, more, infos, n) == CopyFirst(ram, buffer, blocks, infos, n)
  {
    if n == 0 {
    } else {
      CopyFirstPrefix(ram, buffer, blocks, more, infos, n - 1);
      assert more[n - 1] == blocks[n - 1];
    }
  }

  lemma CopiesInsideNext(n: nat, buffer: seq<u8>, blocks: seq<AllocatedBlock>, block: AllocatedBlock,
                         infos: seq<SegmentInfo>)
    requires CopiesInside(n, buffer, blocks, infos) && |blocks| < |infos|
    requires CopyInside(n, buffer, block, infos[|blocks|])
    ensures CopiesInside(n, buffer, blocks + [block], infos)
  {
  }

  /** One more copy. */
  lemma {:induction false} CopyFirstNext(ram: seq<u8>, buffer: seq<u8>, blocks: seq<AllocatedBlock>,
                                         block: AllocatedBlock, infos: seq<SegmentInfo>)
    requires CopiesInside(|ram|, buffer, blocks, infos) && |blocks| < |infos|
    requires CopyInside(|ram|, buffer, block, infos[|blocks|])
    ensures CopiesInside(|ram|, buffer, blocks + [block], infos)
    ensures var info := infos[|blocks|];
            CopyFirst(ram, buffer, blocks + [block], infos, |blocks| + 1)
            == CopyBytes(CopyFirst(ram, buffer, blocks, infos, |blocks|),
                         block.hostBase + info.memDataOffset, FileBytes(buffer, info))
  {
    CopiesInsideNext(|ram|, buffer, blocks, block, infos);
    var more := blocks + [block];
    CopyFirstPrefix(ram, buffer, blocks, more, infos, |blocks|);
    assert more[|blocks|] == block;
  }

  lemma BasesNext(blocks: seq<AllocatedBlock>, block: AllocatedBlock)
    ensures Bases(blocks + [block]) == Bases(blocks) + [block.virtualBase]
  {
  }

  /** The claim loop between two segments: as many blocks claimed and filled, no failure yet. */
  ghost predicate MappedSoFar(s: Start, base: u64, mem: State, ram: seq<u8>, blocks: seq<AllocatedBlock>) {
    && |blocks| <= |s.infos| == |s.hosts| && CopiesInside(|s.ram|, s.buffer, blocks, s.infos)
    && Placed(mem, blocks, Ok(())) == PlaceFirst(s.mem, base, s.page, s.infos, s.hosts, |blocks|)
    && ram == CopyFirst(s.ram, s.buffer, blocks, s.infos, |blocks|)
  }

  lemma MappingGoesOn(s: Start, base: u64, mem: State, ram: seq<u8>, blocks: seq<AllocatedBlock>,
                      mem': State, block: AllocatedBlock)
    requires MappedSoFar(s, base, mem, ram, blocks) && |blocks| < |s.infos|
    requires PlaceOne(Placed(mem, blocks, Ok(())), base, s.page, s.infos[|blocks|], s.hosts[|blocks|])
             == Placed(mem', blocks + [block], Ok(()))
    requires CopyInside(|s.ram|, s.buffer, block, s.infos[|blocks|])
    ensures var info := s.infos[|blocks|];
            MappedSoFar(s, base, mem', CopyBytes(ram, block.hostBase + info.memDataOffset, FileBytes(s.buffer, info)),
                        blocks + [block])
  {
    CopyFirstNext(s.ram, s.buffer, blocks, block, s.infos);
    assert |blocks + [block]| == |blocks| + 1;
  }

  lemma MappingFails(s: Start, base: u64, mem: State, ram: seq<u8>, blocks: seq<AllocatedBlock>,
                     mem': State, error: Error)
    requires s.Allowed() && MappedSoFar(s, base, mem, ram, blocks) && |blocks| < |s.infos|
    requires PlaceOne(Placed(mem, blocks, Ok(())), base, s.page, s.infos[|blocks|], s.hosts[|blocks|])
             == Placed(mem', blocks, Err(error))
    ensures Map(s, base) == Loaded(mem', ram, Bases(blocks), Err(error))
  {
    FailureSticks(s.mem, base, s.page, s.infos, s.hosts, |blocks| + 1, |s.infos|);
  }

  lemma MappingEnds(s: Start, base: u64, mem: State, ram: seq<u8>, blocks: seq<AllocatedBlock>)
    requires s.Allowed() && MappedSoFar(s, base, mem, ram, blocks) && |blocks| == |s.infos|
    ensures Map(s, base) == Loaded(mem, ram, Bases(blocks), Ok(base))
  {
  }

  /** The query that comes first. */
  function Query(s: Start): Outcome<u64> {
    FindFreeAddr(s.mem, TotalSize(s.infos, |s.infos|), s.page)
  }

  /** A mapped image after relocating it to (ram, relocated) and protecting it to q, as far as that went. */
  function Finished(mapped: Loaded, base: u64, ram: seq<u8>, relocated: Outcome<()>, q: Protected): Loaded {
    match relocated
    case Err(e) => mapped.(ram := ram, outcome := Err(e))
    case Abort => mapped.(ram := ram, outcome := Abort)
    case Ok(_) =>
      Loaded(q.mem, ram, mapped.segments,
             match q.outcome { case Ok(_) => Ok(base) case Err(e) => Err(e) case Abort => Abort })
  }

  /** Relocates and protects a mapped image. */
  function Finish(mapped: Loaded, t: Table, base: u64, infos: seq<SegmentInfo>, relocs: seq<RelocInfo>): Loaded {
    var (ram, relocated) := Relocate(mapped.mem, t, mapped.ram, base, relocs);
    Finished(mapped, base, ram, relocated, ProtectFirst(mapped.mem, base, infos, |infos|))
  }

  /** Query, map, relocate, protect. segments are those of an earlier load, forgotten once mapping starts. */
  function Load(s: Start, t: Table, segments: seq<u64>, relocs: seq<RelocInfo>): Loaded
    requires s.Allowed()
  {
    match Query(s)
    case Err(e) => Loaded(s.mem, s.ram, segments, Err(e))
    case Abort => Loaded(s.mem, s.ram, segments, Abort)
    case Ok(base) =>
      var mapped := Map(s, base);
      if !mapped.outcome.Ok? then mapped else Finish(mapped, t, base, s.infos, relocs)
  }

  lemma FinishedWell(mapped: Loaded, base: u64, ram: seq<u8>, relocated: Outcome<()>, q: Protected)
    ensures var l := Finished(mapped, base, ram, relocated, q);
            && (l.outcome.Ok? <==> relocated.Ok? && q.outcome.Ok?)
            && (l.outcome.Ok? ==> l == Loaded(q.mem, ram, mapped.segments, Ok(base)))
  {
  }

  lemma {:induction false} MapOutcome(s: Start, base: u64, p: Placed)
    requires s.Allowed() && p == s.Placement(base)
    ensures var m := Map(s, base);
            m.mem == p.mem && m.segments == Bases(p.blocks) && (m.outcome == Ok(base) <==> p.outcome.Ok?)
            && (m.outcome.Ok? <==> p.outcome.Ok?)
  {
  }

  lemma {:induction false} LoadFinishes(
    s: Start, t: Table, segments: seq<u64>, relocs: seq<RelocInfo>, base: u64, l: Loaded)
    requires s.Allowed() && l == Load(s, t, segments, relocs) && l.outcome == Ok(base)
    ensures Query(s) == Ok(base) && Map(s, base).outcome.Ok? && l == Finish(Map(s, base), t, base, s.infos, relocs)
  {
    var r := Query(s);
    if r.Ok? {
      MapOutcome(s, r.value, s.Placement(r.value));
    }
  }

  /** The stages of a load that ended well. */
  lemma {:induction false} LoadStages(s: Start, t: Table, segments: seq<u64>, relocs: seq<RelocInfo>, base: u64,
                                      p: Placed, l: Loaded)
    requires s.Allowed() && p == s.Placement(base)
    requires l == Load(s, t, segments, relocs) && l.outcome == Ok(base)
    ensures Query(s) == Ok(base) && p.outcome.Ok?
    ensures Relocate(p.mem, t, Map(s, base).ram, base, relocs).1.Ok?
    ensures l.ram == Relocate(p.mem, t, Map(s, base).ram, base, relocs).0
    ensures ProtectFirst(p.mem, base, s.infos, |s.infos|).outcome.Ok?
    ensures l.mem == ProtectFirst(p.mem, base, s.infos, |s.infos|).mem
  {
    LoadFinishes(s, t, segments, relocs, base, l);
    MapOutcome(s, base, p);
    var m := Map(s, base);
    var (ram, relocated) := Relocate(m.mem, t, m.ram, base, relocs);
    FinishedWell(m, base, ram, relocated, ProtectFirst(m.mem, base, s.infos, |s.infos|));
  }

  /** Every placed segment's base is the base of a live block. */
  lemma PlacedBasesLive(mem: State, base: u64, infos: seq<SegmentInfo>, hosts: seq<Option<u64>>, p: Placed)
    requires |hosts| == |infos| && HostsGiven(hosts, |hosts|) && Between(mem, base, infos, hosts, |infos|, p)
    ensures BasesLive(p.mem.alloc, base, infos)
  {
  }

  /** Placed and protected segments are undone by freeing their bases. */
  lemma {:induction false} ProtectionExtends(s: Start, base: u64, p: Placed)
    requires Inv(s.mem) && |s.hosts| == |s.infos| && p == s.Placement(base) && p.outcome.Ok?
    ensures Extends(s.mem, ProtectFirst(p.mem, base, s.infos, |s.infos|).mem, Bases(p.blocks))
  {
    PlacementExact(s.mem, base, s.page, s.infos, s.hosts, |s.infos|);
    PlacedBasesLive(s.mem, base, s.infos, s.hosts, p);
    var q := ProtectFirst(p.mem, base, s.infos, |s.infos|);
    ProtectExact(p.mem, base, s.infos, |s.infos|, q);
    BasesOfPlaced(s.mem, base, s.infos, s.hosts, p);
    ProtectedExtends(s.mem, p.mem, Bases(p.blocks), base, s.infos, |s.infos|, q);
  }

  lemma BasesOfPlaced(mem: State, base: u64, infos: seq<SegmentInfo>, hosts: seq<Option<u64>>, p: Placed)
    requires |hosts| == |infos| && HostsGiven(hosts, |hosts|) && Between(mem, base, infos, hosts, |infos|, p)
    ensures forall k :: 0 <= k < |infos| ==> SegmentBase(base, infos[k]) in Bases(p.blocks)
  {
  }

  /** Where a load leaves guest memory: as the placement left it, or protected as well. */
  lemma {:induction false} LoadEndsIn(s: Start, t: Table, segments: seq<u64>, relocs: seq<RelocInfo>, base: u64,
                                      p: Placed, l: Loaded)
    requires s.Allowed() && Query(s) == Ok(base) && p == s.Placement(base) && l == Load(s, t, segments, relocs)
    ensures l.segments == Bases(p.blocks)
    ensures l.mem == p.mem || (p.outcome.Ok? && l.mem == ProtectFirst(p.mem, base, s.infos, |s.infos|).mem)
  {
  }

  /** The segments that a load claims anew: those it lists, once the query has answered. */
  function NewSegments(s: Start, l: Loaded): seq<u64> {
    if Query(s).Ok? then l.segments else []
  }

  /** Whatever a load comes to, success, error or failed assertion, its new segments are all it claims. */
  lemma {:induction false} LoadExtends(s: Start, t: Table, segments: seq<u64>, relocs: seq<RelocInfo>, l: Loaded)
    requires Inv(s.mem) && s.Allowed() && l == Load(s, t, segments, relocs)
    ensures Extends(s.mem, l.mem, NewSegments(s, l)) && (!Query(s).Ok? ==> l.segments == segments)
  {
    var r := Query(s);
    if r.Ok? {
      var p := s.Placement(r.value);
      LoadEndsIn(s, t, segments, relocs, r.value, p, l);
      PlacementExact(s.mem, r.value, s.page, s.infos, s.hosts, |s.infos|);
      if p.outcome.Ok? {
        ProtectionExtends(s, r.value, p);
      }
    } else {
      ExtendsNothing(s.mem);
    }
  }

  /** Once the query has answered, loading a tiled image whose relocations are all applicable cannot fail: every segment
      lands at base + offset, and every block gets its segment's permissions. */
  lemma {:induction false} LoadSucceeds(s: Start, t: Table, segments: seq<u64>, relocs: seq<RelocInfo>, base: u64,
                                        p: Placed)
    requires s.Allowed() && HostsGiven(s.hosts, |s.hosts|) && Inv(s.mem) && Tiles(s.page, s.infos)
    requires Query(s) == Ok(base) && p == s.Placement(base) && Relocatable(p.mem, t, |s.ram|, base, relocs)
    ensures var l := Load(s, t, segments, relocs);
            && l.outcome == Ok(base)
            && l.segments == SegmentBases(base, s.infos, |s.infos|)
            && ProtectedExactly(p.mem, base, s.infos, |s.infos|, Protected(l.mem, Ok(())))
  {
    TilesPlaced(s.mem, s.page, s.infos, s.hosts, base);
    PlacementExact(s.mem, base, s.page, s.infos, s.hosts, |s.infos|);
    assert Bases(p.blocks) == SegmentBases(base, s.infos, |s.infos|);
    RelocateExact(p.mem, t, Map(s, base).ram, base, relocs);
    PlacedBasesLive(s.mem, base, s.infos, s.hosts, p);
    ProtectExact(p.mem, base, s.infos, |s.infos|, ProtectFirst(p.mem, base, s.infos, |s.infos|));
  }
}
