/** The loader's segments: reserving their range, claiming it piece by piece, copying, and setting permissions. */
module Segments {
  import opened Types
  import opened Alignment
  import opened OrderedSet
  import opened Blocks
  import opened Gaps
  import opened Allocator
  import opened AllocatorInvariant
  import opened Allocation
  import opened FreeAddress
  import opened Restore
  import opened Elf

  datatype SegmentInfo = SegmentInfo(
    fileDataOffset: u64, fileDataSize: u64, memDataOffset: u64, allocOffset: u64, allocSize: u64, permissions: u64)

  function InfoOf(p: ProgramHeader): Outcome<SegmentInfo> {
    match AllocationOffset(p)
    case Err(e) => Err(e)
    case Abort => Abort
    case Ok(allocOffset) =>
      match AllocationSize(p)
      case Err(e) => Err(e)
      case Abort => Abort
      case Ok(allocSize) =>
        Ok(SegmentInfo(p.offset, p.filesz, Sub(p.vaddr, allocOffset), allocOffset, allocSize,
                       WrapPermissionFlags(p.flags)))
  }

  /** The layout that a header asks for: its file data, at its own address, in a block of whole alignments around it,
      with its permissions. */
  predicate LaidOut(p: ProgramHeader, info: SegmentInfo) {
    && info.fileDataOffset == p.offset && info.fileDataSize == p.filesz
    && info.allocOffset == RoundDown(p.vaddr, p.align) && info.allocOffset + info.memDataOffset == p.vaddr
    && info.allocSize == BlockSize(p) && Grants(info.permissions, p.flags)
  }

  /** Why a header is refused: a bad alignment, if it gets as far as rounding, or a segment that is bad by itself. */
  function HeaderError(p: ProgramHeader): Error {
    if p.align > 1 && p.vaddr % p.align == p.offset % p.align && !IsPowerOfTwo(p.align) then InvalidAlignment
    else InvalidSegment
  }

  /** The layout of a header: when there is one, and which. The file bytes fit the block as the header fits. */
  lemma InfoExact(p: ProgramHeader)
    ensures Loadable(p) <==>
              && p.filesz <= p.memsz
              && (p.align > 1 ==> IsPowerOfTwo(p.align) && p.vaddr % p.align == p.offset % p.align)
    ensures if Loadable(p) then InfoOf(p).Ok? && LaidOut(p, InfoOf(p).value) else InfoOf(p) == Err(HeaderError(p))
    ensures Loadable(p) ==> var info := InfoOf(p).value;
                            info.memDataOffset + info.fileDataSize <= info.allocSize <==> CopyFits(p)
  {
    AllocationExact(p);
    PermissionsCorrespond(p.flags);
    AlignDownIsFloor(p.vaddr, p.align);
    if Loadable(p) {
      AllocationRounded(p);
    }
  }

  /** One more header; one without a layout ends the collection. */
  function CollectNext(before: Outcome<seq<SegmentInfo>>, p: ProgramHeader): Outcome<seq<SegmentInfo>> {
    match before
    case Err(e) => Err(e)
    case Abort => Abort
    case Ok(infos) =>
      match InfoOf(p)
      case Ok(info) => Ok(infos + [info])
      case Err(e) => Err(e)
      case Abort => Abort
  }

  /** The layouts of all headers, in order; the first header without one ends the collection. */
  function InfosOf(headers: seq<ProgramHeader>): Outcome<seq<SegmentInfo>> {
    if headers == [] then Ok([])
    else CollectNext(InfosOf(headers[..|headers| - 1]), headers[|headers| - 1])
  }

  lemma {:induction false} BadHeaderDecides(headers: seq<ProgramHeader>, k: nat)
    requires k <= |headers| && !InfosOf(headers[..k]).Ok?
    ensures InfosOf(headers) == InfosOf(headers[..k])
  {
    if k < |headers| {
      var n := |headers| - 1;
      assert headers[..n][..k] == headers[..k];
      BadHeaderDecides(headers[..n], k);
    } else {
      assert headers[..k] == headers;
    }
  }

  /** The first header that is not loadable. */
  ghost predicate FirstBad(headers: seq<ProgramHeader>, k: nat) {
    k < |headers| && !Loadable(headers[k]) && forall j :: 0 <= j < k ==> Loadable(headers[j])
  }

  /** Each header has its own layout. */
  ghost predicate AllLaidOut(headers: seq<ProgramHeader>, infos: seq<SegmentInfo>) {
    |infos| == |headers| && forall k :: 0 <= k < |headers| ==> LaidOut(headers[k], infos[k])
  }

  ghost predicate Collected(headers: seq<ProgramHeader>, r: Outcome<seq<SegmentInfo>>) {
    if forall k :: 0 <= k < |headers| ==> Loadable(headers[k]) then r.Ok? && AllLaidOut(headers, r.value)
    else exists k: nat :: FirstBad(headers, k) && r == Err(HeaderError(headers[k]))
  }

  lemma OneMoreHeader(headers: seq<ProgramHeader>, p: ProgramHeader, infos: seq<SegmentInfo>, info: SegmentInfo)
    requires Collected(headers, Ok(infos)) && Loadable(p) && LaidOut(p, info)
    ensures Collected(headers + [p], Ok(infos + [info]))
  {
    assert forall k :: 0 <= k < |headers| ==> (headers + [p])[k] == headers[k];
  }

  lemma BadHeader(headers: seq<ProgramHeader>, p: ProgramHeader, k: nat)
    requires FirstBad(headers, k) || (k == |headers| && !Loadable(p) && forall j :: 0 <= j < k ==> Loadable(headers[j]))
    ensures Collected(headers + [p], Err(HeaderError((headers + [p])[k])))
  {
    assert forall j :: 0 <= j < |headers| ==> (headers + [p])[j] == headers[j];
    assert FirstBad(headers + [p], k);
  }

  lemma AllOrFirstBad(headers: seq<ProgramHeader>, r: Outcome<seq<SegmentInfo>>)
    requires Collected(headers, r)
    ensures r.Ok? <==> forall k :: 0 <= k < |headers| ==> Loadable(headers[k])
    ensures !r.Ok? ==> exists k: nat :: FirstBad(headers, k) && r == Err(HeaderError(headers[k]))
  {
  }

  lemma StillBad(headers: seq<ProgramHeader>, p: ProgramHeader, r: Outcome<seq<SegmentInfo>>)
    requires Collected(headers, r) && !r.Ok?
    ensures Collected(headers + [p], r)
  {
    AllOrFirstBad(headers, r);
    var k: nat :| FirstBad(headers, k) && r == Err(HeaderError(headers[k]));
    BadHeader(headers, p, k);
    assert (headers + [p])[k] == headers[k];
  }

  lemma NextBad(headers: seq<ProgramHeader>, p: ProgramHeader, r: Outcome<seq<SegmentInfo>>)
    requires Collected(headers, r) && r.Ok? && !Loadable(p)
    ensures Collected(headers + [p], Err(HeaderError(p)))
  {
    AllOrFirstBad(headers, r);
    BadHeader(headers, p, |headers|);
  }

  lemma CollectOneMore(headers: seq<ProgramHeader>, p: ProgramHeader, before: Outcome<seq<SegmentInfo>>,
                       all: seq<ProgramHeader>)
    requires Collected(headers, before) && all == headers + [p]
    ensures Collected(all, CollectNext(before, p))
  {
    InfoExact(p);
    if !before.Ok? {
      StillBad(headers, p, before);
    } else if Loadable(p) {
      OneMoreHeader(headers, p, before.value, InfoOf(p).value);
    } else {
      NextBad(headers, p, before);
    }
  }

  /** The layout of an image is defined exactly when each header is loadable, and it is what the headers ask for;
      otherwise the first header that is not loadable decides. */
  lemma {:induction false} InfosExact(headers: seq<ProgramHeader>)
    ensures Collected(headers, InfosOf(headers))
  {
    if headers == [] {
    } else {
      var before, p := headers[..|headers| - 1], headers[|headers| - 1];
      InfosExact(before);
      CollectOneMore(before, p, InfosOf(before), headers);
    }
  }

  /** The accumulated allocation size of the first n segments. The sum wraps. */
  function TotalSize(infos: seq<SegmentInfo>, n: nat): u64
    requires n <= |infos|
  {
    if n == 0 then 0 else Add(TotalSize(infos, n - 1), infos[n - 1].allocSize)
  }

  function SegmentBase(base: u64, info: SegmentInfo): u64 {
    Add(base, info.allocOffset)
  }

  const SEGMENT_FLAGS: u64 := 11 // PERM_READ_WRITE | FORCE_HINT

  function SegmentArgs(base: u64, page: u64, info: SegmentInfo): AllocArgs {
    AllocArgs(info.allocSize, page, Some(SegmentBase(base, info)), SEGMENT_FLAGS)
  }

  lemma SegmentFlags()
    ensures And(SEGMENT_FLAGS, FORCE_HINT) != 0 && And(SEGMENT_FLAGS, PERM_MASK) == PERM_READ_WRITE
  {
  }

  datatype Placed = Placed(mem: State, blocks: seq<AllocatedBlock>, outcome: Outcome<()>)

  function AfterPlacing(blocks: seq<AllocatedBlock>, mem: State, r: Outcome<AllocatedBlock>): Placed {
    match r
    case Ok(block) => Placed(mem, blocks + [block], Ok(()))
    case Err(e) => Placed(mem, blocks, Err(e))
    case Abort => Placed(mem, blocks, Abort)
  }

  /** Claims one more segment, unless one has failed already. */
  function PlaceOne(before: Placed, base: u64, page: u64, info: SegmentInfo, host: Option<u64>): Placed {
    if !before.outcome.Ok? then before
    else
      var (mem, r) := Allocate(before.mem, SegmentArgs(base, page, info), host);
      AfterPlacing(before.blocks, mem, r)
  }

  /** Claims the first n segments in order, up to the first that fails. hosts are the host allocator's answers. */
  function PlaceFirst(
    mem: State, base: u64, page: u64, infos: seq<SegmentInfo>, hosts: seq<Option<u64>>, n: nat): Placed
    requires n <= |infos| == |hosts|
  {
    if n == 0 then Placed(mem, [], Ok(()))
    else PlaceOne(PlaceFirst(mem, base, page, infos, hosts, n - 1), base, page, infos[n - 1], hosts[n - 1])
  }

  /** Once a segment has failed, nothing more happens. */
  lemma {:induction false} FailureSticks(
    mem: State, base: u64, page: u64, infos: seq<SegmentInfo>, hosts: seq<Option<u64>>, m: nat, n: nat)
    requires m <= n <= |infos| == |hosts| && !PlaceFirst(mem, base, page, infos, hosts, m).outcome.Ok?
    ensures PlaceFirst(mem, base, page, infos, hosts, n) == PlaceFirst(mem, base, page, infos, hosts, m)
    decreases n
  {
    if m == n {
    } else {
      FailureSticks(mem, base, page, infos, hosts, m, n - 1);
    }
  }

  // ---------- when placement succeeds ----------

  ghost predicate RangesApart(a: int, m: nat, b: int, n: nat) {
    a + m <= b || b + n <= a
  }

  /** Segment k by itself: sizes and addresses are whole pages, and its range is free. */
  ghost predicate CanPlace(mem: State, base: u64, page: u64, info: SegmentInfo) {
    && ValidSize(info.allocSize, page) && Multiple(SegmentBase(base, info), page)
    && RangeFree(mem, SegmentBase(base, info), info.allocSize)
  }

  /** The first n segments: each can be placed in the original memory, and no two overlap. */
  ghost predicate Placeable(mem: State, base: u64, page: u64, infos: seq<SegmentInfo>, n: nat)
    requires n <= |infos|
  {
    && (forall k :: 0 <= k < n ==> CanPlace(mem, base, page, infos[k]))
    && (forall j, k :: 0 <= j < k < n ==>
          RangesApart(SegmentBase(base, infos[j]), infos[j].allocSize, SegmentBase(base, infos[k]), infos[k].allocSize))
  }

  /** The addresses of the first n segments. */
  ghost function Claimed(base: u64, infos: seq<SegmentInfo>, n: nat): iset<int>
    requires n <= |infos|
  {
    if n == 0 then iset{}
    else Claimed(base, infos, n - 1) + Span(SegmentBase(base, infos[n - 1]), infos[n - 1].allocSize)
  }

  ghost predicate Avoids(occ: iset<int>, x: int, size: nat) {
    forall y :: x <= y < x + size ==> y !in occ
  }

  lemma AvoidsBoth(a: iset<int>, b: iset<int>, x: int, size: nat)
    ensures Avoids(a + b, x, size) <==> Avoids(a, x, size) && Avoids(b, x, size)
  {
    if Avoids(a + b, x, size) {
      assert forall y :: y in a || y in b ==> y in a + b;
    }
  }

  lemma AvoidsSpan(b: int, m: nat, x: int, size: nat)
    requires m > 0 && size > 0
    ensures Avoids(Span(b, m), x, size) <==> RangesApart(b, m, x, size)
  {
    var y := if b < x then x else b;
    assert InRange(y, b, m) ==> y in Span(b, m);
  }

  /** The first n segments all keep clear of the range. */
  ghost predicate AllApart(base: u64, infos: seq<SegmentInfo>, n: nat, x: int, size: nat)
    requires n <= |infos|
  {
    forall k :: 0 <= k < n ==> RangesApart(SegmentBase(base, infos[k]), infos[k].allocSize, x, size)
  }

  lemma {:induction false} ClaimedApart(base: u64, infos: seq<SegmentInfo>, n: nat, x: int, size: nat)
    requires n <= |infos| && size > 0 && forall k :: 0 <= k < n ==> infos[k].allocSize > 0
    ensures Avoids(Claimed(base, infos, n), x, size) <==> AllApart(base, infos, n, x, size)
  {
    if n == 0 {
    } else {
      var b, m := SegmentBase(base, infos[n - 1]), infos[n - 1].allocSize;
      ClaimedApart(base, infos, n - 1, x, size);
      AvoidsSpan(b, m, x, size);
      AvoidsBoth(Claimed(base, infos, n - 1), Span(b, m), x, size);
    }
  }

  ghost predicate HostsGiven(hosts: seq<Option<u64>>, n: nat)
    requires n <= |hosts|
  {
    forall k :: 0 <= k < n ==> hosts[k].Some?
  }

  function BlockAt(base: u64, info: SegmentInfo, hostBase: u64): AllocatedBlock {
    AllocatedBlock(hostBase, SegmentBase(base, info), info.allocSize, PERM_READ_WRITE)
  }

  function SegmentBases(base: u64, infos: seq<SegmentInfo>, n: nat): (r: seq<u64>)
    requires n <= |infos|
    ensures |r| == n
    ensures forall k :: 0 <= k < n ==> r[k] == SegmentBase(base, infos[k])
  {
    if n == 0 then [] else SegmentBases(base, infos, n - 1) + [SegmentBase(base, infos[n - 1])]
  }

  ghost predicate BlocksPlaced(base: u64, infos: seq<SegmentInfo>, hosts: seq<Option<u64>>, n: nat,
                               blocks: seq<AllocatedBlock>, alloc: seq<AllocatedBlock>)
    requires n <= |infos| == |hosts| && HostsGiven(hosts, n)
  {
    && |blocks| == n
    && forall k :: 0 <= k < n ==> blocks[k] == BlockAt(base, infos[k], hosts[k].value) && blocks[k] in alloc
  }

  /** The state between two placements: the memory before, with exactly the segments so far claimed. */
  ghost predicate Between(mem: State, base: u64, infos: seq<SegmentInfo>, hosts: seq<Option<u64>>, n: nat, p: Placed)
    requires n <= |infos| == |hosts| && HostsGiven(hosts, n)
  {
    && p.outcome.Ok? && Extends(mem, p.mem, SegmentBases(base, infos, n))
    && Occupied(p.mem.alloc) == Occupied(mem.alloc) + Claimed(base, infos, n)
    && BlocksPlaced(base, infos, hosts, n, p.blocks, p.mem.alloc)
  }

  /** A range is free after n placements exactly when it was free before and misses the segments placed. */
  lemma {:induction false} FreeBetween(
    mem: State, base: u64, infos: seq<SegmentInfo>, n: nat, t: State, x: int, size: nat)
    requires n <= |infos| && size > 0 && t.max == mem.max
    requires forall k :: 0 <= k < n ==> infos[k].allocSize > 0
    requires Occupied(t.alloc) == Occupied(mem.alloc) + Claimed(base, infos, n)
    ensures RangeFree(t, x, size)
            <==> RangeFree(mem, x, size) && AllApart(base, infos, n, x, size)
  {
    ClaimedApart(base, infos, n, x, size);
    AvoidsBoth(Occupied(mem.alloc), Claimed(base, infos, n), x, size);
  }

  lemma PlaceableNext(mem: State, base: u64, page: u64, infos: seq<SegmentInfo>, n: nat)
    requires n < |infos|
    ensures Placeable(mem, base, page, infos, n + 1)
            <==> && Placeable(mem, base, page, infos, n) && CanPlace(mem, base, page, infos[n])
                 && AllApart(base, infos, n, SegmentBase(base, infos[n]), infos[n].allocSize)
  {
  }

  /** Whether one more segment can be placed, in terms of the memory before any was. */
  lemma NextSucceedsIff(mem: State, base: u64, page: u64, infos: seq<SegmentInfo>, n: nat, t: State, host: Option<u64>)
    requires n < |infos| && Placeable(mem, base, page, infos, n) && Inv(t) && t.max == mem.max
    requires Occupied(t.alloc) == Occupied(mem.alloc) + Claimed(base, infos, n)
    ensures var (t', r) := Allocate(t, SegmentArgs(base, page, infos[n]), host);
            && (r.Ok? <==> Placeable(mem, base, page, infos, n + 1) && host.Some?)
            && (r.Ok? ==> r.value.virtualBase == SegmentBase(base, infos[n]))
            && (!r.Ok? ==> r.Err? && t' == t)
  {
    var info := infos[n];
    SegmentFlags();
    ForcedOkIff(t, SegmentArgs(base, page, info), host);
    if info.allocSize > 0 {
      FreeBetween(mem, base, infos, n, t, SegmentBase(base, info), info.allocSize);
    }
    PlaceableNext(mem, base, page, infos, n);
  }

  /** A placed segment: the block, and the memory with it. */
  lemma NextEffect(t: State, base: u64, page: u64, info: SegmentInfo, host: Option<u64>)
    requires Inv(t) && Allocate(t, SegmentArgs(base, page, info), host).1.Ok?
    ensures var (t', r) := Allocate(t, SegmentArgs(base, page, info), host);
            && host.Some? && r.value == BlockAt(base, info, host.value)
            && Extends(t, t', [SegmentBase(base, info)])
            && Occupied(t'.alloc) == Occupied(t.alloc) + Span(SegmentBase(base, info), info.allocSize)
            && forall b :: b in t'.alloc <==> b in t.alloc || b == r.value
  {
    var args := SegmentArgs(base, page, info);
    SegmentFlags();
    ForcedOkIff(t, args, host);
    CheckedFits(t, args);
    AllocateEffect(t, args, host);
    var b := Allocate(t, args, host).1.value;
    InsertAtElements(t.alloc, LowerBound(t.alloc, AllocatedLess, b), b);
    AllocateExtends(t, args, host);
  }

  /** The first n segments are placed exactly when they fit together in the original memory and the host serves them;
      and whether or not they are, the blocks placed are all there is to undo. */
  ghost predicate PlacedExactly(
    mem: State, base: u64, page: u64, infos: seq<SegmentInfo>, hosts: seq<Option<u64>>, n: nat, p: Placed)
    requires n <= |infos| == |hosts|
  {
    && !p.outcome.Abort?
    && (p.outcome.Ok? <==> Placeable(mem, base, page, infos, n) && HostsGiven(hosts, n))
    && (p.outcome.Ok? ==> Between(mem, base, infos, hosts, n, p))
    && Extends(mem, p.mem, Bases(p.blocks))
  }

  /** One more segment. */
  lemma PlaceNext(
    mem: State, base: u64, page: u64, infos: seq<SegmentInfo>, hosts: seq<Option<u64>>, n: nat, next: nat, p: Placed)
    requires n < next == n + 1 <= |infos| == |hosts| && PlacedExactly(mem, base, page, infos, hosts, n, p)
    ensures PlacedExactly(mem, base, page, infos, hosts, next, PlaceOne(p, base, page, infos[n], hosts[n]))
  {
    PlaceableNext(mem, base, page, infos, n);
    if p.outcome.Ok? {
      NextSucceedsIff(mem, base, page, infos, n, p.mem, hosts[n]);
      var (t, r) := Allocate(p.mem, SegmentArgs(base, page, infos[n]), hosts[n]);
      if r.Ok? {
        NextEffect(p.mem, base, page, infos[n], hosts[n]);
        OneMoreBlock(base, infos, hosts, n, p.blocks, p.mem.alloc, t.alloc);
        BetweenNext(mem, base, infos, hosts, n, p, t, r.value);
        BetweenBases(mem, base, infos, hosts, n + 1, PlaceOne(p, base, page, infos[n], hosts[n]));
      }
    }
  }

  lemma BetweenNext(mem: State, base: u64, infos: seq<SegmentInfo>, hosts: seq<Option<u64>>, n: nat,
                    p: Placed, t: State, block: AllocatedBlock)
    requires n < |infos| == |hosts| && HostsGiven(hosts, n + 1)
    requires Between(mem, base, infos, hosts, n, p)
    requires Extends(p.mem, t, [SegmentBase(base, infos[n])])
    requires Occupied(t.alloc) == Occupied(p.mem.alloc) + Span(SegmentBase(base, infos[n]), infos[n].allocSize)
    requires BlocksPlaced(base, infos, hosts, n + 1, p.blocks + [block], t.alloc)
    ensures Between(mem, base, infos, hosts, n + 1, Placed(t, p.blocks + [block], Ok(())))
  {
    ExtendsTransitive(mem, p.mem, t, SegmentBases(base, infos, n), [SegmentBase(base, infos[n])]);
    UnionAssociative(Occupied(mem.alloc), Claimed(base, infos, n),
                     Span(SegmentBase(base, infos[n]), infos[n].allocSize));
  }

  lemma UnionAssociative(a: iset<int>, b: iset<int>, c: iset<int>)
    ensures a + b + c == a + (b + c)
  {
  }

  lemma OneMoreBlock(base: u64, infos: seq<SegmentInfo>, hosts: seq<Option<u64>>, n: nat,
                     blocks: seq<AllocatedBlock>, alloc: seq<AllocatedBlock>, alloc': seq<AllocatedBlock>)
    requires n < |infos| == |hosts| && HostsGiven(hosts, n + 1) && BlocksPlaced(base, infos, hosts, n, blocks, alloc)
    requires forall b :: b in alloc' <==> b in alloc || b == BlockAt(base, infos[n], hosts[n].value)
    ensures BlocksPlaced(base, infos, hosts, n + 1, blocks + [BlockAt(base, infos[n], hosts[n].value)], alloc')
  {
  }

  function Bases(blocks: seq<AllocatedBlock>): (r: seq<u64>)
    ensures |r| == |blocks| && forall k :: 0 <= k < |blocks| ==> r[k] == blocks[k].virtualBase
  {
    seq(|blocks|, k requires 0 <= k < |blocks| => blocks[k].virtualBase)
  }

  lemma {:induction false} NothingPlaced(
    mem: State, base: u64, page: u64, infos: seq<SegmentInfo>, hosts: seq<Option<u64>>)
    requires Inv(mem) && |infos| == |hosts|
    ensures PlacedExactly(mem, base, page, infos, hosts, 0, Placed(mem, [], Ok(())))
  {
    ExtendsNothing(mem);
    assert Occupied(mem.alloc) == Occupied(mem.alloc) + Claimed(base, infos, 0);
    BetweenBases(mem, base, infos, hosts, 0, Placed(mem, [], Ok(())));
  }

  lemma {:induction false} PlaceAnother(
    mem: State, base: u64, page: u64, infos: seq<SegmentInfo>, hosts: seq<Option<u64>>, n: nat, next: nat)
    requires n < next == n + 1 <= |infos| == |hosts|
    requires PlacedExactly(mem, base, page, infos, hosts, n, PlaceFirst(mem, base, page, infos, hosts, n))
    ensures PlacedExactly(mem, base, page, infos, hosts, next, PlaceFirst(mem, base, page, infos, hosts, next))
  {
    PlaceNext(mem, base, page, infos, hosts, n, next, PlaceFirst(mem, base, page, infos, hosts, n));
  }

  /** Placing the first n segments, for every n. */
  lemma {:induction false} PlacementExact(
    mem: State, base: u64, page: u64, infos: seq<SegmentInfo>, hosts: seq<Option<u64>>, n: nat)
    requires Inv(mem) && n <= |infos| == |hosts|
    ensures PlacedExactly(mem, base, page, infos, hosts, n, PlaceFirst(mem, base, page, infos, hosts, n))
    decreases n
  {
    if n == 0 {
      NothingPlaced(mem, base, page, infos, hosts);
    } else {
      PlacementExact(mem, base, page, infos, hosts, n - 1);
      PlaceAnother(mem, base, page, infos, hosts, n - 1, n);
    }
  }

  lemma BetweenBases(mem: State, base: u64, infos: seq<SegmentInfo>, hosts: seq<Option<u64>>, n: nat, p: Placed)
    requires n <= |infos| == |hosts| && HostsGiven(hosts, n) && Between(mem, base, infos, hosts, n, p)
    ensures Extends(mem, p.mem, Bases(p.blocks))
  {
    assert Bases(p.blocks) == SegmentBases(base, infos, n);
  }

  // ---------- reservation ----------

  function SumSizes(infos: seq<SegmentInfo>, n: nat): nat
    requires n <= |infos|
  {
    if n == 0 then 0 else SumSizes(infos, n - 1) + infos[n - 1].allocSize
  }

  /** Whole-page segments that tile [0, total), in any order: they do not overlap and their sizes add up to total. */
  ghost predicate Tiles(page: u64, infos: seq<SegmentInfo>) {
    && SumSizes(infos, |infos|) < U64
    && (forall k :: 0 <= k < |infos| ==>
          && ValidSize(infos[k].allocSize, page) && Multiple(infos[k].allocOffset, page)
          && infos[k].allocOffset + infos[k].allocSize <= SumSizes(infos, |infos|))
    && (forall j, k :: 0 <= j < k < |infos| ==>
          RangesApart(infos[j].allocOffset, infos[j].allocSize, infos[k].allocOffset, infos[k].allocSize))
  }

  lemma {:induction false} SumMonotone(infos: seq<SegmentInfo>, m: nat, n: nat)
    requires m <= n <= |infos|
    ensures SumSizes(infos, m) <= SumSizes(infos, n)
    decreases n
  {
    if m == n {
    } else {
      SumMonotone(infos, m, n - 1);
    }
  }

  lemma {:induction false} TotalIsSum(page: u64, infos: seq<SegmentInfo>, n: nat)
    requires Tiles(page, infos) && n <= |infos|
    ensures TotalSize(infos, n) == SumSizes(infos, n) && Multiple(TotalSize(infos, n), page)
  {
    if n == 0 {
      assert Multiple(0, page);
    } else {
      TotalIsSum(page, infos, n - 1);
      SumMonotone(infos, n, |infos|);
      MultipleSum(TotalSize(infos, n - 1), infos[n - 1].allocSize, page);
    }
  }

  /** The range reported by the query holds every tile. */
  lemma {:induction false} TilesFit(mem: State, page: u64, infos: seq<SegmentInfo>, base: u64)
    requires Inv(mem) && Tiles(page, infos)
    requires CanStart(mem, base, SumSizes(infos, |infos|), page)
    ensures Placeable(mem, base, page, infos, |infos|)
    ensures forall k :: 0 <= k < |infos| ==> SegmentBase(base, infos[k]) == base + infos[k].allocOffset
  {
    forall k | 0 <= k < |infos|
      ensures SegmentBase(base, infos[k]) == base + infos[k].allocOffset && CanPlace(mem, base, page, infos[k])
    {
      MultipleSum(base, infos[k].allocOffset, page);
    }
    forall j, k | 0 <= j < k < |infos|
      ensures RangesApart(SegmentBase(base, infos[j]), infos[j].allocSize,
                          SegmentBase(base, infos[k]), infos[k].allocSize)
    {
      assert RangesApart(infos[j].allocOffset, infos[j].allocSize, infos[k].allocOffset, infos[k].allocSize);
    }
  }

  /** After the query every enforced hint succeeds, whether or not there is any segment. */
  lemma {:induction false} TilesPlaced(
    mem: State, page: u64, infos: seq<SegmentInfo>, hosts: seq<Option<u64>>, base: u64)
    requires Inv(mem) && Tiles(page, infos) && |hosts| == |infos| && HostsGiven(hosts, |hosts|)
    requires FindFreeAddr(mem, TotalSize(infos, |infos|), page) == Ok(base)
    ensures PlaceFirst(mem, base, page, infos, hosts, |infos|).outcome.Ok?
    ensures forall k :: 0 <= k < |infos| ==> SegmentBase(base, infos[k]) == base + infos[k].allocOffset
  {
    if infos != [] {
      QueryHolds(mem, page, infos);
      TilesFit(mem, page, infos, base);
      PlacementExact(mem, base, page, infos, hosts, |infos|);
    }
  }

  /** The query for nonempty tiles is exact. */
  lemma {:induction false} QueryHolds(mem: State, page: u64, infos: seq<SegmentInfo>)
    requires Inv(mem) && Tiles(page, infos) && infos != []
    ensures var r := FindFreeAddr(mem, TotalSize(infos, |infos|), page);
            && (r.Ok? <==> exists x :: CanStart(mem, x, SumSizes(infos, |infos|), page))
            && (r.Ok? ==> CanStart(mem, r.value, SumSizes(infos, |infos|), page))
            && (!r.Ok? ==> r == Err(NoVirtualMemory))
  {
    TotalIsSum(page, infos, |infos|);
    SumMonotone(infos, 1, |infos|);
    assert SumSizes(infos, 1) == infos[0].allocSize;
    AnswerIsFree(mem, TotalSize(infos, |infos|), page);
  }

  /** Query, then claim piece by piece: every enforced hint succeeds at base + offset, and the query answers exactly
      when the tiles have room anywhere. */
  lemma {:induction false} ReservationHolds(mem: State, page: u64, infos: seq<SegmentInfo>, hosts: seq<Option<u64>>)
    requires Inv(mem) && Tiles(page, infos) && |hosts| == |infos| && HostsGiven(hosts, |hosts|)
    ensures var r := FindFreeAddr(mem, TotalSize(infos, |infos|), page);
            && (infos != [] ==> (r.Ok? <==> exists x :: CanStart(mem, x, SumSizes(infos, |infos|), page)))
            && (r.Ok? ==>
                  var p := PlaceFirst(mem, r.value, page, infos, hosts, |infos|);
                  && p.outcome.Ok? && |p.blocks| == |infos|
                  && forall k :: 0 <= k < |infos| ==>
                       && p.blocks[k].virtualBase == r.value + infos[k].allocOffset
                       && p.blocks[k].size == infos[k].allocSize)
  {
    if infos != [] {
      QueryHolds(mem, page, infos);
    }
    var r := FindFreeAddr(mem, TotalSize(infos, |infos|), page);
    if r.Ok? {
      TilesPlaced(mem, page, infos, hosts, r.value);
      PlacementExact(mem, r.value, page, infos, hosts, |infos|);
    }
  }

  /** If the query answers, every claim succeeds, whatever ranges the host gives. */
  ghost predicate Serves(mem: State, page: u64, infos: seq<SegmentInfo>) {
    var r := FindFreeAddr(mem, TotalSize(infos, |infos|), page);
    r.Ok? ==> forall hosts: seq<Option<u64>> :: |hosts| == |infos| && HostsGiven(hosts, |hosts|) ==>
      PlaceFirst(mem, r.value, page, infos, hosts, |infos|).outcome.Ok?
  }

  lemma {:induction false} TotalUnwrapped(infos: seq<SegmentInfo>, n: nat)
    requires n <= |infos| && SumSizes(infos, |infos|) < U64
    ensures TotalSize(infos, n) == SumSizes(infos, n)
    decreases n
  {
    if n == 0 {
    } else {
      TotalUnwrapped(infos, n - 1);
      SumMonotone(infos, n, |infos|);
    }
  }

  /** What fits a memory of exactly the total size, from address 0 on, tiles. */
  lemma {:induction false} PlacedTile(page: u64, infos: seq<SegmentInfo>, mem: State)
    requires 0 < |infos| && SumSizes(infos, |infos|) < U64 && Placeable(mem, 0, page, infos, |infos|)
    requires mem.max == (if SumSizes(infos, |infos|) == 0 then 1 else SumSizes(infos, |infos|))
    ensures Tiles(page, infos)
  {
    forall k | 0 <= k < |infos|
      ensures SegmentBase(0, infos[k]) == infos[k].allocOffset && CanPlace(mem, 0, page, infos[k])
      ensures infos[k].allocSize <= SumSizes(infos, |infos|)
    {
      SumMonotone(infos, k + 1, |infos|);
    }
    forall j, k | 0 <= j < k < |infos|
      ensures RangesApart(infos[j].allocOffset, infos[j].allocSize, infos[k].allocOffset, infos[k].allocSize)
    {
      assert RangesApart(SegmentBase(0, infos[j]), infos[j].allocSize, SegmentBase(0, infos[k]), infos[k].allocSize);
    }
  }

  /** The query asks for the sum of the sizes, not for the span: it is enough on every heap exactly for tiles. */
  lemma {:induction false} ReservationIff(page: u64, infos: seq<SegmentInfo>)
    requires IsPowerOfTwo(page) && SumSizes(infos, |infos|) <= 0x8000_0000_0000_0000
    ensures Tiles(page, infos) <==> forall mem: State :: Inv(mem) ==> Serves(mem, page, infos)
  {
    if Tiles(page, infos) {
      forall mem: State | Inv(mem)
        ensures Serves(mem, page, infos)
      {
        TilesServed(mem, page, infos);
      }
    } else {
      Unserved(page, infos);
    }
  }

  lemma {:induction false} TilesServed(mem: State, page: u64, infos: seq<SegmentInfo>)
    requires Inv(mem) && Tiles(page, infos)
    ensures Serves(mem, page, infos)
  {
    var r := FindFreeAddr(mem, TotalSize(infos, |infos|), page);
    forall hosts: seq<Option<u64>> | r.Ok? && |hosts| == |infos| && HostsGiven(hosts, |hosts|)
      ensures PlaceFirst(mem, r.value, page, infos, hosts, |infos|).outcome.Ok?
    {
      TilesPlaced(mem, page, infos, hosts, r.value);
    }
  }

  /** For segments that do not tile, a memory of exactly the total size answers the query and cannot serve them. */
  lemma {:induction false} Unserved(page: u64, infos: seq<SegmentInfo>)
    requires IsPowerOfTwo(page) && SumSizes(infos, |infos|) <= 0x8000_0000_0000_0000 && !Tiles(page, infos)
    ensures exists mem: State :: Inv(mem) && !Serves(mem, page, infos)
  {
    var sum := SumSizes(infos, |infos|);
    var mem := Fresh(if sum == 0 then 1 else sum);
    FreshInv(mem.max);
    TotalUnwrapped(infos, |infos|);
    FreshAnswersZero(mem.max, sum, page);
    if Serves(mem, page, infos) {
      var hosts := seq(|infos|, _ => Some(0 as u64));
      assert HostsGiven(hosts, |hosts|);
      PlacementExact(mem, 0, page, infos, hosts, |infos|);
      PlacedTile(page, infos, mem);
    }
  }

  /** The loop invariant of the claim: of the reserved range, exactly the segments placed so far are taken. */
  lemma {:induction false} ReservedUntilClaimed(
    mem: State, page: u64, infos: seq<SegmentInfo>, hosts: seq<Option<u64>>, base: u64, n: nat, x: int)
    requires Inv(mem) && Tiles(page, infos) && |hosts| == |infos| && HostsGiven(hosts, |hosts|) && n <= |infos|
    requires CanStart(mem, base, SumSizes(infos, |infos|), page) && base <= x < base + SumSizes(infos, |infos|)
    ensures x in Occupied(PlaceFirst(mem, base, page, infos, hosts, n).mem.alloc) <==> x in Claimed(base, infos, n)
  {
    TilesFit(mem, page, infos, base);
    assert Placeable(mem, base, page, infos, n);
    PlacementExact(mem, base, page, infos, hosts, n);
  }
}
