/** After placement: the segments' file bytes, their permissions, and the tables of functions to call. */
module Loading {
  import opened Types
  import opened Blocks
  import opened Gaps
  import opened Allocator
  import opened Lookup
  import opened Freeing
  import opened Translation
  import opened Restore
  import opened Segments
  import opened Words

  // ---------- copying ----------

  function CopyBytes(ram: seq<u8>, dst: nat, bytes: seq<u8>): (r: seq<u8>)
    requires dst + |bytes| <= |ram|
    ensures |r| == |ram|
    ensures forall x :: 0 <= x < |ram| ==> r[x] == if dst <= x < dst + |bytes| then bytes[x - dst] else ram[x]
  {
    ram[..dst] + bytes + ram[dst + |bytes|..]
  }

  /** The copy reads inside the file and writes inside host memory. */
  predicate CopyInside(n: nat, buffer: seq<u8>, b: AllocatedBlock, info: SegmentInfo) {
    && info.fileDataOffset + info.fileDataSize <= |buffer|
    && b.hostBase + info.memDataOffset + info.fileDataSize <= n
  }

  ghost predicate CopiesInside(n: nat, buffer: seq<u8>, blocks: seq<AllocatedBlock>, infos: seq<SegmentInfo>) {
    |blocks| <= |infos| && forall k :: 0 <= k < |blocks| ==> CopyInside(n, buffer, blocks[k], infos[k])
  }

  function FileBytes(buffer: seq<u8>, info: SegmentInfo): seq<u8>
    requires info.fileDataOffset + info.fileDataSize <= |buffer|
  {
    buffer[info.fileDataOffset..info.fileDataOffset + info.fileDataSize]
  }

  function CopyFirst(
    ram: seq<u8>, buffer: seq<u8>, blocks: seq<AllocatedBlock>, infos: seq<SegmentInfo>, n: nat): (r: seq<u8>)
    requires CopiesInside(|ram|, buffer, blocks, infos) && n <= |blocks|
    ensures |r| == |ram|
  {
    if n == 0 then ram
    else
      CopyBytes(CopyFirst(ram, buffer, blocks, infos, n - 1),
                blocks[n - 1].hostBase + infos[n - 1].memDataOffset, FileBytes(buffer, infos[n - 1]))
  }

  /** Each copy stays inside its own block. */
  ghost predicate CopiesFit(blocks: seq<AllocatedBlock>, infos: seq<SegmentInfo>) {
    && |blocks| <= |infos|
    && forall k :: 0 <= k < |blocks| ==> infos[k].memDataOffset + infos[k].fileDataSize <= blocks[k].size
  }

  ghost predicate HostsApart(blocks: seq<AllocatedBlock>) {
    forall i, j :: 0 <= i < j < |blocks| ==> HostApart(blocks[i], blocks[j])
  }

  lemma {:induction false} CopyLast(
    ram: seq<u8>, buffer: seq<u8>, blocks: seq<AllocatedBlock>, infos: seq<SegmentInfo>, k: nat, next: nat)
    requires CopiesInside(|ram|, buffer, blocks, infos) && k < next == k + 1 <= |blocks|
    ensures CopyInside(|ram|, buffer, blocks[k], infos[k])
    ensures CopyFirst(ram, buffer, blocks, infos, next)
            == CopyBytes(CopyFirst(ram, buffer, blocks, infos, k), blocks[k].hostBase + infos[k].memDataOffset,
                         FileBytes(buffer, infos[k]))
  {
  }

  /** Two places hold the same byte. */
  predicate SameByteAt(a: seq<u8>, x: nat, b: seq<u8>, y: nat) {
    x < |a| && y < |b| && a[x] == b[y]
  }

  lemma CopySets(ram: seq<u8>, dst: nat, buffer: seq<u8>, info: SegmentInfo, i: nat, x: nat, y: nat)
    requires info.fileDataOffset + info.fileDataSize <= |buffer| && dst + info.fileDataSize <= |ram|
    requires i < info.fileDataSize && x == dst + i && y == info.fileDataOffset + i
    ensures SameByteAt(CopyBytes(ram, dst, FileBytes(buffer, info)), x, buffer, y)
  {
  }

  lemma CopyKeeps(ram: seq<u8>, dst: nat, bytes: seq<u8>, x: nat, buffer: seq<u8>, y: nat)
    requires dst + |bytes| <= |ram| && SameByteAt(ram, x, buffer, y) && !(dst <= x < dst + |bytes|)
    ensures SameByteAt(CopyBytes(ram, dst, bytes), x, buffer, y)
  {
  }

  lemma CopiesMiss(blocks: seq<AllocatedBlock>, infos: seq<SegmentInfo>, k: nat, n: nat, i: nat, x: nat, dst: nat)
    requires CopiesFit(blocks, infos) && HostsApart(blocks) && k < n < |blocks| && i < infos[k].fileDataSize
    requires x == blocks[k].hostBase + infos[k].memDataOffset + i && dst == blocks[n].hostBase + infos[n].memDataOffset
    ensures !(dst <= x < dst + infos[n].fileDataSize)
  {
    assert HostApart(blocks[k], blocks[n]);
  }

  /** No later copy disturbs the bytes of segment k, which lie from x on in host memory and from y on in the file. */
  lemma {:induction false} CopiedByte(
    ram: seq<u8>, buffer: seq<u8>, blocks: seq<AllocatedBlock>, infos: seq<SegmentInfo>, n: nat, k: nat, i: nat,
    x: nat, y: nat)
    requires CopiesInside(|ram|, buffer, blocks, infos) && CopiesFit(blocks, infos) && HostsApart(blocks)
    requires k < n <= |blocks| && i < infos[k].fileDataSize
    requires x == blocks[k].hostBase + infos[k].memDataOffset + i && y == infos[k].fileDataOffset + i
    ensures SameByteAt(CopyFirst(ram, buffer, blocks, infos, n), x, buffer, y)
    decreases n
  {
    var last := n - 1;
    CopyLast(ram, buffer, blocks, infos, last, n);
    var before, dst := CopyFirst(ram, buffer, blocks, infos, last), blocks[last].hostBase + infos[last].memDataOffset;
    if k == last {
      CopySets(before, dst, buffer, infos[last], i, x, y);
    } else {
      CopiedByte(ram, buffer, blocks, infos, last, k, i, x, y);
      CopiesMiss(blocks, infos, k, last, i, x, dst);
      CopyKeeps(before, dst, FileBytes(buffer, infos[last]), x, buffer, y);
    }
  }

  /** Nor the words. */
  lemma {:induction false} CopiedWord(
    ram: seq<u8>, buffer: seq<u8>, blocks: seq<AllocatedBlock>, infos: seq<SegmentInfo>, n: nat, k: nat, i: nat,
    copied: seq<u8>, h: nat, f: nat)
    requires CopiesInside(|ram|, buffer, blocks, infos) && CopiesFit(blocks, infos) && HostsApart(blocks)
    requires k < n <= |blocks| && i + 4 <= infos[k].fileDataSize && copied == CopyFirst(ram, buffer, blocks, infos, n)
    requires h == blocks[k].hostBase + infos[k].memDataOffset + i && f == infos[k].fileDataOffset + i
    ensures h + 4 <= |copied| && f + 4 <= |buffer| && ReadWord(copied, h) == ReadWord(buffer, f)
  {
    CopiedByte(ram, buffer, blocks, infos, n, k, i, h, f);
    CopiedByte(ram, buffer, blocks, infos, n, k, i + 1, h + 1, f + 1);
    CopiedByte(ram, buffer, blocks, infos, n, k, i + 2, h + 2, f + 2);
    CopiedByte(ram, buffer, blocks, infos, n, k, i + 3, h + 3, f + 3);
  }

  /** Offset off of a live block is off bytes into its host range. */
  lemma BlockByteTranslates(mem: State, b: AllocatedBlock, off: nat, v: u64)
    requires Inv(mem) && HostDisjoint(mem.alloc) && b in mem.alloc && off < b.size && v == b.virtualBase + off
    ensures Translate(mem, v) == Ok(b.hostBase + off)
  {
    var a :| 0 <= a < |mem.alloc| && mem.alloc[a] == b;
    TranslateInBlock(mem, a, v);
  }

  /** Different live blocks, one at the base of each segment. */
  ghost predicate Held(mem: State, base: u64, infos: seq<SegmentInfo>, blocks: seq<AllocatedBlock>) {
    && Inv(mem) && |blocks| == |infos|
    && (forall k :: 0 <= k < |infos| ==> blocks[k] in mem.alloc && blocks[k].virtualBase == SegmentBase(base, infos[k]))
    && (forall j, k :: 0 <= j < k < |blocks| ==> blocks[j] != blocks[k])
  }

  lemma BlocksApartOnHost(mem: State, base: u64, infos: seq<SegmentInfo>, blocks: seq<AllocatedBlock>)
    requires Held(mem, base, infos, blocks) && HostDisjoint(mem.alloc)
    ensures HostsApart(blocks)
  {
  }

  lemma HeldByteTranslates(mem: State, base: u64, infos: seq<SegmentInfo>, blocks: seq<AllocatedBlock>, k: nat,
                           off: nat, v: u64)
    requires Held(mem, base, infos, blocks) && HostDisjoint(mem.alloc) && k < |infos| && off < blocks[k].size
    requires v == SegmentBase(base, infos[k]) + off
    ensures Translate(mem, v) == Ok(blocks[k].hostBase + off)
  {
    BlockByteTranslates(mem, blocks[k], off, v);
  }

  /** In a memory that holds the placed blocks, byte i of segment k is found at the segment's guest address,
      and it is the file's byte. */
  lemma {:induction false} LoadedByte(mem: State, base: u64, infos: seq<SegmentInfo>, blocks: seq<AllocatedBlock>,
                                      ram: seq<u8>, buffer: seq<u8>, k: nat, i: nat, v: u64, host: nat, f: nat)
    requires Held(mem, base, infos, blocks) && HostDisjoint(mem.alloc)
    requires CopiesInside(|ram|, buffer, blocks, infos) && CopiesFit(blocks, infos)
    requires k < |infos| && i < infos[k].fileDataSize
    requires v == SegmentBase(base, infos[k]) + (infos[k].memDataOffset + i)
    requires host == blocks[k].hostBase + infos[k].memDataOffset + i && f == infos[k].fileDataOffset + i
    ensures Translate(mem, v) == Ok(host) && SameByteAt(CopyFirst(ram, buffer, blocks, infos, |infos|), host, buffer, f)
  {
    BlocksApartOnHost(mem, base, infos, blocks);
    CopiedByte(ram, buffer, blocks, infos, |infos|, k, i, host, f);
    HeldByteTranslates(mem, base, infos, blocks, k, infos[k].memDataOffset + i, v);
  }

  lemma PlacedBlocksDiffer(
    mem: State, base: u64, page: u64, infos: seq<SegmentInfo>, hosts: seq<Option<u64>>, p: Placed)
    requires |hosts| == |infos| && HostsGiven(hosts, |hosts|)
    requires Placeable(mem, base, page, infos, |infos|) && Between(mem, base, infos, hosts, |infos|, p)
    ensures forall j, k :: 0 <= j < k < |p.blocks| ==> p.blocks[j] != p.blocks[k]
  {
    forall j, k | 0 <= j < k < |p.blocks|
      ensures p.blocks[j] != p.blocks[k]
    {
      assert CanPlace(mem, base, page, infos[j]) && CanPlace(mem, base, page, infos[k]);
      assert RangesApart(SegmentBase(base, infos[j]), infos[j].allocSize,
                         SegmentBase(base, infos[k]), infos[k].allocSize);
    }
  }

  lemma {:induction false} HeldWordCopied(
    mem: State, base: u64, infos: seq<SegmentInfo>, blocks: seq<AllocatedBlock>, ram: seq<u8>, buffer: seq<u8>, k: nat,
    i: nat, copied: seq<u8>, host: nat, f: nat)
    requires Held(mem, base, infos, blocks) && HostDisjoint(mem.alloc)
    requires CopiesInside(|ram|, buffer, blocks, infos) && CopiesFit(blocks, infos)
    requires k < |infos| && i + 4 <= infos[k].fileDataSize
    requires copied == CopyFirst(ram, buffer, blocks, infos, |infos|)
    requires host == blocks[k].hostBase + infos[k].memDataOffset + i && f == infos[k].fileDataOffset + i
    ensures host + 4 <= |copied| && f + 4 <= |buffer| && ReadWord(copied, host) == ReadWord(buffer, f)
  {
    BlocksApartOnHost(mem, base, infos, blocks);
    CopiedWord(ram, buffer, blocks, infos, |infos|, k, i, copied, host, f);
  }

  /** The same for the word from byte i on, which lies from f on in the file and from host on in host memory. */
  lemma {:induction false} LoadedWord(
    mem: State, base: u64, infos: seq<SegmentInfo>, blocks: seq<AllocatedBlock>, ram: seq<u8>, buffer: seq<u8>, k: nat,
    i: nat, v: u64, copied: seq<u8>, host: nat, f: nat)
    requires Held(mem, base, infos, blocks) && HostDisjoint(mem.alloc)
    requires CopiesInside(|ram|, buffer, blocks, infos) && CopiesFit(blocks, infos)
    requires k < |infos| && i + 4 <= infos[k].fileDataSize
    requires v == SegmentBase(base, infos[k]) + (infos[k].memDataOffset + i)
    requires copied == CopyFirst(ram, buffer, blocks, infos, |infos|)
    requires host == blocks[k].hostBase + infos[k].memDataOffset + i && f == infos[k].fileDataOffset + i
    ensures Translate(mem, v) == Ok(host)
    ensures host + 4 <= |copied| && f + 4 <= |buffer| && ReadWord(copied, host) == ReadWord(buffer, f)
  {
    HeldWordCopied(mem, base, infos, blocks, ram, buffer, k, i, copied, host, f);
    HeldByteTranslates(mem, base, infos, blocks, k, infos[k].memDataOffset + i, v);
  }

  // ---------- permissions ----------

  datatype Protected = Protected(mem: State, outcome: Outcome<()>)

  function ProtectOne(before: Protected, base: u64, info: SegmentInfo): Protected {
    if !before.outcome.Ok? then before
    else
      var (mem, r) := SetFlags(before.mem, SegmentBase(base, info), info.permissions);
      match r
      case Ok(_) => Protected(mem, Ok(()))
      case Err(e) => Protected(mem, Err(e))
      case Abort => Protected(mem, Abort)
  }

  /** Sets the permissions of the first n segments, up to the first failure. */
  function ProtectFirst(mem: State, base: u64, infos: seq<SegmentInfo>, n: nat): Protected
    requires n <= |infos|
  {
    if n == 0 then Protected(mem, Ok(())) else ProtectOne(ProtectFirst(mem, base, infos, n - 1), base, infos[n - 1])
  }

  /** The flags a block has after the first n segments were protected; the last segment with its base decides. */
  function ProtectedFlags(b: AllocatedBlock, base: u64, infos: seq<SegmentInfo>, n: nat): u64
    requires n <= |infos|
  {
    if n == 0 then b.flags
    else if b.virtualBase == SegmentBase(base, infos[n - 1]) then infos[n - 1].permissions
    else ProtectedFlags(b, base, infos, n - 1)
  }

  /** Every segment base is the base of some live block. */
  ghost predicate BasesLive(alloc: seq<AllocatedBlock>, base: u64, infos: seq<SegmentInfo>) {
    forall v :: v in SegmentBases(base, infos, |infos|) ==> LiveBase(alloc, v)
  }

  /** The flags of the first n segments are set, and nothing else has changed. */
  ghost predicate ProtectedExactly(mem: State, base: u64, infos: seq<SegmentInfo>, n: nat, p: Protected)
    requires n <= |infos|
  {
    && p.outcome == Ok(())
    && p.mem.max == mem.max && p.mem.free == mem.free && p.mem.used == mem.used && |p.mem.alloc| == |mem.alloc|
    && forall j :: 0 <= j < |mem.alloc| ==> Reflagged(mem.alloc[j], p.mem.alloc[j], base, infos, n)
  }

  predicate Reflagged(b: AllocatedBlock, c: AllocatedBlock, base: u64, infos: seq<SegmentInfo>, n: nat)
    requires n <= |infos|
  {
    c == b.(flags := ProtectedFlags(b, base, infos, n))
  }

  lemma {:induction false} SameSizesSum(a: seq<AllocatedBlock>, b: seq<AllocatedBlock>)
    requires |a| == |b| && forall j :: 0 <= j < |a| ==> b[j].size == a[j].size
    ensures SumAllocated(b) == SumAllocated(a)
  {
    if a == [] {
    } else {
      SameSizesSum(a[1..], b[1..]);
    }
  }

  /** The invariant does not look at flags. */
  lemma ReflaggedInv(mem: State, base: u64, infos: seq<SegmentInfo>, n: nat, p: Protected)
    requires Inv(mem) && n <= |infos| && ProtectedExactly(mem, base, infos, n, p)
    ensures Inv(p.mem)
  {
    forall j | 0 <= j < |mem.alloc|
      ensures p.mem.alloc[j].virtualBase == mem.alloc[j].virtualBase && p.mem.alloc[j].size == mem.alloc[j].size
    {
      assert Reflagged(mem.alloc[j], p.mem.alloc[j], base, infos, n);
    }
    SameSizesSum(mem.alloc, p.mem.alloc);
    SameSpansOccupied(mem.alloc, p.mem.alloc);
  }

  lemma SameSpansOccupied(a: seq<AllocatedBlock>, b: seq<AllocatedBlock>)
    requires |a| == |b|
    requires forall j :: 0 <= j < |a| ==> b[j].virtualBase == a[j].virtualBase && b[j].size == a[j].size
    ensures Occupied(a) == Occupied(b)
  {
    forall x: int
      ensures Covers(a, x) <==> Covers(b, x)
    {
      if j :| 0 <= j < |a| && a[j].virtualBase <= x < a[j].End() {
        assert b[j].virtualBase <= x < b[j].End();
      }
    }
  }

  /** Setting the flags of the block at a live base succeeds and changes those flags alone. */
  lemma SetFlagsAt(s: State, j: nat, flags: u64)
    requires Inv(s) && j < |s.alloc|
    ensures SetFlags(s, s.alloc[j].virtualBase, flags)
            == (s.(alloc := s.alloc[j := s.alloc[j].(flags := flags)]), Ok(s.alloc[j].flags))
  {
    LookupBase(s.alloc, s.max, j);
  }

  /** Whose block it is, no other block has its base. */
  lemma {:induction false} ReflaggedNext(mem: State, base: u64, infos: seq<SegmentInfo>, n: nat, next: nat,
                                         p: Protected, j: nat, q: State)
    requires n < next == n + 1 <= |infos| && Layout(mem.alloc, 0, mem.max) && ProtectedExactly(mem, base, infos, n, p)
    requires j < |mem.alloc| && mem.alloc[j].virtualBase == SegmentBase(base, infos[n])
    requires q == p.mem.(alloc := p.mem.alloc[j := p.mem.alloc[j].(flags := infos[n].permissions)])
    ensures ProtectedExactly(mem, base, infos, next, Protected(q, Ok(())))
  {
    forall k | 0 <= k < |mem.alloc|
      ensures Reflagged(mem.alloc[k], q.alloc[k], base, infos, next)
    {
      assert Reflagged(mem.alloc[k], p.mem.alloc[k], base, infos, n);
      assert k < j ==> mem.alloc[k].End() <= mem.alloc[j].virtualBase;
      assert j < k ==> mem.alloc[j].End() <= mem.alloc[k].virtualBase;
    }
  }

  lemma ProtectNext(mem: State, base: u64, infos: seq<SegmentInfo>, n: nat, next: nat, p: Protected)
    requires n < next == n + 1 <= |infos|
    requires Inv(mem) && BasesLive(mem.alloc, base, infos) && ProtectedExactly(mem, base, infos, n, p)
    ensures ProtectedExactly(mem, base, infos, next, ProtectOne(p, base, infos[n]))
  {
    assert SegmentBases(base, infos, |infos|)[n] == SegmentBase(base, infos[n]);
    assert LiveBase(mem.alloc, SegmentBase(base, infos[n]));
    var j :| 0 <= j < |mem.alloc| && mem.alloc[j].virtualBase == SegmentBase(base, infos[n]);
    assert Reflagged(mem.alloc[j], p.mem.alloc[j], base, infos, n);
    ReflaggedInv(mem, base, infos, n, p);
    SetFlagsAt(p.mem, j, infos[n].permissions);
    ReflaggedNext(mem, base, infos, n, next, p, j, SetFlags(p.mem, p.mem.alloc[j].virtualBase, infos[n].permissions).0);
  }

  /** The pass sets exactly the segments' permissions, and fails on none of them. */
  lemma {:induction false} ProtectExact(mem: State, base: u64, infos: seq<SegmentInfo>, n: nat, p: Protected)
    requires Inv(mem) && BasesLive(mem.alloc, base, infos) && n <= |infos|
    requires p == ProtectFirst(mem, base, infos, n)
    ensures ProtectedExactly(mem, base, infos, n, p)
  {
    if n == 0 {
    } else {
      var before := ProtectFirst(mem, base, infos, n - 1);
      ProtectExact(mem, base, infos, n - 1, before);
      ProtectNext(mem, base, infos, n - 1, n, before);
    }
  }

  /** Blocks whose flags are set are still undone by the same frees. */
  lemma ProtectedExtends(
    s: State, mem: State, bases: seq<u64>, base: u64, infos: seq<SegmentInfo>, n: nat, p: Protected)
    requires n <= |infos| && Extends(s, mem, bases) && ProtectedExactly(mem, base, infos, n, p)
    requires forall k :: 0 <= k < n ==> SegmentBase(base, infos[k]) in bases
    ensures Extends(s, p.mem, bases)
  {
    ReflaggedInv(mem, base, infos, n, p);
    forall j | 0 <= j < |mem.alloc|
      ensures p.mem.alloc[j] == mem.alloc[j] || (p.mem.alloc[j].virtualBase == mem.alloc[j].virtualBase
                                                 && mem.alloc[j].virtualBase in Elements(bases))
    {
      UnlistedKeepsFlags(mem.alloc[j], base, infos, n);
    }
    WithoutReflagged(mem.alloc, p.mem.alloc, Elements(bases));
  }

  lemma {:induction false} UnlistedKeepsFlags(b: AllocatedBlock, base: u64, infos: seq<SegmentInfo>, n: nat)
    requires n <= |infos|
    ensures ProtectedFlags(b, base, infos, n) == b.flags
            || exists k :: 0 <= k < n && SegmentBase(base, infos[k]) == b.virtualBase
  {
    if n == 0 || b.virtualBase == SegmentBase(base, infos[n - 1]) {
    } else {
      UnlistedKeepsFlags(b, base, infos, n - 1);
    }
  }

  /** With no two segments at one base, each block gets the permissions of its own segment. */
  lemma {:induction false} OwnPermissions(b: AllocatedBlock, base: u64, infos: seq<SegmentInfo>, n: nat, k: nat)
    requires k < n <= |infos| && b.virtualBase == SegmentBase(base, infos[k])
    requires forall j :: 0 <= j < n && j != k ==> SegmentBase(base, infos[j]) != SegmentBase(base, infos[k])
    ensures ProtectedFlags(b, base, infos, n) == infos[k].permissions
  {
    if k == n - 1 {
    } else {
      OwnPermissions(b, base, infos, n - 1, k);
    }
  }

  // ---------- function arrays ----------

  /** 0 and the all-ones word mark no function. */
  predicate IsFunction(addr: u32) {
    addr != 0 && addr != 0xffff_ffff
  }

  function Functions(ram: seq<u8>, addr: nat, numEntries: nat): seq<u64>
    requires addr + 4 * numEntries <= |ram|
  {
    if numEntries == 0 then []
    else
      var entry := ReadWord(ram, addr + 4 * (numEntries - 1));
      Functions(ram, addr, numEntries - 1) + (if IsFunction(entry) then [entry] else [])
  }

  /** The functions read are the entries that are functions, no more and no fewer. */
  lemma {:induction false} FunctionsElements(ram: seq<u8>, addr: nat, numEntries: nat, e: u32)
    requires addr + 4 * numEntries <= |ram|
    ensures e in Functions(ram, addr, numEntries)
            <==> IsFunction(e) && exists k :: 0 <= k < numEntries && ReadWord(ram, addr + 4 * k) == e
  {
    if numEntries == 0 {
    } else {
      FunctionsElements(ram, addr, numEntries - 1, e);
    }
  }

  predicate Ascending(at: seq<nat>, n: nat) {
    && (forall i, j :: 0 <= i < j < |at| ==> at[i] < at[j])
    && (forall i :: 0 <= i < |at| ==> at[i] < n)
  }

  /** fs are the entries at these indices. */
  predicate EntriesAt(ram: seq<u8>, addr: nat, n: nat, fs: seq<u64>, at: seq<nat>)
    requires addr + 4 * n <= |ram|
  {
    |at| == |fs| && forall i :: 0 <= i < |at| ==> at[i] < n && fs[i] == ReadWord(ram, addr + 4 * at[i])
  }

  /** The indices are those of the functions. */
  predicate FunctionsAt(ram: seq<u8>, addr: nat, n: nat, at: seq<nat>)
    requires addr + 4 * n <= |ram|
  {
    forall k :: 0 <= k < n ==> (k in at <==> ReadWord(ram, addr + 4 * k) !in {0, 0xffff_ffff})
  }

  /** The entries at these indices, in ascending order, are the functions of the array: all of them, each once. */
  predicate Picks(ram: seq<u8>, addr: nat, numEntries: nat, fs: seq<u64>, at: seq<nat>)
    requires addr + 4 * numEntries <= |ram|
  {
    Ascending(at, numEntries) && EntriesAt(ram, addr, numEntries, fs, at) && FunctionsAt(ram, addr, numEntries, at)
  }

  lemma PicksSkip(ram: seq<u8>, addr: nat, n: nat, next: nat, fs: seq<u64>, at: seq<nat>)
    requires next == n + 1 && addr + 4 * next <= |ram| && Picks(ram, addr, n, fs, at)
    requires ReadWord(ram, addr + 4 * n) in {0, 0xffff_ffff}
    ensures Picks(ram, addr, next, fs, at)
  {
    assert n !in at;
  }

  lemma AscendingNext(at: seq<nat>, n: nat, next: nat)
    requires next == n + 1 && Ascending(at, n)
    ensures Ascending(at + [n], next)
  {
  }

  lemma EntriesNext(ram: seq<u8>, addr: nat, n: nat, next: nat, fs: seq<u64>, at: seq<nat>, entry: u32)
    requires next == n + 1 && addr + 4 * next <= |ram| && EntriesAt(ram, addr, n, fs, at)
    requires entry == ReadWord(ram, addr + 4 * n)
    ensures EntriesAt(ram, addr, next, fs + [entry], at + [n])
  {
  }

  lemma FunctionsNext(ram: seq<u8>, addr: nat, n: nat, next: nat, at: seq<nat>)
    requires next == n + 1 && addr + 4 * next <= |ram| && FunctionsAt(ram, addr, n, at)
    requires ReadWord(ram, addr + 4 * n) !in {0, 0xffff_ffff}
    ensures FunctionsAt(ram, addr, next, at + [n])
  {
  }

  lemma PicksTake(ram: seq<u8>, addr: nat, n: nat, next: nat, fs: seq<u64>, at: seq<nat>, entry: u32)
    requires next == n + 1 && addr + 4 * next <= |ram| && Picks(ram, addr, n, fs, at)
    requires entry == ReadWord(ram, addr + 4 * n) && entry !in {0, 0xffff_ffff}
    ensures Picks(ram, addr, next, fs + [entry], at + [n])
  {
    AscendingNext(at, n, next);
    EntriesNext(ram, addr, n, next, fs, at, entry);
    FunctionsNext(ram, addr, n, next, at);
  }

  /** The functions read are those of the array, in the array's order. */
  lemma {:induction false} FunctionsInOrder(ram: seq<u8>, addr: nat, numEntries: nat, fs: seq<u64>)
    returns (at: seq<nat>)
    requires addr + 4 * numEntries <= |ram| && fs == Functions(ram, addr, numEntries)
    ensures Picks(ram, addr, numEntries, fs, at)
    decreases numEntries
  {
    if numEntries == 0 {
      at := [];
    } else {
      var n := numEntries - 1;
      var entry := ReadWord(ram, addr + 4 * n);
      at := FunctionsInOrder(ram, addr, n, Functions(ram, addr, n));
      if IsFunction(entry) {
        PicksTake(ram, addr, n, numEntries, Functions(ram, addr, n), at, entry);
        at := at + [n];
      } else {
        PicksSkip(ram, addr, n, numEntries, Functions(ram, addr, n), at);
        assert fs == Functions(ram, addr, n) + [];
      }
    }
  }

  method ArrayRead(ram: array<u8>, addr: nat, numEntries: nat) returns (entries: seq<u64>)
    requires addr + 4 * numEntries <= ram.Length
    ensures entries == Functions(ram[..], addr, numEntries)
  {
    entries := [];
    for i := 0 to numEntries
      invariant entries == Functions(ram[..], addr, i)
    {
      var entry := ReadWord(ram[..], addr + 4 * i);
      if entry != 0 && entry != 0xffff_ffff {
        entries := entries + [entry];
      }
    }
  }
}
