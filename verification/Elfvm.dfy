/** The guest virtual machine: what it claims, loads into host memory, patches and gives back. */
module GuestVM {
  import opened Types
  import opened Alignment
  import opened Blocks
  import opened Allocator
  import opened Allocation
  import opened Translation
  import opened HostBridge
  import opened Memory
  import opened Elf
  import opened Words
  import opened Relocation
  import opened Segments
  import opened Loading
  import opened LoadImage
  import opened Boot
  import opened Lifecycle

  class ELFVM {
    const mem: MemoryManager
    const ram: array<u8>
    const pageSize: u64
    const stackBase: u64
    const stackTop: u64
    const aborted: bool
    var loadedSegments: seq<u64>
    var initializers: seq<u64>
    var finalizers: seq<u64>

    ghost function Snap(bridge: Bridge): Snapshot
      reads this, mem, ram, bridge
    {
      Snapshot(mem.Abs(), bridge.Abs(), ram[..], loadedSegments, initializers, finalizers)
    }

    /** Each failed step is a failed assertion, and no machine comes of it; ConstructExact tells when there is none. */
    constructor (mem: MemoryManager, ram: array<u8>, pageSize: u64, stackSize: u64,
                 nullHost: Option<u64>, stackHost: Option<u64>)
      requires mem.Valid()
      modifies mem
      ensures this.mem == mem && this.ram == ram && this.pageSize == pageSize
      ensures (mem.Abs(), if aborted then Abort else Ok(Stack(stackBase, stackTop)))
              == Construct(old(mem.Abs()), pageSize, stackSize, nullHost, stackHost)
      ensures mem.Valid()
      ensures loadedSegments == [] && initializers == [] && finalizers == []
    {
      this.mem := mem;
      this.ram := ram;
      this.pageSize := pageSize;
      loadedSegments := [];
      initializers := [];
      finalizers := [];
      var stack := Claim(mem, pageSize, stackSize, nullHost, stackHost);
      aborted := !stack.Ok?;
      stackBase := if stack.Ok? then stack.value.base else 0;
      stackTop := if stack.Ok? then stack.value.top else 0;
      new;
      assert stack == if aborted then Abort else Ok(Stack(stackBase, stackTop));
    }

    /** The checks and the two claims of the constructor. */
    static method Claim(mem: MemoryManager, pageSize: u64, stackSize: u64, nullHost: Option<u64>,
                        stackHost: Option<u64>)
      returns (r: Outcome<Stack>)
      requires mem.Valid()
      modifies mem
      ensures (mem.Abs(), r) == Construct(old(mem.Abs()), pageSize, stackSize, nullHost, stackHost)
      ensures mem.Valid() && !r.Err?
    {
      if !IsPowerOfTwo(pageSize) || AlignDown(stackSize, pageSize) != Ok(stackSize) {
        return Abort;
      }
      NullFlags();
      SegmentFlags();
      CheckedFits(mem.Abs(), NullArgs(pageSize));
      var nullBlock := mem.Allocate(NullArgs(pageSize), nullHost);
      if !nullBlock.Ok? {
        return Abort;
      }
      CheckedFits(mem.Abs(), StackArgs(mem.maxMemory, pageSize, stackSize));
      var block := mem.Allocate(StackArgs(mem.maxMemory, pageSize, stackSize), stackHost);
      if !block.Ok? {
        return Abort;
      }
      return Ok(Stack(block.value.virtualBase, Add(block.value.virtualBase, block.value.size)));
    }

    /** The layout of the LOAD segments and the size they need together. */
    method CollectSegments(headers: seq<ProgramHeader>) returns (r: Outcome<seq<SegmentInfo>>, total: u64)
      ensures r == InfosOf(headers)
      ensures r.Ok? ==> total == TotalSize(r.value, |r.value|)
    {
      var infos: seq<SegmentInfo> := [];
      total := 0;
      for i := 0 to |headers|
        invariant InfosOf(headers[..i]) == Ok(infos)
        invariant total == TotalSize(infos, |infos|)
      {
        assert headers[..i + 1][..i] == headers[..i];
        var info := InfoOf(headers[i]);
        if !info.Ok? {
          BadHeaderDecides(headers, i + 1);
          return if info.Err? then Err(info.error) else Abort, total;
        }
        total := Add(total, info.value.allocSize);
        TotalOfPrefix(infos, info.value, |infos|);
        infos := infos + [info.value];
      }
      assert headers[..|headers|] == headers;
      return Ok(infos), total;
    }

    /** Copies file bytes into host memory. */
    method CopyIntoRam(dst: nat, bytes: seq<u8>)
      requires dst + |bytes| <= ram.Length
      modifies ram
      ensures ram[..] == CopyBytes(old(ram[..]), dst, bytes)
    {
      for i := 0 to |bytes|
        invariant ram[..] == CopyBytes(old(ram[..]), dst, bytes[..i])
      {
        ram[dst + i] := bytes[i];
      }
      assert bytes[..|bytes|] == bytes;
    }

    /** Claims one segment's range by an enforced hint and copies its file bytes there. */
    method PlaceSegment(base: u64, info: SegmentInfo, buffer: seq<u8>, host: Option<u64>)
      returns (r: Outcome<AllocatedBlock>)
      requires mem.Valid()
      requires host.Some? ==> CopyInside(ram.Length, buffer, BlockAt(base, info, host.value), info)
      modifies mem, ram
      ensures forall blocks ::
                PlaceOne(Placed(old(mem.Abs()), blocks, Ok(())), base, pageSize, info, host)
                == AfterPlacing(blocks, mem.Abs(), r)
      ensures mem.Valid() && !r.Abort?
      ensures r.Ok? ==> host == Some(r.value.hostBase) && CopyInside(ram.Length, buffer, r.value, info)
                        && ram[..] == CopyBytes(old(ram[..]), r.value.hostBase + info.memDataOffset,
                                                FileBytes(buffer, info))
      ensures !r.Ok? ==> ram[..] == old(ram[..])
    {
      var args := SegmentArgs(base, pageSize, info);
      SegmentFlags();
      CheckedFits(mem.Abs(), args);
      AllocateHost(mem.Abs(), args, host);
      r := mem.Allocate(args, host);
      if r.Ok? {
        CopyIntoRam(r.value.hostBase + info.memDataOffset, FileBytes(buffer, info));
      }
    }

    /** Claims and fills the segments one after another, up to the first that fails. */
    method PlaceSegments(base: u64, infos: seq<SegmentInfo>, buffer: seq<u8>, hosts: seq<Option<u64>>)
      returns (r: Outcome<()>)
      requires mem.Valid() && CopiesAllowed(ram.Length, buffer, infos, hosts)
      modifies mem, ram, this`loadedSegments
      ensures mem.Valid()
      ensures Mapping(Map(Start(old(mem.Abs()), old(ram[..]), pageSize, infos, buffer, hosts), base), r)
    {
      loadedSegments := [];
      ghost var blocks: seq<AllocatedBlock> := [];
      ghost var start := Start(mem.Abs(), ram[..], pageSize, infos, buffer, hosts);
      for i := 0 to |infos|
        invariant mem.Valid() && loadedSegments == Bases(blocks)
        invariant |blocks| == i && MappedSoFar(start, base, mem.Abs(), ram[..], blocks)
      {
        ghost var memBefore, ramBefore := mem.Abs(), ram[..];
        var block := PlaceSegment(base, infos[i], buffer, hosts[i]);
        if !block.Ok? {
          MappingFails(start, base, memBefore, ramBefore, blocks, mem.Abs(), block.error);
          return Err(block.error);
        }
        MappingGoesOn(start, base, memBefore, ramBefore, blocks, mem.Abs(), block.value);
        BasesNext(blocks, block.value);
        blocks := blocks + [block.value];
        loadedSegments := loadedSegments + [block.value.virtualBase];
      }
      MappingEnds(start, base, mem.Abs(), ram[..], blocks);
      return Ok(());
    }

    /** The machine's memory, host memory and segment list are those of the result; so is the outcome. */
    ghost predicate Mapping(l: Loaded, r: Outcome<()>)
      reads this, mem, ram
    {
      && mem.Abs() == l.mem && ram[..] == l.ram && loadedSegments == l.segments
      && match l.outcome { case Ok(_) => r == Ok(()) case Err(e) => r == Err(e) case Abort => r.Abort? }
    }

    /** Writes one little-endian word into host memory. */
    method WriteRam(a: nat, v: u32)
      requires a + 4 <= ram.Length
      modifies ram
      ensures ram[..] == WriteWord(old(ram[..]), a, v)
    {
      ram[a], ram[a + 1], ram[a + 2], ram[a + 3] := WordByte(v, 0), WordByte(v, 1), WordByte(v, 2), WordByte(v, 3);
    }

    method RelocWriteVAddr(addr: nat, value: int) returns (r: Outcome<()>)
      modifies ram
      ensures Patching(Store(addr, value), old(ram[..]), r)
    {
      if addr + 4 > ram.Length {
        return Abort;
      }
      WriteRam(addr, PatchedWord(Store(addr, value), ReadWord(ram[..], addr)));
      return Ok(());
    }

    method RelocAddBinaryBase(addr: nat, base: int) returns (r: Outcome<()>)
      modifies ram
      ensures Patching(AddTo(addr, base), old(ram[..]), r)
    {
      if addr + 4 > ram.Length {
        return Abort;
      }
      WriteRam(addr, PatchedWord(AddTo(addr, base), ReadWord(ram[..], addr)));
      return Ok(());
    }

    /** The patch is applied, unless its word is past the end of host memory. */
    ghost predicate Patching(p: Patch, before: seq<u8>, r: Outcome<()>)
      reads ram
    {
      if p.addr + 4 > |before| then r.Abort? && ram[..] == before
      else r == Ok(()) && ram[..] == ApplyPatch(before, p)
    }

    /** One relocation: translate, look up, write. */
    method ApplyReloc(bridge: Bridge, base: u64, reloc: RelocInfo) returns (r: Outcome<()>)
      modifies ram
      ensures match PatchOf(mem.Abs(), bridge.Abs(), base, reloc)
              case Err(e) => r == Err(e) && ram[..] == old(ram[..])
              case Abort => r.Abort? && ram[..] == old(ram[..])
              case Ok(p) => Patching(p, old(ram[..]), r)
    {
      var vaddr := Add(base, reloc.patchOffset);
      var block := mem.BlockFromVAddr(vaddr);
      if !block.Ok? {
        return Err(NotFound);
      }
      var patchAddr := VirtualToHost(block.value, vaddr);
      if !patchAddr.Ok? {
        return Err(patchAddr.error);
      }
      if reloc.kind.Relative? {
        if reloc.addend != 0 {
          r := RelocWriteVAddr(patchAddr.value, base + reloc.addend);
        } else {
          r := RelocAddBinaryBase(patchAddr.value, base);
        }
        return;
      }
      if reloc.symbol.None? {
        return Abort;
      }
      var symbolAddr := bridge.AddressForSymbol(reloc.symbol.value);
      match symbolAddr {
        case Err(e) => return Err(e);
        case Abort => return Abort;
        case Ok(value) => r := RelocWriteVAddr(patchAddr.value, value);
      }
    }

    /** Applies the relocations in order, up to the first that fails. */
    method ApplyRelocs(bridge: Bridge, base: u64, relocs: seq<RelocInfo>) returns (r: Outcome<()>)
      modifies ram
      ensures (ram[..], r) == Relocate(mem.Abs(), bridge.Abs(), old(ram[..]), base, relocs)
    {
      for i := 0 to |relocs|
        invariant Relocate(mem.Abs(), bridge.Abs(), ram[..], base, relocs[i..])
                  == Relocate(mem.Abs(), bridge.Abs(), old(ram[..]), base, relocs)
      {
        assert relocs[i..][0] == relocs[i] && relocs[i..][1..] == relocs[i + 1..];
        r := ApplyReloc(bridge, base, relocs[i]);
        if !r.Ok? {
          return;
        }
      }
      return Ok(());
    }

    /** Sets the permissions of one segment. */
    method ProtectSegment(base: u64, info: SegmentInfo) returns (r: Outcome<()>)
      requires mem.Valid()
      modifies mem
      ensures mem.Valid()
      ensures Protected(mem.Abs(), r) == ProtectOne(Protected(old(mem.Abs()), Ok(())), base, info)
    {
      var oldFlags := mem.SetFlags(SegmentBase(base, info), info.permissions);
      return match oldFlags { case Ok(_) => Ok(()) case Err(e) => Err(e) case Abort => Abort };
    }

    /** Sets the permissions of each segment, up to the first that fails. */
    method SetPermissions(base: u64, infos: seq<SegmentInfo>) returns (r: Outcome<()>)
      requires mem.Valid()
      modifies mem
      ensures mem.Valid()
      ensures Protected(mem.Abs(), r) == ProtectFirst(old(mem.Abs()), base, infos, |infos|)
    {
      ghost var mem0 := mem.Abs();
      for i := 0 to |infos|
        invariant mem.Valid() && ProtectedSoFar(mem0, base, infos, i, mem.Abs())
      {
        ghost var before := mem.Abs();
        r := ProtectSegment(base, infos[i]);
        if !r.Ok? {
          ProtectionFails(mem0, base, infos, i, before, Protected(mem.Abs(), r));
          return;
        }
        ProtectGoesOn(mem0, base, infos, i, before, mem.Abs());
      }
      return Ok(());
    }

    /** Loads a collected layout: query, claim and fill, relocate, protect. */
    method LoadSegments(infos: seq<SegmentInfo>, total: u64, buffer: seq<u8>, bridge: Bridge, relocs: seq<RelocInfo>,
                        hosts: seq<Option<u64>>) returns (r: Outcome<u64>)
      requires mem.Valid() && total == TotalSize(infos, |infos|) && CopiesAllowed(ram.Length, buffer, infos, hosts)
      modifies mem, ram, this`loadedSegments
      ensures mem.Valid()
      ensures Loaded(mem.Abs(), ram[..], loadedSegments, r)
              == Load(Start(old(mem.Abs()), old(ram[..]), pageSize, infos, buffer, hosts), bridge.Abs(),
                      old(loadedSegments), relocs)
    {
      r := mem.FindFreeAddr(total, pageSize);
      if !r.Ok? {
        return;
      }
      var base := r.value;
      var placed := PlaceSegments(base, infos, buffer, hosts);
      if !placed.Ok? {
        return if placed.Err? then Err(placed.error) else Abort;
      }
      var patched := ApplyRelocs(bridge, base, relocs);
      if !patched.Ok? {
        return if patched.Err? then Err(patched.error) else Abort;
      }
      var protected := SetPermissions(base, infos);
      if !protected.Ok? {
        return if protected.Err? then Err(protected.error) else Abort;
      }
      return Ok(base);
    }

    /** Reads an array of functions. Reading past the end of host memory faults. */
    method ReadFunctionArray(base: u64, info: FuncArray) returns (r: Outcome<seq<u64>>)
      ensures r == ReadFunctions(mem.Abs(), ram[..], base, Some(info), [])
    {
      var vaddr := Add(base, info.offset);
      var block := mem.BlockFromVAddr(vaddr);
      if !block.Ok? {
        return Err(NotFound);
      }
      var addr := VirtualToHost(block.value, vaddr);
      if !addr.Ok? {
        return Err(addr.error);
      }
      if addr.value + 4 * info.size > ram.Length {
        return Abort;
      }
      var entries := ArrayRead(ram, addr.value, info.size);
      return Ok(entries);
    }

    /** Reads the functions to call first and those to call last. */
    method ReadArrays(base: u64, image: Image, ghost bridge: Bridge) returns (r: Outcome<()>)
      modifies this`initializers, this`finalizers
      ensures (Snap(bridge), r) == Boot.ReadArrays(old(Snap(bridge)), base, image)
    {
      if image.initArray.Some? {
        var entries := ReadFunctionArray(base, image.initArray.value);
        if !entries.Ok? {
          return if entries.Err? then Err(entries.error) else Abort;
        }
        initializers := entries.value;
      }
      if image.finiArray.Some? {
        var entries := ReadFunctionArray(base, image.finiArray.value);
        if !entries.Ok? {
          return if entries.Err? then Err(entries.error) else Abort;
        }
        finalizers := entries.value;
      }
      return Ok(());
    }

    method LoadLayout(bridge: Bridge, image: Image, infos: seq<SegmentInfo>, total: u64, hosts: seq<Option<u64>>)
      returns (r: Outcome<()>)
      requires mem.Valid() && total == TotalSize(infos, |infos|)
      requires CopiesAllowed(ram.Length, image.buffer, infos, hosts)
      modifies mem, ram, this`loadedSegments, this`initializers, this`finalizers
      ensures mem.Valid()
      ensures (Snap(bridge), r) == Boot.LoadLayout(old(Snap(bridge)), pageSize, image, infos, hosts)
    {
      var base := LoadSegments(infos, total, image.buffer, bridge, image.relocs, hosts);
      if !base.Ok? {
        return if base.Err? then Err(base.error) else Abort;
      }
      r := ReadArrays(base.value, image, bridge);
    }

    /** Loads a parsed binary, once host functions and variables are registered with the bridge. */
    method LoadBinary(bridge: Bridge, image: Image, iftHost: Option<u64>, hosts: seq<Option<u64>>)
      returns (r: Outcome<()>)
      requires mem.Valid() && bridge.mem == mem && HostsAllow(ram.Length, image, hosts)
      modifies bridge, mem, ram, this`loadedSegments, this`initializers, this`finalizers
      ensures mem.Valid()
      ensures (Snap(bridge), r) == Boot.LoadBinary(old(Snap(bridge)), pageSize, image, iftHost, hosts)
    {
      r := bridge.BuildIFT(iftHost);
      if !r.Ok? {
        return;
      }
      var infos, total := CollectSegments(image.headers);
      if !infos.Ok? {
        return if infos.Err? then Err(infos.error) else Abort;
      }
      HostsAllowCopies(ram.Length, image, hosts, infos.value);
      r := LoadLayout(bridge, image, infos.value, total, hosts);
    }

    /** Frees the segments, then the stack, then the null block. */
    method Finalize() returns (ok: bool)
      requires mem.Valid()
      modifies mem
      ensures mem.Valid()
      ensures var r := Destroy(old(mem.Abs()), loadedSegments + [stackBase, 0]);
              ok == r.Ok? && (ok ==> mem.Abs() == r.value)
    {
      var vbases := loadedSegments + [stackBase, 0];
      for i := 0 to |vbases|
        invariant mem.Valid()
        invariant Destroy(mem.Abs(), vbases[i..]) == Destroy(old(mem.Abs()), vbases)
      {
        assert vbases[i..][0] == vbases[i] && vbases[i..][1..] == vbases[i + 1..];
        var freed := mem.Free(vbases[i]);
        if !freed.Ok? {
          return false;
        }
      }
      return true;
    }
  }

  /** Once a segment's permissions could not be set, nothing more happens. */
  lemma {:induction false} ProtectFailureSticks(mem: State, base: u64, infos: seq<SegmentInfo>, m: nat, n: nat)
    requires m <= n <= |infos| && !ProtectFirst(mem, base, infos, m).outcome.Ok?
    ensures ProtectFirst(mem, base, infos, n) == ProtectFirst(mem, base, infos, m)
    decreases n
  {
    if m == n {
    } else {
      ProtectFailureSticks(mem, base, infos, m, n - 1);
    }
  }

  ghost predicate ProtectedSoFar(mem0: State, base: u64, infos: seq<SegmentInfo>, i: nat, mem: State) {
    i <= |infos| && ProtectFirst(mem0, base, infos, i) == Protected(mem, Ok(()))
  }

  lemma {:induction false} ProtectionFails(
    mem0: State, base: u64, infos: seq<SegmentInfo>, i: nat, mem: State, p: Protected)
    requires i < |infos| && ProtectedSoFar(mem0, base, infos, i, mem)
    requires p == ProtectOne(Protected(mem, Ok(())), base, infos[i]) && !p.outcome.Ok?
    ensures p == ProtectFirst(mem0, base, infos, |infos|)
  {
    ProtectFailureSticks(mem0, base, infos, i + 1, |infos|);
  }

  lemma {:induction false} ProtectGoesOn(
    mem0: State, base: u64, infos: seq<SegmentInfo>, i: nat, mem: State, mem': State)
    requires i < |infos| && ProtectedSoFar(mem0, base, infos, i, mem)
    requires Protected(mem', Ok(())) == ProtectOne(Protected(mem, Ok(())), base, infos[i])
    ensures ProtectedSoFar(mem0, base, infos, i + 1, mem')
  {
  }

  lemma TotalOfPrefix(infos: seq<SegmentInfo>, info: SegmentInfo, n: nat)
    requires n == |infos|
    ensures TotalSize(infos + [info], n + 1) == Add(TotalSize(infos, n), info.allocSize)
  {
    TotalOfLonger(infos, [info], n);
  }

  lemma {:induction false} TotalOfLonger(infos: seq<SegmentInfo>, more: seq<SegmentInfo>, n: nat)
    requires n <= |infos|
    ensures TotalSize(infos + more, n) == TotalSize(infos, n)
  {
    if n == 0 {
    } else {
      TotalOfLonger(infos, more, n - 1);
    }
  }
}
