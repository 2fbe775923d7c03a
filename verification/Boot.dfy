/** Loading a parsed binary from end to end: the table, the segments, the relocations, the arrays of functions. */
module Boot {
  import opened Types
  import opened Gaps
  import opened Allocator
  import opened Allocation
  import opened Restore
  import opened Translation
  import opened BridgeTable
  import opened BridgeProofs
  import opened Elf
  import opened Segments
  import opened Loading
  import opened LoadImage

  datatype FuncArray = FuncArray(offset: u64, size: nat)

  /** What parsing leaves behind: the LOAD headers, the file, the decoded relocations, the function arrays. */
  datatype Image = Image(headers: seq<ProgramHeader>, buffer: seq<u8>, relocs: seq<RelocInfo>,
                         initArray: Option<FuncArray>, finiArray: Option<FuncArray>)

  datatype Snapshot = Snapshot(mem: State, table: Table, ram: seq<u8>, segments: seq<u64>,
                               initializers: seq<u64>, finalizers: seq<u64>)

  /** An absent array leaves the functions as they were. Reading past the end of host memory faults. */
  function ReadFunctions(mem: State, ram: seq<u8>, base: u64, funcs: Option<FuncArray>,
                         before: seq<u64>): Outcome<seq<u64>>
  {
    if funcs.None? then Ok(before)
    else
      match Translate(mem, Add(base, funcs.value.offset))
      case Err(e) => Err(e)
      case Abort => Abort
      case Ok(addr) => if addr + 4 * funcs.value.size > |ram| then Abort else Ok(Functions(ram, addr, funcs.value.size))
  }

  function ReadArrays(s: Snapshot, base: u64, image: Image): (Snapshot, Outcome<()>) {
    match ReadFunctions(s.mem, s.ram, base, image.initArray, s.initializers)
    case Err(e) => (s, Err(e))
    case Abort => (s, Abort)
    case Ok(initializers) =>
      var t := s.(initializers := initializers);
      match ReadFunctions(s.mem, s.ram, base, image.finiArray, s.finalizers)
      case Err(e) => (t, Err(e))
      case Abort => (t, Abort)
      case Ok(finalizers) => (t.(finalizers := finalizers), Ok(()))
  }

  ghost predicate AllLoadable(headers: seq<ProgramHeader>) {
    forall k :: 0 <= k < |headers| ==> Loadable(headers[k])
  }

  /** The host's answers, one per segment, allow the copies: from inside the file to inside host memory. Nothing in the
      code checks this. */
  ghost predicate HostsAllow(n: nat, image: Image, hosts: seq<Option<u64>>) {
    AllLoadable(image.headers) ==>
      && |hosts| == |image.headers|
      && forall k :: 0 <= k < |hosts| && hosts[k].Some? ==> CopyAllowed(n, image, image.headers[k], hosts[k].value)
  }

  predicate CopyAllowed(n: nat, image: Image, p: ProgramHeader, host: u64) {
    && p.offset + p.filesz <= |image.buffer|
    && host + (p.vaddr - RoundDown(p.vaddr, p.align)) + p.filesz <= n
  }

  lemma {:induction false} HostsAllowCopies(n: nat, image: Image, hosts: seq<Option<u64>>, infos: seq<SegmentInfo>)
    requires HostsAllow(n, image, hosts) && InfosOf(image.headers) == Ok(infos)
    ensures CopiesAllowed(n, image.buffer, infos, hosts)
  {
    InfosExact(image.headers);
    forall k | 0 <= k < |infos| && hosts[k].Some?
      ensures infos[k].fileDataOffset + infos[k].fileDataSize <= |image.buffer|
      ensures hosts[k].value + infos[k].memDataOffset + infos[k].fileDataSize <= n
    {
      assert CopyAllowed(n, image, image.headers[k], hosts[k].value) && LaidOut(image.headers[k], infos[k]);
    }
  }

  /** The segments are loaded once their layout is known. */
  function LoadLayout(s: Snapshot, page: u64, image: Image, infos: seq<SegmentInfo>, hosts: seq<Option<u64>>)
    : (Snapshot, Outcome<()>)
    requires CopiesAllowed(|s.ram|, image.buffer, infos, hosts)
  {
    var l := Load(Start(s.mem, s.ram, page, infos, image.buffer, hosts), s.table, s.segments, image.relocs);
    var t := s.(mem := l.mem, ram := l.ram, segments := l.segments);
    match l.outcome
    case Err(e) => (t, Err(e))
    case Abort => (t, Abort)
    case Ok(base) => ReadArrays(t, base, image)
  }

  /** iftHost is the host's answer for the table. */
  function LoadBinary(s: Snapshot, page: u64, image: Image, iftHost: Option<u64>, hosts: seq<Option<u64>>)
    : (Snapshot, Outcome<()>)
    requires HostsAllow(|s.ram|, image, hosts)
  {
    var (table, mem, built) := BuildIFT(s.table, s.mem, iftHost);
    var t := s.(table := table, mem := mem);
    if !built.Ok? then (t, built)
    else
      match InfosOf(image.headers)
      case Err(e) => (t, Err(e))
      case Abort => (t, Abort)
      case Ok(infos) =>
        HostsAllowCopies(|s.ram|, image, hosts, infos);
        LoadLayout(t, page, image, infos, hosts)
  }

  /** The blocks that the bridge's destructor frees. */
  function TableBlocks(t: Table): seq<u64> {
    if t.HasBuiltIFT() && t.iftBase != IFT_NO_FUNC then [t.iftBase] else []
  }

  /** A bridge builds its table from one block, or from none; with a null block held, its destructor knows which. */
  lemma BuildExtends(t: Table, mem: State, host: Option<u64>, es: seq<Entry>, t2: Table, m2: State, r: Outcome<()>)
    requires Inv(mem) && Shape(t, 0, es) && !t.HasBuiltIFT() && 0 in Occupied(mem.alloc)
    requires BuildIFT(t, mem, host) == (t2, m2, r)
    ensures Extends(mem, m2, TableBlocks(t2))
  {
    ShapeCount(t, 0, es);
    if es == [] {
      ExtendsNothing(mem);
    } else {
      BuildOutcome(t, mem, host, es, t2, m2, r);
      if r.Ok? {
        BuiltExtends(t, mem, host, es, t2, m2);
      } else {
        ExtendsNothing(mem);
      }
    }
  }

  lemma BuiltExtends(t: Table, mem: State, host: Option<u64>, es: seq<Entry>, t2: Table, m2: State)
    requires Inv(mem) && Shape(t, 0, es) && !t.HasBuiltIFT() && 0 in Occupied(mem.alloc) && es != []
    requires BuildIFT(t, mem, host) == (t2, m2, Ok(()))
    ensures Extends(mem, m2, TableBlocks(t2))
  {
    ShapeCount(t, 0, es);
    SentinelExact(t, mem, host, es, t2, m2);
    BuildShape(t, mem, host, es, t2, m2);
    var args := TableArgs(|t.funcs|);
    CheckedFits(mem, args);
    AllocateExtends(mem, args, host);
  }

  lemma ReadArraysKeeps(s: Snapshot, base: u64, image: Image)
    ensures var t := ReadArrays(s, base, image).0;
            t.mem == s.mem && t.table == s.table && t.ram == s.ram && t.segments == s.segments
  {
  }

  lemma {:induction false} LayoutExtends(
    s: Snapshot, page: u64, image: Image, infos: seq<SegmentInfo>, hosts: seq<Option<u64>>, start: Start, t: Snapshot)
    requires start == Start(s.mem, s.ram, page, infos, image.buffer, hosts) && Inv(s.mem) && start.Allowed()
    requires t == LoadLayout(s, page, image, infos, hosts).0
    ensures Extends(s.mem, t.mem, if Query(start).Ok? then t.segments else [])
    ensures t.table == s.table && (!Query(start).Ok? ==> t.segments == s.segments)
  {
    var l := Load(start, s.table, s.segments, image.relocs);
    LoadExtends(start, s.table, s.segments, image.relocs, l);
    if l.outcome.Ok? {
      ReadArraysKeeps(s.(mem := l.mem, ram := l.ram, segments := l.segments), l.outcome.value, image);
    }
  }

  /** Loading gets as far as an answered query, after which the list of segments is started anew. */
  predicate Reserves(s: Snapshot, page: u64, image: Image, iftHost: Option<u64>) {
    var (table, mem, built) := BuildIFT(s.table, s.mem, iftHost);
    var infos := InfosOf(image.headers);
    built.Ok? && infos.Ok? && FindFreeAddr(mem, TotalSize(infos.value, |infos.value|), page).Ok?
  }

  /** However loading ends, the table's block and, once the query has answered, the listed segments are all it
      claims. */
  lemma {:induction false} LoadBinaryExtends(s: Snapshot, page: u64, image: Image, iftHost: Option<u64>,
                                             hosts: seq<Option<u64>>, es: seq<Entry>, t: Snapshot)
    requires Inv(s.mem) && 0 in Occupied(s.mem.alloc) && Shape(s.table, 0, es) && !s.table.HasBuiltIFT()
    requires HostsAllow(|s.ram|, image, hosts) && t == LoadBinary(s, page, image, iftHost, hosts).0
    ensures Extends(s.mem, t.mem, TableBlocks(t.table) + (if Reserves(s, page, image, iftHost) then t.segments else []))
    ensures !Reserves(s, page, image, iftHost) ==> t.segments == s.segments
  {
    var (table, mem, built) := BuildIFT(s.table, s.mem, iftHost);
    BuildExtends(s.table, s.mem, iftHost, es, table, mem, built);
    var infos := InfosOf(image.headers);
    if built.Ok? && infos.Ok? {
      var start := Start(mem, s.ram, page, infos.value, image.buffer, hosts);
      HostsAllowCopies(|s.ram|, image, hosts, infos.value);
      LayoutExtends(s.(table := table, mem := mem), page, image, infos.value, hosts, start, t);
      ExtendsTransitive(s.mem, mem, t.mem, TableBlocks(table), if Query(start).Ok? then t.segments else []);
    } else {
      assert TableBlocks(table) + [] == TableBlocks(table);
    }
  }
}
