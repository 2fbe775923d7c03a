/** What the bridge's tables mean after any registrations and one buildIFT. */
module BridgeProofs {
  import opened Types
  import opened Alignment
  import opened OrderedSet
  import opened Blocks
  import opened Gaps
  import opened Allocator
  import opened AllocatorInvariant
  import opened Allocation
  import opened FreeAddress
  import opened Lookup
  import opened BridgeTable

  /** The symbols of the map are those of the entries. */
  lemma {:induction false} FuncMapKeys(es: seq<Entry>, base: u64, symbol: string)
    requires base + |es| * ENTRY_SIZE < U64
    ensures symbol in FuncMap(es, base) <==> exists k :: 0 <= k < |es| && es[k].symbol == symbol
  {
    if es == [] {
    } else {
      var n := |es| - 1;
      FuncMapKeys(es[..n], base, symbol);
      if k :| 0 <= k < |es| && es[k].symbol == symbol {
        assert k < n ==> es[..n][k].symbol == symbol;
      }
    }
  }

  /** With distinct symbols every entry keeps its own address, and the map has one key per entry. */
  lemma {:induction false} FuncMapAt(es: seq<Entry>, base: u64)
    requires base + |es| * ENTRY_SIZE < U64 && Distinct(es)
    ensures |FuncMap(es, base)| == |es|
    ensures forall k :: 0 <= k < |es| ==>
              es[k].symbol in FuncMap(es, base) && FuncMap(es, base)[es[k].symbol] == base + k * ENTRY_SIZE
  {
    if es == [] {
    } else {
      var n := |es| - 1;
      var prefix := es[..n];
      FuncMapAt(prefix, base);
      FuncMapKeys(prefix, base, es[n].symbol);
      forall k | 0 <= k < |es|
        ensures es[k].symbol in FuncMap(es, base) && FuncMap(es, base)[es[k].symbol] == base + k * ENTRY_SIZE
      {
        assert k < n ==> prefix[k] == es[k];
      }
    }
  }

  lemma {:induction false} EmitterMapAt(es: seq<Entry>, base: u64, a: u64)
    requires base + |es| * ENTRY_SIZE < U64
    ensures a in EmitterMap(es, base) <==> exists k :: 0 <= k < |es| && a == base + k * ENTRY_SIZE
    ensures forall k :: 0 <= k < |es| && a == base + k * ENTRY_SIZE ==> EmitterMap(es, base)[a] == es[k].emitter
  {
    if es == [] {
    } else {
      var n := |es| - 1;
      EmitterMapAt(es[..n], base, a);
      if k :| 0 <= k < |es| && a == base + k * ENTRY_SIZE {
        assert k < n ==> 0 <= k < |es[..n]|;
      }
    }
  }

  /** Adding a new symbol appends one entry. */
  lemma AppendShape(t: Table, es: seq<Entry>, e: Entry)
    requires Shape(t, 0, es) && e.symbol !in t.funcs && (|es| + 1) * ENTRY_SIZE < U64
    ensures var vaddr := TableSize(|t.funcs|);
            Shape(t.(funcs := t.funcs[e.symbol := vaddr], emitters := t.emitters[vaddr := e.emitter]), 0, es + [e])
  {
    FuncMapAt(es, 0);
    AppendMaps(es, e);
    forall k | 0 <= k < |es|
      ensures es[k].symbol != e.symbol
    {
      assert es[k].symbol in t.funcs;
    }
    AppendDistinct(es, e);
  }

  lemma {:induction false} AppendMaps(es: seq<Entry>, e: Entry)
    requires (|es| + 1) * ENTRY_SIZE < U64
    ensures FuncMap(es + [e], 0) == FuncMap(es, 0)[e.symbol := |es| * ENTRY_SIZE]
    ensures EmitterMap(es + [e], 0) == EmitterMap(es, 0)[|es| * ENTRY_SIZE := e.emitter]
  {
  }

  lemma AppendDistinct(es: seq<Entry>, e: Entry)
    requires Distinct(es) && forall k :: 0 <= k < |es| ==> es[k].symbol != e.symbol
    ensures Distinct(es + [e])
  {
  }

  ghost predicate Registered(t: Table, es: seq<Entry>, symbol: string) {
    symbol in t.vars || exists k :: 0 <= k < |es| && es[k].symbol == symbol
  }

  /** A function is the next entry, unless the table is built or the symbol is taken; then nothing changes. */
  lemma RegisterFunctionExact(t: Table, es: seq<Entry>, symbol: string, emitter: Emitter, t2: Table, r: Outcome<()>)
    requires Shape(t, t.iftBase, es) && (|es| + 1) * ENTRY_SIZE < U64
    requires RegisterFunctionImpl(t, symbol, emitter) == (t2, r)
    ensures r == if t.HasBuiltIFT() then Err(InvalidOperation)
                 else if Registered(t, es, symbol) then Err(Duplicate) else Ok(())
    ensures r.Ok? ==> Shape(t2, 0, es + [Entry(symbol, emitter)]) && t2.vars == t.vars && t2.iftBase == 0
    ensures !r.Ok? ==> t2 == t
  {
    FuncMapKeys(es, t.iftBase, symbol);
    if r.Ok? {
      AppendShape(t, es, Entry(symbol, emitter));
    }
  }

  /** A variable takes a symbol of its own and an allocated address, and changes no function. */
  lemma RegisterVariableExact(t: Table, es: seq<Entry>, mem: State, symbol: string, vaddr: u64, t2: Table,
                              r: Outcome<()>)
    requires Inv(mem) && Shape(t, t.iftBase, es) && RegisterVariable(t, mem, symbol, vaddr) == (t2, r)
    ensures r == if t.HasBuiltIFT() then Err(InvalidOperation)
                 else if Registered(t, es, symbol) then Err(Duplicate)
                 else if vaddr !in Occupied(mem.alloc) then Err(InvalidAddress) else Ok(())
    ensures r.Ok? ==> && Shape(t2, 0, es) && t2.iftBase == 0 && symbol in t2.vars && t2.vars[symbol] == vaddr
                      && t2.vars.Keys == t.vars.Keys + {symbol} && forall v :: v in t.vars ==> t2.vars[v] == t.vars[v]
    ensures !r.Ok? ==> t2 == t
  {
    FuncMapKeys(es, t.iftBase, symbol);
    LookupExact(mem.alloc, mem.max, vaddr);
  }

  datatype Registration =
    | FunctionReg(bits: nat, symbol: string, fn: nat)
    | VariableReg(symbol: string, vaddr: u64, mem: State)

  function Register(t: Table, bitness: nat, reg: Registration): Table {
    match reg
    case FunctionReg(bits, symbol, fn) => RegisterFunction(t, bitness, bits, symbol, fn).0
    case VariableReg(symbol, vaddr, mem) => RegisterVariable(t, mem, symbol, vaddr).0
  }

  function RegisterAll(t: Table, bitness: nat, regs: seq<Registration>): Table
    decreases |regs|
  {
    if regs == [] then t else RegisterAll(Register(t, bitness, regs[0]), bitness, regs[1..])
  }

  /** A registration that applies here: the right instruction set, or an address in an allocated block. */
  predicate Applies(reg: Registration, bitness: nat) {
    match reg
    case FunctionReg(bits, _, _) => And(bits, bitness) != 0
    case VariableReg(_, vaddr, mem) => BlockFromVAddr(mem, vaddr).Ok?
  }

  function EmitterOf(fn: nat, bitness: nat): Emitter {
    if bitness == BITS_32 then Emitter32(fn) else Emitter64(fn)
  }

  /** The entry, if any, that an accepted registration adds to the table. */
  function Contribution(reg: Registration, bitness: nat): seq<Entry> {
    if reg.FunctionReg? then [Entry(reg.symbol, EmitterOf(reg.fn, bitness))] else []
  }

  /** The reference: the functions that are first, among the registrations that apply, to use their symbol. */
  function Accepted(regs: seq<Registration>, bitness: nat, seen: set<string>): (es: seq<Entry>)
    ensures |es| <= |regs|
    decreases |regs|
  {
    if regs == [] then []
    else if regs[0].symbol in seen || !Applies(regs[0], bitness) then Accepted(regs[1..], bitness, seen)
    else Contribution(regs[0], bitness) + Accepted(regs[1..], bitness, seen + {regs[0].symbol})
  }

  lemma {:induction false} AcceptedElements(regs: seq<Registration>, bitness: nat, seen: set<string>)
    ensures forall e :: e in Accepted(regs, bitness, seen) ==>
              e.symbol !in seen && e.emitter == EmitterOf(e.emitter.fn, bitness)
    decreases |regs|
  {
    if regs == [] {
    } else {
      AcceptedElements(regs[1..], bitness, seen);
      AcceptedElements(regs[1..], bitness, seen + {regs[0].symbol});
    }
  }

  /** On a machine of one bitness, at most one of the two registrations takes place. */
  lemma {:induction false} RegisterFunctionOnce(t: Table, bitness: nat, bits: nat, symbol: string, fn: nat)
    requires bitness == BITS_32 || bitness == BITS_64
    ensures RegisterFunction(t, bitness, bits, symbol, fn)
            == if And(bits, bitness) != 0 then RegisterFunctionImpl(t, symbol, EmitterOf(fn, bitness)) else (t, Ok(()))
  {
  }

  predicate Takes(t: Table, bitness: nat, reg: Registration) {
    !t.HasSymbol(reg.symbol) && Applies(reg, bitness)
  }

  /** One registration, before the table is built. */
  lemma RegisterShape(t: Table, bitness: nat, reg: Registration, es: seq<Entry>)
    requires bitness == BITS_32 || bitness == BITS_64
    requires Shape(t, 0, es) && !t.HasBuiltIFT() && (|es| + 1) * ENTRY_SIZE < U64
    ensures !Register(t, bitness, reg).HasBuiltIFT()
    ensures !Takes(t, bitness, reg) ==> Register(t, bitness, reg) == t
    ensures Takes(t, bitness, reg) ==> Shape(Register(t, bitness, reg), 0, es + Contribution(reg, bitness))
  {
    if reg.FunctionReg? {
      RegisterFunctionOnce(t, bitness, reg.bits, reg.symbol, reg.fn);
      if Takes(t, bitness, reg) {
        AppendShape(t, es, Entry(reg.symbol, EmitterOf(reg.fn, bitness)));
      }
    } else {
      assert es + [] == es;
    }
  }

  lemma RegisterSymbols(t: Table, bitness: nat, reg: Registration)
    requires bitness == BITS_32 || bitness == BITS_64
    requires !t.HasBuiltIFT() && Takes(t, bitness, reg)
    ensures Symbols(Register(t, bitness, reg)) == Symbols(t) + {reg.symbol}
  {
    if reg.FunctionReg? {
      RegisterFunctionOnce(t, bitness, reg.bits, reg.symbol, reg.fn);
      UpdateSymbols(t, reg.symbol, EmitterOf(reg.fn, bitness), TableSize(|t.funcs|));
    }
  }

  lemma UpdateSymbols(t: Table, symbol: string, emitter: Emitter, vaddr: u64)
    ensures Symbols(t.(funcs := t.funcs[symbol := vaddr], emitters := t.emitters[vaddr := emitter]))
            == Symbols(t) + {symbol}
  {
  }

  function Symbols(t: Table): set<string> {
    t.funcs.Keys + t.vars.Keys
  }

  lemma FirstRegistration(t: Table, bitness: nat, regs: seq<Registration>, es: seq<Entry>) returns (added: seq<Entry>)
    requires bitness == BITS_32 || bitness == BITS_64
    requires Shape(t, 0, es) && !t.HasBuiltIFT() && (|es| + 1) * ENTRY_SIZE < U64 && regs != []
    ensures |added| <= 1
    ensures var t1 := Register(t, bitness, regs[0]);
            && Shape(t1, 0, es + added) && !t1.HasBuiltIFT()
            && Accepted(regs, bitness, Symbols(t)) == added + Accepted(regs[1..], bitness, Symbols(t1))
  {
    RegisterShape(t, bitness, regs[0], es);
    if Takes(t, bitness, regs[0]) {
      RegisterSymbols(t, bitness, regs[0]);
      added := Contribution(regs[0], bitness);
    } else {
      added := [];
      assert es + added == es;
    }
  }

  /** After any registrations the tables hold exactly the accepted functions, numbered in order. */
  lemma {:induction false} RegistrationsShape(t: Table, bitness: nat, regs: seq<Registration>, es: seq<Entry>)
    requires bitness == BITS_32 || bitness == BITS_64
    requires Shape(t, 0, es) && !t.HasBuiltIFT() && (|es| + |regs|) * ENTRY_SIZE < U64
    ensures !RegisterAll(t, bitness, regs).HasBuiltIFT()
    ensures Shape(RegisterAll(t, bitness, regs), 0, es + Accepted(regs, bitness, Symbols(t)))
    decreases |regs|
  {
    if regs == [] {
      assert es + [] == es;
    } else {
      var added := FirstRegistration(t, bitness, regs, es);
      var t1 := Register(t, bitness, regs[0]);
      RegistrationsShape(t1, bitness, regs[1..], es + added);
      var more := Accepted(regs[1..], bitness, Symbols(t1));
      ConcatAssociative(es, added, more);
    }
  }

  lemma {:induction false} RebaseFuncs(es: seq<Entry>, base: u64)
    requires base + |es| * ENTRY_SIZE < U64
    ensures RebasedFuncs(FuncMap(es, 0), base) == FuncMap(es, base)
  {
    if es == [] {
    } else {
      RebaseFuncs(es[..|es| - 1], base);
    }
  }

  lemma RebasedAt(emitters: map<u64, Emitter>, a: u64, base: u64)
    requires a in emitters
    ensures Add(base, a) in RebasedEmitters(emitters, base)
    ensures RebasedEmitters(emitters, base)[Add(base, a)] == emitters[a]
  {
  }

  lemma RebasedFrom(emitters: map<u64, Emitter>, base: u64, x: u64) returns (a: u64)
    requires x in RebasedEmitters(emitters, base)
    ensures a in emitters && x == Add(base, a) && RebasedEmitters(emitters, base)[x] == emitters[a]
  {
    a :| a in emitters && x == Add(base, a);
    RebasedAt(emitters, a, base);
  }

  lemma RebaseUpdateAt(
    emitters: map<u64, Emitter>, a: u64, e: Emitter, base: u64, x: u64, l: map<u64, Emitter>, r: map<u64, Emitter>)
    requires l == RebasedEmitters(emitters[a := e], base) && r == RebasedEmitters(emitters, base)
    ensures x in l <==> x in r || x == Add(base, a)
    ensures x in l ==> l[x] == if x == Add(base, a) then e else r[x]
  {
    RebasedAt(emitters[a := e], a, base);
    if x in l && x != Add(base, a) {
      var b := RebasedFrom(emitters[a := e], base, x);
      RebasedAt(emitters, b, base);
    }
    if x in r {
      var b := RebasedFrom(emitters, base, x);
      RebasedAt(emitters[a := e], b, base);
    }
  }

  lemma RebaseUpdate(emitters: map<u64, Emitter>, a: u64, e: Emitter, base: u64)
    ensures RebasedEmitters(emitters[a := e], base) == RebasedEmitters(emitters, base)[Add(base, a) := e]
  {
    var l, r := RebasedEmitters(emitters[a := e], base), RebasedEmitters(emitters, base);
    forall x
      ensures x in l <==> x in r[Add(base, a) := e]
      ensures x in l ==> l[x] == r[Add(base, a) := e][x]
    {
      RebaseUpdateAt(emitters, a, e, base, x, l, r);
    }
  }

  /** An update and its rebased counterpart. */
  lemma RebaseStep(before: map<u64, Emitter>, after: map<u64, Emitter>, a: u64, e: Emitter, base: u64,
                   rebased: map<u64, Emitter>, rebasedAfter: map<u64, Emitter>)
    requires after == before[a := e] && rebasedAfter == rebased[Add(base, a) := e]
    requires RebasedEmitters(before, base) == rebased
    ensures RebasedEmitters(after, base) == rebasedAfter
  {
    RebaseUpdate(before, a, e, base);
  }

  lemma {:induction false} LastEmitter(es: seq<Entry>, base: u64, n: nat, a: u64)
    requires base + |es| * ENTRY_SIZE < U64 && |es| == n + 1 && a == n * ENTRY_SIZE
    ensures EmitterMap(es, base) == EmitterMap(es[..n], base)[Add(base, a) := es[n].emitter]
    ensures base == 0 ==> Add(base, a) == a
  {
  }

  lemma {:induction false} RebaseEmitters(es: seq<Entry>, base: u64)
    requires base + |es| * ENTRY_SIZE < U64
    ensures RebasedEmitters(EmitterMap(es, 0), base) == EmitterMap(es, base)
  {
    if es == [] {
    } else {
      var n := |es| - 1;
      var a: u64 := n * ENTRY_SIZE;
      LastEmitter(es, 0, n, a);
      LastEmitter(es, base, n, a);
      RebaseEmitters(es[..n], base);
      RebaseStep(EmitterMap(es[..n], 0), EmitterMap(es, 0), a, es[n].emitter, base,
                 EmitterMap(es[..n], base), EmitterMap(es, base));
    }
  }

  lemma RebaseFreshKey(emitters: map<u64, Emitter>, a: u64, base: u64)
    requires a !in emitters
    ensures Add(base, a) !in RebasedEmitters(emitters, base)
  {
  }

  /** Rebasing moves every entry by the base and loses none. */
  lemma RebaseShape(t: Table, base: u64, es: seq<Entry>)
    requires Shape(t, 0, es) && base + |es| * ENTRY_SIZE < U64
    ensures Shape(Rebased(t.(iftBase := base)), base, es)
  {
    RebaseFuncs(es, base);
    RebaseEmitters(es, base);
  }

  /** The entry's symbol leads to address a, and a leads to the entry's emitter. */
  predicate Leads(t: Table, e: Entry, a: u64) {
    AddressForSymbol(t, e.symbol) == Ok(a) && EmitCall(t, a, e.emitter.Emitter32?) == Ok(e.emitter.fn)
  }

  /** Function k can be found at slot k exactly if the table counts as built. */
  predicate SlotWorks(t: Table, es: seq<Entry>, k: nat) {
    && k < |es| && t.iftBase + k * ENTRY_SIZE < U64
    && (Leads(t, es[k], t.iftBase + k * ENTRY_SIZE) <==> t.HasBuiltIFT())
  }

  lemma ShapeLookup(t: Table, es: seq<Entry>, k: nat)
    requires Shape(t, t.iftBase, es) && k < |es|
    ensures SlotWorks(t, es, k)
  {
    FuncMapAt(es, t.iftBase);
    EmitterMapAt(es, t.iftBase, t.iftBase + k * ENTRY_SIZE);
  }

  /** Slot k of a table of n functions starts at address a. */
  predicate IsSlot(base: u64, n: nat, k: int, a: u64) {
    0 <= k < n && a == base + 4 * k
  }

  lemma {:induction false} SlotsAreKeys(es: seq<Entry>, base: u64, a: u64)
    requires base + |es| * ENTRY_SIZE < U64
    ensures a in EmitterMap(es, base) <==> exists k :: IsSlot(base, |es|, k, a)
    ensures forall k :: IsSlot(base, |es|, k, a) ==>
              a in EmitterMap(es, base) && EmitterMap(es, base)[a] == es[k].emitter
  {
    EmitterMapAt(es, base, a);
    forall k | IsSlot(base, |es|, k, a)
      ensures a in EmitterMap(es, base) && EmitterMap(es, base)[a] == es[k].emitter
    {
      assert a == base + k * ENTRY_SIZE;
    }
    if a in EmitterMap(es, base) {
      var k :| 0 <= k < |es| && a == base + k * ENTRY_SIZE;
      assert IsSlot(base, |es|, k, a);
    }
  }

  /** A built table answers for its slots and for nothing else: each slot gives its own function to callers of its kind
      and fails the others' assertion. */
  lemma EmitCallExact(t: Table, es: seq<Entry>, a: u64, for32: bool)
    requires Shape(t, t.iftBase, es) && t.HasBuiltIFT()
    ensures EmitCall(t, a, for32) == Err(NotFound) <==> forall k :: !IsSlot(t.iftBase, |es|, k, a)
    ensures forall k :: IsSlot(t.iftBase, |es|, k, a) ==>
              EmitCall(t, a, for32)
              == match es[k].emitter
                 case Emitter32(fn) => if for32 then Ok(fn) else Abort
                 case Emitter64(fn) => if for32 then Abort else Ok(fn)
  {
    SlotsAreKeys(es, t.iftBase, a);
  }

  /** Until there is a table, calls are refused. With no functions it is built without a block, and no address is one of
      a host function. */
  lemma EmitCallWithoutSlots(t: Table, mem: State, host: Option<u64>, a: u64, for32: bool)
    requires Shape(t, 0, []) && !t.HasBuiltIFT()
    ensures EmitCall(t, a, for32) == Err(InvalidOperation)
    ensures var (t2, mem2, r) := BuildIFT(t, mem, host);
            && r == Ok(()) && mem2 == mem && t2.iftBase == 0xffff_ffff_ffff_ffff && t2.vars == t.vars
            && Shape(t2, t2.iftBase, []) && EmitCall(t2, a, for32) == Err(NotFound)
  {
  }

  /** What a symbol's address is: its function's slot, or its variable's address. */
  lemma AddressExact(t: Table, es: seq<Entry>, symbol: string)
    requires Shape(t, t.iftBase, es)
    ensures !t.HasBuiltIFT() ==> AddressForSymbol(t, symbol) == Err(InvalidOperation)
    ensures t.HasBuiltIFT() ==> forall k :: 0 <= k < |es| && es[k].symbol == symbol ==>
              && t.iftBase + 4 * k < U64 && AddressForSymbol(t, symbol) == Ok(t.iftBase + 4 * k)
    ensures t.HasBuiltIFT() && (forall k :: 0 <= k < |es| ==> es[k].symbol != symbol) ==>
              AddressForSymbol(t, symbol) == if symbol in t.vars then Ok(t.vars[symbol]) else Err(NotFound)
  {
    FuncMapAt(es, t.iftBase);
    FuncMapKeys(es, t.iftBase, symbol);
  }

  /** No two symbols share a slot. */
  lemma ShapeInjective(t: Table, base: u64, es: seq<Entry>, k: nat, symbol: string)
    requires Shape(t, base, es) && k < |es| && symbol in t.funcs && t.funcs[symbol] == base + k * ENTRY_SIZE
    ensures symbol == es[k].symbol
  {
    FuncMapAt(es, base);
    FuncMapKeys(es, base, symbol);
    var j :| 0 <= j < |es| && es[j].symbol == symbol;
  }

  lemma ShapeCount(t: Table, base: u64, es: seq<Entry>)
    requires Shape(t, base, es)
    ensures |t.funcs| == |es|
  {
    FuncMapAt(es, base);
  }

  lemma FourIsAPower()
    ensures IsPowerOfTwo(4)
  {
  }

  lemma FourDivides(n: nat)
    ensures Multiple(n * ENTRY_SIZE, 4)
  {
    DivModUnique(n * ENTRY_SIZE, 4, n, 0);
  }

  /** An unhinted allocation lands on the address that findFreeAddr reports. */
  lemma UnhintedAddress(mem: State, args: AllocArgs, host: Option<u64>)
    requires args.hint.None? && Allocate(mem, args, host).1.Ok?
    ensures FindFreeAddr(mem, args.size, args.alignment) == Ok(Allocate(mem, args, host).1.value.virtualBase)
  {
  }

  /** What the table claims: 4 * n bytes at the address that findFreeAddr reports, if there is room and the host serves
      them; otherwise nothing. */
  lemma TableClaim(mem: State, n: nat, host: Option<u64>, mem2: State, r: Outcome<AllocatedBlock>)
    requires Inv(mem) && 0 < n && n * ENTRY_SIZE < U64 && Allocate(mem, TableArgs(n), host) == (mem2, r)
    ensures Inv(mem2) && !r.Abort? && (!r.Ok? ==> mem2 == mem)
    ensures r.Ok? <==> host.Some? && exists x :: CanStart(mem, x, n * ENTRY_SIZE, 4)
    ensures !r.Ok? ==>
              r == Err(if exists x :: CanStart(mem, x, n * ENTRY_SIZE, 4) then NoHostMemory else NoVirtualMemory)
    ensures r.Ok? ==> FindFreeAddr(mem, n * ENTRY_SIZE, 4) == Ok(r.value.virtualBase)
    ensures r.Ok? ==> CanStart(mem, r.value.virtualBase, n * ENTRY_SIZE, 4)
  {
    FourIsAPower();
    FourDivides(n);
    UnhintedComplete(mem, TableArgs(n), host);
    if r.Ok? {
      UnhintedAddress(mem, TableArgs(n), host);
    }
  }

  lemma TableBlock(mem: State, n: nat, host: Option<u64>, mem2: State, b: AllocatedBlock)
    requires Inv(mem) && 0 < n && n * ENTRY_SIZE < U64 && Allocate(mem, TableArgs(n), host) == (mem2, Ok(b))
    ensures host.Some? && b == AllocatedBlock(host.value, b.virtualBase, n * ENTRY_SIZE, 0) && b in mem2.alloc
    ensures Occupied(mem2.alloc) == Occupied(mem.alloc) + Span(b.virtualBase, n * ENTRY_SIZE)
  {
    CheckedFits(mem, TableArgs(n));
    AllocateEffect(mem, TableArgs(n), host);
    InsertAtElements(mem.alloc, LowerBound(mem.alloc, AllocatedLess, b), b);
  }

  /** buildIFT is the claim and, if it succeeds, the rebasing. */
  lemma BuildSteps(t: Table, mem: State, host: Option<u64>, es: seq<Entry>, t2: Table, mem2: State, r: Outcome<()>)
    returns (a: Outcome<AllocatedBlock>)
    requires Shape(t, 0, es) && !t.HasBuiltIFT() && es != [] && BuildIFT(t, mem, host) == (t2, mem2, r)
    ensures Allocate(mem, TableArgs(|es|), host) == (mem2, a)
    ensures a.Ok? ==> r == Ok(()) && t2 == Rebased(t.(iftBase := a.value.virtualBase))
    ensures !a.Ok? ==> t2 == t && !r.Ok? && (a.Abort? <==> r.Abort?) && (a.Err? ==> r == Err(a.error))
  {
    ShapeCount(t, 0, es);
    a := Allocate(mem, TableArgs(|es|), host).1;
  }

  /** When buildIFT succeeds, and why it fails otherwise; a failure changes nothing. */
  lemma BuildOutcome(t: Table, mem: State, host: Option<u64>, es: seq<Entry>, t2: Table, mem2: State, r: Outcome<()>)
    requires Inv(mem) && Shape(t, 0, es) && !t.HasBuiltIFT() && es != [] && BuildIFT(t, mem, host) == (t2, mem2, r)
    ensures Inv(mem2) && !r.Abort? && (!r.Ok? ==> t2 == t && mem2 == mem)
    ensures r.Ok? <==> host.Some? && exists x :: CanStart(mem, x, |es| * ENTRY_SIZE, 4)
    ensures !r.Ok? ==>
              r == Err(if exists x :: CanStart(mem, x, |es| * ENTRY_SIZE, 4) then NoHostMemory else NoVirtualMemory)
  {
    var a := BuildSteps(t, mem, host, es, t2, mem2, r);
    TableClaim(mem, |es|, host, mem2, a);
  }

  /** A built table: its functions lie in the range that findFreeAddr reports, which was free. */
  lemma BuildShape(t: Table, mem: State, host: Option<u64>, es: seq<Entry>, t2: Table, mem2: State)
    requires Inv(mem) && Shape(t, 0, es) && !t.HasBuiltIFT() && es != []
    requires BuildIFT(t, mem, host) == (t2, mem2, Ok(()))
    ensures Shape(t2, t2.iftBase, es) && t2.vars == t.vars
    ensures FindFreeAddr(mem, |es| * ENTRY_SIZE, 4) == Ok(t2.iftBase)
    ensures CanStart(mem, t2.iftBase, |es| * ENTRY_SIZE, 4)
  {
    var a := BuildSteps(t, mem, host, es, t2, mem2, Ok(()));
    TableClaim(mem, |es|, host, mem2, a);
    RebaseShape(t, a.value.virtualBase, es);
  }

  /** The table's block: 4 bytes for each function, from the table's base on, and nothing else is claimed. */
  lemma BuildClaims(t: Table, mem: State, host: Option<u64>, es: seq<Entry>, t2: Table, mem2: State)
    requires Inv(mem) && Shape(t, 0, es) && !t.HasBuiltIFT() && es != []
    requires BuildIFT(t, mem, host) == (t2, mem2, Ok(()))
    ensures host.Some? && AllocatedBlock(host.value, t2.iftBase, |es| * ENTRY_SIZE, 0) in mem2.alloc
    ensures Occupied(mem2.alloc) == Occupied(mem.alloc) + Span(t2.iftBase, |es| * ENTRY_SIZE)
  {
    var a := BuildSteps(t, mem, host, es, t2, mem2, Ok(()));
    TableBlock(mem, |es|, host, mem2, a.value);
  }

  lemma EmptyShape()
    ensures Shape(EMPTY, 0, []) && Symbols(EMPTY) == {} && !EMPTY.HasBuiltIFT()
  {
  }

  lemma NothingBefore(es: seq<Entry>)
    ensures [] + es == es
  {
  }

  lemma {:induction false} RegisteredShape(bitness: nat, regs: seq<Registration>)
    requires bitness == BITS_32 || bitness == BITS_64
    requires |regs| * ENTRY_SIZE < U64
    ensures !RegisterAll(EMPTY, bitness, regs).HasBuiltIFT()
    ensures Shape(RegisterAll(EMPTY, bitness, regs), 0, Accepted(regs, bitness, {}))
  {
    EmptyShape();
    RegistrationsShape(EMPTY, bitness, regs, []);
    NothingBefore(Accepted(regs, bitness, {}));
  }

  /** The four bytes of slot k are taken now, and were not before. */
  ghost predicate SlotTaken(mem: State, mem2: State, base: u64, k: nat) {
    forall x :: InRange(x, base + k * ENTRY_SIZE, ENTRY_SIZE) ==> x in Occupied(mem2.alloc) && x !in Occupied(mem.alloc)
  }

  lemma SlotClaimed(mem: State, mem2: State, base: u64, n: nat, k: nat)
    requires k < n && RangeFree(mem, base, n * ENTRY_SIZE)
    requires Occupied(mem2.alloc) == Occupied(mem.alloc) + Span(base, n * ENTRY_SIZE)
    ensures SlotTaken(mem, mem2, base, k)
  {
    forall x | InRange(x, base + k * ENTRY_SIZE, ENTRY_SIZE)
      ensures x in Occupied(mem2.alloc) && x !in Occupied(mem.alloc)
    {
      assert InRange(x, base, n * ENTRY_SIZE);
    }
  }

  /** A built table in memory: its block is live and slot k belongs to it. */
  lemma BuiltSlot(t: Table, mem: State, host: Option<u64>, es: seq<Entry>, k: nat, t2: Table, mem2: State)
    requires Inv(mem) && Shape(t, 0, es) && !t.HasBuiltIFT() && k < |es|
    requires BuildIFT(t, mem, host) == (t2, mem2, Ok(()))
    ensures Shape(t2, t2.iftBase, es) && Multiple(t2.iftBase, 4)
    ensures host.Some? && AllocatedBlock(host.value, t2.iftBase, |es| * ENTRY_SIZE, 0) in mem2.alloc
    ensures SlotTaken(mem, mem2, t2.iftBase, k)
  {
    BuildShape(t, mem, host, es, t2, mem2);
    BuildClaims(t, mem, host, es, t2, mem2);
    SlotClaimed(mem, mem2, t2.iftBase, |es|, k);
  }

  /** The whole life of the table: any registrations, then buildIFT. The table's block is live, function k gets its k-th
      slot, and the slot leads back to the function exactly if the table counts as built; SentinelExact says when. */
  lemma {:induction false} IFTCorrect(bitness: nat, regs: seq<Registration>, mem: State, host: Option<u64>, k: nat,
                                      es: seq<Entry>, t0: Table, t: Table, mem2: State)
    requires bitness == BITS_32 || bitness == BITS_64
    requires Inv(mem) && |regs| * ENTRY_SIZE < U64 && es == Accepted(regs, bitness, {}) && k < |es|
    requires t0 == RegisterAll(EMPTY, bitness, regs) && BuildIFT(t0, mem, host) == (t, mem2, Ok(()))
    ensures Shape(t, t.iftBase, es) && Multiple(t.iftBase, 4)
    ensures host.Some? && AllocatedBlock(host.value, t.iftBase, |es| * ENTRY_SIZE, 0) in mem2.alloc
    ensures SlotTaken(mem, mem2, t.iftBase, k)
    ensures SlotWorks(t, es, k) && (es[k].emitter.Emitter32? <==> bitness == BITS_32)
  {
    RegisteredShape(bitness, regs);
    BuiltSlot(t0, mem, host, es, k, t, mem2);
    ShapeLookup(t, es, k);
    AcceptedEmitter(regs, bitness, k);
  }

  lemma {:induction false} AcceptedEmitter(regs: seq<Registration>, bitness: nat, k: nat)
    requires bitness == BITS_32 || bitness == BITS_64
    requires k < |Accepted(regs, bitness, {})|
    ensures Accepted(regs, bitness, {})[k].emitter.Emitter32? <==> bitness == BITS_32
  {
    AcceptedElements(regs, bitness, {});
    assert Accepted(regs, bitness, {})[k] in Accepted(regs, bitness, {});
  }

  lemma BuiltAboveZero(mem: State, base: u64, size: nat)
    requires 0 in Occupied(mem.alloc) && size > 0 && RangeFree(mem, base, size)
    ensures base != 0
  {
  }

  /** "Base not 0" tells that the table was built, unless the search answers address 0; a held null block prevents
      that. Such a table is not built again. */
  lemma SentinelExact(t: Table, mem: State, host: Option<u64>, es: seq<Entry>, t2: Table, mem2: State)
    requires Inv(mem) && Shape(t, 0, es) && !t.HasBuiltIFT() && BuildIFT(t, mem, host) == (t2, mem2, Ok(()))
    ensures t2.HasBuiltIFT() <==> es == [] || FindFreeAddr(mem, |es| * ENTRY_SIZE, 4) != Ok(0)
    ensures 0 in Occupied(mem.alloc) ==> t2.HasBuiltIFT()
    ensures forall h :: t2.HasBuiltIFT() ==> BuildIFT(t2, mem2, h) == (t2, mem2, Err(InvalidOperation))
  {
    ShapeCount(t, 0, es);
    if es != [] {
      BuildShape(t, mem, host, es, t2, mem2);
      if 0 in Occupied(mem.alloc) {
        BuiltAboveZero(mem, t2.iftBase, |es| * ENTRY_SIZE);
      }
    }
  }

  /** Without a null block, any table that fits a fresh manager is built at 0 and counts as not built. */
  lemma FreshBuildsAtZero(t: Table, max: u64, hostBase: u64, es: seq<Entry>, t2: Table, mem2: State, r: Outcome<()>)
    requires Shape(t, 0, es) && !t.HasBuiltIFT() && es != [] && |es| * ENTRY_SIZE <= max <= 0x8000_0000_0000_0000
    requires BuildIFT(t, Fresh(max), Some(hostBase)) == (t2, mem2, r)
    ensures r.Ok? && !t2.HasBuiltIFT() && forall symbol :: AddressForSymbol(t2, symbol) == Err(InvalidOperation)
  {
    FreshInv(max);
    FourIsAPower();
    FreshAnswersZero(max, |es| * ENTRY_SIZE, 4);
    FourDivides(|es|);
    AnswerIsFree(Fresh(max), |es| * ENTRY_SIZE, 4);
    BuildOutcome(t, Fresh(max), Some(hostBase), es, t2, mem2, r);
    SentinelExact(t, Fresh(max), Some(hostBase), es, t2, mem2);
  }

  /** For one: a single function on a fresh manager of 16 bytes. */
  lemma SentinelFailsAtZero(symbol: string, fn: nat, hostBase: u64)
    ensures var t := RegisterFunctionImpl(EMPTY, symbol, Emitter32(fn)).0;
            var (t2, _, r) := BuildIFT(t, Fresh(16), Some(hostBase));
            r.Ok? && !t2.HasBuiltIFT() && AddressForSymbol(t2, symbol) == Err(InvalidOperation)
  {
    var e := Entry(symbol, Emitter32(fn));
    var t := RegisterFunctionImpl(EMPTY, symbol, Emitter32(fn)).0;
    AppendShape(EMPTY, [], e);
    assert [] + [e] == [e];
    var (t2, mem2, r) := BuildIFT(t, Fresh(16), Some(hostBase));
    FreshBuildsAtZero(t, 16, hostBase, [e], t2, mem2, r);
  }

  /** No function's pseudo-address is the address of a variable whose block is live when the table is built. */
  lemma FunctionsMissVariables(t: Table, mem: State, host: Option<u64>, es: seq<Entry>, t2: Table, mem2: State,
                               v: string, f: string)
    requires Inv(mem) && Shape(t, 0, es) && !t.HasBuiltIFT() && es != []
    requires BuildIFT(t, mem, host) == (t2, mem2, Ok(()))
    requires v in t.vars && t.vars[v] in Occupied(mem.alloc) && f in t.funcs
    ensures v in t2.vars && f in t2.funcs && t2.vars[v] != t2.funcs[f]
  {
    BuildShape(t, mem, host, es, t2, mem2);
    FuncMapKeys(es, 0, f);
    var k :| 0 <= k < |es| && es[k].symbol == f;
    FuncMapAt(es, t2.iftBase);
  }

  /** Every variable in the table comes from a registration that applied. */
  lemma {:induction false} VariablesRegistered(t: Table, bitness: nat, regs: seq<Registration>, v: string)
    requires bitness == BITS_32 || bitness == BITS_64
    requires v in RegisterAll(t, bitness, regs).vars && v !in t.vars
    ensures exists i :: 0 <= i < |regs| && regs[i].VariableReg? && Applies(regs[i], bitness)
                        && regs[i].vaddr == RegisterAll(t, bitness, regs).vars[v]
    decreases |regs|
  {
    if regs == [] {
    } else {
      var t1 := Register(t, bitness, regs[0]);
      VariablesStay(t1, bitness, regs[1..], v);
      if v in t1.vars {
        assert regs[0].VariableReg? && Applies(regs[0], bitness);
      } else {
        VariablesRegistered(t1, bitness, regs[1..], v);
        var i :| 0 <= i < |regs[1..]| && regs[1..][i].VariableReg? && Applies(regs[1..][i], bitness)
                 && regs[1..][i].vaddr == RegisterAll(t1, bitness, regs[1..]).vars[v];
        assert regs[i + 1] == regs[1..][i];
      }
    }
  }

  lemma {:induction false} VariablesStay(t: Table, bitness: nat, regs: seq<Registration>, v: string)
    ensures v in t.vars ==>
              v in RegisterAll(t, bitness, regs).vars && RegisterAll(t, bitness, regs).vars[v] == t.vars[v]
    decreases |regs|
  {
    if regs == [] {
    } else {
      VariablesStay(Register(t, bitness, regs[0]), bitness, regs[1..], v);
    }
  }

  /** If the blocks of the registered variables are still live when the table is built, no function shares a variable's
      address. */
  lemma {:induction false} NoAliasing(bitness: nat, regs: seq<Registration>, mem: State, host: Option<u64>,
                                      t: Table, mem2: State, v: string, f: string)
    requires bitness == BITS_32 || bitness == BITS_64
    requires Inv(mem) && |regs| * ENTRY_SIZE < U64 && Accepted(regs, bitness, {}) != []
    requires BuildIFT(RegisterAll(EMPTY, bitness, regs), mem, host) == (t, mem2, Ok(()))
    requires forall i :: 0 <= i < |regs| && regs[i].VariableReg? && Applies(regs[i], bitness) ==>
               regs[i].vaddr in Occupied(mem.alloc)
    requires v in RegisterAll(EMPTY, bitness, regs).vars && f in RegisterAll(EMPTY, bitness, regs).funcs
    ensures v in t.vars && f in t.funcs && t.vars[v] != t.funcs[f]
  {
    var t0 := RegisterAll(EMPTY, bitness, regs);
    RegisteredShape(bitness, regs);
    VariablesRegistered(EMPTY, bitness, regs, v);
    FunctionsMissVariables(t0, mem, host, Accepted(regs, bitness, {}), t, mem2, v, f);
  }
}
