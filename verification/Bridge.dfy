/** The bridge between host functions and guest code: its maps, updated in place. */
module HostBridge {
  import opened Types
  import opened Alignment
  import opened Allocation
  import opened BridgeTable
  import opened BridgeProofs
  import opened Memory

  lemma WithoutOneFewer(all: map<u64, Emitter>, left: set<u64>, a: u64)
    requires a in left && a in all
    ensures all - (left - {a}) == (all - left)[a := all[a]]
  {
  }

  /** Draining one more node out of the old map adds one rebased entry. */
  lemma DrainOne(all: map<u64, Emitter>, left: set<u64>, a: u64, base: u64)
    requires a in left && a in all
    ensures Add(base, a) !in RebasedEmitters(all - left, base)
    ensures RebasedEmitters(all - (left - {a}), base) == RebasedEmitters(all - left, base)[Add(base, a) := all[a]]
  {
    RebaseFreshKey(all - left, a, base);
    WithoutOneFewer(all, left, a);
    RebaseUpdate(all - left, a, all[a], base);
  }

  class Bridge {
    const mem: MemoryManager
    const bitness: nat
    var iftBase: u64
    var funcEntries: map<string, u64>
    var varEntries: map<string, u64>
    var emitters: map<u64, Emitter>

    ghost function Abs(): Table
      reads this
    {
      Table(iftBase, funcEntries, varEntries, emitters)
    }

    constructor (mem: MemoryManager, bitness: nat)
      requires bitness == BITS_32 || bitness == BITS_64
      ensures this.mem == mem && this.bitness == bitness && Abs() == EMPTY
    {
      this.mem := mem;
      this.bitness := bitness;
      iftBase := 0;
      funcEntries := map[];
      varEntries := map[];
      emitters := map[];
    }

    predicate HasBuiltIFT()
      reads this
    {
      iftBase != 0
    }

    predicate HasSymbol(symbol: string)
      reads this
    {
      symbol in funcEntries || symbol in varEntries
    }

    method RegisterFunctionImpl(symbol: string, emitter: Emitter) returns (r: Outcome<()>)
      modifies `funcEntries, `emitters
      ensures (Abs(), r) == BridgeTable.RegisterFunctionImpl(old(Abs()), symbol, emitter)
    {
      if HasBuiltIFT() {
        return Err(InvalidOperation);
      }
      if HasSymbol(symbol) {
        return Err(Duplicate);
      }
      var vaddr := TableSize(|funcEntries|);
      funcEntries := funcEntries[symbol := vaddr];
      emitters := emitters[vaddr := emitter];
      return Ok(());
    }

    method RegisterFunction(bits: nat, symbol: string, fn: nat) returns (r: Outcome<()>)
      modifies `funcEntries, `emitters
      ensures (Abs(), r) == BridgeTable.RegisterFunction(old(Abs()), bitness, bits, symbol, fn)
    {
      r := Ok(());
      if And(bits, BITS_32) != 0 && And(bitness, BITS_32) != 0 {
        r := RegisterFunctionImpl(symbol, Emitter32(fn));
        if !r.Ok? {
          return;
        }
      }
      if And(bits, BITS_64) != 0 && And(bitness, BITS_64) != 0 {
        r := RegisterFunctionImpl(symbol, Emitter64(fn));
      }
    }

    method RegisterVariable(symbol: string, vaddr: u64) returns (r: Outcome<()>)
      modifies `varEntries
      ensures (Abs(), r) == BridgeTable.RegisterVariable(old(Abs()), mem.Abs(), symbol, vaddr)
    {
      if HasBuiltIFT() {
        return Err(InvalidOperation);
      }
      if HasSymbol(symbol) {
        return Err(Duplicate);
      }
      var block := mem.BlockFromVAddr(vaddr);
      if !block.Ok? {
        return Err(InvalidAddress);
      }
      varEntries := varEntries[symbol := vaddr];
      return Ok(());
    }

    /** Adds the base to every function entry, in whatever order the map is walked. */
    method RebaseFuncEntries()
      modifies `funcEntries
      ensures funcEntries == RebasedFuncs(old(funcEntries), iftBase)
    {
      var todo := funcEntries.Keys;
      while todo != {}
        invariant todo <= funcEntries.Keys == old(funcEntries).Keys
        invariant forall symbol :: symbol in funcEntries ==>
          funcEntries[symbol]
          == if symbol in todo then old(funcEntries)[symbol] else Add(old(funcEntries)[symbol], iftBase)
        decreases |todo|
      {
        var symbol :| symbol in todo;
        todo := todo - {symbol};
        funcEntries := funcEntries[symbol := Add(funcEntries[symbol], iftBase)];
      }
    }

    /** Drains the emitters one by one into a new map, under their rebased addresses. */
    method RebaseEmitters()
      modifies `emitters
      ensures emitters == RebasedEmitters(old(emitters), iftBase)
    {
      var rebased: map<u64, Emitter> := map[];
      ghost var all := emitters;
      assert all - all.Keys == map[];
      while emitters != map[]
        invariant emitters.Keys <= all.Keys && forall a :: a in emitters ==> emitters[a] == all[a]
        invariant rebased == RebasedEmitters(all - emitters.Keys, iftBase)
        decreases emitters.Keys
      {
        var node :| node in emitters;
        var emitter := emitters[node];
        DrainOne(all, emitters.Keys, node, iftBase);
        assert (emitters - {node}).Keys == emitters.Keys - {node};
        emitters := emitters - {node};
        if Add(iftBase, node) !in rebased {
          rebased := rebased[Add(iftBase, node) := emitter];
        }
      }
      assert emitters.Keys == {} && all - {} == all;
      emitters := rebased;
    }

    /** Moves every entry by the base of the table. */
    method Rebase()
      modifies `funcEntries, `emitters
      ensures Abs() == Rebased(old(Abs()))
    {
      RebaseFuncEntries();
      RebaseEmitters();
    }

    method BuildIFT(host: Option<u64>) returns (r: Outcome<()>)
      requires mem.Valid()
      modifies this, mem
      ensures (Abs(), mem.Abs(), r) == BridgeTable.BuildIFT(old(Abs()), old(mem.Abs()), host)
      ensures mem.Valid() && !r.Abort?
    {
      if HasBuiltIFT() {
        return Err(InvalidOperation);
      }
      if funcEntries == map[] {
        iftBase := IFT_NO_FUNC;
        return Ok(());
      }
      CheckedFits(mem.Abs(), TableArgs(|funcEntries|));
      var block := mem.Allocate(TableArgs(|funcEntries|), host);
      match block {
        case Err(e) => return Err(e);
        case Abort => return Abort;
        case Ok(b) => iftBase := b.virtualBase;
      }
      Rebase();
      return Ok(());
    }

    /** Gives the table's block back, if there is one. A free that fails fails an assertion. */
    method Finalize() returns (ok: bool)
      requires mem.Valid()
      modifies mem
      ensures mem.Valid()
      ensures if iftBase == 0 || iftBase == IFT_NO_FUNC then ok && mem.Abs() == old(mem.Abs())
              else var (m, r) := Allocator.Free(old(mem.Abs()), iftBase); ok == r.Ok? && mem.Abs() == m
    {
      if HasBuiltIFT() && iftBase != IFT_NO_FUNC {
        var r := mem.Free(iftBase);
        return r.Ok?;
      }
      return true;
    }

    method AddressForSymbol(symbol: string) returns (r: Outcome<u64>)
      ensures r == BridgeTable.AddressForSymbol(Abs(), symbol)
    {
      if !HasBuiltIFT() {
        return Err(InvalidOperation);
      }
      if symbol in funcEntries {
        return Ok(funcEntries[symbol]);
      }
      if symbol in varEntries {
        return Ok(varEntries[symbol]);
      }
      return Err(NotFound);
    }

    method EmitCall(vaddr: u64, for32: bool) returns (r: Outcome<nat>)
      ensures r == BridgeTable.EmitCall(Abs(), vaddr, for32)
    {
      if !HasBuiltIFT() {
        return Err(InvalidOperation);
      }
      if vaddr in emitters {
        var emitter := emitters[vaddr];
        if emitter.Emitter32? != for32 {
          return Abort;
        }
        return Ok(emitter.fn);
      }
      return Err(NotFound);
    }
  }
}
