/** The bridge's symbol and emitter tables, and the address table (IFT) that host functions are given. */
module BridgeTable {
  import opened Types
  import opened Alignment
  import opened Allocator

  const ENTRY_SIZE: nat := 4
  const IFT_NO_FUNC: u64 := 0xffff_ffff_ffff_ffff
  const BITS_32: nat := 1
  const BITS_64: nat := 2

  /** A host function to be called from generated code, by the instruction set it emits for. */
  datatype Emitter = Emitter32(fn: nat) | Emitter64(fn: nat)

  datatype Table = Table(iftBase: u64, funcs: map<string, u64>, vars: map<string, u64>, emitters: map<u64, Emitter>) {
    predicate HasBuiltIFT() { iftBase != 0 }
    predicate HasSymbol(symbol: string) { symbol in funcs || symbol in vars }
  }

  const EMPTY := Table(0, map[], map[], map[])

  /** The byte size of a table of n entries, as an unsigned word. */
  function TableSize(n: nat): u64 {
    if n * ENTRY_SIZE < U64 then n * ENTRY_SIZE else (n * ENTRY_SIZE) % U64
  }

  function RegisterFunctionImpl(t: Table, symbol: string, emitter: Emitter): (Table, Outcome<()>) {
    if t.HasBuiltIFT() then (t, Err(InvalidOperation))
    else if t.HasSymbol(symbol) then (t, Err(Duplicate))
    else
      var vaddr := TableSize(|t.funcs|);
      (t.(funcs := t.funcs[symbol := vaddr], emitters := t.emitters[vaddr := emitter]), Ok(()))
  }

  /** A function registered for other instruction sets only is left out without an error. */
  function RegisterFunction(t: Table, bitness: nat, bits: nat, symbol: string, fn: nat): (Table, Outcome<()>) {
    var (t1, r1) := if And(bits, BITS_32) != 0 && And(bitness, BITS_32) != 0
                    then RegisterFunctionImpl(t, symbol, Emitter32(fn)) else (t, Ok(()));
    if !r1.Ok? then (t1, r1)
    else if And(bits, BITS_64) != 0 && And(bitness, BITS_64) != 0
    then RegisterFunctionImpl(t1, symbol, Emitter64(fn)) else (t1, Ok(()))
  }

  function RegisterVariable(t: Table, mem: State, symbol: string, vaddr: u64): (Table, Outcome<()>) {
    if t.HasBuiltIFT() then (t, Err(InvalidOperation))
    else if t.HasSymbol(symbol) then (t, Err(Duplicate))
    else if !BlockFromVAddr(mem, vaddr).Ok? then (t, Err(InvalidAddress))
    else (t.(vars := t.vars[symbol := vaddr]), Ok(()))
  }

  function RebasedFuncs(funcs: map<string, u64>, base: u64): map<string, u64> {
    map symbol | symbol in funcs :: Add(funcs[symbol], base)
  }

  function RebasedEmitters(emitters: map<u64, Emitter>, base: u64): map<u64, Emitter> {
    map a | a in emitters :: Add(base, a) := emitters[a]
  }

  /** All entries moved by the base. */
  function Rebased(t: Table): Table {
    t.(funcs := RebasedFuncs(t.funcs, t.iftBase), emitters := RebasedEmitters(t.emitters, t.iftBase))
  }

  function TableArgs(n: nat): AllocArgs {
    AllocArgs(TableSize(n), 4, None, 0)
  }

  function BuildIFT(t: Table, mem: State, host: Option<u64>): (Table, State, Outcome<()>) {
    if t.HasBuiltIFT() then (t, mem, Err(InvalidOperation))
    else if t.funcs == map[] then (t.(iftBase := IFT_NO_FUNC), mem, Ok(()))
    else
      var (mem', r) := Allocate(mem, TableArgs(|t.funcs|), host);
      match r
      case Err(e) => (t, mem', Err(e))
      case Abort => (t, mem', Abort)
      case Ok(block) => (Rebased(t.(iftBase := block.virtualBase)), mem', Ok(()))
  }

  function AddressForSymbol(t: Table, symbol: string): Outcome<u64> {
    if !t.HasBuiltIFT() then Err(InvalidOperation)
    else if symbol in t.funcs then Ok(t.funcs[symbol])
    else if symbol in t.vars then Ok(t.vars[symbol])
    else Err(NotFound)
  }

  /** Emitting a call with the wrong kind of emitter fails an assertion. */
  function EmitCall(t: Table, vaddr: u64, for32: bool): Outcome<nat> {
    if !t.HasBuiltIFT() then Err(InvalidOperation)
    else if vaddr !in t.emitters then Err(NotFound)
    else if t.emitters[vaddr].Emitter32? == for32 then Ok(t.emitters[vaddr].fn)
    else Abort
  }

  // ---------- reference ----------

  datatype Entry = Entry(symbol: string, emitter: Emitter)

  ghost predicate Distinct(es: seq<Entry>) {
    forall i, j :: 0 <= i < j < |es| ==> es[i].symbol != es[j].symbol
  }

  /** Entry k has address base + 4 * k. */
  function FuncMap(es: seq<Entry>, base: u64): map<string, u64>
    requires base + |es| * ENTRY_SIZE < U64
  {
    if es == [] then map[]
    else
      var n := |es| - 1;
      FuncMap(es[..n], base)[es[n].symbol := base + n * ENTRY_SIZE]
  }

  function EmitterMap(es: seq<Entry>, base: u64): map<u64, Emitter>
    requires base + |es| * ENTRY_SIZE < U64
  {
    if es == [] then map[]
    else
      var n := |es| - 1;
      EmitterMap(es[..n], base)[base + n * ENTRY_SIZE := es[n].emitter]
  }

  /** The tables hold exactly the entries, from the base on. */
  ghost predicate Shape(t: Table, base: u64, es: seq<Entry>) {
    && base + |es| * ENTRY_SIZE < U64 && Distinct(es)
    && t.funcs == FuncMap(es, base) && t.emitters == EmitterMap(es, base)
  }
}
