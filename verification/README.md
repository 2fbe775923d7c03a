# DasHLE: guest memory, bridge and loader

DasHLE runs ARM libraries on a host machine. This project models the parts of it on which everything else rests, and
proves what they promise.

- **The guest memory manager.** A best-fit allocator over `[0, maxMemory)` with two ordered sets: allocated blocks by
  address, free blocks by (size, base). It never recomputes the free set; `allocate` splits one free block and `free`
  derives by arithmetic which free blocks must be its neighbours. All of it depends on one invariant, `Allocator.Inv`:
  *the free set is exactly the set of maximal gaps of the allocated set.* `Allocator.dfy` states every operation as a
  function of the state, called the reference below; the class `Memory.MemoryManager` updates its sets in place, with
  the search loops, and is proved to compute those functions; the lemmas are about the functions.
- **Power-of-two alignment.** Bitwise code on 64-bit words, and the floors and ceilings everyone reads into it.
- **The bridge.** Symbols of host functions become pseudo-addresses in a table (the IFT) that is claimed from the
  memory manager; `buildIFT` rebases two maps in step. `BridgeTable.dfy` has the functions, `HostBridge.Bridge` the
  class.
- **The loader.** `ELFVM` holds a null block and a stack, queries for a free range, claims it piece by piece with
  enforced hints, copies, relocates, protects, and reads the arrays of functions to call. `Segments`, `Loading`,
  `Relocation`, `LoadImage` and `Boot` have the functions, `FinalImage`, `BinaryImage` and `Outcomes` what they come to,
  `GuestVM.ELFVM` the class.

A call comes to a value, to one of the errors, or to `Abort`: a failed assertion (`DASHLE_ASSERT`), which ends the
process. "No assertion fails" is therefore a statement about results. Unsigned arithmetic wraps modulo 2^64 wherever the
code computes with words (`Types.Add`, `Types.Sub`), and modulo 2^32 in relocated words. The host allocator's answers
are parameters: a host base, or nothing. Host memory is one array of bytes.

## Where the code is narrower than its intent

Each of these is stated for all inputs, as an exact condition under which the code does meet the intent.

- *Loose hints overrun.* A hint that is not enforced is not checked for room after rounding, or after falling back to
  the block's base. `allocate` keeps the gap invariant exactly when the placement chosen fits its free block
  (`Allocation.AllocateKeepsIff`; spelled out in `LooseHintFits` and `LooseAlignedHintFits`; `Translation.LooseHintRun`
  is a run of two requests that breaks it). Unhinted and enforced-hint requests, the only ones the repository makes,
  always fit.
- *`findFreeAddr` by itself.* Its room check wraps for sizes below the alignment: the answer is sound on every heap
  exactly when the alignment is at most one more than the size, or than 1 if the size is 0
  (`FreeAddress.AnswerSoundIff`). `allocate` and page-multiple segments stay clear of that.
- *The loader's reservation.* It asks for the sum of the sizes, not for the span of the segments. That is enough on
  every heap exactly when the segments tile (`Segments.ReservationIff`).
- *`allocationSize` ignores where in its first page a segment starts.* For a given start address the file bytes, and
  the segment's whole memory, stay inside the allocation for all sizes exactly when the start is a multiple of the
  alignment (`Elf.CopyFitsIff`). The lemmas about loaded images carry the condition for the segments at hand
  (`FinalImage.InfosFit`, `BinaryImage.DataFits`).
- *Addends.* Section 4.6, "Relocation", of ELF for the ARM Architecture (IHI 0044E) adds an addend A: an explicit one in
  a RELA entry, the word in place in a REL entry, and 0 in a REL jump slot. The code takes a RELA relative entry with
  addend 0 for one with its addend in place, and leaves the addend out of symbol entries, explicit or in place.
  `Relocation.RelativeMeetsAbi` and `SymbolMeetsAbi` say exactly which decoded entries meet the section;
  `RelAddendIsLost` is one that does not.
- *A second load.* It forgets the segments of the first without freeing them. Everything is given back exactly when
  there were none, or the second load ended before its query answered (`Lifecycle.LeavesNoTraceIff`).
- *`reset` keeps the used counter.* The invariant survives it exactly when nothing was in use (`Runs.ResetKeepsIff`).
- *"Base not 0" as "built".* Exact unless the table is put at address 0, which only a held null block excludes
  (`BridgeProofs.SentinelExact`, `FreshBuildsAtZero`).

## Main results

- Every run of checked requests keeps the gap invariant and trips no assertion; with loose hints, exactly if each claim
  fits: `Runs.ReachableSound`, `Runs.RunSafeIff`.
- `allocate` searches completely, fits best and honours enforced hints exactly: `Allocation.UnhintedComplete`,
  `UnhintedBestFit`, `ForcedExact`. Plain requests waste nothing: `Runs.NoWaste`.
- `free` never trips its assertion, undoes `allocate`, and its order does not matter: `Freeing.FreeExact`,
  `AllocateFreeRoundTrip`, `FreeOrderIrrelevant`, `FreeEverything`.
- Lookup with the mixed comparator is sound, translation injective and stable: `Lookup.DescentFindsLowerBound`,
  `Translation.TranslateInjective`, `TranslationStable`.
- The bridge's table is right after any registrations, and in a block of its own; it answers for its slots and for no
  other address: `BridgeProofs.IFTCorrect`, `EmitCallExact`, `NoAliasing`.
- The loader's reservation serves its claims, whatever the order of the segments: `Segments.ReservationHolds`,
  `PlacementExact`.
- A binary that was loaded is in place: its bytes, relocated words, blocks, permissions and functions are those that its
  headers, file, relocations and arrays ask for, at one base: `BinaryImage.LoadedBinary`. When that happens, and which
  error it is otherwise: `Outcomes.BinaryOutcome`, `BinaryRefused`.
- A loaded layout is the file, relocated; at another base it is the same image, shifted: `FinalImage.LoadsIff`,
  `LoadedFileByte`, `LoadedFileWord`, `RebaseKeepsBytes`, `RebaseShiftsWords`.
- Whatever a load comes to, the machine's destructors trip no assertion and give everything back:
  `Lifecycle.LeavesNoTraceIff`.

## Files

| file | contents |
|---|---|
| `Types`, `OrderedSet` | words, errors, outcomes; sorted sequences as ordered sets |
| `Alignment` | bitwise alignment and its arithmetic meaning |
| `Blocks`, `Gaps` | blocks, their two orders, maximal gaps |
| `Allocator`, `AllocatorInvariant` | the manager's operations as functions; what keeps the gap invariant |
| `Allocation`, `Lookup`, `Freeing`, `FreeAddress` | what each operation promises |
| `Runs`, `Translation` | whole runs; guest to host addresses |
| `MemoryManager` | the manager, updated in place |
| `BridgeTable`, `BridgeProofs`, `Bridge` | the bridge: functions, proofs, class |
| `Elf`, `Words`, `Relocation` | decoded ELF entries, patches of words, the relocation pass |
| `Restore`, `Segments`, `Loading`, `LoadImage`, `Boot` | undoing claims; placing, copying and protecting segments; the whole load |
| `FinalImage` | the image that loading a layout leaves behind |
| `BinaryImage`, `Outcomes` | what loading a binary leaves behind, in its headers' terms, and what it comes to |
| `Lifecycle`, `Elfvm` | construction and destruction; the machine's class |

## Model

| member | source | states |
|---|---|---|
| Alignment.AlignDownIsFloor | source/DasHLE/Support/Math.h:15-21 | alignDown is the greatest multiple not above the value, and the value itself exactly for multiples; an alignment that is no power of two is refused |
| Alignment.AlignUpIsCeiling | source/DasHLE/Support/Math.h:23-29 | alignUp is the least multiple not below the value as long as the sum does not wrap; past that point it is 0 although the value is no multiple; other alignments are refused |
| Alignment.AlignedBaseIsCeiling | source/DasHLE/Host/Memory.cpp:152-162 | alignedBase is the least aligned address not below the base, and 0 where no word is one; other alignments are refused |
| Alignment.PowerOfTwoIff | source/DasHLE/Support/Math.h:10-13 | The bit trick accepts exactly the words 2^k |
| Alignment.AndIsBitwise | source/DasHLE/Support/Math.h:15-21 | The arithmetic "and" computes, at every bit position, the bitwise "and" |
| Alignment.NotIsBitwise | source/DasHLE/Support/Math.h:15-21 | The arithmetic complement flips exactly the low w bits |
| Alignment.AlignedSizeCoversAlignment | source/DasHLE/Host/Memory.cpp:211-216 | The aligned-size check makes every accepted size at least the alignment |
| Gaps.GapsApart | source/DasHLE/Host/Memory.cpp:363-368 | Two maximal gaps neither overlap nor touch |
| Gaps.SplitGap | source/DasHLE/Host/Memory.cpp:315-328 | Claiming a range of a gap turns that gap into its nonempty remnants and leaves every other gap alone, both directions |
| Gaps.GapListExact | source/DasHLE/Host/Memory.cpp:363-368 | The gaps walked off in address order are exactly the maximal gaps |
| Gaps.GapListFills | source/DasHLE/Host/Memory.cpp:363-368 | Gaps and blocks fill the address space; there is at most one gap more than blocks |
| Gaps.IndexIsGapList | source/DasHLE/Host/Memory.cpp:70-73 | A sorted free index that lists exactly the maximal gaps is a rearrangement of the gap list |
| AllocatorInvariant.FreshInv | source/DasHLE/Host/Memory.cpp:75-86 | A new manager satisfies the gap invariant |
| AllocatorInvariant.StateDetermined | source/DasHLE/Host/Memory.cpp:70-73 | The allocated set determines the free index and the counter |
| AllocatorInvariant.Conservation | source/DasHLE/Host/Memory.h:62-64 | usedMemory is the sum of the allocated sizes, availableMemory the sum of the free sizes, and there are at most |allocated| + 1 free blocks |
| AllocatorInvariant.SplitExact | source/DasHLE/Host/Memory.cpp:315-328 | The split replaces the chosen free block by exactly its nonempty remnants, none of the subtractions wrapping |
| AllocatorInvariant.ClaimKeeps | source/DasHLE/Host/Memory.cpp:301-334 | Claiming a range inside a free block trips no assertion, keeps the invariant and occupies exactly that range |
| AllocatorInvariant.OverrunBreaks | source/DasHLE/Host/Memory.cpp:301-334 | Claiming past the end of the free block trips the insertion assertion or breaks the invariant |
| Allocation.RefusalExact | source/DasHLE/Host/Memory.cpp:202-227 | In arithmetic terms, which requests pass the checks before the search and with which error each other one is refused, in the order of the checks |
| Allocation.LooseHintOverruns | source/DasHLE/Host/Memory.cpp:264-273 | A state with room for a request whose loose hint nevertheless breaks the invariant |
| Allocation.RoomExact | source/DasHLE/Host/Memory.cpp:171-182 | For a valid request the room check is exact: it accepts a block exactly when the block admits an aligned placement, and its subtractions do not wrap |
| Allocation.BestFit | source/DasHLE/Host/Memory.cpp:164-185 | The search yields the least (size, base) block that admits an aligned placement, and fails exactly when none does |
| Allocation.EarlyCheckHarmless | source/DasHLE/Host/Memory.cpp:205-206 | The availableMemory check never rejects a request that has a place |
| Allocation.UnhintedComplete | source/DasHLE/Host/Memory.cpp:284-296 | An unhinted request reports NoVirtualMemory exactly when no aligned free start exists anywhere; a failure changes nothing |
| Allocation.UnhintedBestFit | source/DasHLE/Host/Memory.cpp:284-296 | A successful unhinted request takes the least (size, base) block among all that admit it, at the least aligned address there, and claims nothing else |
| Allocation.HoldingContains | source/DasHLE/Host/Memory.cpp:238-245 | Whatever free block the inclusive hint scan stops at contains the whole free range at the hint |
| Allocation.ForcedPlace | source/DasHLE/Host/Memory.cpp:234-282 | The enforced-hint search succeeds exactly when the range at the hint is free, and only at the hint |
| Allocation.ForcedExact | source/DasHLE/Host/Memory.cpp:218-282 | An enforced hint succeeds, host permitting, exactly when its whole range is free, at exactly the hint; errors otherwise, with nothing changed |
| Allocation.ForcedOkIff | source/DasHLE/Host/Memory.cpp:218-282 | The same for every size and alignment, the invalid ones included |
| Allocation.AllocateKeepsIff | source/DasHLE/Host/Memory.cpp:199-335 | allocate keeps the gap invariant and trips no assertion exactly when what it claims fits its free block, or nothing is claimed |
| Allocation.CheckedFits | source/DasHLE/Host/Memory.cpp:199-335 | Unhinted and enforced-hint requests always fit |
| Allocation.LooseHintFits | source/DasHLE/Host/Memory.cpp:264-273 | A loose unaligned hint fits exactly when the block holding the hint is by itself large enough |
| Allocation.LooseAlignedHintFits | source/DasHLE/Host/Memory.cpp:249-263 | A loose aligned hint fits exactly when the rounded hint leaves room in the block |
| Allocation.LooseHintExact | source/DasHLE/Host/Memory.cpp:234-282 | A loose hint that fits is put at the hint, at the block's base, or at the hint rounded down or else up, as its block leaves room; one that no rounding keeps in its block is served as if it were not there |
| Allocation.LooseHintElsewhere | source/DasHLE/Host/Memory.cpp:234-282 | A loose hint outside every free block is served as if it were not there |
| Allocation.AllocateEffect | source/DasHLE/Host/Memory.cpp:301-334 | Everything a fitting allocation changes: one block, of the given size, flags and host base, in range that was free |
| Lookup.ProbeMonotone | source/DasHLE/Host/Memory.cpp:35-55 | Over a layout and one address probe the mixed comparator is true up to one index and false from there on |
| Lookup.DescentFindsLowerBound | source/DasHLE/Host/Memory.cpp:142-150 | A tree search of any shape ends at that index |
| Lookup.LookupExact | source/DasHLE/Host/Memory.cpp:142-150 | The search finds a block exactly when some block contains the address, and finds that block |
| Lookup.LookupIsLinearScan | source/DasHLE/Host/Memory.cpp:142-150 | The ordered search and a linear scan agree |
| Lookup.BlockFromVAddrExact | source/DasHLE/Host/Memory.cpp:142-150 | blockFromVAddr returns the one live block that contains the address, flags included, and NotFound when there is none |
| Lookup.SetFlagsExact | source/DasHLE/Host/Memory.cpp:421-431 | setFlags succeeds exactly on live block bases, returns the old flags, changes those flags alone and distinguishes the two errors |
| Freeing.MergeBeforeExact | source/DasHLE/Host/Memory.cpp:363-388 | The gap before a block is in the index, the assertion holds, and exactly that gap is cut out and joined |
| Freeing.MergeAfterExact | source/DasHLE/Host/Memory.cpp:390-411 | The same for the gap after it |
| Freeing.FreeIndexExact | source/DasHLE/Host/Memory.cpp:413-418 | With both neighbours cut out and the merged block inserted, the index lists exactly the maximal gaps that remain |
| Freeing.ReleaseKeeps | source/DasHLE/Host/Memory.cpp:346-418 | Freeing a block trips no assertion in any of the four neighbour cases, keeps the invariant and takes out exactly that block |
| Freeing.MergedIsMaximal | source/DasHLE/Host/Memory.cpp:413-418 | The merged block is the maximal gap around the freed range |
| Freeing.GapsAfterFree | source/DasHLE/Host/Memory.cpp:346-411 | The gaps before a free are those after it, except the merged block and its remnants |
| Freeing.FreeBlockKeeps | source/DasHLE/Host/Memory.cpp:337-419 | free on a block base succeeds in all four neighbour cases, keeps the invariant and removes exactly that block |
| Freeing.FreeExact | source/DasHLE/Host/Memory.cpp:337-419 | free on any address: it succeeds exactly on live block bases and otherwise changes nothing |
| Freeing.AllocateFreeRoundTrip | source/DasHLE/Host/Memory.cpp:337-419 | A successful allocate followed by free of the returned base restores the whole state |
| Freeing.FreeAllExact | source/DasHLE/Host/Memory.cpp:337-419 | After any sequence of frees exactly the unlisted blocks remain |
| Freeing.FreeOrderIrrelevant | source/DasHLE/Host/Memory.cpp:337-419 | Freeing the same addresses in any order reaches the same state |
| Freeing.FreeEverything | source/DasHLE/Host/Memory.cpp:337-419 | Freeing every live block, in any order, gives back the fresh state with the single free block |
| FreeAddress.AnswerIsFree | source/DasHLE/Host/Memory.cpp:187-197 | With a valid size and alignment findFreeAddr answers exactly when an aligned free start exists, with such a start |
| FreeAddress.SmallSizeWraps | source/DasHLE/Host/Memory.cpp:173-176 | For every smaller size there is a heap on which the wrapping subtraction lets a block through that has no room |
| FreeAddress.AnswerSoundIff | source/DasHLE/Host/Memory.cpp:164-197 | The sizes and alignments for which findFreeAddr is sound on every heap, exactly |
| FreeAddress.BadAlignment | source/DasHLE/Host/Memory.cpp:164-197 | An alignment that is no power of two fails an assertion exactly when some free block is large enough, and otherwise there is no memory |
| Runs.NoWaste | tests/memory/OOM.cpp:9-31 | Any run of plain requests is served like a bump allocator: packed without a gap, and a request fails only when it exceeds what is available |
| Runs.StepSafeIff | source/DasHLE/Host/Memory.cpp:199-431 | One operation keeps the invariant and trips no assertion exactly when its claim fits |
| Runs.RunSafeIff | source/DasHLE/Host/Memory.cpp:199-431 | A whole run is safe exactly when every claim in it fits |
| Runs.CheckedRunFits | source/DasHLE/Host/Memory.cpp:199-431 | Every run without loose hints fits throughout |
| Runs.ReachableSound | source/DasHLE/Host/Memory.cpp:199-431 | Every state reached from a new manager without loose hints: blocks disjoint, free index exactly the gaps, no two touching, memory conserved, and no assertion ever failed |
| Runs.ResetKeepsIff | source/DasHLE/Host/Memory.cpp:137-140 | reset gives the fresh state with the old used counter, so it keeps the invariant exactly when nothing was in use, and then it changes nothing |
| Runs.PackedStep | source/DasHLE/Host/Memory.cpp:284-328 | On a packed heap a plain request goes at the end of the used part, and is refused exactly when it exceeds the available memory |
| Runs.FreshNoWaste | tests/memory/OOM.cpp:9-31 | The same from a new manager |
| Translation.LooseHintRun | source/DasHLE/Host/Memory.cpp:264-273 | Two requests on a new manager, with a host that behaves, after which the invariant is broken although there was room |
| Translation.TranslateExact | source/DasHLE/Host/Memory.cpp:142-150 | Translation succeeds exactly on allocated addresses |
| Translation.TranslateInjective | source/DasHLE/Host/Memory.h:85-91 | Distinct allocated addresses have distinct host addresses |
| Translation.VirtualToHostExact | source/DasHLE/Host/Memory.h:85-91 | One block translates its addresses and its end address to the same offset in its host range, and refuses all others |
| Translation.StepKeepsHostDisjoint | source/DasHLE/Host/Memory.cpp:107-122 | Every safe operation keeps the host ranges of live blocks apart |
| Translation.StepKeepsTranslation | source/DasHLE/Host/Memory.cpp:199-431 | A safe operation that does not free a block keeps the translation of its addresses |
| Translation.TranslationStable | source/DasHLE/Host/Memory.cpp:199-431 | The same through a whole safe run |
| Memory.MemoryManager.Release | source/DasHLE/Host/Memory.cpp:346-418 | Merging, counter, both sets and result are the reference's |
| Memory.MemoryManager.constructor | source/DasHLE/Host/Memory.cpp:129-133 | The new manager is the fresh state, which is valid exactly for sizes from 1 to 2^63 |
| Memory.MemoryManager.BlockFromVAddr | source/DasHLE/Host/Memory.cpp:142-150 | Returns the block of the reference lookup |
| Memory.MemoryManager.FindFreeBlock | source/DasHLE/Host/Memory.cpp:164-185 | The loop finds the block of the reference search |
| Memory.MemoryManager.FindFreeAddr | source/DasHLE/Host/Memory.cpp:187-197 | Returns the address of the reference search |
| Memory.MemoryManager.FindAtHint | source/DasHLE/Host/Memory.cpp:238-274 | The scan and the rounding choose the reference placement |
| Memory.MemoryManager.Commit | source/DasHLE/Host/Memory.cpp:301-334 | Extraction, host request, split and insertion have the effect of the reference claim; a host refusal restores the index |
| Memory.MemoryManager.Allocate | source/DasHLE/Host/Memory.cpp:199-335 | New state and result are the reference's; the manager stays valid without an assertion exactly when the claim fits |
| Memory.MemoryManager.HandleBlock | source/DasHLE/Host/Memory.cpp:352-361 | Takes the neighbour out and joins it, or reports the failed assertion |
| Memory.MemoryManager.MergePrevious | source/DasHLE/Host/Memory.cpp:363-388 | Merges with the gap before the block |
| Memory.MemoryManager.MergeNext | source/DasHLE/Host/Memory.cpp:390-411 | Merges with the gap after the block |
| Memory.MemoryManager.Free | source/DasHLE/Host/Memory.cpp:337-419 | New state and result are the reference's; no assertion fails; exactly the block at the address is gone |
| Memory.MemoryManager.SetFlags | source/DasHLE/Host/Memory.cpp:421-431 | New state and result are the reference's; the manager stays valid |
| Memory.MemoryManager.Reset | source/DasHLE/Host/Memory.cpp:88-105 | Both sets are rebuilt and the counter is left as it was |
| BridgeProofs.BuildOutcome | source/DasHLE/Host/Bridge.cpp:66-99 | buildIFT succeeds, host permitting, exactly when an aligned free range of 4 bytes per function exists; a failure says which of the two was missing and changes nothing, and no assertion fails |
| BridgeProofs.BuildShape | source/DasHLE/Host/Bridge.cpp:66-99 | A built table holds the registered functions from its base on, in a range that was free, at the address findFreeAddr reports |
| BridgeProofs.BuildClaims | source/DasHLE/Host/Bridge.cpp:79-85 | The memory afterwards holds the table's block, 4 bytes per function, and nothing else was claimed |
| BridgeProofs.ShapeLookup | source/DasHLE/Host/Bridge.cpp:101-112 | Each symbol leads to its slot and each slot to its own emitter, exactly if the table counts as built |
| BridgeProofs.EmitCallExact | source/DasHLE/Host/Bridge.cpp:27-39 | A built table, for every address: NotFound exactly when the address is no slot of 4 bytes; at slot k function k for callers of its kind and a failed assertion for the others |
| BridgeProofs.EmitCallWithoutSlots | source/DasHLE/Host/Bridge.cpp:27-39 | Calls are refused before the table is built; a table of no functions is built without a block, and then every address is NotFound |
| BridgeProofs.AddressExact | source/DasHLE/Host/Bridge.cpp:101-112 | A symbol's address is its function's slot, else its variable's address, else NotFound; refused before the table is built |
| BridgeProofs.ShapeInjective | source/DasHLE/Host/Bridge.cpp:101-112 | No two symbols share a slot |
| BridgeProofs.IFTCorrect | source/DasHLE/Host/Bridge.cpp:66-112 | After any registrations and buildIFT: the table's block is live; slot k lies in it and was free before; function k is found at slot k, with the emitter it was registered with, exactly if the table counts as built |
| BridgeProofs.SentinelExact | source/DasHLE/Host/Bridge.h:91 | "Base not 0" means "built" exactly when there are no functions or the query does not answer 0; a held null block ensures it; a table that counts as built is not built again |
| BridgeProofs.FreshBuildsAtZero | source/DasHLE/Host/Bridge.h:91 | On a new manager without a null block every table that fits is built and counts as not built |
| BridgeProofs.SentinelFailsAtZero | source/DasHLE/Host/Bridge.h:91 | The smallest such case |
| BridgeProofs.FunctionsMissVariables | source/DasHLE/Host/Bridge.cpp:52-112 | No function address equals the address of a variable whose block is live when the table is built |
| BridgeProofs.RegisterShape | source/DasHLE/Host/Bridge.cpp:14-25 | A registration adds one entry at the next address, or changes nothing |
| BridgeProofs.RegisterFunctionExact | source/DasHLE/Host/Bridge.cpp:14-25 | A function becomes the next entry; a built table and a used symbol are refused, each with its error and without a change |
| BridgeProofs.RegisterVariableExact | source/DasHLE/Host/Bridge.cpp:52-64 | A variable is added under its symbol and changes no other; a built table, a used symbol and an address that is not allocated are refused, each with its error and without a change |
| BridgeProofs.RegistrationsShape | source/DasHLE/Host/Bridge.cpp:14-25 | After any registrations the maps hold exactly the first applicable functions of each symbol, numbered in order |
| BridgeProofs.RebaseShape | source/DasHLE/Host/Bridge.cpp:87-96 | Rebasing moves every entry of both maps by the base and loses none |
| BridgeProofs.NoAliasing | source/DasHLE/Host/Bridge.cpp:52-112 | The same for any registrations, if the variables' blocks are still live |
| HostBridge.Bridge.constructor | source/DasHLE/Host/Bridge.cpp:41-44 | A new bridge has empty maps and no table |
| HostBridge.Bridge.RegisterFunctionImpl | source/DasHLE/Host/Bridge.cpp:14-25 | Maps and result are the reference's |
| HostBridge.Bridge.RegisterFunction | source/DasHLE/Host/Bridge.h:68-84 | Maps and result are the reference's |
| HostBridge.Bridge.RegisterVariable | source/DasHLE/Host/Bridge.cpp:52-64 | Maps and result are the reference's |
| HostBridge.Bridge.RebaseFuncEntries | source/DasHLE/Host/Bridge.cpp:87-89 | The loop adds the base to every function entry, in whatever order it walks them |
| HostBridge.Bridge.RebaseEmitters | source/DasHLE/Host/Bridge.cpp:91-96 | The draining loop ends and yields every emitter under its rebased address |
| HostBridge.Bridge.BuildIFT | source/DasHLE/Host/Bridge.cpp:66-99 | Maps, memory and result are the reference's; the manager stays valid and no assertion fails |
| HostBridge.Bridge.Finalize | source/DasHLE/Host/Bridge.cpp:46-50 | Frees the table's block exactly when there is one |
| HostBridge.Bridge.AddressForSymbol | source/DasHLE/Host/Bridge.cpp:101-112 | Returns the address of the reference table |
| HostBridge.Bridge.EmitCall | source/DasHLE/Host/Bridge.cpp:27-39 | Returns the emitter of the reference table, which answers for its slots and for no other address |
| Elf.AllocationExact | source/DasHLE/Binary/ELF.cpp:9-36 | For every header: when its allocation is defined, and its offset and size, alignments 0 and 1 and sizes whose rounding wraps included |
| Elf.AllocationRounded | source/DasHLE/Binary/ELF.cpp:9-36 | A loadable header's allocation is its address rounded down and its memory size rounded up, and 0 where that wraps |
| Elf.StartOffsetExact | source/DasHLE/Binary/ELF.cpp:9-22 | How far into its allocation a segment starts, which bounds for each header what fits |
| Elf.CopyFitsIff | source/DasHLE/Binary/ELF.cpp:24-36 | The file bytes, and likewise the whole memory of the segment, stay inside the allocation for all sizes exactly when the segment starts at a multiple of its alignment |
| Elf.DecodeAllExact | source/DasHLE/Binary/ELF.cpp:47-107 | Which relocations entries stand for: each at its own offset, the addend explicit in RELA and 0 in REL, the kind by its type, the symbol the one named for its index; index 0, a nameless symbol and an unknown type end the visit with their errors; the reference decoding is the only one that meets this |
| Elf.VisitArray | source/DasHLE/Binary/ELF.cpp:47-107 | The loop appends exactly those relocations to the ones visited before, those before a bad entry included, and ends with the bad entry's error |
| Elf.PermissionsCorrespond | source/DasHLE/Binary/ELF.h:507-520 | Read, write and execute, 1, 2 and 4, are granted exactly for header flags 4, 2 and 1 |
| Words.PatchedOnce | source/DasHLE/Guest/ELFVM.cpp:93-107 | With non-overlapping patches every word ends up patched once, from its original value |
| Words.ElsewhereUnchanged | source/DasHLE/Guest/ELFVM.cpp:93-107 | A byte that no patched word covers is unchanged |
| Words.PatchOrderIrrelevant | source/DasHLE/Guest/ELFVM.cpp:93-107 | Non-overlapping patches in any order give the same bytes |
| Relocation.RebaseLaw | source/DasHLE/Guest/ELFVM.cpp:160-203 | The pass by itself on two memories: of words that were equal, relative ones end up apart by the difference of the bases, symbol words equal |
| Relocation.RelativeMeetsAbi | source/DasHLE/Guest/ELFVM.cpp:164-172 | A visited R_ARM_RELATIVE entry patches its own offset with the value of section 4.6 of ELF for the ARM Architecture (IHI 0044E) exactly if it is a REL entry, has a nonzero addend or is applied to a zero word |
| Relocation.SymbolMeetsAbi | source/DasHLE/Guest/ELFVM.cpp:193-199 | A visited symbol entry patches its own offset for the symbol named for its index, with that section's value exactly if its explicit addend is a multiple of 2^32, or it is a REL jump slot, or a REL entry on a zero word |
| Relocation.RelAddendIsLost | source/DasHLE/Guest/ELFVM.cpp:193-199 | A REL R_ARM_ABS32 entry whose addend in place is overwritten |
| Relocation.RelocateExact | source/DasHLE/Guest/ELFVM.cpp:160-203 | The pass succeeds exactly when every relocation has a patch inside host memory, and then it applies them all |
| Relocation.RelocateFails | source/DasHLE/Guest/ELFVM.cpp:160-203 | A pass that fails has applied the relocations before the first one that cannot be applied, and fails for the reason of that one: an address that is not allocated, an unknown symbol, a missing one, the end of host memory |
| Relocation.RelocatedImage | source/DasHLE/Guest/ELFVM.cpp:160-203 | Every listed guest word is relocated once, from its original value |
| Relocation.RestOfImageUnchanged | source/DasHLE/Guest/ELFVM.cpp:160-203 | Every mapped byte outside the listed words is unchanged |
| Relocation.RelocationOrderIrrelevant | source/DasHLE/Guest/ELFVM.cpp:160-203 | Any permutation of the list gives the same image |
| Restore.FreeingRestores | source/DasHLE/Guest/ELFVM.cpp:74-85 | Freeing everything that was claimed, in any order, restores the state |
| Segments.ReservationHolds | source/DasHLE/Guest/ELFVM.cpp:140-158 | For tiles every enforced hint after the query succeeds at exactly base + offset, and the query answers exactly when the tiles have room |
| Segments.ReservationIff | source/DasHLE/Guest/ELFVM.cpp:119-151 | The query is enough on every heap exactly when the segments tile: otherwise some heap answers it and cannot serve the claims |
| Segments.InfoExact | source/DasHLE/Guest/ELFVM.cpp:124-138 | Which headers have a layout, with the others' errors; and the layout: file offset and size, address, block at the rounded address with the rounded memory size, permissions as the flags ask |
| Segments.InfosExact | source/DasHLE/Guest/ELFVM.cpp:119-138 | The image has a layout exactly when each header is loadable, and it is what each header asks for, in order; otherwise the first header that is not loadable gives the error |
| Segments.PlacementExact | source/DasHLE/Guest/ELFVM.cpp:143-158 | The first n segments are placed exactly when each fits the original memory, no two overlap and the host serves them; in every case the blocks placed are all there is to undo |
| Segments.ReservedUntilClaimed | source/DasHLE/Guest/ELFVM.cpp:145-158 | Between two claims exactly the segments placed so far are taken of the reserved range |
| Loading.ProtectExact | source/DasHLE/Guest/ELFVM.cpp:205-208 | The permission pass never fails on placed segments and changes exactly their flags |
| Loading.OwnPermissions | source/DasHLE/Guest/ELFVM.cpp:205-208 | Each block ends up with the permissions of its own segment |
| Loading.FunctionsElements | source/DasHLE/Guest/ELFVM.cpp:38-46 | The functions read are exactly the entries that are neither 0 nor -1 |
| Loading.FunctionsInOrder | source/DasHLE/Guest/ELFVM.cpp:38-46 | The functions read are the entries at ascending indices, each function entry once, in the array's order |
| Loading.ArrayRead | source/DasHLE/Guest/ELFVM.cpp:38-46 | The loop reads the reference list |
| LoadImage.LoadSucceeds | source/DasHLE/Guest/ELFVM.cpp:140-208 | Once the query has answered, a tiled image with applicable relocations is loaded: every segment at base + offset, every block with its segment's permissions |
| LoadImage.LoadExtends | source/DasHLE/Guest/ELFVM.cpp:140-208 | Whatever a load comes to, the segments it lists after an answered query are all it claimed |
| FinalImage.PlacedHosts | source/DasHLE/Guest/ELFVM.cpp:143-158 | Fresh host answers keep the host ranges of all blocks apart through placement |
| FinalImage.MappedByte | source/DasHLE/Guest/ELFVM.cpp:143-158 | After placement every file byte of every segment is found at its guest address |
| FinalImage.MappedWord | source/DasHLE/Guest/ELFVM.cpp:143-158 | And every word |
| FinalImage.LoadsIff | source/DasHLE/Guest/ELFVM.cpp:140-208 | A nonempty tiled image whose relocated words lie apart in its file data, with known symbols and a willing host, is loaded if and only if it has room |
| FinalImage.SmallImageLoads | source/DasHLE/Guest/ELFVM.cpp:140-208 | One concrete image that meets all those conditions and is loaded |
| FinalImage.LoadedFileByte | source/DasHLE/Guest/ELFVM.cpp:140-208 | After a load every file byte outside the relocated words is found at its guest address |
| FinalImage.LoadedFileWord | source/DasHLE/Guest/ELFVM.cpp:140-208 | After a load every relocated word is the file's word, relocated exactly once |
| FinalImage.RebaseKeepsBytes | source/DasHLE/Guest/ELFVM.cpp:140-208 | The same image loaded at two bases: all file bytes outside the relative words are the same, those of symbol words included |
| FinalImage.RebaseShiftsWords | source/DasHLE/Guest/ELFVM.cpp:140-208 | And each relative word differs by the difference of the bases modulo 2^32 |
| Boot.LoadBinaryExtends | source/DasHLE/Guest/ELFVM.cpp:87-233 | However loadBinary ends, the table's block and, after an answered query, the listed segments are all it claimed |
| Boot.BuildExtends | source/DasHLE/Host/Bridge.cpp:46-50 | With a null block held the bridge's destructor knows exactly the block the table was built from, or that there is none |
| BinaryImage.LoadedBinary | source/DasHLE/Guest/ELFVM.cpp:87-233 | A loadBinary that succeeds: at one base all file bytes outside the relocated words are at their addresses, every relocated word is the file's, relocated once with the table that was built, every segment's block is the one its header asks for, and initializers and finalizers are those of their arrays; stated over headers, file, relocations and arrays |
| BinaryImage.LoadedBlocks | source/DasHLE/Guest/ELFVM.cpp:119-158 | After it segment k is a live block at the base plus its rounded address, with its rounded memory size, in the host's range, granting read, write and execute exactly as its header asks; its base is listed |
| BinaryImage.LoadedEntry | source/DasHLE/Guest/ELFVM.cpp:160-203 | The same words in terms of the entries they were decoded from |
| BinaryImage.ReadArraysExact | source/DasHLE/Guest/ELFVM.cpp:210-233 | Initializers come from the first array and finalizers from the second, from the base on and in the array's order; an absent array changes nothing; the first that cannot be read ends it, with its reason, after what was read before |
| Outcomes.BinaryOutcome | source/DasHLE/Guest/ELFVM.cpp:87-233 | With its table built and a null block held, a complete image is loaded if and only if there is room, the host serves each segment and each named symbol is registered; otherwise the first of these that fails is the error |
| Outcomes.BinaryRefused | source/DasHLE/Guest/ELFVM.cpp:117-138 | Before that: the table has no room or no host memory, and nothing has changed; or the first header that is not loadable gives the error, and only the table has been built |
| Outcomes.LoadOutcome | source/DasHLE/Guest/ELFVM.cpp:140-208 | The same for a tiled, sound layout |
| Outcomes.PlacementRefused | source/DasHLE/Guest/ELFVM.cpp:143-151 | With room for every segment, claiming them fails only for the host, and with its error |
| Outcomes.RelocationStops | source/DasHLE/Guest/ELFVM.cpp:143-203 | A load that stops at a relocation leaves the segments placed, listed and unprotected, with the relocations before it applied |
| Outcomes.SmallBinaryLoads | source/DasHLE/Guest/ELFVM.cpp:87-233 | One concrete machine and image that meet all conditions, with one relative word, and the image is loaded |
| Lifecycle.DestroyRestoresIff | source/DasHLE/Guest/ELFVM.cpp:74-85 | Freeing part of what was claimed, in any order, trips no assertion, and restores the state exactly when nothing is left out |
| Lifecycle.LeavesNoTraceIff | source/DasHLE/Guest/ELFVM.cpp:48-158 | A load on any machine, however it ends: no destructor assertion fails, and all memory is given back exactly when the machine listed no earlier segments or the query did not answer |
| Lifecycle.LeavesNoTrace | source/DasHLE/Guest/ELFVM.cpp:48-85 | So construct, load once, destroy: no assertion fails and memory is as it was, in whatever order the blocks are freed |
| Lifecycle.ConstructExact | source/DasHLE/Guest/ELFVM.cpp:48-72 | Construction trips no assertion exactly when page 0 and the top of memory are free whole pages and the host serves both; then a block of flags 0 on page 0 and a stack block of flags 3 (read, write) below the top are live, and exactly those two ranges became occupied |
| Lifecycle.ConstructFresh | source/DasHLE/Guest/ELFVM.cpp:48-72 | On a new manager that is: power-of-two pages, whole pages throughout, and room for the stack above page 0 |
| Lifecycle.DestroyExact | source/DasHLE/Guest/ELFVM.cpp:74-85 | Freeing a list trips no assertion exactly when each address is a live block base and none is listed twice |
| GuestVM.ELFVM.Claim | source/DasHLE/Guest/ELFVM.cpp:48-72 | Checks and both claims of the constructor are the reference's |
| GuestVM.ELFVM.constructor | source/DasHLE/Guest/ELFVM.cpp:48-72 | For any arguments: memory, stack bounds and failed assertions are the reference's |
| GuestVM.ELFVM.CollectSegments | source/DasHLE/Guest/ELFVM.cpp:119-138 | Layouts and total are the reference's, the first bad header decides |
| GuestVM.ELFVM.CopyIntoRam | source/DasHLE/Guest/ELFVM.cpp:153-155 | The loop performs the reference copy |
| GuestVM.ELFVM.PlaceSegment | source/DasHLE/Guest/ELFVM.cpp:146-157 | One claim and its copy |
| GuestVM.ELFVM.PlaceSegments | source/DasHLE/Guest/ELFVM.cpp:143-158 | Memory, host memory, segment list and outcome are those of the reference mapping |
| GuestVM.ELFVM.RelocWriteVAddr | source/DasHLE/Guest/ELFVM.cpp:93-99 | Stores the low 32 bits, or faults past host memory |
| GuestVM.ELFVM.RelocAddBinaryBase | source/DasHLE/Guest/ELFVM.cpp:101-107 | Adds modulo 2^32, or faults past host memory |
| GuestVM.ELFVM.ApplyReloc | source/DasHLE/Guest/ELFVM.cpp:161-200 | One relocation, with its errors |
| GuestVM.ELFVM.ApplyRelocs | source/DasHLE/Guest/ELFVM.cpp:160-203 | Host memory and outcome are those of the reference pass |
| GuestVM.ELFVM.ProtectSegment | source/DasHLE/Guest/ELFVM.cpp:207 | Sets one segment's permissions |
| GuestVM.ELFVM.SetPermissions | source/DasHLE/Guest/ELFVM.cpp:205-208 | Memory and outcome are those of the reference pass |
| GuestVM.ELFVM.LoadSegments | source/DasHLE/Guest/ELFVM.cpp:140-208 | Query, map, relocate, protect: memory, host memory, segment list and outcome are the reference's |
| GuestVM.ELFVM.ReadFunctionArray | source/DasHLE/Guest/ELFVM.cpp:213-220 | The functions of one array, or why it cannot be read |
| GuestVM.ELFVM.ReadArrays | source/DasHLE/Guest/ELFVM.cpp:210-233 | Initializers, then finalizers; an absent array leaves the list as it was |
| GuestVM.ELFVM.LoadBinary | source/DasHLE/Guest/ELFVM.cpp:117-233 | The whole load: memory, tables, host memory, lists and outcome are the reference's, and the manager stays valid |
| GuestVM.ELFVM.Finalize | source/DasHLE/Guest/ELFVM.cpp:74-85 | Frees segments, stack and null block in that order, up to a failed assertion |

## Left out

- Memory.MemoryManager.constructor: a manager of size 0 or above 2^63 is not `Valid`, and nothing more is said of it; at 0 it holds an empty free block, above 2^63 block ends and rounded addresses can wrap.
- Memory.MemoryManager.Allocate: requires the gap invariant, so what happens after a loose hint has broken it is not modelled.
- GuestVM.ELFVM.PlaceSegments: requires that the file bytes lie inside the file and the copies inside host memory (`CopiesAllowed`), which the code does not check and without which it has no defined behaviour.
- Segments.ReservationIff: takes sums of at most 2^63, beyond which no heap answers the query; ReservationHolds says nothing of the query for an image without segments, whose answer is then used as the base only.
- FinalImage.LoadedFileByte: says nothing about the bytes between a segment's file size and its memory size, which the code leaves as the host allocator returned them.
- BinaryImage.LoadedBinary: speaks of 32-bit images whose file data fit their blocks and whose relocated words lie apart in file data, loaded with host ranges that overlap nothing (`WellFormed`, `HostServes`); like the code, it says nothing of bytes past a segment's file data.
- Outcomes.BinaryOutcome: speaks of images that also tile and have their arrays in their segments (`Complete`), and of a machine that holds its null block; other images are covered stage by stage.
- FinalImage.LoadsIff: speaks of images whose relocated words lie apart in file data and whose host answers behave, as its conditions say; relocations elsewhere are covered by the pass itself, in `Relocation`.
- Relocation.SymbolMeetsAbi: the AArch64 types that the 32-bit arrays also accept are outside that section, and so is the T bit: no pseudo-address is a Thumb function.
- Lifecycle.LeavesNoTraceIff: an earlier load's bridge and its table count among the blocks held; when they are freed is up to their owner.
- Relocation.RelocateExact: an unknown symbol is the error that builds without debugging return; the debug-only cache of fake import addresses is not modelled.
- Builds that compile assertions out (`NDEBUG`): a failed assertion is modelled as the end of the process, and most results here say that none fails.
- `HostAllocator`, `malloc` and the host's frees: the host's answers are parameters; that fresh host ranges miss the live ones is the condition `HostBehaves` where it matters.
- Host pointers: host memory is one array of bytes from address 0, and a write past its end is an `Abort`.
- ELF parsing, section and program header tables, the `Poly` wrappers, dynamic entries and the chaining of the three relocation arrays: the model starts from decoded headers and entries; symbol and string lookups by index are a parameter.
- `loadBinary` up to `populateBridge`: the bridge is given with its registrations made; `LoadBinary` goes on from `buildIFT`. Creating the processor comes after it.
- 64-bit ELF paths: they are stubs, and loading a 64-bit image ends in an unreachable.
- `unwrapPermissionFlags`: unused, and it starts from an uninitialised value.
- `ARMVM`, the JIT, its callbacks and the block it claims for its end-of-execution address; `runInitializers` and `runFinalizers`, which only call it.
- JNI, file reading, logging, error names and the command line.
