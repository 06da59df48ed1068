# Verified models of decomp-toolkit's analyses

decomp-toolkit turns linked PowerPC and x86 images back into relocatable objects. Under its command line are
worklist algorithms, two small abstract interpreters, and index structures that have to agree with each other.
This project models those, branch by branch, and proves what they are for:

- **Control flow (PowerPC).** `Executor.dfy` is the executor with its stack and visited set; it ends for every
  callback. `BlockMap.dfy` is the block table. `SliceReplay.dfy` says what each instruction adds to what has been
  found, for an arbitrary answer of each; `FunctionSlices.dfy` is the object, proved to be the replay of what it
  executed, whether it succeeds, stops or fails; `SliceMeaning.dfy` proves what a success means.
- **Registers (PowerPC).** `PpcVm.dfy` is the register tracker as a function, `PpcVmObject.dfy` the object that
  updates itself, `PpcMachine.dfy` a machine with the Power ISA's semantics. What the tracker claims is true of
  every run (`PpcSoundness.dfy`), also across conditional branches, and the table size it derives for a switch
  is exact (`PpcBranches.dfy`) but for the inputs in `PpcShortfalls.dfy`. `PpcProvenance.dfy` proves when it must
  know a value, and that the halves of an address are credited to the instructions that loaded them.
- **Switches and discovery (x86).** `X86Machine.dfy`, `SwitchFacts.dfy` and `SwitchTracker.dfy` carry a bound on an
  index to a dispatch and recover its table: every run along the path lands on a recorded target.
  `X86Worklist.dfy` is the worklist around it, which ends although callees are enqueued again and again.
- **COFF objects.** `CoffFormat.dfy` reads and patches records in bytes, `CoffFold.dfy` folds COMDAT leaders and
  closes the removed sections, `CoffFates.dfy` says which symbols must be folded, `CoffMeaning.dfy` what became of
  each, `CoffAppend.dfy` appends records
  and strings, `CoffAliases.dfy` defines the aliases the object lacks, `Directives.dfy` blanks export directives,
  and `CoffObject.dfy` puts all of `fold` together.
- **Stores.** `SymbolStore.dfy` and `NestedLists.dfy` are the symbol table and its three indexes,
  `SymbolRelocations.dfy` the relocations made against it, `Splits.dfy` the splits of translation units,
  `AddressRanges.dfy` and `Spans.dfy` the interval stores that look at the predecessor of an address.
- **Fixpoints and arithmetic.** `FunctionDiscovery.dfy` is the function-discovery fixpoint, `LinkRelocations.dfy`
  applies relocations to instruction words, `DiffRanges.dfy` collapses the unchanged lines of a diff.

An object that the source updates in place is a class whose methods state their whole new state; what is proved
about it is proved about functions and predicates of that state. Unseen code is a parameter: an instruction's
decoding, the analysis of one function, and the sections an address is in are arbitrary functions.

Words are integers below 2^32 with wrap-around written out. An error result and a panic are both `Failure`.

## Findings

Where the source falls short of what it promises, the first lemma named gives the exact condition, the other one
an input for which it fails.

- `PpcBranches.SignedEdgeIff`, `PpcShortfalls.SignedEdgeFails`: the tracker refines a signed comparison as if it
  were unsigned.
- `PpcBranches.IdiomInBounds`, `PpcShortfalls.ZeroBaseFails` (what the machine loads) and
  `PpcShortfalls.ZeroBaseClaims` (what the tracker says): `lwzx rT, r0, rI` is read as if r0 were a base, where the
  machine takes zero.
- `PpcBranches.IdiomSize`, `PpcShortfalls.SizeFails`: an index of at most zero, or of 2^30 - 1 and above, gives a
  table of another size.
- `SwitchFacts.LoadBounds`, `SwitchFacts.ByteLoadFails`: a byte `mov` bounds the index only if the rest of the
  register was zero.
- `CoffAppending.OldNameIff`, `CoffAppending.OldNameFails`: a name that begins inside the string table's size or
  past the table, or that runs past the table's end, need not survive an append.
- `Directives.ExactlyDirectives`, `Directives.OddToken`: a token such as `Xexport:a` is blanked as well, and an
  empty `-export:` is not.
- `Splits.ExtensionDisjoint`, `Splits.StraddledFails`: extending a split keeps splits disjoint exactly if none
  straddles where it starts.
- `Spans.PredecessorDecides`, `Spans.OverhangFails`: looking only at the predecessor is right exactly for spans
  that form a staircase.
- `LinkRelocations.BranchReads`, `LinkRelocations.MisalignedFails`: a branch to an address that is not a whole
  number of instructions away is rounded down silently.

## Model

| member | source | states |
|---|---|---|
| `Executors.Executor.Run` | src/analysis/executor.rs:83-142 | For any callback the run ends, even where `Continue` walks back over visited code; the calls chain from state to state, and each runs where the one before sent it: the next address, an unvisited jump target, or an unvisited address that was on the stack or that some call pushed; each is shown the start of its block and what had been visited. When it ends without a result nothing that was ever pushed is left unvisited; it fails only where the last call did or the address to run next is outside the section. |
| `Executors.Executor.RunBlock` | src/analysis/executor.rs:105-139 | The inner loop: a chain of calls from the state of the one before, `Continue` going to the next address even where that was visited. |
| `Executors.Executor.Push` | src/analysis/executor.rs:144-150 | Adds the entry and nothing else; a sorting push leaves the stack in ascending order. |
| `Executors.RemainingShrinks` | src/analysis/executor.rs:15-48 | Visiting more addresses of the section leaves strictly fewer: the measure that ends the outer loop. |
| `BlockMap.AddStartKeeps` | src/analysis/slices.rs:149-168 | A new block start, pushed, keeps every visited address in exactly the closed blocks, and is itself unvisited. |
| `BlockMap.Advance` | src/analysis/slices.rs:277-345 | Running on to the next address keeps the block table sound if and only if that address is unvisited and no block starts there. |
| `BlockMap.VisitedNextIsStart` | src/analysis/slices.rs:293-315 | If the address ahead of a running block was visited, it is a block start: the test that ends the block cannot miss. |
| `BlockMap.GapFreeTiles` | src/analysis/slices.rs:790-805 | Closed separate blocks without a gap put every address of `[start(), end())` in exactly one block. |
| `FunctionSlicing.FunctionSlices.Analyze` | src/analysis/slices.rs:500-578 | What a successful analysis has found is the replay of the instructions it executed; its blocks are closed and disjoint and cover exactly the executed addresses, each executed once and only because an instruction before it leads there, or as the start, the end of a gap, or trailing code; with no known end the blocks tile the function. It answers false exactly where the last address lies in another function or holds zeros, and fails exactly at an error of the last address or where the run leads out of the section. |
| `FunctionSlicing.FunctionSlices.KnownFunction` | src/analysis/slices.rs:261-275 | The function known at an address: itself once referenced, else the greatest known start at or below it, if that is the address or ends beyond it; none exactly if neither holds. |
| `SliceMeaning.StaysHome` | src/analysis/slices.rs:277-325 | No address executed, unless it is the function's start, is the start of another known function or lies in one. |
| `SliceMeaning.AllAccounted` | src/analysis/slices.rs:277-498 | What became of each instruction: a branch or jump into another function is a reference and never a successor; calls refer to the callee; every other branch edge is a successor and a block; jumps inside the bounds or backwards are blocks; jumps out of the section are references; a table is taken with all its entries as blocks, none of another function, or refused with all of them kept as possible. |
| `SliceMeaning.ReferencesMentioned` | src/analysis/slices.rs:261-498 | No reference is invented: an executed instruction jumps to it, calls it, or branches into it. |
| `SliceMeaning.StoppedBy` | src/analysis/slices.rs:315-345 | Where the analysis answers false the last address holds zeros, lies in another known function, or was referred to by what was executed. |
| `SliceMeaning.StartsExecuted` | src/analysis/slices.rs:500-578 | The given start and every block start have been executed, and none lies in another function. |
| `SliceMeaning.SuccessorsExecuted` | src/analysis/slices.rs:277-498 | Every fall-through, jump, table and branch successor of an executed address is executed too, or belongs to a referenced function, or (for a plain jump or a table) is kept as a possible block. |
| `FunctionSlicing.FunctionSlices.Step` | src/analysis/slices.rs:327-497 | Each arm of the match on control flow leaves what was found, answers, and fails, exactly as the step of the replay says. |
| `FunctionSlicing.FunctionSlices.InstructionCallback` | src/analysis/slices.rs:277-498 | One call, checks included: an error or an end exactly where the replay has one, else one more step of it. |
| `FunctionSlicing.FunctionSlices.Run` | src/analysis/executor.rs:83-142 | The executor's loops with this callback: what has been found stays the replay of what was executed, blocks stay consistent with the stack and the visited set, and each round visits something new. |
| `FunctionSlicing.FunctionSlices.FirstDisconnectedBlock` | src/analysis/slices.rs:790-805 | A closed block, with its end, that the next start does not follow at once; none only if no block has a gap after it. |
| `FunctionSlicing.FunctionSlices.VisitUnreachable` | src/analysis/slices.rs:527-556 | Runs what lies between two blocks; it ends, with no gap left. |
| `PpcVmObject.VM.Step` | src/analysis/vm.rs:201-415 | The object's update is the tracker's transfer function: registers, tags, LR, CTR and comparison fields. |
| `PpcProvenance.HalvesAre` | src/analysis/vm.rs:44-54 | After straight-line code a register's `hi_addr` and `lo_addr` are the sites of the `addis` that began it and of the first instruction that added a lower half, found by following last writes back through copies; relocated or not. |
| `PpcProvenance.BuiltLinks` | src/analysis/vm.rs:219-343 | Each instruction on that trail is the last to write the register that the next one reads. |
| `PpcProvenance.PairOfHalves` | src/analysis/vm.rs:219-320 | `lis; addi` and `lis; ori` leave the address they compute with exactly their two sites. |
| `PpcProvenance.RelocatedPair` | src/analysis/vm.rs:219-320 | Relocated, the pair leaves the relocation's target with the two sites. |
| `PpcProvenance.ConstantIff` | src/analysis/vm.rs:201-415 | The tracker knows the result of an instruction exactly when it knows every register the machine reads, and then it is the machine's result. |
| `PpcProvenance.AddressIff` | src/analysis/vm.rs:201-290 | After an addition a register is known to hold an address exactly when the source held one and what is added is known, and the address has moved by that. |
| `PpcProvenance.CopiesKeep` | src/analysis/vm.rs:321-343 | A register copy keeps value and both sites; a move to LR or CTR and back keeps the value. |
| `PpcVmObject.VM.StepConditional` | src/analysis/vm.rs:463-497 | A conditional branch leaves a fresh refined clone for each edge. |
| `PpcVmObject.VM.SetComparisonResult` | src/analysis/vm.rs:588-597 | Exactly the registers that carry the field's tag take the refined value. |
| `Words.MaskValue` | src/analysis/vm.rs:672-688 | The loop over bits builds the Power ISA's MASK(begin, end), wrap-around included. |
| `Words.MaskAt` | src/analysis/vm.rs:672-688 | Which bits that mask has, counted from the highest. |
| `Words.SlwiShifts` | src/analysis/vm.rs:371-415 | The rotate-and-mask of `slwi` is a multiplication for words that lose no bit. |
| `PpcSoundness.StepSound` | src/analysis/vm.rs:201-415 | One instruction keeps every claim true: a `Constant(c)` register holds c, a `Range` lies in its bounds, whatever state the machine ends in. |
| `PpcSoundness.RunSound` | src/analysis/vm.rs:201-415 | Every register claim after straight-line code is true in every machine run of it. |
| `PpcBranches.CompareTracks` | src/analysis/vm.rs:344-369 | A comparison ties its field to the two values compared, and the tagged register to the left one. |
| `PpcBranches.TracksKept` | src/analysis/vm.rs:201-415 | That tie survives every instruction that does not write the field, copies of the tagged register included. |
| `PpcBranches.EdgeSound` | src/analysis/vm.rs:463-497 | On the edge the machine takes, the refined claims are true for unsigned comparisons, and for equality of any. |
| `PpcBranches.BranchRunSound` | src/analysis/vm.rs:344-497 | Compare, any safe code that leaves the field alone, then the branch: the claims on the edge taken are true in every run. |
| `PpcBranches.SignedEdgeIff` | src/analysis/vm.rs:599-670 | After `cmpwi` or `cmpw` with a known right side, and whatever was known of the left one, the claims on the edge taken are true if and only if both words have the same sign, or the refinement wrapped (0 for less, all ones for greater). |
| `PpcShortfalls.SignedEdgeFails` | src/analysis/vm.rs:599-670 | An input: with -1 in r3, `cmpwi r3, 1; blt` is taken and the tracker claims that r3 is at most 0. |
| `PpcBranches.SettleSoundIff` | src/analysis/vm.rs:588-597 | Settling a tag that one register carries is sound exactly when the value is true of that register. |
| `PpcBranches.IdiomSize` | src/analysis/vm.rs:463-515 | After `cmplwi rX, N; bgt; slwi; lwzx; mtctr; bctr` with k the lesser of N and the bound already known, the table has size 4(k+1) if and only if 0 < k < 2^30 - 1. |
| `PpcShortfalls.SizeFails` | src/analysis/vm.rs:499-515 | An input: an index bounded by zero gives no table of one entry. |
| `PpcBranches.IdiomInBounds` | src/analysis/vm.rs:499-515 | In every run of that idiom CTR gets the word at base plus index, as the machine takes the base; the index is four times that of an entry of the table; and the address is the one in the tracker's table if and only if the base register is not r0 or the base is 0. |
| `PpcShortfalls.ZeroBaseFails` | src/analysis/vm.rs:499-515 | An input: with a table's address in r0 and index 1, `lwzx r5, r0, r4` loads the word at address 4. |
| `PpcShortfalls.ZeroBaseClaims` | src/analysis/vm.rs:499-515 | For the same code, and sound knowledge of r0, the tracker reports a table of eight entries there. |
| `SwitchFacts.LoadBounds` | src/analysis/x86.rs:888-915 | A byte load through a bounded index is below the index table's count; the whole register is if and only if the load zero-extends or the rest was zero. |
| `SwitchFacts.IndexEntries` | src/analysis/x86.rs:900-915 | One more than the greatest byte of the index table; none exactly if the table is too long or outside the section. |
| `SwitchFacts.JumpTableTargets` | src/analysis/x86.rs:980-1004 | The words of the table in order, exactly when there are 1 to 1024, the table lies after the function's start and in the section, and every word is in the function before the table. |
| `SwitchFacts.ByteLoadFails` | src/analysis/x86.rs:888-915 | An input: `cmp ecx, 0; ja; mov al, [ecx + 8]; jmp [eax*4 + 12]` run with 0x100 in EAX, which jumps past the recovered table of one entry. |
| `SwitchFacts.DispatchLands` | src/analysis/x86.rs:989-1004 | A dispatch with its index below the recovered count goes to the entry recorded at that index, inside the function and before the table. |
| `SwitchFacts.BoundedDispatchLands` | src/analysis/x86.rs:861-930 | After `cmp reg, imm; ja` falls through, every run along the path lands on a recorded target. |
| `SwitchFacts.IndexedDispatchLands` | src/analysis/x86.rs:888-930 | The same through an index table, when the load zero-extends or the index was zeroed before. |
| `SwitchTracking.SwitchTracker.Observe` | src/analysis/x86.rs:862-930 | The three fact maps and the dispatches after one instruction. |
| `SwitchTracking.AlongJustified` | src/analysis/x86.rs:862-930 | Whatever is observed, in whatever order, every fact the tracker then has is justified by a path of observed instructions that begins at its comparison. |
| `SwitchTracking.SwitchTracker.Recover` | src/analysis/x86.rs:935-967 | Recovers exactly the dispatches whose table is bounded now, in address order; candidates, spans and the queue end as those recoveries, one after the other, leave them: all their entries relocated and queued, only their tables as spans. |
| `SwitchTracking.BoundFound` | src/analysis/x86.rs:862-930 | The tracker has every bound that a path of observed instructions justifies, if the path was observed in its order, though others came between, and no fact passed on was overwritten. |
| `SwitchTracking.IndexFound` | src/analysis/x86.rs:862-930 | It has every bounded index-table load likewise, if no other byte load follows on the path. |
| `SwitchTracking.TrackedDispatchLands` | src/analysis/x86.rs:861-1004 | Whatever table the tracker's facts give a dispatch, it has as many entries as the fact says, some path of observed instructions justifies the fact, and along every path that justifies it every run lands on a recorded target in `[fn, table)`. |
| `X86Discovery.Worklist.Trace` | src/analysis/x86.rs:213-472 | The trace of one function ends; every way on from a visited instruction is visited or enqueued, and every dispatch that the facts bound by a table has it followed. Nothing else is visited: each address is the function's, a way on of one observed before, or an entry of a recovered table. Worklist and functions grow by exactly what its calls and tail calls add, and what was known or awaited at each instruction is noted. |
| `X86Discovery.Worklist.Follow` | src/analysis/x86.rs:277-455 | One instruction: the ways on it queues, and exactly what it adds to the worklist and the functions. |
| `X86Discovery.JumpDecided` | src/analysis/x86.rs:344-437 | A near jump whose target was awaited or a known function is no way on, and its target is put on the worklist unless it is only referred to; every other near jump is followed in the same trace. |
| `X86Discovery.BoundedRecovered` | src/analysis/x86.rs:935-1004 | Every dispatch bounded along a path that the trace observed in order has its table recovered, if the table's words are in the function. |
| `X86Discovery.IndexedRecovered` | src/analysis/x86.rs:888-1004 | So has every dispatch bounded through an index table, where no path bounds the index itself. |
| `X86Discovery.TracedTableLands` | src/analysis/x86.rs:213-240 | Each table a trace recovered was bounded by what the trace had observed up to some moment, the dispatch included: a path of those instructions justifies the bound, and along every path that does, every run lands on a recorded target. |
| `X86Discovery.Worklist.Discover` | src/analysis/x86.rs:164-526 | The worklist ends with nothing pending, by a history in which each turn drops or traces the least entry, and worklist and functions are exactly what the traces leave; each entry is inside a known function, inside an instruction or table of some complete trace, or traced itself; spans come from traces alone, and a trace visits nothing but what the function leads to; each data word into code that decodes is an entry or spanned; and no entry is invented: each was there first, is a data word, or is called by an instruction of a trace. |
| `X86Discovery.FunctionsAre` | src/analysis/x86.rs:186-436 | The functions in the end are those known at first, every entry traced, and every callee or near tail call of a trace. |
| `X86Discovery.Worklist.ScanData` | src/analysis/x86.rs:487-521 | The data sweep enqueues each word that points at a decodable address outside all spans. |
| `CoffFolding.ReadSymbols` | src/cmd/coff.rs:229-242 | Every name gathers all its entries in file order; the first non-alias name at an address is its primary. |
| `CoffFolding.ReadRecords` | src/cmd/coff.rs:300-326 | The records without their auxiliary ones, and the parent of each associative section. |
| `CoffFolding.Folding.Fold` | src/cmd/coff.rs:300-448 | Fails exactly when some record's fate is an error or a removed section's header lies outside the file; else each record reads as its fate says with its name unchanged, the removed set is the least closed one, removed sections are marked, and no other byte of the file differs. |
| `CoffFates.FateIff` | src/cmd/coff.rs:330-426 | A record is folded exactly when it is the first definition of a COMDAT section, has a listed name with no entry of the unit's own, and, if static, one that is shared; it then becomes what the symbols file says, and it is an error exactly where the section has no header or the alias no primary. |
| `CoffFates.FoldFailsIff` | src/cmd/coff.rs:353-426 | The folding fails exactly if some record must make it fail. |
| `CoffFates.FoldIs` | src/cmd/coff.rs:353-448 | In the bytes left every record reads as it must become, and the removed sections are the least closed set over those of the records that must be folded. |
| `CoffFates.LeaderIff` | src/cmd/coff.rs:340-350 | A section's leader is its first definition: external, or a static function. |
| `CoffFates.AssociationsAre` | src/cmd/coff.rs:311-322 | A section is associated with what the auxiliary record of its last associative section symbol names. |
| `CoffFolding.Plan.FoldReads` | src/cmd/coff.rs:357-430 | Patching the folded records one by one in the bytes leaves each record reading as its own fate says. |
| `CoffFolding.CloseRemoved` | src/cmd/coff.rs:427-441 | The least set that holds the folded sections and every section whose associative parent it holds. |
| `CoffFolding.MarkedBits` | src/cmd/coff.rs:442-448 | Bit by bit, what marking does to a section's characteristics: removed, no COMDAT, all else kept. |
| `CoffMeaning.RemovedIff` | src/cmd/coff.rs:357-441 | A section is removed if and only if its leader is folded or its associative parent is removed. |
| `CoffMeaning.AliasStaysLive` | src/cmd/coff.rs:388-423 | The section an alias is pointed at stays in the link when its primary leads it and it is not associative. |
| `CoffMeaning.AliasMeetsPrimary` | src/cmd/coff.rs:388-411 | In the bytes left, each leader folded onto an alias reads the same value and section as its primary's own record, and that section is live if the primary leads it and it is not associative. |
| `CoffMeaning.FoldedOutReads` | src/cmd/coff.rs:412-423 | In the bytes left, every other folded leader reads as an undefined external of the same name, and the unit has no alias of it. |
| `CoffAppending.BuildRecords` | src/cmd/coff.rs:476-496 | The records and strings of the new definitions, each long name at the offset where its string comes to lie. |
| `CoffAppending.Append` | src/cmd/coff.rs:500-516 | Every byte but the two sizes is kept, shifted by what is spliced in before it; the sizes read as the new counts. |
| `CoffAppending.OldRecordReads` | src/cmd/coff.rs:274-286 | Every old record reads the same name at its old index, if that name ends inside the string table. |
| `CoffAppending.OldNameIff` | src/cmd/coff.rs:274-286 | Whichever offset it holds inside the file, an old long name is kept if and only if the bytes it runs over are: those of the size, and whatever follows the table, before and after. |
| `CoffAppending.OldNameFails` | src/cmd/coff.rs:274-286 | An input: a name that begins inside the size, and reads otherwise once the size is rewritten. |
| `CoffAppending.NewRecordReads` | src/cmd/coff.rs:476-516 | Each appended record reads back its definition, its name if and only if that can be written. |
| `CoffAppending.AppendDefs` | src/cmd/coff.rs:450-516 | Building and splicing together: the two sizes are the new counts, modulo 2^32; and where they fit, they, every old record and every new one read as they should. |
| `CoffAliases.RewriteMissing` | src/cmd/coff.rs:457-498 | The loop over the names: each undefined record chosen reads as its definition, no other byte changes, and the rest become the definitions to append. |
| `CoffFates.ActionIs` | src/cmd/coff.rs:459-498 | For each name exactly what must be: the first undefined record of it becomes the definition of its primary, with the type found there, or one is appended. |
| `CoffAliases.DefineMissing` | src/cmd/coff.rs:450-516 | That loop and the appending together, with the object in between as a witness. |
| `CoffAliases.Stages.MissingMeetsPrimary` | src/cmd/coff.rs:450-516 | In the final bytes each name that got a definition is a record of the symbol table, an external at the very location its primary's own record reads, in a section that stays in the link if the primary leads it, with the type of a record there, and its name reads back wherever a record can hold it. |
| `Directives.BlankExports` | src/cmd/coff.rs:522-548 | The buffer ends up as the blanked bytes, of the same length, and the count is the number of tokens blanked. |
| `Directives.TokensOfBlanked` | src/cmd/coff.rs:536-547 | For every byte string the tokens left are the original ones without the blanked ones, in order. |
| `Directives.ExactlyDirectives` | src/cmd/coff.rs:536-547 | They are the tokens that are no export directives if and only if no token is odd: another first byte, or nothing after the colon. |
| `Directives.OddToken` | src/cmd/coff.rs:543-545 | A token that is lost although it is no directive. |
| `CoffObject.BlankSections` | src/cmd/coff.rs:522-548 | The loop over the section headers blanks each `.drectve` section it finds inside the file, one after the other. |
| `CoffObject.BlankingIs` | src/cmd/coff.rs:522-548 | Where those sections lie apart from each other and from the headers, each becomes its own blanked bytes and no other byte changes. |
| `CoffObject.TokensLeft` | src/cmd/coff.rs:522-548 | Then each is left with exactly its other tokens, in order. |
| `CoffObject.FoldObject` | src/cmd/coff.rs:270-549 | All of `fold` on the bytes of an object: it reaches those stages, then blanks the directives; it fails exactly when some record must make it fail or a removed section has no header, and the sections removed are those that must be. |
| `SymbolStore.ObjSymbols.Add` | src/obj/symbols.rs:311-425 | Merges into the first symbol at the address that it may merge with (or the absolute one of its name), else adds; all three indexes list every symbol once under its key, and no symbol moves. It fails exactly where a replacement would have to move the symbol, or an absolute one is added to a relocatable object. |
| `SymbolStore.ObjSymbols.AddDirect` | src/obj/symbols.rs:427-450 | Adds the symbol and indexes it; fails exactly for an absolute one, not common, in a relocatable object. |
| `SymbolStore.ObjSymbols.Replace` | src/obj/symbols.rs:619-634 | Succeeds exactly if address and section stay; the by-name index follows the name. |
| `SymbolStore.UpdatedKeeps` | src/obj/symbols.rs:336-408 | Merging never forgets a known size or a kept flag, and never turns one resolved kind into another, imports aside. |
| `SymbolStore.UpdatedIs` | src/obj/symbols.rs:336-408 | Field by field what a merge leaves: a symbol that stays only learns its size; one that gives way takes over all but what the new one leaves open, a kind already known, and the flags that are kept. |
| `SymbolStore.MergesIff` | src/obj/symbols.rs:322-360 | Which symbols merge, and which gives way: when told to, a made-up name to a real one, and a label to a jump table. |
| `NestedLists.PutIn` | src/obj/symbols.rs:619-634 | Listing one unlisted index under a key leaves each index listed once, under its own key, and nothing else. |
| `SymbolRelocations.ForRelocation` | src/obj/symbols.rs:637-668 | The nearest address at or below the target where the best candidate starts at the target or has a size, and that candidate only if it starts at or covers the target. |
| `SymbolRelocations.ReferencedIff` | src/obj/symbols.rs:686-716 | Ignored and stripped symbols are never referenced, labels and section symbols by address halves only, functions by all but SDA21. |
| `SymbolRelocations.Prefers` | src/obj/symbols.rs:718-766 | Which of two symbols is preferred: untyped ones by halves of addresses, functions and objects by all else, sized ones of a kind, section symbols last. |
| `SymbolRelocations.Query.BestIsLeast` | src/obj/symbols.rs:718-745 | The best candidate of an address has the least key of all eligible ones. |
| `SymbolRelocations.Query.BestIsFirst` | src/obj/symbols.rs:718-745 | Of equally good ones it is the first. |
| `SymbolRelocations.CoherentPlaced` | src/obj/symbols.rs:619-634 | Address plus addend stays the original target across whatever the table allows, since no symbol moves. |
| `SymbolRelocations.Relocations.AddRel32` | src/analysis/x86.rs:1187-1241 | The relocation's symbol plus addend is the target; it is the symbol found, else the last function holding the target, and a new one only if neither exists; others are untouched. |
| `SymbolRelocations.Relocations.ResolveAbs32` | src/analysis/x86.rs:1120-1184 | Every new relocation is justified by a candidate that resolves to a symbol of known size its unit can name; every candidate left out has a reason; no old one changes. |
| `SymbolRelocations.Relocations.RetargetDestructors` | src/cmd/coff.rs:1239-1268 | In vftables exactly the `??_G` slots that have a `??_E` alias are pointed at it, and all targets stay. |
| `Splits.ObjInfo.AddSplit` | src/obj/mod.rs:188-359 | The call ends; where each unit has one split its effect is that of one merge, overwritten units renamed in every section, and it fails exactly on the refused cases, changing nothing. |
| `Splits.DecideIff` | src/obj/mod.rs:206-300 | For a unit with a split: refused exactly on a clash or over another unit's hand-written split; unchanged exactly if covered, or generated and over any hand-written one; else extended to exactly both. |
| `Splits.MergedIs` | src/obj/mod.rs:206-355 | What the extended split takes from both. |
| `Splits.PushIff` | src/obj/mod.rs:206-359 | Pushed exactly if the unit has none, keeping splits that start together in order of their ends. |
| `Splits.OthersRenamed` | src/obj/mod.rs:318-340 | Every other section keeps its splits, under the new name exactly where their unit was overwritten. |
| `Splits.AfterOnePerUnit` | src/obj/mod.rs:188-359 | Each unit still has at most one split. |
| `Splits.HandWrittenKept` | src/obj/mod.rs:236-290 | No hand-written split of another unit is removed or changed. |
| `Splits.CoversBoth` | src/obj/mod.rs:206-330 | Whenever anything changes, one split of the unit covers both what it had and what was asked for. |
| `Splits.ExtensionDisjoint` | src/obj/mod.rs:206-330 | An extension keeps splits disjoint if and only if no other unit's split straddles where it starts. |
| `Splits.StraddledFails` | src/obj/mod.rs:206-330 | An input: an extension that ends up overlapping a split of another unit. |
| `Splits.ForUnit` | src/obj/splits.rs:104-111 | The unit's one split; none exactly if it has none, an error only if some unit has two. |
| `AddressIntervals.AddressRanges.Insert` | src/obj/addresses.rs:23-36 | After any inserts the entries are strictly sorted, one for each start inserted, with the greatest end inserted there. |
| `AddressIntervals.AddressRanges.ContainsIff` | src/obj/addresses.rs:38-50 | The binary search answers for a start, and for an address in the entry with the greatest start below it. |
| `AddressIntervals.AddressRanges.ContainsUnion` | src/obj/addresses.rs:38-50 | Membership in the union of all inserted ranges, when none is empty and they form a staircase. |
| `AddressIntervals.AddressRanges.ContainsDisjoint` | src/obj/addresses.rs:38-50 | The same for ranges of which none reaches into another that starts later. |
| `Spans.PredecessorDecides` | src/analysis/x86.rs:1009-1022 | The span that starts last before an address decides membership in the union for all addresses if and only if no earlier span overhangs a later one. |
| `Spans.OverhangFails` | src/analysis/x86.rs:1009-1022 | An input: an address inside a span that the lookup misses. |
| `FunctionDiscovery.Image.SkipEndIs` | src/analysis/cfa.rs:419-424 | With skip ranges apart the predecessor decides, and a range's end is in no other. |
| `FunctionDiscovery.AnalyzerState.TryAddFunction` | src/analysis/cfa.rs:407-417 | Adds an unanalysed function exactly in the section, outside the skip ranges, where none is. |
| `FunctionDiscovery.AnalyzerState.ProcessFunctionAt` | src/analysis/cfa.rs:447-473 | All references that may be functions are added and the function itself is set; an error exactly when the analysis gives one, changing nothing. |
| `FunctionDiscovery.AnalyzerState.SkipAlignment` | src/analysis/cfa.rs:548-572 | The first word of the gap that is neither zero nor skipped, or proof that the gap is padding. |
| `FunctionDiscovery.AnalyzerState.DetectNewFunctions` | src/analysis/cfa.rs:488-546 | Each address added is new, outside all functions of known end, the first word of its gap; nothing is added only if all gaps are padding and no functions overlap; it fails on analysed functions only for an overlap. |
| `FunctionDiscovery.DetectedOutside` | src/analysis/cfa.rs:488-546 | A detected word lies in no function of known end. |
| `FunctionDiscovery.PaddedIs` | src/analysis/cfa.rs:548-572 | Each address of a padded gap is in a skip range or in a zero word. |
| `FunctionDiscovery.AnalyzerState.FinalizeFunctions` | src/analysis/cfa.rs:321-405 | The functions come from the old ones by steps, each what the analysis says of the functions before it; it reports nothing only if no undecided function can be made final, and then nothing changed; where it reports one, the fixpoint's measure has come down; it fails only by an analysis. |
| `FunctionDiscovery.AnalyzerState.ProcessFunctions` | src/analysis/cfa.rs:430-445 | The fixpoint ends: all functions analysed, none that could still be made final, none overlapping, every gap padding; the functions come from the old ones by such steps, or by adding new ones a gap begins with; it fails only by an analysis or an overlap. |
| `FunctionDiscovery.AnalyzerState.FinishFunctions` | src/analysis/cfa.rs:299-318 | The final passes end too, with all that and every function decided; every change is one of those steps, and no function is ever dropped. |
| `LinkRelocations.BranchReads` | src/cmd/rel.rs:645-670 | A relocated branch goes to its target if and only if that is a multiple of four away; all other bits stay. |
| `LinkRelocations.AppliedIff` | src/cmd/rel.rs:630-678 | An error exactly for a branch out of reach; an absolute address is the whole word, and kinds of other uses leave it. |
| `LinkRelocations.MisalignedFails` | src/cmd/rel.rs:645-670 | An input: a branch to an address two bytes ahead goes elsewhere. |
| `LinkRelocations.HalfReads` | src/cmd/rel.rs:633-644 | A 16-bit relocation sets the low half and keeps the high one. |
| `LinkRelocations.HaLoReadBack` | src/cmd/rel.rs:636-644 | `lis; addi` with the @ha and @l fields reads back as the target, in the register tracker, if and only if the register is not r0 or the high half is zero. |
| `LinkRelocations.HiLoReadBack` | src/cmd/rel.rs:633-644 | `lis; ori` with the @h and @l fields reads back as the target. |
| `LinkRelocations.LinkSection` | src/cmd/rel.rs:630-678 | Every site is relocated from its original word and no other byte changes; an error only where a branch does not reach. |
| `DiffRanges.CalcDiffRanges` | src/util/diff.rs:52-107 | Ranges in bounds, in order and two apart; the clipped window of each difference lies in one range; every index in a range is within one more than the window of a difference. |

## Left out

- The command line, files, YAML and JSON, hashing, logging and threads: no properties of their own.
- Decoding of instructions, the containers' parsers and compression: other libraries, which are parameters here.
- `Executor.Run` takes its callback as a pure function from the captured state to effects, because a Dafny method
  cannot be passed; `FunctionSlices.Run` is therefore the same loops again with the one callback it runs.
- Addresses in the executor and the slices are word indices in one code section, as the visited bitset has them.
- `FunctionSlices.Analyze` assumes that no non-zero illegal word is stepped over: that arm (src/analysis/slices.rs:334-342)
  skips the test that stops a block at the next one. Prologue, epilogue and tail-call checks are arbitrary predicates.
- Signed refinement beyond `SignedEdgeIff`, rotates of ranges other than the plain shift, update forms, `lmw`,
  stale comparison tags, and floating point in the register tracker: only approximate in the source, excluded by `Safe`.
- Relocated instructions in `PpcSoundness`: the claims are stated for executables without relocations.
- x86 discovery over several code sections, function sizes, the linear sweep of the third phase, and the raw ends of functions.
- The tracker takes a byte load into AH for the index as well; `LoadBounds` says what holds of the other parts.
- Text parsing of the symbols and splits files: `ReadSymbols` begins at the lines' fields. Names are byte
  strings; the source replaces malformed UTF-8 in them.
- `CoffFolding.Folding.Fold` asks for a symbol table inside the file; the source panics on another. What a record
  reads is stated for removed sections that have a header; the source writes over whatever is there for another.
- `CoffObject.FoldObject` gives up where a removed section has no header. What is read back from the final object is
  stated where the new record count and string table size fit 32 bits; otherwise they wrap (`AppendDefs`).
- Which automatic and linker-generated label names there are is an arbitrary predicate in `SymbolRelocations`.
- `SymbolStore.ObjSymbols.Add` leaves out demangled names and hashes, and where it fails it may have written one index, as the source does.
- `Splits.ObjInfo.AddSplit` asks for ends above starts and not zero: a zero end stands for the section's in the
  source, and can make the call repeat itself.
- `FunctionDiscovery` takes the analysis of one function, and the attempt to finalize one, as arbitrary functions of
  the functions known, with ends above starts; the first pass over known functions is not modelled, nor the jump tables.
- `LinkRelocations` models sites on word boundaries. Sums at the top of the address space wrap. The reach of a
  14-bit branch is tested as the source does, for less than the field holds.
- RTTI names, import and export labels, signatures, strings, assembly and DWARF printing: scanning and formatting.
