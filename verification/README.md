# purv: three RISC-V engines, one transcoder, and the proofs that they agree

The repository runs RV32IM(C) programs three ways. `purv` interprets: fetch, decode and execute in
one loop, with a window of instructions that need no bounds check. `purvs` decodes ahead into a
small buffer, tracing through unconditional jumps, and threads over the records. `purva` is an
ahead-of-time transcoder: a peephole compiler in three passes that drops no-ops, collapses
prologues, epilogues, address formations, pairs and triples of instructions into single packed ops,
renumbers every code address, and leaves an evaluator to run the op words. Around them sit a
link-time rewriter, a fuel-metered run loop, an allocator whose free list lives in guest bytes, a
bulk memory instruction, a reverse-execution ring and 64-bit division. This project models all of
these and proves that the fast forms mean what the simple ones do.

## How the model is put together

* **One source machine.** `SourceMachine` runs RV32IM on decoded instructions (The RISC-V
  Instruction Set Manual, Volume I, Unprivileged ISA 20191213). Every link it writes is the
  *renumbered* address `4 * map`, and an indirect jump goes to the instruction that has that
  number. With that one change registers and memory match the transcoded program exactly.
* **The compiler.** `Fusion` is the shared decision of both passes as functions of the code and the
  jump targets; `TargetSets`, `Transcoder`, `Linking`, `LinkChecks`, `DataPointers` and `Images` are the passes
  themselves, updating a bitset, a map, op words and data bytes in place, each proved against those
  functions. `Layout` is the arithmetic of the map, `OpWords` the packed words.
* **The op machine.** `Evaluator` says what an op does; `PurvaEngine` is the engine that does it to
  registers, memory and a cursor. `Harts` is the state all three engines share.
* **Meaning.** `SingleSimulation`, `PairSimulation` and the `Frame*` modules prove unit after unit
  (`Reorderings` is the theory of steps taken in another order);
  `WholeRuns.Preserves` is the theorem over whole runs, fuel included (`SourceFuel` prices source
  instructions), `Renumbering` its hypotheses in a program's own terms,
  `GuestRuns.GuestMatchesSource` the same through the run loop, and `Embedding.Embed` the method
  that transcodes, links and runs.
* **The other engines.** `Rv32c` holds both decoders, `PurvMachine` and `PurvEngine` the
  interpreter, `PurvsTrace`, `PurvsSlots`, `PurvsStops` and `PurvsEngine` the decode-ahead engine.
* **What the shared parts compute.** All engines use the same arithmetic, fields and memory access,
  so these have laws of their own, not stated through them: `AluLaws` in the integers' terms,
  `MemoryLaws` byte by byte, `BulkLaws` for the bulk instruction. `Encodings` and `Compressed` are an
  assembler by the manual's bit positions (sections 2.2, 2.3 and 16.2 to 16.8) that all three
  decoders undo; `Programs` carries that to whole programs in the code bytes, and `EnginesAgree`
  runs one program on all three engines.
* **The allocator.** `HeapShape` is the heap as a sequence of blocks, `HeapBytes` and `HeapUpdates`
  tie it to header bytes, `GuestHeap` is the allocator writing those bytes.
* `Batches`, `FuelSlices`, `FuelCharges`, `BulkOps`, `BulkCopies`, `History` and `Division` are what
  their names say.

The outside world is a parameter: an `Env` of deterministic handlers and memory callbacks over an
opaque host state. Because they receive and return that state, equal final host states mean the
same callbacks with the same arguments in the same order.

## Where the properties needed care

Facts about the code, each with the lemma that states it.

* A virtual call whose slot holds an odd address leaves a different value in its register than the
  three instructions would (`emu/purva/purva.c:286-288` clears bit 0 before the write). Fused and
  unfused agree exactly when the slot is even or the register is `ra`
  (`PairSimulation.VcallAgreesIff`).
* A fused prologue or epilogue accesses its slots from the top down, the instructions in textual
  order. They agree under all callbacks exactly when no two accesses out of slot order can be told
  apart: stores that both hit the writable region, loads that both hit a region or of which one
  reads the read-only one (`FrameNeeds.SavesAgreeIff`, `FrameNeeds.RestoresAgreeIff`).
* The one-compare frame test of `emu/purva/purva.c:75-82` is right for every offset exactly when
  the writable region holds at least 52 bytes (`FrameSimulation.BandTestExact`).
* An `auipc` left without a relocation reads the op cursor, which is right exactly where nothing
  has drifted (`SingleSimulation.BareAuipcIff`).
* The bulk instruction writes its result unguarded: with `x0` as its register it keeps `x0` zero
  exactly when it copies, fills or its scan comes out as zero (`BulkOps.NamingZeroIff`, and
  `BulkOps.NamingZeroBreaks` for one that does not).
* A bulk copy chooses its direction by comparing addresses as numbers. Block-wise it is
  simultaneous always; bytewise it is so on every memory exactly when the ranges start at the same
  address or length plus distance is at most 2^32 (`BulkCopies.BytewiseIff`). Beyond that the first
  byte written is read back, also on the layout of the embedding (`BulkCopies.BoundarySmears`).
* The two 32-bit decoders disagree on some reserved encodings (`emu/purv.c:212-221`,
  `emu/purvs/purvs.c:168`); they agree on an encoding in every state exactly when it does not clash
  (`Rv32c.DecodersAgreeIff`).
* `purvs` enters code shorter than four bytes unchecked at address 0 (`emu/purvs/purvs.c:545`,
  `PurvsEngine.WindowExact`).
* At a stopping trap `purvs` leaves the address its run started at (`emu/purvs/purvs.c:558` is
  never advanced, though the comment at 613 calls it the faulting pc). That is the trap's address
  exactly when the run begins with the trap (`PurvsStops.BatchStop`); `addi; ecall` is a run where
  it is not (`PurvsStops.StopsEarly`).
* Reverse execution puts registers and pc back for every engine. Memory comes back exactly where
  the step reported stores that undo it (`History.RewindExact`); the engines here report none, so
  it comes back exactly when no undone step changed it (`History.RegistersOnly`,
  `History.StoreStays`), as `emu/README.md:185-189` says.
* The allocator's unit count covers the request without wrapping exactly for requests up to
  2^32 - 16 (`GuestHeap.UnitsExact`).
* Signed 64-bit division is right exactly when the quotient is representable (`Division.Divdi3`).

Where a comment and the code differ the model follows the code: the comment above `step` in
`emu/purva/transcode.c:361-367` says every op is one word, but the load-and-branch op takes two
(`emu/purva/transcode.c:123-127`); the comment at 285-291 says a pair fusion returns 8, but a
virtual call returns 12.

## Model

| member | source | states |
|---|---|---|
| WholeRuns.Preserves | emu/purva/purva.c:129-383 | from corresponding starts, after any number of ops the op machine has the registers, memory, host state and place the source machine reaches after at least as many instructions, or both are stopped by the same handler; and the fuel charged is what those instructions cost |
| WholeRuns.SkipNops | emu/purva/transcode.c:108-127 | dropped no-ops are finite stutters: the source reaches an emitting unit with nothing changed, nothing charged and the op index unmoved |
| UnitSimulation.UnitSimulates | emu/purva/transcode.c:368-401 | whatever unit the transcoder forms at a head, its one op does what all its instructions do |
| SingleSimulation.NopStutters | emu/purva/transcode.c:108-116 | an instruction folded to a no-op changes nothing in the source machine |
| SingleSimulation.SequentialAgrees | emu/purva/purva.c:197-237 | register, load, store, upper-immediate and bulk ops do what the instruction does |
| SingleSimulation.BranchAgrees | emu/purva/purva.c:239-244 | a branch op goes to the op of the branch's target, or to the next op |
| SingleSimulation.JalAgrees | emu/purva/purva.c:246-249 | a jump op links the renumbered address of the next instruction and lands on its target's op |
| SingleSimulation.JalrAgrees | emu/purva/purva.c:250-254 | an indirect jump op links and lands where the source machine does |
| SingleSimulation.TrapAgrees | emu/purva/purva.c:373-383 | a trap op calls the handler at the renumbered address, and stops or goes on as the source machine does |
| SingleSimulation.CodeAuipcAgrees | emu/purva/purva.c:310-314 | a relocated auipc reads the cursor's address |
| SingleSimulation.BareAuipcIff | emu/purva/purva.c:310-314 | an auipc left without a relocation is right if and only if its op has not drifted |
| SingleSimulation.LiLoads | emu/purva/purva.c:315-319 | a load-immediate's 21 bits bring back exactly the constant it was made from |
| SingleSimulation.LiAgrees | emu/purva/transcode.c:379-400 | a lone data auipc turned into a load-immediate loads its true value |
| SingleSimulation.LaAgrees | emu/purva/transcode.c:266-283 | auipc and addi fused into one load-immediate leave the same register |
| PairSimulation.ShaddAgrees | emu/purva/transcode.c:300-308 | shift and add, for every aliasing the matcher admits, equals the one op |
| PairSimulation.LwxAgrees | emu/purva/transcode.c:309-317 | add and load through the sum equals the one op, callbacks included |
| PairSimulation.LwlwAgrees | emu/purva/transcode.c:318-338 | the double indirection equals the one op, both callbacks in order |
| PairSimulation.LwswAgrees | emu/purva/purva.c:272-279 | the word copy equals the one op, also when the store base is the register just loaded |
| PairSimulation.LoadBzAgrees | emu/purva/purva.c:293-305 | load and branch on zero equals the two-word op, the load possibly relocated |
| PairSimulation.VcallAgreesIff | emu/purva/purva.c:280-292 | the virtual call equals its three instructions if and only if its slot is even or its register is ra |
| Frames.CanonicalExact | emu/purva/transcode.c:179-193 | frame_canonical accepts exactly the layouts whose offsets are N-4-4p with rising ranks, and its mask's bits are those ranks from the top slot down |
| FrameAgreement.BitNamesSlot | emu/purva/transcode.c:174-193 | the p-th set bit names the register the code keeps at top-4-4p |
| FrameAgreement.HoldersPermute | emu/purva/transcode.c:174-193 | in an accepted run the slots' holders are a permutation of the instructions |
| FrameAgreement.LayoutMatches | emu/purva/transcode.c:174-193 | slot by slot the run's addresses and registers are the evaluator's, permuted |
| Reorderings.OrderIrrelevant | emu/purva/transcode.c:197-201 | steps taken in any order end alike when every pair that changed places commutes |
| FrameOrder.PutsReorder | emu/purva/transcode.c:197-201 | saves of which only pairs in the writable region changed places leave the same memory and host, callbacks included |
| FrameOrder.GetsReorder | emu/purva/transcode.c:197-201 | restores of which only undetectable pairs changed places leave the same machine |
| FrameNeeds.SavesAgreeIff | emu/purva/purva.c:87-94 | the fused saves equal the run's for all callbacks and registers if and only if saves out of slot order hit the writable region |
| FrameNeeds.RestoresAgreeIff | emu/purva/purva.c:95-102 | the fused restores equal the run's for all callbacks if and only if restores out of slot order cannot be told apart |
| FrameNeeds.PrologueNeeds | emu/purva/purva.c:326-340 | without that condition some callbacks and registers tell the fused prologue from its instructions |
| FrameNeeds.EpilogueNeeds | emu/purva/purva.c:345-360 | without that condition some callbacks tell the fused epilogue from its instructions |
| FrameSimulation.FastAgreesWithSlow | emu/purva/purva.c:326-340 | the fast saves equal the slow path's, which checks and routes each slot |
| FrameSimulation.FastRestoreAgrees | emu/purva/purva.c:345-360 | the fast restores equal the slow path's |
| FrameSimulation.BandTestExact | emu/purva/purva.c:75-81 | the one-compare test finds exactly the writable 52-byte bands if and only if the region holds one |
| FrameOps.PrologueAgrees | emu/purva/purva.c:326-340 | the prologue op equals the addi and every save it replaced |
| FrameOps.EpilogueAgrees | emu/purva/purva.c:345-360 | the epilogue op equals the restores, the addi and the return it replaced |
| Fusion.InteriorCold | emu/purva/transcode.c:203-359 | no unit hides a possible jump target behind its head |
| Fusion.PairsFuse | emu/purva/transcode.c:285-359 | which pairs are fused into what, form by form, for all registers and offsets in range |
| Fusion.TransferLast | emu/purva/transcode.c:203-359 | a unit's control transfer is its last instruction |
| Fusion.WordsWithin | emu/purva/transcode.c:123-127 | a unit never takes more op words than instructions |
| Transcoding.NopAlone | emu/purva/transcode.c:123-127 | a unit emits nothing exactly when it is a lone no-op |
| Layout.MapMonotone | emu/purva/transcode.c:465-480 | the map rises, and op distance never exceeds instruction distance |
| Layout.NextHead | emu/purva/transcode.c:465-480 | the next head's entry is this head's plus this unit's words |
| Simulation.TargetHeads | emu/purva/transcode.c:151-161 | every marked target heads a unit |
| Simulation.ReturnSiteHeads | emu/purva/purva.c:246-254 | the instruction after a control transfer heads a unit, so links resolve |
| Simulation.GotoLands | emu/purva/transcode.c:403-410 | an aligned in-window direct target resolves to its own op, never to the fallback |
| Transcoding.TargetReach | emu/purva/transcode.c:415-460 | in op space a transfer reaches no further than its instruction form allows |
| Transcoding.FinalReachable | emu/purva/transcode.c:415-460 | every branch displacement fits 16 bits and every jump displacement 21 |
| Transcoding.FinalPackable | emu/purva/transcode.c:415-460 | every final op's fields fit its packed layout, in the words the map reserved |
| Transcoding.FetchesUnit | emu/purva/purva.c:169-177 | at a unit's map entry the evaluator fetches that unit's op |
| OpWords.FetchBack | emu/purva/transcode.h:152-167 | the field accessors recover from every emitted word exactly the op that was packed |
| OpWords.BranchBack | emu/purva/transcode.h:155-159 | a 16-bit displacement gives back the branch's target op |
| OpWords.JalBack | emu/purva/transcode.h:160 | a 21-bit displacement gives back the jump's target op |
| OpWords.LoadBzBack | emu/purva/transcode.c:440-443 | the two-word form gives back load, target and the condition bit that rides in the displacement |
| OpWords.MaskRoundTrip | emu/purva/transcode.c:195 | the register mask survives packing |
| Renumbering.JumpReturns | emu/purva/purva.c:250-254 | a jump through the renumbered address of a head comes back to that instruction, up to dropped no-ops |
| Renumbering.LinkIsKnown | emu/purva/purva.c:246-254 | every link a call leaves names a place the map has |
| Renumbering.KnownJumpsAreSafe | emu/purva/transcode.c:151-161 | a run that takes only targets in the window, jumps indirectly only to external targets and return sites, and does not fall off the end, never leaves the map |
| TargetSets.Targets.constructor | emu/purva/transcode.c:133-137 | a new set has no slot marked |
| TargetSets.Targets.Mark | emu/purva/transcode.c:138-141 | marking adds exactly the slot of an in-window address to the bitset |
| TargetSets.Targets.Has | emu/purva/transcode.c:142-145 | asking finds exactly the marked slots |
| TargetSets.CollectTargets | emu/purva/transcode.c:151-161 | marked are exactly the slots of direct branch and jump targets and of external targets |
| TargetSets.CollectedIsMarked | emu/purva/transcode.c:151-161 | so every in-window direct and external target is one fusion may not hide |
| Transcoder.FrameCanonical | emu/purva/transcode.c:179-193 | the loop over slots computes the canonical mask, or refuses |
| Transcoder.ScanSaves | emu/purva/transcode.c:213-221 | the scan collects the saves that follow, up to 13 and up to a jump target |
| Transcoder.ScanRestores | emu/purva/transcode.c:234-241 | the scan collects the restores, the first of which may be a target |
| Transcoder.FusePrologue | emu/purva/transcode.c:207-226 | matches exactly the prologues of the shared decision |
| Transcoder.FuseEpilogue | emu/purva/transcode.c:232-255 | matches exactly its epilogues |
| Transcoder.FuseLa | emu/purva/transcode.c:266-283 | matches exactly its address formations |
| Transcoder.FusePair | emu/purva/transcode.c:292-359 | matches exactly its pairs and triples |
| Transcoder.NextUnit | emu/purva/transcode.c:368-401 | both passes see the same unit at a head |
| Transcoder.BuildMap | emu/purva/transcode.c:465-480 | the map holds each head's op index, the sentinel everywhere else, and the total |
| Transcoder.TargetWord | emu/purva/transcode.c:403-410 | a target resolves through the map, or to the op's own index |
| Transcoder.Displacement | emu/purva/transcode.c:440-449 | the baked displacement is four times the op distance and leaves its low bit free |
| Transcoder.Emit | emu/purva/transcode.c:415-460 | appends exactly the op's packed words and touches no other |
| Transcoder.EmitAll | emu/purva/transcode.c:494-515 | at each head the emit cursor equals the map's entry, both passes end at the same count, every unit's words stand there |
| Transcoder.Transcode | emu/purva/transcode.c:494-515 | the three passes together: targets as collected, map as laid out, words as packed |
| Transcoder.StepShared | emu/purva/transcode.c:361-367 | the decision depends on code and targets alone |
| Linking.ApplyFixups | emu/purva/tctool.c:262-308 | rewrites the pairs in place as PatchAll says, and refuses exactly when the guards of some fixup fail on the ops as given |
| Linking.PatchAllIs | emu/purva/tctool.c:262-308 | once accepted, every head's words are its op with the relocated immediates and nothing else changed |
| Linking.ResolveDataAuipc | emu/purva/tctool.c:319-345 | rewrites left-over data auipcs in place as ResolveAll says |
| Linking.ResolveAllIs | emu/purva/tctool.c:319-345 | each rewritten word is the load-immediate of the auipc's true value |
| LinkChecks.CanPatchIs | emu/purva/tctool.c:262-308 | the fixup pass's guards hold exactly when all three places have map entries, the first formed an auipc and the second an op that keeps a low immediate |
| LinkChecks.ResolveAllSome | emu/purva/tctool.c:319-345 | the data pass refuses exactly when some remaining auipc forms a constant out of reach |
| Pcrel.SplitRecombines | emu/purva/tctool.c:297-306 | hi20 and lo12 recombine modulo 2^32 for every distance and addend |
| Pcrel.AllHold | emu/purva/tctool.c:224-245 | several users of one auipc do not disturb each other |
| Pcrel.PcrelExact | emu/purva/tctool.c:257-308 | after linking, the auipc plus each of its users forms 4*map(symbol)+addend wherever fusion moved them |
| DataPointers.PatchRela | emu/purva/tctool.c:347-375 | patches the data buffer in place as PatchPointers says |
| DataPointers.PointersHold | emu/purva/tctool.c:347-375 | every patched word reads back as its renumbered address when all are done |
| DataPointers.OthersKept | emu/purva/tctool.c:347-375 | bytes no relocation covers keep their value |
| DataPointers.PointerNamesCode | emu/purva/tctool.c:154-182 | a patched word is the renumbered address of the very instruction named, and an indirect jump may use it |
| Images.BuildImage | emu/purva/tctool.c:262-345 | code, targets and relocations in; refused exactly when a relocation cannot be carried out, else a stream that satisfies what the run theorem asks |
| Images.LinkedStream | emu/purva/tctool.c:262-345 | what the link passes leave is the final op stream: nothing is left to resolve |
| Batches.Progress | emu/purva/purva.c:169-177 | every op charges fuel, and one that neither jumps nor stops moves forward: a batch ends by fuel left, then ops to the end |
| Batches.BatchSplit | emu/purva/purva.c:169-177 | pausing at one budget and going on with another is running with both |
| Batches.BatchEnds | emu/purva/purva.c:169-177 | a batch that ends early ends the same under any larger budget |
| Batches.BatchCharges | emu/purva/purvarun.h:257 | a batch that is not lost charges something, so the run loop never finds a guest inside its code wedged; one that pauses inside the code has used up its budget |
| Batches.Overshoot | emu/purva/purvarun.h:246 | a batch goes over its budget only by the last of its straight-line runs of ops: before that run it had charged less |
| Batches.BatchIsRun | emu/purva/purva.c:129-383 | a batch, whatever its budget, is some number of op steps, and its count is what they charge |
| FuelCharges.ChargeExact | emu/purva/purva.c:256-383 | an op charges the instructions it replaced, one for a load-immediate, and its loop besides for a bulk op |
| FuelCharges.ChargeIsWidth | emu/purva/purva.c:256-383 | charge and instruction count differ exactly at a fused address formation and a bulk op that charges its loop |
| SourceFuel.UnitFuel | emu/purva/purva.c:256-383 | a unit's instructions cost, one by one, what its op charges: no-ops and the second half of a fused address formation nothing, a bulk instruction its loop besides |
| FuelSlices.SliceSplit | emu/purva/purvarun.h:248-261 | a slice that leaves the guest runnable, then more fuel, is one slice of both |
| FuelSlices.SliceFinishes | emu/purva/purvarun.h:248-261 | a slice that finishes the guest does so identically with more fuel |
| FuelSlices.SlicesAsOne | emu/purva/purvarun.h:248-261 | any list of positive slices amounts to one slice of at least their sum |
| FuelSlices.SlicingInvisible | emu/purva/purvarun.h:246-261 | once one budget finishes the guest, every list of positive slices offering as much ends in the same state and status with the same fuel used |
| FuelSlices.SliceOvershoot | emu/purva/purvarun.h:246-261 | a slice goes over its fuel by one straight-line run at most |
| FuelSlices.SliceStatus | emu/purva/purvarun.h:248-261 | a slice that pauses with its pc past the code reports a trap, any other the verdict on its host, which is runnable exactly when it paused |
| FuelSlices.ExecHonest | emu/purva/purva.c:373-383 | an op ends the guest exactly when a handler stops the loop |
| GuestRuns.CallMatchesSource | emu/purva/purva.c:129-383 | one engine call under any budget pauses or stops at the instruction the source machine is at, with its state, having charged what its instructions cost, and at least one |
| GuestRuns.ImageContained | emu/purva/purva.c:129-135 | an image never sends the cursor off its ops |
| GuestRuns.GuestMatchesSource | emu/purva/purvarun.h:248-261 | however the fuel is sliced, the guest ends where its source program does, its fuel is what the source instructions cost, it is runnable only with all fuel used, and otherwise its status is the verdict on the source machine's host |
| GuestRuns.SliceOverrun | emu/purva/purvarun.h:246-261 | an embedded slice had used less than its fuel at some source instruction from which it ran one straight-line run of ops to its end |
| Embedding.Embed | emu/purva/purvarun.h:246-261 | code, targets, relocations, hart and fuel in; unless a relocation cannot be carried out, the hart ends as the source machine does after the instructions that fuel pays for, over it at most one straight-line run, and the status is the verdict on the host the source machine stopped with, done or trapped, or runnable with all fuel used |
| Harts.Hart.MemRead | emu/purva/purva.c:47-62 | reads through the writable region, then the read-only one, then the callback |
| Harts.Hart.MemWrite | emu/purva/purva.c:47-55 | writes through the writable region or the callback |
| Harts.Hart.LoadTo | emu/purva/purva.c:178-189 | loads with the width's extension; into x0 nothing happens |
| PurvaEngine.Engine.SaveBand | emu/purva/purva.c:330-336 | the unrolled saves leave exactly the bytes of the specification, and count themselves |
| PurvaEngine.Engine.RestoreBand | emu/purva/purva.c:349-354 | the unrolled restores likewise |
| PurvaEngine.Engine.SaveSlowly | emu/purva/purva.c:87-94 | the loop that takes the mask's lowest bit and clears it saves each register on its own, callbacks in order |
| PurvaEngine.Engine.RestoreSlowly | emu/purva/purva.c:95-102 | the loop that takes the mask's lowest bit and clears it restores each register on its own |
| MaskBits.LowestBit | emu/purva/purva.c:90 | clearing a mask's lowest bit takes its first rank and leaves the others, and shrinks the mask |
| PurvaEngine.Engine.RunPrologue | emu/purva/purva.c:326-340 | state and charge of the prologue op |
| PurvaEngine.Engine.RunEpilogue | emu/purva/purva.c:345-360 | state, charge and return address of the epilogue op |
| PurvaEngine.Engine.CopyRange | emu/purvmemop.h:75-87 | block move when both ranges resolve, else bytewise in the overlap's direction |
| PurvaEngine.Engine.FillRange | emu/purvmemop.h:88-96 | block fill or bytewise fill |
| PurvaEngine.Engine.RunBulk | emu/purvmemop.h:67-147 | every subtype's state and fuel charge |
| PurvaEngine.Engine.RunOp | emu/purva/purva.c:197-383 | every handler's state, charge and control flow |
| PurvaEngine.Engine.Run | emu/purva/purva.c:129-383 | the loop over the cursor ends with the count, pc and state of the specified batch |
| PurvaEngine.Engine.RunFor | emu/purva/purvarun.h:248-261 | the slice loop ends with the guest, status and fuel of the specified slice |
| HeapShape.BlocksApart | emu/purva/purvarun.h:80-145 | blocks are pairwise disjoint and in address order |
| HeapShape.Conservation | emu/purva/purvarun.h:80-145 | anchor, free units and live units always make up the arena |
| HeapShape.ReleasedShape | emu/purva/purvarun.h:97-110 | freeing keeps blocks end to end and no two free neighbours touching |
| HeapShape.ReleasedUnits | emu/purva/purvarun.h:97-110 | freeing moves exactly the block's units from live to free |
| HeapShape.ReleasedFree | emu/purva/purvarun.h:97-110 | the free list gains the block's address unless its left neighbour absorbs it, and loses an absorbed right neighbour's |
| HeapShape.CarvedShape | emu/purva/purvarun.h:125-131 | handing out whole or off the tail keeps the shape |
| HeapShape.CarvedUnits | emu/purva/purvarun.h:125-131 | handing out moves exactly those units from free to live |
| HeapUpdates.ReleasedHolds | emu/purva/purvarun.h:97-110 | after free's header writes the bytes hold one circular address-ordered list of the coalesced blocks |
| HeapUpdates.TakenHolds | emu/purva/purvarun.h:126 | after unlinking a whole block the bytes hold the list without it |
| HeapUpdates.SplitHolds | emu/purva/purvarun.h:127-128 | after splitting a tail the bytes hold both parts |
| HeapUpdates.GrownHolds | emu/purva/purvarun.h:115-116 | a size word at the end of the arena makes a live block there |
| GuestHeap.Allocator.constructor | emu/purva/purvarun.h:238-241 | the empty heap is the anchor alone, linked to itself, and valid |
| GuestHeap.Allocator.Conserved | emu/purva/purvarun.h:80-145 | in every valid state the arena is 8 * (1 + free units + live units) bytes |
| GuestHeap.Allocator.FindBelow | emu/purva/purvarun.h:98-100 | the circular search ends within one lap, at the free block below |
| GuestHeap.Allocator.LinkRight | emu/purva/purvarun.h:101-104 | joins or links the next free block |
| GuestHeap.Allocator.LinkLeft | emu/purva/purvarun.h:105-108 | joins or links the free block below |
| GuestHeap.Allocator.Free | emu/purva/purvarun.h:97-110 | keeps the heap valid; the block and the free neighbours it touches become one; no other live payload and no byte outside the arena changes |
| GuestHeap.Allocator.Grow | emu/purva/purvarun.h:111-119 | grows by 32768 bytes, or by the request where that is more; refuses exactly when either would pass the top, and then changes nothing |
| GuestHeap.Allocator.Take | emu/purva/purvarun.h:125-131 | hands out the whole block or its tail, keeping every live payload |
| GuestHeap.Allocator.Malloc | emu/purva/purvarun.h:120-134 | keeps the heap valid; takes the first free block from freep on that fits, else grows once, by 32768 bytes or, if more, by the request and its header rounded to 8; fails exactly for zero or when nothing fits and fewer than 32768 bytes, or than it needs, are left; a block handed out overlaps no live one |
| GuestHeap.Allocator.Move | emu/purva/purvarun.h:142 | memmove between payloads is simultaneous |
| GuestHeap.Allocator.PayloadWritten | emu/purva/purvarun.h:80-82 | the heap stays valid while a guest writes its own payload |
| GuestHeap.Allocator.Relocate | emu/purva/purvarun.h:142-144 | the moved bytes survive the freeing of their old block |
| GuestHeap.Allocator.Realloc | emu/purva/purvarun.h:135-145 | keeps the first min(old, new) bytes, every other payload and every byte outside; stays put, or moves and frees the old block, or frees; grows as Malloc does; fails exactly when the block is too small, nothing fits and fewer than 32768 bytes, or than it needs, are left, and then changes nothing |
| GuestHeap.UnitsExact | emu/purva/purvarun.h:122 | the unit count covers the request without wrapping if and only if it is at most 2^32 - 16 |
| Rv32c.Agree32 | emu/purvs/purvs.c:149-202 | a 32-bit encoding that does not clash does the same in both engines, illegal and trap encodings included |
| Rv32c.Agree16 | emu/purvs/purvs.c:203-288 | every compressed encoding does the same in both engines |
| Rv32c.ClashDiffers | emu/purv.c:211-222 | every clashing encoding differs in some state |
| Rv32c.DecodersAgreeIff | emu/purvs/purvs.c:165-170 | the decoders agree on an encoding in every state if and only if it does not clash |
| PurvMachine.CheckedSplit | emu/purv.c:57-69 | running a then b instructions is running a+b unless a handler stopped the first |
| PurvMachine.CheckedKeeps | emu/purv.c:57-320 | no instruction changes the code, so what was decoded ahead stays right |
| PurvEngine.Purv.RunAct | emu/purv.c:210-311 | the shared action bodies, on registers and memory |
| PurvEngine.Purv.Run | emu/purv.c:57-320 | the safe-window loop never fetches outside the code and equals the machine that checks every fetch |
| PurvsTrace.RunMatches | emu/purvs/purvs.c:558-625 | a traced run does what the interpreter does over the same instructions, omitted jumps counted |
| PurvsTrace.Refines | emu/purvs/purvs.c:534-626 | a decode-ahead batch gives the interpreter's registers, memory, events and count, and its pc unless a handler stopped it |
| PurvsStops.RunStop | emu/purvs/purvs.c:613-622 | a run a handler stopped leaves its own first address, the trap's if and only if it begins with the trap |
| PurvsStops.BatchStop | emu/purvs/purvs.c:552-625 | a stopped batch leaves its last run's first address, the interpreter's if and only if the instruction there is the trap |
| PurvsStops.StopsEarly | emu/purvs/purvs.c:558 | addi then a stopping ecall: 0 in one engine, 4 in the other |
| PurvsTrace.StepAgrees | emu/purvs/purvs.c:337-473 | one record run on its own is one interpreted instruction |
| PurvsSlots.ImmMaskExact | emu/purvs/purvs.c:54-63 | the mask's bits are exactly the ops that carry an immediate slot |
| PurvsSlots.BlockFits | emu/purvs/purvs.c:50-53 | at most 64 records fill at most 128 slots and END the last |
| PurvsSlots.StrideMatches | emu/purvs/purvs.c:54-63 | the decoder's stride is what the handler consumes |
| PurvsSlots.ThreadVisits | emu/purvs/purvs.c:337-473 | the evaluator visits exactly the heads in order and returns at least the record count |
| PurvsSlots.LeanAgrees | emu/purvs/purvs.c:477-501 | the lean step advances, jumps and links exactly as the decoder does |
| PurvsSlots.ResumeSound | emu/purvs/purvs.c:503-530 | after m records the address and count the walk recovers are those of the interpreter in the state the records left |
| PurvsEngine.WindowExact | emu/purvs/purvs.c:545-570 | the fetch test is the per-instruction check, save for code shorter than 4 bytes at address 0 |
| PurvsEngine.Purvs.DecodeRun | emu/purvs/purvs.c:557-594 | loop 1 fills the buffer with the trace's records, counting records and instructions apart |
| PurvsEngine.Purvs.Eval | emu/purvs/purvs.c:337-473 | the threaded loop is the walk over the slots |
| PurvsEngine.Purvs.RunRecord | emu/purvs/purvs.c:370-466 | each handler's effect on registers, memory and the preset address |
| PurvsEngine.Purvs.FixupPc | emu/purvs/purvs.c:503-530 | the re-walk lands on the address the trace had just after its m-th record, with its instruction count |
| PurvsEngine.Purvs.Run | emu/purvs/purvs.c:534-626 | the loop ends with the count, pc and state of the specified batch |
| BulkOps.BulkKeeps | emu/purvmemop.h:67-147 | a bulk instruction that does not name x0 keeps the machine well formed |
| BulkOps.NamingZeroIff | emu/purvmemop.h:97-146 | one that names x0 does so if and only if it copies, fills or its scan comes out as zero |
| BulkOps.NamingZeroBreaks | emu/purvmemop.h:115-121 | strlen into x0 that leaves 1 there |
| BulkOps.CompareResult | emu/purvmemop.h:97-134 | the comparisons leave 0 exactly for equal texts, else the difference of the first bytes that differ, change nothing else, and charge the bytes looked at |
| BulkOps.MemchrResult | emu/purvmemop.h:108-114 | the address of the first of n bytes that matches, or 0 when none does, charged the bytes looked at; nothing else changes |
| BulkOps.StrlenResult | emu/purvmemop.h:115-121 | the bytes before the first terminator, charged one more; nothing else changes |
| BulkOps.StrchrResult | emu/purvmemop.h:135-146 | the address of the first byte of the string that matches, terminator included, or 0, charged the bytes looked at; nothing else changes |
| BulkCopies.CopySimultaneous | emu/purvmemop.h:75-87 | wrapping or not, a copy that goes block-wise or whose direction is right leaves each writable destination byte as the source byte was, and no other byte changed |
| BulkCopies.BytewiseIff | emu/purvmemop.h:79-85 | a bytewise copy is simultaneous on every memory if and only if the ranges start together or length plus distance is at most 2^32 |
| BulkCopies.Smears | emu/purvmemop.h:79-85 | beyond that it smears on every layout that has the three addresses with different bytes |
| BulkCopies.BoundarySmears | emu/purva/purvarun.h:230-231 | a smear on a region around the stack and heap boundary |
| BulkLaws.TailSpans | emu/purvmemop.h:46-65 | the bytes a pointer reaches are those at its address and after, to the end of the writable region if it is there, else of the read-only one, and none on a miss |
| BulkLaws.MemsetLeaves | emu/purvmemop.h:88-96 | block-wise or bytewise, wrapping or not: writable bytes at the n addresses from the destination hold the value's low byte, no other byte changes, no callback is made when all are writable, and a quarter of n is charged |
| BulkLaws.MemcpyLeaves | emu/purvmemop.h:75-87 | the instruction copies from its second operand's address to its first's as CopySimultaneous says, leaves the registers and charges a quarter of n |
| History.Debugger.constructor | emu/gdbstub.c:365-373 | history starts empty over any machine with x0 zero |
| History.Debugger.StepRecord | emu/gdbstub.c:232-243 | steps and pushes the state before, the oldest making room when 65536 are kept |
| History.Debugger.StepReverse | emu/gdbstub.c:245-256 | pops: registers and pc are those of the step before, for every engine; memory is, on a straight run, if and only if the step's report undoes it; at empty nothing changes |
| History.Debugger.Restore | emu/gdbstub.c:250-253 | old bytes are put back last store first, and registers 1 to 31 |
| History.Debugger.Reverse | emu/gdbstub.c:315-323 | reverse-continue lands on the registers and pc that many steps ago, at a breakpoint or history's start, passing no breakpoint over, and on the memory the reports rewind to |
| History.RewindExact | emu/gdbstub.c:245-256 | over j reversals memory comes back step by step if and only if every undone step's report undoes it |
| History.RegistersOnly | emu/gdbstub.c:215-223 | with nothing reported, if and only if no undone step changed memory |
| History.FullReportUndoes | emu/gdbstub.c:215-223 | a complete report that fits its frame undoes its step |
| History.TruthUndoes | emu/gdbstub.c:245-256 | a report of a step's stores in order, each with the bytes it found, undoes the step, overlaps included |
| History.IncompleteIff | emu/gdbstub.c:202-223 | a frame is incomplete exactly when its step reported more than four stores, or one of more than eight bytes |
| History.StoreStays | emu/gdbstub.c:215-223 | an engine whose unreported store survives its reversal |
| AluLaws.AddSub | emu/purv.c:211-223 | addition is exact up to one turn of 2^32 and undoes subtraction |
| AluLaws.Products | emu/purv.c:224-229 | the high and the low product word make up the exact product, signed, unsigned and mixed |
| AluLaws.SignedDivision | emu/purv.c:230-234 | quotient and remainder truncate toward zero; what a zero divisor and the quotient that does not fit give |
| AluLaws.UnsignedDivision | emu/purv.c:232-235 | a = q*b + r with r < b, and what a zero divisor gives |
| AluLaws.Shifts | emu/purv.c:214-219 | a left shift multiplies by 2^k modulo 2^32, right shifts divide rounding down, the arithmetic one its operand read as signed; k is the low five bits |
| AluLaws.Bits | emu/purv.c:218-221 | and, or and xor bit by bit |
| AluLaws.BitsTell | emu/purv.c:218-221 | numbers with the same bits are the same |
| AluLaws.Orders | emu/purv.c:215-216 | the comparisons are the integers' order, unsigned and signed |
| AluLaws.Branches | emu/purv.c:273-284 | the branch conditions are equality, the two orders and their negations |
| MemoryLaws.LoadResult | emu/purv.c:239-259 | a load extends the little-endian number its bytes make, of the writable region, else the read-only one, else the callback's answer; nothing else changes, and into x0 nothing at all |
| MemoryLaws.StoreResult | emu/purv.c:260-272 | a store leaves the low bytes of its value and touches no other byte, or is one callback with address and whole value |
| MemoryLaws.RelativeIs | emu/purv.c:38-44 | a region's address plus the offset is the address, modulo 2^32 |
| MemoryLaws.IndirectTarget | emu/purv.c:288-289 | an indirect jump goes to the even address at or just below the sum |
| Encodings.DecodeBack | emu/purva/transcode.c:60-116 | for all registers, immediates and offsets in range, what the transcoder decodes from the word put together from the manual's bit positions is the instruction |
| Encodings.DecodeFits | emu/purva/transcode.c:60-116 | whatever the word, the fields decoded are in range and targets are even and within reach |
| Encodings.DecodeMeans | emu/purva/transcode.c:60-116 | every word means to the transcoder's decoder what it means to the decode-ahead engine's |
| Compressed.ShortDecodes | emu/purv.c:125-208 | for all operands in range the decoder takes every compressed encoding, put together from the manual's bit positions, to its action and operands |
| Compressed.ShortMeans | emu/purv.c:125-208 | and it does what the instruction it stands for does |
| Compressed.AcceptedIff | emu/purv.c:125-208 | a halfword is accepted if and only if it is the encoding of a compressed instruction; shift amounts of 32 and more, which RV32 reserves, are among those and count modulo 32 |
| Programs.StepOnLine | emu/purv.c:69-124 | where an instruction's bytes lie, least significant first, one checked step does what the instruction does, 32-bit or compressed |
| Programs.FetchesLong | emu/purva/transcode.c:60-61 | and the transcoder reads the instruction there |
| Programs.RunsListing | emu/purv.c:57-320 | the interpreter runs an assembled program as it is written, for any number of instructions, and goes on where it leaves it |
| Programs.AheadRunsListing | emu/purvs/purvs.c:534-626 | the decode-ahead engine runs a program that stays in its listing as it is written, too |
| EnginesAgree.StepAlike | emu/purva/transcode.c:60-116 | a source step without link or indirect jump is the interpreter's step at the true address |
| EnginesAgree.CallAlike | emu/purva/purva.c:246-249 | a call differs in its link alone |
| EnginesAgree.RunsAlike | emu/purv.c:57-320 | on code without links and indirect jumps the interpreter, on the bytes, and the source machine run alike |
| EnginesAgree.HookServes | emu/sqlite/host.c:190-198 | an illegal hook that takes the bulk instruction apart by its fields serves it as the transcoded op does |
| EnginesAgree.ThreeEngines | emu/purvmemop.h:24-27 | one such program on all three engines: after any number of ops the transcoded one has the registers, memory and host state of the interpreter after at least as many instructions, and the decode-ahead engine the same |
| Division.ShiftFits | emu/sqlite/builtins.c:20 | the remainder's shift never loses a bit, even for divisors above 2^63 |
| Division.Udivmod | emu/sqlite/builtins.c:17-25 | n = q*d + r with r < d for every 64-bit n and nonzero d, and what a zero divisor gives |
| Division.Udivdi3 | emu/sqlite/builtins.c:26 | the unsigned quotient |
| Division.Umoddi3 | emu/sqlite/builtins.c:27 | the unsigned remainder |
| Division.Divdi3 | emu/sqlite/builtins.c:28-32 | the quotient truncates toward zero if and only if it is representable |
| Division.Moddi3 | emu/sqlite/builtins.c:33-37 | the remainder of truncating division for every nonzero divisor |
| Division.TruncatesOnce | emu/sqlite/builtins.c:28-37 | truncating quotient and remainder are unique |

## Left out

- FrameOps.PrologueAgrees: asks that saves out of slot order hit the writable region, which is exactly what it needs (FrameNeeds.SavesAgreeIff).
- FrameOps.EpilogueAgrees: asks that restores out of slot order cannot be told apart, which is exactly what it needs (FrameNeeds.RestoresAgreeIff).
- WholeRuns.Preserves: assumes at every unit reached the exact conditions under which its op is right (the two above, and an even slot at a virtual call), and a run that never leaves the program.
- Renumbering.KnownJumpsAreSafe: asks of indirect jumps, as far as the run gets, that they go to places the transcoder was told of; no static analysis of register values is modelled.
- Linking.PatchAllIs: takes relocation sites that are not dropped no-ops or shift immediates, which a linker never relocates.
- Linking.ApplyFixups: computes distances in unbounded integers, where the tool's 32-bit subtraction is signed.
- Images.BuildImage: takes the relocations as lists; it assumes one for every auipc that step leaves as an auipc, since without one the op is wrong wherever it drifted (SingleSimulation.BareAuipcIff).
- DataPointers.PatchRela: compares site and buffer length in unbounded integers.
- PurvsEngine.Purvs.Run: runs the default evaluator only, which always completes a run; the early return of a pluggable one is covered by FixupPc and ResumeSound. It takes code of at least four bytes, the condition of PurvsEngine.WindowExact.
- PurvsTrace.Refines: excludes runs that reach a clashing encoding, on which the engines differ.
- History.Debugger: assumes the history buffer was allocated.
- GuestHeap.Allocator.Malloc: takes requests up to 2^32 - 16, beyond which the unit count wraps (GuestHeap.UnitsExact).
- GuestHeap.Allocator.Realloc: takes requests up to 2^32 - 16, as Malloc does.
- EnginesAgree.ThreeEngines: takes programs without links and indirect jumps, because renumbered addresses differ from true ones as values; hosts whose handlers ignore the word they are told and whose illegal hook serves the bulk instruction; and bulk instructions that do not name x0.
- Memory callbacks see and may change host state and guest memory but not the registers.
- Trap handlers see the machine and, in purva, the renumbered pc, in the other engines the raw instruction; the purva handlers' view of the packed word and the other handlers' view of the pc are not modelled. Handlers keep the regions' sizes, the code and x0.
- ELF and image parsing, the collection of relocations from sections, section merging and sorting, argument handling, syscalls, sockets and the debugger's packets.
- The hostcall dispatcher around the allocator: calls to other functions of the host are part of its state.
- The map and words of instructions narrower than 4 bytes: transcoded code has none.
- Profiling counters, computed-goto dispatch and compiler attributes.
