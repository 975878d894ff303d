# SiliFuzz: program editor, snapshot memory and result queue

A Dafny model of three parts of SiliFuzz, with proofs about whole operations, whole runs and
all inputs.  `dafny verify dfyconfig.toml` checks everything.

**The program editor of the fuzzer.**  A program is a list of variable-length instructions.  A
direct branch has a symbolic target, the number of an instruction boundary, and a byte
displacement in its encoding.  Edits move symbolic targets; `FixupEncodedDisplacements` then
re-encodes branches, pass after pass, until no size changes.
`Instructions` holds the data types and, in `Lawful`, everything the editor relies on from an
architecture; `ProgramLayout`, `Encodings` and `FixupPasses` hold the reasoning about one list,
one branch and one pass, and `FixupTargets` about which targets a whole fixup can lose; `ProgramEdits` and `ProgramDecoding` are the edits, decoding and
printing on values; `Programs` is the class that performs them in place.  `MutationOps`,
`Mutators` and `BatchMutators` are the mutators, alone, in any sequence and up to the final
output.  `AArch64` (on `BitMatchers`, `StaticInsnFilter`, `TwosComplement`, `BranchFields` and
`AArch64Branches`, with 32-bit words as bit-vectors) and `X86_64` are proved to be lawful
architectures.  `FilteredClasses` names the fields and classes of AArch64 instructions;
`FilterTables` proves that the tables of the static filter reject just these classes,
`FilterWords` does so for words built from operands, and `BranchEncodings` reads direct branches
off the same fields.  `Arithmetic` and `Wrappers` are small helpers.

**The memory of snapshots.**  `RangeMaps` defines the list of maximal ranges of a pointwise map
and shows that there is only one such list; the range maps of the source are modelled as
pointwise maps that are iterated this way.  `MappedMemoryMaps` is the permission map;
`MemoryStates` the state of memory with its mutators and deltas, on top of `MappingCommands`
(commands and targets), `DeltaMappings` and `DeltaBytes`; `MemoryRuns` lets the mutators run in
any order.  `NormalForms` and `Normalization` are the normaliser of byte lists, and `Snapshots`
the building of mappings, negative mappings and bytes.

**The orchestrator's result queue.**  `ResultCollectors` counts results and decides when to
stop; `ExecutionContexts` has the queue as a class and all threads together as a state machine
over atomic steps.

## Assumptions

- The random number generator is an arbitrary stream.  Two inner loops and the final program
  need it to be fair: from every point on, every index of every range comes up again (`Fair`;
  such streams exist, `MutatorRngs.SweepingIsFair`).  Every random index and every random buffer
  takes one element of the stream.
- The disassembler that accepts AArch64 encodings is an arbitrary predicate.  The x86-64
  decoder and encoder are described by a contract (`X86_64.Sound`): decoding looks at one
  instruction only, encoding keeps the width of a displacement, truncates to it, and gives a
  canonical form whose size does not change again.  `X86_64.ShortJumpsSound` is an instance.
- A final output exists only if some instruction can be generated at all (`CanGenerate`); for
  AArch64 it is enough that a branch to itself disassembles.

## Where code and documentation differ

- `common/memory_state.h:220-232` promises that the mapping delta of a snapshot has the same effect
  as setting its mappings, and callers bring the state up to date with `SetInitialState`
  (`common/memory_state.cc:410-412`).  With negative mappings both agree exactly when every range
  of forbidden permissions has uniform permissions in mapped memory: over a merged range the delta
  keeps only what is common (`DeltaMappings.DeltaIsInitial`, with a counterexample in
  `DeltaMappings.MergedRangeLosesPermissions`, on a snapshot that `Snapshots.RecordTwoWriteFaults`
  builds).  What holds always is `DeltaMappings.DeltaEffect`.
- `instruction/static_insn_filter.cc:198-200` says that atomics with `o3` 1, `A` 0 and `opc` 110 are
  rejected; the mask and bits below it reject `opc` 100 (110 is rejected by the entry before).  The
  model follows the bits (`FilteredClasses.UnallocatedAtomic`).

## Exact conditions

- Removing an instruction and inserting it again restores a program exactly when no other branch
  targets one boundary, which is the victim's own or the next, depending on the mode
  (`ProgramEdits.InsertionUndoesRemoval`).  The other order always restores it.

## Model

| member | source | states |
|---|---|---|
| ProgramLayout.RelaidIsLaidOut | fuzzer/program.cc:66-74 | Recomputing offsets lays instructions end to end and keeps the total size. |
| ProgramLayout.LayoutIsUnique | fuzzer/program.cc:66-74 | The offsets are determined by the encodings: two laid out programs with the same instructions are equal. |
| ProgramLayout.BoundaryOffsetExact | fuzzer/program.cc:92-104 | In a laid out program the offset of a boundary, the last one included, is the sum of the sizes before it. |
| ProgramLayout.CanonicalCountGrows | fuzzer/program.cc:196-199 | Re-encoding never loses a canonical instruction, and gains one whenever some size changes: the measure of the fixup. |
| Encodings.FirstAttempt | fuzzer/program.cc:206-208 | The first attempt keeps the boundary, and succeeds exactly when the requested distance fits. |
| Encodings.NextAttempt | fuzzer/program.cc:208-214 | Every further attempt, at another boundary, leaves a canonical branch; one that succeeds never returned to an impossible boundary. |
| FixupPasses.PassStep | fuzzer/program.cc:202-218 | Visiting one instruction keeps what is known of a pass: packed offsets, well formed branches, and what the two flags mean. |
| FixupPasses.PassEnd | fuzzer/program.cc:200-224 | After a pass the program is laid out; a stable pass leaves every displacement exact, and an unstable one made some instruction canonical. |
| FixupPasses.StablePassIsExact | fuzzer/program.cc:202-223 | When no offset and not the total size moved, no size changed and every branch covers exactly the distance to its target. |
| FixupPasses.FirstPassSuffices | fuzzer/program.cc:187-228 | When the first pass is stable the fixup is done, and reports a modification exactly when the input was not exact. |
| FixupPasses.LaterPass | fuzzer/program.cc:196-225 | A later pass either finishes the fixup or again makes some instruction canonical. |
| FixupPasses.PassAdvances | fuzzer/program.cc:200-218 | The visits of a pass go over the instructions in order, each at the place where those before it end. |
| FixupPasses.AnotherPass | fuzzer/program.cc:196-228 | A further pass extends the run of passes; the fixup is done when one is stable, and its result is then reached by at most one pass more than there are instructions. |
| FixupTargets.LostOnlyOutOfReach | fuzzer/program.cc:203-216 | Whether encodings change size or not, the fixup changes the target of a branch only if, in some pass, when the branch was visited with its original target, the distance to that target did not encode. |
| FixupTargets.FarReachingKeepsTarget | fuzzer/program.cc:203-216 | A branch that can encode every distance within so many largest instructions keeps its target. |
| Programs.Program.FixupInvariants | fuzzer/program.cc:66-74 | The in-place loop computes the unique layout and the total size. |
| Programs.Program.SyncByteDisplacement | fuzzer/program.cc:156-173 | The recorded displacement becomes the distance to the boundary; the answer says whether it changed. |
| Programs.Program.RetryElsewhere | fuzzer/program.cc:211-213 | One retry moves the branch to the boundary drawn; drawing the branch's own boundary always succeeds. |
| Programs.Program.ReencodeUntilEncodable | fuzzer/program.cc:206-216 | The retry loop ends under a fair generator, changes one instruction only, tries its own target first and keeps it if that fits; otherwise the target is the last boundary drawn. |
| Programs.Program.FixupInstruction | fuzzer/program.cc:203-216 | What the visit of one instruction leaves, and when it reports a change. |
| Programs.Program.FixupPass | fuzzer/program.cc:200-223 | One pass over all instructions: the visits in order, and the meaning of both flags. |
| Programs.Program.FixupEncodedDisplacements | fuzzer/program.cc:180-229 | Terminates after at most one pass more than there are instructions, and only re-encodes: passes of visits in order lead to the result, every branch is its original re-encoded for some distances, the last of which it records; leaves exact offsets, sizes and displacements, and reports a modification exactly when some displacement was not exact. |
| Programs.Program.SetInstructionBlock | fuzzer/program.cc:275-295 | Overwrites a run of instructions, keeps the total size right and marks the encodings as out of date. |
| Programs.Program.SetInstruction | fuzzer/program.h:243-246 | Overwrites one instruction. |
| Programs.Program.AdjustInstructionIndexes | fuzzer/program.cc:297-311 | Moves exactly the boundaries from a given one on. |
| Programs.Program.InsertInstructionBlock | fuzzer/program.cc:313-343 | Inserts a block as it is, in one of two modes, and lays the program out again; a block that fits the longer program keeps all branches consistent. |
| Programs.Program.InsertInstruction | fuzzer/program.h:264-281 | The same for one instruction. |
| Programs.Program.RemoveInstruction | fuzzer/program.cc:345-363 | Removes an instruction and lays the program out again; branches stay consistent. |
| Programs.Program.DecodeInstructions | fuzzer/program.cc:242-263 | The decoding loop gives what reading the bytes position by position gives; a strict one skips nothing. |
| Programs.Program.FromBytes | fuzzer/program.cc:236-273 | The program built from any bytes is consistent; with the filter it only holds acceptable instructions; targets are resolved before gaps are closed. |
| Programs.Program.FindClosestInstructionBoundary | fuzzer/program.cc:76-90 | The loop finds the nearest boundary. |
| Programs.Program.ResolveDisplacements | fuzzer/program.cc:106-121 | Every branch without a boundary gets the nearest one; in strict mode its check never fails on bytes whose branches land. |
| Programs.Program.ToBytes | fuzzer/program.cc:365-374 | Prints all encodings in order; the offset checks never fail on a program that was fixed up. |
| Programs.Program.Empty | fuzzer/program.cc:231-234 | The empty program is consistent and printable. |
| Programs.RandomizeInstructionDisplacementBoundaries | fuzzer/program.cc:141-149 | Only a branch draws, and gets an arbitrary boundary in range. |
| ProgramEdits.InsertionKeepsTargets | fuzzer/program.h:264-292 | After an insertion every old branch targets the same instruction or the program end, except that a stealing block takes over the branches to its boundary. |
| ProgramEdits.RemovalKeepsTargets | fuzzer/program.cc:345-363 | After a removal only branches to the victim move, to its successor. |
| ProgramEdits.RemovalUndoesInsertion | fuzzer/program.cc:297-363 | Inserting one instruction and removing it restores the program, in both modes. |
| ProgramEdits.EditorRestores | fuzzer/program.cc:313-363 | The same for the editor, which lays the program out after each edit. |
| ProgramEdits.InsertionUndoesRemoval | fuzzer/program.cc:313-363 | The other order restores the program if and only if no other branch targets the boundary that was merged away. |
| ProgramEdits.InsertionWellFormed | fuzzer/program.cc:44-64 | Insertion keeps every branch in range and every non-branch without a boundary. |
| ProgramEdits.RemovalWellFormed | fuzzer/program.cc:44-64 | Removal keeps this too. |
| ProgramEdits.OverwritingWellFormed | fuzzer/program.cc:44-64 | Overwriting keeps this too. |
| ProgramEdits.SizeOfInsertion | fuzzer/program.cc:329-334 | The size grows by that of the block. |
| ProgramEdits.SizeOfRemoval | fuzzer/program.cc:354-356 | The size shrinks by that of the victim. |
| ProgramDecoding.FullDecode | fuzzer/program.cc:242-263 | When every instruction is accepted, their encodings are the input and their offsets are packed. |
| ProgramDecoding.DecodesAccepted | fuzzer/program.cc:241-263 | Decoding visits position 0, after every position the end of what decoded there, or of the smallest instruction if nothing did, up to the end of the bytes; it gives exactly the instructions accepted at these positions, in order, each with its position as offset. |
| ProgramDecoding.PositionsUnique | fuzzer/program.cc:241-263 | There is only one such list of positions. |
| ProgramDecoding.ClosestBoundaryIsClosest | fuzzer/program.cc:76-90 | A boundary is the chosen one if and only if it is nearest and no lower one is equally near. |
| ProgramDecoding.ResolvedIsExact | fuzzer/program.cc:106-121 | Without gaps and with every branch landing on a boundary, the resolved targets make all displacements exact. |
| ProgramDecoding.DecodedProgram | fuzzer/program.cc:236-273 | Whatever the bytes, the built program is consistent and holds only what the filter accepts. |
| ProgramDecoding.StrictDecodeIsExact | fuzzer/program.cc:236-273 | A strictly built program is exact and prints as its input. |
| MutatorRngs.MutatorRng.RandomIndex | fuzzer/program.cc:123-126 | An arbitrary index below the size. |
| MutatorRngs.SweepingIsFair | fuzzer/program.cc:123-126 | There is a stream from which every index of every range comes up again and again, so fairness can be assumed. |
| RandomBuffers.EventuallyGenerates | fuzzer/program_mutation_ops.cc:204-216 | A fair generator comes up with an acceptable instruction from every point on. |
| MutationOps.GenerateSingleInstruction | fuzzer/program_mutation_ops.cc:204-216 | Gives what the first of up to 64 buffers that starts with an acceptable instruction starts with, or has seen 64 buffers without one. |
| MutationOps.MutateSingleInstruction | fuzzer/program_mutation_ops.cc:155-195 | Gives the result of the first of up to 64 attempts that succeeds, an acceptable instruction one to three bit flips away from the original bytes; or all 64 attempts have failed. |
| MutationOps.TryMutation | fuzzer/program_mutation_ops.cc:165-192 | One attempt gives what is accepted after the first of up to three drawn flips that leads to something acceptable, and fails if none of the three does. |
| MutationOps.FlipsOneBit | fuzzer/program_mutation_ops.cc:223-225 | Flipping changes just one bit of one byte. |
| MutationOps.FlipsToggle | fuzzer/program_mutation_ops.cc:223-225 | After any flips a bit has changed if and only if it was flipped an odd number of times. |
| MutationOps.CopyOrRandomizeInstructionDisplacementBoundaries | fuzzer/program_mutation_ops.cc:71-91 | A mutated branch keeps its boundary when its displacement is untouched, and otherwise has the one drawn. |
| MutationOps.ShiftOrRandomizeInstructionDisplacementBoundaries | fuzzer/program_mutation_ops.cc:93-104 | A copied branch keeps its relative target when that is in range, and otherwise has the boundary drawn. |
| MutationOps.ShiftOrRandomizeBlock | fuzzer/program_mutation_ops.h:64-72 | The same for every instruction of a block. |
| MutationOps.BlockWellFormed | fuzzer/program_mutation_ops.h:64-72 | A shifted copy of part of a program fits the program it is copied to, and stays acceptable. |
| Mutators.InsertGeneratedInstruction | fuzzer/program_mutation_ops.h:75-98 | Inserts the instruction of the first draw that generates one, where the following draws say, or changes nothing, having seen only draws that generate none. |
| Mutators.MutateInstruction | fuzzer/program_mutation_ops.h:101-128 | Replaces the instruction drawn by a near mutation, with its boundary if its displacement is untouched, or changes nothing. |
| Mutators.DeleteInstruction | fuzzer/program_mutation_ops.h:131-152 | Removes the instruction drawn, exactly when more than the minimum are left. |
| Mutators.SwapInstructions | fuzzer/program_mutation_ops.h:154-185 | Swaps the instruction drawn first and the next other one drawn, boundaries included; drawing them ends under a fair generator. |
| Mutators.CrossoverInsert | fuzzer/program_mutation_ops.h:189-223 | Inserts a shifted copy of the drawn run of the other program at the place drawn, also when both are the same object. |
| Mutators.CrossoverOverwrite | fuzzer/program_mutation_ops.h:227-265 | Overwrites at most half of the program, or one instruction, at the place drawn by a shifted copy of the drawn run of the other. |
| BatchMutators.ApplyMutation | fuzzer/program_mutation_ops.h:75-265 | Every mutator has its effect or changes nothing, and keeps the program consistent and its instructions acceptable. |
| BatchMutators.RunMutations | fuzzer/program_batch_mutator.cc:84-100 | So does every finite sequence of mutators, of which every step is nothing or the effect of its mutator. |
| BatchMutators.AddInstructionIfZeroLength | fuzzer/program_batch_mutator.cc:34-40 | Ends under a fair generator with a program that is not empty, and leaves other programs alone. |
| BatchMutators.LimitProgramLength | fuzzer/program_mutation_ops.cc:231-243 | Removes instructions, one after the other, until the program is short enough; its check never fails; something is left if the limit admits any instruction. |
| BatchMutators.FinalizeProgram | fuzzer/program_batch_mutator.cc:42-61 | Ends, with a printable program within the limit, not empty if the limit admits any instruction, that comes from the given one by fixups and by removals while it is too long; a program that is short and exact already is only laid out. |
| BatchMutators.GenerateSingleOutput | fuzzer/program_batch_mutator.cc:104-117 | The output is within the limit and prints what finalising makes of the last program of a run of the mutations, with exact branches and acceptable instructions. |
| BatchMutators.StrictRoundTrip | fuzzer/program.cc:180-374 | Building strictly, fixing up and printing gives the same bytes, and the fixup reports no modification. |
| BranchFields.ReadBack26 | fuzzer/program_aarch64.cc:97-116 | Reading a rewritten 26-bit field gives a well scaled word, and the requested one if that is well scaled. |
| BranchFields.ReadBack19 | fuzzer/program_aarch64.cc:97-116 | The same for a 19-bit field. |
| BranchFields.ReadBack14 | fuzzer/program_aarch64.cc:97-116 | The same for a 14-bit field. |
| BranchFields.RewriteExamples | fuzzer/program_aarch64.cc:118-121 | The two compile-time examples of the source. |
| BranchEncodings.Immediate26 | fuzzer/program_aarch64.cc:97-106 | The displacement of B and BL is their 26-bit immediate, scaled by four and sign-extended. |
| BranchEncodings.Immediate19 | fuzzer/program_aarch64.cc:97-106 | The same for the 19-bit immediate of conditional and compare branches. |
| BranchEncodings.Immediate14 | fuzzer/program_aarch64.cc:97-106 | The same for the 14-bit immediate of test branches. |
| BranchEncodings.BranchesByFields | fuzzer/program_aarch64.cc:42-95 | Which words are direct branches, by their fields, and how wide their immediates are. |
| TwosComplement.HalveTruncated | fuzzer/program_aarch64.cc:108-116 | The bits of a narrowed number are the binary digits of the number. |
| TwosComplement.TruncationExact | fuzzer/program_aarch64.cc:108-116 | Narrowing a number loses nothing exactly on the signed range of the narrower type. |
| AArch64Branches.FindBranch | fuzzer/program_aarch64.cc:123-138 | The loop over the table finds the first class that matches. |
| AArch64Branches.ClassesExclusive | fuzzer/program_aarch64.cc:42-95 | No word matches two branch classes. |
| AArch64Branches.ReencodeExact | fuzzer/program_aarch64.cc:191-210 | Re-encoding a branch of field width w succeeds if and only if the displacement is a multiple of four between -2^(w+1) and 2^(w+1). |
| AArch64Branches.EncodedIsEncodable | fuzzer/program_aarch64.cc:97-106 | Whatever a branch word encodes can be encoded again. |
| AArch64Branches.ReencodeKeepsClass | fuzzer/program_aarch64.cc:108-116 | Bits outside the displacement field are unchanged, and the word stays in its class. |
| AArch64Branches.DisplacementDetermines | fuzzer/program_aarch64.cc:97-116 | Two words of a class with the same bits outside the field and the same displacement are equal. |
| AArch64Branches.BranchesPassFilter | instruction/static_insn_filter.cc:655-696 | Every word of a direct-branch class passes the filter, whatever its displacement and the configuration, over all tables. |
| StaticInsnFilter.UnfilteredIsOK | instruction/static_insn_filter.cc:655-696 | A word of a class that conflicts with every pattern of the filter passes. |
| FilterTables.FilterByFields | instruction/static_insn_filter.cc:46-696 | A word passes if and only if it is in none of the classes that are to be rejected (store exclusive, pointer authentication, waiting, unallocated, first-fault and non-fault loads, fields without their required value, system instructions, moves of other than five registers) and in none that the configuration takes away. |
| FilterTables.DefaultFilter | instruction/static_insn_filter.h:29-35 | The default configuration takes nothing away. |
| FilterWords.HintFilter | instruction/static_insn_filter.cc:97-146 | Of the hints, for all CRm and op2, those of pointer authentication, WFE and WFI are rejected, and only those. |
| FilterWords.WaitWithTimeoutRejected | instruction/static_insn_filter.cc:147-155 | WFET and WFIT are rejected, whatever their operands. |
| FilterWords.SystemFilter | instruction/static_insn_filter.cc:516-691 | A system register is moved, for all operands, if and only if it is NZCV, FPCR, FPSR, TPIDR_EL0 or TPIDRRO_EL0; system instructions are rejected. |
| FilterWords.ExclusiveFilter | instruction/static_insn_filter.cc:54-67 | Exclusive stores are rejected; exclusive loads pass if loads and stores are allowed. |
| FilterWords.CompareAndSwapFilter | instruction/static_insn_filter.cc:386-401 | Compare and swap passes if and only if Rt2 is 31 and loads and stores are allowed. |
| FilterWords.BranchToRegisterFilter | instruction/static_insn_filter.cc:81-96 | Branches to registers with pointer authentication are rejected, the others pass if indirect branches are allowed. |
| FilterWords.OneSourceFilter | instruction/static_insn_filter.cc:402-436 | Data processing with one source passes if and only if S, the upper part of opcode2 and the demanded parts of opcode are zero and it does not authenticate. |
| FilterWords.UndefinedRejected | instruction/static_insn_filter.cc:156-165 | UDF is rejected, whatever its immediate. |
| AArch64.FilterCode | instruction/static_insn_filter.cc:698-712 | Code passes the filter exactly when it consists of whole words that all pass. |
| AArch64.FilterConcatenation | instruction/static_insn_filter.cc:698-712 | Passing code can be put together. |
| AArch64.AcceptableWords | instruction/static_insn_filter.cc:698-712 | Code is acceptable if and only if it consists of whole words in no class that is to be rejected. |
| AArch64.ReencodedBranch | fuzzer/program_aarch64.cc:191-210 | On bytes, the re-encoded word is a branch of the same class that decodes to the requested displacement exactly when that fits. |
| AArch64.AArch64Lawful | fuzzer/program_aarch64.cc:146-210 | AArch64 meets everything the editor requires, whatever the disassembler accepts. |
| AArch64.WordValue | fuzzer/program_aarch64.cc:170-172 | The word of four bytes is little-endian. |
| AArch64.DecodedWords | fuzzer/program_aarch64.cc:147-189 | Whatever comes before it, the word at an offset becomes an instruction if and only if the offset is a multiple of four, the word is within the bytes, disassembles if that is asked for, and passes the filter if there is one; it is a branch if its displacement is below the limit. |
| AArch64.DecodedByDefault | fuzzer/program.cc:242-263 | By default: if and only if it disassembles and is in no class that is to be rejected. |
| AArch64.TryToReencodeInstructionDisplacements | fuzzer/program_aarch64.cc:191-210 | The rewriting of the buffer in place. |
| AArch64.FixupKeepsReachableTargets | fuzzer/program.cc:180-229 | On AArch64 the fixup keeps the target of a branch if and only if the distance fits its field. |
| AArch64.FixupRewritesFields | fuzzer/program.cc:180-229 | The fixup rewrites nothing but displacement fields: every branch keeps its class and all other bits, and is its original word re-encoded for the distance to its target; all other instructions keep their bytes. |
| AArch64.SelfBranchCanBeGenerated | fuzzer/program_mutation_ops.cc:204-216 | If a branch to itself disassembles, generating instructions is possible. |
| AArch64.MutateInputs | fuzzer/program_batch_mutator.cc:119-140 | Whatever two inputs are mutated, and how, the output is within the limit and consists of whole words, none of them in a class that is to be rejected. |
| X86_64.TruncatedFits | fuzzer/program_x86_64.cc:177-184 | Truncation leaves a displacement unchanged exactly when it fits. |
| X86_64.InstructionBuffer.TryToReencodeInstructionDisplacements | fuzzer/program_x86_64.cc:146-188 | Re-encodes once, or twice if the size changed; the check that the size is final then never fails. |
| X86_64.ReencodeExact | fuzzer/program_x86_64.cc:153-188 | The result is canonical and of final size; it has the requested displacement exactly when that fits, counted from the end of the canonical instruction. |
| X86_64.X86Lawful | fuzzer/program_x86_64.cc:106-188 | x86-64 meets everything the editor requires, given the contract of the encoder. |
| X86_64.ShortJumpsSound | fuzzer/program_x86_64.cc:55-99 | The contract of the encoder can be met: short jumps with and without a redundant prefix meet it. |
| X86_64.PrefixedJumpToItself | fuzzer/program_x86_64.cc:153-169 | A prefixed short jump to itself is canonicalised, and re-encoded a second time for its final size. |
| X86_64.FixupKeepsReachableTargets | fuzzer/program.cc:180-229 | Once all branches are canonical, the fixup keeps exactly the targets whose distance fits. |
| X86_64.FixupKeepsWidth | fuzzer/program.cc:180-229 | Canonical or not, branches keep the width of their displacements, and all other instructions their bytes. |
| X86_64.WideBranchKeepsTarget | fuzzer/program.cc:203-216 | Canonical or not, a branch whose width is enough for the whole program keeps its target. |
| X86_64.DecodedInstructions | fuzzer/program_x86_64.cc:107-145 | Decoding goes on after every instruction, accepted or not, and after one byte where nothing decodes; it gives exactly the instructions that decode and, with the filter, are allowed. |
| RangeMaps.RunsAreIteration | util/range_map.h:877-903 | The computed ranges are sorted, disjoint, maximal and hold exactly the map. |
| RangeMaps.IterationIsUnique | util/range_map.h:877-903 | There is only one such list of ranges. |
| RangeMaps.FindOverlaps | util/range_map.h:443-494 | Looking up a range finds exactly the stored ranges that overlap it. |
| MappedMemoryMaps.RemoveThenAdd | common/mapped_memory_map.cc:51-56 | Removing everything and adding permissions sets them. |
| MappedMemoryMaps.JoinOverIsJoin | common/memory_perms.h:101-103 | The joined permissions are exactly those that all, or some, addresses of the range have. |
| MappedMemoryMaps.MappedMemoryMap.AddNew | common/mapped_memory_map.cc:45-49 | Where nothing overlaps, adding is setting. |
| MappedMemoryMaps.MappedMemoryMap.Set | common/mapped_memory_map.cc:51-56 | Sets the permissions of a range and of nothing else. |
| MappedMemoryMaps.MappedMemoryMap.Remove | common/mapped_memory_map.cc:58-61 | Takes permissions away; an entry goes when nothing of it remains. |
| MappedMemoryMaps.MappedMemoryMap.RemoveRangesOf | common/mapped_memory_map.cc:63-75 | The loop over ranges that change while it runs removes exactly the addresses of the other map, and ends. |
| MappedMemoryMaps.MappedMemoryMap.Perms | common/mapped_memory_map.cc:125-141 | The walk over overlapping ranges joins the permissions of all addresses, missing ones counting as none. |
| MappedMemoryMaps.MappedMemoryMap.Overlaps | common/mapped_memory_map.cc:119-123 | Tells whether some address of the range has an entry. |
| MappedMemoryMaps.MappedMemoryMap.ContainsAll | common/mapped_memory_map.cc:113-117 | Tells whether all addresses of the range have one. |
| MappedMemoryMaps.MappedMemoryMap.MappingAt | common/mapped_memory_map.cc:102-111 | The maximal range of equal permissions around an address. |
| MappingCommands.MentionedIfChanged | common/memory_state.h:220-227 | A list of commands mentions an address exactly when its permissions change. |
| MappingCommands.AchievesEffect | common/memory_state.h:220-232 | Disjoint commands for some targets can be executed one after the other, mapping only unmapped and protecting only mapped memory, and reach exactly the targets. |
| MappingCommands.AchievesBoth | common/memory_state.cc:280-288 | Commands for separate targets can be put together. |
| DeltaMappings.DifferenceAchieves | common/memory_state.cc:257-277 | The commands made from a difference set the mapping: a full difference means unmapped, any other means mapped. |
| DeltaMappings.ReprotectAchieves | common/memory_state.cc:300-322 | The commands made from ranges of forbidden permissions take them away, and change each of their addresses. |
| DeltaMappings.DeltaEffect | common/memory_state.cc:280-326 | After the delta the snapshot's memory is as asked; elsewhere nothing is unmapped, gains a permission or keeps a forbidden one, and memory without forbidden permissions is untouched. |
| DeltaMappings.DeltaIsInitial | common/memory_state.cc:165-202 | The delta leaves mapped memory as setting the initial state does if and only if each range of forbidden permissions is uniform in mapped memory. |
| DeltaMappings.MergedRangeLosesPermissions | common/memory_state.cc:313-322 | Two pages, one writable and one also executable, and a snapshot that forbids writing both: the delta takes executing away from the second, setting the initial state does not. |
| DeltaMappings.CommonIsUniform | common/memory_state.cc:315-316 | The common permissions of a range are those of each address exactly when the range is uniform. |
| DeltaMappings.ExactUnmapEffect | common/memory_state.cc:346-351 | Unmapping the rest leaves exactly the snapshot's memory. |
| DeltaMappings.ExactProtectEffect | common/memory_state.cc:352-359 | Protecting the rest leaves it mapped without permissions. |
| MemoryStates.InitialMappedSteps | common/memory_state.cc:165-191 | Setting the mappings and then taking forbidden permissions away gives the initial permissions. |
| MemoryStates.MemoryState.AddNewMemoryMapping | common/memory_state.cc:97-103 | Maps new memory. |
| MemoryStates.MemoryState.SetMemoryMapping | common/memory_state.cc:105-108 | Sets the permissions of a range. |
| MemoryStates.MemoryState.SetMemoryMappingEmptyPermsOk | common/memory_state.cc:110-115 | The same, also with no permissions. |
| MemoryStates.MemoryState.RemoveMemoryMapping | common/memory_state.cc:117-122 | Forgets a range in all three fields. |
| MemoryStates.MemoryState.RemoveMemoryMappingsNotIn | common/memory_state.cc:124-131 | Forgets everything outside the snapshot. |
| MemoryStates.MemoryState.ClearMemoryMappingsPermsNotIn | common/memory_state.cc:133-140 | Takes all permissions outside the snapshot away; that memory stays mapped. |
| MemoryStates.MemoryState.SetMemoryBytes | common/memory_state.cc:142-148 | Writes bytes. |
| MemoryStates.MemoryState.SetMemoryBytesList | common/memory_state.h:150-156 | Writes chunks in order. |
| MemoryStates.MemoryState.ForgetMemoryBytes | common/memory_state.cc:150-153 | Forgets values, which still count as written. |
| MemoryStates.MemoryState.ZeroMappedMemoryBytes | common/memory_state.cc:159-163 | Writes zeros over a mapping. |
| MemoryStates.MemoryState.SetInitialState | common/memory_state.cc:165-202 | The permissions, the written set and the bytes after bringing a snapshot in, for every prior state; with zeroing, new memory outside its bytes is known to be 0. |
| MemoryStates.InitialByteAt | common/memory_state.cc:192-201 | Every byte of the snapshot is known, every other byte of new memory is known to be 0 if zeroing is asked for, and no other byte changes. |
| MemoryStates.MemoryState.DeltaMemoryMapping | common/memory_state.cc:248-278 | Commands that set a mapping with added permissions, and mention an address exactly when that changes it. |
| MemoryStates.MemoryState.DeltaMemoryMappings | common/memory_state.cc:280-326 | The same for a snapshot, with its negative mappings. |
| MemoryStates.MemoryState.DeltaMemoryMappingsExact | common/memory_state.cc:328-365 | The same, with everything else unmapped or protected; commands are disjoint. |
| MemoryStates.MemoryState.GrowResultChunk | common/memory_state.cc:367-406 | Appends to the last chunk over a gap of less than 15 bytes, and starts a new one otherwise. |
| MemoryStates.MemoryState.ScanKnown | common/memory_state.cc:462-498 | The walk over bytes and known ranges grows the delta. |
| MemoryStates.MemoryState.DeltaMemoryBytes | common/memory_state.cc:408-498 | The result is the delta of the bytes: ordered slices that start and end on a differing byte, at least 15 equal bytes apart and without 15 equal bytes inside, holding all that differ. |
| MemoryStates.MemoryState.DeltaMemoryBytesList | common/memory_state.cc:500-516 | The deltas of several chunks in order. |
| MemoryStates.InitialStateNeedsNothing | common/memory_state.cc:165-202 | After setting the initial state both deltas of the same snapshot are empty, for every prior state. |
| DeltaBytes.GrowStep | common/memory_state.cc:367-406 | Growing by bytes that all differ keeps the conditions on a delta. |
| DeltaBytes.ScanStep | common/memory_state.cc:462-494 | One step keeps the iterator at the range that covers the address, and after the last overlapping range everything differs. |
| DeltaBytes.DeltaIsUnique | common/memory_state.h:248-252 | The conditions on a delta admit only one list of chunks. |
| DeltaBytes.DeltaRefinesWrite | common/memory_state.h:248-252 | Writing the delta makes the same bytes known as writing all the bytes. |
| DeltaBytes.DeltaRefinesWrittenSet | common/memory_state.h:248-252 | And leaves the same addresses written. |
| DeltaBytes.ListDeltaRefinesWrite | common/memory_state.h:254-260 | For disjoint chunks, the same bytes are known. |
| DeltaBytes.ListDeltaRefinesWrittenSet | common/memory_state.h:254-260 | And the same addresses are written. |
| MemoryStates.WriteDelta | common/memory_state.h:248-260 | Computing the delta of chunks and writing it has on all fields of the state the effect of writing the chunks. |
| DeltaBytes.EmptyDelta | common/memory_state.h:248-252 | The delta is empty exactly when every byte is known. |
| MemoryRuns.Perform | common/memory_state.h:118-189 | Every mutator keeps known bytes written, written bytes mapped and entries marked, with the new mapped memory it leaves. |
| MemoryRuns.PerformRun | common/memory_state.h:346-358 | So does every run; without forgetting, known and written bytes are the same. |
| MemoryRuns.MappingDeltaEffect | common/memory_state.h:220-227 | Executing the delta of a mapping is setting it. |
| MemoryRuns.ExactDeltaEffect | common/memory_state.h:234-246 | Executing the exact delta leaves what adding the mappings to an empty state would, or protects the rest. |
| MemoryRuns.SnapshotDeltaEffect | common/memory_state.cc:280-326 | The delta for a snapshot, negative mappings included, can be executed and reaches its targets; it leaves the initial mapped memory if and only if the forbidden ranges are uniform. |
| NormalForms.SortedInOrder | common/snapshot.cc:785-787 | Sorting disjoint chunks puts them one after the other and keeps them all. |
| NormalForms.SameContent | common/snapshot.cc:785-787 | The content of disjoint chunks does not depend on their order. |
| NormalForms.NormalIsNormalForm | common/snapshot.cc:789-800 | A list that is sorted, uniform in permissions and merged is determined by its content. |
| NormalForms.NormalFormIsNormal | common/snapshot.cc:789-800 | The normal form is sorted and disjoint, with uniform chunks, and touching chunks differ in permissions. |
| NormalForms.NormalFormContent | common/snapshot.cc:783-845 | Normalising keeps every byte and its address. |
| NormalForms.NormalFormIdempotent | common/snapshot.cc:783-845 | Normalising twice changes nothing more. |
| Normalization.AppendStep | common/snapshot.cc:831-838 | Merging a chunk, or adding it, keeps the normal form. |
| Normalization.AppendChunk | common/snapshot.cc:801-844 | The inner loop splits one chunk at permission boundaries. |
| Normalization.NormalizeMemoryBytes | common/snapshot.cc:782-845 | The nested loops compute the normal form of the content. |
| Snapshots.Snapshot.CanAddMemoryMapping | common/snapshot.cc:279-302 | When a mapping may be added, which is when adding it is possible, and otherwise the first reason why not. |
| Snapshots.Snapshot.AddMemoryMapping | common/snapshot.cc:304-308 | List and map stay in agreement, of whole pages, and free of conflicts with negative mappings. |
| Snapshots.Snapshot.CanAddNegativeMemoryMapping | common/snapshot.cc:369-396 | When a negative mapping may be added, the last page included, and otherwise the first reason why not. |
| Snapshots.Snapshot.AddNegativeMemoryMapping | common/snapshot.cc:398-403 | Negative list and map stay in agreement, of whole pages or the last page, and free of conflicts. |
| Snapshots.Snapshot.AddNegativeMemoryMappingOverlapOk | common/snapshot.cc:405-423 | So they do when forbidden permissions are added to existing ones and the list is rebuilt. |
| Snapshots.FaultPageLegal | common/snapshot.cc:469-484 | For every 64-bit fault address the page is a legal range without overflow, and holds the address or all but the very last one. |
| Snapshots.CauseExplained | common/snapshot.cc:445-489 | A fault is refused if and only if its page has a permission for what failed; otherwise just executing, just writing, or all three are forbidden on the page, by cause, and nothing elsewhere. |
| Snapshots.Snapshot.AddNegativeMemoryMappingsFor | common/snapshot.cc:433-489 | Accepts a fault exactly when no mapping allows it on its page, forbids there just what the cause says, and otherwise changes nothing. |
| Snapshots.Snapshot.CanAddEndpoint | common/snapshot.cc:625-675 | Exactly when the addresses of an end state are accepted. |
| Snapshots.FaultIsAccepted | common/snapshot.cc:433-489 | A fault that was recorded passes the address check of expected end states. |
| Snapshots.RebuiltNegativeAligned | common/snapshot.cc:405-423 | The list rebuilt from a map of whole pages consists of whole pages, the last page without its last byte. |
| Snapshots.RecordTwoWriteFaults | common/snapshot.cc:433-489 | Recording two faults builds the snapshot on which the mapping delta and the initial state differ. |
| Snapshots.Snapshot.CanAddMemoryBytes | common/snapshot.cc:495-504 | Exactly when bytes may be added. |
| Snapshots.Snapshot.AddMemoryBytes | common/snapshot.cc:506-515 | Bytes stay disjoint and within mappings. |
| Snapshots.Snapshot.NormalizeMemoryMappings | common/snapshot.cc:758-773 | Both lists are rebuilt from their maps, describe the same memory and stay aligned. |
| Snapshots.Snapshot.NormalizeBytes | common/snapshot.cc:775-781 | The bytes are replaced by their normal form, with the same content. |
| ResultCollectors.CountersCount | orchestrator/result_collector.cc:178-216 | Over a run the counters count results, failed snapshots and runaways, and the limit falls by the number of errors. |
| ResultCollectors.StopsAtLimit | orchestrator/result_collector.cc:212-215 | A result asks to stop exactly when it is an error and, with it, there are as many as the limit. |
| ResultCollectors.RunStops | orchestrator/result_collector.cc:178-216 | Some result of a run asks to stop if and only if there are errors, and as many as the limit. |
| ResultCollectors.ResultCollector.Process | orchestrator/result_collector.cc:178-216 | One result; a runaway that is not reported does not count as an error. |
| ExecutionContexts.ExecutionContext.OfferRunResult | orchestrator/execution_context.cc:44-62 | Appends an ok result while there are fewer than one per thread; otherwise drops and counts it; lets errors pass. |
| ExecutionContexts.ExecutionContext.TakeResults | orchestrator/execution_context.cc:69-79 | The swap under the lock. |
| ExecutionContexts.ExecutionContext.ProcessResultQueueImpl | orchestrator/execution_context.cc:95-103 | All results are passed to the callback in order, and a stop is requested exactly when it asked for one. |
| ExecutionContexts.ExecutionContext.ProcessResultQueue | orchestrator/execution_context.cc:88-93 | The final drain passes all results to the callback, requests a stop exactly when it asked for one, and leaves the queue empty. |
| ExecutionContexts.StepKeeps | orchestrator/execution_context.cc:44-103 | Every atomic step keeps the queue bounded, nothing lost, repeated or reordered, every ok offer accepted or dropped, and a stop requested once there are too many errors. |
| ExecutionContexts.RunKeeps | orchestrator/execution_context.cc:44-103 | So does every interleaving. |
| ExecutionContexts.DroppedWhenFull | orchestrator/execution_context.cc:56-61 | A step drops a result if and only if a worker offers one while there is a result for every thread in the queue; otherwise an offer is appended. |
| ExecutionContexts.DroppedOverRun | orchestrator/execution_context.cc:56-61 | Over a run the drop count is the number of such steps. |
| ExecutionContexts.LeftOnlyToStop | orchestrator/execution_context.cc:66-83 | The event loop is left only after a stop was asked for or the deadline has passed. |
| ExecutionContexts.WorkersRunUntilStop | orchestrator/silifuzz_orchestrator.cc:86-154 | As long as nobody asked for a stop, all workers are running. |
| ExecutionContexts.FinishedDelivered | orchestrator/execution_context.cc:85-103 | After join and drain every accepted result was delivered exactly once and in order, and played plus dropped results are the ok offers. |
| ExecutionContexts.StopStays | orchestrator/execution_context.h:74-79 | A stop is never taken back. |
| ExecutionContexts.MainProgresses | orchestrator/execution_context.cc:66-103 | Once it is to stop and without workers, the main thread is never stuck and comes nearer to its end with every step. |
| ExecutionContexts.CanFinish | orchestrator/execution_context.cc:66-103 | Once it is to stop and without workers, a run of boundedly many steps finishes it. |
| ExecutionContexts.CanAlwaysFinish | orchestrator/execution_context.cc:66-103 | From every state that a run can come to, the run can be completed. |

## Left out

- MutatorRngs.MutatorRng.RandomIndex: says which indexes can come up, not how often; the distribution, and how many words of the generator one index or buffer takes, are not modelled.
- BatchMutators.RunMutations: any sequence of mutators is possible; the weights and retries of the mutation policy (`SelectMutation`, `RetryMutation`, `RepeatMutation`) are not modelled.
- MappedMemoryMaps.MappedMemoryMap.RemoveRangesOf: removes all permissions, the default and the only use here; removing some permissions is not modelled.
- Snapshots.Snapshot.CanAddEndpoint: the address checks only; registers, bytes, checksums and duplicates of end states are not modelled.
- The wrap-around of 64-bit offsets and displacements: programs are far shorter, and the model counts in unbounded integers.  Narrowing to 32 bits and the displacement fields of AArch64 are modelled bit by bit.
- `must_decode_everything` of `InstructionFromBytes`: the editor never asks for it.
- Which x86-64 instructions the runner allows: a field of the decoder's result.  The static filter for x86-64 accepts everything.
- The internals of `RangeMap` (splitting, merging, iterator stability), except looking up ranges: maps are pointwise, and iterated as their maximal ranges.
- `MemoryState::MakeEnd`, copies, comparison and the accessors of written bytes: they only add easy members.
- `Snapshot::set_memory_mapping_perms` and `set_memory_mappings`: they do not check negative mappings again.
- Normalising the bytes of end states: the same function on another list.
- The wait of the event loop for the lock, with its timeout: taking the queue is a step that can happen at any time, also when the queue is empty.
- The overflow of `fail_after_n_errors` and of the counters, logging, the binary log channel and the memory limits of the orchestrator.
- Starting threads and choosing corpora: workers are a set, and may offer anything in any order.
