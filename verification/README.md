# Proofs about sdcprobe

sdcprobe looks for processor cores that silently compute wrong results. Its first probe
(`ch`) hashes a grid of samples twice, once through a register sequence that reads bytes
out of `CL` and `CH` and once from memory, and runs the hash backwards to name the byte
that was misread. Its second probe (`rbx`) runs machine code cut out of a sanitized
binary and laid down again in another program, inside a fake stack and shadow memory
rebuilt at fixed addresses, and rewinds when that code faults.

This project models the logic of both and proves what it can be relied on for. Each file
holds one module.

| files | what they model |
|---|---|
| `Wrappers`, `Counting`, `Words`, `Binary`, `Memory`, `Samples` | options and results, growing sets, machine words as integers with their wrap-around written out, bit operations, little-endian bytes, decoded instructions |
| `Fnv`, `Inversion`, `Separation`, `Detector` | the hash, its inversion, how far apart two misreads of the same effect must be, and what a report says |
| `Collision`, `Overread` | where a report is wrong or missing: inputs, and families of them |
| `RegisterPath`, `Sweep` | the instruction sequence under test, and the counts of a run |
| `Closure`, `Relocation`, `Layout`, `Transplant`, `Simulation`, `Exhibits`, `Seam` | the payload generator, what the generated code does, and three worked programs |
| `Shadow`, `FakeStack`, `Frames` | shadow memory and the fake-stack allocator |
| `ArenaImage`, `Payload` | the data the payload hashes, and one whole pass over it |
| `FaultCapture`, `Rewind`, `ProbeRun`, `Undetected` | faults, the way back from them, runs of passes, and errors no pass notices |
| `CpuText`, `CpuList` | the parser and printer of core lists |
| `Lattice` | the lattice hash of the synthetic load |

FNV-1a is section 2 of draft-eastlake-fnv. The register semantics used are those of
section 3.4.1.1 of the Intel SDM, volume 1 (32-bit results are zero-extended). The
callee-saved registers are those of section 3.2.1 of the System V AMD64 psABI. Numbers
are read as in section 7.22.1.4 of ISO C11.

## Main results

* **What a report means.** A position is a candidate exactly when some other byte there
  explains the wrong hash, and that byte is then unique; the scan reports the first
  candidate. After one misread there always is one, the scan stays inside the sample
  array, and what it names is the misread byte or lies at least six bytes before it, so
  the right sample never comes with the wrong lane. It is the misread byte exactly when
  no byte at least six places earlier explains the same hash, and always among the first
  six bytes.
* **Which misreads are noticed.** All that lie within six consecutive bytes, as do any in
  one sample: `Separation.SameHashSameBytes` proves that such streams have different
  hashes. With two or more of them, none of the six bytes is ever named. Seven is too
  many: for `Collision.SevenMisreadsUnnoticed` the hash is right in every array that
  starts with seven given bytes, all of them misread.
* **When it is wrong.** The comment above the scan calls other candidates improbable.
  They are impossible up to five bytes away and exist eight bytes away
  (`Collision.CandidatesEightApart`): in every array that starts with the three samples
  of `Collision.WrongByteNamed`, those of the program's size included,
  a `CH` misread of sample 2 is reported as lane 0 of sample 0.
  The scan indexes one byte past the array exactly when the hashes differ in their low
  byte alone and no single misread explains it. `Overread.BitSevenReadsBeyond` proves
  that for every array of bytes below 0x80 whose hash is wrong in bit 7 alone, and
  `Overread.ZerosReadBeyond` gives an array of 100000 samples and an observation of it
  for which it happens.
* **The transplanted code runs in lockstep with the original**, return addresses and
  code addresses held as data included, until the original reaches an instruction that
  no copied function has; after a branch the copy then stands at the trap stub for
  exactly the target the original went to. This needs two conditions, which
  `Simulation.LockstepIff` shows to be exact. The generator checks neither.
  No branch may go into the middle of another copied function: it gives such a target a
  trap stub (`by_addr` has no entry for it, and `code_ref` looks at the stubs before it
  looks inside functions), so the copy stops where the original goes on;
  `Exhibits.BranchIntoCopyParts` is a program for which that happens. And where a
  function that control can run or return past, such as one that ends with a call to
  another copied function as `hash()` does, has a copied function directly behind it, the
  copies must adjoin too: the layout puts functions in another order;
  `Seam.TornSeamParts` is a program whose copy comes back to an address where nothing
  was emitted.
* **The fake stack is never reset between passes and does not need to be.** Whatever the
  hints and the order of calls, a flag is set exactly while its frame is live, a call
  tree gives back exactly the frames it took, and no call disturbs the live frames of
  others or anything behind the fake stack.
* **A pass on a healthy machine is right.** The hash, the iterators and the buffers
  live in fake-stack frames. Followed through them, the pass returns the FNV-1a hash of
  the vectors in the arena, never falls back to the thread's own stack, fails none of
  the shadow checks modelled, and leaves the arena ready for the next pass.
* **Runs of passes.** Every pass goes through `sdc_rbx_call`; however it ends, if it kept
  the words saved on the stack, the caller has its registers and its stack pointer back
  and reads the outcome in its flag. With
  faults, wrong hashes and refusals anywhere in a run, every pass starts from a ready
  arena, and the counters add up to the passes that were not healthy, provided every
  error shows as a fault or a wrong hash. An error that leaves the hash right is not
  noticed, and the arena is then not rebuilt. If it has changed the chunks, the passes
  after it hash what it left, and `ProbeRun.Probe.Run` covers these runs too; no error is
  counted twice. Up to three consecutive nodes spoilt in this way show in the next healthy
  pass (`Undetected.SpoiltNodesShowNext`).
* **The counters count what they are named for.** Both runs are proved against numbers of
  rounds and passes: per lane, those whose first explaining position lies in it; those that
  faulted with `rbx` 0xa0 above `rsp` inside `emit_i16`, and those that faulted otherwise. A
  misread among the first six bytes is always filed under its own lane.
* **The parser and the printer of core lists.** What they accept, refuse and print is stated
  for blanks, separators, numbers, ranges and runs of cores, and a printed list is read back
  exactly when every index is at most 4095.

## Model

| member | source | states |
|---|---|---|
| Fnv.StepUnstep | src/sdcprobe.cpp:317-328 | a backward step undoes a forward step and a forward step a backward one, for every accumulator and byte |
| Fnv.ResumeBackward | src/sdcprobe.cpp:322-328 | backward[k] is the one accumulator from which the bytes from k on lead to the wrong hash |
| Fnv.BackwardStep | src/sdcprobe.cpp:317-328 | backward obeys the recurrence of forward |
| Fnv.HashOfSubstitution | src/sdcprobe.cpp:279-290 | the hash with one byte replaced is the hash resumed at that byte from an accumulator disturbed by the difference of the two bytes |
| Words.PopCountBits | src/sdcprobe.cpp:132-139 | the population count is the number of places with a bit |
| Inversion.ExplainsIff | src/sdcprobe.cpp:311-344 | reading r at k explains the wrong hash exactly when forward and backward differ at k by the exclusive or of r and the stored byte |
| Inversion.CandidateIffExplained | src/sdcprobe.cpp:331-343 | a difference in 1..255 before the end is the same as an explaining byte, which is then unique |
| Inversion.CandidateAtEnd | src/sdcprobe.cpp:331-343 | at the end of the stream the difference is that of the two hashes |
| Inversion.AgreementEverywhere | src/sdcprobe.cpp:317-332 | forward and backward agree on their low j bits at one position exactly when they do at every position |
| Inversion.LowestBitEverywhere | src/sdcprobe.cpp:305-332 | the lowest bit set in the difference is the same at every position |
| Inversion.DifferencesVanishTogether | src/sdcprobe.cpp:331-336 | a difference is zero exactly when the hashes are equal |
| Inversion.LowByteRightMeansNoCandidate | src/sdcprobe.cpp:305-343 | a wrong hash whose low byte is right has no candidate |
| Inversion.MisreadChangesHash | src/sdcprobe.cpp:264-290 | one wrong byte always changes the hash |
| Inversion.PopCountOneIffBitFlip | src/sdcprobe.cpp:305-336 | a difference has one bit set exactly when flipping one accumulator bit at that step explains the wrong hash |
| Separation.SameWindow | src/sdcprobe.cpp:312-328 | from one accumulator, different windows of at most six bytes lead to different accumulators |
| Separation.SameHashSameBytes | src/sdcprobe.cpp:264-290 | different streams that differ only within six consecutive bytes have different hashes |
| Separation.CandidatesAreFarApart | src/sdcprobe.cpp:305-346 | two candidates are never within five bytes of each other, for all bytes and all wrong hashes |
| Detector.PopCount64 | src/sdcprobe.cpp:132-139 | clearing the lowest bit until none is left counts the bits set |
| Detector.ReplayHash | src/sdcprobe.cpp:266-275 | the loop over memory computes FNV-1a of the stored bytes |
| Detector.ReplayHashWithSubstitution | src/sdcprobe.cpp:279-290 | the same with one byte replaced, and nothing replaced when the index is past the end |
| Detector.FillForward | src/sdcprobe.cpp:316-320 | the buffer holds the forward accumulators and the samples are untouched |
| Detector.FillBackward | src/sdcprobe.cpp:322-328 | the buffer holds the backward accumulators |
| Detector.ScanDifferences | src/sdcprobe.cpp:330-345 | the scan returns the first candidate and the least number of bits set in any difference |
| Detector.ReverseFnv | src/sdcprobe.cpp:311-346 | the whole analysis, given the samples and the wrong hash |
| Detector.ReportMeansExplanation | src/sdcprobe.cpp:330-345 | a reported position inside the stream is a byte that explains the hash, and one is reported exactly when there is a candidate |
| Detector.ReadsBeyondIff | src/sdcprobe.cpp:331-342 | when the scan reads one byte past the array |
| Detector.AfterOneMisread | src/sdcprobe.cpp:311-346 | after one misread: a report, inside the array, at the misread byte or at least six bytes before it, and no wrong lane for the right sample |
| Detector.NamesTheMisreadIff | src/sdcprobe.cpp:311-346 | the misread byte is named, with lane, sample and both values, exactly when no byte at least six places earlier explains the hash; one of the first six bytes always is |
| Detector.AfterMisreadsTogether | src/sdcprobe.cpp:305-346 | after any misreads within six consecutive bytes the hash is wrong, and a byte among the six is named only if it alone was misread, with what was read |
| Detector.LeastPopCountMeaning | src/sdcprobe.cpp:305-336 | what a least population count of 0 and of 1 means |
| Collision.WrongByteNamed | src/sdcprobe.cpp:305-346 | in every array that starts with three given samples, one CH misread of the third is reported as another sample and another lane, with the values reported |
| Collision.WrongByteNamedInProgram | src/sdcprobe.cpp:1175 | so it is for arrays of the program's 100000 samples |
| Collision.SevenMisreadsUnnoticed | src/sdcprobe.cpp:264-275 | seven given bytes and another reading of all seven, after which the hash is right whatever follows |
| Collision.CandidatesEightApart | src/sdcprobe.cpp:305-346 | in every stream that starts with nine given bytes, a misread of the last of them leaves candidates at the first and the last |
| Overread.NoReturn | src/sdcprobe.cpp:312-328 | the powers of the prime come back to 1 modulo 2^(t+2) no sooner than at the power 2^t |
| Overread.DifferenceAt | src/sdcprobe.cpp:317-328 | over bytes below 0x80, if the hashes agree in their low seven bits, the difference of the accumulators is multiplied by the prime at every byte |
| Overread.BitSevenReadsBeyond | src/sdcprobe.cpp:330-342 | for every array of bytes below 0x80, a hash wrong in bit 7 alone makes the scan read past the array |
| Overread.ZerosReadBeyond | src/sdcprobe.cpp:330-342 | 100000 samples of zero, the last three observed wrongly: the scan reads past the array |
| RegisterPath.SequenceHashesLanes | src/sdcprobe.cpp:241-259 | the sixteen instructions store the sample and make four FNV steps over the bytes observed, lowest lane first, for every fault oracle and whatever the scratch registers held |
| RegisterPath.MeasuredBlock | src/sdcprobe.cpp:230-260 | one pass through the assembly block |
| RegisterPath.GridAt | src/sdcprobe.cpp:218-224 | sample i of row j of the load lies at 400 * j + i |
| RegisterPath.ComputeRows | src/sdcprobe.cpp:214-262 | the grid is stored in row order and the result is FNV-1a of the observed bytes |
| RegisterPath.RightReadsAgree | src/sdcprobe.cpp:214-275 | when every lane is read right, that is the hash of the stored bytes |
| Sweep.CheckRound | src/sdcprobe.cpp:573-617 | one round adds one to the counter of lane l exactly when its hash is wrong and the first position that can explain it is a byte of that lane, one to unexplained exactly when no position can, and to the drift the number of samples that differ from the baseline |
| Sweep.RunOnCurrentCpu | src/sdcprobe.cpp:552-648 | the counters of a run up to an interrupt: for each lane the number of rounds filed under it, the number of rounds left over, of rounds with a wrong hash, and of differences from the first round |
| Sweep.TallyCounts | src/sdcprobe.cpp:595-604 | so for the specification of the counters, over any sequence of rounds |
| Sweep.CountDrift | src/sdcprobe.cpp:583-590 | the number of samples that differ from the baseline |
| Sweep.MisreadIsFiled | src/sdcprobe.cpp:595-604 | a round whose one misread is among its first six bytes, or whose misread no byte at least six places earlier explains, is filed under that byte's lane and no other |
| Sweep.EarlyMisreadCounted | src/sdcprobe.cpp:598-599 | the counters of a run of one round with one misread among the first six bytes: one for that byte's lane |
| Sweep.DifferencesCount | src/sdcprobe.cpp:583-590 | the drift of a round is the number of places at which it differs |
| Sweep.ScanReportsFirst | src/sdcprobe.cpp:596-604 | what is filed in a round is the first candidate |
| Sweep.CountsBalance | src/sdcprobe.cpp:595-604 | detections are the lane counters plus unexplained |
| Sweep.OneMisreadIsExplained | src/sdcprobe.cpp:595-604 | a round with at most one misread is detected exactly when there is one, and then explained |
| Sweep.MisreadsTogetherAreDetected | src/sdcprobe.cpp:595-604 | a round whose misreads lie within six consecutive bytes is detected exactly when there is one |
| Sweep.DetectionsAreMisreads | src/sdcprobe.cpp:552-617 | if the misreads of each round lie within six consecutive bytes, detections are the rounds with one; if no round has two, none is unexplained and the lanes add up |
| Sweep.NoMisreadNoDetection | src/sdcprobe.cpp:552-617 | a run of right reads detects nothing |
| Closure.Selection.ReadBody | tools/gen_rbx_payload.py:221-230 | the lines of a function, or the address without an instruction |
| Binary.FirstAt | tools/gen_rbx_payload.py:185-187 | the first symbol with an address, and one whenever there is one |
| Closure.Selection.ScanBranches | tools/gen_rbx_payload.py:231-245 | copied callees go on the worklist, every other branch target becomes a trap |
| Closure.Selection.Close | tools/gen_rbx_payload.py:211-245 | the worklist ends with exactly the functions reachable through copied callees and exactly the other targets they branch to; it fails only on a reachable function with a gap |
| Closure.ClosedIsReachable | tools/gen_rbx_payload.py:211-245 | a sound selection without pending work is the set of reachable functions |
| Closure.EveryExitResolves | tools/gen_rbx_payload.py:351-360 | every branch out of a chosen function leads to a chosen function or a trap |
| Relocation.FindsDisplacementIff | tools/gen_rbx_payload.py:279-284 | the search finds the displacement exactly when the pattern does not occur again further on |
| Relocation.BranchesAreFound | tools/gen_rbx_payload.py:279-284 | so it does for every branch |
| Relocation.Rel32Iff | tools/gen_rbx_payload.py:279-289 | for a four-byte displacement the generator gives up exactly when the pattern is not counted once; otherwise the result is the instruction with its displacement replaced exactly when the search finds the displacement, or the distance is what it was modulo 2^32 |
| Relocation.CountDoesNotRuleOutOverlap | tools/gen_rbx_payload.py:282-289 | an instruction that refers 0x1010101 bytes past its end and whose pattern is counted once and found in the wrong place: it is accepted, and the re-emitted instruction has another target than the symbol |
| Relocation.Rel32Exact | tools/gen_rbx_payload.py:279-289 | the re-emitted instruction differs only in its target, which is the new symbol |
| Relocation.CopyMovesTarget | tools/gen_rbx_payload.py:353-354 | an instruction copied unchanged reaches as far as before |
| Layout.LayOut | tools/gen_rbx_payload.py:313-322 | every function once, at its own address modulo 4096, with less than 4096 bytes of padding, and no other remaining function would have needed less |
| Layout.OffsetsIncrease | tools/gen_rbx_payload.py:315-322 | placed functions do not overlap |
| Layout.FindFunction | src/rbx.cpp:166-174 | the first entry before the terminator that holds the address, or none |
| Layout.FindsOwnFunction | src/rbx.cpp:255-267 | in a table with the stubs before the code, every address in a placed function is found in that function, with the offset in it |
| Transplant.SortChosen | tools/gen_rbx_payload.py:314-314 | the chosen functions, each once, by page offset and then address |
| Transplant.PlaceStubs | tools/gen_rbx_payload.py:302-305 | one two-byte stub for each trap target, aligned to eight, in address order and apart from each other |
| Transplant.NeverUnresolved | tools/gen_rbx_payload.py:357-359 | the exit for an unresolved branch target is never taken |
| Transplant.MovedRead | tools/gen_rbx_payload.py:341-345 | the copy of a read of fs:0 differs from it in the segment prefix and in the displacement, which is 0x28; nothing else that is copied as it is reads fs:0 |
| Transplant.Assembler.EmitFunction | tools/gen_rbx_payload.py:325-373 | every line of the function is in the image as moved, and nothing outside its new range changes; a thread pointer read at fs:0 becomes one at gs:0x28, and the instruction behind it takes the slot at -0x48; it succeeds exactly when every line can be moved and every instruction behind such a read, unless it is one itself, is the slot load; an error names a line and what is wrong with it: no slot load, data without a value, or a displacement pattern not counted once; never an unresolved branch |
| Transplant.Assembler.EmitAll | tools/gen_rbx_payload.py:324-375 | the same for all functions; it fails also when there was no thread pointer read |
| Transplant.MakePlan | tools/gen_rbx_payload.py:247-322 | the plan and the layout it comes from: addresses for all chosen functions and traps, without overlap, congruent modulo the page size, each next function the one with least padding, the stubs before the code |
| Transplant.FindsOriginal | src/rbx.cpp:166-174 | in the table of such a plan, the new address of any address in a copied function is found in that function, with the original start, the name and the original offset |
| Transplant.Generate | tools/gen_rbx_payload.py:211-375 | from the program to the image, in which every thread pointer read is at gs:0x28; it fails only on a reachable function with a gap, or with an error that a line of the plan it made is to blame for, or when that plan has no thread pointer read |
| Simulation.MovedIsFaithful | tools/gen_rbx_payload.py:339-370 | a moved instruction is the original with its target mapped, and a thread pointer read the one at gs:0x28 |
| Simulation.StepTogether | tools/gen_rbx_payload.py:325-370 | one step of both machines, for every kind of instruction, indirect branches through a pc-relative operand and the last instruction of a function included |
| Simulation.PointerFollowed | tools/gen_rbx_payload.py:254-263 | the address the generator puts in place of a pointer to a copied instruction is that of its copy |
| Simulation.TransplantRunsInLockstep | tools/gen_rbx_payload.py:325-370 | for every number of steps, all data and every meaning of the instructions that treats addresses as opaque, if no trap target is an instruction of a copied function and adjoining functions whose seam is passed still adjoin: both stop, both step to corresponding states, or the original leaves the copied instructions, with data and callers still related and the copy at the stub for a branch target, at the related pointer, or behind the copy of the function left |
| Simulation.PartAt | tools/gen_rbx_payload.py:238-263 | at a branch into the middle of another copied function the machines part |
| Simulation.PartAtSeam | tools/gen_rbx_payload.py:308-322 | at the end of a function that can be passed, with a copied instruction behind it that its copy does not adjoin, the machines part |
| Simulation.LockstepIff | tools/gen_rbx_payload.py:238-263 | they run in lockstep from all corresponding states and for all such meanings exactly when no trap target is an instruction of a copied function and no such seam is torn |
| Simulation.EntryInStep | tools/gen_rbx_payload.py:291-294 | the two machines correspond at the entry |
| Exhibits.AssumptionsCanBeMet | tools/gen_rbx_payload.py:211-375 | the assumptions of the lockstep theorem hold together for a program whose entry ends with a call to a copied function, with an exit, a reference to data, a thread pointer read and a code address in its data; the plan is one the generator makes and accepts |
| Exhibits.BranchIntoCopyParts | tools/gen_rbx_payload.py:238-263 | a program the generator accepts, with a branch behind the first instruction of a copied function, is out of lockstep after seven steps from its entry |
| Seam.TornSeamParts | tools/gen_rbx_payload.py:308-322 | a program the generator accepts, with no branch into a copied function, whose entry ends with a call: it returns into the function behind the entry, and the copy to an address where nothing was emitted |
| Memory.GetPut8 | src/rbx.cpp:133-141 | a stored word is read back |
| Shadow.Memset | src/rbx_payload.S:24-60 | every length writes exactly that many bytes |
| Shadow.AddrIsInMemIff | src/rbx_payload.S:534-580 | which addresses the runtime takes for memory, in numbers |
| Shadow.PoisonShadow | src/rbx_payload.S:515-795 | for ranges inside the arena: a nonzero value on an aligned range writes exactly its shadow bytes, and each other case ends in its own trap stub and writes nothing |
| FakeStack.FlagAreasAdjoin | src/rbx_payload.S:1342-1424 | the flag areas of the size classes follow each other without gap or overlap |
| FakeStack.FlagInArea | src/rbx_payload.S:1017-1034 | every flag lies behind the header and before the frames |
| FakeStack.FrameBounds | src/rbx.cpp:52-59 | every frame lies behind the flags and inside the fake stack |
| FakeStack.StackPlaces | src/rbx.cpp:52-59 | where the flags and frames of the probe's fake stack lie, in numbers |
| FakeStack.SlotsApart | src/rbx_payload.S:990-1062 | two slots share no flag and no byte of their frames |
| FakeStack.AllocationKeeps | src/rbx_payload.S:1050-1062 | taking a free slot keeps flags and liveness equivalent and every flag pointer right |
| FakeStack.AllocatedWords | src/rbx_payload.S:1054-1063 | a taken frame holds the caller's stack pointer at 0x18 and the address of its flag in its last word |
| FakeStack.FreeingKeeps | src/rbx_payload.S:2193-2198 | zero through the pointer in the last word of a live frame clears that frame's flag and no other |
| FakeStack.OwnerWriteKeeps | src/rbx_payload.S:2070-2170 | a write below the last word of a frame breaks nothing |
| FakeStack.CounterPositiveIff | src/rbx_payload.S:1012-1016 | the 32-bit loop counter is positive exactly when there are fewer than 2^31 slots |
| FakeStack.SearchCovers | src/rbx_payload.S:1022-1036 | a search of as many steps as slots meets every slot, from any hint and across its wrap-around |
| Frames.Arena.Search | src/rbx_payload.S:1012-1036 | the first free slot from the hint on, going round once, and the hint behind it; or none when all are taken |
| Frames.Arena.StackMalloc | src/rbx_payload.S:990-1166 | null exactly when all slots of the class are taken or the counter is not positive; otherwise the first free frame from the hint on, with its two words filled in and unpoisoned up to the requested size, the hint behind it, and all other frames as they were |
| Frames.Arena.OwnerWrite | src/rbx_payload.S:2070-2170 | one byte changes, and no frame but the owner's |
| Frames.Arena.FreeFrame | src/rbx_payload.S:2186-2198 | exactly the owner's frame is given back, with the retirement mark in its first word and 0xf5 in all its shadow bytes |
| Frames.Arena.RunActivation | src/rbx_payload.S:2035-2207 | any properly nested call tree ends with the frames live that were live before, untouched, and changes nothing behind the fake stack |
| ArenaImage.Hasher.EmitU64 | rbx-repro/repro.cpp:31-37 | eight bytes, lowest first |
| ArenaImage.Hasher.EmitState | rbx-repro/repro.cpp:50-57 | the chunk count, and for every chunk its node count and its nodes |
| ArenaImage.HashOf | rbx-repro/repro.cpp:59-69 | FNV-1a of those bytes |
| ArenaImage.RepresentsOne | src/rbx.cpp:97-107 | an arena represents at most one vector of chunks |
| ArenaImage.FnvBytes | src/rbx.cpp:118-123 | folding the low bytes of a value |
| ArenaImage.SeedAfter | src/rbx.cpp:145-158 | what any number of steps of the generator come to, in closed form modulo 2^32 |
| ArenaImage.FirstNodes | src/rbx.cpp:145-158 | the first three nodes, in numbers |
| ArenaImage.BuildNodes | src/rbx.cpp:155-159 | the generated nodes in place, hashed, and nothing else written |
| ArenaImage.BuildChunk | src/rbx.cpp:145-160 | one chunk with its nodes |
| ArenaImage.BuildArena | src/rbx.cpp:128-164 | whatever was there: an empty fake stack, clear shadow, the vector object, the chunks and the nodes at their addresses, memory that represents the intended vector, and its hash, for all counts that fit the strides |
| ArenaImage.ActualCountsFit | src/rbx.cpp:78-91 | 64 chunks of 4096 nodes fit |
| Payload.RoomLeft | src/rbx_payload.S:990-1062 | with fewer live frames than slots a slot of the class is free |
| Payload.TakeFrame | src/rbx_payload.S:2039-2080 | a prologue gets a frame, never the fallback, whose first four words are the magic number, the description, the address of the function and its stack pointer |
| Payload.Lambda | src/rbx_payload.S:211-337 | the bytes of the buffer are folded into the hash in the frame of hash(), through the closure, and no shadow check fails |
| Payload.EmitBytes | src/rbx_payload.S:2035-2207 | a value handed over in a buffer in its own frame |
| Payload.EmitU64 | src/rbx_payload.S:2210-2416 | eight bytes folded in, all other frames kept |
| Payload.EmitI16 | src/rbx_payload.S:2035-2207 | two bytes folded in, all other frames kept |
| Payload.Iterator | src/rbx_payload.S:1168-1339 | begin() and end() return the pointer, by way of a frame of their own |
| Payload.Size | src/rbx_payload.S:1531-1684 | the signed distance of the two pointers over the element size |
| Payload.EmitNodes | src/rbx_payload.S:2979-3286 | the inner loop over the nodes the memory represents, its iterators in the frame of emit_state |
| Payload.EmitChunks | src/rbx_payload.S:2731-3357 | the outer loop over the chunks |
| Payload.EmitState | src/rbx_payload.S:2585-3383 | everything repro.cpp's emit_state passes on is folded in, and the frame is given back |
| Payload.HashPass | src/rbx_payload.S:3385-3504 | hash() returns the FNV-1a hash of the represented vectors, reaches no trap, and leaves no frame taken and no datum changed |
| FaultCapture.Capture.Arm | src/platform.cpp:38-41 | a record and a place to resume are registered |
| FaultCapture.Capture.Disarm | src/platform.cpp:43-45 | no record is registered |
| FaultCapture.Capture.Handle | src/platform.cpp:206-238 | taken exactly when armed and any signal, or a Windows code from 0xC0000000 up or 0x80000003: nine registers and the data address recorded, disarmed, only the instruction pointer redirected; the address is that of SIGSEGV, SIGBUS and the two Windows codes that have one, otherwise zero |
| FaultCapture.Capture.Watch | src/platform.cpp:373-403 | over any sequence of armings, disarmings and exceptions the two globals, the registers each exception continues with and what is recorded are those of the history |
| FaultCapture.OpenIff | src/platform.cpp:38-45 | over any sequence of events a record is registered exactly when an arming is in force |
| FaultCapture.RedirectedIff | src/platform.cpp:373-403 | while an arming is in force every signal is redirected, and of the Windows codes the errors and the breakpoint, to where that arming said; nothing else ever is |
| FaultCapture.OneRedirectPerArming | src/platform.cpp:373-403 | between two redirected exceptions there is an arming |
| Rewind.Machine.SaveFrame | src/rbx_payload.S:101-109 | six registers and the flag address are pushed and their place is kept |
| Rewind.Machine.PopFrame | src/rbx_payload.S:115-122 | the registers and the return address are what memory holds there |
| Rewind.Machine.Call | src/rbx_payload.S:101-131 | after a redirected fault with any registers or a return with any stack pointer, over any bytes the payload left: the flag is written where the flag address found says, the callee-saved registers and the return address are the caller's exactly when the saved words are intact after that, and the flag and the result tell which it was |
| Rewind.Machine.KeptIsIntact | src/rbx_payload.S:101-131 | so they are if the payload kept its stack pointer and the words of the frame, and the flag lies outside it |
| ProbeRun.Probe.constructor | src/rbx.cpp:222-224 | preparing leaves the arena ready and the expected hash known |
| ProbeRun.TheDataShape | src/rbx.cpp:78-83 | 64 chunks of 4096 nodes, and as many calls in a pass |
| ProbeRun.Probe.Execute | src/rbx.cpp:237-240 | what the payload and the handler leave between the prologue and the epilogue of the call |
| ProbeRun.Probe.CallPayload | src/rbx.cpp:238-240 | through sdc_rbx_call: the stack pointer and the hash, and, if the pass kept the words saved on the stack, the caller's registers and place, with the flag telling how the pass ended |
| ProbeRun.Probe.RunPass | src/rbx.cpp:227-253 | over whatever chunks the arena holds: faulted exactly on a fault, mismatched exactly on a wrong hash or a refused thread pointer, the hash of those chunks from a healthy pass, and what the next pass finds |
| ProbeRun.Probe.Run | src/sdcprobe.cpp:675-716 | every pass of a run starts from a ready arena, with the chunks the last undetected error left or the intended ones; signature is the number of passes that faulted inside emit_i16 with rbx 0xa0 above rsp, otherFault that of the other faults, and mismatch that of the passes that did not fault and had no hash or a wrong one |
| ProbeRun.TallyCounts | src/sdcprobe.cpp:686-716 | so for the specification of the counters, over any sequence of passes |
| ProbeRun.HeldIsTheData | src/rbx.cpp:245-252 | they are the intended ones as long as no undetected error leaves anything else |
| ProbeRun.CountsBalance | src/sdcprobe.cpp:686-716 | each detection is filed once, no error is counted twice even if a later pass shows it, and without undetected errors the detections are the passes that were not healthy |
| Undetected.SpoiltNodesChangeHash | rbx-repro/repro.cpp:50-69 | chunks that differ in up to three consecutive nodes have different hashes |
| Undetected.StateBytesInjective | rbx-repro/repro.cpp:50-57 | sizes and nodes can be read back from the hashed bytes: different vectors of chunks give different bytes |
| Undetected.SpoiltNodesShowNext | src/rbx.cpp:245-252 | an error that leaves the hash right and such chunks is counted once, in the healthy pass after it, and the arena is rebuilt |
| Undetected.ErrorNobodyNotices | src/rbx.cpp:245-252 | an error that is not detected and leaves an arena no pass can start in |
| ProbeRun.SignatureIff | src/rbx.cpp:269-274 | the signature says exactly that rbx holds what rsp was before the prologue made room |
| CpuText.Trim | src/sdcprobe.cpp:767-779 | what lies between the blanks at both ends, with no blank at its own ends |
| CpuText.EqualsIgnoreCase | src/sdcprobe.cpp:781-797 | equal length, and character by character the same or a capital and its small letter |
| CpuText.TokensSnoc | src/sdcprobe.cpp:842-856 | a word after a space is one more token |
| CpuText.TokensSpace | src/sdcprobe.cpp:842-856 | a space at the end is no more token |
| CpuText.StrtolMeans | src/sdcprobe.cpp:858-887 | white space, a sign or none, and digits: the number they stand for, cut to the range of long, and where it ends; without digits nothing is used |
| CpuText.StrtolOfToString | src/sdcprobe.cpp:858-887 | a printed number is read back whole, clamped to the width of long |
| CpuText.Decimal | src/sdcprobe.cpp:936-957 | in decimal digits: the largest core number is printed as 4095 |
| CpuList.Collect | src/sdcprobe.cpp:842-900 | the core numbers of all tokens in order, or the first error |
| CpuList.Choose | src/sdcprobe.cpp:907-932 | the selection and the first unavailable core |
| CpuList.ParseCpuSelection | src/sdcprobe.cpp:825-933 | an input of blanks, or of the letters all in any case between blanks, selects every available core; on any other the parser computes Select, error cases and partial output included |
| CpuList.AsksForAllIff | src/sdcprobe.cpp:829-833 | which inputs ask for all cores |
| CpuList.OnlySeparators | src/sdcprobe.cpp:902-905 | separators alone are refused, for naming no cores |
| CpuList.NumberParses | src/sdcprobe.cpp:881-897 | a number is one core up to 4095, and too large above |
| CpuList.RangeParses | src/sdcprobe.cpp:863-897 | a range of two numbers, which may run backwards or be too large, in this order |
| CpuList.OpenRangeParses | src/sdcprobe.cpp:872-876 | a range without an end cannot be parsed |
| CpuList.NegativeParses | src/sdcprobe.cpp:889-892 | a number with a minus sign is refused as negative, unless it is zero |
| CpuList.UnreadableToken | src/sdcprobe.cpp:866-887 | a token with a character that is no digit, sign or white space cannot be parsed |
| CpuList.FormatCpuList | src/sdcprobe.cpp:936-957 | the printer computes Format |
| CpuList.OneRunPrinted | src/sdcprobe.cpp:943-953 | cores that follow each other are printed as one number or one range |
| CpuList.PartsPrinted | src/sdcprobe.cpp:941-956 | where the next core does not follow, the two parts are printed with a comma between |
| CpuList.FirstOccurrencesOrder | src/sdcprobe.cpp:907-932 | what keeping first occurrences means: same elements, no repeats, in order of first place |
| CpuList.PickIff | src/sdcprobe.cpp:907-932 | a selection succeeds exactly when every wanted core is available, and is then the first occurrences, each the first core listed with its index |
| CpuList.PickFails | src/sdcprobe.cpp:907-920 | otherwise the error names the first wanted core that is not available, and the cores wanted before it are already selected |
| CpuList.AcceptedSelection | src/sdcprobe.cpp:825-933 | when a list is accepted, and that the result is free of duplicates, drawn from the available cores and in order of first mention |
| CpuList.RoundTripIff | src/sdcprobe.cpp:825-957 | a printed list of distinct available cores, in any order, is read back exactly when every index is at most 4095, and refused otherwise |
| CpuList.WidthDoesNotMatter | src/sdcprobe.cpp:858-897 | 32-bit and 64-bit long accept the same lists with the same result |
| Lattice.UnXorShiftOfXorShift | src/load.cpp:22-27 | a shift by more than a third of the word and exclusive or is undone by two more |
| Lattice.SplitMix64Bijective | src/load.cpp:22-27 | splitmix64 has an inverse on both sides |
| Lattice.MixedZero | src/load.cpp:22-27 | the first output of the published generator |
| Lattice.HashUnmixed | src/load.cpp:32-37 | undoing the outer mix leaves the packed coordinates and the mixed seed and salt, exclusive or |
| Lattice.NodesDoNotCollide | src/load.cpp:32-37 | with the same seed and salt, lattice nodes have the same hash only if they are the same |
| Lattice.LayersDoNotCollide | src/load.cpp:32-37 | at the same node, seed and salt pairs have the same hash only if they are the same |

## Left out

- Whether and how often a core faults. A fault is an arbitrary oracle: which bytes are misread, which registers and which memory a fault leaves.
- Timing, calibration, deadlines and progress output of both probes; a run is a finite sequence of rounds or passes, cut short by an interrupt.
- The floating-point noise of the load. Samples are arbitrary 32-bit words, and the layer count and the drift of values are not connected.
- Operating system calls: affinity, enumeration of cores, mappings, installing handlers, the thread pointer. A refusal to set the thread pointer is one of the outcomes of a pass.
- Reading the output of `nm` and `objdump`. The generator starts from decoded instructions and symbols; finding `hash()` by its name is not modelled, and the text that decides which data symbol a reference gets is a function from addresses to symbols.
- Labels and the assembler. Addresses are assigned where the assembler would put the code, `.long symbol - . - n` is evaluated, and the names in the function table are dropped.
- `sdc_rbx_memset_inject` and the self-tests built on it, the logger, prompts, usage text and summaries, the parser of the probe name.
- Simulation.TransplantRunsInLockstep: besides its two exact conditions, assumes that instructions treat addresses as opaque, that the thread pointers at fs:0 and gs:0x28 correspond, that decoded instructions do not overlap and fill their functions, that `function_at` finds the copied function at each of its instructions, that new targets are within reach, and that for references other than branches the displacement is where the search finds it; Relocation.CountDoesNotRuleOutOverlap shows why the last is needed.
- Separation.CandidatesAreFarApart: candidates six and seven bytes apart are neither excluded nor exhibited.
- Overread.BitSevenReadsBeyond: arrays with bytes of 0x80 and above are not covered; for them Detector.ReadsBeyondIff has the exact condition.
- Detector.ReverseFnv: the byte past the array is a parameter; C++ gives the read no value.
- Frames.Arena.RunActivation: the frames and shadow bytes an activation touches, in any order; the instructions between are not executed one by one.
- Frames.Arena.StackMalloc: the branches that collect garbage after a longjmp and that create the fake stack lazily are not modelled; their conditions are part of the arena's invariant.
- Payload.HashPass: the UBSan checks on null, alignment and overflow are not modelled, nor are the words the compiler spills to the thread's own stack. The loads and stores of the hash, the closure, the iterators, the buffers and the data are.
- Rewind.Machine.Call: the saved stack pointer is not overwritten; a payload that overwrites it is outside the model. The stack does not lie across the ends of the address space.
- ProbeRun.Probe.RunPass: a pass that overwrites the return address, the saved registers or the flag address on the probe's own stack does not come back here; Rewind.Machine.Call says what becomes of the registers then.
- ProbeRun.Probe.Run: a pass over an arena whose fake stack or shadow memory an undetected error has spoilt is outside the model; over chunks it has spoilt is not. Counters do not wrap around.
- FaultCapture.Capture.Handle: restoring the default action of a signal that is not the payload's is left out, and so is the name of the exception in words.
- CpuList.ParseCpuSelection: errors are values that carry the token; their wording is left out.
