# A verified model of DTVM

DTVM runs EVM bytecode and WebAssembly. This project models the parts of it whose
correctness is least obvious from reading the code, and proves what they are for:

- **EVM gas chunks** (`Bytecode`, `PushDecoding`, `GasBlocks`, `Semantics`, `FrameLaws`,
  `ChunkedInterpreter`, `GasChunks`). The interpreter charges a whole chunk of instructions in advance. The model has
  both executions: the dispatch loop over the cache, and a reference that charges every opcode.
  `GasChunks.Execute` builds the cache from the code, runs the loop and gives the outcome of the
  reference for every program, environment and amount of gas.
- **Graph analyses behind the chunks** (`ControlFlow`, `Cycles`, `Dominators`, `CriticalEdges`,
  `Metering`, `GasExamples`). Control-flow graph, two-pass strongly connected components, dominators, splitting of
  critical edges, and the shifting of gas between blocks (Lemma 6.14 of the SPP method).
- **EVM memory, storage and calls** (`MemoryGas`, `StorageGas`, `CallGas`, `CallFrames`).
- **Memory prechecks of the compiler** (`Prechecks`, `PrecheckPrecision`, `LinearPrechecks`). Blocks
  with known addresses get one memory expansion instead of one per access.
- **The constant string pool** (`HashChains`, `Interning`, `StringPool`). The class with its slots,
  chains, free lists and resizes is shown to be a run of an interning machine, whose theorems are
  about whole runs.
- **Wasm control flow** (`WasmCode`, `WasmControl`, `WasmInterpreter`). The interpreter's flat
  control, with its block-address cache, refines structured control.
- **The thread pool** (`ThreadPool`, `ThreadPoolProgress`). A state machine over the atomic steps of
  workers, waiter and pushers: safe in every interleaving, and able to finish from every state.

Code that updates state in the source is written as methods and classes proved against
specification functions; pure code is written as functions. Local vectors are `seq` variables.
`Basics` holds the definitions all components share.

## What was found

Five promises hold only under a condition, which is proved to be the exact one.

- The block precheck expands memory at the first access. An `MSIZE` after it and before the access
  with the largest address then reads the larger size (`Prechecks.EarlyMsizeIsVisible`).
  `Prechecks.PrecheckTransparentIff` says exactly which blocks are safe.
- The dominator sets are exact if and only if the entry has no reachable predecessor or is the
  only block (`Dominators.ComputeDominators`). A program that can jump back to offset 0 gets full
  sets instead (`GasExamples.LoopingEntryInexact` works one out from its bytes), every edge out of a
  reachable block counts as a back edge, and the metering of reachable blocks stays their cost
  (`Metering.LoopedEntryUnmetered`).
- Metering is added in 64 bits. It charges every prefix of every path at least its cost, and every
  complete path exactly, if and only if no addition at a reachable block wraps (the last clause of
  `Metering.ShiftMetering`, and `GasChunks.Metered` in the contract of `GasChunks.ComputeMetering`).
  `GasExamples.WrappedMeteringUndercharges` is a program on which one does. Complete paths stay right
  modulo 2^64, and code without undefined opcodes never gets there (`GasChunks.DefinedCostsFit`).
- `newSymbol` grows the slot array although slots wait to be recycled, and then loses them. That
  happens exactly when the pool is initialised, the string is new, the free list is empty, the
  recycle list is not, and the array can grow: there is memory and the limit is not reached (last
  clause of `StringPool.ConstStringPool.NewSymbol`). `StringPool.LoseSlot` is such a run.
- If `waitForTasks` starts while a `pushTask` has queued a job but not counted it, a worker can pop
  an empty queue. This can happen if and only if there are at least two workers; one worker is safe
  whatever the client does (`ThreadPool.PopsEmptyIff`).

Four facts about the code that its comments do not mention: undefined opcodes have a table entry
of their own, so that a chunk's 64-bit cost can wrap (the refinement covers this); the processing
order of the metering is a permutation of the blocks but need not be a topological order
(`GasChunks.ChainNotTopological`); the chunk arrays receive the block costs and not the metering;
the assertion made when a string pool is destroyed holds exactly when every symbol that is not
reserved has been released (`StringPool.DestroyedWhenReleased`).

## Model

| member | source | states |
|---|---|---|
| Bytecode.FollowsLinear | src/evm/evm_cache.cpp:32-39 | instruction boundaries decoded from one origin are linearly ordered |
| Bytecode.NoBoundaryInside | src/evm/evm_cache.cpp:32-39 | no instruction starts strictly inside another |
| Bytecode.AfterTerminatorAt | src/evm/evm_cache.cpp:41-62 | a boundary follows a chunk terminator exactly when the instruction before it is one |
| PushDecoding.LoadBeUint256IsBigEndian | src/evm/evm_cache.cpp:103-144 | the limb-wise load is the big-endian number and every limb fits 64 bits |
| PushDecoding.LoadPushValueCorrect | src/evm/evm_cache.cpp:147-167 | a PUSH immediate is big-endian, zero-padded past the end of the code, for every truncation |
| PushDecoding.BuildJumpDestMapAndPushCache | src/evm/evm_cache.cpp:169-188 | a position is a jump destination iff it holds a JUMPDEST outside PUSH data; each PUSH position holds its value and all others 0 |
| GasBlocks.ChunkEndIsStart | src/evm/evm_cache.cpp:277-345 | a chunk ends at the end of the code or at another chunk's start |
| GasBlocks.ChunkInterior | src/evm/evm_cache.cpp:277-345 | inside a chunk only the last instruction ends it and only the first can start one |
| GasBlocks.MarkBlockStarts | src/evm/evm_cache.cpp:285-302 | the marked positions are exactly the chunk starts |
| GasBlocks.ScanBlock | src/evm/evm_cache.cpp:313-339 | one block records exactly the chunk at its start: end, last and previous instruction, cost modulo 2^64 |
| GasBlocks.BuildGasBlocks | src/evm/evm_cache.cpp:277-345 | the blocks tile the instruction stream and the map names the block of each chunk start and nothing else |
| GasBlocks.JumpTargetsStartChunks | src/evm/evm_cache.cpp:277-303 | every legal jump target starts a chunk |
| MemoryGas.ExpansionCostExact | src/evm/opcode_handlers.cpp:213-234 | within 16 MiB no intermediate result wraps and the charge is an exact difference of quadratic costs |
| MemoryGas.MemoryCostRounds | src/runtime/evm_instance.cpp:155-158 | the quadratic term is a 512th of the squared words, rounded down |
| MemoryGas.ExpandExact | src/evm/opcode_handlers.cpp:254-273 | an expansion succeeds iff the gas covers the difference, and leaves the old bytes followed by zeros |
| MemoryGas.CheckExpandExact | src/evm/opcode_handlers.cpp:276-298 | a 256-bit access succeeds iff its range fits the limit and the gas covers the difference |
| MemoryGas.MemoryGasPathIndependent | src/evm/opcode_handlers.cpp:213-298 | a run of accesses succeeds iff the largest one does alone, with the same memory and gas |
| MemoryGas.MemoryGasOrderIrrelevant | src/evm/opcode_handlers.cpp:213-298 | runs that touch the same highest byte cannot be told apart |
| MemoryGas.MemoryGasFromEmpty | src/evm/opcode_handlers.cpp:213-298 | from empty memory the total is the quadratic cost of the final word count, sizes are whole words within the limit, granted ranges are in bounds |
| Semantics.HandleKeepsFrame | src/evm/interpreter.cpp:52-203 | no handler creates gas or breaks the stack and memory limits, and control only goes forward or to a legal target |
| Semantics.ChargedStepProgresses | src/evm/interpreter.cpp:1610-2142 | the termination measure (gas, bytes left) decreases: a taken jump costs gas, every other step advances or halts |
| FrameLaws.StoreReadBack | src/evm/opcode_handlers.cpp:902-905 | reading back the bytes a number is stored as gives the number |
| FrameLaws.ReadStoreBack | src/evm/opcode_handlers.cpp:902-943 | storing the number that bytes write gives the bytes |
| FrameLaws.StoreWrites | src/evm/opcode_handlers.cpp:888-923 | MSTORE and MSTORE8 write the low bytes of the second word, most significant first, at the first word; every other byte and word stays |
| FrameLaws.LoadReads | src/evm/opcode_handlers.cpp:925-944 | MLOAD replaces the offset by the number its 32 bytes write, zeros beyond memory |
| FrameLaws.StoreThenLoad | src/evm/opcode_handlers.cpp:888-944 | after an MSTORE, MLOAD of the same offset gives the stored word, without further cost, until its bytes are written |
| FrameLaws.ReturnOutputs | src/evm/opcode_handlers.cpp:1077-1140 | RETURN and REVERT end the frame with the bytes of the range given by offset and size, in this order |
| FrameLaws.StoreThenReturn | src/evm/opcode_handlers.cpp:888-1140 | a stored word that is returned is the output, most significant byte first |
| FrameLaws.PushPushes | src/evm/interpreter.cpp:75-106 | PUSHn pushes the number its n bytes write and goes past them |
| FrameLaws.DupCopies | src/evm/interpreter.cpp:132-165 | DUPn copies the n-th word from the top and leaves the others |
| FrameLaws.SwapExchanges | src/evm/interpreter.cpp:168-203 | SWAPn exchanges the top with the n-th word below it and leaves the others |
| FrameLaws.AddUndoesSub | src/evm/interpreter.cpp:1638-1657 | subtracting the second word from the first and adding it again gives the first |
| FrameLaws.JumpGoes | src/evm/interpreter.cpp:884-929 | JUMP goes to its operand; JUMPI goes to the first word exactly when the second is not zero; both need a JUMPDEST that is no PUSH data |
| FrameLaws.ReadersPush | src/evm/interpreter.cpp:1994-2007 | PC, MSIZE, GAS and PUSH0 push what they name |
| FrameLaws.PopUndoesPush | src/evm/interpreter.cpp:1908-1912 | POP gives back the stack before a push |
| FrameLaws.PlainHandlerPays | src/evm/interpreter.cpp:361-2142 | an opcode with a plain handler pays its dynamic gas or fails |
| FrameLaws.StoredByteIsReturned | src/evm/opcode_handlers.cpp:888-1140 | the program that stores a byte as a word and returns it outputs that word and is left with exactly the gas beyond its price, or fails |
| ChunkedInterpreter.HandleShiftsGas | src/evm/evm_cache.cpp:41-62 | inside a chunk an opcode's effect does not depend on the gas: more gas is kept unchanged |
| ChunkedInterpreter.ChunkTerminatorsExact | src/evm/evm_cache.cpp:41-62 | apart from INVALID, the opcodes that end a chunk are exactly those that may leave the line or whose effect depends on the gas |
| ChunkedInterpreter.PoorChunkFails | src/evm/interpreter.cpp:1610-2142 | with less gas than the rest of the chunk costs, charging per opcode ends exceptionally |
| ChunkedInterpreter.UndefinedChunkFailsSlow | src/evm/interpreter.cpp:1614-1620 | a chunk with an undefined opcode ahead ends exceptionally when charged per opcode |
| ChunkedInterpreter.UndefinedChunkFailsFast | src/evm/interpreter.cpp:395-546 | the prepaid run of such a chunk ends exceptionally too |
| ChunkedInterpreter.RunChunkAgrees | src/evm/interpreter.cpp:395-546 | the rest of a chunk run prepaid agrees with charging it opcode by opcode |
| ChunkedInterpreter.ChunkEntryAgrees | src/evm/interpreter.cpp:395-400 | paying the cached 64-bit cost and running without charges agrees with per-opcode charging, wrapped costs included |
| ChunkedInterpreter.JumpChunkCosts | src/evm/interpreter.cpp:884-929 | a chunk left by a jump has a positive cost |
| ChunkedInterpreter.ResolvedJumpIsTaken | src/evm/evm_cache.cpp:347-379 | a resolved constant target is the one execution takes, from every frame |
| ChunkedInterpreter.EVMFrame.constructor | src/evm/interpreter.cpp:299-321 | an empty stack, the given gas, and the frame at offset 0 |
| ChunkedInterpreter.EVMFrame.ExecutePush | src/evm/interpreter.cpp:75-106 | pushes the word or reports overflow |
| ChunkedInterpreter.EVMFrame.ExecuteDup | src/evm/interpreter.cpp:132-165 | duplicates the n-th word or reports underflow or overflow |
| ChunkedInterpreter.EVMFrame.ExecuteSwap | src/evm/interpreter.cpp:168-203 | swaps the top with the word n below it or reports underflow |
| ChunkedInterpreter.EVMFrame.ExpandMemoryAndChargeGas | src/evm/opcode_handlers.cpp:254-273 | updates memory and gas as the specification, or changes nothing and reports failure |
| ChunkedInterpreter.EVMFrame.CheckMemoryExpandAndChargeGas | src/evm/opcode_handlers.cpp:276-298 | the same for a 256-bit range, empty ranges included |
| ChunkedInterpreter.EVMFrame.ExecuteMLoad | src/evm/opcode_handlers.cpp:925-945 | loads the big-endian word at the address after expanding |
| ChunkedInterpreter.EVMFrame.ExecuteMStore | src/evm/opcode_handlers.cpp:888-923 | stores 32 bytes or 1 byte at the address after expanding, as the handler whose bytes `FrameLaws.StoreWrites` describes |
| ChunkedInterpreter.EVMFrame.ExecuteReturn | src/evm/opcode_handlers.cpp:1077-1140 | returns or reverts with the bytes of the range after expanding |
| ChunkedInterpreter.EVMFrame.ExecuteJump | src/evm/interpreter.cpp:884-929 | goes to the target iff it is a legal destination |
| ChunkedInterpreter.EVMFrame.DoExecute | src/evm/interpreter.cpp:548-1186 | the frame object does what the handler function says, for every opcode |
| ChunkedInterpreter.EVMFrame.RunPrepaidChunk | src/evm/interpreter.cpp:524-546 | the fast path is the prepaid run of the chunk |
| ChunkedInterpreter.EVMFrame.ChargeAndExecute | src/evm/interpreter.cpp:1610-2142 | the slow path charges one opcode and executes it |
| ChunkedInterpreter.EVMFrame.Dispatch | src/evm/interpreter.cpp:395-400 | one turn of the loop, prepaid or charged, leaves the rest of the per-opcode run unchanged and uses gas or moves forward |
| ChunkedInterpreter.EVMFrame.Interpret | src/evm/interpreter.cpp:361-2142 | the dispatch loop terminates with the outcome of charging every opcode; exceptional halts leave no gas |
| ControlFlow.ComputeReachable | src/evm/evm_cache.cpp:529-557 | a block is marked iff the entry reaches it |
| Cycles.FinishOrder | src/evm/evm_cache.cpp:402-441 | the first pass yields every block once, in a finishing order |
| Cycles.CollectComponent | src/evm/evm_cache.cpp:448-472 | the second pass collects exactly the unassigned blocks that reach the start through unassigned ones |
| Cycles.CollectedIsComponent | src/evm/evm_cache.cpp:448-472 | what is collected from the last unassigned block of the order is its strongly connected component |
| Cycles.OnCycleByComponent | src/evm/evm_cache.cpp:474-491 | a block is on a cycle iff its component has another block or it has a self edge |
| Cycles.ComputeInCycle | src/evm/evm_cache.cpp:399-494 | a block is marked iff it reaches itself by at least one edge |
| Dominators.Meet | src/evm/evm_cache.cpp:589-608 | one recomputed set is the meet over live predecessors and the block itself |
| Dominators.FixpointDominates | src/evm/evm_cache.cpp:559-617 | at an anchored fixpoint a member of the set lies on every entry path |
| Dominators.ExactIff | src/evm/evm_cache.cpp:559-617 | the fixpoint is the dominator relation iff the entry has no reachable predecessor or is alone |
| Dominators.ComputeDominators | src/evm/evm_cache.cpp:559-617 | the iteration ends because sets only shrink; its result is exact iff that condition holds, and full otherwise |
| CriticalEdges.AddEdgeKeeps | src/evm/evm_cache.cpp:202-214 | adding an edge keeps both lists transposed and free of repetition and adds just that edge |
| CriticalEdges.FindCriticalEdges | src/evm/evm_cache.cpp:223-237 | lists exactly the critical edges, each once |
| CriticalEdges.SplitCriticalEdges | src/evm/evm_cache.cpp:219-275 | each splittable critical edge is replaced by a path through an empty block of its own, the lists staying transposed |
| CriticalEdges.CriticalAfterSplit | src/evm/evm_cache.cpp:219-275 | an edge critical afterwards leaves a block that ends the code |
| CriticalEdges.NoCriticalEdgeLeft | src/evm/evm_cache.cpp:219-275 | none is left when branching blocks end inside the code |
| CriticalEdges.ExpandIsPath | src/evm/evm_cache.cpp:219-275 | every original path expands to a path of the split graph with the same ends |
| CriticalEdges.ContractExpand | src/evm/evm_cache.cpp:219-275 | contracting undoes expanding |
| CriticalEdges.ContractPath | src/evm/evm_cache.cpp:219-275 | every split-graph path between original blocks is the expansion of an original path |
| CriticalEdges.ExpandCost | src/evm/evm_cache.cpp:219-275 | corresponding paths cost the same |
| Metering.Lemma614Update | src/evm/evm_cache.cpp:918-967 | moves the least metering of the eligible successors to the block, or nothing in exactly the cases the code gives up |
| Metering.UpdateKeepsBalance | src/evm/evm_cache.cpp:918-967 | an update keeps, for every edge, metering plus what was paid ahead equal to cost plus what is paid ahead |
| Metering.PathBalance | src/evm/evm_cache.cpp:1055-1098 | along every entry path the metered total is the cost plus what is paid ahead |
| Metering.UniformEligibility | src/evm/evm_cache.cpp:918-967 | off the cycles, after splitting, the successors of a reachable block are all eligible or none is |
| Metering.FindBackEdgesUsingDominators | src/evm/evm_cache.cpp:619-636 | lists exactly the successors in a block's dominator set |
| Metering.ConservesWhenStored | src/evm/evm_cache.cpp:949-949 | a balanced metering stored in 64 bits conserves gas iff no reachable block has lost a multiple of 2^64 |
| Metering.ConservesUnlessWrapped | src/evm/evm_cache.cpp:949-949 | with one update per block gas is conserved iff no addition at a reachable block wraps |
| Metering.ShiftMetering | src/evm/evm_cache.cpp:1055-1098 | any sequence of updates off the cycles is exact modulo 2^64 where execution ends or reads the gas; with one update per block no entry path is undercharged, and complete ones are exact, iff no addition at a reachable block wraps; the result is the chain of updates |
| Metering.LoopedEntryUnmetered | src/evm/evm_cache.cpp:1055-1098 | when the entry can be reached again the metering of every reachable block stays its cost |
| Metering.OriginalPathsCharged | src/evm/evm_cache.cpp:1055-1098 | the metering of the split graph charges every complete original path its cost |
| GasChunks.HasDynamicJump | src/evm/evm_cache.cpp:983-994 | true iff the code has a jump that is not directly preceded by a PUSH of a legal destination |
| GasChunks.ResolvedIff | src/evm/evm_cache.cpp:347-379 | a block's jump is resolved to d iff the instruction right before it pushes the legal destination d |
| GasChunks.ResolvedIffNoneDynamic | src/evm/evm_cache.cpp:983-994 | every jump is resolved iff the code has no jump that is not directly preceded by a PUSH of a legal destination |
| GasChunks.BuildCfg | src/evm/evm_cache.cpp:1024-1053 | the edges are exactly the fall-throughs and resolved jumps, lists transposed and free of repetition |
| GasChunks.CfgFromCode | src/evm/evm_cache.cpp:1024-1053 | the edges in terms of the code alone: to the next instruction unless control ends, and to the destination pushed right before a jump |
| GasChunks.BranchEndsInside | src/evm/evm_cache.cpp:1024-1053 | a block with two successors ends inside the code |
| GasChunks.ComputeReverseTopo | src/evm/evm_cache.cpp:647-692 | the order contains every block exactly once; it is, for each block in turn that is not ordered yet, its successors not ordered yet and then the block |
| GasChunks.VisitAfterSuccessors | src/evm/evm_cache.cpp:647-692 | a block the order was extended from comes after all its successors but those over back edges |
| GasChunks.ChainNotTopological | src/evm/evm_cache.cpp:647-692 | a block ordered as a successor need not: a chain of three is ordered 1, 0, 2 |
| GasChunks.MeterGraph | src/evm/evm_cache.cpp:1055-1098 | the metering of a graph without critical edges is one update per block off the cycles, in the code's order and with the back edges of the dominator sets; it conserves gas iff no addition at a reachable block wraps |
| GasChunks.ComputeMetering | src/evm/evm_cache.cpp:1024-1098 | graph, splitting and metering together: exactly the critical edges are split, every block off the cycles is updated once, and gas is conserved along every path, modulo 2^64 for all code, as numbers iff no addition at a reachable block wraps, and always for code without undefined opcodes |
| GasChunks.DefinedCostsFit | src/evm/evm_cache.cpp:1078-1098 | the costs of code without undefined opcodes add up to less than 2^64, so its metering never wraps |
| GasChunks.WriteChunks | src/evm/evm_cache.cpp:1172-1182 | each chunk's end and cost at its start, zero elsewhere |
| GasChunks.BuildGasChunksSPP | src/evm/evm_cache.cpp:969-1185 | the chunk arrays hold exactly that on both ways through the function |
| GasChunks.BuildBytecodeCache | src/evm/evm_cache.cpp:1189-1205 | the whole cache describes its code |
| GasChunks.Execute | src/evm/interpreter.cpp:361-2142 | building the cache and interpreting with prepaid chunks gives the outcome of charging every opcode |
| GasChunks.BlockStepFollowsEdge | src/evm/evm_cache.cpp:1024-1053 | with all jumps resolved a block is left only along an edge of the graph |
| GasChunks.RunsFollowCfg | src/evm/evm_cache.cpp:1024-1053 | the blocks an execution runs through form a path of the graph from its entry |
| GasChunks.RunsAreMetered | src/evm/evm_cache.cpp:1055-1098 | every execution that stops at a settling block is metered exactly the cost of its blocks |
| GasExamples.WrappedMeteringUndercharges | src/evm/evm_cache.cpp:949-949 | PC, JUMPDEST and three undefined opcodes have block costs 2 and 2^64 - 2; every metering of them is 0 and 0, which undercharges |
| GasExamples.MeterWrapping | src/evm/evm_cache.cpp:969-1098 | the analysis, from the bytes of that program, returns that metering |
| GasExamples.LoopingEntryInexact | src/evm/evm_cache.cpp:559-636 | JUMPDEST, JUMPDEST, PUSH1 0, JUMP: both sets are full and the edge into the second block counts as a back edge, though the second block does not dominate the first |
| GasExamples.ExecuteStoreAndReturn | src/evm/interpreter.cpp:361-2142 | loading and running the program that stores a byte and returns it gives that output and that gas |
| StorageGas.WriteMovesPotential | src/evm/gas_storage_cost.cpp:49-87 | one write moves cost minus refund by a warm access and the change of a potential |
| StorageGas.SstoreIsNetRule | src/evm/gas_storage_cost.cpp:68-84 | cost and refund of a write are the rule of EIP-2200, for every original, current and new value |
| StorageGas.SstoreIsLegacyRule | src/evm/gas_storage_cost.cpp:57-67 | in the other revisions only writing a value over zero costs more and only writing zero over a value earns |
| StorageGas.ScheduleRelations | src/evm/gas_storage_cost.cpp:22-43 | which revisions are net-cost, and how their amounts follow from EIP-2929 and EIP-3529 |
| StorageGas.NetMeteringTelescopes | src/evm/gas_storage_cost.cpp:29-87 | over any writes to a slot, cost minus refund is n warm accesses plus a potential of original and final value |
| StorageGas.TelescopesIffNetCost | src/evm/gas_storage_cost.cpp:22-46 | the law holds of exactly the net-cost revisions |
| StorageGas.RestoredSlotCostsWarmAccesses | src/evm/gas_storage_cost.cpp:71-87 | writing and restoring a slot costs one warm access a write, net |
| StorageGas.RunningRefundNonNegative | src/evm/opcode_handlers.cpp:839-851 | a slot's running refund is never negative |
| CallGas.UpfrontIsBill | src/evm/opcode_handlers.cpp:1252-1351 | the charges before a call go through iff the itemised bill (cold access, delegation, memory, value, new account) is covered and both ranges fit, and leave exactly the rest |
| CallGas.BillItems | src/evm/opcode_handlers.cpp:1286-1351 | the items of the bill and when each is due |
| CallGas.CallAddsNoGas | src/evm/opcode_handlers.cpp:1252-1440 | a call never leaves the caller with more gas than it had, stipend included |
| CallGas.PostCallChargeCannotFail | src/evm/opcode_handlers.cpp:1338-1440 | once the upfront charges and the request are met the charge after the call succeeds, and from Tangerine Whistle the caller keeps a 64th |
| CallGas.CalleeGasExact | src/evm/opcode_handlers.cpp:1353-1366 | from Tangerine Whistle the callee gets, besides the stipend, the most that is neither above the request nor touches the 64th; before, the request, and the call fails iff it is more than there is |
| CallGas.CalleeGasOf64Bits | src/evm/opcode_handlers.cpp:1353-1366 | the same with the request as the program made it, for gas that fits 64 bits |
| CallGas.CallFailsIff | src/evm/opcode_handlers.cpp:1286-1361 | the three cases in which a call fails |
| CallGas.LightFailureIff | src/evm/opcode_handlers.cpp:1363-1381 | a call is not made iff the value is not covered or the calls are too deep; the caller keeps the stipend |
| CallGas.CallEffect | src/evm/opcode_handlers.cpp:1383-1440 | the host gets the input bytes, as much of its output as fits is copied and no other byte changes, and the caller gets back what is left, at most what it gave |
| CallGas.CallConservesGas | src/evm/opcode_handlers.cpp:1338-1440 | what the caller has left and what the callee consumed add up to what there was |
| CallGas.CreateAddsNoGas | src/evm/opcode_handlers.cpp:1142-1250 | creation adds no gas and from Tangerine Whistle leaves the creator a 64th |
| CallGas.CreateUpfrontIsBill | src/evm/opcode_handlers.cpp:1142-1200 | the charges before a creation, item by item, and the size limit |
| CallGas.CreateEffect | src/evm/opcode_handlers.cpp:1142-1250 | the host gets the init code and all the gas but a 64th; a creation is not made iff too deep or not covered |
| CallGas.CreateFailsIff | src/evm/opcode_handlers.cpp:1142-1200 | a creation fails iff in static mode or its charges are not covered |
| CallGas.CallHandlerKeepsFrame | src/evm/opcode_handlers.cpp:1252-1440 | a call handler adds no gas, keeps the memory well sized and replaces its operands by one word |
| CallGas.CallHandlerOperands | src/evm/opcode_handlers.cpp:1271-1284 | the order of the operands on the stack, and where the success flag goes |
| CallGas.CallsAreValid | src/evm/opcode_handlers.cpp:1252-1440 | any environment the interpreter's theorems are about stays one when its four call opcodes are these handlers |
| CallFrames.StepKeepsValid | src/runtime/evm_instance.cpp:112-146 | every operation keeps buffers well formed and the message, memory and refund stacks matched in depth |
| CallFrames.ParkedFramesUntouched | src/runtime/evm_instance.cpp:112-146 | while a run stays at or above a depth, everything parked below is untouched |
| CallFrames.NestedCallRestoresCaller | src/runtime/evm_instance.cpp:112-146 | whatever runs between a push and its matching pop, the caller's memory and everything below come back byte for byte, and so do suspended gas and refund snapshots |
| CallFrames.RefundIsEarned | src/runtime/evm_instance.cpp:130-135 | without a rollback the refund is what was earned: no push or pop changes it |
| CallFrames.RollbackForgets | src/runtime/evm_instance.h:76-80 | a rollback returns to the refund at the push of the active message, whatever ran since |
| CallFrames.NestedCallRefund | src/runtime/evm_instance.cpp:125-146 | a nested call that succeeds keeps what it earned, one that rolls back before it is popped earns nothing |
| CallFrames.CalleeStartsEmpty | src/runtime/evm_instance.cpp:112-123 | a message starts with no memory in use, its own gas and the refund as it is |
| CallFrames.TwoRangesAsSequential | src/runtime/evm_instance.cpp:256-283 | growing once for two ranges succeeds, charges and grows as growing for each in turn |
| CallFrames.ExpandsToVisible | src/runtime/evm_instance.cpp:209-222 | an expansion of the instance is the interpreter's expansion of what the program sees, new bytes reading zero |
| CallFrames.EVMInstance.constructor | src/runtime/evm_instance.cpp:69-110 | an instance without frames |
| CallFrames.EVMInstance.PushMessage | src/runtime/evm_instance.cpp:112-123 | parks the caller's memory and starts an empty one, with no buffer shared |
| CallFrames.EVMInstance.PopMessage | src/runtime/evm_instance.cpp:125-146 | gives back the parked memory and the caller's gas, and keeps the refund |
| CallFrames.EVMInstance.AddGasRefund | src/runtime/evm_instance.h:73-73 | adds to the refund and changes nothing else |
| CallFrames.EVMInstance.RestoreGasRefundSnapshot | src/runtime/evm_instance.h:76-80 | is the rollback of the machine |
| CallFrames.EVMInstance.ChargeGas | src/runtime/evm_instance.cpp:285-300 | charges instance and message alike, or fails and changes nothing |
| CallFrames.EVMInstance.ExpandMemory | src/runtime/evm_instance.cpp:209-222 | charges and grows; a reused buffer shows zeros in the new part |
| CallFrames.EVMInstance.Grow | src/runtime/evm_instance.cpp:209-237 | allocates if need be and clears exactly the newly used part |
| CallFrames.EVMInstance.ExpandMemoryChecked | src/runtime/evm_instance.cpp:239-254 | the overflow and size checks of one range |
| CallFrames.EVMInstance.ExpandMemoryChecked2 | src/runtime/evm_instance.cpp:256-283 | two ranges checked together and grown once |
| Prechecks.ParsePushConstU64 | src/action/evm_bytecode_visitor.h:1225-1240 | the big-endian value of an immediate of at most eight bytes, or none if it is cut off |
| Prechecks.AnalyzeConstDirectMemoryBlockPrecheck | src/action/evm_bytecode_visitor.h:1401-1633 | the plan is the number of accesses of the scanned block and their largest need, eligible iff the block is understood and has two |
| Prechecks.StackStepSound | src/action/evm_bytecode_visitor.h:1417-1561 | the abstract stack describes the real one after every stack instruction |
| Prechecks.DirectStepSound | src/action/evm_bytecode_visitor.h:1562-1618 | a planned access is the one made, and what it needs decides whether it goes through |
| Prechecks.AccessesArePlanned | src/action/evm_bytecode_visitor.h:1401-1633 | from every entry stack an execution makes the planned accesses in order, all of them if it completes |
| Prechecks.CompletedRunPaid | src/evm/opcode_handlers.cpp:213-273 | a completed block has grown memory to the largest need and paid exactly the difference |
| Prechecks.PrecheckSoundFrom | src/compiler/evm_frontend/evm_mir_compiler.cpp:6015-6045 | without an early MSIZE one expansion gives the same frame as one per access, or both fail |
| Prechecks.ConstPrecheckSound | src/action/evm_bytecode_visitor.h:1401-1633 | every access of an execution stays within the plan's size and the plan's count counts them; the precheck is sound without an early MSIZE |
| Prechecks.PrecheckTransparentIff | src/compiler/evm_frontend/evm_mir_compiler.cpp:6015-6045 | the precheck is transparent for all frames iff no MSIZE comes early, or no execution can complete |
| Prechecks.EarlyMsizeIsVisible | src/action/evm_bytecode_visitor.h:1619-1621 | an eligible block whose MSIZE reads 64 instead of 32 |
| Prechecks.TerminatorsAgree | src/action/evm_bytecode_visitor.h:1205-1209 | the compiler's blocks end where the cache says that control ends, and at JUMPI |
| PrecheckPrecision.CleanIsUnderstood | src/action/evm_bytecode_visitor.h:1401-1633 | a block that runs with every address a constant in 64 bits is understood: the analyser does not give up on it |
| PrecheckPrecision.ConstantBlockIsPlanned | src/action/evm_bytecode_visitor.h:1401-1633 | from an empty stack the plan of such a block is exactly the accesses it makes |
| LinearPrechecks.ConsumeZeroPush | src/action/evm_bytecode_visitor.h:1253-1280 | accepts exactly the uncut PUSH0 to PUSH8 that push zero |
| LinearPrechecks.ConsumeLinearRecurrencePrefix | src/action/evm_bytecode_visitor.h:1282-1296 | accepts exactly an optional JUMPDEST, a zero push, CALLDATALOAD and a zero push |
| LinearPrechecks.CountMotifs | src/action/evm_bytecode_visitor.h:1306-1325 | counts the copies of the motif that fill the block, or rejects it |
| LinearPrechecks.AnalyzeLinearDirectMemoryBlockPrecheck | src/action/evm_bytecode_visitor.h:1298-1389 | a plan is returned iff the block is the prefix and at least two copies of one of the two motifs |
| LinearPrechecks.LinearBlockAccesses | src/action/evm_bytecode_visitor.h:1282-1399 | the i-th access has address i times the stride modulo 2^256 and finds the stride in the planned slot, for every number of copies |
| LinearPrechecks.LinearPrecheckSound | src/compiler/evm_frontend/evm_mir_compiler.cpp:6047-6111 | one expansion to the last address plus 32 gives the same result as one per access, for every frame and stride |
| Interning.RunKeepsUnique | src/common/const_string_pool.cpp:252-369 | at no time do two live symbols have one string |
| Interning.SymbolLifetime | src/common/const_string_pool.cpp:252-369 | a symbol keeps its string and counts its references exactly until its releases match its acquisitions |
| Interning.SymbolEnds | src/common/const_string_pool.cpp:312-364 | it is dead as soon as they match |
| Interning.ReservedLifetime | src/common/const_string_pool.cpp:26-31 | reserved symbols never change |
| Interning.EqualIffSameString | src/common/const_string_pool.cpp:252-369 | a held symbol and a newly acquired one are equal iff their strings are |
| HashChains.Push | src/common/const_string_pool.cpp:294-302 | an entry put in front of its chain: every chain still holds exactly the members of its bucket |
| HashChains.Unlink | src/common/const_string_pool.cpp:328-348 | an entry taken out of its chain: the same |
| HashChains.MoveEntry | src/common/const_string_pool.cpp:384-391 | an entry moved to the new table during a rehash: the same for what has been moved |
| StringPool.GetStringHash | src/common/const_string_pool.cpp:170-179 | the loop is FNV-1a over 32 bits |
| StringPool.HashVectors | src/common/const_string_pool.cpp:170-179 | the published FNV-1a values of three strings |
| StringPool.ConstStringPool.constructor | src/common/const_string_pool.h:29-37 | an uninitialised pool |
| StringPool.ConstStringPool.ProbeSymbol | src/common/const_string_pool.cpp:181-196 | finds the symbol of a string iff it has one |
| StringPool.ConstStringPool.FindAndHoldSymbol | src/common/const_string_pool.cpp:198-206 | the same, with one more reference unless reserved |
| StringPool.ConstStringPool.ResizeEntriesArray | src/common/const_string_pool.cpp:109-168 | grows by half within the limit, the new slots forming the free list and the recycle list dropped, or changes nothing |
| StringPool.ConstStringPool.ResizeHashTbl | src/common/const_string_pool.cpp:371-399 | every live entry is in the chain of its new bucket and only links have changed |
| StringPool.ConstStringPool.Insert | src/common/const_string_pool.cpp:280-309 | takes the first free slot, never a live one, and links the entry |
| StringPool.ConstStringPool.NewSymbolInit | src/common/const_string_pool.cpp:208-250 | adds a name that is new, rejects one that is there |
| StringPool.ConstStringPool.InitPool | src/common/const_string_pool.cpp:33-69 | succeeds iff the names are distinct (and there is memory), which become symbols 1, 2 and so on |
| StringPool.ConstStringPool.DestroyPool | src/common/const_string_pool.cpp:71-92 | leaves an uninitialised pool, and tells whether the asserted reference counts were met |
| StringPool.DestroyedWhenReleased | src/common/const_string_pool.cpp:79-80 | in a valid pool the asserted counts are met iff no symbol is live but the reserved ones |
| StringPool.Inserted | src/common/const_string_pool.cpp:280-309 | writing an entry in the first free slot and linking it keeps entries, chains, lists and counts consistent |
| StringPool.ConstStringPool.NewSymbol | src/common/const_string_pool.cpp:252-310 | is an acquiring step; fails iff there is no table, or the string is new, no slot is free and the array cannot grow; loses slots iff it grows while slots wait to be recycled, both in terms of the state before |
| StringPool.ConstStringPool.FreeSymbolInternal | src/common/const_string_pool.cpp:312-364 | is a releasing step; the last release recycles the slot |
| StringPool.ConstStringPool.FreeSymbol | src/common/const_string_pool.cpp:366-369 | the same, reserved symbols left alone |
| StringPool.ConstStringPool.DumpSymbolString | src/common/const_string_pool.cpp:400-414 | the string of a live symbol, none for a dead one or an index out of range |
| StringPool.ReplayCall | src/common/const_string_pool.cpp:252-369 | one client call is one step of the interning machine, with the event the call prescribes, or releases nothing |
| StringPool.Replay | src/common/const_string_pool.cpp:252-369 | any sequence of calls is a run of the interning machine whose events are those of the calls, in order and without omissions |
| StringPool.LoseSlot | src/common/const_string_pool.cpp:275-279 | for any reserved names, filling the array, releasing a symbol and interning another string leaves a slot that is neither live nor on a list |
| WasmCode.ScanOver | src/action/interpreter.cpp:338-585 | a scan passes over a whole body at unchanged depth and without recording its ELSEs |
| WasmCode.MatchingOf | src/action/interpreter.cpp:338-585 | the scan of a block, loop or one-armed if finds its END and no ELSE |
| WasmCode.MatchingOfElse | src/action/interpreter.cpp:338-585 | the scan of a two-armed if finds its ELSE and its END |
| WasmControl.TypedStep | src/action/interpreter.cpp:1173-1241 | typed structured code never gets stuck and stays typed |
| WasmControl.AtOuter | src/action/interpreter.h:103-122 | the control stack holds, for every enclosing label, where it ends or begins again |
| WasmControl.BranchStep | src/action/interpreter.h:103-122 | a branch leaves the same blocks and keeps the same operands as in the structured machine |
| WasmControl.BranchKeepsTop | src/action/interpreter.h:103-122 | a branch keeps the cells below its label and, unless it is a loop's, its results from the top of the stack, cell by cell; it gets stuck iff they are not there |
| WasmControl.EndKeepsTop | src/action/interpreter.cpp:2071-2074 | falling off the end of a block does the same |
| WasmControl.ReturnKeepsTop | src/action/interpreter.cpp:1995-2009 | a function returns its results from the top of the stack |
| WasmControl.PlainReplacesTop | src/action/interpreter.cpp:1242-1994 | another instruction replaces its operands, the top of the stack in order, by its results |
| WasmControl.ConditionalBranches | src/action/interpreter.cpp:1191-1218 | a conditional or indexed branch is, its operand popped, a branch or no instruction |
| WasmControl.IfIsBlock | src/action/interpreter.cpp:1219-1237 | an if is, its condition popped, a block with the chosen arm |
| WasmControl.EndStep | src/action/interpreter.cpp:2071-2074 | END leaves a block, ELSE goes to the END of its block |
| WasmControl.StmtStep | src/action/interpreter.cpp:1173-1241 | every other step is a step of the structured machine |
| WasmControl.FlatRefinesStructured | src/action/interpreter.cpp:1173-1241 | in any number of steps the flat machine meets the same instructions with the same operand stacks and ends the same way, its control stack describing exactly the enclosing labels |
| WasmControl.FunctionRefines | src/action/interpreter.cpp:1149-1241 | the same for a whole function, and one machine halts iff the other does |
| WasmInterpreter.BaseInterpreter.constructor | src/action/interpreter.cpp:1149-1150 | a function starts with one control entry, for itself |
| WasmInterpreter.BaseInterpreter.FindBlockAddr | src/action/interpreter.cpp:326-590 | returns what a fresh scan finds, every cached entry (nested blocks included) being what a fresh scan from its start finds |
| WasmInterpreter.BaseInterpreter.BlockPush | src/action/interpreter.h:90-99 | pushes one control entry |
| WasmInterpreter.BaseInterpreter.BlockPopInner | src/action/interpreter.h:101-101 | pops the innermost control entry and leaves the operands |
| WasmInterpreter.BaseInterpreter.BlockPop | src/action/interpreter.h:103-122 | keeps the label's entry, goes to its address and moves its results from the top of the stack down to its base, cell by cell |
| WasmInterpreter.BaseInterpreter.Step | src/action/interpreter.cpp:1161-1241 | one instruction does what the flat machine does and keeps the cache right |
| WasmInterpreter.Interpret | src/action/interpreter.cpp:1123-2083 | a well-typed function run for any number of instructions returns, traps or goes on as its structure prescribes |
| ThreadPool.WorkNeverPopsEmpty | src/common/thread_pool.h:107-116 | a worker past the wait never finds the queue empty |
| ThreadPool.WorkKeepsInv | src/common/thread_pool.h:100-136 | every worker step keeps the invariant |
| ThreadPool.ZeroMeansFinished | src/common/thread_pool.h:88-88 | a zero counter with every push counted means every job is finished |
| ThreadPool.WaitKeepsInv | src/common/thread_pool.h:82-92 | every step of the wait keeps the invariant |
| ThreadPool.StepKeepsInv | src/common/thread_pool.h:62-138 | every atomic step of any thread keeps the invariant and none pops an empty queue |
| ThreadPool.ReturnedIsDone | src/common/thread_pool.h:82-92 | when the wait has returned every job ran once, none is queued or under way, and every tail job ran |
| ThreadPool.PoolIsSafe | src/common/thread_pool.h:62-138 | in every interleaving no job runs twice, a worker does nothing after its tail job, no empty queue is popped, and the wait returns only when all is done |
| ThreadPool.OrderlyIsSafe | src/common/thread_pool.h:62-138 | no sequence of actions of a client that waits after its pushes are counted pops an empty queue |
| ThreadPool.AloneIsSafe | src/common/thread_pool.h:100-136 | with at most one worker none does, whatever the client |
| ThreadPool.PopsEmptyIff | src/common/thread_pool.h:62-69 | from a new pool an empty pop can be reached iff there are two workers or more and the wait may overlap the counting of a push |
| ThreadPoolProgress.WorkLeaves | src/common/thread_pool.h:104-106 | a worker leaves only when no job is coming and none is queued |
| ThreadPoolProgress.RunKeepsSteady | src/common/thread_pool.h:62-138 | in every run of a client that pushes nothing after announcing the last job, no worker has left while a job was queued, and every job is queued, in hands or finished |
| ThreadPoolProgress.SomeoneCloser | src/common/thread_pool.h:82-138 | until the wait has returned some thread can take a step that brings the end closer |
| ThreadPoolProgress.PoolCanFinish | src/common/thread_pool.h:62-138 | no such run gets stuck: from each of its states the threads can go on so that every job is executed and the wait returns |
| ThreadPoolProgress.LateJobStrands | src/common/thread_pool.h:62-69 | a job pushed when every worker has left is never executed and the wait cannot return |
| ThreadPoolProgress.BrokenWordStrands | src/common/thread_pool.h:71-71 | a client that pushes after the announcement can bring that about |

## Left out

- CallFrames.EVMInstance.PushMessage: a null message, which the source gives no gas, and a message that is already on the stack are excluded; the callers push a fresh message of their own.
- WasmInterpreter.BaseInterpreter.FindBlockAddr: code that is not well nested from the start address is excluded, as the loader rejects it; the source then returns without setting its results.
- StringPool.ConstStringPool.DumpSymbolString: symbol 0 and symbols of 2^31 and above are excluded, because the source reads outside the entry or the array for them.
- StringPool.ConstStringPool.FreeSymbol: a symbol beyond the slot array is excluded, because the source does not check the index.
- StringPool.ConstStringPool.FreeSymbolInternal: the same, and reserved symbols, which its only caller keeps from it.
- StringPool.ConstStringPool.InitPool: 211 reserved names or more are excluded, because the source adds them without growing the slot array; its list is fixed and shorter.
- The loop half of the SPP method (`buildLoopsUsingDominance`, fast-forwarding): it does not reach the output arrays.
- Bit sets are sets, and the bit mask of the hash table (a power of two) is a remainder.
- Host calls, keccak, account, block and log opcodes, storage contents, MCOPY and the copy opcodes are parameters of the interpreter (any handler that keeps the frame's limits and creates no gas).
- The EVMC name and metrics tables are parameters; STOP free, jumps not free and defined opcodes not negative are assumed of them.
- Gas and program counters are unbounded naturals, except where the source stores 64-bit or 16-bit values that can wrap; code size is below 2^32 - 256.
- Reference counts and the size computations of the string pool do not wrap; their overflow takes more entries or references than the size limit admits or memory holds.
- Failing allocation is modelled for the slot array of the string pool only; elsewhere the source asserts success.
- The encoding of Wasm opcodes and immediates: an instruction carries its length, and the loader's checks (nesting, types) are the assumption of the Wasm theorems.
- Wasm calls and all other Wasm operators are parameters with fixed numbers of operands and results; the copy of branch results between overlapping ranges is taken to copy.
- The capacity of the Wasm control and operand stacks, which the source asserts.
- Notification and fairness in the thread pool: a sleeping thread may wake at any time, and what is proved is that it can finish, not that it must. `interrupt`, `reset` and a second wait.
- The lowering of prechecks to machine code, stack lifting and everything else in the compiler.
- Module loading, the C API, the command line, native calls and signal handling: plumbing with easy members only.
