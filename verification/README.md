# GPGPU-Sim with data compression: verified models

This project models nine parts of a GPU simulator and proves what they promise.  Each part is one
group of files; `dafny verify dfyconfig.toml` checks all of it.

- **Control flow and the SIMT stack** (`ControlFlow`, `PtxIr`, `Ordering`, `SimtStack`,
  `SimtSplit`, `SimtExecution`, `SimtTheorems`, `BlockExpansion`).  Dominators and postdominators by set
  iteration, against the definition over all paths; then the reconvergence stack of a warp over the
  instructions of the blocks, with what assembly computes for them.  The main theorem: whatever a
  warp does in lockstep, every lane is where it would be had it run alone, no live lane is lost, the
  warp finishes when its lanes do, and the stack stays below twice the warp size.
- **Memory coalescing** (`Coalescer`, `WarpInst`, `CoalescingTheorems`, `CoalescedLanes`).  Grouping
  of lanes into segments, first-fit splitting of conflicting atomics, and shrinking of each
  transaction: covering, minimal, conflict-free and with the fewest transactions possible.
- **DRAM** (`DelayQueue`, `DelayLatency`, `FrFcfs`, `DramModel`, `DramTiming`, `DramBurst`,
  `DramRuns`, `DramAnswers`, `DramProgress`, `DramService`, `DramWork`, `DramDrain`, `DramLiveness`,
  `DramLone`, `Dram`).  The fixed-latency queue as a linked list, the FR-FCFS scheduler with its
  two indexes, and the bank state machine.  Over every run of arrivals, cycles and answers the
  commands obey the timing rules and hit open rows, each serves the request of its bank, every request
  is answered once and freed when nothing refers to it, answers come out in the order in which
  requests finish, and once no more arrive all are answered within a bounded number of cycles.
- **Address decoding** (`Bits`, `AddrDec`, `AddressMapping`).  Bit packing, the division path for
  channel counts that are no powers of two, and the setting up of the masks; the pair of
  sub-partition and partition address never aliases, with the exact limit.
- **Paged memory** (`Blocks`, `PagedMemory`) against a flat array of bytes.
- **Streams** (`StreamModel`, `StreamRuns`, `StreamRefusal`, `StreamDrain`, `GpuSim`,
  `StreamManager`).  Host threads, the GPU thread and the ends of kernels as interleaved steps, with
  the GPU's slots for concurrent kernels: order, exclusion, progress and when a kernel is stuck.
- **Data remapping, subgroup operations and mantissa rounding** (`DataRemap`, `RemapPlaces`,
  `Remapper`, `SubgroupOps`, `SubgroupChoice`, `SubgroupCost`, `SubgroupLoops`, `Rounding`).

Code that changes objects or vectors in place is modelled by classes and array methods whose
contracts equate the new state with a function of the old one; the theorems are about those
functions.  Masks of bits and of lanes are sets of positions.  Bytes are numbers from 0 to 255, and
masking and shifting by constants are remainders and quotients of powers of two.  32-bit words that
can overflow are cut off explicitly (block addresses, sub-partition numbers, ends of pages, mantissas).

## What the code does not do

In these places a property one would expect is false of the code.  The model keeps the code's
behaviour, and a lemma or contract states exactly when the property holds.

- Block addresses of the coalescer are kept in 32 bits, so an access covers its lane's bytes exactly
  for addresses below 2^32 (`CoalescingTheorems.AccessCoversRequest`).  The lanes' addresses that the
  functional model computes are 32-bit words themselves, so only the 64-bit type of the setter lets a
  larger one in.
- Lanes beyond a whole number of equal warp parts are not coalesced at all, and no others
  (`CoalescingTheorems.PlainLanesServed`, `CoalescingTheorems.LastLaneIsSkipped`); of atomics that is
  the last lane of an odd warp (`CoalescingTheorems.AtomicLanesServed`).
- The final assertion of the immediate dominators fails exactly when the entry block has a
  predecessor (`PtxIr.FunctionInfo.FindIdominators`, `PtxIr.LoopAtEntry`).
- A stack update parks a lane at a wrong pc exactly when the warp splits, is told to reconverge
  elsewhere than its top entry, and one path has arrived at that entry's reconvergence pc
  (`SimtExecution.EveryLaneFindsItsPc`, `SimtExecution.ParkedLane`).  Immediate postdominators rule
  this out inside a function, and the assertion on dominators rules it out for branches that
  reconverge only at the exit (`BlockExpansion.AssembledIsProgram`).
- Rounding that leaves the 23 bits of the mantissa makes it 0 without a carry into the exponent
  (`Rounding.ErrorIsHalfAStep`, `Rounding.CarryIsLost`).
- Remapping on nibbles loses one nibble of a segment exactly when the segment has an odd number of
  bytes (`DataRemap.RemappingIsInjective`, `DataRemap.OddSegmentLosesANibble`).
- A subgroup is not always rewritten by the cheapest operation that keeps it, exactly if its nibbles
  reach from 5 to 8, are 7 and 8, or reach from 7 to 11 (`SubgroupCost.CheapestIsChosen`).
- The end of the last page of the 32-bit space is 0 in a 32-bit word, so reads that touch it throw
  (`PagedMemory.Memory.Read`); writes to it work.  Writes whose length does not fit in the first page
  and in a 32-bit word are cut or stop the program (`PagedMemory.Memory.Write`).
- Sub-partition numbers wrap when there are more than 2^32 of them (`AddrDec.AliasesOnlyOnWrap`,
  `AddressMapping.ManyChannelsAlias`).
- A kernel that is started while every slot of the GPU is taken stays pending for ever.  That can
  happen only on streams other than zero, and only if there are more of these than slots
  (`StreamRefusal.RefusedOverRuns`, `StreamRefusal.RefusalIsReachable`).
- Where blocks cannot reach the exit, the assertions on immediate postdominators fail only if there is
  just one such block and the others are not on one line; two or more pass and get each other
  (`PtxIr.FunctionInfo.FindIpostdominators`, `PtxIr.EndlessLoop`).
- If writes have the longer latency, the data pipeline is full for ever after the first write and no
  read or write follows; otherwise it never holds a command back while the return queue has room
  (`DramProgress.FirstWriteIsTheLast`, `DramProgress.PipelineNeverWaits`).

## Model

| member | source | states |
|---|---|---|
| ControlFlow.FixpointIsExact | src/cuda-sim/ptx_ir.cc:609-638 | any sets between the true ones and all blocks that the meet over successors leaves unchanged are exactly the blocks on every path to the root |
| ControlFlow.FixpointIsSoundOnPath | src/cuda-sim/ptx_ir.cc:626-631 | along any path to the root a fixpoint never holds a block that the path avoids |
| ControlFlow.MeetKeepsComplete | src/cuda-sim/ptx_ir.cc:625-635 | recomputing one block's set never drops a block that is on every path |
| ControlFlow.StrictOnesFormAChain | src/cuda-sim/ptx_ir.cc:640-681 | of two strict postdominators of a block one is on every path from the other |
| ControlFlow.Antisymmetric | src/cuda-sim/ptx_ir.cc:640-681 | two blocks that are on each other's every path are the same |
| ControlFlow.ClosestExists | src/cuda-sim/ptx_ir.cc:658-660 | a block other than the root that reaches it has a closest strict postdominator |
| ControlFlow.ClosestIsUnique | src/cuda-sim/ptx_ir.cc:671-677 | and only one |
| ControlFlow.DominatesForwards | src/cuda-sim/ptx_ir.cc:571-607 | what is on every predecessor path back to the entry is on every successor path from the entry: the dominator sets mean domination |
| PtxIr.UpdateDescends | src/cuda-sim/ptx_ir.cc:619-637 | storing a changed set keeps all sets between the true ones and the start, and strictly lowers their total size: the change loop terminates |
| PtxIr.Intersect | src/cuda-sim/ptx_ir.cc:538-550 | erasing in place leaves the intersection |
| PtxIr.IsEqual | src/cuda-sim/ptx_ir.cc:552-560 | true exactly for equal sets |
| PtxIr.MeetOverNeighbours | src/cuda-sim/ptx_ir.cc:625-631 | all blocks cut down by every neighbour's set, and the block itself |
| PtxIr.FunctionInfo.FindPostdominators | src/cuda-sim/ptx_ir.cc:609-638 | each block's set is exactly the blocks on every path from it to the exit, for any graph |
| PtxIr.FunctionInfo.FindDominators | src/cuda-sim/ptx_ir.cc:571-607 | the same on predecessors from the entry; blocks without predecessors other than the entry end with no dominators |
| PtxIr.FunctionInfo.Prune | src/cuda-sim/ptx_ir.cc:654-667 | the nested erasing loops leave exactly the candidate, if there is one, that has all others in its set and is in none before it; where sets are transitive each candidate is in the set of one that is left |
| PtxIr.FunctionInfo.EraseOthers | src/cuda-sim/ptx_ir.cc:657-666 | one candidate erases exactly the others in its own set |
| PtxIr.FunctionInfo.ClosestSurvives | src/cuda-sim/ptx_ir.cc:654-667 | for a block that reaches the exit that candidate is the closest strict postdominator |
| PtxIr.FunctionInfo.StuckIsPruned | src/cuda-sim/ptx_ir.cc:654-667 | for a block that cannot reach the exit: the first other such block is left alone; where there is no other, one candidate is left exactly if all other blocks are on every path from one of them |
| PtxIr.FunctionInfo.FindIpostdominators | src/cuda-sim/ptx_ir.cc:640-681 | in any graph: each block that reaches the exit gets its unique closest strict postdominator, one of several that do not gets the first other, and both assertions fail only if just one block does not and the others are not all on every path from one of them |
| PtxIr.FunctionInfo.FindIdominators | src/cuda-sim/ptx_ir.cc:683-725 | each block reachable from the entry gets its closest strict dominator, in any graph, and the final assertion holds exactly when the entry has no predecessor |
| PtxIr.LoopAtEntry | src/cuda-sim/ptx_ir.cc:683-725 | the assertion fails for a function of three blocks whose entry is the head of a loop |
| PtxIr.EndlessLoop | src/cuda-sim/ptx_ir.cc:609-725 | a function that falls into an endless loop passes every assertion, and the blocks that cannot reach the exit are each other's immediate postdominator |
| BlockExpansion.Visits | src/cuda-sim/ptx_ir.cc:789-827 | a path over instructions meets every instruction of a block that is on every path over blocks, unless it has passed it |
| BlockExpansion.Lifted | src/cuda-sim/ptx_ir.cc:789-827 | a path over blocks is one over instructions that keeps to the same blocks |
| BlockExpansion.ClosestExpands | src/cuda-sim/ptx_ir.cc:789-827 | the last instruction of a block has as its closest strict postdominator the first instruction of the block's own |
| BlockExpansion.ExpansionReaches | src/cuda-sim/ptx_ir.cc:789-827 | instructions reach the exit when blocks do |
| BlockExpansion.EdgesToTheStart | src/cuda-sim/ptx_ir.cc:443-490 | an edge into a function's first instruction comes from a predecessor of the entry block |
| PtxIr.FunctionInfo.Assemble | src/cuda-sim/cuda-sim.cc:264-290 | assembly goes through exactly if the entry has no predecessor and the condition on blocks that cannot reach the exit holds, and leaves the immediate postdominators |
| BlockExpansion.AssembledIsProgram | src/cuda-sim/cuda-sim.cc:196-290 | every function assembly lets through meets the conditions of the stack theorems, also the one that nothing jumps to the pc which stands for the exit |
| BlockExpansion.Assembled | src/cuda-sim/cuda-sim.cc:264-290 | from block graph to program: assembly stops exactly when the entry has a predecessor, and otherwise the reconvergence points make a valid program |
| SimtStack.WarpStack.Launch | src/abstract_hardware_model.cc:599-608 | a launched warp has one entry with the start pc and the launch mask |
| SimtStack.WarpStack.DivergentPaths | src/abstract_hardware_model.cc:674-702 | the rounds from the highest lane down group the live lanes exactly by next pc |
| SimtStack.TakePath | src/abstract_hardware_model.cc:711-721 | removes the fall-through path if it is there, else the one of the lowest pc, as the order says |
| SimtSplit.FallThroughFirst | src/abstract_hardware_model.cc:711-721 | the order in which any paths are taken: each once, the fall-through path first and the others by ascending pc |
| SimtStack.PlacingInOrder | src/abstract_hardware_model.cc:707-783 | placing the paths one by one gives the same entries as the closed form of the replacement |
| SimtStack.WarpStack.PlaceAll | src/abstract_hardware_model.cc:705-785 | the placing loop replaces the top entry by that closed form |
| SimtStack.WarpStack.Update | src/abstract_hardware_model.cc:656-791 | one non-call update: the whole new stack as a function of the old one, the lanes done, the next pcs and the reconvergence pc |
| SimtSplit.NobodyGoesOn | src/abstract_hardware_model.cc:700-785 | when all lanes of the top entry are done it goes |
| SimtSplit.TogetherTheyMove | src/abstract_hardware_model.cc:705-785 | when all live lanes go to one pc the top entry moves there with them, or goes if it reconverges there |
| SimtSplit.SplitsAreStacked | src/abstract_hardware_model.cc:705-785 | when the live lanes split the entry waits at the reconvergence pc unless that is its own, above it lies the fall-through side and on top, to run next, the other, each with its lanes unless it has arrived |
| SimtExecution.EveryLaneFindsItsPc | src/abstract_hardware_model.cc:705-785 | after an update every live lane of the top entry has its own next pc in the topmost entry holding it, exactly unless the warp splits, is told to reconverge elsewhere than its entry, and some lane has arrived at the entry's reconvergence pc |
| SimtExecution.ParkedLane | src/abstract_hardware_model.cc:760-769 | a concrete stack and update in that excluded case: a lane is parked at a wrong pc |
| SimtExecution.OtherLanesStay | src/abstract_hardware_model.cc:705-785 | lanes outside the top entry keep their entry and pc |
| SimtExecution.UpdateKeepsShape | src/abstract_hardware_model.cc:705-785 | an update keeps the stack nested and each entry linked to the entry below that waits for it, whatever the lanes do |
| SimtExecution.SplitsLoseNothing | src/abstract_hardware_model.cc:760-769 | with the branch's immediate postdominator as reconvergence pc the excluded case cannot arise inside a function |
| SimtExecution.StepKeepsInvariant | src/abstract_hardware_model.cc:656-791 | one lockstep step keeps the whole invariant: shape, reconvergence pcs that strictly postdominate, and every live lane found at its own pc |
| SimtTheorems.LaunchHoldsInvariant | src/abstract_hardware_model.cc:599-608 | a launched warp satisfies the invariant |
| SimtTheorems.InvariantOverRuns | src/abstract_hardware_model.cc:656-791 | so does every state it reaches |
| SimtTheorems.LaunchedWarpRefinesItsLanes | src/abstract_hardware_model.cc:656-791 | in every reachable state each lane is where running alone for its own number of turns would bring it, and a lane still running is held by the stack at its own pc |
| SimtTheorems.WarpDrains | src/abstract_hardware_model.cc:656-791 | if every lane finishes alone the warp's stack becomes empty |
| SimtTheorems.DrainedMeansFinished | src/abstract_hardware_model.cc:656-791 | and then every launched lane has finished |
| SimtTheorems.DiamondCanBeLaunched | src/abstract_hardware_model.cc:656-791 | a program with a divergent branch meets the preconditions of these theorems |
| SimtTheorems.LaminarBound | src/abstract_hardware_model.cc:705-785 | sets over w elements, any two disjoint or nested, are at most 2w - 1 |
| SimtTheorems.MasksAreNested | src/abstract_hardware_model.cc:705-785 | of two masks on a well-formed stack the upper is disjoint from or strictly inside the lower |
| SimtTheorems.StackStaysSmall | src/abstract_hardware_model.cc:705-785 | a stack never exceeds 2 * warp size - 1 entries |
| Coalescer.Reduce | src/abstract_hardware_model.cc:498-550 | the block sent is the smallest aligned 32-, 64- or 128-byte block that holds every chunk used |
| Coalescer.SmallestWhenHalvesUsed | src/abstract_hardware_model.cc:507-546 | a block whose two halves are both used cannot be made smaller |
| Coalescer.AlignedRangesDisjoint | src/abstract_hardware_model.cc:457-463 | aligned accesses of one size overlap only if they start at the same byte |
| Coalescer.SlotsAreConflictFree | src/abstract_hardware_model.cc:453-479 | no two requests placed in one transaction touch a common byte |
| Coalescer.EachRequestHasOneSlot | src/abstract_hardware_model.cc:442-479 | every request is in exactly one transaction of its segment |
| Coalescer.DepthIsLargestCount | src/abstract_hardware_model.cc:457-469 | the number of transactions of a segment is the largest number of requests for one position |
| Coalescer.FirstFitIsOptimal | src/abstract_hardware_model.cc:453-479 | no conflict-free way to spread the requests uses fewer transactions |
| Coalescer.FirstFree | src/abstract_hardware_model.cc:457-469 | the search over the list finds the first transaction without a conflict |
| Coalescer.PlaceAtomic | src/abstract_hardware_model.cc:453-479 | placing a request there keeps the list the one of the specification |
| WarpInst.WarpInst.GatherAtomic | src/abstract_hardware_model.cc:438-479 | after the loop over the lanes the map holds, for each segment, the first-fit list of transactions |
| WarpInst.WarpInst.GatherPlain | src/abstract_hardware_model.cc:368-408 | after the loop over the lanes the map holds one transaction for each segment touched |
| WarpInst.WarpInst.ReduceAndSend | src/abstract_hardware_model.cc:498-550 | one access is appended, its block the smallest, its masks those of the transaction |
| WarpInst.WarpInst.MemoryCoalescingAtomic | src/abstract_hardware_model.cc:423-496 | the queue grows by exactly the accesses for the transactions of the two halves, in order |
| WarpInst.WarpInst.MemoryCoalescing | src/abstract_hardware_model.cc:355-421 | the queue grows by exactly the accesses for the segments of each part of the warp, in order |
| CoalescingTheorems.AccessCoversRequest | src/abstract_hardware_model.cc:385-411 | an access holds all the request's bytes exactly when the address is below 2^32, where block addresses are cut off |
| CoalescingTheorems.HighAddressIsLost | src/abstract_hardware_model.cc:392 | the block address of address 2^32 is 0 |
| CoalescingTheorems.LaneInOneTransaction | src/abstract_hardware_model.cc:442-479 | each active lane of a half is in exactly one of the transactions of its atomic |
| CoalescingTheorems.AtomicLaneIsServed | src/abstract_hardware_model.cc:423-496 | after an atomic every active lane of the halves has an access in the queue that marks its bytes and, below 2^32, covers them |
| CoalescingTheorems.AtomicLanesServed | src/abstract_hardware_model.cc:423-496 | an atomic queues exactly one access for each active lane, none only for the last lane of an odd warp |
| CoalescingTheorems.PlainLaneIsServed | src/abstract_hardware_model.cc:355-421 | after a plain access every address of every active lane in the equal parts has one that marks its bytes and, below 2^32, covers them |
| CoalescingTheorems.PlainLanesServed | src/abstract_hardware_model.cc:355-421 | a plain access queues for an active lane as many accesses as the segments it touches if the lane is below parts * (warp size / parts), and otherwise none |
| CoalescingTheorems.LastLaneIsSkipped | src/abstract_hardware_model.cc:359-371 | a load of lane 31 alone in a warp of 32 and three parts is never sent |
| CoalescingTheorems.AscendingIsSorted | src/abstract_hardware_model.cc:410-418 | segments are sent in strictly ascending order |
| CoalescingTheorems.OneSendForEachSegment | src/abstract_hardware_model.cc:410-418 | a part of the warp sends one access for each segment it touches |
| CoalescedLanes.SegmentHoldsElements | src/abstract_hardware_model.cc:359-364 | a segment holds 32 elements, or 128 bytes where these would be more |
| CoalescedLanes.ConsecutiveLanesShare | src/abstract_hardware_model.cc:359-418 | 32 lanes with consecutive elements from an aligned start send one access for elements of up to four bytes, two for eight and four for sixteen |
| DelayQueue.FifoPipeline.constructor | src/gpgpu-sim/delayqueue.h:47-59 | a new queue is a chain of minlen empty cells |
| DelayQueue.FifoPipeline.Push | src/gpgpu-sim/delayqueue.h:70-91 | the linked list after a push, as the queue value's push |
| DelayQueue.FifoPipeline.Pop | src/gpgpu-sim/delayqueue.h:93-120 | the linked list after a pop, the datum in front, and the empty cell that keeps the length |
| DelayQueue.FifoPipeline.SetMinLength | src/gpgpu-sim/delayqueue.h:131-165 | the linked list padded, or trimmed of empty cells at its end, and the length equal to the chain's and at least the new least length |
| DelayQueue.FifoPipeline.DropTail | src/gpgpu-sim/delayqueue.h:147-163 | walking to the cell before the last and unlinking removes just the last cell |
| DelayQueue.FifoPipeline.Full | src/gpgpu-sim/delayqueue.h:167 | full exactly when there is a limit and the length has reached it |
| DelayQueue.OneOperation | src/gpgpu-sim/delayqueue.h:70-165 | each operation keeps the least length and moves data only in at the end and out at the front |
| DelayQueue.DataLeaveInOrder | src/gpgpu-sim/delayqueue.h:70-165 | under any mix of operations data leave in push order, none lost or made up |
| DelayQueue.DataMoveOnlyByPops | src/gpgpu-sim/delayqueue.h:93-120 | a datum moves towards the front only by pops, one cell each |
| DelayQueue.LatencyIsLength | src/gpgpu-sim/delayqueue.h:70-120 | what is pushed leaves on exactly the pop whose number is the queue's length after the push |
| DelayLatency.LengthAfterPush | src/gpgpu-sim/delayqueue.h:70-91 | after a push the length is the larger of the least length and one more than the place of the last datum |
| DelayLatency.LatencyAfterPush | src/gpgpu-sim/delayqueue.h:70-165 | after any operations on a new queue a datum pushed leaves on exactly the pop with that number: the least length's, if there is no other datum |
| DelayQueue.TrimmingLosesNoData | src/gpgpu-sim/delayqueue.h:147-163 | shortening removes only empty cells |
| FrFcfs.RowsAndMembers | src/gpgpu-sim/dram_sched.cc:55-61 | a row's bin holds exactly the queue's requests to that row |
| FrFcfs.TakingTheOldest | src/gpgpu-sim/dram_sched.cc:97-108 | a bin's last element is the queue's oldest request to the row, and removing it changes no other bin |
| FrFcfs.AddingKeepsIndex | src/gpgpu-sim/dram_sched.cc:55-61 | adding to both structures keeps them in agreement |
| FrFcfs.TakingKeepsIndex | src/gpgpu-sim/dram_sched.cc:97-108 | so does taking from both, and an emptied bin disappears |
| FrFcfs.FrfcfsScheduler.AddReq | src/gpgpu-sim/dram_sched.cc:55-61 | the invariant (bins partition each queue in the same order, an open streak has a non-empty bin, the count is the total length) is kept and only the request's bank changes |
| FrFcfs.FrfcfsScheduler.Schedule | src/gpgpu-sim/dram_sched.cc:79-118 | nothing only for an empty bank, else the request that is first ready in terms of the queue: of the streak's row, else of the open row if wanted, else the bank's oldest, and the oldest of its row; the invariant is kept and the other banks stay |
| FrFcfs.FirstReadyIsServed | src/gpgpu-sim/dram_sched.cc:81-94 | the request served is the oldest of its row, which is the streak's if there is one, else the open row if a request wants it, else that of the oldest request of all |
| FrFcfs.StreaksLast | src/gpgpu-sim/dram_sched.cc:79-117 | over any run a serving is of another row than the one before only if that took the last request to its own |
| FrFcfs.FrfcfsScheduler.TakeFrom | src/gpgpu-sim/dram_sched.cc:97-117 | the request taken, both structures, the streak and the count afterwards |
| FrFcfs.RowsAreServedInOrder | src/gpgpu-sim/dram_sched.cc:55-118 | over any run, requests to one row are served in arrival order, each once and none lost |
| DramModel.ServableIsABank | src/gpgpu-sim/dram.cc:242-245 | the bank the scheduler picks is free and has a request |
| DramTiming.ChoiceIsReady | src/gpgpu-sim/dram.cc:268-395 | the command of a cycle is what its own bank would issue |
| DramTiming.FirstBankInTurnIssues | src/gpgpu-sim/dram.cc:268-395 | a command is issued whenever some bank could issue one, and the first such bank from prio on issues it |
| DramTiming.CounterAfterIssue | src/gpgpu-sim/dram.cc:268-424 | a cycle restarts exactly the counters its command starts and counts every counter down to zero |
| DramTiming.CountersRemember | src/gpgpu-sim/dram.cc:406-424 | a counter never runs out before its duration has passed |
| DramTiming.CommandsAreSpaced | src/gpgpu-sim/dram.cc:268-424 | in every run, a command and a later one that waits for it are the whole duration apart, for each of the thirteen kinds of counter |
| DramTiming.RowCommandsAreSpaced | src/gpgpu-sim/dram.cc:343-392 | tRRD between activations, tRCD and tRCDWR to columns, tRAS to precharges, tRP to activations |
| DramTiming.ColumnCommandsAreSpaced | src/gpgpu-sim/dram.cc:274-341 | tCCD between column commands, tCCDL within a group, tWTR from write to read, tRTW from read to write |
| DramTiming.PrechargesWaitForColumns | src/gpgpu-sim/dram.cc:367-392 | tWTP, read-to-precharge and tRTPL before a precharge |
| DramTiming.ActivationsOfOneBank | src/gpgpu-sim/dram.cc:343-392 | two activations of one bank are at least tRC and at least tRAS + tRP apart, a precharge between them |
| DramTiming.CommandsHitOpenRows | src/gpgpu-sim/dram.cc:274-392 | column commands hit the open, matching row; activations find the bank closed and precharges open |
| DramBurst.FateAfterPush | src/gpgpu-sim/dram.cc:286-305 | pushing one more burst keeps the relation between bytes sent and bursts pushed, and frees the bank with the last one |
| DramBurst.FateAfterPop | src/gpgpu-sim/dram.cc:215-240 | a request is freed with the pop that completes its bytes, and then it waits nowhere |
| DramBurst.BurstCountIsUnique | src/gpgpu-sim/dram.cc:286-305 | the number of bursts of a size is determined: the least positive number of atoms that holds it |
| DramBurst.BurstCountIsCeiling | src/gpgpu-sim/dram.cc:286-305 | the number of bursts is the size in atoms, rounded up, and at least one |
| DramBurst.EachRequestOnce | src/gpgpu-sim/dram.cc:215-306 | every request accepted is live and unanswered, or answered exactly once after going in and out of the pipeline as often as it has atoms, and then no queue or bank holds it |
| DramBurst.NothingDangles | src/gpgpu-sim/dram.cc:215-306 | whatever the pipeline, a queue or a bank holds is a live request |
| DramBurst.IssuingKeepsConsistent | src/gpgpu-sim/dram.cc:268-395 | issuing keeps the bookkeeping of every request |
| DramBurst.ReturningKeepsConsistent | src/gpgpu-sim/dram.cc:215-240 | so does the data phase |
| DramBurst.FifoKeepsConsistent | src/gpgpu-sim/dram.cc:196-207 | so does the FIFO scheduler |
| DramRuns.EveryRunConserves | src/gpgpu-sim/dram.cc:175-424 | over every run of arrivals, cycles and answers, with either scheduler, each request is conserved |
| DramAnswers.AnswersComeInOrder | src/gpgpu-sim/dram.cc:215-240 | over every run the answered requests that are no write-backs, in the order in which they finished, are the answers taken followed by those in the return queue |
| DramService.CommandsServeRequests | src/gpgpu-sim/dram.cc:268-395 | over every run each command serves the request its bank holds, one to this bank: an activation opens its row, a precharge closes a row it does not want, reads and writes are its own and to its row |
| DramService.EveryRunIsPlaced | src/gpgpu-sim/dram.cc:196-247 | over every run a bank holds, and the scheduler keeps for it, only requests to that bank, with their own rows |
| DramService.TurnPassesOn | src/gpgpu-sim/dram.cc:343-388 | after a row command its bank is the last in turn |
| DramWork.RowCommandLowersWork | src/gpgpu-sim/dram.cc:343-392 | an activation or precharge brings the bank's request one row command nearer to its transfer |
| DramWork.ColumnLowersWork | src/gpgpu-sim/dram.cc:274-341 | a read or write lowers the work left |
| DramDrain.SomeCommandIssues | src/gpgpu-sim/dram.cc:268-395 | with every counter at zero and room in the pipeline a command is issued if any bank holds a request |
| DramDrain.CycleLowers | src/gpgpu-sim/dram.cc:212-424 | a cycle with work left issues a command, which lowers the work, or counts all counters down |
| DramLone.LoneRequestIsServed | src/gpgpu-sim/dram.cc:268-424 | over every run: if a bank holds a request and nothing else waits, data for it are transferred within three times the longest wait and one cycle |
| DramLiveness.EveryRequestIsAnswered | src/gpgpu-sim/dram.cc:212-434 | over every run: once no more requests arrive, and with room in the return queue, every request is answered once and freed within a number of cycles bounded by the work left and the timing parameters, if writes do not take longer than reads |
| DramLiveness.EveryRunCanBeFinished | src/gpgpu-sim/dram.cc:212-434 | every run has such a continuation |
| DramProgress.PipelineNeverWaits | src/gpgpu-sim/dram.cc:215-341 | over every run, if the write latency is at most the read latency and the return queue has room, each bank can issue just what it could with an empty pipeline |
| DramProgress.FirstWriteIsTheLast | src/gpgpu-sim/dram.cc:314-319 | over every run, if the write latency is the larger one, no read or write follows the first write |
| DramRuns.EveryRunIsTimed | src/gpgpu-sim/dram.cc:175-424 | over every such run the commands are a run in the sense of the timing theorems |
| DramRuns.LastReplaced | src/gpgpu-sim/dram.cc:175-245 | phases that only move requests leave a timed run timed |
| Dram.DramPartition.constructor | src/gpgpu-sim/dram.cc:44-96 | all counters zero, all banks closed, a data pipeline of CL cells |
| Dram.DramPartition.ReturnData | src/gpgpu-sim/dram.cc:215-240 | the state after data leave |
| Dram.DramPartition.SchedulerFifo | src/gpgpu-sim/dram.cc:196-207 | the state after the FIFO scheduler |
| Dram.DramPartition.IssueAt | src/gpgpu-sim/dram.cc:269-395 | what one bank does with its turn, all four branches |
| Dram.DramPartition.IssueCommands | src/gpgpu-sim/dram.cc:266-400 | one command at most, that of the first bank from prio on that can issue |
| Dram.DramPartition.Transfer | src/gpgpu-sim/dram.cc:286-305 | one burst enters the pipeline and after the last the bank is free |
| Dram.DramPartition.Tick | src/gpgpu-sim/dram.cc:406-424 | every counter goes down by one and stops at zero |
| Dram.DramPartition.Cycle | src/gpgpu-sim/dram.cc:212-428 | a whole cycle keeps every request's bookkeeping and is the step of the run theorems |
| Dram.DramPartition.Push | src/gpgpu-sim/dram.cc:175-194 | a new request enters the queue |
| Dram.DramPartition.ReturnQueuePop | src/gpgpu-sim/dram.cc:431-434 | the oldest answer is handed out |
| DramModel.AdmittingKeepsShape | src/gpgpu-sim/dram_sched.cc:128-157 | admitting requests moves them from the queue to the scheduler and touches nothing else |
| DramBurst.FrfcfsKeepsConsistent | src/gpgpu-sim/dram_sched.cc:128-189 | admitting and picking keep every request's bookkeeping |
| DramTiming.FrfcfsKeepsTiming | src/gpgpu-sim/dram_sched.cc:128-189 | and move no timing counter and no row |
| Dram.DramPartition.AdmitRequests | src/gpgpu-sim/dram_sched.cc:128-157 | the admission loop, as long as the scheduler has room |
| Dram.DramPartition.ServeOneBank | src/gpgpu-sim/dram_sched.cc:159-187 | the first free bank from prio on with a request gets it, and prio advances |
| Bits.PackDetermines | src/gpgpu-sim/addrdec.cc:427-438 | packing keeps exactly the masked bits |
| Bits.LowestAreRemainder | src/gpgpu-sim/addrdec.cc:106-109 | the remainder by a power of two is made of the lowest masked bits |
| Bits.BitOfRank | src/gpgpu-sim/addrdec.cc:427-438 | the mask bit that is packed to a given position |
| AddrDec.SubPartitionDetermines | src/gpgpu-sim/addrdec.cc:82-110 | with at most 2^32 sub-partitions their number tells the chip and the low bank bits |
| AddrDec.DividedDetermines | src/gpgpu-sim/addrdec.cc:94-98 | quotient, low part and remainder of the division path determine the address |
| AddrDec.PairDetermines | src/gpgpu-sim/addrdec.cc:67-110 | sub-partition and partition address determine the address, on both paths |
| AddrDec.SubPartitionIsExact | src/gpgpu-sim/addrdec.cc:107-109 | with at most 2^32 sub-partitions the number is the chip times the sub-partitions of a chip, and the low bank bits |
| AddrDec.PartitionAddressIsMaskedBits | src/gpgpu-sim/addrdec.cc:67-80 | the partition address is made of the bits that neither the chip nor the sub-partition takes, in order |
| AddrDec.FieldsAreMaskedBits | src/gpgpu-sim/addrdec.cc:82-105 | bank, row, column and burst are each made of the bits of their own mask, in order, and the chip of those of the chip mask, or it is the remainder of the part above the chip start |
| AddrDec.AliasesOnlyOnWrap | src/gpgpu-sim/addrdec.cc:67-110 | no two 64-bit addresses share both, exactly when chips times sub-partitions is at most 2^32 |
| AddrDec.DecodingDetermines | src/gpgpu-sim/addrdec.cc:82-110 | two addresses decode alike exactly when they select one chip and agree on every bit of the other masks: what the sweep in the program probes up to 16 MB |
| AddressMapping.PackBits | src/gpgpu-sim/addrdec.cc:427-438 | the loop packs the masked bits |
| AddressMapping.GetMaskLimit | src/gpgpu-sim/addrdec.cc:440-459 | the limits enclose every mask bit, tightly when there is one |
| AddressMapping.LogB2 | src/gpgpu-sim/addrdec.cc:411-425 | the position of the highest bit |
| AddressMapping.PowerOfTwo | src/gpgpu-sim/addrdec.cc:401-409 | the power of two |
| AddressMapping.ParseMapping | src/gpgpu-sim/addrdec.cc:112-160 | the masks are read off the 64 letters; a wrong length or a chip letter beside a chip start is refused |
| AddressMapping.WidenedAvoidsChip | src/gpgpu-sim/addrdec.cc:277-289 | masks widened for the chip bits do not overlap them |
| AddressMapping.ChosenMasksAreDisjoint | src/gpgpu-sim/addrdec.cc:39-50 | chip and bank masks are disjoint before the chip bits go in, for every table and mapping |
| AddressMapping.InitialisedIsValid | src/gpgpu-sim/addrdec.cc:162-323 | whatever init accepts is a valid decoder, so it aliases exactly on the wrap |
| AddressMapping.ManyChannelsAlias | src/gpgpu-sim/addrdec.cc:162-323 | a configuration that init accepts whose decoder aliases |
| AddressMapping.LinearToRaw.Init | src/gpgpu-sim/addrdec.cc:162-323 | accepts exactly good mappings and powers of two where the program asserts them, and then holds the decoder that the mode, the mapping and the numbers give |
| AddressMapping.LinearToRaw.InsertChipBits | src/gpgpu-sim/addrdec.cc:277-289 | the masks are widened and the chip bits inserted |
| AddressMapping.LinearToRaw.FindSubPartitionMask | src/gpgpu-sim/addrdec.cc:309-322 | the sub-partition mask is the lowest bits of the bank mask |
| AddressMapping.LinearToRaw.AddrdecTlx | src/gpgpu-sim/addrdec.cc:82-110 | all parts of the address as the decoder's |
| AddressMapping.LinearToRaw.GetPartitionAddress | src/gpgpu-sim/addrdec.cc:67-80 | the partition address as the decoder's |
| PagedMemory.ReadsWhatWasWritten | src/cuda-sim/memory.cc:71-177 | reading a range just written gives the data back, also around the end of the address space |
| PagedMemory.ReadsAroundWrites | src/cuda-sim/memory.cc:71-177 | a range that a write does not touch reads as before |
| PagedMemory.StoringInPage | src/cuda-sim/memory.cc:71-77 | storing into one page changes just the bytes at those addresses |
| PagedMemory.NextChunk | src/cuda-sim/memory.cc:83-101 | each round of the write loop extends the part of the data that is in memory |
| PagedMemory.TouchingMore | src/cuda-sim/memory.cc:113-120 | the next block throws exactly when it lies in the last page |
| PagedMemory.TooLongTouches | src/cuda-sim/memory.cc:161-169 | a range whose length wraps the 32-bit sum covers the last page, so it throws |
| PagedMemory.PageEnds | src/cuda-sim/memory.cc:74 | a page's end in a 32-bit word is 0 for the last page and true for every other |
| PagedMemory.LastByteCannotBeRead | src/cuda-sim/memory.cc:115 | a concrete read that throws |
| PagedMemory.Memory.constructor | src/cuda-sim/memory.cc:56-69 | the page size's one bit is found and all bytes are zero |
| PagedMemory.Memory.Write | src/cuda-sim/memory.cc:71-101 | the flat contents are overwritten by the data, cut to the low 32 bits of their length, and nothing else changes; it stops, before anything is written, exactly when those bits added to the place in the page go beyond 32 bits |
| PagedMemory.Memory.ReadSingleBlock | src/cuda-sim/memory.cc:113-144 | throws when the block's end is beyond the word's, else the flat bytes |
| PagedMemory.Memory.Read | src/cuda-sim/memory.cc:147-177 | for the low 32 bits of the length: throws exactly when a byte of the range lies in the last page, else returns the flat bytes, zero where nothing was written |
| StreamModel.PushKeepsInv | src/stream_manager.cc:356-384 | a push by any host thread at any moment keeps the invariant |
| StreamModel.FrontKeepsInv | src/stream_manager.cc:239-272 | starting an operation keeps it, also in the middle of the GPU thread's step |
| StreamModel.FinishKeepsInv | src/stream_manager.cc:222-237 | a finished kernel that has a grid id entry is its stream's pending front, so the uid assertion holds, and registering keeps the invariant |
| StreamModel.PerformKeepsInv | src/stream_manager.cc:114-175 | performing an operation keeps it |
| StreamRuns.StreamZeroIsExclusive | src/stream_manager.cc:239-272 | over every interleaving an operation of stream zero is never pending together with one of another stream |
| StreamRuns.StreamsCompleteInOrder | src/stream_manager.cc:69-96 | over every interleaving what a stream has completed and what it still holds are what was pushed, in order, and history only grows |
| StreamRuns.FinishedKernelIsExpected | src/stream_manager.cc:222-272 | over every interleaving a grid id is mapped to a stream exactly when that kernel is the stream's pending front, every kernel given to the GPU is, and never more kernels are in slots than there are slots |
| StreamRefusal.RefusedKernelIsStuck | src/stream_manager.cc:153-163 | a kernel the GPU cannot take when it is started is never started again, whatever happens, and its stream completes nothing more |
| StreamRefusal.OperatingRefuses | src/stream_manager.cc:153-163 | an operation refuses a kernel exactly when it starts it and the GPU has no free slot |
| StreamRefusal.ZeroFindsRoom | src/stream_manager.cc:239-272 | when a kernel of stream zero is started a slot is free |
| StreamRefusal.RefusedFindsSlotsTaken | src/stream_manager.cc:153-163 | a kernel that is refused is of another stream, every slot is taken, and there are at least two more streams than slots |
| StreamRefusal.RefusedOverRuns | src/stream_manager.cc:153-163 | over every interleaving the kernels refused at the end are exactly those some operation started, on a stream other than zero, while as many kernels as there are slots were in them |
| StreamRefusal.EnoughSlotsRefuseNone | src/stream_manager.cc:153-163 | with a slot for every stream but zero no kernel is ever refused |
| StreamRefusal.RefusalIsReachable | src/stream_manager.cc:153-163 | some run with n streams, stream zero among them, has a kernel refused exactly when n is at least the number of slots plus 2 |
| StreamDrain.StartedOperationEnds | src/stream_manager.cc:114-175 | what the GPU thread starts is the one operation its stream has completed afterwards, if it is a transfer, an event or a functional-mode kernel for which a slot is free; any other kernel stays the pending front, given to the GPU exactly if that has a slot; other streams stay |
| StreamDrain.OnlyKernelsPend | src/stream_manager.cc:114-175 | over every interleaving what is pending between critical sections is a kernel, and in functional mode only if refused |
| StreamDrain.ZeroHasItsTurn | src/stream_manager.cc:239-272 | stream zero's turn begins when all others are empty and it has work, and while it lasts nothing of the others is started or completed |
| StreamDrain.DrainIsBounded | src/stream_manager.cc:200-272 | without pushes only so many steps change anything, whatever their order |
| StreamDrain.SettledIsEmpty | src/stream_manager.cc:200-272 | when nothing is left to happen all streams are empty exactly if no kernel has been refused |
| StreamDrain.EverythingCompletes | src/stream_manager.cc:200-272 | every run without refused kernels can be continued without pushes until each stream has completed exactly what was pushed to it |
| StreamManager.CUstream.Push | src/stream_manager.cc:69-75 | the operation is appended |
| StreamManager.CUstream.Next | src/stream_manager.cc:88-96 | the front operation becomes pending and stays in the queue |
| StreamManager.CUstream.RecordNextDone | src/stream_manager.cc:77-85 | the front operation leaves and nothing is pending |
| StreamManager.Manager.Front | src/stream_manager.cc:239-272 | the state and the operation started, with the choice between stream zero and the first ready stream |
| StreamManager.Manager.RegisterFinishedKernel | src/stream_manager.cc:222-237 | the finished kernel leaves its stream and its grid id is forgotten |
| StreamManager.Manager.LaunchKernel | src/stream_manager.cc:153-163 | a kernel goes to the GPU if that has a free slot, is over at once in functional mode, and is left as it is otherwise |
| StreamManager.Manager.DoOperation | src/stream_manager.cc:114-175 | transfers and events are recorded done at once; kernels are launched |
| StreamManager.Manager.ConcurrentStreamsEmpty | src/stream_manager.cc:299-312 | whether all streams but stream zero are empty |
| StreamManager.Manager.Push | src/stream_manager.cc:370-377 | the locked part of a push |
| StreamManager.Manager.AddStream | src/stream_manager.cc:274-280 | a new stream joins at the end |
| StreamManager.Manager.Operation | src/stream_manager.cc:200-220 | the GPU thread's critical section, on the streams, the grid ids and the GPU's slots and queue, is the step of the run theorems and keeps the invariant |
| GpuSim.EmptySlot | src/gpgpu-sim/gpu-sim.cc:722-729 | an empty slot is left exactly when fewer kernels than slots are in them |
| GpuSim.GpgpuSim.CanStartKernel | src/gpgpu-sim/gpu-sim.cc:722-729 | true exactly when fewer kernels than slots are in them |
| GpuSim.GpgpuSim.Launch | src/gpgpu-sim/gpu-sim.cc:701-720 | the kernel enters a slot, once, exactly when one is free |
| GpuSim.GpgpuSim.FinishedKernel | src/gpgpu-sim/gpu-sim.cc:763-770 | the kernel that was done first leaves the queue, 0 if that is empty |
| GpuSim.GpgpuSim.SetKernelDone | src/gpgpu-sim/gpu-sim.cc:772-785 | the kernel leaves its slot and joins the queue |
| StreamManager.KernelDone | src/gpgpu-sim/gpu-sim.cc:772-785 | that is the other step of the run theorems and keeps the invariant |
| DataRemap.SourceOfTarget | src/cuda-sim/hpcl_cuda_comp.cc:651-672 | the byte positions of type 0 and of its inverse undo each other |
| DataRemap.Type0RoundTrip | src/cuda-sim/hpcl_cuda_comp.cc:627-680 | type 0 is a bijection with an explicit inverse, for every length divisible by the resolution |
| DataRemap.NibblesRoundTrip | src/cuda-sim/hpcl_cuda_comp.cc:948-981 | so is the nibble transposition of a segment |
| DataRemap.TransposedTwice | src/cuda-sim/hpcl_cuda_comp.cc:982-1007 | transposing 8 x 8 bits twice gives them back |
| DataRemap.BitsRoundTrip | src/cuda-sim/hpcl_cuda_comp.cc:982-1007 | the bit-plane transposition of a segment is a bijection |
| DataRemap.RemappingLosesNothing | src/cuda-sim/hpcl_cuda_comp.cc:916-1007 | type 0 followed by type 1 is a bijection with an explicit inverse, on nibbles for segments of even length, on bits for multiples of eight bytes |
| DataRemap.RemappingIsInjective | src/cuda-sim/hpcl_cuda_comp.cc:916-1007 | no two blocks are remapped alike exactly when the segments have an even number of bytes |
| DataRemap.OddSegmentLosesANibble | src/cuda-sim/hpcl_cuda_comp.cc:951-979 | a segment of odd length does not keep the low nibble of its first byte |
| RemapPlaces.PlaceOfByte | src/cuda-sim/hpcl_cuda_comp.cc:649-680 | the bytes at one place of all words lie together in the order of the words, those of the last place first |
| RemapPlaces.PlaceOfNibbles | src/cuda-sim/hpcl_cuda_comp.cc:951-979 | the high nibbles of a segment come first, in order, then the low ones |
| RemapPlaces.PlaceOfBit | src/cuda-sim/hpcl_cuda_comp.cc:985-1005 | the top bits of all bytes of a segment come first, in order, then the bits below, and so on |
| Remapper.FillBins | src/cuda-sim/hpcl_cuda_comp.cc:649-661 | each bin holds the bytes of one place of the words, in order |
| Remapper.RemapToType0 | src/cuda-sim/hpcl_cuda_comp.cc:627-680 | the vector filled from the bins is type 0 of the data |
| Remapper.WholeWords | src/cuda-sim/hpcl_cuda_comp.cc:641 | the asserted divisibility is what the block shape asks |
| Remapper.NibblesOfSegment | src/cuda-sim/hpcl_cuda_comp.cc:951-979 | the nibble loop fills one segment of any length with its transposition and nothing else |
| Remapper.JoinNibbles | src/cuda-sim/hpcl_cuda_comp.cc:954-977 | one byte of the nibble loop |
| Remapper.BitsOfSegment | src/cuda-sim/hpcl_cuda_comp.cc:985-1005 | so does the bit loop |
| Remapper.RemapToType1 | src/cuda-sim/hpcl_cuda_comp.cc:916-1007 | the whole vector is the remapped block, for every segment length on nibbles and multiples of eight on bits |
| SubgroupOps.NibbleIsRecovered | src/cuda-sim/hpcl_cuda_comp.cc:1043-1202 | each nibble of a rewritten subgroup comes back from the common nibble and a code that fits its width |
| SubgroupOps.SubgroupsAreReversible | src/cuda-sim/hpcl_cuda_comp.cc:1043-1202 | a rewritten subgroup has one nibble everywhere, the original comes back from it and a code for each nibble, and the codes with the header take exactly the bits charged |
| SubgroupOps.OriginalIsUnique | src/cuda-sim/hpcl_cuda_comp.cc:1043-1202 | the codes determine the original |
| SubgroupOps.GroupsAreIndependent | src/cuda-sim/hpcl_cuda_comp.cc:1043-1202 | each subgroup is rewritten by its own bytes alone |
| SubgroupOps.RewritingLosesNothing | src/cuda-sim/hpcl_cuda_comp.cc:1043-1202 | two blocks rewritten to the same bytes with the same operations and codes are the same block |
| SubgroupOps.ExtremesAreNibbles | src/cuda-sim/hpcl_cuda_comp.cc:782-806 | the least and the greatest nibble occur in the subgroup |
| SubgroupChoice.ChosenByNibbles | src/cuda-sim/hpcl_cuda_comp.cc:1043-1202 | in terms of the nibbles that occur, which operation is chosen and with which nibble, and that no other is: masking, then complement, then deltas of 1 to 3 of plain or folded nibbles, else none |
| SubgroupCost.CheapestIsChosen | src/cuda-sim/hpcl_cuda_comp.cc:1043-1202 | the operation chosen is charged least among all that keep the subgroup, exactly unless its nibbles reach from 5 to 8, are 7 and 8, or reach from 7 to 11 |
| SubgroupLoops.CheckCsnPattern | src/cuda-sim/hpcl_cuda_comp.cc:684-713 | 1 exactly when all nibbles are equal |
| SubgroupLoops.ComplementData | src/cuda-sim/hpcl_cuda_comp.cc:715-761 | the subgroup is folded in place unless all its nibbles are at least 7; 1 exactly when that changed a byte |
| SubgroupLoops.ComputeDelta | src/cuda-sim/hpcl_cuda_comp.cc:782-839 | the least nibble, whether the largest delta is 1 to 3, and that delta, exact when small |
| SubgroupLoops.ComputeMasking | src/cuda-sim/hpcl_cuda_comp.cc:841-879 | the greatest nibble, and whether every nibble is 0 or that |
| SubgroupLoops.RewriteSubgroup | src/cuda-sim/hpcl_cuda_comp.cc:1043-1202 | one round of the loop: which operation is applied, what the subgroup becomes and what is charged |
| SubgroupLoops.RemapOps | src/cuda-sim/hpcl_cuda_comp.cc:1021-1205 | every subgroup rewritten by that rule, and the bits added: one for each subgroup and the charges |
| Rounding.RoundedIsMultiple | src/cuda-sim/hpcl_cuda_comp.cc:114-520 | the rounded mantissa is a multiple of 2^r in 23 bits |
| Rounding.ErrorIsHalfAStep | src/cuda-sim/hpcl_cuda_comp.cc:114-520 | the error is at most 2^(r-1) exactly when adding 2^(r-1) stays in 23 bits; otherwise the mantissa becomes 0 |
| Rounding.CarryIsLost | src/cuda-sim/hpcl_cuda_comp.cc:127-143 | a concrete mantissa that is rounded to 0 |
| Rounding.RoundedIsNearest | src/cuda-sim/hpcl_cuda_comp.cc:114-520 | no multiple of 2^r is nearer and ties go up |
| Rounding.RoundingTwiceIsOnce | src/cuda-sim/hpcl_cuda_comp.cc:114-520 | rounding twice equals once |
| Rounding.ClearedAndAdded | src/cuda-sim/hpcl_cuda_comp.cc:114-520 | clearing the low bits and adding a step when they are at least half a step is rounding half up |
| Rounding.ClearLowBits | src/cuda-sim/hpcl_cuda_comp.cc:116-500 | the ten branches all clear the bits below 2^r and test for half a step; sign and exponent bits stay |
| Rounding.AddStep | src/cuda-sim/hpcl_cuda_comp.cc:131-143 | one step is added to the 23 bits held in three bytes and the exponent bit above them stays |
| Rounding.RoundElement | src/cuda-sim/hpcl_cuda_comp.cc:116-520 | an element's mantissa becomes the rounded one |
| Rounding.RoundData | src/cuda-sim/hpcl_cuda_comp.cc:114-520 | every element of the block is rounded, its sign and exponent as before, and no other byte changes |

## Left out

- Calls and returns in the stack update: a call entry can take a caller's return pc as its own pc, so the invariants are those of updates inside one function.
- Bank groups: the model takes a bank's group as the bank number divided by the number of banks per group, a power of two, as the cycle code shifts it; the separate group index stored at construction is not modelled.
- Dram.DramPartition: its three queues and the scheduler's banks are values with the operations that FifoPipeline and FrfcfsScheduler are proved to implement; sharing of the objects themselves is not modelled.
- The element count of the delay queue, which counts empty cells inconsistently; the length is modelled.
- DramRuns.EveryRunConserves: arrivals are not limited by the size of the input queue, so the theorem covers more runs than the program has.
- A GPU configured with no slots, and kernels without any threads, which count as done from the start.
- StreamModel.PushKeepsInv: the waiting of a host thread before and after a push to stream zero is not modelled, and no property needs it.
- Destruction of streams, so a stream's place stands for its address.
- Remapper.RemapToType1: on bits, segments are a multiple of eight bytes long; for other lengths the program reads past the end of its vector.
- The neighbour-delta of a subgroup, which the program computes and does not use, and the zeroing of subgroups by the float approximation.
- Rounding without error compensation and rounding to averages or frequent nibbles.
- AddressMapping.LinearToRaw.Init: chip bits that would not fit in the 64-bit address, and with a number of channels that is no power of two a chip start from bit 31 up, are excluded: the program would shift by more than its words have; the option text before the mapping letters is a parameter.
- Building of basic blocks: graphs and the number of instructions of each block are given, with one exit block, which has none; instructions are numbered one by one, where the program counts bytes.
- Break instructions, which add edges while dominators are computed and are given no reconvergence point.
- Accesses to shared, constant and texture memory, and accesses that are not naturally aligned.
- Watchpoints, the list of lane addresses kept with an access, statistics, tracing, power and visualizer code.
- The contents of instructions, floating point and the parser.
