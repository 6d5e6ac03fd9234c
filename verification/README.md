# SSD-iq in Dafny

This project models the state machines of SSD-iq, a flash-translation-layer simulator
and an I/O benchmark, and proves what their users rely on.

**The simulator.** A device has erase blocks with physical-to-logical tables, a
logical-to-physical map, and counters. Host writes, compactions, migrations and erases
change all of them in place; three families of garbage collectors drive them. `Flash`
is the device as a value, `Ssd` the same device as mutable blocks, arrays and packed
addresses that refine it. `Counting`, `Migration`, `Chain` and `FlashRuns` prove what
single operations and arbitrary runs of operations do; `BlockLists` holds what the
collectors share. `GreedyPolicy`, `MergeLoop`,
`S2RPolicy`, `TwoRPolicy` and `FifoPolicy` give the collectors as functions on values,
`Amortization` what their collections cost, `Runs` the theorems over whole runs under
every policy, and `TwoRSpare` a tight example. `GreedyGc` and `TwoRGc` are the
collectors with their fields updated in place, and `Sim` is the benchmark over them.

**The benchmark.** `ZnsPattern` and `ZnsAccess` are the zoned address generator and the
trace it causes, `ZoneLayout` the partition into access zones, `Raid` the striping,
`RequestStacks`, `Pools` and `IoGenerator` the two request pools and the loop that keeps
them in step.

Every check of the program (`ensure`) in the modelled code is either proved never to fail
or modelled as a failed result (`None`, or `ok == false`) with the exact condition.

Notation: B blocks of ppb pages, P = B x ppb, L logical pages, V valid pages, phys
physical writes since construction.

Main results:

- Under every policy, over every run: tables inverse, flash conserved, no page lost or
  invented; the first P writes collect nothing, and V = L for ever after the fill.
- For every policy, the exact condition under which a host write fails.
- Greedy completes every run exactly when L < P; greedy-s2r exactly when P - L >= ppb.
- greedy-s2r: the merge loop ends exactly when V + ppb <= P, within 2 ppb + 2
  iterations; with P - ppb < L < P a run leads it into one that never ends.
- Write amplification: phys x (ppb - m) <= ppb x host writes, with m = floor(L/B) for
  greedy and floor(L/(B-1)) for greedy-s2r.
- Chained compaction: frees a block exactly when the victims hold a block's worth of
  invalid pages; in greedy order at most two victims end writable, with exact room.
- 2R-greedy: fails exactly when neither region holds a block's worth of invalid pages, so
  never with P - L >= 2 ppb - 1, while on some device one page less does not suffice; its
  lists partition the block ids.
- 2R-FIFO: queue and free list partition the block ids; what joins the queue where, and
  where the scan pointer ends.
- Which pages a migration, a merge and a chain move, in which order and where to; which
  block every host write uses.
- ZNS: a device with write pointers accepts every trace, exactly when the page size of the
  pattern is the request size.
- Request pools: the free counts agree for every completion order; buffers never overlap.

## Model

| member | source | states |
|---|---|---|
| Address.AddressRoundTrip | sim/SSD.hpp:167-169 | packing and unpacking of physical addresses are inverse to each other |
| Address.AddressRange | sim/SSD.hpp:167-169 | an address lies on the device exactly when its block id is below the block count |
| Flash.FreshGood | sim/SSD.hpp:153-165 | a new device is consistent, conserved, and maps nothing |
| Flash.WritePageEffect | sim/SSD.hpp:201-219 | one page write keeps both tables inverse, maps exactly one more page at most, uses one slot of the target block only, counts one physical write and keeps conservation |
| Flash.WritePagePlaces | sim/SSD.hpp:201-219 | the written page's map entry points at the next slot of the target block, its old slot is unused, every other entry and slot is as before |
| Flash.CompactEffect | sim/SSD.hpp:235-255 | compaction keeps the tables inverse and the mapped pages, leaves as many written slots as valid pages, relocates exactly those, and keeps conservation when the block was full |
| Flash.CompactRemaps | sim/SSD.hpp:248-254 | the q-th kept page is mapped to slot q of the compacted block |
| Flash.CompactKeeps | sim/SSD.hpp:248-254 | no page of another block is remapped by a compaction |
| Flash.EraseEffect | sim/SSD.hpp:119-128 | erasing a block without valid pages loses no page and keeps conservation when the block was full |
| Flash.EraseGoodIff | sim/SSD.hpp:229-233 | erasing keeps the tables inverse exactly when the block has no valid page |
| FlashRuns.TablesInverse | sim/SSD.hpp:201-219 | the map points at a slot exactly when the slot holds the page |
| FlashRuns.CompactionIsStableFilter | sim/SSD.hpp:100-118 | compaction yields the used entries in order followed by unused padding; each page moves to its rank and the map follows |
| FlashRuns.AnyRun | sim/SSD.hpp:201-277 | after any run of host writes, migrations, compactions and erases of full blocks, under any policy: tables inverse, phys = sum of write positions + ppb x erases, mapped pages = pages ever written, valid counters = their number |
| Counting.ValidCountsMapped | sim/SSD.hpp:201-219 | the valid counters of all blocks add up to the number of mapped logical pages |
| Counting.ValidAtMostLogical | sim/SSD.hpp:201-219 | valid pages never exceed logical pages, with equality exactly when every page is mapped |
| Counting.WritePageValid | sim/SSD.hpp:201-219 | an update keeps the number of valid pages, a first write adds one |
| Migration.MoveCounts | sim/SSD.hpp:259-277 | migration moves as many valid pages as fit, from the source to the end of the destination, and changes no other block |
| Migration.MovePages | sim/SSD.hpp:259-277 | the pages that move are those in the first used slots of the source, and they follow the destination's old pages in the same order; the others stay, in order |
| Ssd.Block.constructor | sim/SSD.hpp:67-69 | a new block is erased with every slot unused |
| Ssd.Block.Write | sim/SSD.hpp:70-76 | the next slot takes the page; neither of the two checks fails |
| Ssd.Block.SetUnused | sim/SSD.hpp:77-81 | one used slot is cleared and the counter never underflows |
| Ssd.Block.CompactNoMappingUpdate | sim/SSD.hpp:100-118 | the in-place overwrite loop computes the stable filter |
| Ssd.Block.Erase | sim/SSD.hpp:119-128 | all slots unused, counters zero, one more erase |
| Ssd.SSD.constructor | sim/SSD.hpp:153-165 | the mutable device starts as the fresh value |
| Ssd.SSD.PackedMapConsistent | sim/SSD.hpp:201-219 | on the stored arrays: entry l is b x ppb + p exactly when slot p of block b holds l |
| Ssd.SSD.WritePage | sim/SSD.hpp:201-219 | the in-place write refines the page-write function; decoding the old address finds a used slot |
| Ssd.SSD.EraseBlock | sim/SSD.hpp:229-233 | the in-place erase refines the erase function |
| Ssd.SSD.CompactBlock | sim/SSD.hpp:235-255 | the in-place compaction and its remapping loop refine the compaction function |
| Ssd.SSD.MoveValidPagesTo | sim/SSD.hpp:259-277 | the in-place scan refines the migration function and reports whether pages are left |
| Ssd.SSD.CompactVictims | sim/SSD.hpp:376-402 | the in-place backward loop refines chained compaction and throws exactly where it yields nothing |
| Ssd.SSD.ResetPhysicalCounters | sim/SSD.hpp:404-406 | the report counter restarts while the cumulative count stays |
| GreedyPolicy.Victim | sim/Greedy.hpp:55-67 | a full block with the fewest valid pages, the first such block; none only if no block is full |
| GreedyPolicy.StartReady | sim/Greedy.hpp:28-34 | the initial collector state satisfies the invariant between host writes |
| GreedyPolicy.GcMeansAllFull | sim/Greedy.hpp:44-50 | collection starts only when every block is full |
| GreedyPolicy.HostWriteFails | sim/Greedy.hpp:44-54 | a host write fails exactly when it must collect and the victim has no invalid page |
| GreedyPolicy.HostWriteEffect | sim/Greedy.hpp:44-54 | a host write maps its page, and relocates exactly the victim's valid pages if it collects |
| GreedyPolicy.HostWriteBlocks | sim/Greedy.hpp:44-54 | the page goes to the last written slot of the current block; a full current block is followed by the front of the free list or by the victim just collected; without a collection no other page moves |
| GreedyPolicy.SampledWriteFails | sim/Greedy.hpp:94-110 | k-greedy loses a write exactly when it must collect and every sampled block is all valid |
| Amortization.VictimBelowAverage | sim/Greedy.hpp:55-67 | among all-full blocks the victim holds at most the average number of valid pages, and is all valid only if the device is |
| Amortization.GreedyProgress | sim/Greedy.hpp:44-67 | greedy fails exactly when it must collect and every physical page is valid; never when L < P |
| Amortization.GreedyKeepsAmortized | sim/Greedy.hpp:87-111 | relocations stay within floor(L/B) per erase |
| GreedyGc.GreedyGC.constructor | sim/Greedy.hpp:28-34 | the collector starts with block 0 current and all others free, in order |
| GreedyGc.GreedyGC.SingleGreedy | sim/Greedy.hpp:55-67 | the scanning loop computes the victim |
| GreedyGc.GreedyGC.Sample | sim/Greedy.hpp:94-108 | the sampling loop computes the first sampled minimum |
| GreedyGc.GreedyGC.PerformInPlaceGC | sim/Greedy.hpp:87-111 | in place: compaction of the policy's victim, which joins the free list |
| GreedyGc.GreedyGC.PerformMergeGC | sim/Greedy.hpp:112-118 | in place: one collection of greedy-s2r; fails exactly where the function yields nothing |
| GreedyGc.GreedyGC.MergeLoop | sim/SSD.hpp:322-335 | the merge loop terminates and computes the collection function |
| GreedyGc.GreedyGC.BeginMerge | sim/SSD.hpp:315-321 | keeps or starts the collection block; fails exactly where the check on it does |
| GreedyGc.GreedyGC.CompactUntilFreeBlock | sim/SSD.hpp:314-335 | returns the freed and the running collection block, or fails exactly where the collection function yields nothing |
| GreedyGc.GreedyGC.WritePage | sim/Greedy.hpp:44-54 | refines the host write of the configured policy, greedy, k-greedy or greedy-s2r, and fails exactly where it yields nothing |
| MergeLoop.MergedCounts | sim/SSD.hpp:322-330 | fill, validity and physical writes after a merge step, including the collection block as its own victim |
| MergeLoop.IterationKeeps | sim/SSD.hpp:322-330 | an iteration that frees nothing keeps the loop's state, and relocates exactly its victim's valid pages for one erase |
| MergeLoop.IterationDecreases | sim/SSD.hpp:322-330 | every such iteration decreases 2 x (collection block fill) + (1 if no full block has an invalid page) |
| MergeLoop.IteratePages | sim/SSD.hpp:322-330 | an iteration fills the old collection block with the victim's first pages, in slot order; the rest stay in the victim from slot 0 on, and it is the new collection block |
| MergeLoop.FreeBlockSteps | sim/SSD.hpp:322-335 | if the first iteration empties its victim, that block is freed and the collection block stays; otherwise the loop delivers what it delivers from the next loop head |
| MergeLoop.NoGainMeansEmpty | sim/SSD.hpp:314-335 | if every full block is all valid, the collection block holds no valid page |
| S2RPolicy.BeginFails | sim/SSD.hpp:315-321 | the check on the new collection block fails exactly when every physical page is valid, V = P |
| S2RPolicy.BeginKeeps | sim/SSD.hpp:315 | a running collection block that is not all valid is kept and nothing is done |
| S2RPolicy.BeginStarts | sim/SSD.hpp:315-320 | otherwise exactly the scan's victim is compacted and becomes the collection block |
| S2RPolicy.BeginMerging | sim/SSD.hpp:315-321 | otherwise the loop starts with a collection block that is not all valid and all others full |
| MergeLoop.FreeBlock | sim/SSD.hpp:322-335 | the loop ends with an erased block, every other block but the collection block full, and the same pages mapped |
| MergeLoop.MergeLoopEndsIffRoom | sim/SSD.hpp:322-335 | the loop ends exactly when a block's worth of physical pages is not valid |
| MergeLoop.MergeLoopBound | sim/SSD.hpp:322-335 | with that room it ends within 2 x ppb + 2 iterations |
| S2RPolicy.GatherEnds | sim/SSD.hpp:314-335 | a collection succeeds exactly when that room exists, which is when no check fails and the loop ends |
| S2RPolicy.EndlessIff | sim/SSD.hpp:314-335 | all checks pass and the loop never ends exactly when P - ppb < V < P and there are two blocks |
| S2RPolicy.GatherFits | sim/SSD.hpp:314-335 | if the kept collection block has room for the victim's pages, they are appended to it in order for one erase and it stays the collection block; a victim without valid pages costs no relocation |
| S2RPolicy.GatherAmortized | sim/SSD.hpp:314-335 | a collection relocates at most floor(L/(B-1)) pages per erase |
| S2RPolicy.HostWriteS2R | sim/Greedy.hpp:44-54 | a completed host write keeps the collector's state and maps exactly its page |
| S2RPolicy.HostWriteS2RFails | sim/Greedy.hpp:44-54 | a host write fails exactly when it must collect and V + ppb > P; never with P - L >= ppb |
| S2RPolicy.HostWriteS2RBlocks | sim/Greedy.hpp:44-54 | the page goes to the last written slot of the current block; a full one is followed by the front of the free list or by the block just freed, and the collection block is the one the collection ended with |
| S2RPolicy.S2RKeepsAmortized | sim/Greedy.hpp:112-118 | relocations stay within floor(L/(B-1)) per erase across a host write |
| Chain.FirstVictim | sim/SSD.hpp:390-397 | after the backward loop the first victim has min(ppb, sum of the victims' invalid pages) invalid pages |
| Chain.LaterVictim | sim/SSD.hpp:390-395 | the room left in every later victim, as a formula of the invalid pages |
| Chain.LinkPages | sim/SSD.hpp:390-395 | a link leaves the destination's own pages in front, behind them those of the source that fit, from its first slot on; the others stay in order |
| Chain.CompactListErases | sim/SSD.hpp:376-402 | every victim is erased or compacted exactly once |
| Chain.CompactListFrees | sim/SSD.hpp:376-402 | a block is freed exactly when the victims hold a block's worth of invalid pages |
| Chain.CompactListEffect | sim/SSD.hpp:376-402 | the first victim is erased, later ones keep their surplus, no other block changes |
| Chain.GreedyOrderOutcome | sim/SSD.hpp:376-402 | in greedy order only the first victim and possibly the second end writable, the second with exactly sum - ppb free slots |
| TwoRPolicy.CollectsEmptiest | sim/TwoR.hpp:116-171 | when both regions are rich enough, the block freed first has the fewest valid pages on the whole device |
| TwoRPolicy.SelectGreedy | sim/TwoR.hpp:140-171 | selection reaches a block's worth exactly when the region holds one, in greedy order and with no victim too many |
| TwoRPolicy.SelectParts | sim/TwoR.hpp:140-171 | selected and remaining blocks split the region, none selected twice |
| TwoRPolicy.SelectEach | sim/TwoR.hpp:140-169 | each victim is the first block of fewest valid pages among those of the region not picked before it |
| TwoRPolicy.Gc2RFails | sim/TwoR.hpp:116-197 | collection fails exactly when neither region holds a block's worth of invalid pages |
| TwoRPolicy.Gc2RKeeps | sim/TwoR.hpp:173-197 | a collection keeps the partition, with regions full and free blocks writable, and frees an erased block |
| TwoRPolicy.Gc2RLists | sim/TwoR.hpp:173-197 | the lists after a collection, in order: writable victims are free, full ones follow the cold blocks, both in victim order, all other blocks stay in order |
| TwoRPolicy.Gc2RFiling | sim/TwoR.hpp:184-197 | a block still in the normal region was not touched; every block that was compacted and is full is cold; no block is lost |
| TwoRPolicy.SpareGivesRegion | sim/TwoR.hpp:116-171 | with P - L >= 2 x ppb - 1 collection succeeds |
| TwoRPolicy.HostWrite2RFails | sim/TwoR.hpp:57-70 | a host write fails exactly when it must collect and neither region is rich enough |
| TwoRPolicy.HostWrite2RBlocks | sim/TwoR.hpp:57-70 | the page goes to the last written slot of the current block; a full one joins the end of the normal region, before any collection, and the front of the free list follows |
| TwoRPolicy.HostWrite2RWorks | sim/TwoR.hpp:57-70 | with that spare capacity no host write fails |
| TwoRSpare.SpareIsTight | sim/TwoR.hpp:116-171 | one page short of that spare capacity a run of host writes from the empty device fails |
| FifoPolicy.FileAllList | sim/TwoR.hpp:242-272 | filing keeps the other queued blocks in order and rotates still-full victims to the back |
| FifoPolicy.ScanEnds | sim/TwoR.hpp:262-271 | the scan pointer ends on the first node ahead of it that was not collected, else on the first victim queued again, and past the end exactly when there was a moment with neither |
| FifoPolicy.GcFifoKeeps | sim/TwoR.hpp:232-276 | current, free and queued blocks still partition the block ids, the scan pointer is in range, a block is freed |
| FifoPolicy.GcFifoLists | sim/TwoR.hpp:232-276 | the queue and the free list after a collection, in order: writable victims are free, full ones follow the other queued blocks, both in victim order |
| FifoPolicy.HostWriteFifo | sim/TwoR.hpp:57-70 | every host write keeps that state and maps exactly its page; it fails exactly when it must collect and the scanned victims are too poor |
| FifoPolicy.HostWriteFifoBlocks | sim/TwoR.hpp:57-70 | a full current block joins the end of the queue, before any collection, and the front of the free list follows; a current block with room leaves the queue alone; the page goes to its last written slot |
| TwoRGc.TwoRCollector.constructor | sim/TwoR.hpp:33-55 | the collector starts with block 0 current, all others free, empty regions and an empty queue |
| BlockLists.MinValidFirst | sim/TwoR.hpp:84-94 | of several blocks with the fewest valid pages the first in the list is taken |
| TwoRGc.TwoRCollector.MinElement | sim/TwoR.hpp:84-94 | the minimum search computes the first block of fewest valid pages |
| TwoRGc.TwoRCollector.TotalInvalid | sim/TwoR.hpp:96-114 | the summing loop computes the region's invalid pages |
| TwoRGc.TwoRCollector.GarbageCollectColdRegion | sim/TwoR.hpp:116-138 | the branches compute the region choice |
| TwoRGc.TwoRCollector.SelectFrom | sim/TwoR.hpp:144-169 | the selection loop computes the selection and its invalid total |
| TwoRGc.TwoRCollector.GarbageCollect2RGreedy | sim/TwoR.hpp:173-197 | the in-place collection refines the collection function |
| TwoRGc.TwoRCollector.EraseNode | sim/TwoR.hpp:263-271 | erasing a queue node moves the scan iterator off it |
| TwoRGc.TwoRCollector.FileVictim | sim/TwoR.hpp:242-271 | files one compacted victim as the queue function does |
| TwoRGc.TwoRCollector.GarbageCollect2RFIFO | sim/TwoR.hpp:232-276 | the in-place collection and filing loop refine the queue functions |
| TwoRGc.TwoRCollector.WritePage | sim/TwoR.hpp:57-70 | refines the host write of the configured policy and fails exactly where it yields nothing |
| Runs.WriteFails | sim/sim.cpp:88-92 | for each of the five policies, the exact condition under which a host write fails |
| Runs.WritePlaced | sim/SSD.hpp:201-219 | under every policy the page written lies in the last written slot of the current block |
| Runs.RunKeepsPages | sim/sim.cpp:88-92 | over any run under any policy the mapped pages are those mapped before and those written |
| Runs.RunFromStart | sim/sim.cpp:37-112 | from an empty device under any policy: tables inverse, phys = sum of write positions + ppb x erases, mapped pages = pages ever written, V = their number |
| Runs.FullMapStays | sim/sim.cpp:88-92 | once all pages are mapped they stay mapped and V = L, under any policy |
| Runs.FirstCollection | sim/sim.cpp:43-46 | before its first erase a collector of any policy starts collecting exactly when P pages were written |
| Runs.NoGcBeforeCapacity | sim/sim.cpp:43-46 | the first P host writes never collect, whatever they are, under any policy |
| Runs.SequentialFill | sim/sim.cpp:43-46 | the sequential fill with L <= P erases nothing, writes each page once and leaves every page valid, under any policy |
| Runs.FillOrderFromStart | sim/TwoR.hpp:57-70 | until P pages are written every policy fills the blocks in the order of their ids, and the queue of 2R-FIFO and the normal region of 2R-greedy list them in that order |
| Runs.SpareSuffices | sim/sim.cpp:88-92 | every run completes: greedy with L < P, greedy-s2r with P - L >= ppb, 2R-greedy with P - L >= 2 ppb - 1 |
| Runs.SpareExact | sim/sim.cpp:88-92 | greedy completes every run exactly when L < P, greedy-s2r exactly when P - L >= ppb |
| Runs.EndlessReached | sim/SSD.hpp:322-330 | with P - ppb < L < P a run from the empty device leads greedy-s2r into a merge loop that never ends |
| Runs.WriteAmplification | sim/Greedy.hpp:44-119 | for every completed run phys x (ppb - m) <= ppb x host writes, with m = floor(L/B) for greedy and floor(L/(B-1)) for greedy-s2r |
| Sim.WritePage | sim/sim.cpp:36-46 | one host write through whichever collector the benchmark was given refines the write of its policy |
| Sim.WritePages | sim/sim.cpp:88-92 | the write loop over any collector performs the run of its policy, or fails exactly where that run does |
| Sim.RunBench | sim/sim.cpp:37-112 | over any collector, fill, load and repetitions form one run; the sum of the counters reset in between is the growth of the cumulative count |
| ZnsPattern.NextSound | shared/PatternGen.hpp:435-464 | an access keeps active zones distinct and in range, yields the next page of its slot's zone, below zones x ppz |
| ZnsPattern.NextMoves | shared/PatternGen.hpp:447-461 | a slot whose zone is used up moves to the drawn zone, which no slot used, and takes its first page; otherwise it takes the next page of its zone; no other slot is touched |
| ZnsPattern.SomeUnused | shared/PatternGen.hpp:450-455 | with fewer slots than zones an unused zone always exists |
| ZnsPattern.DiscardsAtZoneStart | iob/RequestGenerator.hpp:443-456 | the byte condition for a discard holds exactly at the first page of a zone |
| ZnsPattern.DiscardCoversZone | iob/RequestGenerator.hpp:447-451 | the bytes discarded there are those of the zone exactly when the page size is the request size |
| ZnsPattern.IssueAccepted | iob/RequestGenerator.hpp:443-456 | with that page size the device accepts each byte range discarded and each write, and stays in step with the generator |
| ZnsPattern.ZnsTraceLegal | shared/PatternGen.hpp:435-464 | a zoned device accepts the whole trace of a run exactly when the page size is the request size: zones are written 0..ppz-1 in order, a discard of exactly that zone precedes precisely the first write, no partly written zone is discarded |
| ZnsPattern.TraceInRange | shared/PatternGen.hpp:435-464 | every generated page is below the logical page count |
| ZnsAccess.ZnsGenerator.ParseAndInit | shared/PatternGen.hpp:415-433 | set-up succeeds exactly when both checks hold and then starts with unassigned slots |
| ZnsAccess.ZnsGenerator.AccessZNS | shared/PatternGen.hpp:435-464 | the in-place access refines the access function for the slot the frequency picks and the first drawn zone not in use, and stays in range |
| ZnsAccess.ZnsGenerator.DrawUnused | shared/PatternGen.hpp:451-455 | drawing ends with the first drawn zone that is not in use |
| ZnsAccess.RunZns | shared/PatternGen.hpp:435-464 | a run over the mutable generator, for any frequencies and any draws in which more zones come up than are active, yields the trace of the access function for the slots the frequencies pick, and the device accepts it |
| ZoneLayout.RemainderSmall | shared/PatternGen.hpp:332-343 | the remainder after rounding down is non-negative and below the number of zones |
| ZoneLayout.CountsNearShare | shared/PatternGen.hpp:333-344 | no zone is more than one page away from its exact share |
| ZoneLayout.RemainderFirst | shared/PatternGen.hpp:339-344 | every zone has its whole pages, and the pages left over go to the first zones, one each |
| ZoneLayout.ZonesTile | shared/PatternGen.hpp:345-352 | the zones tile the page range: every page in exactly one zone, nothing outside |
| ZoneLayout.InitZones | shared/PatternGen.hpp:325-352 | the set-up loops compute counts and offsets; neither check fails |
| ZoneLayout.PickZone | shared/PatternGen.hpp:377-386 | the pick is the first zone whose cumulative frequency reaches the draw, and stays in range |
| ZoneLayout.AccessZones | shared/PatternGen.hpp:387-394 | a generated page is the chosen zone's offset plus the draw and lies in that zone |
| Raid.CalcSplit | iob/io/Raid.hpp:16-21 | chunk number row x devices + d goes to device d at row, byte for byte |
| Raid.CalcBijective | iob/io/Raid.hpp:16-21 | striping and its explicit inverse are bijective |
| Raid.OneRangeIff | iob/io/Raid.hpp:16-21 | a request maps to one range of one device exactly when there is one device or it stays inside a chunk |
| Raid.AlignedRequestsDisjoint | iob/io/Raid0Channel.hpp:144-150 | aligned requests map to one range each, disjoint ones to disjoint ranges |
| RequestStacks.PlacesAddUp | iob/io/RequestStack.hpp:32-35 | free, pushed, outstanding and user-held requests add up to the maximum |
| RequestStacks.PlacesDisjoint | iob/io/RequestStack.hpp:23-106 | each request is in exactly one of the four places |
| RequestStacks.PopKeeps | iob/io/RequestStack.hpp:40-48 | taking a free request keeps that |
| RequestStacks.PushToSubmitKeeps | iob/io/RequestStack.hpp:50-53 | queueing a user-held request keeps that |
| RequestStacks.MoveFreeKeeps | iob/io/RequestStack.hpp:55-67 | the direct path equals taking and queueing |
| RequestStacks.PopSubmitKeeps | iob/io/RequestStack.hpp:82-96 | handing over a queued request keeps that |
| RequestStacks.EmptySubmitKeeps | iob/io/RequestStack.hpp:69-80 | handing over the whole queue keeps that |
| RequestStacks.ReturnKeeps | iob/io/RequestStack.hpp:98-106 | returning an outstanding request keeps that |
| RequestStacks.LastInFirstOut | iob/io/RequestStack.hpp:40-106 | a returned request is the next one taken, a queued one the next one handed over |
| RequestStacks.RequestStack.constructor | iob/io/RequestStack.hpp:23-30 | all requests start free, in order |
| RequestStacks.RequestStack.Outstanding | iob/io/RequestStack.hpp:32-35 | max - free - pushed counts the outstanding requests when nothing is user-held |
| RequestStacks.RequestStack.PopFromFreeStack | iob/io/RequestStack.hpp:40-48 | in-place pop within bounds; false exactly when none is free |
| RequestStacks.RequestStack.PushToSubmitStack | iob/io/RequestStack.hpp:50-53 | in-place push within bounds |
| RequestStacks.RequestStack.MoveFreeToSubmitStack | iob/io/RequestStack.hpp:55-67 | in-place move within bounds |
| RequestStacks.RequestStack.EmptySubmitStack | iob/io/RequestStack.hpp:69-80 | the loop makes every queued request outstanding |
| RequestStacks.RequestStack.PopFromSubmitStack | iob/io/RequestStack.hpp:82-96 | in-place pop; false exactly when nothing is queued |
| RequestStacks.RequestStack.ReturnToFreeList | iob/io/RequestStack.hpp:98-106 | in-place return within bounds |
| Pools.PushNeverThrows | iob/io/Raid0Channel.hpp:107-115 | an id is available exactly when a request object is free, so the channel cannot throw |
| Pools.PushAgreed | iob/RequestGenerator.hpp:437-458 | pushing keeps the pools in agreement |
| Pools.SubmitAgreed | iob/io/Raid0Channel.hpp:144-151 | submitting one request keeps it |
| Pools.SubmitAllAgreed | iob/io/Raid0Channel.hpp:144-181 | submitting all queued requests keeps it, each with its striped place |
| Pools.CompleteAgreed | iob/io/Raid0Channel.hpp:153-166 | a completion returns id and object and keeps it, whichever request completes |
| Pools.ReusedTogether | iob/RequestGenerator.hpp:395-402 | the id and the object a completion returned are the ones the next push takes, together |
| Pools.PoolSafety | iob/RequestGenerator.hpp:415-460 | in every reachable state, for any completion order: counts agree and requests in flight have distinct ids and disjoint data buffers |
| Pools.DrainedPoolsFull | iob/RequestGenerator.hpp:507-511 | everything issued is done exactly when all ids are back, and then all objects are |
| IoGenerator.Raid0Channel.Push | iob/io/Raid0Channel.hpp:107-115 | fills the top free object and queues it; throws exactly when none is free |
| IoGenerator.Raid0Channel.Submit | iob/io/Raid0Channel.hpp:129-182 | the loop hands over every queued request with its striped place and counts it |
| IoGenerator.RequestGenerator.constructor | iob/RequestGenerator.hpp:333-342 | all ids start available and agree with a fresh channel |
| IoGenerator.RequestGenerator.PushNext | iob/RequestGenerator.hpp:437-458 | takes the top id and queues the top free object with it and the given address; the channel has a free object |
| IoGenerator.RequestGenerator.CompleteOne | iob/RequestGenerator.hpp:395-402 | the callback and the channel's return step together refine a completion |
| IoGenerator.RequestGenerator.Poll | iob/RequestGenerator.hpp:463-471 | any number of completions in any order keeps the agreement |
| IoGenerator.RequestGenerator.RunIo | iob/RequestGenerator.hpp:381-511 | the loop keeps the agreement; when drained, every id and object is back |

## Left out

- The LRU write buffer and its `incache` state: its size is always 0.
- Block groups and the callback versions of migration and merging: nothing calls them; likewise the limited greedy scan.
- Statistics and printing: erase ages, collection generations, written-by-GC flags, per-page update counts.
- 64-bit and 32-bit wrap-around: integers are unbounded, sentinels are an option type.
- What the state is after a failed check: the program ends there; the model only says when it happens.
- TwoRGc.TwoRCollector.GarbageCollect2RFIFO: the floating-point thresholds by which 2R-FIFO scans for victims are replaced by any duplicate-free choice from the queue and any new scan position; the cold insertion iterator, which is past the end at every call, is not a field.
- GreedyGc.GreedyGC.CompactUntilFreeBlock: stands in the collector because its block source is always the greedy scan.
- GreedyGc.GreedyGC.WritePage: takes as given that greedy-s2r is not in a state where the merge loop of the program never ends; S2RPolicy.EndlessIff says which states those are.
- Sim.RunBench: the same for every write of the run. Log files, rates and the replacement of the pattern generator half-way are not modelled.
- Runs.WriteAmplification: no amplification bound is stated for k-greedy and the 2R policies.
- Runs.SpareSuffices: none is stated for k-greedy and 2R-FIFO, whose victims may be too poor whatever the spare capacity.
- TwoRSpare.SpareIsTight: one device on which the spare capacity of 2R-greedy cannot be lowered; the exact spare capacity for every device is not stated.
- Ssd.SSD.EraseBlock: takes a block without valid pages as given, as all its callers do; Flash.EraseGoodIff says that the tables break otherwise.
- TwoRGc.TwoRCollector.WritePage: the lists that only the other variant reads (the queue under 2R-greedy, the regions under 2R-FIFO) are kept as in the program, but nothing is stated about them.
- Random draws: victims sampled by k-greedy, zone picks and drawn zones are arbitrary inputs in range.
- ZnsAccess.ZnsGenerator.AccessZNS: takes a finite list of draws in which some zone is unused, where the program draws until that happens; that such a zone exists is ZnsPattern.SomeUnused. Calls hold the mutex, so each is one step.
- ZnsPattern.ZnsTraceLegal: for one generator, unshuffled, writing only, in generation order, with offset 0; the zones of the device are as long as the zones of the pattern, and a discard must name exactly one of them.
- ZoneLayout.InitZones: relative sizes and frequencies are reals; rounding of doubles is not modelled.
- ZoneLayout.AccessZones: draws a page inside the chosen zone, so that zone must have a page.
- IoGenerator.RequestGenerator.RunIo: the run and the drain are bounded by given numbers of rounds, since stopping and the device's progress are outside the program; submitted and polled are fields, for the single run of a generator.
- Request kinds, data contents, write-back copies, rate limiting, breaks, latency counters and remote channels.
- Address patterns other than zones and ZNS, trace parsers, samplers, histograms, command lines, the I/O back ends and the scripts: floating point, foreign calls, or easy claims only.
