# NVMeVirt, modelled in Dafny

NVMeVirt emulates an NVMe SSD in the Linux kernel. This project models six of its parts and proves what they
are for. Each C object with state is a class with the same fields, each C function a method; what a method does
to the state is stated by a function of the state it found, and the properties are proved about those functions.
`dafny verify dfyconfig.toml` checks everything.

- **The SLC-cached page-mapping FTL** (`conv_ftl.c`, with `ssd.c`). `Geometry` and `SsdParams` hold the geometry,
  `Pqueue` and `LineMgmt` the victim heaps and line lists, `FtlState` the invariant, `FtlSteps`, `FtlOps`,
  `FtlBounds`, `FtlInit`, `FtlGc`, `FtlSweep` and `FtlVictim` what each operation does to it, `FtlFlow` the write
  credits and rounds of collection, `FtlRuns` whole runs, `FtlSpace` how the pages divide up, `FtlLife` how long a
  host can go on, `ConvFtl` the FTL object of one partition, `ConvRuns` a host that writes on and on, and `Striping`, `WriteBuffer`, `ConvRead` and
  `ConvNs` the namespace over several partitions with `conv_write` and `conv_read`; `ConvDevice` joins it to the
  worker that carries out the releases of its write buffer. The invariant, `FtlState.Inv`, is written for a line
  under collection and the set of its pages already dealt with; between page writes there is no such line. The C
  code's `NVMEV_ASSERT`s are `assert` statements. The one that fails is that TLC never runs out of lines: the
  methods return "not ok" there, and the contracts say exactly when.
- **The I/O worker queue** (`io.c`), `IoQueue`: a free chain and a time-ordered in-flight chain through one array.
- **PRP transfers** (`io.c`), `Prp`: the page-by-page loop and the DMA loop that joins adjacent pages (section 4.3
  of NVM Express Base Specification, revision 1.4).
- **The channel bandwidth model** (`channel_model.c`), `ChannelModel`: a ring of credits against an unbounded
  ledger of time slots.
- **The key-value FTL** (`kv_ftl.c`): `KvTable`, coalesced hashing against a finite map, and `KvStore`, which runs
  of stores read back what was stored.
- **The zone state machine** (`zns_*`): `Zns`, zone states, write pointers and resource counts (section 2.1.1.3 of
  Zoned Namespace Command Set Specification, revision 1.1a), with `ZoneBuffer`, the write-buffer bytes of a zone.

`Radix` and `Counting` hold arithmetic and cardinality facts, `Wrappers` the option type.

## Where the code differs from what it is for

- A partition accepts as many LPNs as it has pages, but at most `FtlSpace.Capacity` of them can ever be mapped
  (`FtlSpace.RunsStayBelow`); a host that writes more stops the kernel, for want of TLC pages
  (`ConvRuns.WriteAll`). The size that the host is told (`main.c`, line 538) is more than that for some sizes of
  the device and not for others: with the shipped configuration exactly where the device falls short of a
  multiple of 768 MiB by no more than `ConvRuns.PromisedTooMuch` says, among them the two sizes of the
  repository's README (`ConvRuns.DocumentedSizes`) and all from 977.25 GiB on (`ConvRuns.LargeSizes`). A host gets
  through if its writes are few (`FtlLife.ShortRunsGoOn`), or for ever if its LPNs are
  (`FtlLife.SparseRunsGoOn`).
- `foreground_gc` says that it collects until there is enough space; it runs at most one collection and one
  migration. That is enough for the SLC cache never to starve with at least two SLC lines
  (`FtlFlow.PageWrittenSteady`), and not with one: there the last page of the line is the end of every run
  (`FtlFlow.OneSlcLineRun`).
- Nothing checks that SLC one-shot pages are whole flash pages; where they are not, the flash pages that a
  collection goes through are not the whole block (`SsdParams.SlcFlashpgsTile`, `SsdParams.HalfFlashPage`).
- The write buffer is charged in bytes and released in pages, so each write that is not page-aligned leaves it
  with more free bytes than it should have; the accounts balance exactly for aligned writes (`Striping.PagesHold`,
  `ConvNs.Namespace.Write`), and a drained buffer can hold more than its size (`ConvNs.OverfillBuffer`).
- A request or a buffer release for which only one free queue entry is left is dropped (`IoQueue.Worker.Enqueue`);
  each dropped release costs the buffer a one-shot page (`ConvDevice.Device.Write`, `ConvDevice.LoseRelease`).
- The channel model keeps the slots that have passed in 32 bits: after 2^32 idle slots, about five hours, old
  bookings can come back (`ChannelModel.AgeingExact`).
- A store to a key that is there is written over its old bytes, however long it is and even if its length is
  refused. Runs of stores read back what was stored exactly if each length is taken and no store meets another
  key's bytes (`KvStore.StoreExact`, `KvStore.RunExact`); a small value that grows
  (`KvStore.GrowthOverwrites`) and a length that is refused (`KvStore.RefusedLength`) do not.
- A zone write that is refused keeps the write-buffer bytes it took, and one that ends inside the last page of a
  one-shot page releases that one-shot page twice (`Zns.ZnsFtl.Write`, `Zns.OverfillBuffer`). A reset loses the
  bytes of an unfinished one-shot page (`Zns.ZnsFtl.Send`, `Zns.LeakByReset`).

## Model

| member | source | states |
|---|---|---|
| Geometry.IdxRoundTrip | conv_ftl.c:58-83 | the page index of a valid address lies below tt_pgs, and successive division by the sizes of channel, LUN and block gives the address back |
| Geometry.IdxInjective | conv_ftl.c:58-83 | two valid addresses with the same index are the same address, across the SLC and TLC block sizes |
| Geometry.IdxOnto | conv_ftl.c:58-83 | every index below tt_pgs belongs to a valid address |
| Geometry.FlashpgsTileBlock | ssd.c:211-251 | in both regions the flash pages of a block make up exactly its pages |
| Geometry.RankRoundTrip | conv_ftl.c:321-374 | the place of a page in the write order of its line is below pgs_per_line, and the closed form for the k-th place gives the page back |
| Geometry.RankInjective | conv_ftl.c:321-374 | no two pages of a line have the same place in the write order |
| Geometry.RankOnto | conv_ftl.c:321-374 | every place below pgs_per_line belongs to a valid page: one pass of the pointer visits every page of the line |
| Geometry.NextInLineRank | conv_ftl.c:353-374 | one step of the write pointer is one step in the write order, and the line is used up exactly on its last page |
| Geometry.RankOrder | conv_ftl.c:353-374 | the write order compares pages by one-shot page, then LUN, then channel, then the page inside the one-shot page |
| SsdParams.Params.InitSlc | ssd.c:174-287 | the computed parameters are those of the geometry of the model |
| SsdParams.SlcFlashpgsTile | ssd.c:207-251 | the flash pages of an SLC block make up its pages if and only if an SLC one-shot page is a whole number of flash pages, up to less than a page; the code does not assert this |
| SsdParams.TlcFlashpgsTile | ssd.c:207-216 | for TLC blocks the asserted divisibility is enough |
| SsdParams.GeometryFits | ssd.c:174-287 | exactly which accepted configurations give a geometry that the FTL can run on, with a line for each of its two write pointers |
| SsdParams.ShippedGeometry | ssd_config.h:67-123 | the SAMSUNG_970PRO configuration does, with 102 SLC lines in every partition |
| SsdParams.HalfFlashPage | ssd.c:248-251 | with SLC one-shot pages of half a flash page the accepted configuration has SLC blocks of pages but of no flash page |
| Pqueue.Pqueue.BubbleUp | pqueue/pqueue.c:56-71 | from a heap in which one element may be too deep: a heap of the same elements, with every stored position exact |
| Pqueue.Pqueue.MaxChild | pqueue/pqueue.c:73-85 | a child of least priority value, or 0 exactly for a leaf |
| Pqueue.Pqueue.PercolateDown | pqueue/pqueue.c:87-102 | from a heap in which one element may be too high: a heap of the same elements, with every stored position exact |
| Pqueue.Pqueue.Insert | pqueue/pqueue.c:104-129 | keeps heap order and positions and adds exactly the element |
| Pqueue.Pqueue.ChangePriority | pqueue/pqueue.c:131-142 | gives the element its new priority and changes nothing else but positions |
| Pqueue.Pqueue.Remove | pqueue/pqueue.c:144-154 | removes exactly the element, also from the last slot, and leaves its stored position for the caller to reset |
| Pqueue.Pqueue.Pop | pqueue/pqueue.c:156-168 | removes a line with the fewest valid pages, the one in the root |
| Pqueue.Pqueue.Peek | pqueue/pqueue.c:170-178 | the root, which no element is below; nothing exactly on an empty heap |
| Pqueue.RootIsLeast | pqueue/pqueue.c:170-178 | the root of a heap has the least priority of all elements |
| Pqueue.IsValidIffOrdered | pqueue/pqueue.c:225-247 | the validity check from the root succeeds exactly on heaps |
| LineMgmt.HeapHasRoom | conv_ftl.c:170-198 | a heap sized for all lines of its region has room for any line not in it, so the overflow that pqueue_insert only logs cannot happen |
| LineMgmt.LineMgmt.InitLines | conv_ftl.c:143-229 | all lines of a region on its free list, in order |
| LineMgmt.LineMgmt.AddVictim | conv_ftl.c:376-394 | puts a line into the victim heap; a line has a nonzero position exactly while it is in the heap |
| LineMgmt.LineMgmt.RemoveVictim | conv_ftl.c:953-965 | takes a line out of the heap and clears its position |
| LineMgmt.LineMgmt.PopVictim | conv_ftl.c:1018-1026 | pops the root and clears its position |
| LineMgmt.LineMgmt.LosePage | conv_ftl.c:706-736 | a line loses a valid page in its heap if it is in one; a full line becomes a victim |
| LineMgmt.LineMgmt.CloseLine | conv_ftl.c:376-394 | a used-up line goes to the full list when all its pages are valid and to the heap otherwise |
| LineMgmt.LineMgmt.TakeFree | conv_ftl.c:260-280 | takes the first free line; fails exactly when there is none |
| FtlState.MappingInjective | conv_ftl.c:1412-1441 | no two LPNs share a page, in every state between page writes |
| FtlState.ValidIffMapped | conv_ftl.c:1412-1441 | a page is PG_VALID exactly when an LPN maps to it, and rmap then names that LPN |
| FtlState.LineInOnePlace | conv_ftl.c:143-229 | every line is on the free list, on the full list, in the victim heap or open, and in only one of these |
| FtlBounds.InvalidBounds | conv_ftl.c:693-734 | the counter assertions of mark_page_invalid hold on every valid page |
| FtlBounds.ProgramBounds | conv_ftl.c:763-776 | the assertions of mark_page_valid hold on the page under either write pointer |
| FtlBounds.LineBounds | conv_ftl.c:376-393 | no line counts more valid and invalid pages than it has pages |
| FtlInit.FreshOk | conv_ftl.c:470-501 | a new FTL satisfies the invariant and has every LPN unmapped |
| FtlSteps.WriteAtCursor | conv_ftl.c:1428-1436 | the page under a write pointer is free, and programming it touches no other line |
| FtlSteps.AdvanceOk | conv_ftl.c:321-419 | moving a write pointer on keeps its region, closing its line and opening the next as needed |
| FtlSteps.DemoteOk | conv_ftl.c:706-736 | invalidating a valid page keeps its region, turning a full line into a victim |
| FtlOps.ProgramOk | conv_ftl.c:1428-1436 | mapping an LPN to the page under a pointer keeps the invariant, with the old page excepted |
| FtlOps.AdvanceFails | conv_ftl.c:396-404 | a pointer cannot move on exactly when its line is used up and no line of its region is free |
| FtlOps.ForgetOk | conv_ftl.c:1416-1420 | giving up the old page of an LPN keeps the invariant |
| FtlOps.HostWriteOk | conv_ftl.c:1412-1446 | a host page write keeps the invariant, and fails exactly when it fills an SLC line and none is free |
| FtlOps.HostWriteView | conv_ftl.c:1412-1446 | a host page write changes what its LPN reads back to the data written, and no other LPN |
| FtlGc.CopyPageOk | conv_ftl.c:833-883 | copying a valid page of the victim keeps the progress of the collection, is invisible to lookups, and fails exactly when one TLC page is left |
| FtlGc.EraseOk | conv_ftl.c:779-809 | erasing a block whose pages have all been dealt with keeps the progress of the collection |
| FtlGc.FinishOk | conv_ftl.c:1115-1135 | with its pages erased, putting the victim on the free list restores the invariant without exception |
| FtlSweep.AllMoved | conv_ftl.c:1171-1217 | the flash-page loops reach every page of the victim: the pages moved are as many as its valid-page count |
| FtlSweep.Finished | conv_ftl.c:1137-1223 | what a whole collection does: lookups unchanged, only LPNs of the victim moved and those to TLC pages elsewhere, the victim erased and at the end of its region's free list, TLC lines taken only from the front of theirs, TLC space down by its valid pages and up by its size if it is a TLC line |
| FtlVictim.AgeLevels | conv_ftl.c:886-902 | the weight at both ends of each age band, from 1 below 5 s to 250 from 200 s on; an older band weighs at least twice as much, and the same band the same |
| FtlVictim.CostSamples | conv_ftl.c:904-915 | a half valid line of 48 pages costs 10^12 with the least weight and 4 * 10^9 with the greatest; a third and a fully valid one |
| FtlVictim.FewerPagesCostLess | conv_ftl.c:904-915 | a line with fewer valid pages and no smaller weight costs strictly less |
| FtlVictim.OlderCostsLess | conv_ftl.c:904-915 | a line with as many valid pages, but not none, of an older band costs strictly less |
| FtlVictim.ChosenPreferred | conv_ftl.c:917-945 | in counters and microseconds: if a victim has least cost, every victim with fewer valid pages is in a younger age band, no victim with as many is in an older one, and none is free of valid pages unless it is |
| FtlVictim.CostBound | conv_ftl.c:904-915 | no cost reaches the initial minimum of the search, so some victim is always chosen |
| ConvFtl.Partition.constructor | conv_ftl.c:470-501 | builds the fresh state |
| ConvFtl.Partition.InitLines | conv_ftl.c:143-229 | all lines of both regions on their free lists |
| ConvFtl.Partition.PrepareWritePointer | conv_ftl.c:292-319 | opens the first free line of the pointer's region; its assertion is that there is one |
| ConvFtl.Partition.GetNextFreeLine | conv_ftl.c:260-280 | takes the first free line of the region that dyn_slc_mode selects |
| ConvFtl.Partition.MarkPageInvalid | conv_ftl.c:666-737 | moves one page from valid to invalid in page, block and line, and between the line lists; its assertions hold |
| ConvFtl.Partition.MarkPageValid | conv_ftl.c:739-777 | moves one page from free to valid in page, block and line; its assertions hold |
| ConvFtl.Partition.MarkBlockFree | conv_ftl.c:779-809 | frees exactly the pages of the block and clears its counters |
| ConvFtl.Partition.StepPointer | conv_ftl.c:353-374 | the pointer arithmetic is the step of the write order |
| ConvFtl.Partition.AdvanceWritePointer | conv_ftl.c:321-419 | moves a write pointer past the page just programmed; not ok exactly when no line is left to open |
| ConvFtl.Partition.GcWritePage | conv_ftl.c:833-883 | moves the LPN that rmap names to the next TLC page, and is not ok exactly when that is the last TLC page |
| ConvFtl.Partition.CleanOneFlashpg | conv_ftl.c:1059-1113 | deals with every page of one flash page of the victim |
| ConvFtl.Partition.CountValid | conv_ftl.c:1074-1082 | counts the valid pages of a flash page, none of which is free |
| ConvFtl.Partition.SelectVictimLineSlc | conv_ftl.c:977-1030 | the SLC victim with the fewest valid pages, or the line that has been full longest when there is none; unforced, only if at most an eighth is valid |
| ConvFtl.Partition.SelectVictimLine | conv_ftl.c:917-975 | a TLC victim whose cost is least of all, whenever there is a victim: every victim with fewer valid pages is younger, none with as many is older, by age bands in microseconds |
| ConvFtl.Partition.MarkLineFree | conv_ftl.c:1115-1135 | clears the line's counters and appends it to its region's free list |
| ConvFtl.Partition.DoGc | conv_ftl.c:1137-1223 | collects the chosen victim, if there is one, exactly when its valid pages are fewer than the TLC pages left; the result is that of FtlSweep.Finished; a TLC victim is one that SelectVictimLine prefers |
| ConvFtl.Partition.ForegroundGc | conv_ftl.c:1225-1241 | nothing above the thresholds; otherwise at most one TLC collection and one migration, in that order, or the point where TLC pages ran out |
| ConvFtl.Partition.Remap | conv_ftl.c:1412-1446 | a host page write up to the pointer move is the one of the model, and fails exactly when that does |
| ConvFtl.Partition.WritePage | conv_ftl.c:1412-1472 | one pass of the write loop keeps the steady state and changes only its LPN's contents; it can only fail inside a collection, for want of TLC pages |
| FtlFlow.FreshSteady | conv_ftl.c:241-253 | a new FTL has full write credits and enough free SLC lines |
| FtlFlow.HostWriteRuns | conv_ftl.c:396-404 | between page writes the next write always finds its SLC page |
| FtlFlow.CreditsLeft | conv_ftl.c:127-141 | a write uses one credit, and the credits are the pages left in the open SLC line; they run out exactly as that line does |
| FtlFlow.ForegroundEffect | conv_ftl.c:1225-1241 | a round of collection leaves lookups and the host pointer alone; with more than two free SLC lines it does nothing, and otherwise frees one and restores the credits to refill, and collects a TLC victim exactly if there is one and no more than two TLC lines are free |
| FtlFlow.RoomEnough | conv_ftl.c:1225-1241 | a round can fail only when the TLC pages left are no more than a single line may need |
| FtlFlow.GcGains | conv_ftl.c:1137-1223 | collecting a TLC victim frees exactly its invalid pages, at least one, and never leaves fewer free lines |
| FtlFlow.MigrationCosts | conv_ftl.c:1137-1223 | migrating an SLC line costs exactly its valid pages of TLC space and frees that line |
| FtlFlow.PageWrittenSteady | conv_ftl.c:1412-1472 | every completed page write, with whatever it collected, keeps the steady state and is all that lookups see |
| FtlFlow.OneSlcLineStarves | conv_ftl.c:396-404 | with a single SLC line the cache does starve: filling the line leaves none to open |
| FtlFlow.OneSlcLineRun | conv_ftl.c:396-404 | from the fresh state, with a single SLC line, host writes go on for exactly one page less than the line has, whatever they write |
| FtlFlow.HostPointer | conv_ftl.c:421-436 | a page write moves the host pointer by one page, whatever it collects |
| FtlRuns.RunReads | conv_ftl.c:1412-1472 | in every run of page writes from a new FTL the free SLC lines never drop below three (or all but the open one on a smaller cache), and every LPN reads back what was last written to it |
| FtlRuns.CountersAddUp | conv_ftl.c:666-777 | the valid-page counters of all lines add up to the number of mapped LPNs |
| FtlSpace.SpaceConserved | conv_ftl.c:1137-1241 | mapped LPNs, invalid pages and the pages that can still be programmed in either region always make up all pages of the partition |
| FtlSpace.MappedBound | conv_ftl.c:1225-1241 | mapped LPNs and the pages of free SLC lines are at most all pages but two; so there is a capacity that the mapped LPNs never exceed |
| FtlSpace.RunsStayBelow | main.c:534-539 | no run writes more distinct LPNs than the capacity, which is less than the LPNs there are |
| FtlLife.WriteSpace | conv_ftl.c:1225-1241 | a page write with the round that it sets off takes at most one page from what can still be programmed in both regions |
| FtlLife.FailSpace | conv_ftl.c:1225-1241 | where a round runs out of TLC pages, no more than three SLC lines and what one line may need can still be programmed, and the write took the last credit |
| FtlLife.ShortRunsGoOn | conv_ftl.c:1411-1472 | as long as a run's writes and that last space together are fewer than the partition's pages, the next write does not run out, whatever is written and collected |
| FtlLife.CheapLine | conv_ftl.c:904-914 | a line with less than one page in d valid costs little, however young |
| FtlLife.DearLine | conv_ftl.c:904-914 | a line with fewer invalid pages than an SLC line has pages costs more than that, however old, if d is large enough |
| FtlLife.SparseLine | conv_ftl.c:917-945 | with few LPNs mapped and few free TLC lines, some TLC victim has less than one page in d valid |
| FtlLife.ChosenGains | conv_ftl.c:917-945 | so the victim that the cost-benefit choice takes has at least as many invalid pages as a migration can cost |
| FtlLife.SparseRunsGoOn | conv_ftl.c:1411-1472 | a host that keeps to few LPNs never runs out of TLC pages, however long it writes and whatever the ages of the lines |
| ConvRuns.WriteAll | conv_ftl.c:1411-1472 | page writes from a new FTL are a run; more distinct LPNs than the capacity, as when every LPN is written, end it where the TLC region has no pages left for a collection; all are served if they, or their LPNs, are few enough |
| ConvRuns.PromisedTooMuch | main.c:534-539 | for every device size: with the shipped configuration a partition is promised more pages than its capacity if and only if the size is short of the next multiple k of 768 MiB by at most (4325376 k + 122880) / 7 bytes |
| ConvRuns.DocumentedSizes | README.md:56-58 | it is for 12 GiB and 3 GiB of reserved memory, of which storage takes all but one MiB, and not for 10 GiB |
| ConvRuns.LargeSizes | main.c:534-539 | it is for every size from 1303 times 768 MiB on |
| ConvRuns.ShippedSparse | ssd_config.h:67-123 | with the shipped configuration 350 LPNs of a partition for each 768 MiB are few |
| Striping.RangeGrows | conv_ftl.c:1405-1411 | writing the next logical page in its partition extends the range written and touches no other logical page |
| Striping.Rows | conv_ftl.c:1405-1411 | the logical page in row r and column c across the partitions is page r of partition c |
| Striping.PagesHold | conv_ftl.c:1375-1404 | a request holds as many bytes as the pages it touches if and only if both its ends are page-aligned |
| Striping.FirstToLast | conv_ftl.c:1375-1404 | the first page of a request holds its first block, and the last its last |
| WriteBuffer.Buffer.Allocate | ssd.c:21-37 | takes all the bytes or none |
| WriteBuffer.Buffer.Release | ssd.c:39-47 | gives bytes back |
| ConvNs.Namespace.constructor | conv_ftl.c:522-568 | the partitions of a new namespace, apart from one another and fresh |
| ConvNs.Namespace.WriteOne | conv_ftl.c:1405-1472 | a page write in its partition leaves the other partitions alone, and its bytes stay accounted for: in the open one-shot page or scheduled for release; where it runs out of TLC pages, it does so in the state that its partition was in |
| ConvNs.Namespace.UnfinishedAt | conv_ftl.c:1448-1465 | the unfinished pages of a partition are the page number under its host pointer modulo the pages of an SLC one-shot page; the release is scheduled where they become a whole one |
| ConvNs.Namespace.Write | conv_ftl.c:1360-1483 | refused past the end or without buffer, changing nothing; runs out of TLC pages only in a partition whose credits and space do not last for its pages of the request; otherwise exactly the pages of the request hold the new data, the buffer accounts move by the bytes of the pages less those of the request, and each partition lasts for as many pages less as were written to it |
| ConvNs.Namespace.Drain | ssd.c:39-47 | a scheduled release moves bytes back to the buffer and keeps the accounts |
| ConvNs.Namespace.FreshNamespace | conv_ftl.c:522-568 | a new namespace accounts for its whole buffer and has every logical page unmapped |
| ConvNs.Namespace.DrainedAccepts | ssd.c:21-37 | with every byte accounted for, the free bytes never exceed the buffer, and once drained it accepts any request up to its size less one unfinished one-shot page for each partition |
| ConvNs.OverfillBuffer | conv_ftl.c:1402-1455 | one block written to each page of a one-shot page gives back the whole one-shot page: the drained buffer has more free bytes than its size |
| ConvDevice.Device.constructor | io.c:355-386 | nothing in flight and nothing lost |
| ConvDevice.Device.Write | conv_ftl.c:1402-1455 | exactly the pages of the request hold the new data; free bytes, bytes in flight and bytes of unfinished one-shot pages move as the namespace's accounts do, less exactly a one-shot page for each release that finds the queue full |
| ConvDevice.Device.Work | io.c:666-690 | a worker's visit copies an entry, completes it once it is due and moves its bytes back to the buffer, keeping the balance |
| ConvDevice.Device.Serve | io.c:317-353 | requests take entries, if more than one is free, but no bytes |
| ConvDevice.Device.Reclaim | io.c:388-437 | reclaiming keeps the balance |
| ConvDevice.Device.OnlyLostMissing | io.c:666-690 | once every entry in flight is completed, the only bytes not back in the buffer are those of dropped releases |
| ConvDevice.LoseRelease | io.c:355-364 | a device down to one free queue entry that is written a one-shot page has its bytes lost for good |
| ConvNs.Namespace.Read | conv_ftl.c:1252-1358 | the NAND reads of a request serve disjoint groups of its mapped pages, together all of them, each within one flash page; the groups go through the partitions from that of the first page on, and upwards in each; no two neighbouring reads of a partition are of the same flash page, so none could be larger; their bytes are the page size times the mapped pages |
| ConvRead.ReadPart | conv_ftl.c:1318-1352 | the same for the pages of one partition: pages of one flash page that follow each other share a read |
| ConvRead.PartJoined | conv_ftl.c:1305-1318 | the reads of one partition more keep the order of all, and never continue a flash page of the reads before |
| ConvRead.ReadBound | conv_ftl.c:1335-1352 | as the mapping is injective, no read takes more pages than a flash page has |
| ConvRead.OneMorePart | conv_ftl.c:1305-1318 | each round of the outer loop adds the pages of one more partition and repeats none |
| ConvRead.EveryPart | conv_ftl.c:1305-1318 | after all rounds every page of the request has been looked at |
| IoQueue.Worker.constructor | io.c:749-760 | all entries free, in one chain |
| IoQueue.Worker.Allocate | io.c:294-315 | takes the head of the free chain, and fails exactly when it is the only one left |
| IoQueue.Worker.FindPlace | io.c:264-274 | the walk from the tail stops at the last entry not due later, and runs off the head exactly when all are |
| IoQueue.Worker.LinkIn | io.c:276-289 | the head, tail and middle cases all put the entry between its neighbours, both ways |
| IoQueue.Worker.InsertSorted | io.c:248-291 | the entry goes to the place its due time gives it, behind entries due at the same time |
| IoQueue.PlaceByDue | io.c:264-274 | that place, in target times, is the one behind all entries whose due time, the later of target time and clock, is not later |
| IoQueue.Worker.Enqueue | io.c:317-386 | a request is dropped, changing nothing, exactly when one free entry is left; otherwise it is in flight behind the entries due already or not after it and before all others, no other entry changes but for links, and the buffer bytes in flight grow by its own |
| IoQueue.Worker.Visit | io.c:622-693 | afterwards the entry is copied, and completed if and only if it was before or its target time has come; a due internal entry gives its bytes back to the buffer, once, and nothing else changes. The entry may have been reclaimed meanwhile; then nothing changes at all. The walk goes on to an entry that has been used, or ends |
| IoQueue.Worker.Pass | io.c:622-693 | a whole walk, with a clock reading at each entry, copies every entry in flight and completes exactly the due ones; if all are, no bytes stay in flight |
| IoQueue.Worker.PassAndReclaim | io.c:622-693 | after such a walk the next reclaiming frees every entry that was due when it began and none that is not due when it ends; if the clock was past every target time the queue is empty |
| IoQueue.ReclaimedLeadsOn | io.c:420-435 | from a reclaimed entry the links lead only through completed entries, to the end of the free chain |
| IoQueue.NextKnown | io.c:627-630 | so the worker's walk never comes to an entry that was never used |
| IoQueue.KnownEnqueue | io.c:294-315 | taking a free entry leaves every place where the walk can stand one where it can stand |
| IoQueue.KnownReclaim | io.c:388-437 | so does reclaiming |
| IoQueue.Worker.Reclaim | io.c:388-437 | exactly the longest run of completed, copied and due entries at the head goes, in order, behind the free chain |
| IoQueue.InsertLinked | io.c:276-289 | after insertion next and prev are again mutually inverse along the chain |
| IoQueue.InsertDistinct | io.c:294-315 | an entry moves from the free chain to the in-flight chain, and every entry stays in exactly one |
| IoQueue.InsertOrdered | io.c:248-291 | insertion keeps the chain sorted by the later of target time and clock |
| IoQueue.ReclaimLinked | io.c:420-435 | after reclaiming both chains are intact, although io_seq_end is stale when nothing is left in flight |
| IoQueue.ReclaimSplit | io.c:420-435 | reclaiming keeps every entry in exactly one chain |
| IoQueue.NoneLost | io.c:749-760 | the two chains always hold all entries between them |
| IoQueue.DuePrefix | io.c:406-416 | due entries form a prefix of the in-flight chain |
| IoQueue.LaterTargets | io.c:406-416 | behind an entry that is not due no entry is |
| IoQueue.ClockKeepsOrder | io.c:264-289 | the order survives the clock moving on |
| IoQueue.OwedVisit | io.c:663-690 | a visit reduces the bytes in flight by exactly what it gives back |
| IoQueue.OwedReclaim | io.c:406-435 | reclaimed entries hold no bytes any more |
| Prp.PerformIo | io.c:49-136 | the page-by-page loop moves exactly the chunks that the entries and the length determine |
| Prp.MovesFillPages | io.c:99-125 | each transfer stays inside the page of its entry, and all but the last go up to its end |
| Prp.MovesFollowEntries | io.c:66-92 | the first transfer is at prp1; if no more than a page is left the second is at prp2 and the last, and otherwise the k-th further one is at the k-th address of the list |
| Prp.GatherEntries | io.c:168-208 | the first DMA loop collects the entries that the page-by-page loop uses |
| Prp.JoinPages | io.c:232-237 | the inner loop extends a transfer over the whole run of adjacent pages |
| Prp.PerformIoUsingDma | io.c:141-246 | the DMA variant issues one transfer for each run |
| Prp.TableFits | io.c:138-140 | the table holds the entries of an aligned command exactly up to 512 pages |
| Prp.CountOfAligned | io.c:66-125 | with aligned entries, a command uses one for each page it touches |
| Prp.VariantsAgree | io.c:66-243 | both variants move the same bytes between the same addresses if and only if no entry with an offset is continued a page further on, which the alignment rule of the standard excludes |
| Prp.PagesCover | io.c:66-125 | page by page, the command's storage range is covered once, in order |
| Prp.RunsCover | io.c:211-243 | so it is by the DMA variant, whatever the offsets |
| ChannelModel.Channel.constructor | channel_model.c:16-29 | a fresh channel offers all its credits in every slot |
| ChannelModel.FreshExact | channel_model.c:16-29 | the byte-wide fill is right exactly when a slot has fewer than 256 credits |
| ChannelModel.ShippedCredits | channel_model.h:40-42 | both configured bandwidths have fewer: 26 and 110; a credit takes 152 and 36 ns |
| ChannelModel.Channel.Age | channel_model.c:41-57 | moving the clock on is ageing the ledger, through the wrap of the ring |
| ChannelModel.DropsRight | channel_model.c:41-44 | the right number of slots is dropped exactly when the gap fits 32 bits or its low part reaches past the window |
| ChannelModel.AgeingExact | channel_model.c:41-57 | ageing leaves every slot from now on as it was if and only if the gap is so seen, or nothing is left booked where it is not |
| ChannelModel.LongIdleRevivesBookings | channel_model.c:42 | an idle time of 2^32 slots revives an old booking |
| ChannelModel.Channel.Request | channel_model.c:31-118 | the new ledger and the completion time of a request, in all its early returns: its transfer time, and a slot of delay for each slot that its last credit lies beyond those that its credits alone would take |
| ChannelModel.Channel.RequestAll | channel_model.c:31-118 | the bandwidth law: of requests one after the other for one time, on an idle channel whose ring they do not fill, each ends after its own transfer time plus the slots by which the last of all n credits so far, in slot (n - 1) / max_credits, lies beyond what its own credits alone would take |
| ChannelModel.ThreeAtOnce | channel_model.c:111-117 | on a fresh channel of 800 MB/s three requests of 3328 bytes at once end at 3952, 3952 and 7952 ns |
| ChannelModel.Channel.Take | channel_model.c:81-102 | the consuming loop is the booking of the ledger |
| ChannelModel.BookingTakesEarliest | channel_model.c:81-102 | a booking empties the earliest slots, takes exactly what it asks unless the ring fills, and changes no other slot |
| ChannelModel.PackedMore | channel_model.c:81-102 | with m credits packed into an idle ring from a slot on, a booking of n more that fits gets them all, packs them behind the others, and ends exactly in the slot of the last of the m + n credits |
| ChannelModel.AloneNoExtraDelay | channel_model.c:76-116 | a request alone on the channel is charged no delay beyond its transfer time |
| ChannelModel.BookOk | channel_model.c:104-109 | slots beyond the valid window stay unbooked |
| KvTable.Table.constructor | kv_ftl.c:1047-1055 | an empty table stands for the empty map |
| KvTable.Table.Find | kv_ftl.c:320-377 | the walk from the home slot ends, and finds a key exactly when the table has it |
| KvTable.Table.FindTail | kv_ftl.c:164-181 | the tail of the chain that the home slot is on |
| KvTable.Table.Probe | kv_ftl.c:183-188 | the first free slot from the tail on, around the end |
| KvTable.Table.NewMapping | kv_ftl.c:200-232 | adds exactly the key to the map that the table stands for, merging chains where they meet |
| KvTable.Table.UpdateMapping | kv_ftl.c:268-318 | changes the length of a key that is there, and says so when it is not |
| KvTable.LinkOk | kv_ftl.c:200-232 | linking a new entry behind a tail keeps every key on the chain of its home slot, and the chains without cycles |
| KvTable.LinkReach | kv_ftl.c:159-188 | every walk that reached a slot still does, and walks that reached the old tail reach the new entry |
| KvTable.FillOk | kv_ftl.c:212-216 | so does filling a free home slot |
| KvStore.KvFtl.Store | kv_ftl.c:505-636 | a new key gets bytes of its own from the allocator, unless these begin past the end of the storage; an old one is overwritten in place, and changes its length only if that is the same or both are small. The state is always that of the run of stores so far |
| KvStore.KvFtl.Retrieve | kv_ftl.c:505-640 | the first bytes of the key's value, or that the key does not exist; where every store so far was safe, the first bytes of what was stored last |
| KvStore.StoreExact | kv_ftl.c:523-536 | a store of n bytes reads back, and leaves all other values alone, whatever the data and the storage, if and only if its length is taken (the key is new, or n is its length, or both are small) and its bytes meet no byte of another key's value |
| KvStore.RunExact | kv_ftl.c:505-640 | stores of given keys and lengths always read back what was stored last, whatever the data, if and only if each of them is so |
| KvStore.WithinFirstSafe | kv_ftl.c:523-536 | they are if no store is longer than the first of its key and only small lengths change |
| KvStore.GrowthOverwrites | kv_ftl.c:533-538 | a small value that grows in place is written over the value of the key stored after it |
| KvStore.RefusedLength | kv_ftl.c:533-538 | a store whose length is refused writes its data all the same: the key reads back the old length |
| Zns.ZnsFtl.constructor | zns_ftl.c:10-82 | all zones empty, no resource held |
| Zns.ZnsFtl.Close | zns_mgmt_send.c:7-29 | succeeds exactly on opened and closed zones, and leaves them closed, with the counts right |
| Zns.ZnsFtl.Finish | zns_mgmt_send.c:31-64 | always succeeds: the zone becomes full and gives back what it held |
| Zns.ZnsFtl.Open | zns_mgmt_send.c:66-106 | succeeds exactly on empty, opened and closed zones for which there is room, and leaves them explicitly open; an empty zone is refused for want of an active, then an open, then a ZRWA resource, a closed one for want of an open one, a full one always |
| Zns.ZnsFtl.Reset | zns_mgmt_send.c:108-156 | always succeeds: the zone becomes empty with its pointer at its start and no ZRWA, and gives back what it held |
| Zns.ZnsFtl.TakeOffline | zns_mgmt_send.c:158-175 | never allowed: no zone ever becomes read-only |
| Zns.ZnsFtl.Send | zns_mgmt_send.c:230-258 | each action ends and changes its zone as the table of states and exhausted resources says, and changes no other zone; only a reset moves buffer accounts, by the bytes of the unfinished one-shot page that it loses |
| Zns.ActionTable | zns_mgmt_send.c:7-175 | the table, in zone states and counters: which actions succeed on which states, which refusal each exhausted resource gives, and what the zone becomes |
| Zns.ZnsFtl.SendAll | zns_mgmt_send.c:272-275 | select-all keeps the counts; it acts on the zones in turn, each if what the zones then hold leaves room, and unless it opens zones under a limit on every zone that allows the action; resetting all zones loses the buffer bytes of all unfinished one-shot pages, and no other action moves any |
| Zns.ZnsFtl.IncreaseWritePtr | zns_read_write.c:17-39 | the boundary-error branch cannot be reached; a zone whose pointer reaches its end becomes full and is no longer counted |
| Zns.ZnsFtl.OpenForWrite | zns_read_write.c:121-166 | an empty or closed zone opens implicitly if there is room |
| Zns.WriteTable | zns_read_write.c:121-166 | the same for writes at the write pointer: a full zone is refused, an empty one for want of an active or open resource, a closed one of an open one; otherwise the zone is implicitly open unless it was explicitly, and full when the write reaches its end |
| Zns.ZnsFtl.FlushPages | zns_read_write.c:177-212 | the release loop schedules exactly the bytes of the one-shot pages whose last page is among the pages written, a short one at the zone's end with its own size |
| Zns.ZnsFtl.MoveOn | zns_read_write.c:170-212 | what a write took is in the zone's one-shot page or scheduled for release, and more than that by the excess |
| Zns.ZnsFtl.WriteAtPointer | zns_read_write.c:119-212 | a write that passed the checks of its command does what the table says, and moves its buffer's accounts by its bytes and the excess |
| Zns.ZnsFtl.Drain | ssd.c:39-47 | a scheduled release moves bytes back to the buffer and keeps the accounts |
| Zns.ZnsFtl.Write | zns_read_write.c:64-222 | the status of a write or append and the one zone it changes; the accounts of its buffer balance if and only if it is accepted and does not end inside the last page of a one-shot page |
| Zns.ZnsFtl.DrainedAccepts | ssd.c:21-37 | with a buffer for each zone and every byte accounted for, the free bytes never exceed the buffer, and once drained it accepts any write up to its size less an unfinished one-shot page |
| Zns.ZnsFtl.DrainedIsFree | ssd.c:21-37 | where the write unit is whole one-shot pages, a buffer with every byte accounted for is wholly free once drained, whatever zones share it; writes and actions keep the pointers on units |
| Zns.OverfillBuffer | zns_read_write.c:177-212 | on a WD_ZN540 two writes, in and at the end of page 23 of a zone, leave its drained buffer with more free bytes than its size |
| Zns.LeakByReset | zns_mgmt_send.c:108-156 | on a WD_ZN540 resetting a zone with one page written leaves its drained buffer a page short |
| ZoneBuffer.Shape.WriteBalance | zns_read_write.c:177-212 | what a zone has in the buffer grows by what a write takes less what it gives back, up to the excess |
| ZoneBuffer.Shape.DebtBound | zns_read_write.c:177-212 | a zone has less than a one-shot page in the buffer, and nothing exactly at whole one-shot pages and at its end |
| ZoneBuffer.Shape.DebtIs | zns_read_write.c:177-212 | what a zone has in the buffer is the bytes behind its last whole one-shot page, and nothing at its end |
| ZoneBuffer.Shape.ExcessIs | zns_read_write.c:177-212 | a write gives back too much exactly if it ends inside the last page of a one-shot page, and then that one-shot page, with its own size at the end of the zone |
| ZoneBuffer.Shape.MorePages | zns_read_write.c:177-209 | what one step of the release loop gives back is what its pages finish |
| ZoneBuffer.Shape.WholeUnits | ssd_config.h:151-151 | where the write unit is whole one-shot pages, as in ZNS_PROTOTYPE, nothing is given back twice and nothing stays in the buffer |
| Zns.Recounted | zns_ftl.h:63-86 | the counters follow the true numbers of open and active zones |
| Zns.WhoHolds | zns_ftl.h:63-86 | the counters are the numbers of opened or closed zones, of opened zones, and of opened or closed zones with a ZRWA |
| Zns.NoLimitReached | zns_ftl.c:64-82 | with the limits that the code sets no action or write is refused for want of resources |

## Left out

- ConvFtl.Partition.ForegroundGc: where TLC pages run out the contract names the line that did not fit and the state before its collection, not the half-collected state, because the C code stops the kernel there.
- ConvNs.Namespace.Write: likewise says nothing about the namespace after TLC pages ran out.
- ConvFtl.Partition.SelectVictimLine: the choice among victims of equal cost is left open, and each line's age is an input, because ages come from the clock.
- ConvDevice.Device.Write: says nothing where TLC pages ran out, and takes the completion times of its one-shot pages as an input, because they come from NAND timing.
- Pqueue.Pqueue.Insert: requires room in the array, which the C code only logs; `LineMgmt.HeapHasRoom` shows the callers always leave it.
- KvTable.Table.NewMapping: requires a free slot, because the C code does not stop probing a full table.
- KvStore.KvFtl.Store: the storage has no end to write over; a value that begins before it and ends past it is not refused by the C code either.
- Zns.ZnsFtl.Write: zones with a ZRWA are excluded. Both configurations give the ZRWA and its flush group the size zero, yet allow every zone to be opened with one (`zns_ftl.c`, lines 78-81); writes to such a zone take `__zns_write_zrwa`, which is not part of this model and which, for zone 0 at its start, divides by that size.
- Prp.PerformIo: the contents of the PRP list are an input, because how the list page is mapped (and that one of the two ways scales the list's offset by eight) is kernel plumbing.
- The tables `maptbl` and `rmap` are sequence-valued fields, page and block states are maps by address, and the linked line lists are sequences of line ids, with the lines of both regions in one array: aliasing between these tables is not modelled.
- `slc_mode == TLC_MODE`, the greedy and random TLC choices under other macros, and the unused `clean_one_block`.
- NAND and PCIe timing inside the FTL, write latencies, and the statistics `gc_cnt`, `copy_cnt`, `age_cnt`, `erase_cnt` and `mtime`.
- Several planes per LUN: PLNS_PER_LUN is 1 in every configuration.
- Machine widths other than the 32-bit wrap of the channel model and the byte-wide memset; the cost-benefit divisor is kept inside an int by a bound on the line size.
- The choice of the I/O worker, completion queue entries and interrupts; memory ordering between dispatcher and worker, whose steps are atomic here.
- Deleting keys, batches, iterators and keys of several lengths; the hash function is a parameter.
- Zone reports and reads, the zeroing of a reset zone's storage, and the mapping of zones to dies.
- `pci.c`, `dma.c`, `main.c`, `admin.c`, `simple_ftl.c`, `bitmap.c` and the scripts.
