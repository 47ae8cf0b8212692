# vcx driver verification

A Dafny model of the memory and job management of the vcx video codec driver, with proofs of what
it promises. `dafny verify dfyconfig.toml` checks all of it.

## What is modelled

**MMU address space and page tables** (`vcx_mmu.c`).

- `RunLists.dfy`: the unordered free list and the list in use of a region or pool, with the splices
  of `SplitFreeNode`, `MergeNode` and `InsertNode`. In every state free and used runs partition the
  extent and no two free nodes touch.
- `Regions.dfy`: the four regions and how a buffer is assigned to one.
- `TwoLevel.dfy`: the 32-bit VA / 40-bit PA build. The hardware walk refines an abstract partial map
  from pages to frames, which is exactly the map of the live buffers.
- `PageTree.dfy`, `TablePool.dfy`, `PageRange.dfy`, `TableSteps.dfy`, `FourLevel.dfy`: the 40-bit VA /
  48-bit PA build. `PageTree` is the four-level tree as a value, `TablePool` the list of table pages
  with use counts, `TableSteps` changes both together, and `FourLevel` has the methods on memory.
- `KeyCollisions.dfy`: what happens when two tables have the same 9-bit index.

**Linear memory allocator** (`memalloc.c`): `Memalloc.dfy`.

**Command buffers** (`vce_vcmd_driver.c`, `vcd_vcmd_driver.c`, `bidirect_list.c`).

- `BiList.dfy`: the doubly linked list on real nodes.
- `SlotPool.dfy`: the queue of free slots and its semaphore, for every interleaving of tasks.
- `Workload.dfy`: admission by a 32-bit total, for every interleaving.
- `DoneJobs.dfy`, `JobWaits.dfy`: the list of finished jobs on the linked list, and pollers and
  completions interleaved, with the steps of the kernel's wait queue.
- `CommandBuffer.dfy`: emitting the register-read buffer, and the instruction decoder.

**Decoder cores** (`vcd_normal_driver.c`): `DecoderCores.dfy` (reservation) and `ShadowRegs.dfy` (the
register-write filter). `Common.dfy` holds what modules share.

## How to read it

Fields that the driver updates in place are class fields or arrays and its functions are methods;
each method's contract gives the new state through specification functions, and the results are
lemmas about those. Where tasks interleave, a step is what happens under one spinlock, one semaphore
operation, one test or store without a lock, or one step of the wait-queue macro; `Reaches` ranges over every sequence of steps.

Integer widths are explicit: 32-bit and 64-bit sums are taken modulo their word. Bit fields that do
not overlap are added. MMU page addresses are page numbers, pool addresses are in 8-byte entries, as
in the source. Sizes, physical addresses (an arbitrary function for the page lookup), interrupts,
wake-ups and changes of registers by the hardware are arbitrary.

Where the code does not keep what one would expect, the condition is proved and an input is given:

- the table search by 9-bit index (`TablePool.SearchIsExact`, `FourLevel.Mmu.KeysInTermsOfPages`,
  `KeyCollisions.ClearIsExact`, `FourLevel.LostTranslation`),
- the region chosen by map and by unmap (`Regions.RegionsAgree`, `FourLevel.Mmu.MapThenUnmap`),
- keys left in free nodes, and kernel buffers above 4 GB (`Regions.SearchIsRight`, `TwoLevel.StaleKey`,
  `TwoLevel.Mmu.KernelMemNodeUnmap`, `TwoLevel.HighBus`),
- sizes in the chunk allocator (`Memalloc.ExactlyWhenSafe`, `Memalloc.TwoBadSizes`),
- workload limits (`Workload.ExactLimits`),
- two releases at once (`Workload.ExactlySingle`, `Workload.NoLimitsHold`, `DecoderCores.ExactlyOneOwner`,
  `DecoderCores.ExactlySingle`, `DecoderCores.TwoOwners`, `SlotPool.ExactlyOneHolder`, `SlotPool.ExactlySingle`),
- interrupted decoder waits (`DecoderCores.LostForGood`),
- the shadow filter (`ShadowRegs.ShowsExactly`, `ShadowRegs.JpegShows`, `ShadowRegs.StaleShows`),
- field widths in commands (`CommandBuffer.RoundTrip`).

## Model

| member | source | states |
|---|---|---|
| `RunLists.NodesAreMaximalRuns` | linux/driver/vcodec/vcx_mmu.c:537-593 | The nodes of a joined free list are exactly the maximal runs of the free set: a range is a node if and only if it is free and cannot be extended on either side |
| `RunLists.CanonicalForm` | linux/driver/vcodec/vcx_mmu.c:537-593 | Two free lists that cover the same pages have the same nodes, whatever the order of their lists and their history |
| `RunLists.UsedDeterminesFree` | linux/driver/vcodec/vcx_mmu.c:708-741 | The runs in use alone determine the nodes of the free list |
| `RunLists.AllReturned` | linux/driver/vcodec/vcx_mmu.c:537-593 | When every page of a region is free, the free list is one node with the extent the region started with |
| `RunLists.NodeLists.constructor` | linux/driver/vcodec/vcx_mmu.c:843-891 | A region or pool starts as one free run over its whole extent and no run in use |
| `RunLists.NodeLists.FindFreeNode` | linux/driver/vcodec/vcx_mmu.c:977-992 | The first node in list order that is large enough; it fails if and only if the region has no run of n free pages at all, because the free list is fully joined |
| `RunLists.NodeLists.SplitFreeNode` | linux/driver/vcodec/vcx_mmu.c:1034-1068 | The first n pages of the node move to the head of the list in use, an emptied node disappears, and the partition of the region into free and used runs is kept |
| `RunLists.NodeLists.MergeNode` | linux/driver/vcodec/vcx_mmu.c:537-593 | Reports whether the run touches a free node; if so it is joined to both neighbours, wherever they are in the list, by the second search behind or in front: the one found last takes all at its place and with its fields; no two free nodes touch afterwards, and exactly its pages become free |
| `RunLists.NodeLists.InsertFree` | linux/driver/vcodec/vcx_mmu.c:708-727 | Returning run k: it leaves the list in use, its pages are free and joined, the total is conserved; the exact free list, in its order, is the joined one, or this run in front |
| `Regions.RegionsAgree` | linux/driver/vcodec/vcx_mmu.c:3063-3075 | Unmap searches the region that map chose if and only if the buffer ends before the quarter it starts in does, or starts in the last quarter: map tests the end, unmap (3250-3262) only the start |
| `Regions.QuarterChosen` | linux/driver/vcodec/vcx_mmu.c:3063-3075 | Map chooses one of the first three regions if and only if the buffer lies in that quarter of the address space and ends before its end, and the last one otherwise; unmap the quarter that holds the address |
| `Regions.PageCount` | linux/driver/vcodec/vcx_mmu.c:3060 | The least number of pages that hold the buffer, for every non-zero 32-bit size; size 0 counts as 4 GB |
| `Regions.AddressSpace.constructor` | linux/driver/vcodec/vcx_mmu.c:843-891 | Four regions, each one free run |
| `Regions.AddressSpace.WhatRegionsHold` | linux/driver/vcodec/vcx_mmu.c:843-891 | In every state a region holds, free or in use, exactly the pages of its quarter, but never page 0 and never the last page |
| `Regions.AddressSpace.Reserve` | linux/driver/vcodec/vcx_mmu.c:3151-3158 | Succeeds if and only if the region has n contiguous free pages; the first node that fits gives its first n pages to the head of the list in use, and both lists are given exactly; those pages become live and none of them was; the run is recorded as claimed by this key |
| `Regions.AddressSpace.RemoveNode` | linux/driver/vcodec/vcx_mmu.c:1157-1181 | The first run of this buffer and process is found again and returned; exactly its pages stop being live, and a run that touches no free node heads the free list with the owner fields it had; nothing changes when there is none. RemoveKernelNode (1223-1248) is the same with the other key |
| `Regions.SearchIsRight` | linux/driver/vcodec/vcx_mmu.c:1157-1181 | Owner fields outlive their buffer, so a search by key finds a run that was claimed by that key, or refuses because no run was, if and only if the first run that bears the key was not claimed by the other side, client or kernel. While only one side has buffers in the region, a buffer is found exactly when it is mapped |
| `Regions.AddressSpace.Partition` | linux/driver/vcodec/vcx_mmu.c:708-741 | In every reachable state the pages of a region are either free or in use, never both, and the counts add up to its size |
| `Regions.AddressSpace.AllUnmapped` | linux/driver/vcodec/vcx_mmu.c:1157-1181 | Order independence: a region in which nothing is mapped is back to its single initial node, whatever was mapped and unmapped before |
| `TwoLevel.EntryHoldsFrame` | linux/driver/vcodec/vcx_mmu.c:3192-3203 | The packed 32-bit entry, bit field by bit field: bits 31..12 and 39..32 of the address, present and writable; the 40-bit page address can be recovered from it |
| `TwoLevel.FrameIsPage` | linux/driver/vcodec/vcx_mmu.c:3192-3203 | The frame of an address is the 4 KB page that its low 40 bits are in |
| `TwoLevel.PageTable.constructor` | linux/driver/vcodec/vcx_mmu.c:2689-2701 | All 1024 master entries point at consecutive slave tables, nothing is mapped |
| `TwoLevel.PageTable.WalkRefinesView` | linux/driver/vcodec/vcx_mmu.c:1573-1582 | In every valid state the hardware walk through master and slave table gives what the abstract map from pages to frames says, and nothing where the map has nothing; a mapped page can be written |
| `TwoLevel.PageTable.MapPages` | linux/driver/vcodec/vcx_mmu.c:3164-3206 | Exactly the n pages from start on become mapped, page v to the frame of byte (v - start) * 4096 of the buffer |
| `TwoLevel.PageTable.ClearPages` | linux/driver/vcodec/vcx_mmu.c:3281-3322 | Exactly the pages of the run lose their mapping |
| `TwoLevel.Mmu.MemNodeMap` | linux/driver/vcodec/vcx_mmu.c:3035-3224 | Fails if and only if the selected region has no run long enough, and then changes nothing; otherwise the first fitting run is mapped to the frames of the buffer, its pages were not mapped before, and translated pages remain exactly the pages of mapped buffers |
| `TwoLevel.Mmu.MemNodeUnmap` | linux/driver/vcodec/vcx_mmu.c:3226-3342 | The node whose entries are cleared is the node returned to the free list; exactly its pages stop being translated; a key that no node bears is an error that changes nothing. The node is one that MemNodeMap claimed for this buffer, or is missing because there is none, if and only if the first bearer of the key is not claimed by the kernel; in a region with client buffers only, the call succeeds exactly for a mapped buffer |
| `TwoLevel.Mmu.KernelMemNodeMap` | linux/driver/vcodec/vcx_mmu.c:3345-3534 | As MemNodeMap, for a physically contiguous buffer that is claimed by its bus address: page i of the run gets the frame of bus address + i * 4096 |
| `TwoLevel.Mmu.KernelMemNodeUnmap` | linux/driver/vcodec/vcx_mmu.c:3536-3656 | The run found by the whole bus address is cleared, the run found by its low 32 bits is returned; translation and map lists agree afterwards if and only if the address fits 32 bits; the run cleared is a kernel buffer of this address if and only if the first bearer of the key is not claimed by a client |
| `TwoLevel.OnlyLowKeys` | linux/driver/vcodec/vcx_mmu.c:1223-1248 | The search by the low 32 bits ends at the node that was cleared if and only if the address fits 32 bits |
| `TwoLevel.HighBus` | linux/driver/vcodec/vcx_mmu.c:3536-3656 | An input for the other case: after one kernel page at 4 GB was mapped and unmapped it is not translated but still reserved |
| `TwoLevel.StaleKey` | linux/driver/vcodec/vcx_mmu.c:1034-1068 | An input for the failing side of Regions.SearchIsRight: after a kernel map has reused the node of a client buffer, unmapping that buffer, which is not mapped, succeeds and removes the mapping of the kernel |
| `TwoLevel.Mmu.MapThenUnmap` | linux/driver/vcodec/vcx_mmu.c:3226-3342 | Unmapping undoes mapping if and only if the buffer stays inside its quarter: translation, map lists and free-list nodes are restored then, and otherwise its pages stay mapped |
| `PageTree.TableEntryPoints` | linux/driver/vcodec/vcx_mmu.c:1524-1548 | A directory entry for a pool table, bit field by bit field; it decodes to that table, is present, and is writable exactly in a PD0 |
| `PageTree.PageEntryHolds` | linux/driver/vcodec/vcx_mmu.c:3174-3184 | The 64-bit page entry, bit field by bit field: bits 31..12 and 47..32 of the address, present and writable; the 48-bit page address can be recovered from it |
| `PageTree.FrameIsPage` | linux/driver/vcodec/vcx_mmu.c:3174-3184 | The frame of an address is the 4 KB page that its low 48 bits are in |
| `PageTree.WalkRefinesView` | linux/driver/vcodec/vcx_mmu.c:1472-1572 | The walk PD2, PD1, PD0, PT by physical addresses finds the frame a page is mapped to, and nothing for a page that is not; PD0 and PT entry of a mapped page both let the device write |
| `PageTree.DistinctPages` | linux/driver/vcodec/vcx_mmu.c:1570-1572 | Distinct virtual pages use distinct entry cells |
| `PageTree.PagesArePresentCells` | linux/driver/vcodec/vcx_mmu.c:3299-3301 | What is counted for a PT is the number of its non-zero cells in memory |
| `PageTree.BlocksArePresentCells` | linux/driver/vcodec/vcx_mmu.c:1562-1567 | What is counted for a PD0 is the number of its non-zero cells in memory |
| `TablePool.SearchIsExact` | linux/driver/vcodec/vcx_mmu.c:1449-1466 | The search by level and 9-bit index finds the right table for every block if and only if no two PTs share an index, and for every slot if and only if no two PD0s do |
| `KeyCollisions.ClearIsExact` | linux/driver/vcodec/vcx_mmu.c:3291-3321 | Whatever tables share an index and whatever the counts are: unmapping one page leaves the translation of every other page alone if and only if neither the PT nor the PD0 that is given back by it, as found by index and by count, translates another page |
| `KeyCollisions.PtLost` | linux/driver/vcodec/vcx_mmu.c:3294-3309 | When the PT that is found has its last use counted out, the walk of every other page in it fails |
| `TablePool.RoomLeft` | linux/driver/vcodec/vcx_mmu.c:994-1031 | While fewer than 3072 tables are in use there is a free table page |
| `PageRange.TouchedIsCount` | linux/driver/vcodec/vcx_mmu.c:1508-1559 | What a run of pages can need is counted as its different 2 MB blocks and its different 1 GB slots |
| `PageRange.TouchedBound` | linux/driver/vcodec/vcx_mmu.c:1508-1559 | Wherever it starts, a run of n pages touches at most TablesFor(n) blocks and slots, and from the last page of a slot on it touches as many |
| `TableSteps.OneParent` | linux/driver/vcodec/vcx_mmu.c:1518-1552 | Every table of the pool is named by exactly one directory entry |
| `TableSteps.ViewDeterminesTables` | linux/driver/vcodec/vcx_mmu.c:3302-3321 | Between calls the pages mapped determine which PTs and PD0s there are |
| `TableSteps.EmptyPool` | linux/driver/vcodec/vcx_mmu.c:1184-1193 | With nothing mapped and no table empty there are no tables: no node in use, one free run, zeros in every PD1 cell and in the whole pool |
| `FourLevel.PageTables.constructor` | linux/driver/vcodec/vcx_mmu.c:1909-1938 | Both PD2 entries point at the PD1 pages, nothing is mapped, the pool is one free run |
| `FourLevel.PageTables.NewTable` | linux/driver/vcodec/vcx_mmu.c:1508-1522 | A table page from the pool is aligned, belongs to no other table and is all zero |
| `FourLevel.PageTables.GetPageNode` | linux/driver/vcodec/vcx_mmu.c:1449-1469 | The first node in list order with this index and level |
| `FourLevel.PageTables.RemovePageNode` | linux/driver/vcodec/vcx_mmu.c:1184-1193 | The page joins the free part of the pool, its node leaves the list, its parent cell is zero |
| `FourLevel.PageTables.Pd0Entry` | linux/driver/vcodec/vcx_mmu.c:1472-1572 | Gives the PD0 cell of the page; a PD0 is allocated exactly when the slot has none, and the view does not change |
| `FourLevel.PageTables.PtEntry` | linux/driver/vcodec/vcx_mmu.c:1472-1572 | Gives the PT cell of the page; a PT is allocated exactly when the block has none, and is then found by its key; it is counted in the PD0 of its slot while no two PD0s share an index; the view does not change |
| `FourLevel.PageTables.EntryFor` | linux/driver/vcodec/vcx_mmu.c:3169-3175 | The step to the next entry and the walk from the top give the same cell |
| `FourLevel.PageTables.WriteEntry` | linux/driver/vcodec/vcx_mmu.c:3175-3188 | The page is mapped to the frame of the entry, nothing else changes, and the counts stay right when the PT is found by its key |
| `FourLevel.PageTables.ClearEntry` | linux/driver/vcodec/vcx_mmu.c:3291-3319 | In every valid state: the exact table memory afterwards, by what the two searches find. With right counts, when they find the tables of the page, only the page is unmapped; its PT leaves if and only if that was its last page, and then the PD0 if and only if that was its last PT; counts stay right, and what other searches found is still found |
| `FourLevel.PageTables.MapPages` | linux/driver/vcodec/vcx_mmu.c:3164-3189 | Exactly the pages of the run become mapped to the frames of the buffer; no table is left empty; at most TablesFor(n) tables are added; counts stay right while no PD0 index is shared, and either no PT index is or the run only has new blocks |
| `FourLevel.PageTables.UnmapPages` | linux/driver/vcodec/vcx_mmu.c:3281-3321 | A whole run whose own tables are found by index, whatever other tables share one: exactly its pages lose their mapping, every table that became empty is back in the pool, use counts are exact |
| `FourLevel.Mmu.MemNodeMap` | linux/driver/vcodec/vcx_mmu.c:3035-3224 | As for the two-level build; translated pages remain exactly the pages of mapped buffers, tables are never empty, and the counts stay right while no index is shared |
| `FourLevel.Mmu.MemNodeUnmap` | linux/driver/vcodec/vcx_mmu.c:3226-3342 | While the tables of the buffer are found by index: the pages of the run found, and only they, stop being translated; the run cleared is the run returned; emptied tables are reclaimed; a key that no node bears is an error that changes nothing; which run is found is as for the two-level build |
| `FourLevel.Mmu.KeysSuffice` | linux/driver/vcodec/vcx_mmu.c:1449-1466 | While no two tables share an index, the tables of every buffer are found |
| `FourLevel.Mmu.WalkIsView` | linux/driver/vcodec/vcx_mmu.c:1472-1572 | In every reachable state the walk of a page finds its frame if and only if the page belongs to a mapped buffer, and the device may write it then |
| `FourLevel.Mmu.KeysInTermsOfPages` | linux/driver/vcodec/vcx_mmu.c:1449-1466 | In every reachable state no two tables share an index if and only if no two live pages of different 1 GB slots, or of different 2 MB blocks, have the same 9-bit index |
| `FourLevel.Mmu.OneSlotLive` | linux/driver/vcodec/vcx_mmu.c:1449-1466 | So in particular while all mapped pages lie in one 1 GB slot |
| `FourLevel.Mmu.MapThenUnmap` | linux/driver/vcodec/vcx_mmu.c:3226-3342 | Whatever else is mapped, with right counts and room, if live and new pages do not clash: unmapping undoes mapping if and only if the buffer stays inside its quarter; translation, map lists, free-list nodes and the set of tables are restored then, and otherwise its pages stay mapped |
| `FourLevel.Mmu.AllReclaimed` | linux/driver/vcodec/vcx_mmu.c:3302-3321 | Once nothing is mapped, in whatever order buffers came and went, the pool is a single free run of zeros and no directory entry is left |
| `FourLevel.CollidingRegions` | linux/driver/vcodec/vcx_mmu.c:1449-1466 | A one-page buffer at the bottom of each of the first two regions is enough for two PTs to share an index; counts are right and the newer PT is the one found |
| `FourLevel.LostTranslation` | linux/driver/vcodec/vcx_mmu.c:3291-3309 | The loop body of the unmap of the older of these buffers takes the PT of the newer one: that buffer is still in the map list and its walk finds nothing |
| `Memalloc.ScanIsFirstFit` | linux/driver/memalloc/memalloc.c:517-547 | Although only block heads are marked and whole blocks are skipped, the search returns the lowest start of n free chunks, and fails only when there is no such run |
| `Memalloc.ExactlyWhenSafe` | linux/driver/memalloc/memalloc.c:502-559 | The outcome is exact first fit on every table of a given length if and only if the size is safe: a chunk is asked for, its count was not truncated into something that fits, and no entry number plus the count reaches 32 bits |
| `Memalloc.ChunksFor` | linux/driver/memalloc/memalloc.c:509-510 | The least number of 16 KB chunks that hold the bytes |
| `Memalloc.SmallSizesAreSafe` | linux/driver/memalloc/memalloc.c:509-510 | Every size from 1 byte to 2^31 - 1 chunks is safe |
| `Memalloc.TwoBadSizes` | linux/driver/memalloc/memalloc.c:509-510 | Size 0 and size 64 TB are granted a chunk of an empty table without reserving it |
| `Memalloc.BlocksDisjoint` | linux/driver/memalloc/memalloc.c:517-547 | Live blocks are in range and pairwise disjoint |
| `Memalloc.ChunkTable.ResetMems` | linux/driver/memalloc/memalloc.c:589-605 | All chunks free and ownerless, addresses in place |
| `Memalloc.ChunkTable.AllocMemory` | linux/driver/memalloc/memalloc.c:502-559 | For a safe size: fails if and only if no run of that many chunks is free; otherwise the lowest run is owned by the caller and nothing else changes; for any size: the exact new table |
| `Memalloc.ChunkTable.FreeMemory` | linux/driver/memalloc/memalloc.c:562-586 | Frees the block whose address, plus addr_transl, was given and whose owner is the caller; any other address or owner changes nothing |
| `Memalloc.ChunkTable.Release` | linux/driver/memalloc/memalloc.c:284-302 | Exactly the blocks of this client are freed |
| `Memalloc.ChunkTable.AllocThenFree` | linux/driver/memalloc/memalloc.c:562-586 | Freeing the translated address of what was just allocated restores the table exactly |
| `BiList.List.InsertTail` | linux/driver/vcodec/bidirect_list.c:122-139 | Appends to the sequence of members; a null node changes nothing |
| `BiList.List.InsertBefore` | linux/driver/vcodec/bidirect_list.c:141-169 | Splices in front of the base node, or appends when there is none |
| `BiList.List.Remove` | linux/driver/vcodec/bidirect_list.c:171-200 | Deletes one member and leaves its own links as they were; an unlinked node with null links empties the list |
| `BiList.List.Forward` | linux/driver/vcodec/bidirect_list.c:122-200 | Following next from the head visits the members in order |
| `BiList.List.Backward` | linux/driver/vcodec/bidirect_list.c:122-200 | Following prev from the tail visits them in reverse |
| `SlotPool.SlotQueue.constructor` | linux/driver/vcodec/vce_vcmd_driver.c:389-401 | The 256 slots are queued in order |
| `SlotPool.SlotQueue.Put` | linux/driver/vcodec/vce_vcmd_driver.c:346-356 | Appends to the queue; a slot that is already its tail leaves the queue as it is, and one in the middle cuts off what follows |
| `SlotPool.SlotQueue.Get` | linux/driver/vcodec/vce_vcmd_driver.c:362-373 | Removes the head of the queue, or reports an empty one |
| `SlotPool.NeverNull` | linux/driver/vcodec/vce_vcmd_driver.c:421-424 | In a safe state a task past the semaphore finds a slot |
| `SlotPool.FailedGet` | linux/driver/vcodec/vce_vcmd_driver.c:421-424 | On the NULL-node branch the task gives up, and what it took from the semaphore is lost |
| `SlotPool.ReachableStates` | linux/driver/vcodec/vce_vcmd_driver.c:408-447 | In every interleaving in which no slot has two releases past the owner test: queue length is the semaphore count plus tasks between down and get plus tasks between put and up; each slot is in exactly one place; slots leave the queue in the order in which they entered it |
| `SlotPool.ExactlySingle` | linux/driver/vcodec/vce_vcmd_driver.c:901-926 | The NULL-node branch stays unreachable in every continuation of a safe state in which no further release passes the owner test, which takes no lock, if and only if no slot has two releases past it |
| `SlotPool.DoubleReturn` | linux/driver/vcodec/vce_vcmd_driver.c:901-926 | Otherwise the semaphore is raised twice for one slot and a run reaches that branch |
| `SlotPool.ExactlyOneHolder` | linux/driver/vcodec/vce_vcmd_driver.c:431-442 | From a safe state, in every continuation in which no further release passes the owner test, no put is to come for a slot that a client got after that test, if and only if no slot has two releases past it |
| `SlotPool.Doubled` | linux/driver/vcodec/vce_vcmd_driver.c:915-925 | A run from the start to a state in which a slot has two releases past the test, so that both failures can happen |
| `SlotPool.QuietPool` | linux/driver/vcodec/vce_vcmd_driver.c:389-447 | With no task between its steps the semaphore counts the free slots, all 256 once every client has returned its own |
| `Workload.AlwaysAccounted` | linux/driver/vcodec/vce_vcmd_driver.c:811-838 | In every interleaving with one release of a reservation at a time, for amounts of any width, the 32-bit total is what is pending, granted and left behind by interrupts, modulo 2^32 |
| `Workload.GrantedBounded` | linux/driver/vcodec/vce_vcmd_driver.c:806-838 | If the maximum and k largest workloads together fit 32 bits, then in every such interleaving with at most k reservations pending or left behind the total is true and what is granted never exceeds the maximum |
| `Workload.TooLarge` | linux/driver/vcodec/vce_vcmd_driver.c:811-826 | If they do not fit, a run within the same limits, without any release, is granted 2^32 units |
| `Workload.ExactLimits` | linux/driver/vcodec/vce_vcmd_driver.c:806-838 | So no interleaving with one release of a reservation at a time is granted more than the maximum if and only if they fit |
| `Workload.ExactlySingle` | linux/driver/vcodec/vce_vcmd_driver.c:917-924 | From a state whose releases are justified, the total stays accounted for in every continuation in which no further release passes the tests of owner and workload, which take no lock, if and only if no reservation has two releases past them |
| `Workload.FinishedFirst` | linux/driver/vcodec/vce_vcmd_driver.c:831-835 | The second of two releases does no harm if the first has zeroed the workload before it subtracts |
| `Workload.NoLimitsHold` | linux/driver/vcodec/vce_vcmd_driver.c:831-835 | With two releases of one reservation at once no limits are safe: for every maximum, largest workload and number of open reservations, all from 1 on, a run is granted more than the maximum |
| `Workload.EncoderIsSafe` | linux/driver/vcodec/vce_vcmd_driver.c:863-865 | The limits of the encoder are safe for one open reservation and one release of a reservation at a time, interrupts included |
| `Workload.EncoderTwoPending` | linux/driver/vcodec/vce_vcmd_driver.c:811-826 | They are not for two open reservations |
| `Workload.DecoderIsNot` | linux/driver/vcodec/vcd_vcmd_driver.c:786-798 | The decoder adds a 64-bit workload to the 32-bit total: its limits are not even safe for one |
| `Workload.LeakBlocks` | linux/driver/vcodec/vce_vcmd_driver.c:817-823 | Once interrupts have left more than the maximum in the total, nothing is admitted any more |
| `Workload.OneLeakBlocks` | linux/driver/vcodec/vce_vcmd_driver.c:817-823 | A run to that state: one reservation of more than the maximum, interrupted while it waits |
| `DoneJobs.JobList.AddDone` | linux/driver/vcodec/vce_vcmd_driver.c:509-544 | On the linked list itself: a job not yet listed is appended, in_wait cleared, and a wake-up asked for if the list was empty or in_wait was set; a listed one changes nothing |
| `DoneJobs.JobList.GetDone` | linux/driver/vcodec/vce_vcmd_driver.c:583-634 | On the linked list itself: the head for any job; the given job exactly when it is listed and done, slice-done or line-buffer-done; that job leaves the list, the others keep their order, and in_wait stays; otherwise the list stays and in_wait is set |
| `JobWaits.StepKeepsSafe` | linux/driver/vcodec/vce_vcmd_driver.c:509-634 | Every step of every poller and completion keeps the three invariants behind the results below |
| `JobWaits.NoLostWakeup` | linux/driver/vcodec/vce_vcmd_driver.c:1024-1027 | In every interleaving, while a poller is asleep with no wake-up on its way, the list is empty if it asked for any job, and otherwise the job it asked for is not both listed and done; in_wait is set |
| `JobWaits.NextInsertionWakes` | linux/driver/vcodec/vce_vcmd_driver.c:535-543 | The next job that is listed wakes it |
| `JobWaits.SleeperIsServed` | linux/driver/vcodec/vce_vcmd_driver.c:1024-1027 | And after that wake-up it gets a job, if the new one is what it asked for |
| `JobWaits.NoneAtFirst` | linux/driver/vcodec/vce_vcmd_driver.c:535-543 | In every run the wake-ups still to come are those decided less those carried out; a completion decides on one exactly when it lists a job on an empty list or while in_wait is set |
| `JobWaits.OnlyGetsOwn` | linux/driver/vcodec/vce_vcmd_driver.c:607-626 | A poller for one job gets that job and no other, exactly when it is listed and its flag is set; the other jobs keep their order |
| `JobWaits.ServedOwn` | linux/driver/vcodec/vce_vcmd_driver.c:607-626 | In every interleaving a poller that asked for one job has got no other |
| `JobWaits.ExactlyOnce` | linux/driver/vcodec/vce_vcmd_driver.c:523-530 | Every listed completion is on the list or was delivered, never both and never twice; repeated completion changes nothing |
| `JobWaits.AnyGetsOldest` | linux/driver/vcodec/vce_vcmd_driver.c:603-606 | A poller for any job gets the earliest completion that was not yet delivered |
| `DecoderCores.SuitsExactly` | linux/driver/vcodec/vcd_normal_driver.c:1371-1380 | A core suits a format word if and only if it is one of the cores whose bits are set among its low 16, for every set of cores and whatever the upper bits are |
| `DecoderCores.CoreTable.GetDecCore` | linux/driver/vcodec/vcd_normal_driver.c:1382-1419 | Takes the core if and only if its bit is set in the format and it is free |
| `DecoderCores.CoreTable.GetDecCoreAny` | linux/driver/vcodec/vcd_normal_driver.c:1421-1438 | The lowest free core whose bit is set in the format, and failure if and only if there is none |
| `DecoderCores.FindsFree` | linux/driver/vcodec/vcd_normal_driver.c:1462-1478 | In the interleaved protocol, a task past the semaphore that is left alone gets a core while a free one suits it, wherever its search stands |
| `DecoderCores.SearchersHaveRoom` | linux/driver/vcodec/vcd_normal_driver.c:1462-1478 | In every run, interrupted waits included, in which no core has two releases past the owner test: the tasks past the semaphore without a core never outnumber the free cores |
| `DecoderCores.StaysWithHolder` | linux/driver/vcodec/vcd_normal_driver.c:1382-1419 | No core has two owners in such a run: until it is cleared it stays with the task that got it |
| `DecoderCores.ExactlyOneOwner` | linux/driver/vcodec/vcd_normal_driver.c:2357-2371 | From a safe state, in every continuation in which no further release passes the owner test, no release is under way that would take a core from a task that got it after that test, if and only if no core has two releases past it |
| `DecoderCores.ExactlySingle` | linux/driver/vcodec/vcd_normal_driver.c:1519-1541 | From a safe state the searchers have room in every continuation in which no further release passes the owner test, which takes no lock, if and only if no core has two releases past it |
| `DecoderCores.DoubleRelease` | linux/driver/vcodec/vcd_normal_driver.c:1519-1541 | Otherwise both clear the core and raise the semaphore, and a run lets more tasks past it than there are cores |
| `DecoderCores.TwoOwners` | linux/driver/vcodec/vcd_normal_driver.c:1519-1541 | Two tasks of one client release a core: between the two clearings a second client gets it, and after the second a third, although the second client released nothing |
| `DecoderCores.LostForGood` | linux/driver/vcodec/vcd_normal_driver.c:1471-1475 | After an interrupted wait one core less can ever be in use, in such runs |
| `DecoderCores.OneInterruptIsEnough` | linux/driver/vcodec/vcd_normal_driver.c:1462-1478 | With one core, one interrupted wait leaves it free and unreservable |
| `CommandBuffer.EveryOpcode` | linux/driver/vcodec/vcx_driver.c:160-218 | For every instruction word, composed of its bit fields: what is recognised, which fields are printed, and the size in words |
| `CommandBuffer.LandsOnCommands` | linux/driver/vcodec/vce_vcmd_driver.c:208-225 | In every buffer of commands of whatever kind, each as long as its first word says, the walk decodes exactly the first word of each |
| `CommandBuffer.LogCmdbuf` | linux/driver/vcodec/vce_vcmd_driver.c:208-225 | The loop decodes exactly at the positions reached by adding up instruction sizes |
| `CommandBuffer.ReadDecodes` | linux/driver/vcodec/vcx_vcmd_priv.h:500-512 | The decoder of vcx_driver.c recovers the length modulo 1024 and the offset of an emitted read, and its two address words give the address |
| `CommandBuffer.RoundTrip` | linux/driver/vcodec/vcx_driver.c:160-218 | The walk lands on every emitted command in turn and on END, nowhere else; it reads back the emitted commands if and only if every length is at most 1023 |
| `CommandBuffer.CreateReadAllRegisters` | linux/driver/vcodec/vce_vcmd_driver.c:1310-1359 | The buffer is exactly the encoded list of reads and END, at the start of its slot; the size is right, the slot has room, nothing else in memory changes |
| `CommandBuffer.EveryModuleOnce` | linux/driver/vcodec/vce_vcmd_driver.c:1336-1344 | Every sub-module that has a register offset and a first register is read exactly once, in order: as many registers as it reports, from 16-bit byte offset register offset + 4 * first register, to that offset in the register memory |
| `CommandBuffer.BeforeIsCount` | linux/driver/vcodec/vce_vcmd_driver.c:1336-1338 | The place of a read is the number of sub-modules before it that have both numbers |
| `CommandBuffer.FirstAndLast` | linux/driver/vcodec/vce_vcmd_driver.c:1329-1351 | Only hardware newer than 1.0.c reads register 26 before and the 27 registers of the command processor after the sub-modules |
| `CommandBuffer.EmittedReadsComeBack` | linux/driver/vcodec/vce_vcmd_driver.c:1310-1359 | For every sub-system configuration with lengths up to 1023, decoding what was emitted gives back the reads in order |
| `ShadowRegs.Core.DecFlushRegs` | linux/driver/vcodec/vcd_normal_driver.c:1549-1680 | Registers 3 and up where the filter lets them through, then 2 and 1; register 0 never; the shadow follows |
| `ShadowRegs.Core.DecWriteRegs` | linux/driver/vcodec/vcd_normal_driver.c:1711-1749 | The range is written, the shadow follows only for type HW_VCD; a range outside the registers is an error that changes nothing |
| `ShadowRegs.Core.DecReadRegs` | linux/driver/vcodec/vcd_normal_driver.c:1788-1868 | The range is read, the shadow follows only for type HW_VCD; a range outside the registers is an error |
| `ShadowRegs.Core.DecRefreshRegs` | linux/driver/vcodec/vcd_normal_driver.c:1870-1923 | All registers are read back, or with the filter exactly 0, 1, 62, 63, 168 and 169, and then also into the shadow |
| `ShadowRegs.FilterIsHarmless` | linux/driver/vcodec/vcd_normal_driver.c:1591-1607 | A filtered flush leaves the same registers as an unfiltered one if and only if every skipped register already holds the value |
| `ShadowRegs.ShowsExactly` | linux/driver/vcodec/vcd_normal_driver.c:1589-1670 | For either core type, over any sequence of flushes, writes, reads, refreshes and changes by the hardware: filtered and unfiltered hardware are equal throughout if and only if no flush skips a register that holds another value |
| `ShadowRegs.FilterNeverShows` | linux/driver/vcodec/vcd_normal_driver.c:1589-1670 | For either core type they are, in particular, when no flush happens while a register from 3 on is stale: changed by the hardware, or for HW_VCDJ written directly, and not read back or flushed since |
| `ShadowRegs.StaleAfterFlush` | linux/driver/vcodec/vcd_normal_driver.c:1589-1670 | A flush freshens the registers it writes, and leaves register 0 and those that the filter skips as they were |
| `ShadowRegs.QuietHardware` | linux/driver/vcodec/vcd_normal_driver.c:1589-1670 | So in particular when the hardware only changes registers below 3 and a HW_VCDJ core is only written directly below 3 |
| `ShadowRegs.JpegShows` | linux/driver/vcodec/vcd_normal_driver.c:1740-1747 | For type HW_VCDJ a direct write followed by a flush of the old value shows the difference |
| `ShadowRegs.StaleShows` | linux/driver/vcodec/vcd_normal_driver.c:1591-1607 | So does a hardware change of a register from 3 on followed by a flush |

## Left out

- FourLevel.Mmu.MemNodeMap: requires that the pool has room for the tables the buffer can need; the code ignores the failure of the pool search and goes on with an unset pointer.
- FourLevel.Mmu.MemNodeUnmap: requires exact use counts, and that the tables of the buffer are found by index; otherwise KeyCollisions.ClearIsExact gives the exact condition for each page, and the run as a whole is not described: once a wrong table is given back, the loop goes on writing into free pages.
- ShadowRegs.Core.DecWriteRegs: byte offsets are assumed to stay below 2^32, so that the range test does not wrap; the same holds for DecReadRegs.
- ShadowRegs.Core.DecFlushRegs: the tests of core number, type and mapped registers before the access are not modelled, and only one core is.
- BiList.List.Remove: a node that is not in the list must have null links; removing a node twice is not described.
- TwoLevel.PageTable.constructor: the slave tables are assumed to lie below 4 GB, as the 32-bit master entries need.
- FourLevel.PageTables.NewTable: as MemNodeMap, assumes that a table page is free.
- JobWaits.StepKeepsSafe: a slot is reset for its next use only after its job was collected, because reset_cmdbuf_node clears links without unlinking; slice and line-buffer completions are no steps of the interleaving, as nothing in the sources sets those flags.
- DoneJobs.JobList.GetDone: the decoder's variant also returns when the process has no command buffer at all; that exit is not modelled.
- Workload.ExactlySingle: a late release that reads the workload of the next reservation of the same slot is not described; it needs two releases past the tests, for which the failure is shown without it.
- Workload.ExactLimits: workloads of a process object after drop_owner, which the decoder does not subtract, are not modelled.
- The sentinels at the ends of the C lists of vcx_mmu.c, which no search condition matches, and failing kmalloc.
- One process and one page table; switching page tables, and several processes sharing the pool.
- The layout of the 48-bit build is the PCIe one with offset 0, where the pool address and the entry address agree.
- The failing branches of GetPhysicalAddress and QueryProcessPageTable: the lookup is an arbitrary total function.
- Kernel map and unmap of the 48-bit build, whose loops are those of its client map and unmap, and the simple_map mode, which MMUInit switches off.
- Whether a blocked task is ever served.
- Running a command buffer on the device and the mailbox to the remote processor: a completion is an arbitrary step.
- The decoder's own create_read_all_registers_cmdbuf, which emits fewer of the same commands, and the other command emitters.
- The register field mirror and its field table, ioctl dispatch, user-space copies, probing, power management, watchdogs, statistics: no hard property.
