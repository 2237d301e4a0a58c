# The x86-64 virtual memory manager of anarch, verified

A Dafny model of the virtual memory manager under `src/arch/x64`, with proofs about every input,
every run and every interleaving of the model. `dafny verify dfyconfig.toml` checks the project.

- **Page tables.** `PageTree` holds the tree of tables and its four edits, `TreeWalks` the walks of
  Set, Unset and FreeTable through it, `FlatMaps` the flat map of leaves that the tree stands for,
  `PageLists` lists of pages, `PageMemory` the table pages in physical memory, and `PageTables` the
  class `PageTable`, which edits those pages in place. `SelfMap` is the processor's own walk: what it
  sees of a mapped address, and where the addresses of GetTableEntry lead. `AccessRights` is read-back
  and the rights that all levels together grant. `Addresses` is the arithmetic of slots and pages,
  `PhysicalWords` that of physical addresses in entries.
- **User memory.** `FreeLists` says what Alloc, AllocAt and Free do to a list of free intervals,
  `LinkedFreeList` does it on linked nodes. `UserSpaces` is the free list, the page table and the
  addresses handed out, changed together by each operation; `UserRuns` is what holds over runs;
  `UserMaps` is the class.
- **Kernel memory.** `FreeFinders` is the one-interval cache and its scan, `GlobalMaps` the map.
  `PageRuns` and `TableRuns` hold what both maps need.
- **TLB.** `Shootdown` interleaves map operations, TLB fills, address-space switches, the shootdown
  and its interrupt handlers, one access of shared memory at a time. `Invlpg` is the flush of one processor.
- **Boot.** `RegionLists`, `StepAllocators` and `MapSetups`: the memory map of the boot loader, the
  allocator that only steps upwards, and the first identity map.
- **Mailbox.** RunAsync against HandleWakeup.

In `PageTable`, `UserMap`, `GlobalMap` and `MapSetup` the ghost field `tree` is the table tree; a
method's `ensures` ties the new mapping to the old one. Assertions and calls of Panic become results
(`Panicked`, `Misaligned`, `Stopped`, `found == false`, `ok == false`) where the model can reach them.
The field `flushes` of the two maps lists their calls of DistributeInvlpg.

## What the code does not do

The model follows the code; these are the places where a promise of the code or of its comments
fails, each with the exact condition and an input.

- `src/arch/x64/vmm/user/free-list.cpp:176-177` advances the start of a region without reducing its size, so a region from
  whose start a run is taken slides upwards (`FreeLists.Slides`: the first region that can hold the
  request starts aligned and is not exactly as long). A list stays exact if and only if no region slides
  (`AllocKeepsCanonicalIff`, `FreeUndoesAllocIff`, `StepKeepsExactIff`, `UndoRestoresIff`). Free and used
  memory stay apart if and only if no region slides onto either (`StepKeepsInvIff`). What is handed out
  is user memory if and only if every free run that would do is, or lies behind one that is
  (`GrantIsUserIff`). So in a new map Map and Reserve of one page size are safe until the lower half is
  used up (`NewMapTakesAreSafe`), and so are Map, Map and Unmap of any sizes (`MapMapUnmapIsSafe`); but
  mapping a 4 KiB page, a 2 MiB one and a 4 KiB one slides free memory onto the large one
  (`ThreeMapsSlip`), three reservations hand a page out twice (`SlidingHandsOutTwice`), and two hand out a
  run that crosses the canonical hole at bit 47 (`SlidingLeavesUserMemory`).
- `src/arch/x64/vmm/user/user-map.cpp:69` releases 255 pages of 32 GiB in the upper half, where the comment leaves out
  the last 512 GiB alone: of that memory one sixteenth is usable (`UserRuns.UsableIff`).
- `src/arch/x64/vmm/page-table.cpp:93` tests the present bit before bit 7, so Set inside a larger reservation replaces
  the whole reservation by a table instead of failing. Set changes its own page alone if and only if
  it does not land inside a larger leaf (`SetChangesOnlyItsPageIff`); Unset finds the page again if and
  only if it is a 4 KiB one or marked huge, and undoes Set exactly in vacant space (`UnsetUndoesSetIff`). `SmallSetClearsReservation` is an input for both.
- `src/arch/x64/vmm/page-table.cpp:109-111` writes the entry over whatever the slot holds. Over a pointer, the table it led
  to and all tables below are lost: nothing frees them. Set loses pages if and only if smaller leaves
  lie in its page (`SetLosesTablesIff`; an input is `LargeSetLosesTable`), and SetList if and only if a page of the list is a table. In
  user and kernel maps used by their contracts neither happens: `Lost()` stays empty.
- `src/arch/x64/vmm/page-table.hpp:61-67` says that Unset fails in the middle of a larger page. The code never returns
  false: it removes the whole leaf, and it panics exactly when it meets neither a huge entry nor a
  4 KiB table (`PageTables.PageTable.Unset`, `FoundIffSettled`). In a 4 KiB table it does not look at
  the entry. Inputs are `UnsetRemovesWholePage` and `UnsetFindsNeighbour`.
- `src/arch/x64/vmm/page-table.hpp:41-42` says that Walk may return depth 3 for a zero entry; the code returns -1 for
  every entry that is neither present nor huge. A 4 KiB reservation of kernel space is such an entry,
  so Walk, and with it UpdateFreeRegion, sees reservations of 2 MiB pages only
  (`ReservationShowsIff`). A run that Reserve, ReserveAt or UnmapAndReserve has reserved still counts as
  free if and only if its pages are 4 KiB ones (`ReservedIsFreeIff`).
- `src/arch/x64/vmm/global/global-map.cpp:94` aligns to the page count. The pages of Map come out aligned wherever the cached
  interval starts for exactly the page counts of `MapAlignsIff`: divisors of 0x1000 and multiples of
  it for 4 KiB pages, multiples of 0x200000 for 2 MiB pages. For other counts Map may be granted a run
  that Set refuses.
- `src/arch/x64/vmm/global/free-finder.cpp:95` grants an empty request unchecked, and line 19 then subtracts the slice cut
  off for alignment. The cached interval stays free if and only if it is not shorter than that slice
  (`EmptyRequestKeepsFreeIff`); otherwise its size wraps (`EmptyRequestWraps`).
- `src/arch/x64/vmm/tlb.cpp:33` compares the end of a large range with KernelEnd by `<`. One call of Invlpgs drops its
  range from every TLB for exactly the ranges of `CallCoversIff`; a large kernel range that ends at
  KernelEnd keeps its global entries. Kernel coherence holds in every run whose kernel operations have
  covered ranges, and for every other kernel range one Unmap leaves a stale translation
  (`UncoveredStaysStale`). User coherence depends on user ranges alone, and those of user memory are all
  covered (`UserRangesFlush`); the protocol itself works in every run.
- `src/arch/x64/pmm/step-allocator.cpp:30-32` may leave lastAddr one byte below what is allocated. A run lies behind all
  runs before it if and only if it is not a single byte for which the search falls back
  (`GrantIsBehindIff`); `LastByteTwice` are three calls that hand out a byte twice.

## Model

| member | source | states |
|---|---|---|
| PageTree.LinkIsWf | src/arch/x64/vmm/page-table.cpp:93-100 | hanging a cleared table under an entry that points at no table keeps the tree: every table has one parent entry, every pointer leads to a table, no frame is used twice |
| PageTree.PutKeepsWf | src/arch/x64/vmm/page-table.cpp:104-111 | so does writing a leaf, or a pointer to the same table |
| PageTree.UnlinkKeepsWf | src/arch/x64/vmm/page-table.cpp:139-144 | so does clearing the pointer to an empty table: it has no children to orphan |
| PageTree.PutFlat | src/arch/x64/vmm/page-table.cpp:109-111 | a leaf written to a slot shows at exactly the addresses under the slot |
| PageTree.LinkFlat | src/arch/x64/vmm/page-table.cpp:93-100 | a new table makes the addresses under its slot vacant and changes no other |
| PageTree.UnlinkFlat | src/arch/x64/vmm/page-table.cpp:139-144 | removing an empty table changes no address |
| PageTree.MaskFlat | src/arch/x64/vmm/page-table.cpp:104-106 | ORing the parent mask into a pointer changes no address |
| PageTree.LeafBelow | src/arch/x64/vmm/page-table.cpp:131-147 | when no table is empty, a leaf lies under every table |
| PageTree.ShapeIsDetermined | src/arch/x64/vmm/page-table.cpp:84-148 | two trees without empty tables that map the same have the same tables |
| PageTree.VacantSlotIsZero | src/arch/x64/vmm/page-table.cpp:131-147 | where nothing is mapped no table is left and the slot is zero |
| TreeWalks.DescendLink | src/arch/x64/vmm/page-table.cpp:91-101 | a round of Set that adds a table keeps what holds on the way down |
| TreeWalks.DescendMask | src/arch/x64/vmm/page-table.cpp:104-106 | so does a round that finds one and ORs the mask in |
| TreeWalks.DescendPut | src/arch/x64/vmm/page-table.cpp:109-112 | the store at the bottom gives every address what Set promises, adds no table below its depth, keeps all tables unless it overwrites a pointer, and leaves no empty one |
| TreeWalks.CutIsWf | src/arch/x64/vmm/page-table.cpp:109-111 | a leaf written over anything leaves a tree: the tables out of reach are those below the slot |
| TreeWalks.CutFlat | src/arch/x64/vmm/page-table.cpp:109-111 | the leaf shows at exactly the addresses under the slot, whatever was there |
| TreeWalks.PruneStart | src/arch/x64/vmm/page-table.cpp:121-129 | clearing the entry found removes the leaf that covers the address |
| TreeWalks.PruneStep | src/arch/x64/vmm/page-table.cpp:131-145 | each round of Unset's second loop removes one empty table and changes no address |
| TreeWalks.PrefixIsTable | src/arch/x64/vmm/page-table.cpp:238-255 | the tables above a table are tables |
| TreeWalks.MissingCount | src/arch/x64/vmm/page-table.cpp:91-101 | the tables missing above a slot are those from the level where the walk of its address ends |
| TreeWalks.FreeingSteps | src/arch/x64/vmm/page-table.cpp:247-252 | the tables below one slot are apart from those below the slots before it, so none is freed twice |
| FlatMaps.PagesAreConsistent | src/arch/x64/vmm/page-table.cpp:62-82 | a leaf covers its whole page |
| FlatMaps.SetFlatIsSetPages | src/arch/x64/vmm/page-table.cpp:84-113 | what Set does to the tree is one update of the flat map |
| FlatMaps.UnsetFlatIsUnsetPages | src/arch/x64/vmm/page-table.cpp:115-148 | what Unset does to the tree removes one leaf of the flat map |
| FlatMaps.SetChangesOnlyItsPageIff | src/arch/x64/vmm/page-table.cpp:84-113 | Set changes its own page alone if and only if the page does not lie inside a larger leaf |
| FlatMaps.SetLosesTablesIff | src/arch/x64/vmm/page-table.cpp:109-111 | without empty tables, Set takes table pages out of reach if and only if smaller leaves lie in its page |
| FlatMaps.UnsetUndoesSetIff | src/arch/x64/vmm/page-table.cpp:84-148 | Unset finds the page just set if and only if it is a 4 KiB one or marked huge, and gives back the mapping if and only if nothing was mapped or reserved in the page |
| FlatMaps.RoundTripRestoresTables | src/arch/x64/vmm/page-table.cpp:84-148 | and then the same tables exist as before |
| FlatMaps.FoundIffSettled | src/arch/x64/vmm/page-table.cpp:120-127 | whether Unset finds something can be read off the flat map: a huge or 4 KiB leaf, or a 4 KiB leaf in the same 2 MiB |
| FlatMaps.TableIsAboveLeafIff | src/arch/x64/vmm/page-table.cpp:131-147 | without empty tables a table exists if and only if a leaf lies in it or below, so Unset frees exactly the tables it emptied |
| FlatMaps.SetKeepsConsistent | src/arch/x64/vmm/page-table.cpp:84-113 | after Set every leaf still covers its whole page |
| FlatMaps.UnsetKeepsConsistent | src/arch/x64/vmm/page-table.cpp:115-148 | so it does after Unset |
| FlatMaps.NoStrays | src/arch/x64/vmm/page-table.cpp:247-251 | with larger leaves marked huge, FreeTable follows table pointers and nothing else |
| PageLists.ListOnClear | src/arch/x64/vmm/page-table.cpp:150-172 | a list whose pages lie inside no larger leaf sets the i-th entry at the i-th page and changes no other address |
| PageLists.UnlistMapped | src/arch/x64/vmm/user/user-map.cpp:126-132 | unsetting mapped pages one by one removes those pages and no other |
| PageLists.NotYetListed | src/arch/x64/vmm/page-table.cpp:158-171 | a page the loop has not reached shows what it showed before |
| PageLists.EntryFlags | src/arch/x64/vmm/page-table.cpp:169-170 | adding page sizes to an entry leaves its flags alone |
| PageMemory.FrameIsTable | src/arch/x64/vmm/page-table.cpp:212-230 | following the entries from the PML4 leads to the table of the path |
| PageMemory.ExtendedIsSound | src/arch/x64/vmm/page-table.cpp:93-100 | memory and tree still agree once the entry is written and the page it leads to is cleared |
| PageMemory.RemovedIsSound | src/arch/x64/vmm/page-table.cpp:139-144 | and once an emptied table is handed back; the page was not free before, and none is lost |
| PageMemory.CutIsSound | src/arch/x64/vmm/page-table.cpp:109-111 | and once a leaf is written over a pointer; exactly the pages of the tables below are lost |
| PageMemory.CountIs | src/arch/x64/vmm/page-table.cpp:84-148 | every page is the frame of just one table, or lost, or free |
| PageMemory.TookMissing | src/arch/x64/vmm/page-table.cpp:91-101 | building the way to a slot takes just one frame for every table that was missing |
| PageTables.CalcDepth | src/arch/x64/vmm/page-table.cpp:12-25 | the depth at which a slot spans the given size, or none |
| PageTables.CalcMask | src/arch/x64/vmm/page-table.cpp:27-32 | a present entry, huge above 4 KiB, that touches no address bit |
| PageTables.PageTable.GetTableEntry | src/arch/x64/vmm/page-table.cpp:212-230 | the slot of the tree for an address and a depth |
| PageTables.PageTable.Walk | src/arch/x64/vmm/page-table.cpp:62-82 | reports a depth if and only if the leaf counts as mapped or reserved, then that leaf and its size; always the size of the slot met |
| PageTables.PageTable.Set | src/arch/x64/vmm/page-table.cpp:84-113 | refuses if and only if a present leaf of greater size covers the page, and then changes no address; else runs out of memory if and only if fewer frames are left than tables are missing above the slot; else updates the flat map, reports whether it replaced a leaf or a table, adds the missing tables and no other, loses exactly the tables below its slot, keeps the total of pages, masks, the first slot of the PML4 and the absence of empty tables |
| PageTables.PageTable.Unset | src/arch/x64/vmm/page-table.cpp:115-148 | finds something exactly in a 4 KiB table or at a huge entry, removes that leaf alone, keeps the total of pages and the first slot of the PML4, loses none, and leaves no empty table |
| PageTables.PageTable.SetList | src/arch/x64/vmm/page-table.cpp:150-172 | sets the whole list, or panics on an unknown size, a page that Set refuses, or empty memory; on a list with neither a refused page nor a table it goes through if and only if a frame is left for every table missing above its pages; the flag tells whether any page or table was replaced; loses pages if and only if a page of the list is a table |
| PageTables.PageTable.Read | src/arch/x64/vmm/page-table.cpp:174-202 | what the leaf of the address says |
| PageTables.PageTable.FreeTableRecursive | src/arch/x64/vmm/page-table.cpp:238-255 | frees the table and all below it, each once |
| PageTables.PageTable.FreeTable | src/arch/x64/vmm/page-table.cpp:204-208 | hands back the frames of the tables of the tree, the PML4 with them, each once, and no other frame, so neither that of the kernel's PDPT nor a mapped or lost one |
| SelfMap.SelfIndices | src/arch/x64/vmm/page-table.cpp:212-230 | the address of a slot spells turns through slot 0x1ff and then the path to its table |
| SelfMap.SelfMapShowsEntries | src/arch/x64/vmm/page-table.cpp:212-236 | the processor's walk of that address ends at the physical table, at eight bytes a slot, for every depth |
| SelfMap.SelfMapShowsTables | src/arch/x64/vmm/page-table.cpp:232-236 | the address through which a new table is cleared leads the processor to that table |
| SelfMap.ProcessorSeesMapping | src/arch/x64/vmm/page-table.cpp:62-148 | at every address the processor's 4-level walk sees what the flat map says |
| SelfMap.FirstSlotLeadsOn | src/arch/x64/vmm/user/user-map.cpp:56 | with a PDPT in slot 0 of a PML4 the walk of every kernel address goes on from that PDPT |
| SelfMap.KernelIsShared | src/arch/x64/vmm/user/user-map.cpp:56 | so with the PDPT of the kernel every kernel address translates as in the kernel map |
| AccessRights.EffectiveIsLeaf | src/arch/x64/vmm/page-table.cpp:99-106 | with mask 7 in every parent the rights of all levels together are those of the leaf |
| AccessRights.EntryKeepsMask | src/arch/x64/vmm/page-table.cpp:156-171 | the flags given with the first page reach every page of a list |
| AccessRights.EffectiveOfLeaf | src/arch/x64/vmm/page-table.cpp:99-106 | so at every address the processor grants what the flat map's leaf says |
| AccessRights.DecodedIs | src/arch/x64/vmm/page-table.cpp:185-199 | reading an entry made by CalcMask gives back address, flags and size |
| AccessRights.ReadFindsIff | src/arch/x64/vmm/page-table.cpp:174-202 | Read finds nothing exactly at a leaf that is neither huge nor a present 4 KiB one, and rejects exactly the other depths than those of 2 MiB and 4 KiB |
| AccessRights.MaskHasOnly | src/arch/x64/vmm/page-table.cpp:27-32 | CalcMask sets bits 0, 1, 2, 7, 8 and 63 alone, bit 8 exactly for the kernel |
| AccessRights.GlobalIs | src/arch/x64/vmm/page-table.cpp:27-32 | kernel pages are global, user pages are not |
| AccessRights.AlignedIsPhysical | src/arch/x64/vmm/page-table.cpp:169-170 | every page of an aligned physical run below 2^63 survives the address masks of Read |
| PhysicalWords.WordSum | src/arch/x64/vmm/page-table.cpp:169 | 64-bit words add as the numbers do whose low 64 digits they are |
| PhysicalWords.WordIsUnique | src/arch/x64/vmm/page-table.cpp:150 | below 2^64 different numbers have different words |
| PhysicalWords.EntryIsWord | src/arch/x64/vmm/page-table.cpp:156-170 | the i-th page of a list lies i page sizes behind the first |
| PhysicalWords.IsFrameIff | src/arch/x64/vmm/page-table.cpp:141 | an address fits the address field if and only if it is page-aligned and below 2^63; the same for 2 MiB pages |
| PhysicalWords.FrameAtIs | src/arch/x64/vmm/page-table.cpp:95-99 | such addresses name page frames, different ones different frames |
| FreeLists.Interval.CanHold | src/arch/x64/vmm/user/free-list.cpp:119-125 | the first aligned run fits, without overflow |
| FreeLists.Interval.Contains | src/arch/x64/vmm/user/free-list.cpp:132-139 | containment, also of intervals that end at 2^64 |
| FreeLists.Interval.IsAdjacentBehind | src/arch/x64/vmm/user/free-list.cpp:127-130 | the interval ends where the address begins, which none that ends at 2^64 does |
| FreeLists.Interval.IsBehind | src/arch/x64/vmm/user/free-list.cpp:141-144 | the interval ends at or before the address |
| FreeLists.Interval.IsEndedBy | src/arch/x64/vmm/user/free-list.cpp:150-152 | both end at the same address |
| FreeLists.CanonicalIsUnique | src/arch/x64/vmm/user/free-list.cpp:65-106 | a sorted list without touching intervals is determined by its addresses |
| FreeLists.RunIsInsideOne | src/arch/x64/vmm/user/free-list.cpp:77-84 | because Free coalesces, a free run lies in one interval |
| FreeLists.AllocIsLowestFit | src/arch/x64/vmm/user/free-list.cpp:39-63 | Alloc returns the lowest aligned free run, and refuses if and only if there is none; it never trips over an assertion |
| FreeLists.AllocAtSucceedsIffFree | src/arch/x64/vmm/user/free-list.cpp:18-37 | AllocAt succeeds if and only if the start is aligned and the whole run is free |
| FreeLists.AllocKeepsCanonicalIff | src/arch/x64/vmm/user/free-list.cpp:170-187 | the list is the canonical list of what is left if and only if the first region that can hold the request does not start aligned with another size |
| FreeLists.AllocAtKeepsCanonicalIff | src/arch/x64/vmm/user/free-list.cpp:170-187 | the same for AllocAt and a region that starts where the caller says |
| FreeLists.ServingKeepsUnusedIff | src/arch/x64/vmm/user/free-list.cpp:170-187 | free and used addresses stay apart, and the list canonical, if and only if no region slides onto a used or free address |
| FreeLists.FreeAdds | src/arch/x64/vmm/user/free-list.cpp:65-106 | Free keeps the list canonical and adds exactly its run, also up to 2^64 |
| FreeLists.FreeUndoesAllocIff | src/arch/x64/vmm/user/free-list.cpp:39-106 | Free after Alloc gives back the very same list if and only if no region slid |
| FreeLists.FreeUndoesAllocAtIff | src/arch/x64/vmm/user/free-list.cpp:18-106 | the same for AllocAt |
| FreeLists.SlideIsNotUndone | src/arch/x64/vmm/user/free-list.cpp:176-177 | no Free of the run undoes a slide |
| FreeLists.TotalIsBytesIff | src/arch/x64/vmm/user/free-list.cpp:44 | the 64-bit product is the number of bytes if and only if that fits |
| FreeLists.RunKeepsCanonical | src/arch/x64/vmm/user/free-list.cpp:18-106 | over every run of calls that slide no region the list is canonical and denotes what the calls left free |
| FreeLists.RunKeepsUnused | src/arch/x64/vmm/user/free-list.cpp:18-106 | over every run of calls in which regions slide only where they have room the list is canonical and no address in use is free |
| LinkedFreeList.FreeList.Alloc | src/arch/x64/vmm/user/free-list.cpp:39-63 | the linked list does what the function on intervals says |
| LinkedFreeList.FreeList.AllocAt | src/arch/x64/vmm/user/free-list.cpp:18-37 | likewise |
| LinkedFreeList.FreeList.AllocInRegion | src/arch/x64/vmm/user/free-list.cpp:170-187 | likewise, in its four cases |
| LinkedFreeList.FreeList.Free | src/arch/x64/vmm/user/free-list.cpp:65-106 | likewise, with the loop that merges what has come to touch |
| LinkedFreeList.FreeList.AbsorbNext | src/arch/x64/vmm/user/free-list.cpp:77-84 | the merging loop absorbs every node that the grown one touches |
| PageRuns.ListPlaces | src/arch/x64/vmm/page-table.cpp:150-172 | a list on a placeable run shows the right entry at every address of the run and changes no other |
| PageRuns.UnlistClears | src/arch/x64/vmm/user/user-map.cpp:126-132 | unsetting the pages of a run clears exactly its addresses |
| PageRuns.VacantIsPlaceable | src/arch/x64/vmm/user/user-map.cpp:97-102 | a run in which nothing is mapped can be set |
| TableRuns.RunIsSettable | src/arch/x64/vmm/page-table.cpp:158-161 | SetList is not stopped on such a run, and no page of it is a table |
| TableRuns.ReplacesIff | src/arch/x64/vmm/page-table.cpp:163-168 | SetList replaces a page of such a run if and only if the run is not vacant |
| TableRuns.UnsetRun | src/arch/x64/vmm/user/user-map.cpp:126-132 | the loop finds and removes every page of a mapped run, and never panics; afterwards a frame is left for every table that setting the run again would need |
| TableRuns.RunHasFrames | src/arch/x64/vmm/page-table.cpp:91-101 | setting mapped pages once more at their size needs no frame |
| TableRuns.SmallSetClearsReservation | src/arch/x64/vmm/page-table.cpp:93-100 | a 4 KiB Set in a 2 MiB reservation is not refused and clears the rest of it, which Unset does not bring back |
| TableRuns.SmallSetIsRefused | src/arch/x64/vmm/page-table.cpp:93-97 | a present 2 MiB leaf in its place refuses the same Set |
| TableRuns.LargeSetLosesTable | src/arch/x64/vmm/page-table.cpp:109-111 | a 2 MiB Set over a 4 KiB leaf loses the table of the leaf |
| TableRuns.UnsetFindsNeighbour | src/arch/x64/vmm/page-table.cpp:120-129 | next to a 4 KiB leaf Unset does not panic where nothing is mapped; one table on it does |
| TableRuns.UnsetRemovesWholePage | src/arch/x64/vmm/page-table.cpp:120-129 | in the middle of a 2 MiB page Unset removes the page |
| UserSpaces.TakenRunWasFree | src/arch/x64/vmm/user/user-map.cpp:93-104 | what Map, Reserve and ReserveAt take, when user memory has room for it, lies in one half of user memory, was free, aligned, held by nobody and mapped nowhere |
| UserSpaces.GrantIsUserIff | src/arch/x64/vmm/user/user-map.cpp:93-104 | the run given is user memory if and only if every free run that would do is, or lies behind one that is |
| UserSpaces.RoomBelowIsEnough | src/arch/x64/vmm/user/user-map.cpp:93-104 | a free aligned run of that length in the lower half is enough for that |
| UserSpaces.TakeKeepsInvIff | src/arch/x64/vmm/user/user-map.cpp:93-104 | free, held and mapped memory stay apart if and only if no region slides onto memory that is held or free |
| UserSpaces.UnmapKeepsInv | src/arch/x64/vmm/user/user-map.cpp:122-151 | Unmap and UnmapAndReserve clear exactly their run and keep free, held and mapped apart |
| UserSpaces.MapAtKeepsInv | src/arch/x64/vmm/user/user-map.cpp:106-120 | so does MapAt, which sets exactly its run |
| UserSpaces.UnreserveKeepsInv | src/arch/x64/vmm/user/user-map.cpp:169-173 | so does Unreserve, which maps nothing |
| UserSpaces.StepKeepsInvIff | src/arch/x64/vmm/user/user-map.cpp:93-173 | the same for every operation |
| UserSpaces.RunOf | src/arch/x64/vmm/user/user-map.cpp:93-173 | over every run without such a slide free, held and mapped memory are apart |
| UserSpaces.RunLeavesAlone | src/arch/x64/vmm/user/user-map.cpp:93-173 | over every such run a mapped page that no call names keeps its leaf |
| UserRuns.InitialIsInv | src/arch/x64/vmm/user/user-map.cpp:65-69 | the first state satisfies the invariant |
| UserRuns.InitialIsExact | src/arch/x64/vmm/user/user-map.cpp:65-69 | and every usable address is free |
| UserRuns.UsableIff | src/arch/x64/vmm/user/user-map.cpp:65-69 | usable are the lower half behind the first 512 GiB, and the first sixteenth of the upper half without its last 512 GiB |
| UserRuns.NewMapTakesAreSafe | src/arch/x64/vmm/user/user-map.cpp:93-158 | in a new map every sequence of Map and Reserve of one page size is safe until the lower half is used up, and holds just the first addresses |
| UserRuns.MapMapUnmapIsSafe | src/arch/x64/vmm/user/user-map.cpp:93-136 | Map, Map and Unmap of the first in a new map are a safe run, for all sizes |
| UserRuns.TakeKeepsExactIff | src/arch/x64/vmm/user/user-map.cpp:93-104 | every usable address stays free or held, never both, if and only if no region slides |
| UserRuns.ReturnKeepsExact | src/arch/x64/vmm/user/user-map.cpp:122-136 | returning memory keeps that |
| UserRuns.StepKeepsExactIff | src/arch/x64/vmm/user/user-map.cpp:93-173 | each of the seven operations, also when refused, keeps every usable address free or held if and only if it slides no region |
| UserRuns.RunKeepsExact | src/arch/x64/vmm/user/user-map.cpp:93-173 | so does every run without such an operation |
| UserRuns.UsableIsPartitioned | src/arch/x64/vmm/user/user-map.cpp:65-173 | after every such run in a new map each usable address is free or held, never both, and a mapped one is held |
| UserRuns.SlidingHandsOutTwice | src/arch/x64/vmm/user/user-map.cpp:153-167 | three reservations in a new map, after which a page is handed out that is in use |
| UserRuns.ThreeMapsSlip | src/arch/x64/vmm/user/user-map.cpp:93-104 | a Map of 4 KiB, one of 2 MiB and one of 4 KiB in a new map slide free memory onto the 2 MiB page |
| UserRuns.SlidingLeavesUserMemory | src/arch/x64/vmm/user/user-map.cpp:153-158 | two reservations in a new map: the first is safe, the second is given a run that crosses the canonical hole and shares table slots with the upper half, as user memory has no room for it before that run |
| UserRuns.MappingReadsBack | src/arch/x64/vmm/page-table.cpp:150-202 | after Map or MapAt and any further safe run that leaves the page alone, every address of the mapping reads back the page, flags and size asked for, and the leaf grants user access and exactly those rights |
| UserRuns.MappingIsInPlace | src/arch/x64/vmm/page-table.cpp:150-202 | in numbers, for Map and MapAt: every address of a mapping reads back the page as far behind the physical start as the address is behind the virtual one |
| UserRuns.MappingIsReturnable | src/arch/x64/vmm/user/user-map.cpp:93-136 | what Map or MapAt has mapped may be unmapped after any further safe run that leaves it alone: every page is still there and held |
| UserRuns.UnmappedReadsNothing | src/arch/x64/vmm/user/user-map.cpp:122-151 | what Unmap or UnmapAndReserve has cleared reads back as not mapped |
| UserRuns.UndoRestoresIff | src/arch/x64/vmm/user/user-map.cpp:93-173 | Unmap after Map, and Unreserve after Reserve or ReserveAt, give back the very same free list, pages and held addresses if and only if no region slid |
| UserRuns.LeafGrants | src/arch/x64/vmm/page-table.cpp:99-106 | in every table tree of that state all four levels together grant what the leaf grants |
| UserMaps.FirstReleases | src/arch/x64/vmm/user/user-map.cpp:65-69 | the two releases of the constructor build the two regions of the first list |
| UserMaps.UserMap.constructor | src/arch/x64/vmm/user/user-map.cpp:45-70 | a new map is in the first state, owns what the allocator had, has flushed nothing, and holds the PDPT of the kernel, present and writable, in slot 0 of its PML4 |
| UserMaps.KernelStays | src/arch/x64/vmm/user/user-map.cpp:56 | which is there in every state that the operations lead to |
| UserMaps.KernelIsSeen | src/arch/x64/vmm/user/user-map.cpp:56 | so in every such state the processor translates each kernel address in a user map as the kernel map does |
| UserMaps.UserMap.Map | src/arch/x64/vmm/user/user-map.cpp:93-104 | refuses if and only if the free list does, else answers the address it took, in which nothing was mapped or held, and makes the step of the model; panics if and only if fewer frames are left than tables are missing above that run; no table page is lost |
| UserMaps.UserMap.MapAt | src/arch/x64/vmm/user/user-map.cpp:106-120 | the step of the model; panics if and only if fewer frames are left than tables are missing above the run; flushes its range if and only if something was mapped in it |
| UserMaps.UserMap.Unmap | src/arch/x64/vmm/user/user-map.cpp:122-136 | the step of the model, without a panic; flushes its range, and leaves the frames to map it again |
| UserMaps.UserMap.UnmapAndReserve | src/arch/x64/vmm/user/user-map.cpp:138-151 | the step of the model, without a panic; flushes its range, and leaves the frames to map it again |
| UserMaps.UserMap.Reserve | src/arch/x64/vmm/user/user-map.cpp:153-158 | refuses if and only if the free list does, else answers the address it took and makes the step of the model |
| UserMaps.UserMap.ReserveAt | src/arch/x64/vmm/user/user-map.cpp:160-167 | the step of the model on a vacant run; panics if and only if the run is not free |
| UserMaps.UserMap.Unreserve | src/arch/x64/vmm/user/user-map.cpp:169-173 | the step of the model |
| UserMaps.UserMap.Destroy | src/arch/x64/vmm/user/user-map.cpp:72-74 | every frame of the map is back with the allocator, whatever the free list has become |
| FreeFinders.NextBoundary | src/arch/x64/vmm/global/free-finder.cpp:78-85 | steps of leaf size tile kernel space: each starts a leaf, and the leaf is free or occupied as a whole |
| FreeFinders.StretchEnds | src/arch/x64/vmm/global/free-finder.cpp:68-92 | a free stretch up to an occupied leaf bounds the runs that start in it |
| FreeFinders.EmptyRequestKeepsFreeIff | src/arch/x64/vmm/global/free-finder.cpp:18-26 | an empty request leaves a free interval in the cache if and only if that is not shorter than the slice cut off |
| FreeFinders.EmptyRequestWraps | src/arch/x64/vmm/global/free-finder.cpp:18-26 | an input for which the cached size wraps |
| FreeFinders.FreeFinder.CanAllocate | src/arch/x64/vmm/global/free-finder.cpp:94-103 | the aligned run fits the cached interval |
| FreeFinders.HasSpaceIff | src/arch/x64/vmm/global/free-finder.cpp:94-103 | an interval is enough if and only if it holds an aligned run, or nothing is asked for |
| FreeFinders.FreeFinder.UpdateFreeRegion | src/arch/x64/vmm/global/free-finder.cpp:68-92 | the scan ends, with the first of the longest free runs of kernel space in the cache |
| FreeFinders.FreeFinder.Alloc | src/arch/x64/vmm/global/free-finder.cpp:10-29 | takes the first aligned run out of the cache, or else out of the first longest free run, and leaves exactly what is behind it in the cache; fails if and only if neither holds one; an empty request may spoil the cache, exactly when the row above says |
| FreeFinders.FreeFinder.Free | src/arch/x64/vmm/global/free-finder.cpp:31-40 | the cache grows by a run that touches it on either side, stays as it is for any other, and stays free |
| FreeFinders.JoinedIs | src/arch/x64/vmm/global/free-finder.cpp:31-40 | an address is in the cache afterwards if and only if it was, or the run touches the cache and holds it |
| FreeFinders.FreeFinder.Reserve | src/arch/x64/vmm/global/free-finder.cpp:42-64 | what is left in the cache misses the run, and no part of the old cache that misses it is larger |
| GlobalMaps.ReservationShowsIff | src/arch/x64/vmm/global/global-map.cpp:163-164 | Walk sees a reservation if and only if its pages are 2 MiB ones |
| GlobalMaps.ReservedEntryIs | src/arch/x64/vmm/global/global-map.cpp:159-164 | a reservation is the page size in the address field, with bit 7 above 4 KiB and no other flag |
| GlobalMaps.ReservedIsFreeIff | src/arch/x64/vmm/global/global-map.cpp:155-177 | a run reserved at 4 KiB pages still counts as free, one of 2 MiB pages does not |
| GlobalMaps.MapAlignsIff | src/arch/x64/vmm/global/global-map.cpp:94 | the page counts for which aligning to the page count aligns the pages |
| GlobalMaps.HeldIsNotFree | src/arch/x64/vmm/global/global-map.cpp:104-177 | no page that is mapped or reserved counts as free |
| GlobalMaps.PlacesKeepsFree | src/arch/x64/vmm/global/global-map.cpp:104-177 | setting pages leaves a free run elsewhere free |
| GlobalMaps.ClearsFrees | src/arch/x64/vmm/global/global-map.cpp:116-128 | clearing a run frees it and leaves free runs free |
| GlobalMaps.FreeIsVacant | src/arch/x64/vmm/global/global-map.cpp:155-167 | with every leaf occupied, a run that Walk takes for free is vacant |
| GlobalMaps.GlobalMap.constructor | src/arch/x64/vmm/global/global-map.cpp:211-239 | the map over the boot page table is valid and has flushed nothing |
| GlobalMaps.GlobalMap.Reserve | src/arch/x64/vmm/global/global-map.cpp:155-167 | for both page sizes and every page count: takes a run in which nothing was mapped or reserved and marks its pages; the run still counts as free if and only if its pages are 4 KiB ones; refuses only if neither the cache nor a longest free run holds an aligned one, and panics only if fewer frames are left than tables are missing above the run granted; the cache holds what is behind the run, and stays free except for an empty request longer to align than the cache |
| GlobalMaps.GlobalMap.Map | src/arch/x64/vmm/global/global-map.cpp:89-102 | for every page count: maps a run in which nothing was mapped or reserved, the cache then holds what is behind it; or is granted an unaligned run, which only other counts than those of MapAlignsIff allow; refuses and panics as Reserve does |
| GlobalMaps.GlobalMap.ReserveAt | src/arch/x64/vmm/global/global-map.cpp:169-177 | marks the run, and panics if and only if fewer frames are left than tables are missing above it; what is left in the cache misses it, and no part of the old cache that misses it is larger; the run still counts as free if and only if its pages are 4 KiB ones |
| GlobalMaps.GlobalMap.MapAt | src/arch/x64/vmm/global/global-map.cpp:104-114 | sets exactly a run the caller holds and flushes it, and never runs out of memory; the cache stays free |
| GlobalMaps.GlobalMap.Unmap | src/arch/x64/vmm/global/global-map.cpp:116-133 | clears exactly the run, joins it to the cache if it touches that, and flushes it |
| GlobalMaps.GlobalMap.UnmapAndReserve | src/arch/x64/vmm/global/global-map.cpp:135-153 | the pages of the run are marked reserved and flushed, all else is as before; never runs out of memory, as the pages cleared leave the frames; the run counts as free if and only if its pages are 4 KiB ones |
| Shootdown.StepKeepsInv | src/arch/x64/vmm/tlb.cpp:61-149 | every step of every processor keeps the invariant of the protocol, whatever ranges the operations have |
| Shootdown.RunKeepsInv | src/arch/x64/vmm/tlb.cpp:61-149 | so it holds in every state of every interleaving |
| Shootdown.StepKeepsCoherent | src/arch/x64/vmm/tlb.cpp:61-149 | every step keeps kernel memory, or user memory, coherent, if operations there begin with covered ranges |
| Shootdown.RunKeepsCoherent | src/arch/x64/vmm/tlb.cpp:61-149 | so does every run |
| Shootdown.UserCoherence | src/arch/x64/vmm/user/user-map.cpp:80-151 | with the lock of a map free, a processor on that map and not inside a switch caches only user translations the page table holds, whatever operations do in kernel memory |
| Shootdown.UserRangesFlush | src/arch/x64/vmm/tlb.cpp:29-51 | every range of user memory is covered |
| Shootdown.KernelCoherence | src/arch/x64/vmm/global/global-map.cpp:104-153 | with the lock of the global map free and the ranges of kernel operations covered, no processor caches a stale kernel translation |
| Shootdown.UncoveredStaysStale | src/arch/x64/vmm/global/global-map.cpp:116-133 | for every kernel range that is not covered there is a run that ends with the lock free and a stale translation cached |
| Shootdown.MapNeedsNoFlush | src/arch/x64/vmm/user/user-map.cpp:93-104 | when Map writes a page, nobody caches it but a processor inside its switch |
| Shootdown.ChoiceIs | src/arch/x64/vmm/tlb.cpp:136-146 | a user shootdown skips exactly its own processor and those whose current map is another one, a kernel shootdown its own alone |
| Shootdown.SentAreConcerned | src/arch/x64/vmm/tlb.cpp:103-149 | in every run the processors interrupted are those that were on the map of the request, or any other for the kernel, at the moment when the scan came to them |
| Shootdown.OtherMapsAreLeftAlone | src/arch/x64/vmm/tlb.cpp:136-146 | a processor that is on another map than the initiator's whenever a request is active, all requests of the run being for user memory, gets no interrupt in it |
| Shootdown.TlbChangesIs | src/arch/x64/vmm/tlb.cpp:29-101 | a TLB changes only by fills and evictions of its processor, by its CR3 load, which keeps the kernel part, and by the flush of the request |
| Shootdown.EndsIff | src/arch/x64/vmm/user/user-map.cpp:93-151 | an operation may end exactly when it has flushed or has mapped vacant pages |
| Shootdown.ShootdownIsComplete | src/arch/x64/vmm/tlb.cpp:103-149 | in every run: when the wait ends, no processor outside a switch caches the range, if that is covered, and a kernel request was handled by every other processor |
| Shootdown.FinalIsCovered | src/arch/x64/vmm/tlb.cpp:103-149 | the flush that ends an operation is covered if the operations of the run are |
| Shootdown.SwitchDropsStaleEntries | src/arch/x64/vmm/user/user-map.cpp:80-84 | the CR3 load drops what a processor inside its switch still cached |
| Shootdown.CounterIsExact | src/arch/x64/vmm/tlb.cpp:96-149 | ipiCount is the interrupts counted minus those handled, negative while the count lags behind |
| Shootdown.RequestIsStable | src/arch/x64/vmm/tlb.cpp:96-149 | while an interrupt is out, address and size stay and its target gets no second one |
| Shootdown.ProgressIsNeverLost | src/arch/x64/vmm/tlb.cpp:67-149 | whatever the others do, the pair of statements left and interrupts unhandled never grows, and every step of the shootdown lowers it |
| Shootdown.NoDeadlock | src/arch/x64/vmm/tlb.cpp:67-77 | in every state of a shootdown a step that it waits for is enabled |
| Shootdown.ShootdownCanEnd | src/arch/x64/vmm/tlb.cpp:67-149 | from every such state those steps lead to its end |
| Invlpg.Invlpgs | src/arch/x64/vmm/tlb.cpp:29-51 | what the loop, the reload or the toggle leaves cached |
| Invlpg.OutsideStaysIff | src/arch/x64/vmm/tlb.cpp:29-51 | an entry outside the range that is not global stays if and only if the range is at most 2 MiB long |
| Invlpg.GlobalsStayIff | src/arch/x64/vmm/tlb.cpp:33-45 | a global entry in a longer range stays if and only if the range does not end below 512 GiB |
| Shootdown.PurgeIsKept | src/arch/x64/vmm/tlb.cpp:29-51 | what the protocol lets a flush drop is, on whole pages of either size, what that function says |
| Invlpg.CallCoversIff | src/arch/x64/vmm/tlb.cpp:29-51 | the ranges that one call drops from every TLB |
| RegionLists.RegionList.FindRegion | src/arch/x64/public/region-list.cpp:7-19 | the first region that holds the address, or none does |
| RegionLists.RegionList.NextRegion | src/arch/x64/public/region-list.cpp:21-34 | the first region that starts behind the given one, or none does |
| RegionLists.RegionList.AddRegion | src/arch/x64/public/multiboot-region-list.cpp:71-90 | inserts the region at its place in the sorted list, and nothing else; fails if and only if the list has eight |
| RegionLists.RegionList.Load | src/arch/x64/public/multiboot-region-list.cpp:9-61 | the lists are sorted and split at 4 GiB; an address from 1 MiB on is in them if and only if a usable entry holds it, one below if and only if a usable entry starts at or below 1 MiB and ends behind it; fails if and only if more than eight entries, or no entry, has usable memory behind 1 MiB and below 4 GiB, or more than eight behind 4 GiB |
| RegionLists.UsableIff | src/arch/x64/public/multiboot-region-list.cpp:22-42 | the same of the entries as the loop stretches them |
| RegionLists.FitsIff | src/arch/x64/public/multiboot-region-list.cpp:44-58 | and the counts of the entries on each side |
| RegionLists.StretchedIsApart | src/arch/x64/public/multiboot-region-list.cpp:37-42 | stretching makes no two entries overlap |
| StepAllocators.StepAllocator.Alloc | src/arch/x64/pmm/step-allocator.cpp:16-50 | for every size: what the function on sorted regions says, lastAddr included |
| StepAllocators.GrantIsLowest | src/arch/x64/pmm/step-allocator.cpp:16-50 | a run of two bytes and more is the lowest aligned one from lastAddr on |
| StepAllocators.GrantIsAligned | src/arch/x64/pmm/step-allocator.cpp:22-49 | a run lies in one region; runs of two bytes and more are aligned, single bytes exactly when the region has an aligned place or ends on one |
| StepAllocators.RefusedMeansFull | src/arch/x64/pmm/step-allocator.cpp:18-36 | a refusal means that lastAddr had left the regions or none has room |
| StepAllocators.RefusedHasNoPlace | src/arch/x64/pmm/step-allocator.cpp:18-36 | and that from lastAddr on no aligned run of that length lies in one region |
| StepAllocators.GrantIsBehindIff | src/arch/x64/pmm/step-allocator.cpp:26-49 | a run lies behind all before it if and only if it is not a single byte for which the search falls back |
| StepAllocators.LastByteTwice | src/arch/x64/pmm/step-allocator.cpp:26-49 | three calls that hand out the last byte of a region twice |
| StepAllocators.ExtentsAreApart | src/arch/x64/pmm/step-allocator.cpp:16-50 | over every sequence of requests of two bytes and more the runs granted follow one another without overlap |
| StepAllocators.PagesAreFrames | src/arch/x64/pmm/step-allocator.cpp:16-50 | the pages granted are as many different page frames, as the boot map takes them |
| MapSetups.StartIsIdentity | src/arch/x64/vmm/global/map-setup.cpp:18-34 | the first two tables map nothing |
| MapSetups.DirectoryAdded | src/arch/x64/vmm/global/map-setup.cpp:78-86 | a new directory changes no address and takes the next slot |
| MapSetups.PageAdded | src/arch/x64/vmm/global/map-setup.cpp:87-88 | one more 2 MiB page is mapped to itself, and nothing else changes |
| MapSetups.IdentityIsTable | src/arch/x64/vmm/global/map-setup.cpp:42-44 | the finished map satisfies what GlobalMap needs |
| MapSetups.MapSetup.MapNext | src/arch/x64/vmm/global/map-setup.cpp:78-91 | the stores in memory are that step |
| MapSetups.MapSetup.GenerateMap | src/arch/x64/vmm/global/map-setup.cpp:18-40 | maps exactly the 2 MiB pages that cover the memory in use, which ends in the last of them, and loses no frame; succeeds if and only if it is given two frames and one for every 1 GiB begun |
| MapSetups.MapSetup.GeneratePageTable | src/arch/x64/vmm/global/map-setup.cpp:42-44 | each kernel address below the end maps to its own page, and none above |
| MapSetups.IdentityReadsBack | src/arch/x64/vmm/global/map-setup.cpp:87-88 | in numbers: such an address reads back its own 2 MiB of physical memory, writable, executable, global, and not for users |
| Mailbox.StepKeepsInv | src/arch/x64/smp/cpu.cpp:57-145 | every step of every sender and of the handler keeps the invariant |
| Mailbox.NoLostWakeup | src/arch/x64/smp/cpu.cpp:57-145 | in every run a full slot has an interrupt pending, a sender about to send one, or a handler about to look |
| Mailbox.TakenOrOverwritten | src/arch/api/thread.hpp:48-55 | in every run each message is taken at most once, and is taken, followed by a later one, still in the slot, or a sender has begun to store over it |
| Mailbox.StoredAreGiven | src/arch/x64/smp/cpu.cpp:138-145 | in every run the messages stored, and the one being stored, are those given to RunAsync, in the order in which the calls got the lock, none changed and none added |
| Mailbox.CalledAreStored | src/arch/x64/smp/cpu.cpp:57-70 | function and argument called together come from one call of RunAsync |
| Mailbox.CalledAreGiven | src/arch/x64/smp/cpu.cpp:57-145 | so what the handler calls was given to one call of RunAsync, each to a later one than the call before |
| Mailbox.LastIsDelivered | src/arch/api/thread.hpp:48-55 | once all is quiet the last message has been called: at least one is received |
| Mailbox.LastGivenIsDelivered | src/arch/api/thread.hpp:48-55 | which is that of the last call of RunAsync to get the lock |
| Mailbox.NoDeadlock | src/arch/x64/smp/cpu.cpp:57-145 | until then somebody can go on |
| Mailbox.StepDoesWork | src/arch/x64/smp/cpu.cpp:57-145 | and every step but a new call lowers a measure |
| Mailbox.CanDeliver | src/arch/x64/smp/cpu.cpp:57-145 | so that finishing what was begun delivers it |

## Left out

- PageTables.PageTable.Set: the entry given for a page above 4 KiB is a leaf, as all callers give, not a pointer to a table.
- PageTables.PageTable.SetList: the same of its entries.
- Shootdown: stale translations of the self-map window across address spaces are not tracked.
- Shootdown and Mailbox: locks give mutual exclusion and atomics are sequentially consistent; a lock is one step.
- Mailbox: the function pointer of a message is not NULL, which the slot uses for empty.
- MapSetups.MapSetup.GenerateMap: takes frames from a set, in any order; that the pages of the step allocator are such a set is StepAllocators.PagesAreFrames.
- MapSetups.MapSetup.GenerateMap: covers at most 512 GiB, the span of the one PDPT.
- StepAllocators.StepAllocator.Alloc: sums of addresses are not wrapped at 2^64.
- FreeFinders.FreeFinder.Alloc: the start of the cached interval is not wrapped at 2^64; its size is.
- GlobalMaps.GlobalMap.ReserveAt: in memory that is free, as the caller has to know.
- GlobalMaps: no operation follows a 4 KiB reservation, whose run counts as free (GlobalMaps.ReservedIsFreeIff) and may be handed out again.
- GlobalMaps and UserMaps: lengths of 2^64 bytes and more, which wrap in Bytes() of src/arch/api/memory-map.hpp:42.
- GlobalMaps.GlobalMap.Map: a page count of 0, by which the code divides.
- RegionLists.RegionList.Load: the entries are a sequence, not a byte range that the loop walks by their size fields.
- FreeFinders: 1 GiB pages, which Read rejects, are set and walked but offered by neither map.
- GlobalMap: Rereserve changes the page size of a reservation, down to the 4 KiB ones.
- UserMap: Rereserve only asserts; Set, CopyToKernel and CopyFromKernel touch registers and user memory.
- PhysicalWords: words and numbers are related by binary digits, not by conversions of the language.
- Failure of the node allocator inside FreeList::AllocRegion, which the code does not check.
- IsSet, AssertNoncritical and the other assertions about the processor's state.
- BuddyAllocator, Malloc and Allocator, whose work is done in analloc2, which is not part of this model.
- Timers, clock, console, ACPI, segments, system calls and the stream output.
