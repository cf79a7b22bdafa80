# A model of the kernel's memory management, scheduler and devices

This project models the parts of the kernel in which state is kept over long runs, and proves
what they keep. Each component changes its state in place, as the kernel does, in a class whose
methods are proved against functions on plain values; the theorems are about these functions, about
single steps, and about all runs of them.

- **Physical memory** (`PhysMemory`, `Ranges`, `BlockLists`, `FreeLists`, `FramePool`, `InitLists`,
  `Physical`). Memory is an array of frames of 512 words. The free lists lie inside of the free
  frames: a node is the first two words of the first frame of a block. On top of the in-band list
  stand the list as a sequence of ranges, the pool of both lists with all ranges that callers hold,
  and runs of `alloc` and `free`. `Owners` counts how often a frame is owned; the safety and
  conservation theorems are statements about this number.
- **Boot** (`Boot`). From the areas of the memory map through three cuts and `init` to every later
  allocation. Areas shorter than a page become entries without frames, which are followed too.
- **Paging** (`PageTables`, `PagingSteps`, `TableOrder`, `StrayEntries`, `TableCopies`,
  `PagingTheorems`, `CopyTheorems`, `StrayCopies`, `CopyWitness`, `PageRights`, `Paging`, `PagingRuns`,
  `Startup`). Page tables lie in the same memory and are taken
  from the kernel list. A ghost directory names each table by root, level and prefix of the page
  number; a walk of the real tables is proved to agree with it wherever it meets no stray entry,
  that is, no present entry without a table in the directory. A leftover word is an entry without a
  table that is not zero, be it present or not. Runs of creating, copying and mapping are compared
  with a plain book of pages. `PageTables.Code` selects the code as written or, in two
  places, as intended: the bound of the level-1 loops, and the zeroing of copied tables.
- **Scheduler** (`Scheduler`, `SchedulerRuns`, `SchedulerOrder`). Every section under the scheduler's locks is one
  step. `sleep`, `join` and `exit` are two, with any number of other steps in between.
- **Context switch** (`Context`, `ContextRuns`). The instruction sequences on registers and memory,
  and runs of many threads on one processor.
- **Both together** (`KernelRuns`). Runs in which the scheduler decides who is switched to.
- **Terminal** (`Terminal`, `TerminalRuns`, `TerminalCells`). Character buffer and cursor, against an
  unbounded document, and cell by cell.
- **Timer** (`PitTimer`). Pending increments, interval arithmetic and the accuracy of the clock.

`None`, `false` and frame 0 as results stand for the places where the kernel stops with a panic.

## Where the code differs from its own comments

The model follows the code. For each of these there is a theorem that says when the code does what
is intended, and a lemma with an input for which it does not.

- The level-1 loops of `map` end at `start_index + alloc_count` although `enumerate` begins again at 0
  behind `skip`. The pages written are therefore given by `PageTables.LeafEnd`
  (`MapStaysInRangeExactlyWhen`, `MapOutsideRange`, `MapWritesBeyondRange`).
- `free_block` loses blocks when it fuses (`FreeConservesExactlyWhen`, `FreeLeaks`,
  `RunConservesExactlyWhen`). `FreeRelinked` is the behaviour its comment describes, and is only
  used where a name says so. `init` is the only caller, frees in ascending order, and loses nothing.
- `init` writes an empty node into the frame at the limit if a region ends exactly there. That frame
  need not be one it was given (`InitStaysInsideExactlyWhen`, `InitLeavesInside`).
- The reserve for page tables rounds down and can be up to two frames short, so that the first
  space may find no frame (`ReserveSufficesExactlyWhen`, `ReserveFallsShort`, `StartFitsExactlyWhen`,
  `StartFallsShort`).
- `copy_table` does not zero the tables it allocates, and a frame fresh from the free list still
  holds the node of the block it was cut from. If the table copied to it does not use its first
  entry, that entry reads the count of the block, and a walk follows it exactly if the count is odd
  (`CopyStraightExactlyWhen`, `UnusedFirstEntryGoesAstrayExactlyWhen`,
  `FramebufferGoesAstrayExactlyWhen`, `CopyLeadsAstray`, `RunStraightExactlyWhen`). A leftover word
  remains in any case (`CopyTidyExactlyWhen`, `UnusedFirstEntryLeavesWord`). Mapped pages and the user
  stack are not affected (`RunTranslates`, `NewUserSpace`).
- `switch_thread` does not guard against switching a thread to itself, and `Thread::switch` reads the
  stack pointer of the next thread before that of the current one is saved
  (`SelfSwitchExactlyWhen`, `SelfSwitchHappens`, `SelfSwitchResumesExactlyWhen`). `ResumedAsLeft` and
  `GoesOnAsLeft` are about runs without such a switch.
- `block` has no idle thread to switch to: if nobody is ready and nobody sleeps, it waits for ever
  (`WaitEndsExactlyWhen`, `BlockNeverEndsExactlyWhen`, `LastExitNeverEnds`).
- `kernel_stack_addr` counts 8 words for each word, so that the address it returns lies behind the stack
  (`StackAddrInsideExactlyWhen`, `SwitchLoadsAddrOutside`).
- Cursor moves up and left subtract in 16 bits before they are clamped, which stops the kernel in the
  development profile (`AskedIsClampedExactlyWhen`, `RunsExactlyWhen`, `CursorUpStops`). The clamped moves follow
  sections 8.3.18 to 8.3.22 of ECMA-48, except that the position sequence takes the column
  first and counts from 0.
- The position sequence compares with the size where it should compare with the last row or column:
  one column behind the border it goes there, and one row behind it the rows move up
  (`PositionSequence`, `PositionClampsExactlyWhen`).
- The character buffer has twelve times the length of the grid. The cursor may stand behind the last
  column, and in the last row only this keeps its index inside of the buffer (`IndexInBounds`).
- An area of the memory map shorter than a page arrives as an empty or inverted entry. It passes
  the cuts, and `init` writes a node to the frame where it starts, unless a region starts or ends
  there (`EmptyEntryStaysExactlyWhen`, `EmptyEntryReachesHeap`, `InitStaysInsideExactlyWhen`). No
  frame is lost or handed out by that (`FreeBehind`, `InitIsSafe`).
- A tab skips the last tab stop of a row if the width is no multiple of eight
  (`TabSkipsStopExactlyWhen`).
- Erasing a whole line fills it with the letter a (`EraseClears`).
- The doubled divisor under QEMU does not fit into the counter above 27 ms (`QemuDivisorFitsExactlyWhen`).

## Model

| member | source | states |
|---|---|---|
| BlockLists.InsertPosition | os/kernel/src/memory/physical.rs:182-213 | Sorted insertion puts the block at one position, behind every block that starts no higher, and moves no other block |
| BlockLists.InsertAscending | os/kernel/src/memory/physical.rs:181-213 | A list that is sorted and free of overlaps stays so when a block clear of it is inserted |
| BlockLists.InsertCover | os/kernel/src/memory/physical.rs:181-213 | Insertion adds the frames of the new block, each once, and changes nothing else |
| BlockLists.FirstFit | os/kernel/src/memory/physical.rs:216-232 | The search takes the first block that is large enough: all blocks before it are too small |
| BlockLists.TakeInPlace | os/kernel/src/memory/physical.rs:235-244 | What remains of a split block goes back to the very place the block came from |
| BlockLists.TakeAscending | os/kernel/src/memory/physical.rs:235-247 | Allocation keeps the list sorted and free of overlaps, empty nodes included |
| BlockLists.TakeCover | os/kernel/src/memory/physical.rs:235-247 | Frame by frame, an allocation moves exactly the returned frames out of the list |
| BlockLists.TakeTotal | os/kernel/src/memory/physical.rs:235-247 | The list gives up exactly as many frames as were asked for |
| BlockLists.TakeFootprint | os/kernel/src/memory/physical.rs:235-247 | After an allocation no node lies in the frames handed out, and none where there was neither a node nor a free frame before |
| BlockLists.OneFrameFits | os/kernel/src/memory/physical.rs:216-247 | A request for one frame succeeds if and only if the list holds a frame at all |
| BlockLists.TakeOneFrames | os/kernel/src/memory/physical.rs:216-247 | A request for one frame takes the first frame of the list in order, whatever empty nodes lie before it, and leaves all others in order |
| BlockLists.TakeOneRuns | os/kernel/src/memory/physical.rs:235-247 | The frame that a request for one frame takes is the first of its block; every frame that stays has as many frames of its block from it on as before |
| BlockLists.FreeAscending | os/kernel/src/memory/physical.rs:251-281 | `free_block` as written keeps the list sorted and free of overlaps in all its branches, even where it drops a tail, also for an empty or inverted range |
| BlockLists.FreeWithin | os/kernel/src/memory/physical.rs:251-281 | `free_block` as written never leaves the bounds of the list and the freed range |
| BlockLists.FreeCover | os/kernel/src/memory/physical.rs:251-281 | As written, every frame of the list and of the freed range is afterwards either in the list or among the blocks behind the place of fusion, never both and never twice |
| BlockLists.FreeConservesExactlyWhen | os/kernel/src/memory/physical.rs:255-270 | As written, `free_block` loses no frame if and only if the range extends no block from below and, where it extends one from above, only empty nodes follow |
| BlockLists.FreeLeaks | os/kernel/src/memory/physical.rs:257-264 | Freeing [1,2) below [2,3) with [5,9) behind it leaves the list [2,3): both the range and the tail are lost |
| BlockLists.FreeRelinkedAscending | os/kernel/src/memory/physical.rs:249-281 | Relinked as the comment intends, `free_block` keeps the list sorted and free of overlaps |
| BlockLists.FreeRelinkedCover | os/kernel/src/memory/physical.rs:249-281 | Relinked as the comment intends, `free_block` gains exactly the freed frames, whatever it fuses with |
| BlockLists.FreeAtEnd | os/kernel/src/memory/physical.rs:56-68 | Freed behind all blocks, as `init` does, a range, be it empty, is appended or fused with the last block, and nothing is cut off |
| BlockLists.FreeInverted | os/kernel/src/memory/physical.rs:251-281 | An inverted range freed there is appended as an empty node, or cuts off empty nodes at most |
| BlockLists.FreeBehind | os/kernel/src/memory/physical.rs:56-68 | Whatever range is freed behind all blocks, the list gains exactly its frames, and a new empty node can only be that of a range without frames that extends no block |
| BlockLists.NodeLeft | os/kernel/src/memory/physical.rs:251-281 | A range without frames leaves an empty node at its start or right before it, unless a block ends there |
| BlockLists.AppendTotal | os/kernel/src/memory/physical.rs:56-68 | Freeing in ascending order conserves the number of frames |
| BlockLists.AppendCover | os/kernel/src/memory/physical.rs:56-68 | Freeing in ascending order conserves every frame |
| FreeLists.LinkIn | os/kernel/src/memory/physical.rs:195-212 | In memory: writing one node and redirecting its predecessor turns the list held by the nodes into the list with the block inserted |
| FreeLists.LinkOut | os/kernel/src/memory/physical.rs:220-224 | In memory: moving `next` to the predecessor turns the list held by the nodes into the list without the block |
| FreeLists.CutAt | os/kernel/src/memory/physical.rs:265-271 | In memory: a node overwritten with `next = None` ends the list there |
| FreeLists.PageFrameListAllocator.Insert | os/kernel/src/memory/physical.rs:182-213 | The walk over the nodes in free frames inserts the block at its sorted place, with a count of zero for an inverted range; only the footprint of the list and of the block is written |
| FreeLists.PageFrameListAllocator.FindFreeBlock | os/kernel/src/memory/physical.rs:216-232 | Unlinks the first block that is large enough, with its `next` cleared, or changes nothing |
| FreeLists.PageFrameListAllocator.AllocBlock | os/kernel/src/memory/physical.rs:235-247 | First-fit allocation on the in-band list is the list operation; the first frame handed out still reads as a list node without successor and with the count of the block it was cut from; no frame outside of the list is written |
| FreeLists.PageFrameListAllocator.FreeBlock | os/kernel/src/memory/physical.rs:251-281 | The in-band list after `free_block` as written, with both faulty fusions, for empty and inverted ranges too; nothing outside of the list and the freed range is written |
| FreeLists.PageFrameListAllocator.FuseBottom | os/kernel/src/memory/physical.rs:257-264 | The fused node is written but linked from nowhere, and the old block loses its `next` |
| FreeLists.PageFrameListAllocator.FuseTop | os/kernel/src/memory/physical.rs:265-271 | The fused node replaces the old one and ends the list |
| FramePool.AllocOwners | os/kernel/src/memory/physical.rs:76-83 | An allocation changes the owner of frames, never the number of owners of a frame |
| FramePool.FreeOwners | os/kernel/src/memory/physical.rs:87-93 | After a free, the owners of a frame and the leak of this call add up to the owners before |
| FramePool.RunSafe | os/kernel/src/memory/physical.rs:76-93 | No double ownership: over any run of allocations and of frees of ranges currently allocated, for the code as written and relinked, both lists stay sorted and on their side of the limit, and no frame has two owners |
| FramePool.SafeMeansSole | os/kernel/src/memory/physical.rs:76-93 | In a safe state, a caller's frame belongs to no other caller, to no list, and holds no node of a list |
| FramePool.RunConserves | os/kernel/src/memory/physical.rs:235-281 | Frame conservation: any run of allocations, and with fusion relinked any interleaving with frees, leaves the owners of every frame unchanged in number |
| FramePool.RunConservesExactlyWhen | os/kernel/src/memory/physical.rs:251-281 | As written, a run conserves frames if and only if each of its frees meets a list that `free_block` does not cut short: what one call loses never comes back |
| FramePool.StepConservesExactlyWhen | os/kernel/src/memory/physical.rs:251-281 | One free as written conserves frames if and only if the list keeps all (see `BlockLists.FreeConservesExactlyWhen`) |
| FramePool.AllocOne | os/kernel/src/memory/physical.rs:76-83 | `alloc(1, space)` succeeds exactly while the list holds a frame, and hands out one that was free before and is not afterwards |
| InitLists.FillShape | os/kernel/src/memory/physical.rs:56-68 | One more entry in ascending order: the lower part goes behind the kernel list, the upper part, be it empty, behind the user list |
| InitLists.FillStep | os/kernel/src/memory/physical.rs:56-68 | The loop of `init` keeps: both lists together hold exactly the frames of the entries freed so far; an empty node lies at the limit exactly when a region ends or an entry without frames starts there and none holds that frame; any other one lies where an entry without frames starts and no region starts, goes on or ends; and each such place has one, there or in the frame before |
| InitLists.FilledFootprint | os/kernel/src/memory/physical.rs:56-68 | While `init` runs, nodes lie in given frames, in the frame at the limit if a region ends there, or where an entry without frames starts |
| Physical.CalcPageTableMemory | os/kernel/src/memory/physical.rs:103-124 | The loop over the levels computes the reserve: aligned up to 2 MiB, one frame per 512 tables rounded down, at least one above level 1 |
| Physical.ReserveShortfall | os/kernel/src/memory/physical.rs:103-124 | Up to 512^4 pages, reserve plus shortfall is the number of tables needed; one frame is missing for each middle level that is partly filled and not a single table |
| Physical.ReserveSufficesExactlyWhen | os/kernel/src/memory/physical.rs:103-124 | The reserve is never more than the tables needed, root included, and at most two frames less; it suffices if and only if each level is a single table or completely filled |
| Physical.ReserveFallsShort | os/kernel/src/memory/physical.rs:103-124 | For 513 groups of 512 pages one frame is missing |
| Physical.SortKeeps | os/kernel/src/memory/physical.rs:17 | Sorting the regions orders them and changes neither them nor the frames they hold |
| Physical.SortedRegions | os/kernel/src/memory/physical.rs:17 | Sorted by start, with the order of equal starts kept, each entry starts behind the frames of those before it |
| Physical.CalcKernelLimit | os/kernel/src/memory/physical.rs:24-51 | The limit lies at or above the heap end, leaves the reserve below it, and not more than that unless it is the heap end; else it lies in a region behind the last frame of the reserve. The loop fails exactly if there is not enough memory in all |
| Physical.LimitUnique | os/kernel/src/memory/physical.rs:24-51 | There is one such limit only |
| Physical.KernelLimitIs | os/kernel/src/memory/physical.rs:24-51 | It is the one computed from the regions and the heap end: the end of the first reserve frames of the sorted regions, or the heap end if that is higher |
| Physical.MaxEndIsHighest | os/kernel/src/memory/physical.rs:18 | The physical limit is the highest end of a region |
| Physical.PhysicalMemory.constructor | os/kernel/src/memory/physical.rs:11-13 | Two empty lists over one memory |
| Physical.PhysicalMemory.Alloc | os/kernel/src/memory/physical.rs:76-83 | `alloc` on the two lists is a step of the pool, and stops the kernel exactly if no block is large enough |
| Physical.PhysicalMemory.Free | os/kernel/src/memory/physical.rs:87-93 | `free` chooses the list by the limit and is `free_block` as written on it |
| Physical.PhysicalMemory.Init | os/kernel/src/memory/physical.rs:16-73 | `init`, on regions and entries without frames in any order, goes through exactly if there are regions with room for the reserve; no region ends behind the physical limit and one ends there; the kernel limit is `KernelLimit` of the regions and the heap end; the lists then hold exactly the frames of the regions, split there, the kernel list at least the reserve, and only given frames, possibly the frame at the limit, and those where entries without frames start are written |
| Physical.PhysicalMemory.FreeRegions | os/kernel/src/memory/physical.rs:56-68 | The loop of `init`, from empty lists to lists that hold exactly the regions |
| Physical.PhysicalMemory.FreeNext | os/kernel/src/memory/physical.rs:56-68 | One round of that loop: the lists hold one region more |
| Physical.PhysicalMemory.FreeRegion | os/kernel/src/memory/physical.rs:56-68 | One region, split if it reaches the limit from below |
| Physical.InitIsSafe | os/kernel/src/memory/physical.rs:56-68 | After `init`, the lists own exactly the frames of the regions, each once, which is where the run theorems start |
| Physical.InitStaysInsideExactlyWhen | os/kernel/src/memory/physical.rs:58-67 | After `init`, all nodes lie in frames it was given if and only if no region ends exactly at the limit without another going on there, and every entry without frames starts where a region starts, goes on or ends |
| Physical.InitLeavesInside | os/kernel/src/memory/physical.rs:58-67 | For regions [3,7) and [8,10) with the heap ending at 3, a node is written to frame 7, which was not given |
| Boot.ScanMemoryMap | os/kernel/src/boot.rs:383-394 | The loop over the areas keeps the whole pages of each available one, which may be none |
| Boot.ScanIsExact | os/kernel/src/boot.rs:383-394 | A frame is in the list once for every available area that holds all of its bytes |
| Boot.ScannedIsMemoryMap | os/kernel/src/boot.rs:383-394 | For areas in ascending order, the list is what the cuts and `init` require: no frame twice, and no entry without frames inside of a region or behind one that starts there |
| Boot.CutRegion | os/kernel/src/boot.rs:397-420 | The loop cuts a region out of every area in order |
| Boot.CutIsDifference | os/kernel/src/boot.rs:397-420 | `cut_region` is set difference, frame by frame and with multiplicities, for every list of areas, be they unsorted, overlapping, empty or inverted |
| Boot.CutNeedsOrderedReserve | os/kernel/src/boot.rs:397-420 | With an inverted reserved region, frames would appear twice: [1,9) cut by [6,3) holds frame 4 two times |
| Boot.EmptyEntryStaysExactlyWhen | os/kernel/src/boot.rs:400-417 | An entry without frames, as an area shorter than a page gives, is dropped if it touches the reserved region and stays otherwise |
| Boot.EmptyEntryLeavesNode | os/kernel/src/memory/physical.rs:272-281 | Freed into a list that it does not extend, such an entry, be it empty or inverted, leaves an empty node in the frame where it starts and changes no frame's owners |
| Boot.EmptyEntryReachesHeap | os/kernel/src/boot.rs:400-417 | An entry [5,4) survives the cut of a heap [5,8), and its node is written to the first frame of the heap |
| Boot.TangledEntryBreaksList | os/kernel/src/memory/physical.rs:272-281 | An entry without frames inside of a region would break the list: [4,4) freed behind [3,7) puts a node into the free block |
| Boot.CutParts | os/kernel/src/boot.rs:397-420 | Every remaining entry is a non-empty part of an old one, or an old one without frames |
| Boot.CutUntangled | os/kernel/src/boot.rs:397-420 | Cutting never brings an entry without frames into a region, nor behind one that starts where it starts |
| Boot.CutAscending | os/kernel/src/boot.rs:397-420 | A sorted and disjoint memory map stays sorted and disjoint |
| Boot.AvailableCover | os/kernel/src/boot.rs:131-134 | After the three cuts, the frames left are those of the memory map without the null page, the kernel image and the heap |
| Boot.AvailableRegions | os/kernel/src/boot.rs:131-138 | What is left of the memory map, entries without frames included, is what `init` requires |
| Boot.InitMemory | os/kernel/src/boot.rs:131-138 | From the boot memory map, entries without frames included, to initialised lists that own exactly the available frames; it succeeds exactly if there are regions with room for the reserve, with the physical limit at the highest end of an available region, and the kernel limit and the size of the kernel list that follow |
| Boot.NoReservedFrameEverAllocated | os/kernel/src/boot.rs:131-138 | End to end: in any later run of allocations and frees, no caller ever holds a frame of the null page, the kernel image or the heap, nor one that the memory map does not list |
| Boot.AllocatedIsAvailable | os/kernel/src/boot.rs:131-138 | In any later run, whatever frame a caller holds lies as a whole in exactly one available area |
| PageTables.PrefixIs | os/kernel/src/memory/virtual.rs:58-60 | The pages with one prefix are consecutive: the index on each level is a digit of the page number in base 512 |
| PageTables.WalkToLeaf | os/kernel/src/memory/virtual.rs:127-184 | A walk through any number of levels ends in the level-1 entry of the table for the page |
| PageTables.WalkToNothing | os/kernel/src/memory/virtual.rs:127-184 | A walk to a page without a level-1 table finds nothing, unless a stray entry leads it on |
| PageTables.TranslateIsLeaf | os/kernel/src/memory/virtual.rs:127-184 | The 4-level walk agrees with the flat map of the space on every page on the way to which no entry is stray |
| PageTables.TableHasNoStray | os/kernel/src/memory/virtual.rs:127-184 | On the way to a level-1 table no entry is stray, whatever the other entries of the space hold |
| PageTables.StaysNoStray | os/kernel/src/memory/virtual.rs:134-139 | Where no entry was stray, none becomes so as long as unused entries are kept and new tables are zeroed |
| PageTables.StaysPassable | os/kernel/src/memory/virtual.rs:132-146 | Entries without a table on the way of the pages that are still to be mapped stay null |
| PageTables.AddTable | os/kernel/src/memory/virtual.rs:134-139 | Hanging a fresh zeroed table below an empty entry changes no translation of any space and no unused entry, and the tables stay a forest of distinct frames |
| PageTables.AddRoot | os/kernel/src/memory/virtual.rs:69-75 | A fresh zeroed root is a space that maps nothing and disturbs no other |
| PageTables.SetRow | os/kernel/src/memory/virtual.rs:119-124 | Rewriting one level-1 table changes the 512 pages of that table in that space and nothing else |
| PagingSteps.AllocatorTakes | os/kernel/src/memory/physical.rs:76-83 | A frame taken for the paging code is fresh: no table, in no list, and no table is touched by the allocator; its first two words are a node with the count of the block that began there |
| PagingSteps.TableTaken | os/kernel/src/memory/virtual.rs:134-139 | The table taken for an empty entry is counted once, is one of the wanted ones, and changes no translation |
| PagingSteps.EntryOfChild | os/kernel/src/memory/virtual.rs:132-142 | On the way of the pages, an entry is null exactly where the table below it is missing |
| PagingSteps.LiftToEntry | os/kernel/src/memory/virtual.rs:144-146 | What the recursive call promises for the table below is what one round of the loop promises for the entry |
| PagingSteps.OneMoreEntry | os/kernel/src/memory/virtual.rs:144-151 | One round of the loop: the pages, tables and frames of both lists that the recursive call has used are added to those so far, and the loop goes on exactly at the first page of the next entry |
| PagingTheorems.MapTranslates | os/kernel/src/memory/virtual.rs:88-93 | After `map`, a walk from any written page reaches its frame with the given flags; every other page, of this space or another, on the way to which no entry was stray is translated as before, and still no entry is stray there. The rest of a space may hold anything |
| PagingTheorems.MapCovers | os/kernel/src/memory/virtual.rs:127-184 | The pages written include all of the range; in a kernel mapping each maps to the frame of its own number; the call returns the size of the range |
| PagingTheorems.MapReturns | os/kernel/src/memory/virtual.rs:127-184 | Every recursive call returns the smaller of the pages left and 512^level minus the start modulo 512^level |
| PagingTheorems.MapSucceedsExactlyWhen | os/kernel/src/memory/virtual.rs:127-184 | `map` goes through if and only if the kernel list holds a frame for every missing table and, for a user mapping, the user list one for every page written, which as written can lie behind the range; that many frames it takes |
| PagingTheorems.MapStaysInRangeExactlyWhen | os/kernel/src/memory/virtual.rs:159-173 | As written, `map` writes no page outside its range, be it empty, if and only if the start is 2 MiB aligned or the range reaches the end of the level-1 table it starts in; otherwise it writes no further than the end of that table; with the bound `alloc_count` it never leaves the range |
| PagingTheorems.MapOutsideRange | os/kernel/src/memory/virtual.rs:152-181 | Of the pages outside the range, those up to the end of the writes translate to the frames placed for them and all others as before; under that condition, and with the bound `alloc_count` always, all translate as before |
| PagingTheorems.MapWritesBeyondRange | os/kernel/src/memory/virtual.rs:159-173 | A request for the single page 3 maps pages 3 to 6 |
| PagingTheorems.MapWritesExactly | os/kernel/src/memory/virtual.rs:159-173 | As written, c pages from entry i of a table on are written, and i more, up to the end of the table |
| PagingTheorems.TableAtIs | os/kernel/src/memory/virtual.rs:127-142 | The table that a walk reads on a level is the one of the directory, as long as no stray entry leads it on |
| PagingTheorems.TablesFormForest | os/kernel/src/memory/virtual.rs:103-184 | Two walks that meet no stray entry read the same frame as a table if and only if they are in the same space, on the same level and for the same prefix; and no table is in a free list |
| PagingTheorems.FreshSpaceTables | os/kernel/src/memory/virtual.rs:131-151 | Mapping [0,N) into a fresh space takes exactly ceil(N/512) + ceil(N/512^2) + ceil(N/512^3) frames of the kernel list, and goes through if and only if the list holds that many |
| CopyTheorems.FirstSpaceTables | os/kernel/src/memory/virtual.rs:26-35 | With the root, the first space can be built if and only if the kernel list holds all tables needed |
| CopyTheorems.CopyWholeSpace | os/kernel/src/memory/virtual.rs:77-82 | All tables copied below a new root make a copy of the space, in the first frames of the kernel list and in the order of the source |
| CopyTheorems.CopyPreservesMapped | os/kernel/src/memory/virtual.rs:77-82 | Every page the source maps is mapped by the copy to the same frame with the same flags |
| CopyTheorems.CopySharesNoTable | os/kernel/src/memory/virtual.rs:103-118 | No walk in the copy reads a frame as a table that a walk in the source reads, unless a stray entry leads it on |
| CopyTheorems.CopyAgrees | os/kernel/src/memory/virtual.rs:103-125 | A page of the copy on the way to which no entry is stray is translated as by the source, mapped or not; this is one way, since a stray entry may lead to nothing as well |
| CopyTheorems.CopyKeepsOthers | os/kernel/src/memory/virtual.rs:103-125 | Copying changes no translation of any other space, and leads no walk there astray |
| CopyTheorems.CopyIsPassable | os/kernel/src/memory/virtual.rs:132-146 | Whatever its other tables hold, `map` is right for pages of a copy below root entries that the source does not use, since the root is zeroed |
| CopyTheorems.UserStackIsPassable | os/kernel/src/thread/thread.rs:47-53 | The user stack, 64 KiB at 0x400000000000, is such a range, below root entry 128 |
| CopyTheorems.OrderSize | os/kernel/src/memory/virtual.rs:103-118 | A copy needs exactly as many frames as the source has tables |
| CopyTheorems.NewSpaceIsEmpty | os/kernel/src/memory/virtual.rs:69-75 | A new space maps nothing |
| CopyTheorems.IdentityMapped | os/kernel/src/memory/virtual.rs:26-35 | Mapping [0,N) into a new space is the identity on these pages and nothing else |
| PageRights.RightsAreThoseOfLeaf | os/kernel/src/memory/virtual.rs:127-142 | The tables take no rights away: whether a page can be written or used in user mode, which all four entries that a walk reads must allow, is decided by its level-1 entry alone |
| PageRights.MapGivesRights | os/kernel/src/memory/virtual.rs:88-93 | After `map`, a page written has exactly the rights of the flags given; all other pages, of all spaces, keep theirs |
| PageRights.CopyKeepsRights | os/kernel/src/memory/virtual.rs:103-125 | A page of a copy has the rights that it has in the source |
| StrayEntries.NoStrayBelow | os/kernel/src/memory/virtual.rs:127-184 | A walk to a page below an entry without a table is led astray if and only if the entry is present |
| StrayEntries.StraightExactlyWhen | os/kernel/src/memory/virtual.rs:127-184 | No walk of any page of a space is led astray if and only if none of its tables has a stray entry |
| StrayEntries.WalkPast | os/kernel/src/memory/virtual.rs:127-184 | A walk goes on from a present entry in the frame that it names, be it a table or not |
| StrayCopies.CopyStraightExactlyWhen | os/kernel/src/memory/virtual.rs:111-117 | As written, no walk in a copy is led astray if and only if, before the call, each frame of the kernel list that is going to become a table between root and level 1 reads absent where its table has unused entries: its block has an even number of frames from it on if the first entry is unused, and the words from the third on are not present; with zeroed tables no walk ever is |
| StrayCopies.UnusedFirstEntryGoesAstrayExactlyWhen | os/kernel/src/memory/virtual.rs:111-117 | The pages below an unused first entry are led astray in the copy if and only if the block that began at the frame of their table had an odd count; the walk then goes on in the frame with the number count / 4096 |
| StrayCopies.FramebufferGoesAstrayExactlyWhen | os/kernel/src/memory/virtual.rs:111-117 | After a page has been mapped at entry 256 of a new level-2 table, every copy of the space has a leftover word there, and the pages below the first entry of that table are led astray exactly for an odd count |
| CopyWitness.CopyLeadsAstray | os/kernel/src/memory/virtual.rs:103-118 | The input that fails: with a level-3 table at root entry 5, a kernel list [10,14) and frame 0 full of present entries, the source maps the first page of the table to nothing and the copy maps it to frame 0 |
| StrayCopies.CopyTidyExactlyWhen | os/kernel/src/memory/virtual.rs:111-117 | As written, a copy has no leftover words if and only if, before the call, every source table between root and level 1 uses its first entry and each frame of the kernel list that it is going to take reads zero where its table has unused entries; with zeroed tables it never has any |
| StrayCopies.UnusedFirstEntryLeavesWord | os/kernel/src/memory/virtual.rs:111-117 | One table with an unused first entry is enough for a leftover word in every copy, whatever memory holds |
| StrayCopies.ZeroedFramesStayTidy | os/kernel/src/memory/virtual.rs:111-117 | Used first entries and a kernel list of zeroed frames are enough for a copy without leftover words |
| Paging.PageTableManager.MapRow | os/kernel/src/memory/virtual.rs:152-181 | The level-1 loops with the bound as written or as intended: which pages get an entry, how many user frames that takes, and the number returned |
| Paging.PageTableManager.MapPage | os/kernel/src/memory/virtual.rs:157-176 | One entry: the page's own frame, or a frame taken from the user list that no page has got before |
| Paging.PageTableManager.NewTable | os/kernel/src/memory/virtual.rs:134-139 | Allocates and zeroes a table and links it in with an entry that is present, writable and user accessible, or stops the kernel only if no frame is left |
| Paging.PageTableManager.MapEntry | os/kernel/src/memory/virtual.rs:132-146 | One round of the loop over entries |
| Paging.PageTableManager.MapInTable | os/kernel/src/memory/virtual.rs:127-184 | The recursion over tables sets exactly the pages of the range that lie in the table, creates exactly the missing tables, and fails only for lack of a frame; only the entries on the way of the pages matter |
| Paging.PageTableManager.Map | os/kernel/src/memory/virtual.rs:88-93 | `map` on any space, for pages below the canonical hole on the way to which no entry without a table points to a frame; every page written is translated to its frame with exactly the rights of the flags |
| Paging.PageTableManager.NewSpace | os/kernel/src/memory/virtual.rs:69-75 | A space with a zeroed root of its own |
| Paging.PageTableManager.LinkNewTable | os/kernel/src/memory/virtual.rs:111-116 | Links a fresh frame in, which as written is not zeroed |
| Paging.PageTableManager.CopyRow | os/kernel/src/memory/virtual.rs:119-124 | The level-1 copy, entry by entry |
| Paging.PageTableManager.CopyEntry | os/kernel/src/memory/virtual.rs:105-117 | One round of the loop of `copy_table`: unused entries are skipped, others get a copy of the table below |
| Paging.PageTableManager.CopyTable | os/kernel/src/memory/virtual.rs:103-125 | The recursion copies all tables and leaves below a table in order, changes nothing else, and fails exactly if there are fewer frames than tables below it |
| Paging.PageTableManager.FromOther | os/kernel/src/memory/virtual.rs:77-82 | `from_other` makes a copy in the sense of the copy theorems, if and only if the kernel list holds as many frames as the source has tables |
| Paging.PageTableManager.CreateAddressSpace | os/kernel/src/memory/virtual.rs:23-44 | The first space is the identity on physical memory, writable and accessible in user mode, and comes about exactly if the kernel list holds the tables needed; each later one translates what the kernel space maps in the same way and with the same rights, and the kernel space stays as it was |
| Paging.PageTableManager.CreateKernelSpace | os/kernel/src/memory/virtual.rs:26-35 | The kernel space: identity on physical memory, every page writable and accessible in user mode, with exactly the tables that this takes, if and only if the kernel list holds as many frames |
| Paging.PageTableManager.CreateUserSpace | os/kernel/src/memory/virtual.rs:36-42 | A user space: a copy of the kernel's, with the same frames and rights for all pages that this maps, if and only if the kernel list holds as many frames as that has tables |
| Paging.PageTableManager.NewUserSpace | os/kernel/src/thread/thread.rs:47-53 | The space of a user thread comes about if and only if the kernel list holds three frames more than the kernel space has tables and the user list 16: its stack is mapped to distinct frames of the user list, writable and accessible in user mode, every other page the kernel maps is translated as by the kernel with the same rights, and the kernel space is as before |
| PagingRuns.RunTranslates | os/kernel/src/memory/virtual.rs:23-184 | In every state of every run of creating, copying and mapping, a page that the book of these calls maps is translated as the book says, for the code as written too; so is every other page, unless a walk to it meets a stray entry |
| PagingRuns.RunGivesRights | os/kernel/src/memory/virtual.rs:23-184 | In every state of every run, a page that the book maps has exactly the rights of its word in the book |
| PagingRuns.RunFormsForest | os/kernel/src/memory/virtual.rs:23-184 | In every state of every run, no table frame is reached by two entries or shared by two spaces, and none is in a free list, for all walks to mapped pages and all that meet no stray entry |
| PagingRuns.CreatedStaysTidy | os/kernel/src/memory/virtual.rs:23-44 | A space that was created and not copied never has a leftover word, so it can be copied at any time |
| PagingRuns.RunTidyExactlyWhen | os/kernel/src/memory/virtual.rs:77-125 | The spaces in the states of a run have no leftover words if and only if no copy in it leaves one, which is foreseen from the state before each |
| PagingRuns.RunStraightExactlyWhen | os/kernel/src/memory/virtual.rs:77-125 | The spaces in the states of a run have no stray entry if and only if no copy in it gets one, which is foreseen, from the counts of the free blocks and what memory holds, in the state before each |
| PagingRuns.RunAgreesWithBook | os/kernel/src/memory/virtual.rs:23-184 | In every run in which no copy gets a stray entry, every page of every space is translated as the book says, mapped or not |
| PagingRuns.IntendedRunAgreesWithBook | os/kernel/src/memory/virtual.rs:23-184 | With zeroed tables and the bound `alloc_count`, this holds in every run |
| Startup.StartMemory | os/kernel/src/boot.rs:131-143 | From the memory map to the first address space: it comes about if and only if the reserve fits into memory and the tables for all of memory below the limit, and then maps every available frame, and every frame that is in a list, to itself, writable and accessible in user mode |
| Startup.HandedOutIsMapped | os/kernel/src/boot.rs:131-143 | Over any later run of allocations and frees: every frame that a caller holds is mapped to itself by the first address space, writable and accessible in user mode |
| Startup.StartFitsExactlyWhen | os/kernel/src/boot.rs:131-143 | The tables fit if and only if the reserve is not short, or the limit is the heap end and high enough |
| Startup.StartFallsShort | os/kernel/src/boot.rs:131-143 | With all memory in [1, 513*512) and a heap that ends low, `init` goes through and one frame is missing for the first address space |
| TableOrder.NoneBelowMissing | os/kernel/src/memory/virtual.rs:105-109 | Below a table that does not exist there is no other |
| TableOrder.ListedOnce | os/kernel/src/memory/virtual.rs:103-118 | The order in which `copy_table` comes by the tables lists each of them once |
| TableCopies.JoinListed | os/kernel/src/memory/virtual.rs:111-117 | The tables below one more entry get the next frames of the kernel list, in that order |
| TableCopies.SkipEntry | os/kernel/src/memory/virtual.rs:105-109 | An unused entry of the source needs nothing to be copied |
| TableCopies.LinkEntry | os/kernel/src/memory/virtual.rs:111-113 | A fresh frame linked in keeps the forest; as written, what it holds is what the frame held before |
| TableCopies.JoinEntry | os/kernel/src/memory/virtual.rs:115-117 | With the tables below one more entry copied, the copy so far grows by exactly that entry |
| TableCopies.RowCopied | os/kernel/src/memory/virtual.rs:119-124 | A level-1 table replaced by the source's gives the target the source's translations for its 512 pages |
| Scheduler.ThreadScheduler.Start | os/kernel/src/thread/scheduler.rs:61-74 | Takes the first thread, or stops the kernel exactly if there is none |
| Scheduler.ThreadScheduler.Ready | os/kernel/src/thread/scheduler.rs:76-83 | The thread joins the queue at the front and can be joined from now on |
| Scheduler.ThreadScheduler.SleepEnqueue | os/kernel/src/thread/scheduler.rs:85-93 | First half of `sleep` |
| Scheduler.ThreadScheduler.JoinEnqueue | os/kernel/src/thread/scheduler.rs:155-170 | First half of `join`; stops the kernel exactly if the thread is not known |
| Scheduler.ThreadScheduler.ExitMark | os/kernel/src/thread/scheduler.rs:175-188 | First half of `exit`: all who joined become ready in the order of the list, see `JoinersComeInOrder`, and the entry goes |
| Scheduler.ThreadScheduler.CheckSleepList | os/kernel/src/thread/scheduler.rs:197-210 | Exactly those whose time has come become ready; the others keep their order |
| Scheduler.ThreadScheduler.SwitchThread | os/kernel/src/thread/scheduler.rs:98-122 | The timer interrupt rotates the queue, if initialised and not empty |
| Scheduler.ThreadScheduler.Block | os/kernel/src/thread/scheduler.rs:128-150 | The wait loop ends, by the earliest wakeup time less the clock, when somebody sleeps and the clock advances, which `WaitEndsExactlyWhen` shows to be needed; afterwards the back of the queue is current, with no switch if that is the thread itself |
| Scheduler.WakeProgress | os/kernel/src/thread/scheduler.rs:197-210 | Checking the list wakes somebody if and only if the earliest wakeup time is reached; otherwise it changes nothing |
| Scheduler.WaitEndsExactlyWhen | os/kernel/src/thread/scheduler.rs:128-139 | With a rising clock, the wait loop of `block` ends if and only if somebody is ready or somebody sleeps |
| SchedulerRuns.StepKeeps | os/kernel/src/thread/scheduler.rs:52-210 | Every step keeps the invariant: tokens balance, lists hold exactly those who wait, and whoever waits is in the list for it or what it waits for has happened |
| SchedulerRuns.RunKeeps | os/kernel/src/thread/scheduler.rs:52-210 | So does every run, with preemption between any two steps |
| SchedulerRuns.TokenConservation | os/kernel/src/thread/scheduler.rs:76-191 | In every reachable state, the number of places that hold a thread is one if it has not exited, plus one if it has enqueued itself or exited but not yet reached `block` |
| SchedulerRuns.InQueue | os/kernel/src/thread/scheduler.rs:128-150 | A thread in the ready queue has not gone, and if it is inside of `block`, what it waits for has happened; if it is the current thread too, it is on its way into `block`, and what it waits for has happened as well |
| SchedulerRuns.ReturnsOnlyWhenOver | os/kernel/src/thread/scheduler.rs:85-191 | In every interleaving, `sleep` returns only at or after its wakeup time, `join` only after the thread has exited, `exit` never |
| SchedulerRuns.WaitingEndsByReturn | os/kernel/src/thread/scheduler.rs:128-191 | A thread stops waiting only by returning from `block` |
| SchedulerRuns.FirstInFirstOut | os/kernel/src/thread/scheduler.rs:98-153 | A thread with d threads ahead of it is dispatched by exactly the (d+1)-th dispatch, whatever joins behind it |
| SchedulerOrder.QueueLaw | os/kernel/src/thread/scheduler.rs:61-210 | First in, first out for all threads of a run: those dispatched, and then those still in the queue, are those in the queue at its beginning and then all that join it, in the order in which they do |
| SchedulerOrder.JoinListInOrder | os/kernel/src/thread/scheduler.rs:155-170 | In every run from boot, the join list of a thread holds exactly those who called `join` for it, in the order of the calls |
| SchedulerOrder.SleepListInOrder | os/kernel/src/thread/scheduler.rs:85-93 | In every run from boot, the sleep list holds its threads in the order in which they called `sleep` |
| SchedulerOrder.CheckedInOrder | os/kernel/src/thread/scheduler.rs:197-210 | A check goes through the sleep list from its beginning to its end |
| SchedulerOrder.JoinersComeInOrder | os/kernel/src/thread/scheduler.rs:175-191 | After an exit in a run from boot, the queue is dispatched from back to front, and then those who joined the thread, in the order in which they called `join` |
| SchedulerOrder.SleepersComeInOrder | os/kernel/src/thread/scheduler.rs:197-210 | After a check of the sleep list, the queue is dispatched from back to front, and then those whose time has come, in the order of the list |
| SchedulerOrder.StaysInitialised | os/kernel/src/thread/scheduler.rs:52-122 | Once initialised, the scheduler stays so |
| SchedulerRuns.SelfSwitchOnlyOnTheWay | os/kernel/src/thread/scheduler.rs:111-126 | In every reachable state, `switch_thread` picks the current thread, be it after waking it itself, only if that is on its way into `block` and what it waits for is over |
| SchedulerRuns.SelfSwitchExactlyWhen | os/kernel/src/thread/scheduler.rs:98-122 | It picks the current thread if and only if that is at the back of the queue or, the queue being empty, is the first in the sleep list whose time has come |
| SchedulerRuns.SelfSwitchHappens | os/kernel/src/thread/scheduler.rs:111-126 | It can: a thread that sleeps for no time and is interrupted before `block` is switched from itself to itself |
| SchedulerRuns.BlockNeverEndsExactlyWhen | os/kernel/src/thread/scheduler.rs:128-139 | A thread that enters `block` stays in its wait loop whatever the clock shows if and only if nobody is ready and nobody sleeps |
| SchedulerRuns.LastExitNeverEnds | os/kernel/src/thread/scheduler.rs:175-191 | It happens in a run from boot: the only thread exits, and `block` never ends |
| Context.PushedPopped | os/kernel/src/thread/thread.rs:220-273 | What the sixteen pushes store is what the sixteen pops restore, register by register |
| Context.Cpu.ThreadSwitch | os/kernel/src/thread/thread.rs:217-276 | The instruction sequence, with the call in the middle that may change every register a callee need not preserve and the words below the stack pointer, is the switch of the run model |
| Context.Cpu.ThreadKernelStart | os/kernel/src/thread/thread.rs:182-205 | The first thread is entered through the same frame |
| Context.Cpu.PushRegisters | os/kernel/src/thread/thread.rs:219-235 | The pushes lay the registers out below the return address |
| Context.Cpu.PopAndReturn | os/kernel/src/thread/thread.rs:255-273 | The pops and `ret` take them up again and leave the stack as before the call |
| Context.Thread.PrepareKernelStack | os/kernel/src/thread/thread.rs:122-153 | The stack of a new thread: zeros, flags 0x202, the entry point, the dummy return address, and `old_rsp0` eighteen words below its end |
| ContextRuns.StepKeeps | os/kernel/src/thread/thread.rs:101-103 | Whatever threads do on their own stacks and in shared memory, every suspended thread stays frozen as it was at the entry into `thread_switch` |
| ContextRuns.EntryResumes | os/kernel/src/thread/thread.rs:244-274 | An entered thread goes on with its registers, flags, return address and stack, and a switch sets its page tables and the address given to the task state segment |
| ContextRuns.ResumedAsLeft | os/kernel/src/thread/thread.rs:217-276 | Over any run of switches between distinct threads, a thread next resumed has exactly the registers, flags, return address and stack that it had when switched away |
| ContextRuns.FirstEntersKickoff | os/kernel/src/thread/thread.rs:122-153 | A new thread first enters `kickoff_kernel_thread` with all registers zero, interrupts enabled and the dummy return address on its stack |
| ContextRuns.SelfSwitchResumesExactlyWhen | os/kernel/src/thread/thread.rs:101-103 | A thread switched to itself goes on as it was if and only if the stack pointer saved at its previous switch happens to be the one saved now |
| ContextRuns.StackAddrInsideExactlyWhen | os/kernel/src/thread/thread.rs:118-120 | The address that `kernel_stack_addr` returns lies on the stack if and only if the stack has a single word |
| ContextRuns.SwitchLoadsAddrOutside | os/kernel/src/thread/thread.rs:101-120 | In every run, the address a switch loads into the task state segment lies outside the stack of the thread that is entered, at least 118 words behind its end |
| KernelRuns.SwitchesAreKnown | os/kernel/src/thread/scheduler.rs:98-153 | In every reachable state, the scheduler asks for a switch only between two different threads that both exist and have a stack |
| KernelRuns.StepKeeps | os/kernel/src/thread/scheduler.rs:52-210 | Each step of scheduler and switch together keeps both invariants, and both agree on the threads that exist and on the current one |
| KernelRuns.RunProjects | os/kernel/src/thread/thread.rs:97-103 | Seen from registers and memory, every run of both together is a run of switches between distinct threads |
| KernelRuns.GoesOnAsLeft | os/kernel/src/thread/scheduler.rs:98-153 | In every run from boot in which no interrupt dispatches the current thread: when the scheduler dispatches a thread again that it has switched away, the thread goes on with the registers, flags, return address and stack that it had at the entry into the switch |
| KernelRuns.ComesBackWhenOver | os/kernel/src/thread/scheduler.rs:85-191 | If it was switched away in `block`, it was not to exit, and it comes back only when its wakeup time has come or the thread it joins has exited |
| KernelRuns.BeginsInKickoff | os/kernel/src/thread/thread.rs:122-153 | A thread handed to the scheduler begins in `kickoff_kernel_thread` with all registers zero when it is first dispatched |
| Terminal.IndexInBounds | os/kernel/src/device/lfb_terminal.rs:206-207 | Every index a cursor inside of the grid leads to fits in 16 bits and in the buffer; behind the last column of the last row it leaves the grid and only the over-long buffer holds it |
| Terminal.LfbTerminal.PrintChar | os/kernel/src/device/lfb_terminal.rs:194-226 | `print_char` on the buffer and the cursor, see `PrintChangesCells`: write or clear, wrap, scroll |
| Terminal.LfbTerminal.ScrollUp | os/kernel/src/device/lfb_terminal.rs:233-251 | All rows move up by one, and everything behind is blank |
| Terminal.LfbTerminal.Position | os/kernel/src/device/lfb_terminal.rs:253-260 | Scrolls exactly as many rows as the target lies below the grid |
| Terminal.LfbTerminal.HandleTab | os/kernel/src/device/lfb_terminal.rs:268-274 | The tab on buffer and cursor |
| Terminal.LfbTerminal.Clear | os/kernel/src/device/lfb_terminal.rs:173-180 | Blank buffer, cursor at the origin |
| Terminal.LfbTerminal.HandleErase | os/kernel/src/device/lfb_terminal.rs:573-600 | The six erase sequences on the buffer |
| Terminal.LfbTerminal.HandleCursor | os/kernel/src/device/lfb_terminal.rs:485-571 | Each cursor sequence moves the cursor as the lemmas of `TerminalCells` say, or stops the kernel where 16-bit arithmetic overflows and changes nothing |
| TerminalRuns.ScreenShowsDocument | os/kernel/src/device/lfb_terminal.rs:194-251 | Whatever is printed on a cleared screen, and however often it scrolls, each row of the grid is the row of the unbounded document that many rows from its end, and the cursor is at the end of the document |
| TerminalRuns.PrintShows | os/kernel/src/device/lfb_terminal.rs:194-226 | One character more on the screen is one character more in the document |
| TerminalCells.PrintChangesCells | os/kernel/src/device/lfb_terminal.rs:194-226 | On every screen: a newline blanks the row of the cursor from there on, a character that is drawn overwrites the cell at the cursor, or the first of the next row if the cursor is behind the last column, and no other cell changes; then the cursor wraps, and if it is below the grid, the rows move up by one |
| TerminalCells.PositionMovesRows | os/kernel/src/device/lfb_terminal.rs:253-260 | Going n rows below the last one moves the rows up by n and blanks those that come into sight; going elsewhere changes no cell |
| TerminalRuns.DocumentExtends | os/kernel/src/device/lfb_terminal.rs:199-216 | The document, defined by splitting at newlines and cutting lines into rows, grows by one character at its last row, and gets a new row at a newline or a full row |
| TerminalRuns.DocumentHoldsText | os/kernel/src/device/lfb_terminal.rs:194-226 | The rows of the document in order are the text without its newlines |
| TerminalRuns.CellScrolled | os/kernel/src/device/lfb_terminal.rs:233-245 | Scrolling the buffer is scrolling the grid |
| TerminalRuns.EraseClears | os/kernel/src/device/lfb_terminal.rs:291-388 | Each erase sequence clears its part of the grid and nothing else; that for a whole line leaves the letter a |
| TerminalCells.EraseSequence | os/kernel/src/device/lfb_terminal.rs:573-600 | With the missing parameter that means 0: the cells erased, and no move of the cursor but to the origin when the whole screen is |
| TerminalCells.ClearBlanks | os/kernel/src/device/lfb_terminal.rs:173-180 | After `clear`, every character is null and the cursor at the origin |
| TerminalRuns.TabGoesToNextStop | os/kernel/src/device/lfb_terminal.rs:268-274 | A tab goes to the next multiple of eight if more than eight columns are left, else to the next line |
| TerminalRuns.TabSkipsStopExactlyWhen | os/kernel/src/device/lfb_terminal.rs:268-274 | Some tab stop of a row is skipped from a column before it if and only if the width is no multiple of eight and more than eight |
| TerminalCells.TabMovesRows | os/kernel/src/device/lfb_terminal.rs:268-274 | A tab in the last row with at most eight columns left moves the rows up by one; no other changes a cell |
| TerminalRuns.AskedIsClampedExactlyWhen | os/kernel/src/device/lfb_terminal.rs:485-571 | The code, which subtracts before it clamps, moves as intended if and only if the move does not leave the grid at its top or left and the sum fits in 16 bits; otherwise the kernel stops |
| TerminalRuns.RunClamped | os/kernel/src/device/lfb_terminal.rs:194-600 | Cursor safety: with clamped moves, every run of prints, tabs, moves, saves, restores and erases keeps the row below the height and the column at most the width |
| TerminalRuns.RunsExactlyWhen | os/kernel/src/device/lfb_terminal.rs:194-600 | A run of the code as written goes through if and only if every move in it fits, and is then the run with clamped moves |
| TerminalRuns.CursorUpStops | os/kernel/src/device/lfb_terminal.rs:488-496 | One line up from the origin stops the kernel |
| TerminalCells.PositionSequence | os/kernel/src/device/lfb_terminal.rs:545-559 | The position sequences take the column first: inside of the grid they go there and change no cell; one column behind the border is taken as it is, one row behind it moves the rows up by one, and all that is behind is the border; with fewer than two parameters they go to the origin |
| TerminalCells.PositionClampsExactlyWhen | os/kernel/src/device/lfb_terminal.rs:545-559 | They clamp to the grid if and only if the column is not the width |
| TerminalCells.NoParameterStays | os/kernel/src/device/lfb_terminal.rs:485-543 | The sequences for moves do nothing without a parameter |
| TerminalCells.MoveSequence | os/kernel/src/device/lfb_terminal.rs:488-543 | Each relative move changes nothing but the cursor: by the distance, where zero means one, up to the border at the bottom and the right, and stops the kernel where it would leave the grid at the top or the left or exceed 16 bits |
| TerminalCells.SaveAndRestore | os/kernel/src/device/lfb_terminal.rs:561-568 | Saving and restoring change nothing but the saved position and the cursor |
| TerminalRuns.RestoreReturns | os/kernel/src/device/lfb_terminal.rs:561-568 | Restoring goes back to the saved position, whatever was printed, moved or scrolled in between, and scrolls nothing |
| PitTimer.Timer.InterruptRate | os/kernel/src/device/pit.rs:59-80 | Divisor and interval as computed; two bytes are written that amount to the divisor, doubled under QEMU, modulo 65536; an interval of zero stops the kernel |
| PitTimer.QemuDivisorFitsExactlyWhen | os/kernel/src/device/pit.rs:67-78 | Under QEMU the doubled divisor fits into the counter if and only if the interval is at most 27 ms |
| PitTimer.DivisorIsCutExactlyWhen | os/kernel/src/device/pit.rs:59-63 | The divisor is 1193 for each millisecond up to 54, and 65535 for more |
| PitTimer.TimerInterruptHandler.Trigger | os/kernel/src/device/pit.rs:23-40 | All pending increments reach the clock at once as soon as it can be locked; the scheduler is asked for a switch exactly if it could and the time is a multiple of 10 ms |
| PitTimer.NoTickLost | os/kernel/src/device/pit.rs:23-40 | The clock plus pending increments times the interval is always ticks times the interval, and pending are exactly the ticks since the clock could last be locked |
| PitTimer.IntervalAccuracy | os/kernel/src/device/pit.rs:59-65 | The interval is longer than the real one less a nanosecond and at most 19/18 of it |
| PitTimer.ClockAccuracy | os/kernel/src/device/pit.rs:59-100 | For every interval of at least 1 ms, after n ticks the clock is ahead of real time less n nanoseconds and at most 19/18 of it |
| PitTimer.EveryTenthTick | os/kernel/src/device/pit.rs:35-38 | With the interval of 1 ms, a switch is asked for at exactly every tenth tick that finds the clock free |

## Left out

- Boot sequencing, Multiboot2 and EFI parsing, ACPI, descriptor tables, CR3 writes and port input and output: the areas of the memory map are a parameter, and the two bytes for the timer are recorded instead of written.
- `AddressSpace::drop` (which is `todo!()`) and `current_address_space`.
- The kernel heap, a wrapper around an external allocator.
- `Boot.InitMemory`: the kernel image and the heap are not inverted; memory reaches at least one frame beyond the last region. An entry without frames does not start inside of a region, nor behind one in the list that starts there, which `Boot.ScannedIsMemoryMap` shows for areas in ascending order.
- `Boot.ScanMemoryMap`: the choice of the heap, and the two scans of EFI memory maps, whose entries are page aligned.
- `PhysMemory.ReadNode`: the frame count is taken to lie in the first word of a node and the link in the second; the compiler may order the fields of the structure otherwise, and the first entry of a table that is not zeroed reads accordingly.
- `Physical.PhysicalMemory.Init`: `sort_by` is modelled as a stable insertion sort on the sequence of regions, not in place.
- `Physical.PhysicalMemory.Free`: callers free ranges that they hold, as its comment demands.
- `Paging.PageTableManager.Map`: pages at or above the canonical hole; pages on the way to which a stray entry points to a frame, which `map` would take for a table; flags are a number, of which only the bits for present, writable and user accessible have a meaning.
- `Paging.PageTableManager.NewTable`: an entry counts as null by its frame number, as in the code; no table lies in frame 0.
- `CopyTheorems.CopyPreservesMapped`: the source is a space without leftover words of its own, which the kernel's always is (`PagingRuns.CreatedStaysTidy`) and the only one the kernel copies.
- `PagingTheorems.TablesFormForest`: what a walk reads that is led on by a stray entry.
- `PagingRuns.RunTranslates`: a run ends where a call stops the kernel for lack of a frame.
- `PagingTheorems.MapReturns`: stated on page numbers, of which addresses are multiples.
- Writes of user programs to their pages, and of the kernel through the identity mapping.
- The window between releasing the scheduler lock and the register switch: both are one step.
- A lock that is taken: an interrupt that cannot lock the state does nothing and is no step; rounds of the wait loop in which the timer is locked are not counted.
- `Scheduler.ThreadScheduler.Block`: called where somebody is ready, or somebody sleeps and the clock advances; `Scheduler.WaitEndsExactlyWhen` says that its loop does not end otherwise. `join` of an unknown thread stops the kernel; self-joins and cycles of joins are covered by the safety theorems but never return.
- Names of threads: an id is used once. Dropping the last reference to a thread, and reuse of the memory of threads that have exited.
- `KernelRuns.GoesOnAsLeft`: runs in which an interrupt dispatches the current thread; `ContextRuns.SelfSwitchResumesExactlyWhen` says when such a thread goes on as it was.
- `ContextRuns.StepKeeps`: stack overflow. A switch happens only with room for the registers and for the called function on the stack.
- `Context.Cpu.ThreadSwitch`: memory is in aligned words and values are unbounded; segment and vector registers are not part of the frame. The function called in the middle changes nothing else but the task state segment. The address of `kickoff_kernel_thread` is a parameter.
- The user-mode transition, system calls, and the end-of-interrupt call.
- Pixels, glyphs and colours: whether a character has a glyph is an arbitrary predicate.
- The escape-sequence parser and the keyboard decoder: sequences arrive with the first value of each parameter. Bell and speaker.
- `Terminal.LfbTerminal.HandleCursor`: the release profile, in which 16-bit arithmetic wraps around. A grid whose indices, or whose width plus a tab, do not fit in 16 bits.
- The receive queues of keyboard and serial port, whose queue is an external crate.
- `PitTimer.ClockAccuracy`: under QEMU, where the real tick is another one; a change of the interval while the clock runs.
- Overflow of 64-bit integers.
