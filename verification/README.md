# Verification of the storage layer of an enclave database

The repository runs SQLite inside an SGX enclave on top of a page cache of its own, which keeps a few pages
in the clear ("warm") and the rest encrypted and hashed outside ("cold").  This project models the parts whose
correctness is hardest to see and proves them with Dafny 4.11:

    dafny verify dfyconfig.toml

| component | files | form |
|---|---|---|
| sibling balancing of the b-tree | `BalanceDistribute`, `BalanceEven`, `BalanceRewrite` | loops over arrays |
| space allocation inside a page | `PageSpace`, `PageFreeSpace`, `PageFindSlot`, `PageSlot`, `PageDefragment`, `PageAllocator` | class over a byte array |
| writing a page's new cells | `PageCells`, `PageEdit` | methods over that class |
| cells, overflow chains, payload access | `Varint`, `CellFormat`, `OverflowChain`, `PayloadWrite`, `PayloadAccess`, `PayloadCursor` | loops, class for the cursor |
| freelist | `FreelistChain`, `Freelist` | class over a page map |
| pointer-map arithmetic | `PtrMap` | functions, 32-bit arithmetic written out |
| shared-cache locks and transactions | `SharedCache`, `SharedCacheEffects`, `SharedCacheBtree` | state machine, class that refines it |
| integrity sweep | `CoverageHeap`, `Coverage`, `CoveragePage` | in-place heap, the bytes of any page |
| mutex protocol | `BtMutex` | state machine over single mutex operations |
| page cache (VME) | `VmeSpec`, `VmeRuns`, `VmeQueue`, `VmeCache` | state machine, doubly linked list and arrays that refine it |
| bit vector | `BitvecHash`, `Bitvec` | class, recursive |
| online backup | `BackupBytes`, `BackupFile`, `Backup` | class, runs of events |
| xxHash | `XxStream`, `XxHash32`, `XxHash64`, `XxVectors32`, `XxVectors64` | bit-vectors, class for the stream |
| ANALYZE | `AnalyzeRows`, `Analyze` | class, text round trip |
| helpers of several of these | `Basics` | quotients, 32-bit remainders, sizes of sets |

Conventions.  Numbers are unbounded; where the width of the source's integers matters, the wrap-around is
written out (`PtrMap`, `PayloadCursor`, `XxStream`, `Varint`, `Freelist`, `Analyze`, `Backup`) or the type is a
bit-vector (xxHash, the bitmap of `Bitvec`).  What a structure means (the list of free blocks, the pages of a
chain, the contents of a set) is a ghost value, and a predicate says that the bytes spell it out.  Routines that the source runs on
possibly corrupt bytes (payload access, freelist) are total in the model too, and terminate; their promises are
conditional on the bytes being well-formed.  Routines that check for corruption of a page keep these checks,
and on well-formed pages it is proved that they never fire.  PENDING_BYTE is 0x40000000; page sizes are
parameters.

Some findings:

* `BalanceDistribute`: for table leaves the distribution succeeds exactly when the cells can be laid out over
  NB+2 pages at all; in particular after any insertion into pages that were well-formed.
* `VmeRuns.ReadAfterWrite`: a page that was never written since the reset can fail to be read, namely exactly
  when all frames are full and stuck (`Enclave/vmem.c:452-459` compares with a hash of 0).
* `PtrMap.FinalDbSize`: the callers take a header for corrupt if `nFin > nOrig` (`Enclave/sqlite/btree.c:3741-3743`).
  For databases that cross the pending byte too this is right for every free count below 2^31; of the larger
  ones exactly those pass the test that `PtrMap.Slips` describes, where the free pages and their pointer maps
  together pass 2^32 by less than the database has pages, or stop one or two pages short of it.  Two such headers
  are given in `PtrMap.HugeFreeCountEscapes`.
* `XxHash64.StreamIsHash`, `XxHash32.StreamIsHash`: XXH64_update and XXH32_update take an unsigned length, hand it
  on as an int (`Enclave/xxhash.c:505`, `Enclave/xxhash.c:644`) and add it to the int memsize
  (`Enclave/xxhash.c:517`, `Enclave/xxhash.c:656`).  A stream gives the hash of its data if and only if every piece,
  together with the bytes that are buffered before it (the length so far modulo 16 or 32), is shorter than 2^31
  bytes.  One byte and then 2^31-1 bytes is a stream that fails (`XxStream.ShortPieceOverruns`).
* `CoveragePage.CheckCoverage`: the heap of the integrity check has pageSize/4 words
  (`Enclave/sqlite/btree.c:9502`).  It is overrun if and only if cells and free blocks are that many or more.  That
  cannot happen as long as free blocks have at least 4 bytes (`CoveragePage.RoomForAll`), but btreeInitPage lets
  shorter ones through; `CoveragePage.CrowdedOverruns` gives such a page.
* `PageEdit.EditPage`: on well-formed pages editing succeeds if and only if the new cells and their pointers have
  room, however the page has to be rearranged.
* `PayloadCursor.BtCursor.AccessPayload`: the number of overflow pages is computed in 32 bits
  (`Enclave/sqlite/btree.c:4582`).  The cache of overflow pages is overrun if and only if the payload size less its
  local part, plus the usable size less 5, reaches 2^32 and the access enters the chain;
  `PayloadCursor.WrappingCell` is such a cell.  Callers that check the size first meet
  `PayloadCursor.ShortIsCounted`: reads of columns and rows compare it with SQLITE_LIMIT_LENGTH
  (`Enclave/sqlite/vdbe.c:2516`, `Enclave/sqlite/vdbe.c:4736`), which is 10^9 at most
  (`Enclave/sqlite/sqliteLimit.h:24`), and comparisons of index keys refuse sizes that are negative as an int
  (`Enclave/sqlite/btree.c:5304`, `Enclave/sqlite/vdbeaux.c:4474`).  The read of a row number out of an index entry
  (`Enclave/sqlite/vdbeaux.c:4398`) has no check of its own.
* `PageSlot.SlotAt`: the comment on pageFindSlot says that blocks which would leave 1 to 3 bytes are passed over
  when there are too many fragments (`Enclave/sqlite/btree.c:1465-1467`).  The code gives the search up at the first
  such block, and at a block that fits exactly too (`Enclave/sqlite/btree.c:1496-1499`).
* `Freelist.Db.Allocate`: in LE mode with free pages of which none is at most `nearby` the result is CORRUPT,
  although nothing is corrupt (`Enclave/sqlite/btree.c:5718-5719`).
* `PayloadCursor.BtCursor.AccessPayload`: a chain that breaks off is noticed exactly by the accesses that reach
  beyond the break.

## Model

| member | source | states |
|---|---|---|
| BalanceDistribute.Distribute | Enclave/sqlite/btree.c:7378-7471 | On siblings whose sizes are accounted for and whose cells fit a page each: when the result is not CORRUPT, the cuts rise strictly, end at the number of cells, no page is empty or over the usable space, and every size is the exact byte sum of its page; and the result is never CORRUPT when any layout over NB+2 pages exists (for interior or index siblings: when cells are small enough for the format).  The cuts are those of the greedy packing, moved from the right to the left: each is the largest up to the packed one at which the right page has cells and one cell more would make it larger than the left page is left (by more than 2 bytes for the last page); in a bulk load it is enough that the right page has cells |
| BalanceDistribute.LoadPages | Enclave/sqlite/btree.c:7379-7386 | The sizes taken from the free-byte counts and overflow cells of the old pages are exact byte sums of the old cuts |
| BalanceDistribute.ShedCells | Enclave/sqlite/btree.c:7390-7408 | Shedding keeps all byte sums exact, even while those to the right are negative; it runs out of pages only if no layout of the cells exists |
| BalanceDistribute.PullCells | Enclave/sqlite/btree.c:7409-7422 | Pulling keeps the sums exact and stops only when the next cell does not fit |
| BalanceDistribute.PackLeft | Enclave/sqlite/btree.c:7388-7429 | The packing is greedy: every page but the last is as full as it can be; CORRUPT only if no layout exists |
| BalanceDistribute.GreedyDominates | Enclave/sqlite/btree.c:7388-7429 | Page by page, the greedy packing ends no earlier than any other layout |
| BalanceDistribute.GreedyLastPage | Enclave/sqlite/btree.c:7388-7429 | With all pages in use, the last page of the packing fits whenever any layout exists |
| BalanceDistribute.NoLayout | Enclave/sqlite/btree.c:7393 | Asking for one page more than NB+2 means that no layout exists at all |
| BalanceDistribute.MoveEnd | Enclave/sqlite/btree.c:7397-7422 | Moving the end of one page, and the bytes with it, keeps every size the difference of prefix sums, also when a divider changes or the next size is negative |
| BalanceDistribute.ShedStep | Enclave/sqlite/btree.c:7397-7407 | One cell leaves a page that is too full: the packing invariant is kept and the page had a cell to give |
| BalanceDistribute.PullStep | Enclave/sqlite/btree.c:7410-7421 | One cell joins a page: the packing invariant is kept and there is a next page to take it from |
| BalanceDistribute.ClosePage | Enclave/sqlite/btree.c:7423-7428 | The check in the packing loop never fails on cells that fit: a filled page ends to the right of the one before it |
| BalanceDistribute.TakeCells | Enclave/sqlite/btree.c:7448-7464 | Cells move one by one, with exact sizes, until the cut is the largest at which the right page has cells and would become larger than the left page, in prefix sums of the cell sizes and with the slack of 2 for the last page; in a bulk load until the right page has a cell; on a sound packing the left page is never emptied |
| BalanceDistribute.EvenPage | Enclave/sqlite/btree.c:7442-7471 | One round moves one cut to where TakeCells says and no other, and keeps the invariant of the evening; on a sound packing it does not report CORRUPT |
| BalanceDistribute.MovingStep | Enclave/sqlite/btree.c:7459-7463 | The cell that moves right fits there: the right page stays within the usable space |
| BalanceDistribute.EveningEnds | Enclave/sqlite/btree.c:7442-7471 | When the evening has reached page 0, the distribution is balanced |
| BalanceEven.DistributionIsUnique | Enclave/sqlite/btree.c:7388-7471 | The contract of Distribute leaves one result: the cell sizes, the kind of page and bBulk determine the cuts, whatever the siblings were like before |
| BalanceEven.GreedyIsUnique | Enclave/sqlite/btree.c:7388-7429 | There is only one packing in which every page but the last has no room for its next cell |
| BalanceEven.EvenCutTips | Enclave/sqlite/btree.c:7456-7464 | Without bBulk: at every cut further to the left the right page would be the larger one, and at the cut itself it is not, if cells were moved for balance |
| BalanceEven.BulkCut | Enclave/sqlite/btree.c:7456-7459 | In a bulk load no cell leaves for a page that has one, and exactly one leaves for an empty page |
| BalanceEven.SixCells | Enclave/sqlite/btree.c:7388-7471 | Six cells of 98 bytes on a table leaf of 512: cut into three and three, in a bulk load into five and one |
| BalanceDistribute.EveryCellPlacedOnce | Enclave/sqlite/btree.c:7378-7471 | Every cell is on exactly one new page or is exactly one divider, never both |
| BalanceDistribute.BalancedIsLayout | Enclave/sqlite/btree.c:7378-7471 | What the distribution returns is itself a layout, so on table leaves it succeeds if and only if a layout exists |
| BalanceDistribute.LayoutWithOneOverflow | Enclave/sqlite/btree.c:7378-7471 | Pages of which one is too full by one cell, the case of an insertion, always have a layout: balancing after an insert cannot report CORRUPT on table leaves |
| BalanceRewrite.Rewrite | Enclave/sqlite/btree.c:7717-7757 | After the two passes every new page holds exactly its cells with their texts, other pages are untouched, and the order in which the pages were written names each new page exactly once |
| BalanceRewrite.EditPage | Enclave/sqlite/btree.c:6731-6815 | Editing a page, seen as the map of its cells, gives it the texts of its new cells, provided all of them can still be read where they are (PageEdit.EditPage is the same routine on the bytes of the page) |
| BalanceRewrite.CellsReadable | Enclave/sqlite/btree.c:7719-7745 | Whenever a page is written, none of its new cells lies on a page that has been overwritten |
| BalanceRewrite.SafeToRewrite | Enclave/sqlite/btree.c:7720-7734 | When a page is about to be overwritten, in either pass, every other new page that takes a cell from it has been written already |
| BalanceRewrite.RewriteKeepsSafe | Enclave/sqlite/btree.c:7745-7752 | Writing a page destroys no cell that a page still to be written needs, however many pages the cell moves |
| BalanceRewrite.BalancedIsGoal | Enclave/sqlite/btree.c:7697-7757 | Every balanced distribution is a goal that the rewrite can reach |
| PageEdit.EditPage | Enclave/sqlite/btree.c:6731-6815 | On the bytes of a well-formed page that has the cells [iOld, iOldEnd) of the array, but for its overflow cells: OK if and only if the cells [iNew, iNewEnd) and their pointers have room on a page, and then the pointers list places that hold these cells byte for byte as they were before, whether on this page or elsewhere, the cells are disjoint, free blocks, cells and fragments tile the content area, and the sizes add up to what the caller takes the free bytes from; the bytes in front of the pointers, but for the header fields, stay |
| PageEdit.Trim | Enclave/sqlite/btree.c:6753-6761 | Taking cells from both ends leaves exactly the cells of the new run that are on the page already, with their pointers moved to the front and not a byte of them changed |
| PageEdit.FreeArray | Enclave/sqlite/btree.c:6674-6717 | Exactly the cells of the range that lie on the page go to the free list, neighbours as one run, and they are counted; the other cells keep every byte, and neither the check of freeSpace nor that for the end of the page fires |
| PageEdit.Merged | Enclave/sqlite/btree.c:6690-6706 | Two cells next to each other are given back as one without changing what else is on the page |
| PageEdit.Fill | Enclave/sqlite/btree.c:6766-6798 | Cells in front, overflow cells at their places among those that stayed, and cells behind: if all get a place, cells and pointers are the new run in its order; if not, the cells of the run that were on the page can still be read |
| PageEdit.FillOverflows | Enclave/sqlite/btree.c:6779-6791 | The overflow cells that belong to the new run go to their places in it, however many of the old cells stayed, and only those |
| PageEdit.InsertArray | Enclave/sqlite/btree.c:6628-6663 | Each cell gets a free place, in a free block or in front of the content area, where its bytes are written, and its pointer; no byte of a cell that was there, and no pointer outside of the range, changes, also if the room runs out half-way |
| PageEdit.FindRoom | Enclave/sqlite/btree.c:6645-6650 | A place comes from a free block or from the gap in front of the content area, and is disjoint from all cells: the place that pageFindSlot offers (PageSlot.SlotAt), else the end of the gap; it fails, and changes nothing, exactly if there is none and the gap is too small |
| PageEdit.TidyWithGap | Enclave/sqlite/btree.c:6800-6804 | With the new start of the content area in the header, the cells in front of the old one belong to the content area, in whatever order the pointers list them |
| PageEdit.Rebuild | Enclave/sqlite/btree.c:6559-6601 | From scratch: OK if and only if the cells and their pointers have room, and then they are packed at the end of the page in their order, byte for byte as they were, although they are overwritten while they are read; no free blocks and no fragments are left |
| PageEdit.NoRoomLeft | Enclave/sqlite/btree.c:6583-6586 | The check that content meets pointers fires exactly at the first cell that has no room |
| PageAllocator.MemPage.FreeSpace | Enclave/sqlite/btree.c:1622-1710 | The span leaves the cells and joins the free list: sorted, disjoint from the cells, gaps over 3 bytes, fragments counted exactly and at most 60, free bytes up by its size; no byte outside the span, the free blocks and the header changes; in the span all bytes but the headers of free blocks are 0 if deleted bytes are overwritten, and as before otherwise; never CORRUPT on a well-formed page |
| PageAllocator.MemPage.FindPlace | Enclave/sqlite/btree.c:1649-1662 | The walk ends at the pointer to the first free block behind the span |
| PageAllocator.MemPage.Coalesce | Enclave/sqlite/btree.c:1670-1694 | The block is joined with its neighbours within 3 bytes, and the fragment bytes between them are given back |
| PageAllocator.MemPage.LinkIn | Enclave/sqlite/btree.c:1695-1707 | The joined block is linked in, or the content area is extended over it |
| PageFreeSpace.FreedTiled | Enclave/sqlite/btree.c:1622-1710 | After freeing, free blocks, cells and fragments still tile the content area exactly |
| PageFreeSpace.FreedTidy | Enclave/sqlite/btree.c:1695-1708 | The bytes that freeSpace writes spell out the new list of free blocks, sorted and coalesced |
| PageFreeSpace.JoinedInOrder | Enclave/sqlite/btree.c:1670-1691 | The coalesced block lies between its neighbours in the list with more than 3 bytes to either side |
| PageFreeSpace.FragmentsCounted | Enclave/sqlite/btree.c:1671-1693 | The fragment bytes beside the freed span are exactly what the counter is reduced by; it never goes below 0 |
| PageFreeSpace.FreeBytesAddUp | Enclave/sqlite/btree.c:1708 | The free-byte count is the gap, the free blocks and the fragments together |
| PageFreeSpace.FragmentsAreTheRest | Enclave/sqlite/btree.c:1692-1693 | The fragment counter is the number of bytes of the content area in no cell and no free block |
| PageAllocator.MemPage.FindSlot | Enclave/sqlite/btree.c:1469-1517 | Some: the bytes come from the end of the first block that is large enough, which shrinks or leaves the list as a fragment of at most 3 bytes; None: nothing changed, and no block is large enough, or the first that is would leave fewer than 4 bytes and more than 57 fragment bytes exist |
| PageSlot.SlotAt | Enclave/sqlite/btree.c:1480-1513 | The first block that is large enough decides: its end is the place, unless fewer than 4 bytes, even none, would be left of it and the fragment counter is above 57 |
| PageFindSlot.TakenTiled | Enclave/sqlite/btree.c:1490-1510 | Taking bytes from the end of a block keeps the tiling exact: a rest of up to 3 bytes turns into fragments, a larger one stays a block |
| PageFindSlot.TakenTidy | Enclave/sqlite/btree.c:1499-1510 | The bytes that pageFindSlot writes spell out the list with the smaller, or without the used up, block, as long as the fragments stay within 60 |
| PageAllocator.MemPage.DefragmentPage | Enclave/sqlite/btree.c:1331-1453 | By either way: every cell keeps its bytes and its index, the free list is empty, the free bytes are as before, and at most nMaxFrag fragment bytes remain, 0 after a rebuild; cells are slid if there are one or two blocks and few enough fragments, and packed in pointer order otherwise; never CORRUPT on a well-formed page |
| PageAllocator.MemPage.SlideCells | Enclave/sqlite/btree.c:1365-1403 | The fast way for one or two free blocks: cells below a block move up by its size, with their pointers |
| PageAllocator.MemPage.MoveAreas | Enclave/sqlite/btree.c:1380-1395 | The two memmoves shift exactly the bytes below the free blocks |
| PageAllocator.MemPage.ShiftPointers | Enclave/sqlite/btree.c:1396-1400 | Every cell pointer moves with its cell |
| PageAllocator.MemPage.RebuildCells | Enclave/sqlite/btree.c:1406-1440 | The slow way: the cells lie packed at the end of the page in the order of their pointers, with the same bytes, and no fragments are left |
| PageAllocator.MemPage.MoveCell | Enclave/sqlite/btree.c:1409-1438 | One turn of the rebuild reads each cell from where its bytes still are: the page before the copy is made, the copy after |
| PageAllocator.MemPage.FinishDefragment | Enclave/sqlite/btree.c:1442-1453 | The check of the free-byte count passes, the free list is emptied and the gap cleared; cells are not touched |
| PageDefragment.SlidTiled | Enclave/sqlite/btree.c:1380-1400 | Cells moved up over the free blocks stay disjoint and tile the page with the same fragments |
| PageDefragment.RepackedTiled | Enclave/sqlite/btree.c:1406-1440 | The packed cells are disjoint, in the page, and leave no fragments |
| PageDefragment.RebuildStep | Enclave/sqlite/btree.c:1429-1438 | With one more cell copied from the page or from the copy, one more cell is in its place, with its old bytes and its pointer, and the earlier ones stay |
| PageAllocator.MemPage.AllocateSpace | Enclave/sqlite/btree.c:1532-1607 | With nFree of at least nByte+2 it always succeeds: the span is disjoint from all cells and free blocks, room for the next cell pointer is kept, and all cells keep bytes and index, defragmented or not; nothing is moved if the free list offers a place or the gap has room, and otherwise the free bytes are in the gap but for at most 4 |
| PageAllocator.MemPage.AllocateFromGap | Enclave/sqlite/btree.c:1586-1606 | If the gap is too small, defragmenting with MIN(4, nFree-(2+nByte)) always makes it large enough |
| Varint.PutVarint | Enclave/sqlite/util.c:804-816 | The one- and two-byte forms are the general form |
| Varint.PutIsRead | Enclave/sqlite/btree.c:1109-1148 | A number below 2^64 is read back as written, with its length, wherever it stands; sizes below 2^32 by the 32-bit reader too |
| Varint.GetSize | Enclave/sqlite/btree.c:1117-1125 | The inlined reader of the payload size |
| Varint.GetKey | Enclave/sqlite/btree.c:1133-1148 | The inlined reader of the key, whose ninth byte has eight bits |
| CellFormat.ParseCell | Enclave/sqlite/btree.c:1096-1200 | Header, payload size, local size and cell size of a cell of either kind of page; the local size is the one of the file format (LocalIsAligned), and the cell is its header, its local bytes and a page number if something is spilled, but at least 4 bytes |
| CellFormat.CellSizePtr | Enclave/sqlite/btree.c:1221-1268 | The quick cell size equals the size that a full parse gives |
| CellFormat.LocalIsAligned | Enclave/sqlite/btree.c:1034-1063 | What stays on the page is fixed by the format: everything up to maxLocal; otherwise the amount between minLocal and maxLocal with which the spilled bytes fill whole overflow pages, of which there is at most one; and minLocal only if there is none |
| CellFormat.RowOf5000 | Enclave/sqlite/btree.c:1034-1063 | A row of 5000 bytes on pages of 4096: 908 bytes stay, the rest fills one overflow page |
| CellFormat.IndexCellsAreSmall | Enclave/sqlite/btree.c:3037-3053 | With maxLocal as it is computed for index pages, no cell of an index takes more than a third of its page, which is what balancing needs |
| CellFormat.HeaderIsRead | Enclave/sqlite/btree.c:6245-6262 | The parsers recover the key, payload size, local size and cell size that fillInCell used |
| CellFormat.CellSizeIsLocal | Enclave/sqlite/btree.c:1221-1268 | The size of a cell depends on its own bytes only, which is what defragmentPage needs to read sizes from its copy |
| PayloadWrite.FillInCell | Enclave/sqlite/btree.c:6179-6346 | OK if and only if enough overflow pages can be allocated; then the cell and exactly the pages used hold the payload with its zero tail, linked and ended by 0, the local part is that of the file format, the sizes agree with the parsers, and no other page changes |
| PayloadWrite.WritePayload | Enclave/sqlite/btree.c:6265-6345 | The writing loop: the chain holds the first w bytes of the payload after each turn, zero tail included |
| PayloadWrite.NewOverflow | Enclave/sqlite/btree.c:6311-6317 | A new page is linked behind the last and ends the chain |
| PayloadWrite.SpillGrows | Enclave/sqlite/btree.c:6319-6342 | A chunk on the last page makes the chain hold that much more |
| OverflowChain.ChainPatched | Enclave/sqlite/btree.c:4467-4490 | Writing into one page of a chain is writing into the payload at the corresponding place |
| PayloadCursor.BtCursor.AccessPayload | Enclave/sqlite/btree.c:4517-4700 | For every offset, length and cache state: the cache is overrun if and only if the 32-bit sum under nOvfl wraps (payload size less local part plus usable size less 5 reaches 2^32), the range goes beyond the cell, and the chain is entered; otherwise, on a stored payload a read gives exactly the requested bytes and a write stores them; on a chain that breaks off it is OK if and only if the range lies before the break, and what was moved up to there is right; a read changes no page; a cell that leaves its page is CORRUPT; the cache keeps agreeing with the chain |
| PayloadCursor.BtCursor.Enter | Enclave/sqlite/btree.c:4569-4606 | The cache is sized by the 32-bit nOvfl and cleared on first use; a known page is jumped to directly, at the same place of the payload; the look into the cache is out of bounds exactly if it was made with a sum that wrapped |
| PayloadCursor.BtCursor.FollowChain | Enclave/sqlite/btree.c:4608-4699 | The walk terminates on any bytes; it stays within the cache if and only if nOvfl did not wrap or there is no first page; CORRUPT exactly when the chain ends too early |
| PayloadCursor.CountIs | Enclave/sqlite/btree.c:4582 | nOvfl in 32 bits is the number of overflow pages of the cell, or 0 exactly if the sum wraps |
| PayloadCursor.WrappingCell | Enclave/sqlite/btree.c:4582 | A cell of 6 bytes on pages of 512: its payload size is 2^32-1, nOvfl is 0, and it needs more than 8 million pages |
| PayloadCursor.ShortIsCounted | Enclave/sqlite/btree.c:4582 | No payload below 2^31 bytes wraps: the limit on the length of values, which the callers check before they read, is below that |
| PayloadCursor.BtCursor.PassPage | Enclave/sqlite/btree.c:4616-4630 | The successor found in the cache is the one in the page |
| PayloadCursor.BtCursor.UsePage | Enclave/sqlite/btree.c:4631-4691 | Bytes are moved between the buffer and the right place of the page, whose link is kept; it fails exactly if the page is not in the file |
| PayloadCursor.BtCursor.UseCell | Enclave/sqlite/btree.c:4553-4565 | The part of the range in the cell is moved, and the header is never written over |
| PayloadCursor.Passed | Enclave/sqlite/btree.c:4623-4629 | Cache and chain agree at every page that is passed |
| PayloadAccess.HoldsReaches | Enclave/sqlite/btree.c:4517-4700 | What fillInCell stores is a chain that goes all the way |
| PayloadAccess.PayloadPatchParsed | Enclave/sqlite/btree.c:4553-4565 | Overwriting payload in a cell changes nothing that the parser reads |
| PayloadCursor.StoreThenRead | Enclave/sqlite/btree.c:6179-6346 | Round trip: a payload stored by fillInCell is read back exactly, by any sequence of ranges through one cursor |
| Freelist.Db.Allocate | Enclave/sqlite/btree.c:5639-5947 | On a freelist without repeats whose count is right: exactly the returned page leaves the list; pages outside the list, all words of the header but the first trunk and the count, and the size of the database stay; EXACT returns nearby whenever it is free; LE returns the first page of at most nearby that the list has, trunk before leaves, and CORRUPT exactly when there is none; without a search it is the leaf of the first trunk that is closest to nearby (ClosestLeaf), or that trunk if it has no leaves; on any bytes the page is within the file; with no free page a new one is appended, and the only old word that changes is the recorded size |
| Freelist.Db.Search | Enclave/sqlite/btree.c:5704-5879 | The search visits every trunk before it fails, and then no page of the list suits |
| Freelist.Db.Visit | Enclave/sqlite/btree.c:5731-5876 | On one trunk: a suitable trunk or leaf is taken, or none there suits and nothing changed |
| Freelist.Db.TakeTrunk | Enclave/sqlite/btree.c:5751-5809 | A trunk in the middle of the list is taken: its first leaf takes over its other leaves and its place, or it is skipped |
| Freelist.Db.ClosestLeaf | Enclave/sqlite/btree.c:5818-5842 | LE: the first leaf that is at most nearby, if one is.  Otherwise, for page numbers below 2^31, the first of the leaves at the least distance |leaf - nearby|; the first leaf if nearby is 0 |
| Freelist.SecondIsCloser | Enclave/sqlite/btree.c:5829-5838 | Of the leaves 100 and 6, page 6 is taken near page 5 |
| Freelist.Db.TakeLeaf | Enclave/sqlite/btree.c:5855-5864 | The last leaf fills the place of the one taken |
| Freelist.Db.Append | Enclave/sqlite/btree.c:5899-5937 | The new page is the first behind the end that is neither the pending-byte page nor a pointer map; page 1 records the size, and no other page or word changes |
| Freelist.Db.FreePage | Enclave/sqlite/btree.c:5961-6088 | A page that is not in the list joins it, and nothing else: the count is right, no page is there twice; it is the last leaf of the first trunk if that has fewer than usable/4-8 leaves, otherwise the first trunk; pages outside the list and all words of the header but the first trunk and the count stay; the page holds zeros behind the words of the list if it is to be overwritten, and what it held before otherwise; a page below 2 is CORRUPT and changes nothing |
| Freelist.Db.AddLeaf | Enclave/sqlite/btree.c:6029-6052 | Room on the first trunk: the page becomes its last leaf |
| Freelist.Db.AddTrunk | Enclave/sqlite/btree.c:6069-6079 | Otherwise the page becomes the first trunk |
| Freelist.JoinedIsCompatible | Enclave/sqlite/btree.c:6011-6029 | No trunk ever gets more than usable/4-8 leaves, so that older versions can read the list, and a new trunk is begun only if the first has no room |
| Freelist.NoMapBehind | Enclave/sqlite/btree.c:5907-5923 | One step beyond a pointer-map page, and beyond the pending byte, no second pointer map can follow |
| Freelist.FewFree | Enclave/sqlite/btree.c:5660-5664 | A freelist without repeats is shorter than the database, so a right count is never CORRUPT |
| FreelistChain.TrunkTaken | Enclave/sqlite/btree.c:5764-5772 | Unlinking a trunk without leaves anywhere in the chain removes exactly that page |
| FreelistChain.TrunkReplaced | Enclave/sqlite/btree.c:5779-5808 | Promoting the first leaf removes exactly the trunk |
| FreelistChain.LeafTaken | Enclave/sqlite/btree.c:5861-5864 | Removing a leaf removes exactly that page |
| FreelistChain.LeafAdded | Enclave/sqlite/btree.c:6050-6052 | Adding a leaf adds exactly that page |
| FreelistChain.TrunkAdded | Enclave/sqlite/btree.c:6076-6078 | Adding a trunk adds exactly that page |
| PtrMap.FinalDbSize | Enclave/sqlite/btree.c:3649-3665 | For every free count that the header can hold, and databases ending anywhere, before or behind the pending-byte page: the result is at most nOrig, which the callers take for sound, if and only if that many pages can be freed or the count slips through 32 bits; in the first case the pages up to the result hold exactly the data pages that stay; a result of at most nOrig is always a page of data |
| PtrMap.GuessIsRight | Enclave/sqlite/btree.c:3654-3659 | The closed formula has room for exactly the pages that stay, whether or not the pending byte is crossed |
| PtrMap.TestIs | Enclave/sqlite/btree.c:3655-3659 | Before the loop already: the 32-bit value is positive and not behind the last page of data if and only if that many pages can be freed or the count slips through, and never both |
| PtrMap.HugeCount | Enclave/sqlite/btree.c:3655-3659 | For free counts of 2^31 and more: which of them lead back to a page not behind the last page of data, as arithmetic on nOrig, nFree and the number of pointer maps as computed in 32 bits |
| PtrMap.Guess32IsGuess | Enclave/sqlite/btree.c:3655-3659 | For free counts below 2^31 the two 32-bit assignments give the value of the formula in integers, or one behind the database where that is not positive, and no count slips through |
| PtrMap.Compare | Enclave/sqlite/btree.c:3660-3662 | A size has no more data pages than the database exactly if it is no larger, or one or two pages larger without a page of data in between |
| PtrMap.MapPlace | Enclave/sqlite/btree.c:899-911 | A page is a pointer map exactly if a group begins there, shifted by one at the pending byte |
| PtrMap.SizeIsUnique | Enclave/sqlite/btree.c:3660-3662 | No other size ending in a data page has the same room: there is no spare page |
| PtrMap.HugeFreeCountEscapes | Enclave/sqlite/btree.c:3741-3742 | Two counts that slip through: one 10000000 below 2^32, which ends in the middle of the database, and the largest of all, for a database that ends before the pending-byte page |
| SharedCacheBtree.BtShared.QuerySharedCacheTableLock | Enclave/sqlite/btree.c:247-298 | LOCKED exactly when refused by the writer's exclusive hold or by a lock of another connection; BTS_PENDING is set afterwards exactly if it was before, or a write lock on the table was asked for and another connection has a read lock there |
| SharedCacheBtree.BtShared.SetSharedCacheTableLock | Enclave/sqlite/btree.c:319-371 | The lock is added at the front, or an own lock on the table is raised, never lowered |
| SharedCacheBtree.BtShared.ClearAllSharedCacheTableLocks | Enclave/sqlite/btree.c:383-422 | All locks of the connection go, in place in the list, and all others stay in order |
| SharedCacheBtree.BtShared.DowngradeAllSharedCacheTableLocks | Enclave/sqlite/btree.c:427-438 | Only the writer's call changes anything: all locks become read locks |
| SharedCacheBtree.BtShared.BeginTrans | Enclave/sqlite/btree.c:3207-3345 | OK exactly when the wanted transaction is then open; a refusal changes nothing; all invariants are kept |
| SharedCacheBtree.BtShared.CommitPhaseTwo | Enclave/sqlite/btree.c:3885-3912 | The commit ends the transaction, or on a pager error without bCleanup changes nothing |
| SharedCacheBtree.BtShared.Rollback | Enclave/sqlite/btree.c:3997-4043 | Rolling back ends the transaction as a commit does |
| SharedCacheBtree.BtShared.EndTransaction | Enclave/sqlite/btree.c:3823-3857 | The transaction count and the locks after the end of a transaction, with or without other readers |
| SharedCacheBtree.BtShared.LockTable | Enclave/sqlite/btree.c:9700-9716 | The lock is taken exactly when it is not refused, and keeps all invariants; a write lock on a table that another connection has locked is refused and sets BTS_PENDING; a refused read lock changes nothing |
| SharedCache.TestIsExact | Enclave/sqlite/btree.c:277-288 | The simplified test eLock!=eLock finds exactly the conflicting locks |
| SharedCache.LockKeeps | Enclave/sqlite/btree.c:319-371 | A lock that was not refused conflicts with none |
| SharedCache.StartKeeps | Enclave/sqlite/btree.c:3292-3329 | A transaction that was not refused keeps single writer, exclusiveness, lock ownership and counts |
| SharedCache.EndKeeps | Enclave/sqlite/btree.c:3837-3854 | Ending a transaction keeps them, and BTS_PENDING goes with the last reader |
| SharedCache.DowngradeKeeps | Enclave/sqlite/btree.c:3831-3836 | Downgrading keeps them |
| SharedCache.RunSafe | Enclave/sqlite/btree.c:247-438 | In every state of every run of any number of connections: only pWriter holds write locks, no two connections hold conflicting locks, nTransaction counts the open transactions, an exclusive transaction is alone, and BTS_PENDING is set only while the writer has someone to wait for |
| SharedCache.PendingDrains | Enclave/sqlite/btree.c:3236-3253 | Over any stretch of a run in which BTS_PENDING stays set, nTransaction does not grow |
| SharedCache.WriterWaits | Enclave/sqlite/btree.c:283-295 | In every run: a write lock asked for by the writer meets another connection's lock on the table and sets BTS_PENDING, and only that changes, or it is granted |
| SharedCache.ReaderLeavesNoTrace | Enclave/sqlite/btree.c:247-298 | In every run: a read lock is granted, or it is refused because of another's write lock or exclusive transaction and nothing changes |
| SharedCache.NoReaderGetsIn | Enclave/sqlite/btree.c:3236-3253 | From the step in which the writer's request meets another's lock until it ends or downgrades its transaction or is the only one left: BTS_PENDING stays set, no connection without a transaction gets one, and nTransaction does not grow |
| SharedCache.AloneIsServed | Enclave/sqlite/btree.c:247-298 | A writer that is the only one left is refused no lock |
| SharedCache.ThirdMustWait | Enclave/sqlite/btree.c:283-295 | A run in which a third connection asks for a transaction while the first waits for the second to stop reading: it gets none |
| SharedCacheEffects.BeginEffect | Enclave/sqlite/btree.c:3207-3329 | In terms of the other connections: a transaction is refused exactly if a writer is waited for, another writes and this one wants to write or that one is exclusive, anyone else is active and this one wants to be exclusive, or the schema is being written; otherwise exactly this transaction, its lock on the schema and the writer's flags change |
| SharedCacheEffects.FinishEffect | Enclave/sqlite/btree.c:3823-3857 | The transaction and the locks of the connection are gone, or have become reading ones; all else stays, but for BTS_PENDING if it was the writer or left the writer alone |
| CoverageHeap.Insert | Enclave/sqlite/btree.c:9154-9163 | The array stays a min-heap with one more entry |
| CoverageHeap.Pull | Enclave/sqlite/btree.c:9164-9181 | The least entry is returned and exactly it leaves the heap; 0 exactly when it is empty; the sentinel past the end makes the read of the second daughter safe |
| CoverageHeap.RootIsLeast | Enclave/sqlite/btree.c:9164-9168 | The first entry of a heap is the least |
| CoveragePage.CheckCoverage | Enclave/sqlite/btree.c:9245-9436 | For any bytes of a page, corrupt or not: CORRUPT exactly if btreeInitPage refuses the page, SKIPPED exactly if some cell leaves the page, OVERRUN exactly if cells and free blocks are pageSize/4 or more, the words of the heap; otherwise multiple uses are reported exactly if two spans overlap or one begins before the content area, and the byte named has two uses, and else fragmentation exactly if the stored count differs from the number of bytes in no span |
| CoveragePage.InitFree | Enclave/sqlite/btree.c:1866-1908 | The walk of btreeInitPage over the free blocks ends on any bytes, accepts exactly the pages whose list is in order, more than 3 bytes apart and within the page and its free bytes, and then has their sum in 16 bits |
| CoveragePage.SameWalk | Enclave/sqlite/btree.c:1882-1890 | The bytes of a page fix its list of free blocks: two lists that they spell out agree as far as both go |
| CoveragePage.AddCells | Enclave/sqlite/btree.c:9341-9355 | The cells go into the heap, all of them, and stay within it if and only if there are fewer than it has words |
| CoveragePage.AddFreeBlocks | Enclave/sqlite/btree.c:9382-9399 | Along the list on the page exactly the free blocks are added, and stay within the heap if and only if they and what is in it are fewer than its words |
| CoveragePage.RoomForAll | Enclave/sqlite/btree.c:9382-9388 | If no free block is shorter than 4 bytes, which freeSpace and pageFindSlot keep, the heap has room for all cells and free blocks |
| CoveragePage.TidyIsAccepted | Enclave/sqlite/btree.c:9366-9436 | A page as the space allocator leaves it is let through, all its free blocks have 4 bytes, no byte has two uses and the fragments are as stored: the check reports nothing |
| CoveragePage.CrowdedOverruns | Enclave/sqlite/btree.c:9502 | A page of 512 bytes that is let through with cells in range: 84 cell pointers to one cell and 67 free blocks of 1 byte are 151 entries for 128 words |
| Coverage.Sweep | Enclave/sqlite/btree.c:9413-9425 | Comparing neighbours in order finds an overlap if there is one anywhere; otherwise nFrag is the number of gap bytes; entries of empty free blocks, which end before they begin, count too |
| Coverage.CleanIsCleanEntries | Enclave/sqlite/btree.c:9388-9420 | No overlap among the packed heap entries is no overlap among the spans, empty ones and equal ones included |
| Coverage.SweepStops | Enclave/sqlite/btree.c:9416-9419 | When the sweep stops, the first byte of the entry has two uses |
| Coverage.GapsAreUncovered | Enclave/sqlite/btree.c:9413-9425 | The gaps between entries are the bytes in no span |
| BtMutex.Link | Enclave/sqlite/btree.c:2418-2441 | Linking a Btree in from any sibling puts it at the place of its pBt in the ascending list |
| BtMutex.LinkedSorted | Enclave/sqlite/btree.c:2415-2417 | The list of sharable Btrees stays strictly ascending |
| BtMutex.StepKeeps | Enclave/sqlite/btmutex.c:71-152 | Every step of every connection, including each single release and acquisition inside btreeLockCarefully, keeps ownership, order and the place in the protocol |
| BtMutex.WaitsAbove | Enclave/sqlite/btmutex.c:118-136 | A connection waits only for a mutex above all those it holds |
| BtMutex.NoWaitCycle | Enclave/sqlite/btmutex.c:118-136 | No set of connections waits in a circle |
| BtMutex.RunNeverStuck | Enclave/sqlite/btmutex.c:71-152 | In every reachable state with a blocked connection, some connection that holds a mutex is not blocked |
| BtMutex.RunSafe | Enclave/sqlite/btmutex.c:93-151 | After each Enter or Leave a sharable Btree is locked exactly when wantToLock > 0, and its connection owns the mutex exactly then |
| BtMutex.EnterCounts | Enclave/sqlite/btmutex.c:94-137 | Enter returns with the count of its Btree one higher and all others as they were, whatever had to be released and taken again meanwhile |
| VmeRuns.RunRefinesMap | Enclave/vmem.c:175-473 | Over every run of reads, writes, pins and unpins since a reset, the bytes of each page, warm or cold, are those last written, or zeros |
| VmeRuns.ReadAfterWrite | Enclave/vmem.c:396-473 | A page written since the reset is always read, with its latest bytes; a page never written reads as zeros, except that it fails exactly when every frame is full and stuck and the page was never stored |
| VmeRuns.PinnedUntilDown | Enclave/vmem.c:336-348 | A page keeps the slot that page_up gave it until its page_down, and the slot shows its latest bytes |
| VmeRuns.UpPins | Enclave/vmem.c:336-344 | page_up of a page that is not refused gives a slot in range that no other page has |
| VmeRuns.DeliveredIs | Enclave/vmem.c:430-473 | Exactly when a read succeeds, and what it gives |
| VmeRuns.CopyToKeeps | Enclave/vmem.c:396-428 | A write changes the bytes of its page only, warm or straight to the cold store |
| VmeSpec.RefusedIffAllStuck | Enclave/vmem.c:214-220 | Looking at the rear alone is enough: Enqueue refuses exactly when the queue is full and all its pages are stuck |
| VmeSpec.EvictKeeps | Enclave/vmem.c:175-208 | Eviction changes the bytes of no page |
| VmeSpec.LoadSlots | Enclave/vmem.c:484-498 | The one counter of free slots always gives a slot in range that no page is in |
| VmeSpec.ReferenceKeeps | Enclave/vmem.c:274-308 | A referenced page is at the front and stuck; the stuck pages stay a prefix of the queue |
| VmeSpec.DereferenceKeeps | Enclave/vmem.c:310-334 | A page that is let go is at the rear; order, slots and bytes of the others stay |
| VmeSpec.UsedIsInFront | Enclave/vmem.c:274-308 | A read or write of a page puts it in front of all others and makes it stuck; the others keep their order, and only the last of a full queue makes room for a page that was not there |
| VmeSpec.ReleasedIsLast | Enclave/vmem.c:310-334 | A page that is let go is behind all others, may be evicted, and keeps its slot; nothing else changes |
| VmeSpec.RefusedKeepsQueue | Enclave/vmem.c:406-426 | Without a frame a read changes nothing, and a write goes to the cold store only |
| VmeQueue.Queue.RemoveRear | Enclave/vmem.c:175-207 | The rear node leaves the doubly linked list, also when it is the only one |
| VmeQueue.Queue.LinkFront | Enclave/vmem.c:227-269 | A new node becomes the front, also of an empty list |
| VmeQueue.Queue.MoveToFront | Enclave/vmem.c:283-302 | A node from anywhere behind the front moves to the front, all links right in both directions |
| VmeQueue.Queue.MoveToRear | Enclave/vmem.c:316-331 | A node from anywhere before the rear moves to the rear |
| VmeCache.Cache.Enqueue | Enclave/vmem.c:212-272 | Refuses exactly when all frames are full and stuck; otherwise evicts if full and loads the page, decrypted or zeros |
| VmeCache.Cache.ReferencePage | Enclave/vmem.c:274-308 | The page is brought to the front and stuck, or 0 if refused |
| VmeCache.Cache.DeReferencePage | Enclave/vmem.c:310-334 | The page goes to the rear, not stuck |
| VmeCache.Cache.DeQueue | Enclave/vmem.c:175-208 | The rear page is encrypted and hashed into the cold store and its slot is free again |
| VmeCache.Cache.PageUp | Enclave/vmem.c:336-344 | The slot of the page, pinned; none exactly if refused |
| VmeCache.Cache.PageDown | Enclave/vmem.c:346-348 | The page is unpinned |
| VmeCache.Cache.CopyTo | Enclave/vmem.c:396-428 | Always 0; the page has the new bytes, in its slot or in the cold store |
| VmeCache.Cache.CopyFrom | Enclave/vmem.c:430-473 | 0 and the bytes of the page, or 1 exactly in the case that no hash matches |
| VmeCache.Cache.CachePurge | Enclave/vmem.c:351-354 | All pages are written back: the queue is empty, every page has the bytes it had, and pages that were known still are |
| VmeSpec.DropSame | Enclave/vmem.c:175-208 | Writing the rear page back keeps the bytes of all pages, in any state without two entries of one page or slot |
| VmeCache.Cache.CacheReset | Enclave/vmem.c:356-377 | The cache is as new |
| VmeCache.Cache.GetFreeWarm | Enclave/vmem.c:484-489 | The next slot, or -1 if the counter is at the end |
| Bitvec.Bitvec.TestNotNull | Enclave/sqlite/bitvec.c:130-152 | True exactly for the members of the set, in all three representations, and false out of range |
| Bitvec.Bitvec.Set | Enclave/sqlite/bitvec.c:169-232 | Adds exactly i, whatever the representation and across the rehash |
| Bitvec.Bitvec.SetHash | Enclave/sqlite/bitvec.c:188-231 | A hash leaf takes i, or splits; it splits exactly if i is new and meets another value with half of the slots in use, or all slots but one are; it never becomes full |
| Bitvec.Bitvec.Rehash | Enclave/sqlite/bitvec.c:209-226 | The split node with the re-inserted values holds the same set and i; the recursion ends because the sub-bitmaps are smaller |
| Bitvec.Bitvec.Clear | Enclave/sqlite/bitvec.c:240-272 | Removes exactly i |
| Bitvec.Bitvec.ClearHash | Enclave/sqlite/bitvec.c:254-271 | The rebuilt hash leaf holds all values but i, each where probing finds it |
| Bitvec.Bitvec.Probe | Enclave/sqlite/bitvec.c:145-150 | Probing ends, at the value if it is there, else at an empty slot |
| Bitvec.Covered | Enclave/sqlite/bitvec.c:219 | The sub-bitmaps cover all values with strictly smaller sizes |
| Bitvec.DivisorIsLeast | Enclave/sqlite/bitvec.c:219 | No smaller sub-bitmaps would cover all values |
| Bitvec.NodeSizes | Enclave/sqlite/bitvec.c:39-71 | The parts of a node of 512 bytes |
| BitvecHash.HomesInTurn | Enclave/sqlite/bitvec.c:64-68 | The homes of 1, 2, 3, ... lie one behind the other, and around |
| Bitvec.Apart | Enclave/sqlite/bitvec.c:176-177 | Different values differ in their sub-bitmap or in their place there |
| BitvecHash.EmptySlot | Enclave/sqlite/bitvec.c:146-149 | A leaf with fewer values than slots has an empty slot |
| BitvecHash.Absent | Enclave/sqlite/bitvec.c:146-150 | An empty slot on the way of a value proves that it is nowhere in the leaf |
| BitvecHash.PutProbed | Enclave/sqlite/bitvec.c:201-205 | Putting a value into the first empty slot on its way keeps every value reachable |
| Backup.SqliteBackup.BackupOnePage | Enclave/sqlite/backup.c:227-313 | The destination gets exactly the bytes of the source page, over one or several of its pages or into a part of one, except in its pending-byte page; the size field on the first copy of page 1; no other byte changes; READONLY for an in-memory destination of another page size, and otherwise exactly the error of a destination page that is needed and not skipped |
| Backup.SqliteBackup.Step | Enclave/sqlite/backup.c:348-597 | A step that becomes DONE leaves a file equal to the source outside the pending-byte page and the rewritten header fields, with a schema version one above the old, the change counter and version numbers of the commit, 2 as file format in WAL mode, and otherwise the header of a new database if the source is empty; OK means attached, exactly nPage pages further, with the rest counted; BUSY copies nothing; what is copied stays up to date; neither hides an error of a source page that was read or of the commit |
| Backup.SqliteBackup.CopyPages | Enclave/sqlite/backup.c:421-432 | The loop copies the next nPage pages, or all, and leaves out the pending-byte page; it succeeds only if none of the others fails |
| Backup.SqliteBackup.Finish | Enclave/sqlite/backup.c:448-572 | The commit makes the image the file, for smaller, equal and larger destination pages, with the header fields written, and is DONE only if the pager reports no error |
| Backup.SqliteBackup.WriteTail | Enclave/sqlite/backup.c:537-554 | The source pages inside the destination's pending-byte page reach the file, and it is cut to the size of the source, or an error of one of these pages is returned |
| Backup.SqliteBackup.Update | Enclave/sqlite/backup.c:690-714 | A write to a copied page is copied again, one to a later page is left to the steps: the copy stays up to date |
| Backup.SqliteBackup.Restart | Enclave/sqlite/backup.c:730-736 | After an unknown change nothing counts as copied |
| Backup.Run | Enclave/sqlite/backup.c:227-736 | For any interleaving of steps, page writes, growth, shrinking and external changes, when a step is DONE the file equals the source as it is then, outside the pending-byte page and the rewritten header fields |
| BackupFile.TruncateCovers | Enclave/sqlite/backup.c:480-513 | The assertions on nDestTruncate: positive, and covering the source unless it ends in the pending-byte page |
| BackupFile.TailBegins | Enclave/sqlite/backup.c:531-541 | Before the tail is written, all source pages outside the destination's pending-byte page are in the image |
| BackupFile.LargerMatches | Enclave/sqlite/backup.c:561-562 | With destination pages no larger, the truncated image is the source |
| BackupBytes.BlockPut | Enclave/sqlite/backup.c:285-308 | One turn of the loop sends one block and keeps what was sent |
| BackupBytes.CopyAdds | Enclave/sqlite/backup.c:227-313 | Copying a page, for the first time or again, keeps all other copied pages |
| XxHash64.StreamIsHash | Enclave/xxhash.c:644-784 | For every seed and every way to cut the input: the digest of the state is the one-shot hash of the whole if and only if every piece, together with the bytes buffered before it (the length so far modulo 32), is shorter than 2^31 bytes; otherwise a call writes past the buffer and there is no digest; memsize is the total length modulo 32, and total_len the total modulo 2^64 |
| XxHash64.OneShot | Enclave/xxhash.c:321-398 | The one-shot loops compute the hash as defined by stripes, tail and avalanche |
| XxVectors64.OneByte | Enclave/xxhash.c:321-398 | The digest of "a" with seed 0 that is published for XXH64 |
| XxVectors64.Zeros | Enclave/xxhash.c:321-398 | The digest of 32 zero bytes with seed 0: a stripe and nothing else |
| XxVectors64.Nobody | Enclave/xxhash.c:321-398 | The published digest of "Nobody inspects the spammish repetition": a stripe, a word of four, three bytes |
| XxVectors64.Ishmael | Enclave/xxhash.c:321-398 | The published digest of "Call me Ishmael. Some years ago--never mind how long precisely-": a stripe, three words of eight, one of four, three bytes |
| XxVectors64.Seeded | Enclave/xxhash.c:321-398 | The digest of the same text with the seed of the page cache, 0xaabbacaca (Enclave/vmem.c:198) |
| XxHash64.XxhState.Update | Enclave/xxhash.c:644-706 | One update call of up to 2^32-1 bytes: the buffer is filled, stripes are taken, the rest is kept; it fails exactly if memsize and the length add up to 2^31 or more, where the sum as an int, or the length itself, is negative |
| XxHash64.XxhState.IntermediateDigest | Enclave/xxhash.c:720-784 | The digest is a function of the state, which it does not change |
| XxHash32.StreamIsHash | Enclave/xxhash.c:505-620 | The same for XXH32, with stripes of 16 bytes: hash of the whole if and only if every piece with the bytes buffered before it is shorter than 2^31 bytes |
| XxHash32.OneShot | Enclave/xxhash.c:234-291 | The one-shot loops of XXH32 compute the hash as defined |
| XxVectors32.OneByte | Enclave/xxhash.c:234-291 | The digest of "a" with seed 0 that is published for XXH32 |
| XxVectors32.Nobody | Enclave/xxhash.c:234-291 | The published digest of "Nobody inspects the spammish repetition": two stripes, a word and three bytes |
| XxVectors32.Seeded | Enclave/xxhash.c:234-291 | The digest of the same text with another seed |
| XxHash32.XxhState.Update | Enclave/xxhash.c:505-567 | One update call of XXH32, which fails exactly if memsize and the length add up to 2^31 or more |
| XxHash32.XxhState.IntermediateDigest | Enclave/xxhash.c:581-620 | The digest of XXH32 is a function of the state |
| XxStream.UpdateShows | Enclave/xxhash.c:644-706 | An update leads from a state that shows the data to one that shows the data and the input |
| XxStream.CalledIs | Enclave/xxhash.c:644-661 | With the guard computed in 32-bit ints, one call stays within the buffer if and only if memsize and the length add up to less than 2^31, and then it is the update in integers; otherwise the sum wraps, the branch of the buffer is taken and memcpy writes 2^31 bytes or more behind it |
| XxStream.ShortPieceOverruns | Enclave/xxhash.c:656-661 | One byte and then 2^31-1 bytes: each piece alone is short enough, the second call still writes past the buffer |
| XxStream.CallsAreUpdates | Enclave/xxhash.c:644-717 | A run of update calls from a fresh state stays within the buffer exactly if every piece, together with the total length before it modulo the stripe, is shorter than 2^31 bytes, and then does what the updates do in integers |
| XxStream.StripesSplit | Enclave/xxhash.c:685-692 | Taking stripes in two goes is taking them in one |
| Analyze.Stat4Accum.StatPush | Enclave/sqlite/analyze.c:724-760 | With the right left-most changed column, anEq[i] is the number of rows so far that share the current prefix of i+1 columns, and anDLt[i]+1 the number of different ones |
| AnalyzeRows.PushKeeps | Enclave/sqlite/analyze.c:749-758 | The counters as updated are the counts over the longer sorted sequence, in all columns at once |
| AnalyzeRows.NewPrefix | Enclave/sqlite/analyze.c:752-757 | In sorted rows a changed prefix is new: no earlier row has it |
| Analyze.Stat4Accum.StatGet | Enclave/sqlite/analyze.c:869-890 | The text is the number of rows and the rounded-up rows per distinct prefix |
| Analyze.StatIsRead | Enclave/sqlite/analyze.c:864-867 | From rows to text and back: the reader gets the row count and, per key column, the least whole number that times the distinct prefixes covers all rows |
| Analyze.RoundTrip | Enclave/sqlite/analyze.c:1430-1463 | Numbers printed with single blanks are read back, as many as there are |
| Analyze.NumberOfDecimal | Enclave/sqlite/analyze.c:869-890 | The decimal text of a number stands for exactly that number; its contract has no leading zero |
| Analyze.DecodeIntArray | Enclave/sqlite/analyze.c:1447-1463 | The estimates of the first nOut numbers of any text |
| Analyze.ReadNumber | Enclave/sqlite/analyze.c:1448-1452 | The digits at the front, in 32 bits |
| Analyze.CeilDivIsLeast | Enclave/sqlite/analyze.c:881-882 | (K+D-1)/D is the least number of rows per value that is not too small |

## Left out

- Encryption: AES in counter mode is a pair of inverse functions, the page hash a function that is never 0; that different pages share one counter is not looked at.
- The VME variants without WARM_CACHE, WARM_FETCH or COLD_HASH, the CPY mode, and partial or unaligned accesses; page 0 lives in `zero_page` only and page_up is for pages from 1 on.
- The endless loop after a hash mismatch in Enqueue (`Enclave/vmem.c:246-249`): in every reachable state the hashes match, which is part of the invariant.
- VmeCache.Cache.ReferencePage: the parameter page_up is 1 at every call, so the case 0 is not modelled.
- VmeCache.Cache.PageUp: the source falls off the end without a value when there is no frame; the model returns None.
- VmeCache.Cache.DeReferencePage: only of resident pages; for others the source goes on with a null pointer after a message.
- malloc failure everywhere; journals, sync, the busy handler and everything else inside the pager, which is a map of pages whose failures are fatal errors.
- PageAllocator.MemPage.FreeSpace: on well-formed pages; of pages that are not, nothing is promised, and the same holds for FindSlot, DefragmentPage and AllocateSpace.
- BalanceDistribute.Distribute: cell sizes are given; computing and caching them, and gathering cells and dividers from the pages, is left out, as are the pages' parent and pointer-map updates.
- CellFormat.ParseCell: cells of interior table pages, which have no payload (`Enclave/sqlite/btree.c:1079-1095`), are left out.
- BalanceRewrite.EditPage: a page is the map of its cells; the bytes of one page are the subject of PageEdit.EditPage, and the two are not joined into one proof over the bytes of all siblings.
- PageEdit.EditPage: for pages other than page 1, as the source asserts (`Enclave/sqlite/btree.c:6641`); the overflow list of the page is a parameter, and cell sizes are known rather than computed when needed; of pages that are not well-formed nothing is promised.
- PayloadWrite.FillInCell: the pages that allocateBtreePage would hand out are a parameter, so pointer-map entries of overflow pages are left out.
- PayloadCursor.BtCursor.AccessPayload: without the auto-vacuum guess of the next overflow page and without direct overflow reads; a page outside the file is an error, and a link that lies behind the end of the page reads as 0.
- PayloadCursor.BtCursor: moving a cursor to another row, which invalidates its cache, is a new cursor here; the room for entries that an earlier row left in aOverflow is left out with it, and so is the failure of its allocation.
- Freelist.Db.ClosestLeaf: distances are stated for page numbers below 2^31; beyond, where the difference wraps in 32 bits, only that some leaf is chosen.
- Freelist.Db.Allocate: what the pointer map says about `nearby` is a parameter that is right when the map is; writing pointer-map entries, page contents of reused leaves and the has-content bit vector are left out.
- PtrMap.FinalDbSize: for databases of fewer than 2^31 pages, the hard limit of the source (`Enclave/sqlite/backup.c:778`); the free count is any that 32 bits hold.
- SharedCache: connections are sharable; read-uncommitted mode and the schema lock check are left out, and so is the busy handler.
- BtMutex: a state machine over single mutex operations rather than linked Btree objects, since what matters is their interleaving; non-sharable Btrees, which take no mutex, and the connection mutex are left out; btreeEnterAll and btreeLeaveAll are runs of Enter and Leave.
- Bitvec.Bitvec.Set: the source's loop down the sub-bitmaps is a recursion, and the members of the union are separate fields; the same for Clear.
- CoveragePage.CheckCoverage: the size of a cell is any function of the bytes from its start; the page flags, the optional cell size check of btreeInitPage (`Enclave/sqlite/btree.c:1845-1864`), the limit on the number of messages and the other checks of checkTreePage are left out; the cells of a leaf, which the source puts into the heap while it checks them, are put in afterwards.
- Backup.SqliteBackup.Step: the page sizes are those in force once the destination is locked (setDestPgsz has done what it could); codecs, journalling of pages to be cut, transactions that only protect reading, and the destination schema cache are left out.
- Backup.SqliteBackup.Finish: the finishing part succeeds or fails as a whole with a fatal error; the page that sqlite3BtreeNewDb writes for an empty source and the change counters are parameters.
- Backup.Run: one backup of a source; several backups of one source get the same calls one after the other. A page that the source's pager cannot read is passed over by the step (`Enclave/sqlite/backup.c:424-431`), so that error has to be fatal, which is assumed of all pager errors as the source itself asserts (`Enclave/sqlite/backup.c:708`).
- XxHash64.OneShot: inputs below 2^32 bytes, the range of its length parameter; XxHash32.OneShot likewise; both read little-endian.
- XxHash64.StreamIsHash: behind 2^64 bytes in all the total length starts again from 0; the equivalence is then stated as long as the remainder is a stripe or more, since a shorter one makes the digest take the way of short inputs; XxHash32.StreamIsHash likewise.
- PayloadCursor.BtCursor.AccessPayload: after an access outside of the cache, for which the language gives no result, nothing is promised about the buffer or the pages.
- Analyze.Stat4Accum.StatPush: fewer than 2^32 rows, the range of the counters; STAT3 and STAT4 sampling, the keywords behind the numbers, and the program that scans the index are left out.
- Cursors, record comparison, SQL code generation, the enclave's entry points and the benchmark drivers.
