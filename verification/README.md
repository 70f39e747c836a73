# CrimsonOS kernel: verified models

Dafny models of the algorithmic parts of the CrimsonOS kernel, with proofs of what they keep. Each module follows one
source file. State that the C code updates in place is a class or an array here; the methods are proved against
functions on plain values, and the theorems are about those functions.

| files | what they model |
|---|---|
| `Words`, `Pmm` | the physical page bitmap (`mm.c`) as a set of free pages |
| `Bits`, `PageTables`, `TableShapes`, `Vmm` | the four-level page tables (`mm.c`) as a partial map from 48-bit pages to entries, the tables present and what a mapping costs, with tables taken from `Pmm` |
| `HeapSpec`, `Heap` | `kmalloc` and `kfree` (`mm.c`) as a tiling of memory areas by blocks, growing from `Pmm` |
| `Blocks`, `Layout`, `Crfs`, `FileBytes`, `CrfsFiles` | the CrimsonFS block map as an array of addresses, and file reads and writes as byte sequences (`crfs.c`) |
| `Crc` | the CRC loops of `crfs.c` and `firmware.c` |
| `Mlfq`, `Sched`, `SchedSystem` | the scheduling policy on sequences, the linked run queues of one CPU, and all CPUs with their wait queues (`sched.c`) |
| `Congestion`, `TcpSpec`, `Tcp` | the congestion window, the TCP receive path over all runs, and the socket with its ring buffer (`net.c`) |
| `Checksum` | the internet checksum (`net.c`) |
| `DnsSpec`, `Dns` | the DNS query builder and response walker (`net.c`) |
| `GcmSpec`, `Gcm` | AES-GCM around an abstract block cipher and field multiplication (`crypto_stub.c`) |
| `Arith`, `Wrappers` | facts about products and remainders; optional values |
| `Blend`, `Compositor` | the alpha blend and the layer compositor (`display_pipeline.c`) |
| `Line` | Bresenham's line (`gui_graphics.c`) |
| `Processes` | process slots and PIDs (`process.c`) |

`dafny verify dfyconfig.toml` checks everything. Lemmas carry `{:induction false}`: each is proved by its body alone.

## How the state is modelled

- Spin-locked regions are atomic steps. Devices, clocks, the network and the cipher are parameters or plain values:
  physical memory holds tables of 512 words, the block device is a map from addresses to 4096 bytes, the network
  delivers any piece of the peer's stream any number of times in any order, and `kmalloc` in other subsystems is the
  value it returns.
- Sharing is excluded by ghost roles: every page table records its path from the root, every file block its place in
  the inode. One table or block then cannot have two places, and a fresh page or block has none.
- Widths are explicit: 64-bit sizes in the heap, 32-bit sequence numbers, windows, pixels and layer positions, 16-bit
  lengths in DNS. Elsewhere the proofs show that nothing leaves its range.

## Where the code departs from what it says

These are properties of the code as it is; each is stated by the member named.

- `kmalloc` is documented as best-fit (SUBSYSTEMS.md:17) but takes the first fit (`Heap.KernelHeap.Kmalloc`). Payloads
  are aligned to 8 bytes, not to the 16 that sizes are rounded to: the first of a fresh heap is not, and a split makes
  one of the two payloads misaligned (`HeapSpec.PayloadAlignment`, `HeapSpec.AlignmentAlternates`).
- After the heap has grown, `kfree` can absorb a block that lies elsewhere (`HeapSpec.GrowthThenFree`).
- A request above 2^64 - 16 rounds to 0 and gets any free block (`HeapSpec.AlignUp16Enough`); a request that rounds to
  2^64 - 16 takes every free page before it fails (`Heap.KernelHeap.Kmalloc`).
- A failed `vmm_alloc_pages` unmaps pages that were mapped before the call (`Vmm.MappingLost`); when it does is told
  by the free pages and tables before the call (`Vmm.AddressSpace.AllocPages`). Of its pages only that of the round
  that failed is given back; those of the rounds undone are lost.
- `crfs_write` ignores a failed assignment of its new block. With a block left for it but not for the pointer blocks it
  needs, the last round is lost and the full count is returned (`CrfsFiles.LostWrite`, and exactly when in
  `CrfsFiles.Write`). What is written behind the largest file is lost as well (`FileBytes.ReadsBackExactly`).
- `pmm_alloc_n` for more pages than are managed can hand out pages that do not exist (`Pmm.PagesThatDoNotExist`).
- Rewriting the start of a block's content zeroes the rest of that block (`FileBytes.OverlayExactly`).
- A FIN is counted whatever its sequence number, so one that arrives early ends the input and the rest of the stream
  is lost (`TcpSpec.EarlyFinLosesStream`, and exactly when in `TcpSpec.FinLosesNothingExactly`).
- The acknowledgment that opens a connection loses its payload and its FIN (`TcpSpec.AckOpens`), and it counts as a
  duplicate (`TcpSpec.HandshakeCountsDuplicates`). FIN_WAIT_2 is never reached (`TcpSpec.NeverFinWait2`).
- The acknowledgment of data advertises the window of the last read, more than there is room for
  (`TcpSpec.StaleWindow`).
- A priority boost that is due is put off as long as every turn ends with another task taking over
  (`Mlfq.TickAtTurnEnd`).
- A wait queue is a stack: the last to sleep is the first to be woken (`Mlfq.LastSleeperFirst`).
- A segment whole wraps away is taken for the next (`TcpSpec.WrapBreaksPrefix`, `TcpSpec.SameNumber`).
- A record whose compressed name ends labels with a pointer is misread when its type is below 256
  (`DnsSpec.SkipRecordName`). Its own address is never found (`DnsSpec.MisreadAddress`), and mostly no later one either
  (`DnsSpec.WalkFindsFirstExactly`).
- Blending divides by 256 (`Blend.BlendDarkens`), and the `alpha` field of a layer is not used at all.
- The stack base recorded for a process is not always the pointer that was allocated. It is wrong for the first stack
  taken from a fresh heap and for every second request after that, and such a stack is never freed
  (`Processes.FirstStackMisrecorded`, `Processes.StackAfterRequests`, `Processes.StackNotFreed`).
- `process_exit` yields at its end, and the yield makes the zombie ready again: it is requeued, its slot and PID are
  never freed, and `num_processes` is too low by the number of exits (`Processes.ProcessTable.Exit`). When it is
  dispatched again, the yield returns and `process_exit` panics (process.c:256): with nothing above its level queued,
  a process gets there at once if it is alone in the level, and otherwise after one turn for each process queued before
  it (`Mlfq.YieldReturns`).
- The process table has 1024 slots of which 1023 can be used (`Processes.ProcessTable.Create`).
- The AES-GCM functions do not limit the length. Counters stay distinct for one block more than NIST SP 800-38D
  allows, and repeat beyond that (`GcmSpec.CountersFreshExactly`).

## Model

| member | source | states |
|---|---|---|
| Words.Ctz | mm.c:91 | the lowest set bit of a nonzero bitmap word |
| Words.CtzNot | process.c:422 | the lowest clear bit of a word that is not all ones |
| Pmm.PageAllocator.constructor | mm.c:38-72 | a fresh allocator refines the set of all pages less the bitmap's own pages and the kernel image, which is marked only when the range contains its base; padding bits are set and the count is exact |
| Pmm.PageAllocator.Alloc | mm.c:78-110 | takes the least free page, and fails exactly when no page is free |
| Pmm.PageAllocator.AllocN | mm.c:117-156 | takes the lowest run of n free pages, and fails exactly when there is none |
| Pmm.PageAllocator.FindRun | mm.c:124-137 | the search finds the lowest run, or proves there is none |
| Pmm.PageAllocator.RunAt | mm.c:128-137 | the inner loop answers whether n given bits are all set |
| Pmm.PageAllocator.TakeRun | mm.c:139-147 | exactly the pages of the run leave the free set, and the count drops by n |
| Pmm.PageAllocator.FreePage | mm.c:162-179 | the page joins the free set; freeing a free page is the only way the count comes to exceed the set |
| Pmm.PageAllocator.MarkUsed | mm.c:185-199 | the page leaves the free set and is counted once |
| Pmm.WriteRefines | mm.c:100 | writing one bit changes the represented set by one page and keeps the padding bits |
| Pmm.LowestWord | mm.c:88-96 | the lowest bit of the lowest nonzero word is the least free page, so a bit out of range is met only when nothing is free |
| Pmm.AllZero | mm.c:88-109 | an all-zero bitmap means no free page |
| Pmm.BeyondManaged | mm.c:124-137 | a request for more pages than are managed wraps the bound of the search and counts padding as free: within the bitmap it finds a run at a start if and only if all pages from there on are free |
| Pmm.PagesThatDoNotExist | mm.c:124-150 | an input: with three pages, the last two free, a request for four takes two pages that do not exist and wraps the count |
| PageTables.FlagsKeepFrame | mm.c:444 | a leaf entry holds the mapped frame for every address if and only if the flags stay clear of the address bits, that is below 4096 |
| PageTables.LeafEntryFrame | mm.c:444 | a leaf entry is valid; its frame is that of the page, or-ed with the address bits of the flags |
| PageTables.LeafEntryFlags | mm.c:444 | its low twelve bits are those of the flags with bits 0 and 10, valid and access, set |
| PageTables.IndexDigits | mm.c:407-410 | the four indices, from the root down, are the digits of the page number in base 512 |
| PageTables.TableEntryRoundTrip | mm.c:418-421 | an entry written for a table is its address with the two low bits set, and leads back to it |
| PageTables.IndexOfPage | mm.c:407-410 | the four indices depend on the page number of a 48-bit address alone |
| PageTables.IndexInjective | mm.c:407-410 | different 48-bit pages have different index paths |
| PageTables.LeafWriteFrame | mm.c:444 | storing a leaf changes no walk that ends in another slot |
| PageTables.LinkFrame | mm.c:417-418 | linking a zeroed table changes no walk at all |
| PageTables.LinkKeepsTree | mm.c:414-419 | linking a fresh zeroed table keeps the tables a tree without sharing, and keeps the mapping |
| PageTables.LeafWrite | mm.c:443-444 | storing a valid or a zero leaf updates the partial map at one page and nowhere else |
| PageTables.TranslateAfterMap | mm.c:519-540 | after mapping v to p, every address of v's page translates to p's page plus its offset and every other page as before |
| Vmm.AddressSpace.constructor | mm.c:383-393 | an empty directory maps nothing |
| Vmm.AddressSpace.EnsureTable | mm.c:414-421 | one level: succeeds if and only if the child table is there or a page is free; exactly its path is added to the tables present, one page is used if it was missing, no translation changes and valid entries stay |
| Vmm.AddressSpace.EnsurePath | mm.c:412-441 | three levels: succeeds if and only if the free pages cover the missing tables, and uses exactly that many; no translation changes |
| Vmm.AddressSpace.MapPage | mm.c:402-452 | succeeds if and only if the free pages cover the missing tables; success changes the map at exactly the page of the address, failure changes no translation although tables were added and no page is free then |
| Vmm.AddressSpace.LastTable | mm.c:466-473 | the shared walk reaches the last-level table exactly when every level is present |
| Vmm.AddressSpace.Unmap | mm.c:457-482 | removes exactly one page from the map |
| Vmm.AddressSpace.GetPhys | mm.c:519-540 | translates by the map, 0 for an unmapped page |
| Vmm.AddressSpace.AllocPage | mm.c:494-504 | one round: succeeds if and only if the free pages cover the page and its missing tables; the least free page is mapped, or given back with no translation changed, and then it is the only free page |
| Vmm.AddressSpace.AllocPages | mm.c:491-514 | succeeds if and only if the free pages cover all pages and missing tables, and maps the range to pairwise different pages that were free, using exactly their number; else exactly the rounds that fit complete and are unmapped again, which restores the map if and only if those pages were unmapped before the call; their pages are not given back, and after the failure one page is free, or none when the rounds used up all |
| Vmm.MappingLost | mm.c:496-499 | an input at which a mapping is lost: two pages asked for, the first already mapped, one page free |
| TableShapes.LinkShape | mm.c:414-419 | linking a new table adds exactly its path to the tables present |
| TableShapes.LeafShape | mm.c:444 | storing a leaf changes none of them |
| TableShapes.EmptyRoot | mm.c:383-393 | a zeroed root has no table below it and maps nothing |
| TableShapes.MappedHasTables | mm.c:519-540 | a mapped page has all its tables |
| TableShapes.RoundsUnique | mm.c:491-505 | the number of rounds that complete is the only one whose cost fits while that of one more does not |
| Vmm.AddressSpace.Rollback | mm.c:496-499 | the rollback loop removes exactly the pages of the part done |
| Vmm.MapRangeAt | mm.c:491-511 | what a mapped range means, page by page |
| Vmm.PageNumber | mm.c:498-502 | page i of a range is the i-th behind its first, in 36 bits |
| Vmm.MapRangeRemoved | mm.c:496-499 | removing a range after mapping it leaves the old map without that range |
| Vmm.RemovalHarmless | mm.c:496-499 | that is the old map exactly when the range held no mapping |
| Vmm.PagesDiffer | mm.c:498 | fewer than 2^36 consecutive pages are different pages, even across the wrap of the address |
| Vmm.LinkGrows | mm.c:415-418 | a page just allocated is no table yet, and may become one without touching the others |
| Vmm.GiveBack | mm.c:503-504 | the data page of a failed mapping did not become a table, so freeing it is safe |
| HeapSpec.BlocksApart | mm.c:218-225 | in a tiled heap no two blocks overlap, headers included |
| HeapSpec.SizesAddUp | mm.c:222 | headers and payloads together are exactly the memory of the areas |
| HeapSpec.SplitKeepsTiles | mm.c:257-270 | taking a block, split or whole, keeps the list a tiling of the areas |
| HeapSpec.ReleaseKeepsTiles | mm.c:326-332 | freeing keeps the tiling if and only if the successor absorbed, if any, follows in memory |
| HeapSpec.OneAreaAdjacent | mm.c:329-332 | in one area the successor in the list always follows in memory |
| HeapSpec.TakeAddsOne | mm.c:257-272 | exactly one payload is added, inside the block taken and at least as large as asked; every other payload is unchanged |
| HeapSpec.ReleaseRemovesOne | mm.c:326-332 | exactly one payload is removed |
| HeapSpec.TakeWaste | mm.c:257-270 | a block is split when 40 bytes or more are left, and the rest, right behind, has at least 16; otherwise less than 40 bytes are handed out too many |
| HeapSpec.ReleaseGives | mm.c:326-332 | a freed block stays where it is and takes a free successor with its header in |
| HeapSpec.ReleaseUndoesTake | mm.c:257-332 | freeing a block just taken restores the list if and only if it was split or has no free successor to absorb |
| HeapSpec.KfreeUndoesKmalloc | mm.c:236-338 | the same for kmalloc followed by kfree of its pointer |
| HeapSpec.FreedTwice | mm.c:320-323 | freeing twice is freeing once |
| HeapSpec.LiveApart | mm.c:257-272 | two payloads, and a payload and another block's header, never overlap |
| HeapSpec.AlignUp16Enough | mm.c:241 | rounding up gives at least the request if and only if the request is at most 2^64 - 16; above that it gives 0 |
| HeapSpec.GrowthFits | mm.c:282-301 | the block made by growth fits the retried request, with less than a page too many, unless the page count wraps |
| HeapSpec.ExtendKeepsTiles | mm.c:289-297 | prepending new memory keeps the areas well formed and tiled |
| HeapSpec.TakeKeepsAligned | mm.c:257-270 | addresses and sizes stay multiples of 8 |
| HeapSpec.ReleaseKeepsAligned | mm.c:329-332 | likewise after freeing |
| HeapSpec.RunKeepsTiles | mm.c:236-338 | over every run of kmalloc and kfree in one area: the list tiles it, sizes add up to it, all blocks are 8-byte aligned |
| HeapSpec.RunKeepsLive | mm.c:236-338 | over every such run a payload stays in use, unmoved and with its size, until its own pointer is freed |
| HeapSpec.PayloadKept | mm.c:236-338 | so a pointer returned for a request keeps at least that many bytes over every run that does not free it, and no other payload ever overlaps them |
| HeapSpec.PayloadAlignment | mm.c:272 | a payload is 16-byte aligned if and only if its header is at 8 modulo 16 |
| HeapSpec.AlignmentAlternates | mm.c:259-262 | a split makes exactly one of the two payloads 16-byte aligned |
| HeapSpec.ServedInTurn | mm.c:245-272 | requests to a heap from which nothing was freed are served one behind the other while they fit |
| HeapSpec.GrowthThenFree | mm.c:289-332 | with a second area this fails: freeing the block that growth returned absorbs the old first block, and the tiling survives if and only if the new page ends where the old area begins |
| Heap.LinkedSplit | mm.c:260-270 | the header stores of a split relink the list in memory as the block list says |
| Heap.LinkedMerge | mm.c:329-332 | the header stores of a merge unlink exactly the successor |
| Heap.FramesStayApart | mm.c:283-297 | pages taken from the allocator touch neither an area of the heap nor a page that stays free |
| Heap.KernelHeap.constructor | mm.c:214-229 | one free block tiles the initial range |
| Heap.KernelHeap.Search | mm.c:245-277 | the list walk finds the first fit, or stops at the first block before it that lost its magic number |
| Heap.KernelHeap.Claim | mm.c:257-272 | the block found is split or taken whole, as the specification says |
| Heap.KernelHeap.Grow | mm.c:281-298 | the lowest run of free pages becomes the first block; nothing changes when there is none |
| Heap.KernelHeap.Kmalloc | mm.c:236-302 | a request gets the first fit, else one growth and its block, else NULL with nothing changed; a corrupt block met on the way returns NULL; the recursion ends, though a request near 2^64 takes every free page first |
| Heap.ServedPayload | mm.c:236-302 | what Kmalloc promises, read as payloads: a pointer is 24 bytes into a block that is new among those in use and large enough, and NULL adds none |
| Heap.KernelHeap.Kfree | mm.c:308-338 | frees the block and absorbs a free successor; NULL, a free block and a block without magic number are left alone; the heap stays tiled exactly when nothing distant was absorbed |
| Crc.Compute | crfs.c:997-1007 | the loops compute the CRC of the specification for either polynomial |
| Crc.ShiftInjective | crfs.c:1004 | the shift step is injective when the polynomial's top bit is set |
| Crc.ShiftLinear | crfs.c:1004 | the shift step is linear over exclusive or |
| Crc.FeedIsShifts | crfs.c:1001-1005 | feeding up to 32 bits is one long shift of the packed register |
| Crc.FeedAllIsBits | crfs.c:1001-1005 | the byte loop feeds the bits of the message, low bit first |
| Crc.WindowSeen | crfs.c:997-1007 | different windows of up to 32 bits lead to different registers, whatever stands before and after |
| Crc.BurstOfBits | crfs.c:997-1007 | two different messages of any length whose bits agree outside 32 consecutive positions, at any bit offset, have different checksums |
| Crc.BurstInMessage | crfs.c:997-1007 | in particular when their bytes agree outside four consecutive positions |
| Crc.SumOfStored | crfs.c:997-1007 | a message with its own checksum stored behind it, low byte first, has a checksum that does not depend on the message: 0x48674BC7 and 0x2144DF1C for the two polynomials |
| Crc.SmallSums | crfs.c:997-1007 | the checksum of no byte is 0, and that of one zero byte is 0x527D5351 and 0xD202EF8D |
| Crc.KernelPolynomials | firmware.c:45-55 | the file system's and the firmware loader's polynomial both qualify |
| Crc.TopBitNeeded | crfs.c:1004 | with the top bit clear the shift step merges two registers |
| Blocks.RoundTrip | crfs.c:823 | a block of 512 little-endian addresses reads back as it was written |
| Blocks.PointerBytes | crfs.c:823 | pointer i of a block is its eight bytes from offset 8i on, low byte first |
| Layout.EntryPlaces | crfs.c:812-839 | where each entry is found: 12 direct ones, 512 of the indirect block, and 512 of each first-level block in turn |
| Layout.SetDirect | crfs.c:845-849 | a direct store assigns one entry of the array |
| Layout.AddIndirect | crfs.c:854-860 | adding an empty indirect block changes no entry and keeps all pointer blocks distinct |
| Layout.SetIndirect | crfs.c:861-863 | a store through the indirect block assigns one entry |
| Layout.AddDoubleIndirect | crfs.c:875-881 | adding an empty double-indirect block changes no entry |
| Layout.AddLevel1 | crfs.c:884-891 | adding an empty first-level block changes no entry |
| Layout.SetLevel1 | crfs.c:892-894 | a store through both levels assigns one entry |
| Crfs.FileSystem.constructor | crfs.c:351-393 | the first mount starts behind the five system segments |
| Crfs.FileSystem.AllocSegment | crfs.c:710-724 | takes the first clear segment at or behind next_seg and sets its bit alone |
| Crfs.FileSystem.AllocBlock | crfs.c:726-740 | addresses are nonzero, aligned and strictly increasing, so none is given out twice whatever is freed; failure exactly when no space is left; the segments passed over or taken are marked, and no other bit changes |
| Crfs.FileSystem.FreeBlock | crfs.c:742-748 | clears the bit of the whole segment, which neither lowers the mark nor takes space away |
| Crfs.FileSystem.GetBlock | crfs.c:812-839 | reads the array of 262668 entries, 0 beyond it |
| Crfs.FileSystem.SetBlock | crfs.c:841-900 | success assigns exactly one entry across all three levels and takes exactly the pointer blocks missing on its way; failure changes no entry, and happens exactly when the number is out of range or those blocks do not fit |
| Crfs.MissingIsLack | crfs.c:841-900 | the blocks missing for an entry are those on its way that the inode does not have |
| Crfs.FileSystem.SetThroughIndirect | crfs.c:853-866 | the same for the indirect range |
| Crfs.FileSystem.SetThroughDoubleIndirect | crfs.c:870-897 | the same for the double-indirect range |
| Crfs.FileSystem.EnsureLevels | crfs.c:875-891 | both levels of pointer blocks are there afterwards, or failed exactly when the missing ones do not fit; no entry changes |
| Crfs.FileSystem.EnsureLevel1 | crfs.c:884-891 | a missing first-level block is added without changing an entry |
| FileBytes.BytePlaces | crfs.c:518-532 | byte j of file block b is byte j of the disk block found for it, and 0 in a hole |
| FileBytes.OverlaidTwice | crfs.c:560-589 | consecutive rounds of a write compose to the write of both pieces |
| FileBytes.OverlaidTwiceExactly | crfs.c:560-589 | after a piece is overlaid, the next round overlays its own if and only if both together are |
| FileBytes.LostInHole | crfs.c:584-589 | a piece that does not reach a hole is missing there, unless it consists of zeros |
| FileBytes.ReadsBackExactly | crfs.c:548-606 | an overlaid buffer reads back if and only if what lies behind the largest file is zeros |
| FileBytes.OverlayExactly | crfs.c:569-576 | a write is a plain overlay on every old content if and only if it does not end inside a block that it entered at offset 0 and that held more |
| FileBytes.ContentAfterWrite | crfs.c:548-606 | the write on the file as a byte sequence |
| FileBytes.WriteAllAppends | crfs.c:548-606 | any chunking of appends gives the concatenation |
| FileBytes.ReadAllIsOneRead | crfs.c:500-543 | any sizing of consecutive reads gives one slice |
| FileBytes.ChunkedRoundTrip | crfs.c:500-606 | any chunks written to an empty file come back in any reads that cover it |
| CrfsFiles.PlaceBlock | crfs.c:578-586 | one copy-on-write step with a block left: the new block replaces the old one in the array when the missing pointer blocks fit too, and otherwise the file reads as before; no data block is overwritten |
| CrfsFiles.WriteRound | crfs.c:561-588 | one round overlays its piece, or zeroes the rest of a block entered at its start, when its block and the missing pointer blocks fit; otherwise the piece is lost, which shows if and only if it is not all zeros; the bitmap afterwards is exact: the segment of the block replaced is free, and only segments allocated from are marked |
| CrfsFiles.WriteBlocks | crfs.c:559-589 | when every round finds a block: the whole buffer is overlaid when the range fits, else all but the last round; the blocks taken are counted exactly |
| CrfsFiles.CostNext | crfs.c:561-588 | a range costs its first block, what the path of that lacks, and the rest with that path present |
| CrfsFiles.BudgetStep | crfs.c:559-589 | only the last round can lack room, and it does if and only if the range costs more than there was |
| CrfsFiles.Write | crfs.c:548-606 | every byte of the file afterwards, its size and block count, the handle's offset, and that other blocks keep their bytes: the buffer is overlaid if and only if the range fits or the bytes of its last round are zeros; the count is returned in either case |
| CrfsFiles.LostWrite | crfs.c:578-606 | an input at which a write is lost: one block left, and the first byte behind the direct blocks |
| CrfsFiles.Read | crfs.c:500-543 | exactly the clamped slice, holes as zeros, the rest of the buffer untouched |
| CrfsFiles.OtherFileUnchanged | crfs.c:578-586 | a write leaves every file with other blocks byte for byte as it was |
| Mlfq.RunConserves | sched.c:98-495 | over every run of add, start, tick, yield, sleep, wakeup and boost each task is in as many places as before plus the times it was added |
| Mlfq.RunFromInitial | sched.c:68-495 | from the machine scheduler_init leaves, a task is in exactly as many places as it was added |
| Mlfq.StepConserves | sched.c:98-495 | the same for one step |
| Mlfq.HighWaitsExactly | sched.c:135-204 | with no REALTIME task about, the task at index k of the HIGH queue runs after exactly max(1, remaining slice) + 4k ticks and stays queued until then |
| Mlfq.NormalWaitsExactly | sched.c:135-204 | with nothing above it, the task at index k of the NORMAL queue runs after exactly max(1, remaining slice) + 8k ticks and stays queued until then, across boosts |
| Mlfq.LowWaitsExactly | sched.c:135-204 | the same for LOW with 16k, for waits that end before the next boost |
| Mlfq.IdleWaitsExactly | sched.c:135-204 | the same for IDLE with 32k |
| Mlfq.WaitsExactly | sched.c:135-204 | the four in one: full turns of the level for each task before it |
| Mlfq.YieldRuns | sched.c:209-240 | who runs after a yield, at every level: the first task of the best level with the yielding one back at the end of its own queue, with a full turn |
| Mlfq.YieldReturns | sched.c:209-240 | a task that yields runs again at once when it is alone in its level and nothing is above it, and otherwise after exactly 4, 8, 16 or 32 ticks for each task queued before it |
| Mlfq.OneTickNearer | sched.c:135-204 | each tick brings the task at index k exactly one tick nearer, at every level |
| Mlfq.LowIsPromoted | sched.c:41-41 | a queued LOW task has run or been moved to NORMAL within 201 ticks |
| Mlfq.RealtimeKeepsCpu | sched.c:153-157 | a REALTIME task keeps its CPU over any number of ticks, and no boost happens |
| Mlfq.TickInTurn | sched.c:149-202 | a tick inside a turn takes one from the slice and moves no queue, except that the 200th since the last boost appends LOW to NORMAL |
| Mlfq.TickAtTurnEnd | sched.c:160-202 | a tick that ends a turn dispatches the best task; a boost that is due is put off while another task takes over |
| Mlfq.BoostReachesAll | sched.c:470-495 | a tick changes another CPU exactly when it boosts, and then only its LOW and NORMAL queues |
| Mlfq.DispatchRuns | sched.c:426-453 | the first task of the lowest-numbered level that has one is dispatched, with a full turn |
| Mlfq.AddPlaces | sched.c:245-272 | on any machine a task added goes to the back of its level on the first CPU with the fewest levels marked, and nothing else changes |
| Mlfq.LoadCounts | sched.c:254-260 | that number is how many of the five bits are set |
| Mlfq.StartRuns | sched.c:98-121 | a CPU that starts runs the first task of its best level, with a full turn |
| Mlfq.AddedRunsLast | sched.c:245-272 | a task added goes behind those of its level and runs after exactly their turns |
| Mlfq.SleepRuns | sched.c:317-345 | a sleeping task goes to the front of the wait list, and the best queued one gets a full turn |
| Mlfq.LastSleeperFirst | sched.c:329-330 | waking one task right after one went to sleep wakes that one |
| Mlfq.WakeupEmpties | sched.c:358-377 | waking all empties the wait list, and each level gains its sleepers in list order |
| Mlfq.TickOneIsTick | sched.c:135-204 | the one-CPU tick used there is the tick of the whole machine |
| Mlfq.BestAfterEnqueue | sched.c:405-421 | after requeueing the best level is never lower than the task's own |
| Sched.RunQueue.Enqueue | sched.c:405-421 | the process is appended at its own level's tail, its bit set, every other queue unchanged |
| Sched.RunQueue.DequeueHighest | sched.c:426-453 | ends despite stale bits, and returns the head of the lowest-numbered nonempty queue, or NULL exactly when all are empty |
| Sched.RunQueue.TakeFront | sched.c:445-452 | unlinks the head and resets tail and bit when the queue empties |
| Sched.RunQueue.YieldCpu | sched.c:209-240 | the policy's yield on the linked queues, which `Mlfq.YieldRuns` describes |
| Sched.RunQueue.TickCpu | sched.c:135-204 | the policy's tick on the linked queues, which `Mlfq.TickInTurn` and `Mlfq.WaitsExactly` describe |
| Sched.RunQueue.BoostCpu | sched.c:478-489 | every LOW process moves to the back of NORMAL in order |
| Sched.RunQueue.RunNext | sched.c:175-188 | the chosen process becomes current with a full slice |
| Sched.LowestBitIsBest | sched.c:437 | the lowest bit that is not stale is the best level |
| Sched.StaleBit | sched.c:439-442 | clearing a stale bit changes no queue |
| Sched.RunQueue.constructor | sched.c:78-90 | an empty runqueue |
| SchedSystem.Scheduler.constructor | sched.c:68-90 | all CPUs idle with empty queues: the initial machine |
| SchedSystem.Scheduler.StartOn | sched.c:98-121 | refines the first dispatch of a CPU |
| SchedSystem.Scheduler.TickOn | sched.c:135-204 | refines the policy's tick, with the boost of all CPUs when due |
| SchedSystem.Scheduler.YieldOn | sched.c:209-240 | refines the policy's yield |
| SchedSystem.Scheduler.BoostCpus | sched.c:470-495 | refines the boost of every CPU |
| SchedSystem.Scheduler.PickCpu | sched.c:250-264 | picks the first CPU with the fewest occupied levels by its bitmap |
| SchedSystem.Scheduler.Add | sched.c:245-272 | refines the policy's add |
| SchedSystem.Scheduler.SleepOn | sched.c:317-349 | refines sleeping: the current process is pushed on the wait list and the best queued one runs |
| SchedSystem.Scheduler.WakeOne | sched.c:382-398 | refines waking the front of a wait list |
| SchedSystem.Scheduler.WakeAll | sched.c:358-377 | refines waking the whole list in its order |
| CongestionControl.AvoidanceStaysBelow | net.c:1169 | the increment never carries the window past MSS * MSS + 1 |
| CongestionControl.NewAckExact | net.c:1164-1171 | a new ACK adds 1460, or 1460 * 1460 / cwnd from the threshold on: nothing wraps, the clamp is never taken, and the window grows unless it has passed 1460 * 1460 |
| CongestionControl.RunKeepsBounded | net.c:1156-1225 | over every run of new ACKs, duplicates and timeouts MSS <= cwnd <= MSS * MSS + 1 and the threshold is bounded, so the division is safe |
| CongestionControl.SlowStart | net.c:1164-1166 | below the threshold n ACKs add n segments |
| CongestionControl.TimeoutThenSlowStart | net.c:1220-1225 | after a timeout half the old window is reached after exactly ceil(half / MSS) - 1 ACKs |
| CongestionControl.ThirdDuplicate | net.c:1174-1186 | of n duplicates in a row only the third cuts the window, to max(cwnd / 2, 2 MSS) + 3 MSS |
| CongestionControl.NewAckEndsDuplicates | net.c:1158-1172 | a new ACK resets the duplicates and takes its bytes out of the flight, so that again only the third duplicate counts |
| TcpSpec.SameNumber | net.c:1042 | two stream positions have the same sequence number if and only if they are a whole number of wraps apart |
| TcpSpec.SameNumberSamePosition | net.c:1042 | within one wrap, equal sequence numbers are equal stream positions |
| TcpSpec.AcceptKeepsPrefix | net.c:1040-1055 | taking payload keeps what was delivered and what is buffered a prefix of the peer's stream |
| TcpSpec.RunKeepsPrefix | net.c:1032-1068 | the same over every run of any loss, duplication, reordering and interleaving of tcp_rx, tcp_recv and tcp_close; rcv_nxt is base plus accepted length modulo 2^32 while payload is taken, and one more after a FIN |
| TcpSpec.AcknowledgesHeld | net.c:1040-1067 | the acknowledgment numbers sent for a segment are exactly the byte behind those accepted, when payload was in order, and one more for a FIN |
| TcpSpec.PayloadTaken | net.c:1038-1067 | in the three open states as much of the next payload is taken as the ring has room for, and none of any other; each byte taken and a FIN move the next number by one, and the FIN moves each state to its own successor |
| TcpSpec.PlainReplies | net.c:1052-1060 | replies of an open connection carry neither SYN nor FIN, this side's next number, and the window last computed |
| TcpSpec.AckEffect | net.c:1156-1176 | an acknowledgment larger as a plain number moves snd_una, empties the flight by as much and ends the duplicates; the same one counts as a duplicate; a smaller one does nothing |
| TcpSpec.StaleWindow | net.c:1052-1053 | the window sent with the acknowledgment of data is that of the last read, so it exceeds the room |
| TcpSpec.HandshakeStarts | net.c:992-1030 | the base of a connection is one past the number of the peer's SYN, which the reply, a SYN, acknowledges; the numbers of this side are set as for one byte sent |
| TcpSpec.AckOpens | net.c:1008-1016 | the acknowledgment of the handshake opens the connection; what else it carries is dropped |
| TcpSpec.HandshakeDelivers | net.c:992-1055 | from a listening socket, or one that sent its SYN: the peer's SYN, an ACK, and the whole stream in order is delivered however it was cut |
| TcpSpec.NothingBeforeAck | net.c:992-1030 | without an ACK no connection opens and no byte is accepted, over every run |
| TcpSpec.HandshakeCountsDuplicates | net.c:997-1011 | the ACKs of a handshake count as duplicates, one or two |
| TcpSpec.WrapBreaksPrefix | net.c:1042 | without the bound on a segment's age the claim is false: a stream and a segment one wrap ahead |
| TcpSpec.FinEndsInput | net.c:1057-1067 | a FIN whose payload is not taken moves the state and the next number, whatever its own number is, and leaves the ring alone |
| TcpSpec.NothingAfterEnd | net.c:1032-1086 | after a FIN or a close no byte is accepted any more, over every run |
| TcpSpec.FinLosesNothingExactly | net.c:1040-1067 | a FIN that ends the stream leaves the whole stream accepted, over every later run, if and only if all of it was accepted before or its payload is the next in order and fits the ring |
| TcpSpec.EarlyFinLosesStream | net.c:1057-1067 | an input at which everything is lost: the bare FIN overtakes the data |
| TcpSpec.PassiveClose | net.c:588-1079 | the peer closes first: FIN, tcp_close, ACK lead through CLOSE_WAIT and LAST_ACK to CLOSED, and the FIN sent is marked and numbered as such |
| TcpSpec.ActiveClose | net.c:585-1084 | this side closes first: tcp_close, FIN, ACK lead through FIN_WAIT_1 and CLOSING to TIME_WAIT |
| TcpSpec.NeverFinWait2 | net.c:986-1086 | FIN_WAIT_2 is never reached, over every run |
| TcpSpec.Ignored | net.c:1073-1086 | a connection that is closing or closed ignores everything but the ACK it waits for |
| TcpSpec.InOrderDeliversAll | net.c:544-574 | without loss everything is delivered, however the stream was cut |
| TcpSpec.AdvertisedFits | net.c:557-572 | tcp_recv takes the bytes asked for that are there; the window it advertises is the room in the ring, or 65535 for an empty one |
| Tcp.Socket.Receive | net.c:986-1086 | the state machine on the ring buffer is the one the runs are about, replies included |
| Tcp.Socket.ReceiveOpen | net.c:1032-1068 | the states that take payload |
| Tcp.Socket.StoreBytes | net.c:1046-1050 | the byte loop appends to the ring across its end |
| Tcp.Socket.Read | net.c:544-574 | takes bytes from the front of the ring, reopens the window and acknowledges when something was taken |
| Tcp.Socket.HandleAck | net.c:1156-1187 | tcp_process_ack is the congestion step the bounds are about |
| Tcp.Socket.RetransmitTimeout | net.c:1220-1225 | the timer's step |
| Tcp.Socket.Shutdown | net.c:582-590 | the states tcp_close leaves, with a FIN sent |
| Checksum.FoldRound | net.c:1263-1264 | a folding round makes the sum smaller, keeps it modulo 65535 and never makes it 0 |
| Checksum.ByteWeight | net.c:1250-1260 | a byte at an even offset, a last odd one included, counts once in the word sum, and one at an odd offset 256 times |
| Checksum.ZeroSum | net.c:1250-1260 | zeros sum to 0 |
| Checksum.IpChecksum | net.c:1250-1266 | the loops compute the complement of the representative in 1..65535 of the 32-bit word sum, 0 for 0; odd lengths included |
| Checksum.Accepts | net.c:731-731 | a buffer is accepted exactly when its word sum is a nonzero multiple of 65535 |
| Checksum.StoredChecksumVerifies | net.c:857-860 | storing the checksum in its zeroed field makes the buffer check to 0, for every word sum below 2^32 |
| Checksum.WordChangeDetected | net.c:731-731 | replacing one word is noticed except for exchanging all zeros and all ones |
| DnsSpec.SkipHostName | net.c:906-911 | the name skipper stops at the end of a built name if and only if every label length is 1 to 191, and stops short otherwise |
| DnsSpec.SkipQuestion | net.c:902-913 | so the question skipper lands exactly behind a built question if and only if the labels are readable |
| DnsSpec.QueryReadBack | net.c:1322-1346 | the query in numbers: its ID, flags 0x0100, one question, type 1 and class 1; the skipper ends behind its name, and the name read back is the host asked for if and only if it could be written whole |
| DnsSpec.NameReadBack | net.c:1333-1343 | a readable name comes back as it was if and only if no label is 256 bytes or longer and no dot ends it |
| DnsSpec.SkipRecordName | net.c:921-927 | the name of a record is skipped exactly, unless it ends labels in a pointer and the type is below 256; then the skip is one byte too far |
| DnsSpec.WalkReaches | net.c:916-945 | for any list of answers the records before the first misread one are read right: the walker yields their first A record of class IN, or arrives at that record |
| DnsSpec.MisreadRecord | net.c:921-945 | a record of any other type than 0 with such a name is never taken: the walk goes on where the length read one byte late leads |
| DnsSpec.MisreadAddress | net.c:921-945 | so the address of an A record of class IN with such a name is never found: the walk goes on 1035 bytes and the first address byte behind its name |
| DnsSpec.WalkFindsFirst | net.c:916-945 | for any list of answers without such names the walker yields the first A record of class IN, or nothing |
| DnsSpec.FirstAddressAt | net.c:931-940 | that address: the four bytes of the first record of type 1, class 1 and length 4, the first byte highest |
| DnsSpec.ShortMessage | net.c:929-945 | a misread record leads out of a message of up to 1045 bytes when it has four bytes of data or more (modulo 256), and out of one of up to 533 with two |
| DnsSpec.WalkFindsFirstExactly | net.c:916-945 | when misread records lead out of the message, whatever their types: the walker yields the first A record of class IN if and only if neither it nor a record before it is misread, and nothing otherwise |
| DnsSpec.ResponseResolves | net.c:888-947 | a whole response that repeats the ID and question of a query carries that ID and resolves to what the walk of its answers yields, hence to its first A record of class IN under the same conditions |
| DnsSpec.LabelThenPointerShifts | net.c:921-925 | any number of labels followed by a pointer are skipped one byte too far exactly when the next byte is 0 |
| Dns.BuildQuery | net.c:1322-1346 | the loops write the query of the specification |
| Dns.PutLabels | net.c:1335-1343 | the label loop, for any name, lengths cut to a byte |
| Dns.SkipQuestions | net.c:905-913 | the question loop is the skipper the theorems are about |
| Dns.ReadAnswers | net.c:916-945 | the answer loop is the walker the theorems are about, in bounds |
| Dns.Resolver.Receive | net.c:888-950 | resolves the first waiting query with the response's ID and changes nothing else; no query or error response, no other ID, and no slot unused or resolved before, changes anything |
| Gcm.Inc32 | crypto_stub.c:200-207 | the next counter block, wrapping in 32 bits |
| Gcm.Ghash | crypto_stub.c:180-197 | one streaming call absorbs the zero-padded data |
| Gcm.CtrLoop | crypto_stub.c:244-259 | counter mode from counter 2, also in place; bytes past the length stay |
| Gcm.ComputeTag | crypto_stub.c:239-281 | the tag of the specification, which `GcmSpec.TagMask` describes |
| Gcm.AesGcmEncrypt | crypto_stub.c:221-284 | ciphertext and tag of the specification, which `GcmSpec.DataMask` and `GcmSpec.TagMask` describe |
| Gcm.TagsDiffer | crypto_stub.c:325-328 | the collected difference is 0 exactly for equal tags |
| Gcm.AesGcmDecrypt | crypto_stub.c:286-346 | 0 and the plaintext, or -1 and the output untouched |
| GcmSpec.RoundTrip | crypto_stub.c:221-346 | decryption undoes encryption, and rejects every other tag |
| GcmSpec.TagMask | crypto_stub.c:229-281 | the tag is GHASH, under the encryption of the zero block, masked with the cipher of IV, 0, 0, 0, 1 |
| GcmSpec.DataMask | crypto_stub.c:243-259 | byte k of the data is masked with byte k % 16 of the cipher of counter block 1 + k / 16 behind J0 |
| GcmSpec.CounterLayout | crypto_stub.c:200-207 | a counter block is the IV and the counter, high byte first |
| GcmSpec.MasksFresh | crypto_stub.c:230-281 | so up to 2^32 - 1 blocks no cipher block masks two blocks of data, or data and the tag |
| GcmSpec.HashKeyFresh | crypto_stub.c:224-259 | the block whose cipher is the hash key is a counter block for the zero IV alone, and then only the last of 2^32 - 1 data blocks |
| GcmSpec.AuthenticatedLayout | crypto_stub.c:235-276 | what is authenticated, byte by byte: additional data, zeros, ciphertext, zeros, length block |
| GcmSpec.LengthLayout | crypto_stub.c:265-275 | the two lengths in bits, each in 64 bits with the high byte first |
| GcmSpec.GhashSteps | crypto_stub.c:180-197 | GHASH starts at zero; each block is added and multiplied by the hash key |
| GcmSpec.CtrInvolutive | crypto_stub.c:249-259 | counter mode applied twice is the identity |
| GcmSpec.CountersFreshExactly | crypto_stub.c:244-259 | J0 and the counters of n blocks are distinct if and only if n <= 2^32 - 1 |
| GcmSpec.StreamingIsOneGhash | crypto_stub.c:239-276 | the three streaming calls are one GHASH over padded data, padded ciphertext and the length block |
| GcmSpec.AuthenticatedInjective | crypto_stub.c:262-276 | padding and lengths lose nothing: below 2^61 bytes different inputs are authenticated as different strings |
| GcmSpec.TamperedTakenOnCollision | crypto_stub.c:302-328 | a changed message under the old tag is accepted exactly when its GHASH collides |
| Blend.OverIsPerChannel | display_pipeline.c:216-227 | between the ends the packed blend is floor((s * sa + d * (255 - sa)) / 256) per channel with no carry between channels, and opaque |
| Blend.OverEnds | display_pipeline.c:219-220 | alpha 0 leaves the pixel below, alpha 255 replaces it |
| Blend.PackedSum | display_pipeline.c:223 | two channels share one 32-bit product without wrapping |
| Blend.BlendDarkens | display_pipeline.c:223-224 | blending a colour with itself makes it one step darker |
| Compositor.ArrangedUnique | display_pipeline.c:235-247 | there is only one arrangement by depth and creation order |
| Compositor.TopmostShows | display_pipeline.c:235-267 | at the frame: where a layer is shown and every other one shown there is of smaller depth, or as deep and created before, its opaque pixel is what the screen shows |
| Compositor.LastShown | display_pipeline.c:249-267 | the last layer shown at a position decides: opaque, its pixel, row (ty - y), column (tx - x); transparent, what is below; else the blend of both by channel |
| Compositor.NothingAbove | display_pipeline.c:249-264 | a layer that is not visible, has no buffer or does not reach the position changes nothing there |
| Compositor.BareScreen | display_pipeline.c:231-233 | where no layer is shown the screen is black |
| Compositor.PixelPosition | display_pipeline.c:264-266 | column tx of row ty is pixel ty * width + tx of the frame |
| Compositor.SortByDepth | display_pipeline.c:235-247 | the insertion sort produces it |
| Compositor.Insert | display_pipeline.c:238-246 | one pass inserts one layer behind those of equal depth |
| Compositor.WrappedOnScreen | display_pipeline.c:255-263 | 32-bit wrap of a position never brings a layer pixel onto the screen or off it |
| Compositor.DrawRow | display_pipeline.c:262-267 | the inner pixel loop |
| Compositor.DrawLayer | display_pipeline.c:254-268 | blends the layer over exactly the screen pixels it covers |
| Compositor.Pipeline.Composite | display_pipeline.c:229-271 | every pixel is the fold, from 0, of the blend over the visible layers covering it in depth order; only drawn layers lose their dirty mark |
| Compositor.Pipeline.CreateLayer | display_pipeline.c:179-199 | the layer's buffer covers its rectangle if and only if the byte count does not wrap |
| Line.DrawLine | gui_graphics.c:332-349 | plots exactly max(dx, dy) + 1 points, each the nearest pixel with halves down; no int32 overflow within the stated reach |
| Line.StepOnTrack | gui_graphics.c:345-347 | the error-term invariant |
| Line.NoOvershoot | gui_graphics.c:344-347 | neither axis passes its end and both arrive together |
| Line.Ends | gui_graphics.c:342-344 | the first point is (x0, y0) and the last (x1, y1) |
| Line.Connected | gui_graphics.c:346-347 | consecutive points are different neighbours, diagonally at most, and never go back |
| Line.HalfPixel | gui_graphics.c:338-347 | every point is within half a pixel of the ideal line |
| Line.Transposed | gui_graphics.c:332-349 | exchanging the axes exchanges the coordinates of every point |
| Processes.SearchesMeet | process.c:82-102 | the two independent first-fit searches always give PID = slot + 1 |
| Processes.PidsUnique | process.c:418-429 | no two processes share a PID |
| Processes.LockstepWrite | process.c:418-440 | writing slot and bit together keeps them in step |
| Processes.ProcessTable.constructor | process.c:55-66 | only PID 0 is reserved, so the last slot can never be used |
| Processes.ProcessTable.AllocPid | process.c:418-428 | the lowest free PID, or -1 exactly when none is free |
| Processes.ProcessTable.Create | process.c:74-208 | the new process takes the first unused slot; every failure exit leaves slots in use, PIDs and count as they were |
| Processes.ProcessTable.Abandon | process.c:128-156 | both out-of-memory exits give the PID back |
| Processes.ProcessTable.Cleanup | process.c:444-471 | slot and PID become free together |
| Processes.ProcessTable.SetState | sched.c:171-344 | the scheduler's changes of state keep slots and PIDs in step, but bring an exited process back to life without counting it |
| Processes.ProcessTable.MarkExited | process.c:223-250 | process_exit makes the process a zombie and counts it off |
| Processes.ProcessTable.Exit | process.c:223-253 | with the yield at its end the process is ready again: it keeps slot and PID, and the count is wrong from then on, by one for each exit |
| Processes.ProcessTable.GetByPid | process.c:360-368 | the process with that PID, or NULL exactly when there is none |
| Processes.StackBaseIsPointer | process.c:128-163 | the recorded stack base is the pointer kmalloc returned if and only if the stack top was 16-byte aligned |
| Processes.StackBaseOfBlock | process.c:128-163 | for a stack of a multiple of 16 bytes: if and only if its block's header is at 8 modulo 16; otherwise the base is 8 bytes too low |
| Processes.StackNotFreed | process.c:449-452 | a base too low is the payload of no block, and kfree refuses it: the stack is never freed |
| Processes.FirstStackMisrecorded | process.c:128-163 | the first stack taken from a fresh heap at a 16-byte aligned start is recorded 8 bytes too low and not freed |
| Processes.StackAfterRequests | process.c:128-163 | after n other requests from such a heap the next stack is recorded rightly if and only if n is odd |

## Left out

- Pmm.PageAllocator.AllocN: `n <= total_pages` is a precondition, and one of Heap.KernelHeap.Kmalloc when no block of its list fits. Beyond it the bound of the search wraps: inside the bitmap Pmm.BeyondManaged says what is found, and behind the bitmap the search reads other memory, which is not modelled.
- Heap.KernelHeap.Kfree: the pointer is NULL or belongs to a block of the list; for another pointer the source looks for a magic number in whatever bytes are there, which is not modelled, except for the pointers of Processes.StackNotFreed.
- Heap.KernelHeap.Grow: the initial heap range and the pages of the page allocator are taken as disjoint, although the linker script and kmain.c give them the same range.
- Vmm.AddressSpace.AllocPages: the free pages after a failure are counted when physical memory does not start at address 0; if it does, page 0 has the address that stands for failure, and only translations are spoken of.
- CrfsFiles.Write: every round finds at least one block. Without one the source ignores the failed allocation and goes on with an address it never set. The range ends below 2^44, where the 32-bit block number wraps.
- Crfs.FileSystem.constructor: the allocator's static variables start at their first-mount values; blocks written under an earlier mount are not covered, and neither are the counters used_segs and free_segs.
- SchedSystem.Scheduler.SleepOn: requires a queued process, because the kernel never sets the idle task that the source would otherwise dereference.
- TcpSpec.RunKeepsPrefix: safety only; that nothing is missing at the end is stated by TcpSpec.HandshakeDelivers, TcpSpec.InOrderDeliversAll and TcpSpec.FinLosesNothingExactly.
- Tcp.Socket.Receive: the segment's header fits its length; a data offset beyond the packet makes the source read past it. The lookup of the socket by port and address, and the keep-alive and TIME_WAIT timers, are not part of this model.
- TcpSpec.AcknowledgesHeld: replies are what is handed to tcp_send_segment, which drops a segment when memory or the peer's hardware address is missing; that is not modelled.
- Line.DrawLine: extents up to 715827882, so that the doubled error fits in 32 bits; clipping and blending in gfx_putpixel are not part of this model.
- Compositor.Pipeline.Composite: layer buffers are values, so a layer buffer that is the frame buffer itself is not covered. The byte count of the screen fits in 32 bits.
- DnsSpec.WalkFindsFirstExactly: a misread record with so little data (modulo 256) that the late length stays inside the message leads into later bytes; DnsSpec.MisreadRecord says where, what the walker finds there is not stated. Neither are misread records of the reserved type 0 or without data.
- Dns.BuildQuery: requires that the packet fits its 512 bytes, which the source does not test.
- Gcm.AesGcmEncrypt: the AES rounds, the key schedule and the polynomial multiplication are uninterpreted functions.
- Processes.ProcessTable.Exit: on one CPU. On another, process_wait may free the slot between the two halves of an exit, and the yield then marks the free slot ready; that interleaving is not modelled.
- Processes.ProcessTable.Cleanup: the freeing of stack, page tables and descriptors is not modelled; the source frees the page directory twice, in vmm_free_all and again in process_cleanup.
- TCP sending: the segments of tcp_send, their retransmission, and that flight_size can exceed the window after it shrinks.
- krealloc and kcalloc: the copying of contents is outside the block-list model.
- CrimsonFS format, mount checks, path walk, inode cache, directories and the empty journal functions.
- scheduler_remove_process, which loses a tail pointer, and the wake-up inside process_kill, which leaves the wait list linked.
- Mutexes, semaphores and barriers: scheduler_yield requeues a caller that has marked itself sleeping.
- The inter-processor interrupt sent by scheduler_add_process, the context switch, and TLB maintenance.
- Fragment reassembly, ARP, ICMP, DHCP and the dotted-decimal shortcut of net_dns_resolve.
- The register and device code, the user interface, and the placeholder cryptography.
