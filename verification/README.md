# Linux 0.12 in Dafny

Proofs about seven subsystems of Linux 0.12. Each relies on an invariant that its code never checks. The
code that changes state in place is modelled by classes and methods over arrays and linked structures; each
method is specified by a function or relation on values, and the theorems are proved about those.

- **Paged memory** (`mm/memory.c`, `mm/swap.c`, `copy_mem`). `VmState` holds the state as a value: page
  directory, page-table entries (absent, present, swapped), physical pages, the reference bytes of
  `mem_map[]`, the swap map and the swap device. `VmSteps` has the atomic changes, each with the lemma that
  it keeps the invariant; `VmRelations` and `VmRoom` what longer operations do, and when memory suffices;
  `VmSweep` the order in which swap_out tries pages. `PagedMemory` is the code on arrays. `PrivateMemory` is
  the specification, one byte map per task, and `TaskMemory` proves that every run of the code is a run of
  it. `VmFaults` exhibits weaknesses on machines just started.
- **Files** (`fs/bitmap.c`, `fs/inode.c`, `fs/truncate.c`, `fs/file_dev.c`). `FsState`: the three-level tree
  of zones over the zone map; `Truncation`: what a pass of truncate leaves; `Minix`: the code.
- **Buffer cache** (`fs/buffer.c`). `CacheSpec` is a state machine in which any process may act at every
  sleep; `BufferLists` and `BufferCache` are the ring, the hash chains and the code between the sleeps.
- **Block queue** (`kernel/blk_drv`). `ElevatorSpec`: queues of keys; `BlockQueue`: the request slots, which
  several drivers share.
- **Tasks, waiting, timers, scheduling** (`kernel/exit.c`, `kernel/fork.c`, `kernel/sched.c`). `TreeSpec` and
  `ProcessTree`, `ProcessAudit`, `ProcessIds`, `WaitQueue`, `TimerSpec` and `Timers`, `Scheduler`.
- **Bucket allocator** (`lib/malloc.c`). `MallocSpec`, `BucketAllocator`.
- **Arithmetic** (`kernel/math`). `Words`, `Floats`, `Multiply`, `Divide`, `Add`, `Convert`, `Stores`,
  `Integers`. The packed formats are those of IEEE 754-1985, sections 3.2.1 and 3.2.2.
- **Argument stack** (`fs/exec.c`). `ArgSpec`, `ArgStack`.

`Kernel` and `Sequences` are shared. Code between two sleeps is one atomic step. Inline assembly has its
mathematical meaning. Panics that the code guards against become preconditions or failure results, or are
proved unreachable. What a caller or the hardware decides (contents of files and of the swap device, the
order of interrupts, who runs next, which buffers are in use elsewhere) is a parameter.

## Findings

Where the code does not do what its comments or its purpose promise, the exact condition is proved; where it
takes a run to get there, the run is given.

- `write_verify` (mm/memory.c:446-464) copies a shared page without marking the copy dirty. `swap_out` may
  then drop the copy: the contents survive if and only if they equal the program's page
  (`VmFaults.WriteVerifyThenSwapOut`); `VmFaults.WriteVerifyLoses` is a run from a fresh machine that loses a byte.
- `un_wp_page` (mm/memory.c:364-388) and `try_to_share` (mm/memory.c:501-564) go on with what they read of a
  page before `get_free_page` may have swapped it away. Its reference byte is then one too low or one too high
  (`VmFaults.CopyGoesWrong`, `VmFaults.SharingGoesWrong`: runs from fresh machines). They are right if and
  only if no page is asked for or `get_free_page` leaves the entry alone (`PagedMemory.Memory.UnWpPage`,
  `PagedMemory.Memory.TryToShare`). It does if a page is free or the entry cannot be swapped
  (`VmSweep.KeepsIf`); if none is free it takes the first entry in the order of `swap_out`, and only that one
  if its page is unshared (`VmSweep.GetPageEntries`, `VmSweep.KeepsOthers`).
- `swap_out` (mm/swap.c:175-220) does not try every entry. If the table of its cursor has been freed, it misses
  the entries of the next table up to the cursor's place in it, perhaps all 1024; otherwise only the entry of
  the cursor itself, if that is the first of its table and the directory slot before is empty. It fails if and
  only if none but missed entries can be swapped (`PagedMemory.Memory.SwapOut`), and `get_free_page` then
  returns 0: `VmFaults.SweepMisses`.
- `audit_ptree` (kernel/exit.c:104-176) accepts tables that are no family tree (`ProcessAudit.AuditMisses`). A
  table is one if and only if, besides, its beginning is in order and every task is met on a walk from task 0
  (`ProcessAudit.AuditExact`). While a fork sleeps in copy_mem it warns about the new entry if and only if
  the parent has a child or a sibling (`ProcessAudit.ForkWindow`).
- `real_to_int` (kernel/math/convert.c:145-206) looks at 32 places behind the point only (`Stores.IntRounding`),
  `temp_to_short` (kernel/math/convert.c:88-99) does not look at the lower word of the mantissa, and
  `temp_to_long` (kernel/math/convert.c:120-139) tests bits of the upper word in the directed modes:
  `Stores.ShortRounding`, `Stores.LongRounding` and `Convert.LongRoundTrip` have the exact conditions.
- `short_to_temp` and `long_to_temp` (kernel/math/convert.c:30-70) take denormalised numbers for normalised
  ones: `Convert.ShortExact`, `Stores.LongExact`.
- Negative zero loses its sign in integers and in BCD: `Integers.IntRoundTrip`, `Integers.BcdRoundTrip`.
- `sys_nice` accepts negative increments without limit, and lowering a priority may leave a counter above twice
  the new one: `SchedSpec.NiceBounded`, `SchedSpec.ExcessHalves`.
- The check after the wait in `get_hash_table` (fs/buffer.c:271-273) never fails: `BufferCache.Buffers.FinishGet`.

## Model

| member | source | states |
|---|---|---|
| TaskMemory.Execute | mm/memory.c:191-710 | Refinement of paging over every run: any sequence of loads, stores, forks, execs, exits, page-outs and the first fork does to the private byte maps of the tasks exactly what the specification without page tables says, and every request gets the answer that Answers determines: memory is lacking only where get_free_page returns 0 |
| TaskMemory.TraceIsRun | mm/memory.c:191-710 | what tasks observe of a trace of paging states is a run of private memories |
| TaskMemory.Perform | mm/memory.c:407-710 | one request: the step of private memory, and the answer that the state and the cursor of swap_out determine |
| TaskMemory.ServeLoad | mm/memory.c:625-710 | a load returns the byte of the private map; a present page needs no memory; a missing one fails exactly if get_free_page returns 0 for it or for its table, or it could be made stale (Stalled); with two free pages it succeeds |
| TaskMemory.ServeStore | mm/memory.c:407-441 | fault service, then the write: only the storer's byte changes; a writable or unshared page needs no memory; otherwise it fails exactly if get_free_page returns 0 on the way, or stalls |
| TaskMemory.ServeFork | kernel/fork.c:61-95 | the child's map equals the parent's, or nothing changes; a fork whose tables and swapped pages fit in the free memory succeeds, and one that fails has come to a point where get_free_page returns 0 |
| TaskMemory.ServeBoot | mm/memory.c:191-266 | the first fork: the child sees the first 160 physical pages; it fails exactly if get_free_page returns 0 |
| TaskMemory.ServeExec | mm/memory.c:113-156 | the old space is gone, the new one shows the demand-loaded program, all other tasks are untouched |
| TaskMemory.ServeGive | mm/memory.c:327-357 | put_dirty_page of a filled page: the task sees it there; it fails exactly if get_free_page returns 0 for the page or its table, and then changes nothing any task sees |
| TaskMemory.FindsShare | mm/memory.c:588-618 | decides whether another task has the page clean in memory |
| PrivateMemory.Isolation | mm/memory.c:191-710 | a task that does nothing keeps its memory, whatever others do |
| PrivateMemory.ForkSnapshot | mm/memory.c:191-266 | after a fork the child reads what the parent held then, whatever others do |
| PagedMemory.Memory.CopyMem | kernel/fork.c:61-95 | Fork is all or nothing: on failure the child's range is empty and everybody's contents are as before; it cannot fail if the free pages suffice for the tables and the swapped pages, and it fails only where get_free_page returns 0 in the middle of the copying |
| PagedMemory.Memory.CopyPageTables | mm/memory.c:191-266 | the child comes to share all of the range, or memory ran out half-way, which happens only to forks that do not fit |
| PagedMemory.Memory.CopyTable | mm/memory.c:203-263 | one page table of a fork, entry by entry |
| PagedMemory.Memory.CopyEntry | mm/memory.c:218-262 | one entry: absent, shared read-only, or swapped in for the parent with the slot going to the child |
| PagedMemory.Memory.CopySwappedEntry | mm/memory.c:227-236 | the swapped entry, including running out of memory inside a half-copied table |
| VmRoom.ProgressSwapped | mm/memory.c:227-236 | handing over a swap slot keeps the progress of the fork and its room |
| VmRoom.ProgressShare | mm/memory.c:237-261 | sharing one page keeps the progress of the fork and its room |
| VmRoom.ProgressTable | mm/memory.c:203-217 | a new table costs one free page and nothing else |
| VmRoom.ProgressFails | mm/memory.c:210-236 | running out of memory happens only to forks that do not fit |
| PagedMemory.Memory.FreePageTables | mm/memory.c:113-156 | every entry and table of the range is given back, every page and slot released, everything else untouched |
| PagedMemory.Memory.FreeEntry | mm/memory.c:130-146 | a present entry releases its page, a swapped one its slot |
| PagedMemory.Memory.CopyKernelPages | mm/memory.c:199-262 | the first fork shares 160 pages below 1 MB, uncounted |
| PagedMemory.Memory.DoNoPage | mm/memory.c:625-710 | a missing page comes back with its contents and nobody sees a difference: read-only if another task has it, otherwise its own, clean unless it comes from the swap device; it fails exactly if get_free_page returns 0 on the way |
| PagedMemory.Memory.LoadOrShare | mm/memory.c:651-709 | the page of a file: shared with another task, or read |
| PagedMemory.Memory.LoadPage | mm/memory.c:671-706 | four blocks of the file, cleared from end_data on |
| VmState.ContentAt | mm/memory.c:651-709 | what a demand load brings, byte by byte: the file behind its header of one block, zeros from the end of the data on |
| PagedMemory.Memory.SharePage | mm/memory.c:588-618 | succeeds, or runs out of memory, exactly if the file is in use twice and another task has the page clean in memory; nobody sees a difference |
| PagedMemory.Memory.TryToShare | mm/memory.c:501-564 | shares exactly a present, clean page in main memory; all reference bytes are right afterwards if and only if no table is needed or get_free_page leaves the entry alone; otherwise the byte of the page is one too high |
| PagedMemory.Memory.ShareFound | mm/memory.c:538-562 | the part after the tests: it fails exactly if a table is needed and no page is to be had |
| PagedMemory.Memory.UnWpPage | mm/memory.c:364-388 | the entry becomes writable with the same contents, and all reference bytes are right, if and only if the page is unshared or get_free_page leaves the entry alone; otherwise the byte of the old page is one too low. It fails exactly if a page is needed and there is none; marking the copy clean is harmless if and only if it equals what a demand load would bring |
| PagedMemory.Memory.DoWpPage | mm/memory.c:407-441 | protection fault: writable afterwards, nobody sees a difference, as long as get_free_page leaves the entry alone |
| PagedMemory.Memory.WriteVerify | mm/memory.c:446-464 | the entry, if present, becomes writable; the invariant survives exactly when no unmarked copy was needed or the copy is reloadable |
| PagedMemory.Memory.PutPage | mm/memory.c:282-357 | put_page and put_dirty_page: the page is entered, or no memory for a table was to be had |
| PagedMemory.Memory.GetEmptyPage | mm/memory.c:469-479 | a zero page where the program has none |
| PagedMemory.Memory.FreePage | mm/memory.c:83-99 | one reference less for a page above 1 MB, nothing below |
| PagedMemory.Memory.MemInit | mm/memory.c:721-739 | exactly the pages from start to the end of memory are free, and the invariant holds |
| PagedMemory.Memory.constructor | mm/memory.c:721-739 | the machine before mem_init |
| PagedMemory.Memory.GetFreePage | mm/swap.c:237-266 | the highest free page, zeroed, after swapping as often as needed, in the order of swap_out; nobody sees a difference; pages that cannot be swapped stay; 0 means that the last round of swap_out found no entry to try that could be swapped |
| PagedMemory.Memory.SwapOut | mm/swap.c:175-220 | succeeds if and only if some entry that can be swapped is not among the missed ones, takes the first of them from the cursor on, and leaves the cursor there; otherwise nothing changes |
| PagedMemory.Memory.FindTable | mm/swap.c:183-192 | the first loop: the cursor comes to a table, or there is none |
| PagedMemory.Memory.NextTable | mm/swap.c:202-214 | the cursor moves on to the next table, or the count has run out and no entry to be tried can be swapped |
| PagedMemory.Memory.TryToSwapOut | mm/swap.c:128-162 | succeeds exactly on clean pages, and on dirty unshared ones when a slot is free |
| PagedMemory.Memory.SwapIn | mm/swap.c:95-123 | the page is back, writable and dirty, its slot free, nobody sees a difference |
| PagedMemory.Memory.GetSwapPage | mm/swap.c:67-77 | the lowest free slot, or 0 if there is none |
| PagedMemory.Memory.SwapFree | mm/swap.c:82-91 | the bit is set; complaint exactly on a slot already free or out of range |
| PagedMemory.Memory.CheckBitmap | mm/swap.c:302-326 | refuses a map with bit 0 or a bit past the end set, else counts the usable slots |
| PagedMemory.Memory.InitSwapping | mm/swap.c:269-337 | the swap space is exactly the set bits inside the device, signature excluded; refused exactly if the device is too small or unsigned, bit 0 or one past its end is set, none is usable, or no page is to be had |
| VmSteps.ShareOk | mm/memory.c:237-261 | sharing one present entry keeps the invariant, and shows the new user that page; the reference byte does not wrap |
| VmSteps.UsersBound | mm/memory.c:237-261 | at most 63 entries name a main-memory page, so its reference byte cannot wrap |
| VmSteps.SharersAgree | mm/memory.c:364-388 | once one user of a page is read-only all are, at the same logical page |
| VmSteps.SwapOutToOk | mm/swap.c:140-152 | writing a page to a slot keeps reference and slot conservation and every view |
| VmSteps.SwapInToOk | mm/swap.c:95-123 | the same for reading it back |
| VmSteps.GiveSlotOk | mm/memory.c:227-236 | the slot changes owner, both tasks see the page |
| VmSteps.CopyOnWriteOk | mm/memory.c:374-388 | a private copy: same views; the invariant holds if and only if the copy is reloadable |
| VmSteps.StoreByteOk | mm/memory.c:407-441 | a store to a writable page changes one byte of one view |
| VmSteps.MapHeldOk | mm/memory.c:282-357 | entering a held page changes one view |
| VmSteps.UnmapOk | mm/memory.c:130-140 | removing a present entry keeps conservation |
| VmSteps.FreeSlotOk | mm/memory.c:141-144 | removing a swapped entry frees its slot |
| VmRelations.SwappedOutPinned | mm/swap.c:128-162 | a page below 1 MB, or shared and dirty everywhere, is never swapped out |
| VmSweep.ScanTakes | mm/swap.c:199-217 | an entry tried that can be swapped is the first candidate, and not a missed one |
| VmSweep.ScanEnds | mm/swap.c:199-219 | when the count has run out, only missed entries can be left |
| VmSweep.ScanStarts | mm/swap.c:183-192 | where a scan begins: past the first entries of the next table if that of the cursor is gone |
| VmSweep.GetPageEntries | mm/swap.c:237-266 | get_free_page changes entries only by taking their pages, a clean one for good; the first candidate is lost when no page is free |
| VmSweep.KeepsIf | mm/swap.c:237-266 | with a free page no entry changes, and pages that cannot be swapped stay anyway |
| VmSweep.KeepsOthers | mm/swap.c:175-266 | without a free page, if the first candidate is unshared: exactly that entry is lost, and its page is the one returned |
| VmSweep.GetPageFails | mm/swap.c:237-266 | 0 is returned only when no page is free and a round has met no candidate |
| VmSweep.SharesFile | mm/memory.c:588-618 | when a fault is served by a page of another task |
| VmSweep.CopyResult | mm/memory.c:364-388 | un_wp_page on a shared page, with whatever get_free_page did in between: right if and only if the entry was kept |
| VmSweep.ShareResult | mm/memory.c:538-562 | try_to_share likewise |
| VmRelations.StaleCopy | mm/memory.c:376-386 | taking a page from an entry that has lost it leaves its reference byte one too low and all others right |
| VmRelations.StaleShare | mm/memory.c:552-562 | sharing a page that its entry has lost leaves its reference byte one too high and all others right |
| VmFaults.WriteVerifyThenSwapOut | mm/memory.c:446-464 | after write_verify on a shared page, swap_out may drop the copy; its contents survive if and only if they are the program's page |
| VmFaults.WriteVerifyLoses | mm/memory.c:446-464 | a run from a fresh machine (store, fork, write_verify, swap-out) after which a byte 7 reads as 0 |
| VmFaults.SweepMisses | mm/swap.c:175-266 | on a machine with two pages page u is swapped out, its task exits, page w is loaded: get_free_page then returns 0, although w could be swapped, if and only if w comes no later in its table than u did in another, or both are the same first entry of a table |
| VmFaults.SingleTaken | mm/swap.c:175-220 | of a single page in memory: whether swap_out misses it, for every position of the cursor |
| VmFaults.SharingGoesWrong | mm/memory.c:501-564 | from a machine just started with two free pages, task 1 loads a page and task 2 shares it: in the end one user of the page too many is counted |
| VmFaults.CopyGoesWrong | mm/memory.c:364-388 | from a machine just started with three free pages, a page is shared by fork and then written to: in the end one user of the page too few is counted |
| VmFaults.PairLost | mm/memory.c:364-388 | why: get_free_page takes the page from both tasks |
| VmFaults.DoesKeeps | mm/memory.c:364-388 | every step keeps the invariant except copying a written page without marking the copy dirty |
| Minix.FileSystem.FileWrite | fs/file_dev.c:67-125 | exactly the first n bytes of the buffer appear at the position, i_size grows accordingly, every other byte of every file (holes included) is unchanged; short only if the next block is a hole and no zone is left |
| Minix.FileSystem.FileRead | fs/file_dev.c:20-62 | the bytes of the file's map, holes as zeros, for any position and count |
| Minix.FileSystem.CopyIn | fs/file_dev.c:104-113 | the copying loop inside one block |
| Minix.FileSystem.CopyOut | fs/file_dev.c:44-54 | the copying loops of file_read |
| Minix.FileSystem.Map | fs/inode.c:97-186 | the zone of a block; with create, missing blocks on the way are allocated, none elsewhere, and only this one mapping can change, on failure paths too |
| Minix.FileSystem.CreateBlock | fs/inode.c:199-203 | its result is what bmap returns afterwards; every other mapping and every byte is unchanged; 0 only if the device is full |
| Minix.FileSystem.ReadMap | fs/inode.c:191-195 | bmap returns the zone and changes nothing |
| Minix.FileSystem.NewBlock | fs/bitmap.c:110-150 | the lowest free zone, marked and zeroed; 0 exactly if there is none |
| Minix.FileSystem.FreeBlock | fs/bitmap.c:67-105 | clears the bit, unless the block is in use |
| Minix.FileSystem.FindFirstZero | fs/bitmap.c:47-62 | the first clear bit of a map block |
| Minix.FileSystem.Truncate | fs/truncate.c:76-116 | frees zones of this file only, pass by pass, each leaving exactly what is in use and what leads to it; it is done exactly with the first pass that leaves nothing, and then has no zones and size 0; a pass during which no zone of the file is in use is enough |
| Minix.FileSystem.TruncatePass | fs/truncate.c:86-108 | one pass: every slot of the file is cleared unless its zone is in use or leads to one that stays; it reports exactly whether anything stays |
| Minix.FileSystem.FreeInd | fs/truncate.c:12-40 | all zones of an indirect block but those in use, then the block; it fails exactly if something stays |
| Minix.FileSystem.FreeDind | fs/truncate.c:44-72 | the same one level up |
| Minix.FileSystem.FreeDirect | fs/truncate.c:88-94 | one direct zone |
| Truncation.StaysFor | fs/truncate.c:86-108 | what stays after a pass is in use or leads to something in use |
| Truncation.IdleGoes | fs/truncate.c:86-108 | of a file none of whose zones is in use nothing stays |
| Truncation.PassedNext | fs/truncate.c:86-108 | the progress of a pass over i_zone[] |
| Truncation.SweptNext | fs/truncate.c:23-32 | the progress over an indirect block |
| Minix.FileSystem.constructor | fs/bitmap.c:110-150 | an empty file system meets the invariant: every file empty, every zone free |
| FsState.TruncateFreesExactly | fs/truncate.c:76-116 | after truncate exactly the other files' zones are marked |
| FsState.BmapLayout | fs/inode.c:97-186 | where the number of each block of a file is kept on the disk |
| FsState.AttachOk | fs/inode.c:97-186 | a free zone put into an empty slot: the map is exactly the owned zones again, no other slot changes |
| FsState.AttachBytes | fs/inode.c:97-186 | allocation is invisible to readers |
| FsState.DetachOk | fs/truncate.c:12-72 | a zone given back: ownership stays exact |
| FsState.WriteDataBytes | fs/file_dev.c:104-113 | rewriting a data block changes the bytes of that block of that file only |
| FsState.SetPtrFrame | fs/inode.c:97-186 | writing one block number changes no other slot of the three-level tree |
| CacheSpec.TransparentRun | fs/buffer.c:87-406 | Cache transparency over every run: a block contains what a caller last wrote to it, through lookup, eviction, sync, read and write-back |
| CacheSpec.ReadsTheLatest | fs/buffer.c:382-406 | whoever holds an up-to-date buffer reads the last write |
| CacheSpec.HeldKeepsBlock | fs/buffer.c:262-364 | a held buffer keeps its block through every interleaving |
| CacheSpec.GetblkRight | fs/buffer.c:298-364 | getblk ends with the right buffer, held, unlocked; one that was reused was unheld, unlocked and clean |
| CacheSpec.TakeDecides | fs/buffer.c:328-364 | when the chosen buffer is unlocked, getblk ends, looks again or writes it first, each exactly under its condition |
| CacheSpec.Undisturbed | fs/buffer.c:297-364 | undisturbed, getblk of a block not in the cache ends with the chosen buffer, and no other changes |
| CacheSpec.FoundIsGot | fs/buffer.c:262-279 | a block in the cache is found and got |
| CacheSpec.ReadBrings | kernel/blk_drv/blk.h:160-176 | a read ends with the contents of the disk |
| CacheSpec.WriteReaches | kernel/blk_drv/blk.h:160-176 | a write ends with the contents on the disk |
| CacheSpec.NextInv | fs/buffer.c:262-376 | with any other cache calls at every sleep: no block has two buffers, counts are the users, marks and contents cohere |
| CacheSpec.Transparent | fs/buffer.c:87-406 | one step changes the contents of a block only if it is a caller's write |
| CacheSpec.NeverReleasedFree | fs/buffer.c:368-376 | the panic of brelse is unreachable |
| CacheSpec.FreshInv | fs/buffer.c:514-554 | the invariant holds at the start |
| BufferCache.Buffers.constructor | fs/buffer.c:514-554 | buffer_init: one ring of all buffers, empty chains |
| BufferCache.Buffers.FindBuffer | fs/buffer.c:239-248 | finds the buffer of a block exactly if there is one |
| BufferCache.Buffers.StartGet | fs/buffer.c:262-270 | get_hash_table up to the wait |
| BufferCache.Buffers.FinishGet | fs/buffer.c:270-277 | after the wait the buffer is still the right one |
| BufferCache.Buffers.ChooseFree | fs/buffer.c:305-320 | none exactly if all are in use; otherwise an unused buffer, clean if any is, unlocked if any as clean is, and preferred to all unused ones before it in the circular list |
| BufferCache.TakenLast | fs/buffer.c:305-364 | least recently taken first: the buffer taken last is chosen again only if it is preferred to every other unused one |
| BufferCache.OthersKeepOrder | fs/buffer.c:340-364 | taking a buffer leaves the order of the others |
| BufferCache.Buffers.TakeBuffer | fs/buffer.c:320-364 | the retries of getblk and the final reuse, as one step of the state machine |
| BufferCache.Buffers.RemoveFromQueues | fs/buffer.c:191-211 | leaves ring and hash chain in order without the buffer |
| BufferCache.Buffers.InsertIntoQueues | fs/buffer.c:214-235 | ring and chains are complete again, the buffer at the end of the ring |
| BufferCache.Buffers.Reuse | fs/buffer.c:346-364 | the buffer is for the new block, and every chain and the ring are well formed |
| BufferCache.Buffers.Brelse | fs/buffer.c:368-376 | one user less, never a panic |
| BufferCache.UnhookChains | fs/buffer.c:191-200 | taking a buffer out of its doubly linked chain keeps all chains exact |
| BufferCache.RehookChains | fs/buffer.c:225-235 | putting it into the chain of its new block keeps all chains exact |
| BufferCache.RingLeave | fs/buffer.c:201-211 | the circular list without the buffer |
| BufferCache.RingEnter | fs/buffer.c:216-224 | the circular list with the buffer at its end |
| ElevatorSpec.OvertakenAtMostTwice | kernel/blk_drv/ll_rw_blk.c:111-146 | in every run a waiting request is overtaken by at most two requests for any one block |
| ElevatorSpec.AtMostOneDescent | kernel/blk_drv/ll_rw_blk.c:111-146 | every reachable queue is at most two sweeps in order |
| ElevatorSpec.WaitingSweeps | kernel/blk_drv/ll_rw_blk.c:111-146 | what is served before a waiting request, with what is still before it, has no more descents than when it came |
| ElevatorSpec.OncePerSweep | kernel/blk_drv/blk.h:60-63 | in s sweeps every key comes at most s times |
| ElevatorSpec.InsertDescents | kernel/blk_drv/ll_rw_blk.c:130-144 | a new request breaks the order only if nothing breaks it yet and it belongs before the first |
| ElevatorSpec.InsertKeepsOrder | kernel/blk_drv/ll_rw_blk.c:130-144 | insertion loses and reorders nothing |
| ElevatorSpec.SweepAscends | kernel/blk_drv/blk.h:60-63 | in a sweep reads come before writes, and on each device the sectors ascend |
| ElevatorSpec.OrderTotal | kernel/blk_drv/blk.h:60-63 | two different requests are ordered one way |
| BlockQueue.Driver.AddRequest | kernel/blk_drv/ll_rw_blk.c:111-146 | the linked queue becomes what the elevator insertion makes of it |
| BlockQueue.Driver.MakeRequest | kernel/blk_drv/ll_rw_blk.c:150-223 | needless exactly for an up-to-date buffer to be read or a clean one to be written; otherwise queued exactly if a slot it may use is free, else dropped (ahead) or waiting; nothing is queued twice; the slots of other drivers are untouched |
| BlockQueue.Driver.Enqueue | kernel/blk_drv/ll_rw_blk.c:185-222 | a slot from the end, the last eleven for reads only; it waits exactly if every slot it may use is taken, by whatever driver |
| BlockQueue.Driver.EndRequest | kernel/blk_drv/blk.h:160-176 | the first request leaves, its buffer is unlocked (never with a warning), its slot free; the slots of other drivers are untouched |
| BlockQueue.OtherQueue | kernel/blk_drv/ll_rw_blk.c:150-223 | drivers of different major numbers share the slots and the buffers without disturbing each other's queues |
| BlockQueue.MakeRequestBeside | kernel/blk_drv/ll_rw_blk.c:150-223 | make_request for one driver keeps the queue of another as it is |
| BlockQueue.EndRequestBeside | kernel/blk_drv/blk.h:160-176 | end_request for one driver keeps the queue of another as it is |
| BlockQueue.Driver.DistinctKeys | kernel/blk_drv/ll_rw_blk.c:150-223 | the queued requests are for different blocks |
| TreeSpec.EveryRun | kernel/exit.c:441-592 | over every run of fork, exit and reap every task descends from init, init has children whenever another task exists, and dead tasks have none |
| TreeSpec.Descends | kernel/exit.c:441-488 | every task but 0 and 1 descends from init, so init's youngest child exists when do_exit looks at it |
| TreeSpec.NextInv | kernel/fork.c:196-202 | fork, exit and reap keep a family tree |
| TreeSpec.ReapFamily | kernel/exit.c:26-64 | a released task is nobody's child and nobody's parent |
| TreeSpec.ForkOthers | kernel/fork.c:196-202 | a new child comes first; nobody else is touched |
| TreeSpec.ExitOthers | kernel/exit.c:441-488 | orphans go to init, before the children it had, in their order; nobody else is touched |
| TreeSpec.ReapOthers | kernel/exit.c:26-64 | only the task reaped is gone, and its siblings keep their order |
| ProcessTree.AuditClean | kernel/exit.c:104-176 | a table that represents a family tree passes the audit |
| ProcessAudit.AuditExact | kernel/exit.c:104-176 | a table is a family tree if and only if the audit finds nothing, task 0, init and the dead are in order, and every task is met on a walk from task 0 along p_cptr and p_osptr |
| ProcessAudit.AuditMisses | kernel/exit.c:104-176 | the audit alone does not do: a table that passes it, with the beginning in order, although a task is not among its parent's children |
| ProcessAudit.ForkWindow | kernel/fork.c:122-202 | while copy_mem sleeps the new entry has the links of its parent: an audit then prints warnings if and only if the parent has a child or a sibling, and only about the new entry |
| ProcessTree.ForkRepresents | kernel/fork.c:196-202 | the linking of copy_process gives the tree with the new child first |
| ProcessTree.ExitRepresents | kernel/exit.c:441-488 | reparenting gives the tree with the orphans first among init's children |
| ProcessTree.ReapRepresents | kernel/exit.c:26-64 | the unlinking of release gives the tree without the task |
| ProcessTree.TaskTable.AuditPtree | kernel/exit.c:104-176 | prints nothing exactly if every task passes |
| ProcessTree.TaskTable.BadTaskPtr | kernel/exit.c:76-86 | whether a link leads to no task |
| ProcessTree.TaskTable.Fork | kernel/fork.c:196-202 | the new table represents the tree after the fork |
| ProcessTree.TaskTable.Exit | kernel/exit.c:441-488 | the new table represents the tree after the exit, and the audit prints nothing |
| ProcessTree.TaskTable.Adopt | kernel/exit.c:441-488 | every child gets init as its parent, the oldest is found |
| ProcessTree.TaskTable.Release | kernel/exit.c:26-64 | the neighbours and the parent of the task are linked past it |
| ProcessTree.TaskTable.WaitPid | kernel/exit.c:536-618 | reaps or reports the child that Decision says, and the audit prints nothing |
| ProcessTree.DecisionIs | kernel/exit.c:552-612 | the youngest child asked for that is dead, or stopped and to be reported; if none is, whether a live one was asked for |
| ProcessIds.FindEmptyProcess | kernel/fork.c:209-226 | the next pid in use by no task or group, after at most 129 tries, and the first free slot |
| ProcessIds.FewTaken | kernel/fork.c:209-226 | at most 128 pids in a row are taken |
| WaitSpec.DrainsCompletely | kernel/sched.c:242-299 | if nobody joins, one awake sleeper suffices: the run of resumptions is at most 2n + 1 long and empties the queue in its order |
| WaitSpec.NextInv | kernel/sched.c:242-299 | for every interleaving each sleeper is queued exactly once |
| WaitSpec.LeaveInOrder | kernel/sched.c:242-273 | only the head leaves |
| WaitSpec.LastFirst | kernel/sched.c:243-268 | the last to come is the first to go |
| WaitSpec.ResumeStep | kernel/sched.c:242-273 | every resumption makes progress and leaves the head awake |
| WaitSpec.WakeUpLasts | kernel/sched.c:290-299 | after one wake_up somebody of the queue stays runnable until it is empty |
| WaitQueue.Queue.SleepOn | kernel/sched.c:242-254 | the chain through the locals holds the sleepers, the newcomer first |
| WaitQueue.Queue.Resume | kernel/sched.c:254-273 | a task leaves exactly if it is the head; the warning about a lost queue is unreachable |
| WaitQueue.Queue.WakeUp | kernel/sched.c:290-299 | the head becomes runnable, the warnings are unreachable |
| TimerSpec.FiresExactlyOnTime | kernel/sched.c:401-503 | Exact timers: in every run, whatever is added meanwhile, a timer with J ticks left fires on the J-th tick and on no other, and calls the handler it was given and no other |
| TimerSpec.HandlersOnTime | kernel/sched.c:401-503 | the same for timers added by a handler while a tick is processed: delay J, J-th tick after this one, its handler |
| TimerSpec.AddedInTickOnTime | kernel/sched.c:493-503 | the i-th timer added during a tick fires exactly on its tick |
| TimerSpec.FireExact | kernel/sched.c:493-503 | exactly the timers due fire, each once; the others stay, and all that handlers add is pending with its delay |
| TimerSpec.FiredInOrder | kernel/sched.c:493-503 | the due timers fire in the order of the list, whatever their handlers add |
| TimerSpec.TickExact | kernel/sched.c:493-503 | one tick: those with one tick left fire with their handlers, all others have one less |
| TimerSpec.AddedKeeps | kernel/sched.c:401-452 | adding leaves every deadline and handler as it was; the new timer is pending with its own; a handler run at once has its timers pending |
| TimerSpec.InsertAt | kernel/sched.c:401-452 | the new timer goes behind the earlier ones, the rest unchanged |
| TimerSpec.NeverAgain | kernel/sched.c:493-503 | a timer that has fired never fires again |
| TimerSpec.AddsOfHas | kernel/sched.c:493-503 | every addition of every due timer's handler is made |
| Timers.TimerList.Place | kernel/sched.c:421-452 | add_timer on the delta list: exactly the insertion by deadline; it panics exactly if all slots are taken |
| Timers.TimerList.Sort | kernel/sched.c:435-450 | the exchanging loop and the correction after it |
| Timers.SinkInserts | kernel/sched.c:435-450 | sinking a cell through deltas is insertion by deadline |
| Timers.TimerList.AddTimer | kernel/sched.c:401-452 | with or without delay: what the specification of adding says |
| Timers.TimerList.DoTimer | kernel/sched.c:493-503 | one tick of the list: what the specification of a tick says |
| SchedSpec.PickedInTime | kernel/sched.c:199-223 | a ready task with ticks left is dispatched before the next recharge, after at most twice the sum of all counters and one user ticks |
| SchedSpec.SchedulePicks | kernel/sched.c:199-223 | at most two scans; the task with the most ticks, the last in the table of those; task 0 exactly if nothing else is runnable; a recharge exactly if somebody is runnable and nobody has ticks |
| SchedSpec.NotPreempted | kernel/sched.c:508-511 | in every run the current task goes on until it blocks, yields or uses up its ticks in user code: kernel code is never preempted |
| SchedSpec.TickTakes | kernel/sched.c:508-511 | a tick takes one from the current task, down to 0, and in kernel code does nothing else |
| SchedSpec.GivenUp | kernel/sched.c:199-223 | when the processor is given up, a ready task with ticks runs next, or task 0 if there is none |
| SchedSpec.SleeperGains | kernel/sched.c:216-219 | a recharge gives everybody, asleep or not, half of what is saved on top of the priority: more for who has saved more |
| SchedSpec.Newcomer | kernel/fork.c:126-131 | a new task is ready, with the priority of its parent and that many ticks |
| SchedSpec.Woken | kernel/sched.c:290-300 | a task that is woken is ready, with the ticks it had |
| SchedSpec.CounterBounded | kernel/sched.c:199-223 | each task by itself: 0 <= counter <= 2 * priority - 1 in every run in which it does not lower its priority |
| SchedSpec.CountersWithinPeaks | kernel/sched.c:199-223 | with any changes of priority: no counter reaches twice the highest priority its own task has had |
| SchedSpec.NiceBounded | kernel/sched.c:568-573 | lowering the priority breaks the bound exactly when too many ticks are left for the new one |
| SchedSpec.ExcessHalves | kernel/sched.c:199-223 | such an excess is halved by every recharge |
| SchedSpec.WaitStep | kernel/sched.c:199-223 | while a task waits the measure of what others can use never grows and falls with every user tick |
| Scheduler.TaskSwitch.Schedule | kernel/sched.c:199-223 | the loops of schedule do what Dispatch says |
| Scheduler.TaskSwitch.TimerTick | kernel/sched.c:508-511 | the end of do_timer does what Tick says |
| Scheduler.TaskSwitch.SysNice | kernel/sched.c:568-573 | sys_nice |
| MallocSpec.Apart | lib/malloc.c:170-254 | blocks in use never overlap, whatever their sizes, and each lies inside its page |
| MallocSpec.FreeUndoesMalloc | lib/malloc.c:270-333 | free_s right after malloc restores everything, the order of the lists included |
| MallocSpec.PageReturned | lib/malloc.c:300-333 | a page goes back exactly when its last block is freed |
| MallocSpec.MallocLive | lib/malloc.c:170-254 | the block handed out was not in use; nothing else changes |
| MallocSpec.MallocFrugal | lib/malloc.c:190-236 | a new page is taken exactly if every block of every page of that size is in use |
| MallocSpec.FreedLive | lib/malloc.c:270-333 | freeing ends the use of that block only |
| BucketAllocator.Allocator.Kmalloc | lib/malloc.c:170-254 | a block of the smallest size that fits, from the first page with room or a new page; it fails exactly if the length is more than a page, or no page has room and the new page, and one for descriptors if they are used up, cannot be had |
| BucketAllocator.Allocator.FreeS | lib/malloc.c:270-333 | the in-page free list, the counts and the chains are those after the free; the page goes back exactly if empty |
| BucketAllocator.Allocator.InitBucketDesc | lib/malloc.c:140-165 | a page of unused descriptors; no chain changes |
| BucketAllocator.Allocator.ThreadPage | lib/malloc.c:205-236 | all blocks of a page linked through their first words |
| BucketAllocator.Allocator.FindPage | lib/malloc.c:277-292 | the one descriptor that has the page |
| BucketAllocator.Allocator.ReleasePage | lib/malloc.c:300-330 | the descriptor moves from its chain to the unused ones: none lost, none twice |
| BucketAllocator.Allocator.TakeBlock | lib/malloc.c:238-254 | the first free block of the page |
| BucketAllocator.BlockIsPrivate | lib/malloc.c:205-254 | whatever is written into a block in use, no free list goes through it |
| Multiply.Mul64 | kernel/math/mul.c:27-50 | the exact 128-bit product |
| Multiply.Fmul | kernel/math/mul.c:53-87 | the product truncated, less than one unit in the last place below; overflow and underflow exactly by exponent |
| Multiply.Truncates | kernel/math/mul.c:53-87 | what is cut off is less than one unit in the last place |
| Divide.Div64 | kernel/math/div.c:46-70 | floor(A * 2^63 / B) and its remainder |
| Divide.DivStep | kernel/math/div.c:46-70 | one of the 64 steps keeps quotient and remainder exact |
| Divide.TrySub | kernel/math/div.c:32-42 | subtracts exactly if nothing must be borrowed |
| Divide.ShiftRight | kernel/math/div.c:24-28 | halves a four-word number |
| Divide.Fdiv | kernel/math/div.c:73-129 | never above the quotient and less than two units below it, for a normal dividend; division by zero exactly for a zero divisor |
| Divide.DividesBelow | kernel/math/div.c:73-129 | the quotient before the final shift, for any operands |
| Add.Fadd | kernel/math/add.c:81-122 | the truncated sum normalised; the error is below twice 2^(E - 61), E the larger unbiased exponent, unless the exponent runs out |
| Add.ErrorBound | kernel/math/add.c:81-122 | that bound |
| Add.Signify | kernel/math/add.c:40-52 | two's complement of the mantissa shifted by two |
| Add.Unsignify | kernel/math/add.c:57-77 | sign and normalised magnitude |
| Add.PlacesUnique | kernel/math/add.c:70-77 | the shift that normalises is unique |
| Convert.ShortRoundTrip | kernel/math/convert.c:30-100 | short to temporary and back is the identity on all bit patterns in every mode |
| Convert.LongRoundTrip | kernel/math/convert.c:55-140 | long to temporary and back is the identity if and only if the mode does not round away from zero or eight middle bits of the fraction are clear |
| Convert.ShortExact | kernel/math/convert.c:30-50 | the temporary real has the value of the short one if and only if that is not a denormalised number |
| Convert.LoadShort | kernel/math/convert.c:30-50 | short_to_temp, field by field |
| Convert.StoreShort | kernel/math/convert.c:74-100 | temp_to_short, field by field; how far off it is: ShortRounding |
| Convert.LoadLong | kernel/math/convert.c:55-70 | long_to_temp, field by field |
| Convert.StoreLong | kernel/math/convert.c:104-140 | temp_to_long, field by field; how far off it is: LongRounding |
| Stores.ShortRounding | kernel/math/convert.c:74-100 | for every normal temporary real in range the short one is within a unit in the last place, carry into the exponent included, with the same sign; it is the number the mode asks for (half a unit for nearest, below one unit in the direction of the others) if and only if the lower mantissa word is zero or the eight bits looked at decide alone |
| Stores.LongRounding | kernel/math/convert.c:104-140 | likewise: to nearest always right; in the other modes right if and only if the mode does not round away from zero or the eight bits tested are zero exactly when those lost are |
| Stores.LongExact | kernel/math/convert.c:55-70 | the temporary real has the value of the long one if and only if that is not a denormalised number |
| Integers.IntRoundTrip | kernel/math/convert.c:145-228 | int_to_real then real_to_int gives back every 64-bit magnitude; the sign exactly unless the number is negative zero |
| Integers.IntToReal | kernel/math/convert.c:210-228 | the real number of that value, normalised |
| Integers.DenotesValue | kernel/math/convert.c:210-228 | what int_to_real returns has that value |
| Integers.RealToInt | kernel/math/convert.c:145-206 | the magnitude rounded in the mode; overflow exactly by exponent |
| Integers.NearestIsNear | kernel/math/convert.c:178-188 | rounding to nearest is off by half a unit at most, but for the 33rd place |
| Stores.IntRounding | kernel/math/convert.c:145-206 | for every real number that does not overflow, real_to_int is within one unit, and is the integer the mode asks for if and only if the first 32 places behind the point decide; in the middle it takes the even one |
| Integers.ExactBack | kernel/math/convert.c:145-206 | an integer comes back in every mode |
| Integers.BcdRoundTrip | kernel/math/get_put.c:146-308 | get_BCD then put_BCD is the identity if and only if there are 18 decimal digits and it is no negative zero |
| Integers.GetBcd | kernel/math/get_put.c:146-168 | the value of the eighteen digits |
| Integers.PutBcd | kernel/math/get_put.c:288-308 | the sign and the low eighteen digits |
| Integers.Div10 | kernel/math/get_put.c:278-281 | exact two-word division by ten |
| Integers.Mul10 | kernel/math/get_put.c:127-134 | exact two-word multiplication by ten |
| ArgStack.ExecStack | fs/exec.c:188-578 | for any argv and envp whose strings fit: after the two copies and create_tables the stack shows argc and two null-terminated tables whose pointers denote exactly the strings, in order; it fails exactly if there are fewer pages than the strings span |
| ArgStack.ArgPages.CopyStrings | fs/exec.c:188-250 | the strings lie packed, in order, right below the old p, nothing else changes; 0 exactly if there are fewer pages than they need |
| ArgStack.ArgPages.CopyString | fs/exec.c:209-244 | one string, copied downwards across pages |
| ArgStack.Segment.CreateTables | fs/exec.c:98-128 | the tables and the header, below the strings; no string byte is touched |
| ArgStack.Segment.FillTable | fs/exec.c:115-126 | the addresses of the strings, found by scanning for zeros, and a null |
| ArgStack.Segment.PlacePages | fs/exec.c:271-284 | the argument pages end at the end of the data segment |
| ArgSpec.FoundAt | fs/exec.c:115-126 | each string of a packed run is found where its offset says |

## Left out

- TaskMemory.Execute: faults that might use a stale value, with no page free and the page in question not safe from swapping, are answered Stalled instead of being carried out; write_verify and the kernel's own pages are no requests of a run.
- TaskMemory.ServeBoot: the pages below 1 MB that the child sees do not change; the kernel's own writes to them are not modelled.
- Add.Fadd: says nothing for exponents of 0x7ffe and more, which run into the sign, nor about the error when the exponent of the sum runs below zero.
- Divide.Fdiv: the error bound is for normal dividends; for others DividesBelow bounds it by the shift.
- ArgStack.ExecStack: the size limit is a precondition, because the test in copy_strings compares an unsigned value with 0 (fs/exec.c:219).
- BlockQueue.Driver.AddRequest: swap requests, which have no buffer, are excluded; ordinary reads can be placed ahead of them.
- ProcessTree.TaskTable.WaitPid: does not model blocking, signals and process groups; the children asked for are a parameter.
- Paging while a task sleeps: reading a page from a file or the swap device is one atomic step.
- The pages of task structures, the tables of task 0 other than at the first fork, the accessed bit and the TLB.
- A swap device that is absent is one without usable slots; signatures and device numbers are a parameter.
- do_execve beyond its memory: demand loading, freeing the old space and handing over the argument pages are separate requests, so a run may interleave others.
- Files: block reads succeed, timestamps and dirty marks are left out, and "in use elsewhere" is a set of zones given for each pass of truncate.
- Other processes acting on the same file between the blocks of a read, a write or a truncate.
- ProcessTree.TaskTable.Fork: one step; of the time in which copy_mem may sleep only the audit is modelled (ForkWindow), not other changes of the tree.
- copy_process beyond memory, links, counter and ids.
- Signals, sessions, process groups, stopped and orphaned groups.
- Wait queues: one queue; signals and timeouts make a sleeper runnable at any time.
- Buffer cache: b_count is unbounded, I/O errors and invalidate_buffers are left out, sync_dev, breada and bread_page are sequences of the steps modelled, and buffer_init's placement in memory is left out.
- The whole-block path of block_write, which dirties a buffer that is not up to date.
- Request functions, interrupts and commands of the drivers, ll_rw_page.
- malloc and free_s run without interruption, so the second search for the predecessor in free_s is never needed; their panics are failure results or preconditions.
- Floating-point status flags, infinities and NaNs, and the instruction decoding of math_emulate.c.
- copy_strings from kernel memory (the switching of segments), the script path of do_execve, and count().
- The alarm, timeout and signal part of schedule, jiffies, and the parts of do_timer other than timers and counters.
- Console, keyboard, serial lines, pipes, path walking, mounts and permissions.
