# Three systems projects, modelled and proved

This project models the core of three small systems and proves what they are for.

* **Virtual-memory simulator** (`project3/my_vm.c`, `my_vm.h`). A two-level page table, a fully
  associative 512-entry TLB, first-fit bitmaps of frames and of virtual pages, and byte-level data
  movement. Second-level page tables live in the very bytes clients write to, so translation,
  allocation and the TLB are proved under one joint invariant, over whole runs and over interleaved
  allocations.
* **RUFS** (`project4/rufs.c`, `rufs.h`). A block file system with bitmaps, packed inodes, directories
  stored as entries in blocks, paths, and reads and writes that span blocks.
* **Run queue and PSJF scheduler** (`project2-release/thread-worker.h`, `thread-worker.c`). An array
  min-heap with removal from any position, and the machine that moves threads between the processor,
  the run queue and the queues of mutexes.

## How it is built

For each system there is a value-level part and an imperative part.

* The value-level part gives the state as a datatype and each C function as a function from state to
  state, with the same branches, constants and failure returns. The properties are lemmas about those
  functions: invariants over every run, refinements, round trips.
* The imperative part is a class whose fields are the C globals (arrays, counters, a disk of blocks,
  linked control blocks) and whose methods have the C loops. Each method's `ensures` equates the new
  state with the value-level function of the old state, so every lemma holds of the loops.

| modules | content |
|---|---|
| `Bytes`, `Buffers`, `Wrappers`, `Sets` | little-endian words, memcpy, bitmaps bit by bit; the same in place; counting |
| `Tlb`, `TlbLru` | the TLB and the LRU list it refines |
| `Vm`, `VmInvariant`, `VmAlloc`, `VmFree`, `VmExact`, `VmData`, `VmMatrix` | the simulator's operations, what each keeps, and exactly when `n_malloc` succeeds |
| `VmRuns`, `VmLru` | whole runs; the TLB over them as an LRU list |
| `VmThreads`, `VmOutcome` | interleaved `n_malloc`: what every step keeps, and how each call ends |
| `VmMachine` | `my_vm.c` in place |
| `RufsLayout`, `RufsDisk` | on-disk records, and the file system a disk image holds |
| `Rufs`, `RufsInvariant`, `RufsDir`, `RufsTree`, `RufsMake`, `RufsPath`, `RufsFile`, `RufsBytes`, `RufsIo` | the operations and what each keeps |
| `RufsAgree`, `RufsThroughFile` | exactly when what is written at a path is read back at it, and a run where it is not |
| `RufsRuns`, `RufsRefine` | whole runs, and their refinement to a tree of named nodes |
| `RufsMachine` | `rufs.c` in place |
| `Heap`, `HeapMachine` | the heap on sequences, and in its array |
| `Sched`, `SchedMachine` | the scheduler as a step machine and what each call does to its pools of threads; the same in place |

## Conventions

* A null virtual address is 0, as after the conversion the code uses. 32-bit wrap-around is written out
  (`Vm.Plus`, `Vm.NumPages`, `Vm.WrapInt`); the TLB's counter wraps at 64 bits (`Tlb.Next`).
* `pages` is the ghost map from live virtual pages to frames: the pages returned by a successful
  `n_malloc` and not freed since. Clients touch and free live pages or pages that are not mapped; a page
  that is mapped but not live (left behind by a failed `n_malloc`) is what `Nameable` excludes, because
  its frame may belong to somebody else by then.
* Fresh pages have arbitrary contents: nothing in the model clears them.
* In RUFS a path is the sequence of its components; `[]` is `/`. A component has 1 to 208 bytes, none of
  them zero. The clock is a parameter (`stamp`), and so are the unused indirect pointers and the stat
  record it is stored with.
* `places` is the ghost map from each node but the root to the directory and slot that name it.
* A thread's `timeQuant` is an arbitrary constant: `worker_create` never assigns it.

## What turned out false, and when it holds

* `n_malloc` of more than 2^32 - 4096 bytes wraps and returns an address with no page behind it; the
  count covers the request exactly up to that size (`VmAlloc.RequestCovered`, `HugeRequestGetsNothing`).
* `n_malloc` fails although windows and frames are free when the lowest free window contains virtual page
  0, whose address is null. From start-up, a request for 0xC000_0000 bytes fails for want of frames and
  leaves its window marked, and then a request for one byte fails although frames and the next page are
  free (`VmExact.BigRequestFails`, `NullPageFails`). The bits of a window once found stay set
  (`VmExact.WindowStaysSet`), and `VmExact.MallocExactly` gives the exact condition for success; for calls
  that run concurrently it is `VmOutcome.FailsExactly`.
* Once the 64-bit lookup counter wraps, the stamps no longer order the TLB. A lookup is an access of the LRU
  list if and only if the counter does not wrap or one page is cached afterwards
  (`TlbLru.LookupRefinesExactly`). In a full table whose counter is at its end, looking up the newest page
  makes it the next victim (`TlbLru.WrapEvictsNewest`).
* `rufs_create` and `rufs_mkdir` may return 0 although their path does not resolve to the new node: if and
  only if the path is `/` (`RufsPath.CreateInserts`, `MkdirInserts`). On a fresh file system they then make a
  node called `/` that no path split at its slashes reaches (`RufsRefine.CreateRootIsLost`,
  `MkdirRootIsLost`).
* `dir_find` does not ask whether a node is a directory, so a path may lead through files whose bytes look
  like entries. Writing and then reading at a path gives the data back, for all data that fits, if and only
  if no component of the path is looked up in the very file it names (`RufsAgree.WriteReadExactly`). Two
  calls on a fresh file system reach a path that is (`RufsThroughFile.NamesItselfIsReached`), and one write
  then makes it vanish (`WrittenThroughItself`).
* The block index is narrowed to an `int`, which forgets multiples of 2^44 bytes. A write past the sixteen
  blocks is refused if and only if its offset, less those multiples, is past them too; at 2^44 it goes to
  the start of the file and reports success (`RufsIo.FarWrite`, `WriteAtTwoTo44`).
* A read past 2^32 gives nothing, as it should, under the condition `RufsIo.FarRead` states, and always below
  2^44. From 2^44 on it may copy more than was asked for, past the end of a buffer of that size: it keeps to
  the size if and only if `Rufs.KeepsToSize` (`RufsIo.ReadStaysExactly`), and a read of one byte at 2^44 copies
  at least a block (`RufsIo.ReadAtTwoTo44`, reached by two calls in `RufsThroughFile.FarReadIsReached`).
* C does not define an access past the buffer, nor one at a negative block index, nor a range that overflows
  `off_t`: `Rufs.WriteDefined` and `Rufs.ReadDefined` say when a call is clear of these, and every call with an
  offset below 2^43 and a range that fits `off_t` is (`RufsRuns.NearIsDefined`).
* A `rufs_write` that stops early, for want of space or because the file may not grow further, returns the
  number of bytes it moved, exactly as many as fit, but does not store the inode, so the blocks it had just allocated are lost and the
  size does not grow. The bytes it counts are in the file if and only if the file had their blocks before
  (`RufsIo.PartialCountExactly`), and they are read back if and only if they also lie below the old size
  (`PartialReadBack`). On a new file 65537 bytes are reported stored in part, and none is
  (`RufsIo.WriteReportsLost`, `RufsThroughFile.LostWriteIsReached`). A write stores everything if and only if
  its range fits and `RufsFile.Enough` blocks are free (`RufsIo.WriteStep`).
* `mat_mult` stores the exact dot product just where it fits an `int` (`VmMatrix.ProductExact`); 0x1_0000 times
  0x1_0000 gives 0 (`VmMatrix.ProductOverflows`).

## Model

| member | source | states |
|---|---|---|
| Vm.AddressParts | project3/my_vm.h:53-55 | PDX, PTX and OFF split an address without loss and are the two indices of its virtual page number |
| Vm.BitPageInverse | project3/my_vm.c:349 | The virtual page of a bitmap index and the bitmap index of a page, both modulo 2^32 from the base, undo each other |
| Vm.WalkByAddress | project3/my_vm.c:225-240 | The walk by the bits of the address: ten choose the directory entry, ten the word of the table in memory, bit 0 of an entry is the present bit and bits 12 up the frame |
| Bytes.LoadAfterStore | project3/my_vm.c:304 | A page-table word stored in memory reads back, and no word beside it changes |
| Bytes.BitIsDigit | project4/rufs.h:62-72 | Bit i of a bitmap is the digit of weight 2^(i % 8) of byte i / 8 |
| Bytes.SameBits | project4/rufs.h:62-72 | A bitmap is determined by its bits |
| Tlb.CheckCoherent | project3/my_vm.c:161-182 | A lookup in a coherent TLB gives the frame of the page table or nothing, changes only stamps, and stays coherent |
| Tlb.AddCoherent | project3/my_vm.c:111-159 | Adding a true translation of a page that is not cached keeps every entry true and each page cached once |
| Tlb.InvalidateCoherent | project3/my_vm.c:471-481 | After the invalidation loop every valid entry is true of the table without that page |
| TlbLru.HitMovesToFront | project3/my_vm.c:168-178 | A hit moves the page to the front of the order given by the stamps |
| TlbLru.RefillDropsLast | project3/my_vm.c:122-155 | A refill puts the page in front and, when the table is full, drops the last |
| TlbLru.LookupRefinesAccess | project3/my_vm.c:111-182 | A lookup with its refill is one access of an LRU list of at most 512 pages, while the counter does not wrap |
| TlbLru.LookupRefinesExactly | project3/my_vm.c:111-182 | It is one if and only if the counter does not wrap or one page is cached afterwards |
| TlbLru.WrapEvictsNewest | project3/my_vm.c:133-182 | In a full table of two or more slots with the counter at 2^64 - 1, the page looked up last gets stamp 0 and is the one the next miss evicts |
| TlbLru.InvalidateRefinesDelete | project3/my_vm.c:474-481 | n_free deletes the page from the list and keeps the order of the rest |
| VmInvariant.AllocStep | project3/my_vm.c:193-206 | alloc_phys_frame gives a frame that is no page table, no live page and no frame in flight, and fails only if there is none |
| VmInvariant.InstallStep | project3/my_vm.c:279-289 | Clearing a frame and entering it in the directory maps nothing and disturbs no other frame |
| VmInvariant.MapStep | project3/my_vm.c:297-304 | Storing the entry of a reserved, unmapped page makes it live in its frame and keeps all ownership |
| VmInvariant.UnmapStep | project3/my_vm.c:440-481 | One turn of n_free takes exactly that page out and returns its frame |
| VmInvariant.WriteStep | project3/my_vm.c:511-513 | Client bytes written to the frame of a live page change no page-table entry and no ownership |
| VmAlloc.MapPageStep | project3/my_vm.c:252-309 | map_page of a reserved, unmapped page fails only for want of a page table or at address 0, changing nothing then |
| VmAlloc.RollbackStep | project3/my_vm.c:383-391 | Rolling back returns every frame taken, and the pages already mapped stop being live |
| VmAlloc.MallocKeepsInv | project3/my_vm.c:358-424 | n_malloc keeps the joint invariant and every live byte, on success and on each failure |
| VmAlloc.RequestCovered | project3/my_vm.c:365 | The page count covers the request if and only if it is at most 2^32 - 4096 bytes |
| VmAlloc.HugeRequestGetsNothing | project3/my_vm.c:358-378 | A larger request returns the base of the region without any page |
| VmFree.FreePageStep | project3/my_vm.c:440-481 | Freeing one page keeps the invariant and every other live byte; only that page stops being mapped |
| VmFree.FrameConservation | project3/my_vm.c:193-206 | The frames marked are the present page tables, the live pages and the frames in flight, counted once; alloc_phys_frame fails exactly when that is all of them |
| VmFree.LowestWindowChosen | project3/my_vm.c:314-353 | get_next_avail marks the lowest window of free pages and nothing else, and fails only if there is none |
| VmFree.FreeAllocated | project3/my_vm.c:426-483 | n_free of what n_malloc returned names only live pages and leaves exactly the pages there were |
| VmFree.MallocFreeMalloc | project3/benchmark/test.c:68-78 | n_malloc then n_free of the same size, as an int, restores the virtual bitmap exactly and the physical one up to new page tables; n_malloc again returns the same address |
| VmExact.MallocPagesExact | project3/my_vm.c:377-420 | The allocation loop succeeds if and only if it does not come to virtual page 0 and the frames for its pages and their missing page tables are free |
| VmExact.MallocExactly | project3/my_vm.c:358-424 | n_malloc succeeds if and only if the request is not empty, a free window exists, the lowest one does not contain virtual page 0, and the frames it needs are free |
| VmExact.MallocReturnsLowest | project3/my_vm.c:314-353 | The address returned is 0x4000_0000 plus 4096 times the start of the lowest window of clear bits, modulo 2^32 |
| VmExact.FirstPage | project3/my_vm.c:314-424 | From start-up a request for up to a page gets 0x4000_0000 |
| VmExact.WindowStaysSet | project3/my_vm.c:345-349 | Once a window is found its bits are set, whether n_malloc succeeds or fails |
| VmExact.BigRequestFails | project3/my_vm.c:377-398 | From start-up a request for 0xC000_0000 bytes fails, with frames left, and bits 0 to 0xBFFFF stay set |
| VmExact.NullPageFails | project3/my_vm.c:349-374 | After that a request for one byte fails although frames and the page after virtual page 0 are free |
| VmData.TranslateIsWalk | project3/my_vm.c:211-247 | Whenever the invariant holds, translate returns what the two-level walk alone would |
| VmData.TranslateKeepsInv | project3/my_vm.c:211-247 | translate keeps the invariant and yields the frame of a live page, or nothing |
| VmData.WriteFrameStep | project3/my_vm.c:504-513 | One memcpy of put_data changes that page as client memory sees it, no other, and no translation |
| VmData.PutDataWrites | project3/my_vm.c:488-518 | put_data changes exactly the addressed bytes across frames and alignment, up to the first page not live, and returns 0 if and only if all were |
| VmData.GetDataReads | project3/my_vm.c:520-548 | get_data returns exactly the addressed bytes, up to the first page not live, and changes none |
| VmRuns.StepKeepsInv | project3/my_vm.c:358-548 | Every operation keeps the joint invariant |
| VmRuns.StepRefinesFlat | project3/my_vm.c:358-548 | Each operation is one of a flat memory of live pages, with the same reply |
| VmRuns.RunRefinesFlat | project3/my_vm.c:358-548 | Every run from start-up answers as a flat memory that starts empty |
| VmRuns.EveryReachableState | project3/my_vm.c:111-548 | In every reachable state page tables and live pages are in distinct, disjoint frames, exactly those are marked, each valid TLB entry is what the walk gives, once per page, and translate is the walk |
| VmLru.TranslateIsAccess | project3/my_vm.c:211-247 | translate of a live page is one access of the LRU list |
| VmLru.StepAdvances | project3/my_vm.c:358-548 | Each operation takes the LRU list through an access for every live page it translates and a deletion for every page it frees, in order |
| VmLru.EveryReachableTlbIsLru | project3/my_vm.c:111-548 | In every reachable state the TLB is the LRU list of exactly the pages the run translated and freed, its lookup counter is the number of those translations, as long as that fits 64 bits, and its miss counter the number of translations whose page was not on the list |
| VmLru.HitExactlyWhenTouched | project3/my_vm.c:122-182 | In every state a run without n_free reaches, a page hits if and only if the run translated it and at most 512 distinct pages, itself included, from its last translation on |
| VmThreads.TurnKeepsInv | project3/my_vm.c:366-423 | One lock region of one n_malloc call keeps what all calls in flight rely on, and map_page finds no entry present |
| VmThreads.InterleavedMalloc | project3/my_vm.c:271-420 | Under every interleaving of the lock regions of any n_malloc calls, windows and frames of different calls are disjoint and apart from older pages, a completed call has its pages mapped to its frames, map_page never meets a present entry, the frames marked are exactly the page tables, those of older pages and those the calls hold, and older pages read as before |
| VmOutcome.AloneIsMalloc | project3/my_vm.c:358-424 | A call whose regions run with no other call in between ends as n_malloc: returned with its window, frames and state if and only if n_malloc succeeds, else failed with its state |
| VmOutcome.FailsExactly | project3/my_vm.c:358-424 | Under every schedule a call that failed found a reason at one of its regions, and one that returned found none: an empty request, no free window or a lowest one with page 0 when it entered, no free frame for a page or for a page table it needs |
| VmOutcome.EveryCallEnds | project3/my_vm.c:358-424 | Under every schedule a request for n pages has ended after 3 n + 4 regions of its own |
| VmMatrix.WrapSum | project3/my_vm.c:571 | Wrapping after every term is wrapping the whole sum once |
| VmMatrix.StoreElem | project3/my_vm.c:574-577 | Storing one element of the answer leaves all other elements and all bytes outside it alone |
| VmMatrix.ProductByAddress | project3/my_vm.c:563-577 | After mat_mult the int at answer + 4 (i n + j) is the sum over k of the ints at mat1 + 4 (i n + k) and mat2 + 4 (k n + j), multiplied, in 32-bit arithmetic |
| VmMatrix.ProductExact | project3/my_vm.c:553-580 | That int is the exact sum if and only if the sum fits an int |
| VmMatrix.ProductOverflows | project3/my_vm.c:561-577 | The product of two one-element matrices of 0x1_0000 each is stored as 0 |
| VmMatrix.ReadsInt | project3/my_vm.c:568-569 | get_data of four live bytes gives the int stored there, wherever its pages are |
| VmMatrix.WritesInt | project3/my_vm.c:577 | put_data of four live bytes stores them and nothing else |
| VmMatrix.LogGet | project3/my_vm.c:568-569 | A get_data of mat_mult extends its run by that call, whatever is mapped |
| VmMatrix.LogPut | project3/my_vm.c:577 | A put_data of mat_mult extends its run by that call and changes no translation |
| VmMachine.Simulator.constructor | project3/my_vm.c:44-100 | A fresh simulator owns nothing and satisfies the invariant |
| VmMachine.Simulator.TlbCheck | project3/my_vm.c:161-182 | The search loop is the TLB lookup the lemmas are about |
| VmMachine.Simulator.TlbAdd | project3/my_vm.c:111-159 | The two searches pick the first empty slot or the smallest stamp |
| VmMachine.Simulator.AllocPhysFrame | project3/my_vm.c:193-206 | The scan takes the lowest clear bit, and only that bit changes |
| VmMachine.Simulator.Translate | project3/my_vm.c:211-247 | TLB, two-level walk through memory words, and refill |
| VmMachine.Simulator.MapPage | project3/my_vm.c:252-309 | map_page in place |
| VmMachine.Simulator.GetNextAvail | project3/my_vm.c:314-353 | The nested window search and the marking loop |
| VmMachine.Simulator.NMalloc | project3/my_vm.c:358-424 | n_malloc in place keeps the invariant and every byte of pages that were live |
| VmMachine.Simulator.NFree | project3/my_vm.c:426-483 | n_free in place keeps the invariant; the pages of the range stop being live |
| VmMachine.Simulator.PutData | project3/my_vm.c:488-518 | The copy loop in place, with its return code |
| VmMachine.Simulator.GetData | project3/my_vm.c:520-548 | The copy loop in place: the front of the buffer is what was read, the rest as before |
| VmMachine.Simulator.MatMult | project3/my_vm.c:553-580 | On live matrices, or any pages the client may name, the call is a run of four-byte get_data of input elements and put_data of answer elements, so all that is proved of runs holds of it; for live matrices with the answer apart, each element of the answer, at its row-major address, is its row of mat1 times its column of mat2, in 32-bit arithmetic, and no live byte outside the answer changes |
| RufsLayout.InodeOfWithInode | project4/rufs.c:81-105 | writei then readi: the inode written, and the other fifteen of the block unchanged |
| RufsLayout.InodeFields | project4/rufs.h:38-47 | Where writei puts each field: ino, valid, size, type, link and sixteen pointers at 0, 2, 4, 8, 12 and 16 of the 256 bytes of an inode |
| RufsLayout.EntOfWithEnt | project4/rufs.c:151-157 | An entry written to a directory block reads back, and the other eighteen are unchanged |
| RufsLayout.EntFields | project4/rufs.h:49-54 | ino, valid, name and len lie at 0, 2, 4 and 212 of the 214 bytes of an entry |
| RufsDisk.DecodeInode | project4/rufs.c:93-105 | Writing an inode slot on the image changes just that inode of the file system |
| RufsDisk.DecodeBlock | project4/rufs.c:157 | Writing a data block changes just that block of the file system |
| RufsDisk.DecodeInodeBit | project4/rufs.c:66-69 | Setting a bit of block 1 marks just that inode |
| RufsDisk.DecodeDataBit | project4/rufs.c:71-75 | Setting a bit of block 2 marks just that data block |
| RufsDisk.DecodeCleared | project4/rufs.c:261-263 | Cleared metadata blocks hold no inode and no marked block |
| RufsDisk.SuperLeads | project4/rufs.c:238-259 | The superblock of rufs_mkfs has the constants the code assigns, byte by byte, and its words lead to both bitmaps, the inodes and the data blocks |
| RufsDisk.StillLeads | project4/rufs.c:323-325 | As long as block 0 stays, its words lead to the bitmaps, inodes and blocks of whatever the image holds |
| RufsInvariant.AllocBlkStep | project4/rufs.c:71-75 | get_avail_blkno gives a data block that no inode points at, and fails only if all are marked |
| RufsInvariant.SetInodeStep | project4/rufs.c:93-105 | Writing an inode whose blocks are marked and its own keeps every block with one owner |
| RufsInvariant.KeptNode | project4/rufs.c:51-75 | A step that changes only blocks of one inode, or fresh ones, leaves every other inode's bytes alone |
| RufsDir.FindIsLookup | project4/rufs.c:111-133 | dir_find is lookup in a finite map; the recorded size is 214 times the number of its keys |
| RufsDir.FindSlot | project4/rufs.c:118-130 | The scan stops at the one slot that carries the name, or at none |
| RufsDir.NextSlot | project4/rufs.c:140-178 | The free slot dir_add finds is the one after the last entry, and the pointer it fills the next nil one |
| RufsDir.DirAddStep | project4/rufs.c:136-195 | dir_add returns 0 exactly when the name is absent and there is room, -EEXIST or -ENOSPC otherwise; on failure no node changes |
| RufsDir.AddedIsInsert | project4/rufs.c:136-195 | A successful dir_add inserts the name in the map |
| RufsTree.OneParent | project4/rufs.c:392-471 | Each node but the root is named by exactly one entry other than "." and "..", in a directory with a smaller number |
| RufsTree.EntriesNameNodes | project4/rufs.c:407-436 | Every valid entry of a directory names a valid node: itself, its parent or a child with a larger number |
| RufsTree.SameTreeKeepsInv | project4/rufs.c:480-553 | Steps that touch no directory and no validity, number or kind keep the whole invariant |
| RufsMake.ChildKeepsInv | project4/rufs.c:407-436 | A new node entered in one directory keeps ownership, packing, unique names and the tree |
| RufsMake.CreateStep | project4/rufs.c:439-471 | rufs_create returns exactly the code its parent, name, free inodes and room determine; it adds one child on success, an empty file with link count 1, and touches no node on failure |
| RufsMake.MkdirStep | project4/rufs.c:392-437 | The same for rufs_mkdir, which also needs a block of its own; the new directory has link count 2 |
| RufsMake.CreateTakes | project4/rufs.c:452-470 | rufs_create takes the lowest free inode bit, and the lowest free block bit if the blocks of the parent are full; a failing one changes nothing but for want of space, and then exactly the lowest free inode bit and with it the lowest free block bit are lost, as far as there are any |
| RufsMake.MkdirTakes | project4/rufs.c:405-436 | The same for rufs_mkdir, which takes, or loses, one more block for the directory itself |
| RufsPath.PathKept | project4/rufs.c:201-228 | Every path that resolved before a child was added resolves to the same number |
| RufsPath.PathMade | project4/rufs.c:201-228 | The path of the new entry resolves to the new node |
| RufsPath.CreateInserts | project4/rufs.c:439-471 | When rufs_create returns 0 its path, unless it is "/", resolves to the new file; older paths are stable; on failure all paths are as before |
| RufsPath.MkdirInserts | project4/rufs.c:392-437 | The same for rufs_mkdir, with a directory of link count 2 at the path |
| Rufs.IndexNarrows | project4/rufs.c:491-492 | The int block index is the one counted from the offset less multiples of 2^44, as long as it is not negative |
| RufsFile.ReadFromReads | project4/rufs.c:489-506 | The read loop returns the bytes from where the offset lands to the last block or the first hole |
| RufsBytes.FindIsLookIn | project4/rufs.c:111-133 | dir_find on any node, directory or not, reads nothing but its bytes |
| RufsFile.WithBlockStep | project4/rufs.c:524-530 | A missing block is replaced by a free one that reads as zeros; nothing else of the file changes |
| RufsFile.WriteFromWrites | project4/rufs.c:518-541 | The write loop stores exactly the bytes it reports from where the offset lands, zero-fills blocks it allocates, changes no other file, and finishes if and only if the range fits and enough blocks are free |
| RufsIo.WriteStep | project4/rufs.c:513-553 | rufs_write stores everything if and only if it fits from where the offset lands; else it gets exactly as far as it fits and returns that count, or its error code where that is 0; it takes as many blocks as it finds missing, in every case keeps the invariant and every other node, and on an early return changes only bytes of blocks the file had |
| RufsIo.WriteCodes | project4/rufs.c:520-527 | For data that is not empty it returns -EFBIG if and only if the offset lands past the sixteen blocks, and -ENOSPC if and only if it lands in them where a block is missing and none is free |
| RufsIo.ReadStep | project4/rufs.c:480-511 | rufs_read returns what lies where the offset lands, below 2^32 the contents cut at the size or the first hole, and changes only the access time, unless it returns early |
| RufsIo.ContentsUnique | project4/rufs.c:486-506 | Those contents are determined |
| RufsIo.FarRead | project4/rufs.c:485-496 | Past 2^32 a read gives nothing if and only if the 32-bit comparison stops it or it lands past the blocks or in a hole; below 2^44 always |
| RufsIo.FarWrite | project4/rufs.c:520-522 | A write past the sixteen blocks is refused if and only if it lands past them |
| RufsIo.WriteAtTwoTo44 | project4/rufs.c:520-541 | At offset 2^44 a write goes to the start of the file and reports success |
| RufsIo.ReadStaysExactly | project4/rufs.c:485-506 | rufs_read copies at most the bytes asked for if and only if its offset is below 2^32 or stopped by the comparison, or within that many bytes of where it lands the blocks end or one is missing |
| RufsIo.ReadAtTwoTo44 | project4/rufs.c:485-503 | Reading one byte at 2^44 from a file whose first block is present copies at least 4096 |
| RufsIo.PartialCountExactly | project4/rufs.c:522-541 | The bytes a partial rufs_write counts are all in the file if and only if the file had their blocks before the call |
| RufsIo.PartialReadBack | project4/rufs.c:480-553 | A read of that range gives them back if and only if, besides, they lie below the old size |
| RufsIo.WriteReportsLost | project4/rufs.c:522-527 | Writing 65537 bytes to a file without blocks returns a positive count and stores nothing |
| RufsAgree.WriteThenRead | project4/rufs.c:480-553 | What a complete write stored is what a read of the same range returns, on every path that does not go through the file it names; the size is the larger of old and new end; other bytes are as before, or zero in new blocks |
| RufsAgree.WriteReadExactly | project4/rufs.c:201-228 | Whatever fits is read back at its path if and only if no component of the path is looked up in the file it names |
| RufsRuns.MkfsInv | project4/rufs.c:234-310 | rufs_mkfs makes a file system that satisfies the invariant, whatever the disk held |
| RufsRuns.StepKeepsInv | project4/rufs.c:392-553 | Every call that C defines keeps the invariant, failures included |
| RufsRuns.NearIsDefined | project4/rufs.c:491-520 | Calls with offsets below 2^43 and ranges that fit off_t are defined in every state |
| RufsRuns.EveryReachableState | project4/rufs.c:234-553 | After any calls from rufs_mkfs that C defines: blocks in use are in the data region, marked and of one owner; directories are packed with unique names; the graph is a tree; every node is marked and has link count 2 if it is a directory, 1 if it is a file |
| RufsRefine.StepRefinesTree | project4/rufs.c:392-553 | Each call is one of a tree of folders and files, on any path, with the same result and bytes |
| RufsRefine.RunRefinesTree | project4/rufs.c:392-553 | Whole runs are runs of that tree, call by call |
| RufsRefine.MkfsView | project4/rufs.c:234-310 | A fresh file system is the tree of one empty folder |
| RufsRefine.CreateRootIsLost | project4/rufs.c:440-445 | rufs_create of "/" on a fresh file system returns 0 and makes a file that no path split at its slashes reaches |
| RufsRefine.MkdirRootIsLost | project4/rufs.c:393-398 | The same for rufs_mkdir |
| RufsThroughFile.WrittenThroughItself | project4/rufs.c:218-221 | Writing through a path that leads through the file itself can succeed and make that path vanish |
| RufsThroughFile.NamesItselfIsReached | project4/rufs.c:111-133 | Two calls on a fresh file system reach such a file |
| RufsThroughFile.FarReadIsReached | project4/rufs.c:485-503 | Two calls on a fresh file system, and a read of one byte at 2^44 copies a block |
| RufsThroughFile.LostWriteIsReached | project4/rufs.c:522-527 | One call on a fresh file system, and a write of 65537 bytes reports some of them and stores none |
| RufsMachine.FileSystem.BitmapAllocBit | project4/rufs.c:51-64 | The scan finds the lowest clear bit and sets only that one |
| RufsMachine.FileSystem.Readi | project4/rufs.c:81-91 | The inode slot read is that inode of the file system |
| RufsMachine.FileSystem.Writei | project4/rufs.c:93-105 | Read, patch and write back changes that inode only |
| RufsMachine.FileSystem.DirFind | project4/rufs.c:111-133 | The nested scan of blocks and entries finds the first match |
| RufsMachine.FileSystem.DirAdd | project4/rufs.c:136-195 | dir_add in place, with its return code |
| RufsMachine.FileSystem.GetNodeByPath | project4/rufs.c:201-228 | The component loop in place |
| RufsMachine.FileSystem.RufsMkfs | project4/rufs.c:234-310 | From any disk to a valid file system, with a zero-padded superblock whose words lead to its bitmaps, inodes and data blocks; the data blocks but the first are as they were |
| RufsMachine.FileSystem.RufsMkdir | project4/rufs.c:392-437 | rufs_mkdir in place keeps the invariant and the superblock |
| RufsMachine.FileSystem.RufsCreate | project4/rufs.c:439-471 | rufs_create in place keeps the invariant and the superblock |
| RufsMachine.FileSystem.RufsRead | project4/rufs.c:480-511 | rufs_read in place, into a buffer of at least the bytes asked for: its return code and what it copies to the front of the buffer, and nothing beyond |
| RufsMachine.FileSystem.RufsWrite | project4/rufs.c:513-553 | rufs_write in place, with its return code, error codes and early returns |
| Heap.EnqueueAdds | project2-release/thread-worker.h:91-121 | enqueue keeps heap order and adds exactly the node |
| Heap.DequeueTakesMin | project2-release/thread-worker.h:123-157 | dequeue takes a node of least timeQuant, keeps heap order and removes exactly that node |
| Heap.SiftUpOrders | project2-release/thread-worker.h:105-117 | Sifting up restores heap order when only the edge above is wrong |
| Heap.SiftDownOrders | project2-release/thread-worker.h:192-211 | Sifting down leaves at most the edge above its stop wrong, and none if it moved |
| Heap.RemoveRestores | project2-release/thread-worker.h:188-223 | Removing from any position and sifting down, then up, restores heap order and removes exactly that node |
| Heap.RemoveNodeRemoves | project2-release/thread-worker.h:169-224 | With distinct thread numbers removeNode takes out the node that has the number, or returns -1 exactly when none has |
| Heap.StepRefinesBag | project2-release/thread-worker.h:77-224 | Each operation is one of a priority multiset |
| Heap.RunRefinesBag | project2-release/thread-worker.h:77-224 | So is every step of any sequence of operations, and heap order holds throughout |
| Heap.DrainSorts | project2-release/thread-worker.h:123-157 | Draining yields the contents in non-decreasing order |
| HeapMachine.MinHeap.HeapResize | project2-release/thread-worker.h:77-89 | Doubling the array keeps the contents |
| HeapMachine.MinHeap.Enqueue | project2-release/thread-worker.h:91-121 | The insertion and the sift-up loop in the array |
| HeapMachine.MinHeap.Dequeue | project2-release/thread-worker.h:123-157 | The root and the sift-down loop in the array, null from an empty heap |
| HeapMachine.MinHeap.SearchByTID | project2-release/thread-worker.h:159-167 | The first node with the number, or null |
| HeapMachine.MinHeap.RemoveNode | project2-release/thread-worker.h:169-224 | removeNode in the array, with its return code |
| Sched.ScheduleStep | project2-release/thread-worker.c:426-447 | A completed schedule queues a running thread once and leaves a thread of least timeQuant running, or nothing only if nothing is ready |
| Sched.PsjfStep | project2-release/thread-worker.c:177-205 | The same for sched_psjf alone |
| Sched.CreateStep | project2-release/thread-worker.c:60-73 | worker_create keeps each thread in its one place |
| Sched.LockStep | project2-release/thread-worker.c:133-144 | So does one test of worker_mutex_lock |
| Sched.UnlockStep | project2-release/thread-worker.c:147-158 | So does worker_mutex_unlock |
| Sched.StepKeepsInv | project2-release/thread-worker.c:36-205 | Every call with its schedule step keeps each thread in its one place, and afterwards nothing ready is shorter than what runs |
| Sched.StepRefinesPool | project2-release/thread-worker.c:36-205 | What each call does to the threads ready, waiting and running: create, yield and the timer make one ready; exit finishes the caller; a refused lock moves the caller to those waiting, a free one is taken; unlock frees the lock and makes one waiting thread of least timeQuant ready, if there is one; where the processor is given up, a ready thread of least timeQuant runs next. Nothing else changes |
| Sched.RunRefinesPool | project2-release/thread-worker.c:36-205 | Every call of every run does that |
| Sched.EveryReachableState | project2-release/thread-worker.c:36-205 | In every reachable state an unfinished thread is current and RUNNING, or once in the run queue and READY, or once in one mutex queue and BLOCKED; a finished one is nowhere |
| SchedMachine.Scheduler.SchedPsjf | project2-release/thread-worker.c:177-205 | sched_psjf in place, up to the context switch |
| SchedMachine.Scheduler.Schedule | project2-release/thread-worker.c:415-447 | schedule in place |
| SchedMachine.Scheduler.WorkerCreate | project2-release/thread-worker.c:60-73 | worker_create in place: the next number and one place in the run queue |
| SchedMachine.Scheduler.WorkerYield | project2-release/thread-worker.c:79-86 | worker_yield and the schedule step after it |
| SchedMachine.Scheduler.WorkerExit | project2-release/thread-worker.c:89-94 | worker_exit and the schedule step after it |
| SchedMachine.Scheduler.Preempt | project2-release/thread-worker.c:415-447 | The timer's schedule step |
| SchedMachine.Scheduler.WorkerMutexLock | project2-release/thread-worker.c:133-144 | One test of the lock: taken, or the caller blocked and another thread scheduled |
| SchedMachine.Scheduler.WorkerMutexUnlock | project2-release/thread-worker.c:147-158 | worker_mutex_unlock in place |

## Left out

- Host allocation failure: `malloc`, `realloc` and `calloc` succeed; `ensure_vm_init` is the constructor.
- Interleavings with `n_free`: it clears the bitmaps before the entry and the TLB in separate lock regions, so it is sequential here; only `n_malloc` is interleaved.
- TLB hits and misses by several threads at once, and the quotient of its two counters that is printed.
- TlbLru.LookupRefinesAccess: claimed while the 64-bit lookup counter does not wrap; `TlbLru.LookupRefinesExactly` has both halves.
- VmMachine.Simulator.MatMult: signed overflow, undefined in C, is taken to wrap; each matrix is smaller than 2^31 bytes, since the code computes offsets in `int`.
- Host byte order other than little-endian and other layouts of `struct stat` (144 bytes here).
- RUFS reads and writes that C does not define: a negative block index, an end of range that overflows `off_t`, or a copy past the end of the buffer.
- RUFS components longer than 208 bytes and paths of PATH_MAX or more.
- RUFS in-memory superblock: its fields are constants of the model; `rufs_init` on an existing image, `getattr`, `open`, `opendir`, `readdir` and the stubs are FUSE plumbing.
- Block I/O errors and crash consistency: the code has no ordering or journal to support a claim.
- Blocks, inode numbers and bits leaked by failing calls are never reclaimed: "pointed at implies marked" is proved, not the converse, which `RufsMake.CreateTakes` contradicts.
- `worker_join` and what it frees, register contexts and stacks, and where a blocked thread resumes: `worker_mutex_lock` switches without saving the caller, so mutual exclusion is not claimed, only where each control block is.
- The queues of mutexes are taken to be initialised with capacity at least 1, and so is the run queue, which the code never passes to `initHeap`; a capacity of 0 would never grow.
- The MLFQ and CFS policies: `init_mlfq` empties every queue on each call and `schedule` queues threads elsewhere, so there is no guarantee to prove.
- The first project and the benchmarks: small exercises with only easy claims.
