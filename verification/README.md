# lykOS kernel core in Dafny

lykOS is a small x86_64 kernel written in C. This project models the parts of it whose correctness rests on data
structures and protocols, and proves what those parts promise:

- the red-black tree behind every page cache (`RbShape`, `RbLinks`, `RbColour`, `RbTree`);
- the buddy allocator for physical pages (`BuddyLayout`, `BuddyRuns`, `Pmm`);
- four-level page tables as a flat page map per address space (`PageTables`, `Ptm`), in the format of long-mode page
  translation, section 5.3 of the AMD64 Architecture Programmer's Manual volume 2;
- address spaces on top of them: segments, page faults, populating and copies (`Segments`, `VirtualBytes`, `Vmm`);
- the write-through page cache of the virtual file system (`FileBytes`, `Vfs`);
- the three-state handoff mutex and the multi-core run queue as interleaved steps (`Mutex`, `Sched`);
- the slab allocator with per-CPU magazines and the heap of eight size classes (`Slabs`, `KmemRuns`, `Kmem`,
  `SizeClasses`, `HeapRuns`, `Heap`);
- the integer formatter of printf (`Digits`, `TextLaws`, `Printf`);
- the intrusive list (`List`).

`Words`, `Pow` and `Bits` hold 64-bit arithmetic, powers of two and the bit operations, each proved against plain
arithmetic.

How it is modelled:

- An object that the C code updates in place is a class whose methods do the same updates. The pointer structures (tree,
  list) are real heap structures; a ghost shape or sequence says what they stand for. Page tables are arrays written in
  place.
- A body under a spinlock is one step. In the mutex every atomic operation is a step of its own.
- A frame and its alias in the direct map are one object. Addresses of the buddy allocator are page numbers. `vfs_close`
  hands the backend a frame's physical address without the offset of the direct map (kernel/src/fs/vfs.c:164); the model
  takes that for the frame.
- `panic` and a failed `ASSERT` do not return: a method reports them with `None`, `null`, `false` or a `Failed` result,
  or its `requires` states the assertion when it is a demand on the caller.
- Ghost parameters such as the path to a node, or a position in a list, name what the caller's pointer already
  determines.
- The contract of a whole run ties each step to its call: a run of the buddy allocator answers a list of requests
  (`BuddyRuns.Answers`), a run of a slab cache or of the heap is a trace of states that fixes objects and magazines
  (`KmemRuns.Traced`, `HeapRuns.HeapTraced`), a run of a file is compared with the same calls on the bare bytes
  (`Vfs.Replies`, `Vfs.FinalFile`). A run ends early only at a request that cannot be met.
- The memory map the boot loader hands over has sorted, page-aligned usable entries that do not overlap, as the Limine
  boot protocol guarantees.

What turned out to be different from what the code intends:

- `kmem_free_cache`, third branch: the loaded magazine is appended to the full list and the head of the full list is
  popped. That list is otherwise always empty, so the same full magazine comes back and its count is zeroed: its
  objects, and those of the previous magazine, are lost. `Kmem.Cache.Free` and `Kmem.Cache.Serve` prove that nothing is
  lost exactly when no free meets that guard; `Kmem.Cache.Leak` is such a run, 65 allocations and 65 frees on one CPU,
  and completes on any supply of 1153 pages. For the same reason the depot branch of `kmem_alloc_cache` is never taken.
- `vmm_mmap` does not look at the 0 with which `vmm_find_space` reports failure. `Vmm.AddrSpace.Mmap` proves that the
  segment list stays sorted, disjoint and in bounds exactly when the request is free, refused, or has room elsewhere;
  `Segments.NoRoom` is a request without room that ends up on top of another segment.
- `vmm_pagefault_handler` fills a private file page from the faulting address instead of the start of its page.
  `Segments.FileFault` proves that the page is right for every file exactly if the address is page-aligned. Populating
  at once does not have this fault (`Segments.PopulateShows`).
- `vfs_close` writes whole pages, so a file that ends inside a cached page grows. `Vfs.VNode.Close` gives the exact
  length: the file is unchanged exactly if every cached page ends within it. `Vfs.ReadOnceAndClose` is a file of 10
  bytes, or any up to a page, that is 4096 bytes long after one read.
- A printed number reads back exactly if the digit places left in the 32-byte buffer can hold it
  (`Printf.SurvivesExactly`). The alternative form may take digits away for its prefix: `Printf.HashEats` prints 0x1234
  as 0x34. The sign survives exactly when the buffer has a slot left.

## Model

| member | source | states |
|---|---|---|
| RbTree.Tree.LeftRotate | kernel/src/lib/rbtree.c:3-21 | in place, at any position of any tree: the heap then holds exactly the left-rotated shape, parent links included |
| RbTree.Tree.RightRotate | kernel/src/lib/rbtree.c:23-41 | the mirror image |
| RbShape.RotationInorder | kernel/src/lib/rbtree.c:3-41 | rotations keep the order of the keys |
| RbTree.Tree.PushRed | kernel/src/lib/rbtree.c:55-61 | red uncle: recolouring moves the one possible violation two levels up |
| RbTree.Tree.RotateInnerLeft | kernel/src/lib/rbtree.c:64-68 | an inner focus becomes an outer one, contents unchanged |
| RbTree.Tree.RotateOuterLeft | kernel/src/lib/rbtree.c:69-71 | an outer focus with a black uncle: one rotation removes the violation |
| RbTree.Tree.FixInsertLeft | kernel/src/lib/rbtree.c:53-72 | one pass of the loop: same contents, and a violation that is left is strictly nearer the root |
| RbTree.Tree.FixInsertRight | kernel/src/lib/rbtree.c:74-96 | the mirror image |
| RbTree.Tree.FixInsert | kernel/src/lib/rbtree.c:43-101 | from a tree whose only violation is a red parent of the new node, terminates in a red-black tree with the same contents; the grandparent of a red parent is never null, so the early break of lines 48-49 is never taken |
| RbTree.Tree.FindSlot | kernel/src/lib/rbtree.c:148-161 | finds the key if it is there, else the leaf where all smaller keys are left and all larger ones right |
| RbTree.Tree.Insert | kernel/src/lib/rbtree.c:146-177 | false exactly if the key is present, and then nothing changes; else a valid red-black tree with exactly the new node added, in order |
| RbTree.Tree.TreeMin | kernel/src/lib/rbtree.c:103-109 | the first node of the subtree in key order |
| RbTree.Tree.Splice | kernel/src/lib/rbtree.c:111-122 | replaces a node with at most one child by that child; the node's own fields stay |
| RbTree.Tree.RemoveInner | kernel/src/lib/rbtree.c:204-228 | a node with two children is replaced by its successor by relinking, not by copying keys; what is missing is at most one black node at x |
| RbTree.Tree.Unlink | kernel/src/lib/rbtree.c:185-228 | takes exactly z out; the tree is red-black, or one black node short at x, according to the colour taken out |
| RbColour.SiblingExists | kernel/src/lib/rbtree.c:239-251 | a position that is one black short has a sibling, so w is never null, and x == x_parent->left is decided even for a null x |
| RbTree.Tree.RedSiblingL | kernel/src/lib/rbtree.c:243-249 | red sibling: after the rotation the sibling is black |
| RbTree.Tree.DeficitUpward | kernel/src/lib/rbtree.c:251-257 | black sibling with black children: the missing black node moves to the parent |
| RbTree.Tree.InnerNephewL | kernel/src/lib/rbtree.c:260-267 | a red inner nephew is turned into a red outer one |
| RbTree.Tree.OuterNephewL | kernel/src/lib/rbtree.c:269-274 | a red outer nephew: one rotation restores all colour rules |
| RbTree.Tree.FixRemoveLeft | kernel/src/lib/rbtree.c:241-277 | one pass of the loop: same contents; done, or at a red focus, or strictly nearer the root |
| RbTree.Tree.FixRemoveRight | kernel/src/lib/rbtree.c:279-318 | the mirror image |
| RbTree.Tree.FixRemove | kernel/src/lib/rbtree.c:230-323 | from a tree one black node short, terminates in a red-black tree with the same contents |
| RbTree.Tree.Remove | kernel/src/lib/rbtree.c:179-331 | null exactly if the key is absent, and then nothing changes; else a valid red-black tree with exactly that node gone, all other nodes in order, its links cleared |
| RbTree.Tree.Find | kernel/src/lib/rbtree.c:128-144 | a node with the key exactly if there is one; the place where the descent ends brackets the key, and the number of nodes inspected is the length of the way there, at most 2*log2(n+1) |
| RbShape.SearchBound | kernel/src/lib/rbtree.c:128-144 | no way down a red-black tree of n nodes is longer than 2*log2(n+1) |
| RbTree.Tree.First | kernel/src/lib/rbtree.c:333-336 | the first node in key order |
| RbTree.Tree.Next | kernel/src/lib/rbtree.c:338-354 | the node after n in key order, null after the last |
| Pmm.SmallestOrder | kernel/src/mm/pmm.c:30-40 | the order is the smallest whose block holds that many pages |
| BuddyLayout.BuddyPair | kernel/src/mm/pmm.c:78 | XOR with the block size: an aligned block and its buddy are the two halves of one aligned block, and each is the other's buddy |
| BuddyLayout.BuddyIsListed | kernel/src/mm/pmm.c:104-122 | no stale descriptor is acted on: a buddy read as free with the right order heads a free block of that order on that list |
| BuddyLayout.SplitStep | kernel/src/mm/pmm.c:75-83 | cutting a block keeps blocks, descriptors and lists in agreement |
| BuddyLayout.MergeStep | kernel/src/mm/pmm.c:110-119 | joining two buddies does too, though the absorbed descriptor is left as it was |
| Pmm.Allocator.FindLevel | kernel/src/mm/pmm.c:63-70 | the lowest non-empty list from the order on; past the last list exactly if no free block is large enough |
| Pmm.Allocator.SplitDown | kernel/src/mm/pmm.c:75-83 | the block is halved down to the order, the right halves become free |
| Pmm.Allocator.Alloc | kernel/src/mm/pmm.c:57-90 | none only if no free block is large enough; else the head of the lowest sufficient list, cut down to the order, every invariant kept |
| Pmm.Allocator.Release | kernel/src/mm/pmm.c:92-129 | the outstanding block is joined with free buddies as far as they reach, every invariant kept |
| Pmm.Allocator.CountBlocks | kernel/src/mm/pmm.c:138-151 | one past the last page of the usable entry that reaches furthest |
| Pmm.Allocator.FindHost | kernel/src/mm/pmm.c:153-166 | the first usable entry that can hold the descriptors, or none |
| Pmm.Allocator.Carve | kernel/src/mm/pmm.c:187-205 | the greedy loop covers exactly the stretch with aligned blocks, each as large as alignment and end allow |
| Pmm.Allocator.Init | kernel/src/mm/pmm.c:133-209 | a page is managed, and free, exactly if it lies in a usable entry and holds no byte of the descriptor array, whose length is one past the last usable page; no two free buddies if usable entries do not touch; fails exactly if no entry can hold the descriptors |
| Pmm.ManagedPages | kernel/src/mm/pmm.c:175-206 | the stretches that are carved hold exactly the usable pages without a byte of the descriptor array, which starts at the first page of its entry |
| BuddyLayout.GreedyCoalesced | kernel/src/mm/pmm.c:175-206 | greedy carving of stretches that do not touch leaves no pair of free buddies |
| BuddyLayout.AllocCoalesced | kernel/src/mm/pmm.c:57-90 | allocation keeps free memory maximally coalesced |
| BuddyLayout.FreeCoalesced | kernel/src/mm/pmm.c:92-129 | so does freeing |
| BuddyLayout.AllocFreeRestores | kernel/src/mm/pmm.c:63-126 | freeing right after allocating restores exactly the blocks there were, for every order |
| BuddyRuns.RunKeeps | kernel/src/mm/pmm.c:57-129 | over any run the managed pages stay partitioned into aligned blocks, free or outstanding; coalesced memory stays so |
| BuddyRuns.PageTotal | kernel/src/mm/pmm.c:57-129 | over any run free and outstanding pages are disjoint and add up to the same total |
| BuddyRuns.AllocOutstanding | kernel/src/mm/pmm.c:57-90 | an allocation adds exactly its own block, at the order asked for, to what callers hold |
| BuddyRuns.FreeOutstanding | kernel/src/mm/pmm.c:92-129 | a release takes exactly its own block away, however far it is merged |
| Pmm.Allocator.Serve | kernel/src/mm/pmm.c:57-129 | any list of requests on the descriptors and lists themselves, answered one by one: an allocation takes a free block and cuts it to the order asked, a release gives back the block held there; callers hold exactly that, blocks do not overlap, pages add up, coalesced memory stays so; stops early only at an order no free block can serve |
| Pmm.Allocator.BootAndServe | kernel/src/mm/pmm.c:57-209 | the same for every list of requests from the layout pmm_init leaves, which is exactly the usable pages without a byte of the descriptor array; fails exactly if no entry can hold the descriptors |
| PageTables.UserEntryFields | kernel/src/arch/x86_64/ptm.c:36 | a table entry made from an address is present, writable and open to user mode, with no other flag, and gives the address back |
| PageTables.KernelEntryFields | kernel/src/arch/x86_64/ptm.c:157 | an upper-half entry is present, writable, global and closed to user mode, and gives the address back |
| PageTables.UpperAgrees | kernel/src/arch/x86_64/ptm.c:103-114 | all address spaces translate the upper half alike |
| PageTables.WhoMayUse | kernel/src/arch/x86_64/ptm.c:25-157 | of all tables the operations can produce: a mapped lower-half page is writable and open to user mode at every level, and the way to an upper-half page is closed to user mode at the first |
| PageTables.LeafWritten | kernel/src/arch/x86_64/ptm.c:66-72 | writing one leaf entry changes the translation of exactly the pages that share it |
| Ptm.Memory.NextLevel | kernel/src/arch/x86_64/ptm.c:27-31 | follows a present entry to the one table of that place |
| Ptm.Memory.NextLevelAlloc | kernel/src/arch/x86_64/ptm.c:25-38 | an absent entry gets a new empty table, a present one is followed; no translation changes; fails exactly if the entry is absent and no frame is left, and takes one frame exactly if it was absent |
| Ptm.Memory.Map | kernel/src/arch/x86_64/ptm.c:54-73 | that page then translates to the frame; every other page of every map is as before, and an upper-half mapping appears in all maps; three frames suffice, no more are taken, and every frame taken becomes a table |
| Ptm.Memory.Unmap | kernel/src/arch/x86_64/ptm.c:75-96 | that page is unmapped, every other as before; missing levels change nothing |
| Ptm.Memory.VirtToPhys | kernel/src/arch/x86_64/ptm.c:121-144 | the frame of the flat map plus the offset, or BAD_ADDRESS exactly if the page is unmapped |
| Ptm.Memory.NewMap | kernel/src/arch/x86_64/ptm.c:103-114 | a new map with an empty lower half on the next frame; other maps are as before; fails exactly if no frame is left |
| Ptm.Memory.Init | kernel/src/arch/x86_64/ptm.c:146-159 | the 256 upper-half tables are in place and no map exists; fails exactly with fewer than 256 frames or a frame at address 0 among the first 256 |
| Vfs.VNode.LoadPage | kernel/src/fs/vfs.c:204-233 | the cached page of the offset, every cached page right; the backend is read exactly on a miss, for that page |
| Vfs.VNode.ReadChunk | kernel/src/fs/vfs.c:198-241 | one turn copies out bytes of the file |
| Vfs.VNode.Read | kernel/src/fs/vfs.c:184-247 | cached or not, any offset and length: the bytes of the file, every cached page still equal to the file there, exactly the pages of the request newly cached, and the backend read once for each page that was missing, in order |
| Vfs.VNode.PageForWrite | kernel/src/fs/vfs.c:269-296 | the page to write to, cached under its offset afterwards; its contents may be anything only if it will be overwritten whole, and only then the backend is not read on a miss |
| Vfs.WriteThrough | kernel/src/fs/vfs.c:298-311 | patching page and file alike keeps every page right, full-page misses without a fill read included |
| Vfs.VNode.Write | kernel/src/fs/vfs.c:249-322 | cached or not: exactly the bytes written change, the file grows as far as needed, every cached page right; a cached file then has exactly the pages of the request newly cached, the backend was asked for one write for each page touched, of the bytes written there, and read once for each missing page that the request covers in part; an uncached one was asked for a single write |
| Vfs.AsksTwice | kernel/src/fs/vfs.c:269-296 | so a write reads at most two pages from the backend, however long it is |
| Vfs.VNode.Serve | kernel/src/fs/vfs.c:184-322 | any sequence of reads and writes returns the replies and leaves the file of the uncached calls |
| Vfs.VNode.Flush | kernel/src/fs/vfs.c:160-169 | one backend write of the cached page at its offset, which changes no byte of the file |
| Vfs.VNode.CloseOne | kernel/src/fs/vfs.c:156-176 | one turn: the page goes to the backend once, as it was cached, and the successor read before the removal is the first page left after it |
| Vfs.VNode.Close | kernel/src/fs/vfs.c:153-182 | the backend is asked for exactly one write per cached page, of its contents, in strictly increasing order of offset; the cache ends empty, no byte of the file changes, its length becomes the end of the last cached page if that is larger, and it is unchanged exactly if every cached page ends within it |
| Vfs.ReadOnceAndClose | kernel/src/fs/vfs.c:153-247 | a cached file of at most a page, read once and closed, is a page long, with the same bytes |
| Vfs.WriteOnceAndClose | kernel/src/fs/vfs.c:153-322 | a new cached file written once within its first page and closed is a page long: the backend was asked for the bytes, and then for the page |
| Mutex.StepKeeps | kernel/src/common/sync/mutex.c:11-62 | each atomic operation of any thread keeps the invariant: one owner, one latch holder, queue and state in agreement |
| Mutex.Exclusive | kernel/src/common/sync/mutex.c:11-62 | over every interleaving at most one thread owns the mutex, and both assertions of the slow release hold |
| Mutex.WaitersSeen | kernel/src/common/sync/mutex.c:29-42 | threads are queued only while another thread owns the mutex and the state is CONTESTED |
| Mutex.FirstComeFirstServed | kernel/src/common/sync/mutex.c:32-59 | the k-th thread granted ownership is the k-th that queued |
| Mutex.NoDeadlock | kernel/src/common/sync/mutex.c:17-62 | in every reachable state some thread using the mutex can move, unless none uses it; with Advances each such move brings it nearer to being out |
| Mutex.OnlyTheseWait | kernel/src/common/sync/mutex.c:17-62 | in every reachable state a thread that cannot move wants the latch while another has it, or is asleep in the queue |
| Mutex.Advances | kernel/src/common/sync/mutex.c:11-62 | every step of a thread that uses the mutex brings it strictly nearer to being out of it, and no step of another puts it back |
| Mutex.GetsOut | kernel/src/common/sync/mutex.c:11-62 | so in every run a thread that takes as many steps as its place is away from the end has been out of the mutex |
| Mutex.ReleaseCompletes | kernel/src/common/sync/mutex.c:44-62 | from every reachable state, once the latch is let go of, the holder by itself leaves the mutex free in two steps, or in seven hands it to the thread that queued first |
| Mutex.AcquireCompletes | kernel/src/common/sync/mutex.c:17-42 | from every reachable state with the latch free, a woken thread, or one that finds the mutex free, holds it after a fixed number of its own steps |
| Mutex.Spins | kernel/src/common/sync/mutex.c:19-27 | on a mutex that stays taken a thread tries eleven times and then goes for the latch, changing nothing else |
| Mutex.StepRefines | kernel/src/common/sync/mutex.c:11-62 | each step is the step of a fair lock with a FIFO queue and direct handoff that its place stands for: an acquire, queueing up, a handover, a release, or none |
| Mutex.Refines | kernel/src/common/sync/mutex.c:11-62 | every run is a run of that lock, step for step |
| Sched.StepKeeps | kernel/src/sys/sched.c:20-104 | each step of any core keeps the invariant that every thread has one place |
| Sched.OnePlace | kernel/src/sys/sched.c:20-104 | in every run no thread is on two cores, running and queued, or queued twice; idle threads are never queued; assigned_core is never null where it is read |
| Sched.WhoRuns | kernel/src/sys/sched.c:78-97 | in every run assigned_core names the core a thread runs on and is null otherwise, and a thread switched to has status RUNNING |
| Sched.SavedFirst | kernel/src/arch/x86_64/sched.asm:23-28 | a thread is queued only with its stack pointer saved, a core loads only a saved one, and the thread a core executes has none saved |
| Sched.TakenInTurn | kernel/src/sys/sched.c:26-31 | a thread at queue position k is taken by the (k+1)-th yield, on whatever core, and until then moves up one place with each |
| Sched.WokenInTurn | kernel/src/sys/sched.c:68-76 | a thread woken in any reachable state is queued last, and taken by the first yield after those that take the threads queued before it |
| Sched.NeverStuck | kernel/src/sys/sched.c:20-104 | in every reachable state every core can take its next step, a yield with any status included |
| Sched.YieldGoesTo | kernel/src/sys/sched.c:20-97 | in every run, whatever other cores do in between: a yield takes the first thread of the queue, or the idle thread if there is none, the core switches to exactly that one, and leaves the yielding thread with the status given |
| Sched.YieldedAway | kernel/src/sys/sched.c:45-97 | then the thread switched out is saved before it is dropped, and dropping it queues it last, hands it to the reaper, leaves it to be woken, or does nothing for the idle thread, as its status says |
| Sched.NeverLost | kernel/src/sys/sched.c:45-66 | a thread that was switched out is queued, handed to the reaper or neither, as the status it yielded with says, until it is next woken |
| Segments.InsertedGood | kernel/src/mm/vmm.c:44-65 | inserting a segment that overlaps none keeps the list sorted, disjoint and in bounds |
| Vmm.AddrSpace.InsertSeg | kernel/src/mm/vmm.c:44-65 | the segment goes behind all with smaller base and before the rest |
| Vmm.AddrSpace.FindSpace | kernel/src/mm/vmm.c:67-88 | for every length, with sums modulo 2^64: where the scan stops and what it answers; without wrap-around the lowest start the strict-gap rule allows, 0 if there is none, the low limit for an empty list |
| Vmm.AddrSpace.CheckCollision | kernel/src/mm/vmm.c:90-105 | true exactly if some segment passes the modular test; for a non-empty range that does not wrap, exactly if some segment overlaps it |
| Vmm.AddrSpace.AddrToSeg | kernel/src/mm/vmm.c:115-126 | the one segment that covers the address, or none |
| Segments.ScannedGood | kernel/src/mm/vmm.c:67-88 | a segment put where the scan says keeps the list in order exactly if there was room |
| Segments.NoRoom | kernel/src/mm/vmm.c:188-206 | a concrete request without room that ends up overlapping |
| Vmm.AddrSpace.Mmap | kernel/src/mm/vmm.c:182-206 | for every request: fails exactly if fixed and not usable, and then changes nothing; else inserts one segment, at the request or where the scan says, and the list stays in order exactly if the segment fits there and overlaps none; for lengths that do not wrap that is exactly if the request was free, refused or had room |
| Vmm.AddrSpace.New | kernel/src/mm/vmm.c:281-292 | for any limits, an address space with no segments and nothing mapped in the lower half; every other address space reads as before |
| Vmm.Machine.BringIn | kernel/src/mm/vmm.c:142-153 | the page reads as what the frame is filled with, every other lower-half byte of every address space as before, distinct pages on distinct frames; four frames suffice, and no more are taken |
| Vmm.AddrSpace.PageFault | kernel/src/mm/vmm.c:128-154 | on private segments: no segment exactly if none covers the address, and then nothing changes; else the page is brought in, as zeros or as the file from the faulting address on; four frames suffice |
| Segments.FileFault | kernel/src/mm/vmm.c:140-153 | a private file page is right for every file exactly if the fault was at the start of the page |
| Segments.FaultReads | kernel/src/mm/vmm.c:140-153 | such a page holds the bytes of the file from the faulting address on, zeros if anonymous |
| Vmm.AddrSpace.Populate | kernel/src/mm/vmm.c:211-225 | populating a private mapping: every page of it is there with its contents, every other lower-half byte of every address space as before; four frames for each page suffice |
| Vmm.AddrSpace.MmapPrivate | kernel/src/mm/vmm.c:182-251 | the whole call for a private mapping: the segment goes where the scan says, and with the populate flag exactly its pages are there afterwards; fails only as refused, short of four frames for each page, or, with pages to populate, exactly if the place is not page-aligned or reaches into the upper half, which cannot be if the segment list stays in order within a lower-half limit |
| Vmm.AddrSpace.SegmentShown | kernel/src/mm/vmm.c:211-225 | every byte of a populated segment reads as zero or as the byte of the file the segment maps there |
| Segments.PopulateShows | kernel/src/mm/vmm.c:211-225 | populated file pages show the file at the offset of the mapping |
| VirtualBytes.ChunkDone | kernel/src/mm/vmm.c:371-384 | one turn of the copy loop extends the copied prefix, whatever the alignment |
| Vmm.AddrSpace.CopyTo | kernel/src/mm/vmm.c:366-387 | returns the count; every lower-half byte of every address space is the source byte, the old byte, or zero on a page brought in; succeeds if every address is covered and there are four frames for each page touched |
| Vmm.AddrSpace.ZeroOut | kernel/src/mm/vmm.c:389-409 | the same with zeros |
| Kmem.Cache.Thread | kernel/src/mm/kmem.c:22-29 | the objects of a page are chained through their first words, each once; wherever one more would fit in the page there is one; no word outside the page changes |
| Kmem.Cache.MakeSlab | kernel/src/mm/kmem.c:15-32 | a new slab adds the objects that fill its page as free and leaves every other object where it was |
| Kmem.Cache.AllocFromSlabs | kernel/src/mm/kmem.c:34-52 | the free-list assertion never fails; exactly one free object changes hands; at most one page is taken, and only if no slab has a free object; the allocation fails exactly if moreover no page is left |
| Slabs.InsidePage | kernel/src/mm/kmem.c:22-27 | objects lie inside their slab page, behind the header |
| Slabs.Disjoint | kernel/src/mm/kmem.c:22-29 | no two objects of a cache overlap |
| Slabs.SlabFull | kernel/src/mm/kmem.c:22-29 | no slab page has room for one more object behind its objects |
| Kmem.Cache.Scribble | kernel/src/mm/kmem.c:26-43 | a caller may write any byte of an object it holds: it lies in no slab header, no magazine and no other object, and the cache stays valid |
| Slabs.Scribbled | kernel/src/mm/kmem.c:26-43 | a byte written anywhere in an object that is not free changes no free list |
| Kmem.Cache.Populate | kernel/src/mm/kmem.c:58-61 | 32 distinct objects are taken, from at most 32 new pages |
| Kmem.Cache.Init | kernel/src/mm/kmem.c:69-89 | succeeds with 1088 pages; every object is free or in a magazine slot, each in one place; every CPU has a full magazine loaded and an empty one behind it; the pages owned are exactly those taken |
| Kmem.Cache.Alloc | kernel/src/mm/kmem.c:91-129 | exactly one object, free or in a slot before, comes to the caller, and the magazines change in exactly the way of the branch taken; a slab is made only if neither the magazines nor the slabs have an object to give; no assertion fails; fails exactly if the magazines, the slabs and the page allocator have nothing to give |
| Kmem.Cache.Free | kernel/src/mm/kmem.c:131-167 | the object comes back to a slot of the loaded magazine, and the magazines change in exactly the way of the branch taken; nothing is lost exactly if the loaded magazine is not full or the previous one is empty, else everything in both is |
| KmemRuns.StepLoses | kernel/src/mm/kmem.c:91-167 | of any step between two states in which magazines and places agree: objects are newly lost exactly if it is a free that finds no room |
| Kmem.Cache.Serve | kernel/src/mm/kmem.c:91-167 | any list of calls on any CPUs, with the state between every two: in each, magazines and places agree and callers hold exactly what they were given; each step grants one object or takes the named one back and moves the magazines as the code does; objects are lost exactly if some call was a free that met that guard in its state; stops early only at an allocation that nothing is left for, and takes at most one page for each call |
| KmemRuns.LeakSpills | kernel/src/mm/kmem.c:131-167 | every run of 65 allocations and then 65 frees on a CPU that starts with a full and an empty magazine meets the guard in its last call |
| Kmem.Cache.Leak | kernel/src/mm/kmem.c:69-167 | with 1153 pages those 130 calls on a new cache all complete, as a run of Serve, and leave lost objects where there were none |
| SizeClasses.SmallestClass | kernel/src/mm/heap.c:13-24 | the order is the smallest class that holds the size, and exists exactly up to 1024 bytes |
| SizeClasses.OwnClass | kernel/src/mm/heap.c:26-35 | a cache's object size leads back to that cache |
| SizeClasses.MaskIsBase | kernel/src/mm/heap.c:39 | the mask gives the start of the page |
| Heap.Init | kernel/src/mm/heap.c:57-63 | succeeds with 8704 pages: eight caches over one page allocator, no page in two of them, nothing given out or lost |
| Heap.Heap.Alloc | kernel/src/mm/heap.c:13-24 | fails its assertion exactly above 1024 bytes, and for want of memory exactly if the class is starved and no page is left; else exactly one object of the smallest class that holds the size, the other caches unchanged |
| Heap.Heap.FreeFinds | kernel/src/mm/heap.c:37-43 | the mask leads to a slab header that names the cache that made the object, and the page belongs to no other of the eight and is not spare |
| Heap.Heap.Free | kernel/src/mm/heap.c:26-43 | from the address alone the object goes back to the cache that gave it out, as kmem_free_cache does there, the other caches unchanged |
| Heap.Heap.ObjectsApart | kernel/src/mm/heap.c:13-63 | no two objects of the heap overlap, whether of one class or of two |
| HeapRuns.ServedLoses | kernel/src/mm/heap.c:13-43 | a heap call newly loses objects exactly if it is a free that finds no room in the magazines of its class |
| Heap.Heap.Serve | kernel/src/mm/heap.c:13-43 | any list of heap_alloc and heap_free calls on any CPUs: each step changes one class only, callers hold exactly what they were given across the classes, no two at one address, and objects are lost exactly if some free found no room; stops early only above 1024 bytes or with nothing left |
| Heap.InitAndServe | kernel/src/mm/heap.c:13-63 | the same for every list of calls after heap_init, which 8704 pages let succeed |
| Printf.Atoi | kernel/src/lib/printf.c:174-182 | the value of the longest run of decimal digits modulo 2^32 |
| Printf.OutRev | kernel/src/lib/printf.c:185-214 | the buffer reversed; spaces before it if neither zero-padded nor left-aligned, behind it if left-aligned, exactly up to the width |
| Printf.Format | kernel/src/lib/printf.c:217-279 | with any flags: spaces, sign, prefix, zeros, digits, spaces, each as long as the laws of TextLaws say; the 32-byte buffer is never overrun |
| Printf.PutDigits | kernel/src/lib/printf.c:297-302 | in every base the lowest 32 digits of the value, least significant first, in the letter case asked for; they read as the value modulo base^32 |
| Printf.Ntoa | kernel/src/lib/printf.c:282-334 | every value, base, flag, width and precision: the digits are those of the value without a leading zero, in the letter case asked for, no more than 32, none for a zero printed with a precision; the text around them obeys the laws of TextLaws for the side and amount of padding, zeros, sign and prefix |
| TextLaws.PaddedLength | kernel/src/lib/printf.c:185-276 | of any text that obeys those laws: with spaces for padding it is exactly as long as the width, or as the number if that is longer |
| TextLaws.ZeroedLength | kernel/src/lib/printf.c:217-276 | with zeros for padding, a number that fits the width and the buffer is exactly as long as the width, with its sign and no space |
| Printf.ReadsBack | kernel/src/lib/printf.c:185-334 | the text reads back as the value modulo base^n, n being the digit places left, and the sign exactly when it has room, unless a prefix without its zero makes it unreadable |
| Printf.SurvivesExactly | kernel/src/lib/printf.c:217-334 | a value reads back exactly if it is below base^n and the prefix is whole |
| Printf.PlainReadsBack | kernel/src/lib/printf.c:217-334 | from base 8 on and without the hash flag every 64-bit value reads back, and with a width and precision of at most 31 the sign too |
| Printf.HashEats | kernel/src/lib/printf.c:240-247 | a concrete width for which the hash flag drops digits |
| Printf.PrintThenAtoi | kernel/src/lib/printf.c:174-182 | a printed decimal read by _atoi is what the digit places hold modulo 2^32, without the hash flag the value modulo 2^32 |
| Digits.ReadLsd | kernel/src/lib/printf.c:297-302 | the digits produced by repeated division stand for the value |
| Digits.ReadLowest | kernel/src/lib/printf.c:297-302 | the n lowest digits stand for the value modulo base^n |
| List.List.IsEmpty | kernel/src/lib/list.c:5-12 | head and length agree, so the check never fails |
| List.List.InsertAfter | kernel/src/lib/list.c:14-44 | the node comes to stand right after pos; links both ways, ends and length describe the new sequence |
| List.List.InsertBefore | kernel/src/lib/list.c:46-76 | right before pos |
| List.List.Append | kernel/src/lib/list.c:78-81 | at the end |
| List.List.Prepend | kernel/src/lib/list.c:83-86 | at the front |
| List.List.Take | kernel/src/lib/list.c:88-103 | exactly that node is gone, from anywhere |
| List.List.PopHead | kernel/src/lib/list.c:105-112 | the first node, or null for an empty list |
| List.List.PopTail | kernel/src/lib/list.c:114-121 | the last node, or null for an empty list |

## Left out

- Vfs.VNode.Read: backend errors and failed allocation of a cache entry; the backend serves every request in full, and a request ends within 64 bits.
- Vfs.VNode.Write: the same; the page frames are values by tree node, so two nodes never share a frame.
- Vfs.VNode.Close: the result of the backend's close, and the freeing of frames.
- Vmm.AddrSpace.PageFault: shared segments, the panic on kernel segments, and upper-half addresses.
- Vmm.AddrSpace.Populate: shared mappings, and mappings that reach into the upper half.
- Vmm.AddrSpace.MmapPrivate: shared mappings, and what populating does once it reaches into the upper half.
- Vmm.AddrSpace.CopyTo: destinations in the upper half, where the direct map aliases frames, and segments that are shared or backed by a file.
- Vmm.AddrSpace.ZeroOut: the same destinations.
- Ptm.Memory.Map: page sizes other than 4 KiB, which the code treats the same way.
- Pmm.Allocator.Init: memory maps whose usable entries are unsorted, overlapping or not page-aligned.
- Pmm.Allocator.Release: where in its free list the block ends up; lists are compared as sets of blocks.
- Heap.Heap.Alloc: `heap_realloc`, which copies the old size whatever the new one is.
- Printf.Ntoa: truncation of the output at maxlen by the output function.
- Mutex.Step: the race noted at kernel/src/common/sync/mutex.c:34, where a thread can be put back on the run queue before it has blocked; line 55 takes the queue's first node.
- Sched.Step: a thread yielding with status RUNNING, which no caller does; callers from outside enqueue only threads that are fully dropped or new; reference counts and the reaper's own work.
- List.List.Take: what the links of the removed node hold afterwards.
- Weak memory, lock timing, interrupt masking, timers, the FPU and all device code.
- `arch_ptm_clear_map`, `vmm_map_kernel`, `vmm_destroy_addr_space`: no further property, or no caller.
- The mount trie, path helpers, tmpfs, partitions, sockets, ELF loading and system calls: thin plumbing or unfinished.
- Floating-point formatting, which the build disables.
