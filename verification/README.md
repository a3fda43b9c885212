# Verified models of the operating-systems library cores

Four stateful cores of the repository, each modelled in imperative Dafny in the form its C code
has, and proved against specifications whose laws are then proved for all inputs and all runs:

- the free-list allocator of homework 5 (`Tiling`, `Heap`, `Allocator`, `AllocatorLaws`, `Coalescing`);
- the user-thread table and scheduler of homework 4 (`Threads`, `ThreadLaws`, `ThreadEffects`);
- the defragmenter of homework 6 (`DiskImage`, `Defrag`, `DefragLaws`);
- the FAT-16 layer and formatter of homework 7 (`Bytes`, `ShortNames`, `FatImage`, `FatVolume`,
  `FatLaws`, `FileMap`, `FileStore`, `BoundedMap`, `FileRuns`, `Format`).

`Basics` holds the few facts about sequences and products that several of them use.

`dafny verify dfyconfig.toml` checks the whole project.

## How each core is modelled

**Allocator.** The region is an array whose element `o` is the 64-bit word that starts at byte
offset `o`; block headers are words of that array, as in the source. A ghost sequence `blocks`
names the blocks in address order. The well-formedness predicate ties the two together: the
blocks tile the region, sizes are stored in the headers, and the linked list through the headers
is exactly the list of free blocks. `MemAlloc` and `MemFree` follow the branches of the C code;
their search loops, header rewrites and merges are methods of their own. The element count of the
array equals the byte count of the region, and all offsets used are multiples of 8, so words never
overlap.

**Threads.** The table is an array of control blocks; the steps are creation, scheduling, join,
completion and termination. A run is any interleaving of them from the empty table, under any one
policy and with any priorities.

**Defragmenter.** Images are modelled at the level of inodes and data blocks of 32-bit words;
`DefragLaws.RegionsDisjoint` shows on byte positions that the three regions never overlap, which
is what makes this level sound. The constant `reserve` selects between the code as written
(`false`) and a one-line repair (`true`): line 78 of `hw6/defrag.c` reads
`new_block_num = (*current_block)++`, so that the pointer block's number is reserved.

**FAT-16.** The image is a growable sequence of bytes with a read/write position; boot sector,
table entries and directory entries are decoded from and encoded into those bytes.

## Where the code and its documentation differ

- Homework 5's README calls the allocation policy worst fit. The code is first fit, and every
  successful allocation splits the block; `AllocatorLaws.NotWorstFit` gives an input.
- Homework 6's README claims that all pointer blocks are handled. As written, a non-empty pointer
  block overwrites the copy of its first child (`DefragLaws.AsWrittenLosesChild` gives an input).
  Three exact conditions follow: the numbers of a file in the destination are distinct and fill
  its range if and only if no pointer block is handled or the code is repaired
  (`Defragmenter.MoveBlocksContiguous`, `DefragLaws.PackedExactly`); a pointer block survives if and
  only if its first child already equals the words stored over it (`DefragLaws.AsWrittenExactly`);
  and a file without empty pointer blocks reads the same if and only if the code is repaired or all
  its pointer blocks survive (`DefragLaws.ContentsExactly`). In both modes, children lost or not,
  the inode table is kept, a file's direct blocks are copied to consecutive numbers
  (`DefragLaws.InodeTable`), and as written `DefragLaws.PointersLand` and `DoublyLands` say where every
  other block goes.
- The recorded numbers list a pointer block after its children but, repaired, its number comes
  before theirs, and as written it repeats one of theirs; `is_contiguous` asks for ascending order
  and only decides about a debug message (`DefragLaws.NeverInOrder`).
- Destination numbers start at 0, which also means "no block". Contents are therefore compared over
  the slots the source used; `DefragLaws.ZeroEndsTheList` says exactly when a reader that stops at
  0 sees the whole direct list.
- A thread that is preempted or yields stays RUNNING and is never dispatched again
  (`ThreadLaws.PreemptedForever`). A thread of priority INT_MIN is never dispatched under PRIORITY,
  and because of that the current thread is never left ready in any run (`ThreadLaws.RunKeeps`).
- The `ticks` field is never written, so SJF dispatches the ready thread with the lowest index
  (`ThreadLaws.ShortestIsLowestIndex`).
- `find_free_root_entry` reads over the entry prepared by `fat16_open`, so creating a file changes
  nothing on disk until it is written; open and write are treated as one operation.
- `struct fat16_entry` has no field for the high half of the cluster number: the starting cluster
  lies at byte 24 of an entry and the size at byte 28. The model follows the struct.
- Names that start with byte 0xE5 are stored like a deleted entry (`ShortNames.FirstByte`), so
  they are not valid names of the file map.
- The sector count of a formatted disk is cut to 16 bits and its 32-bit companion is 0, so on
  a new disk of a multiple of 32 MB no cluster can be allocated (`Format.UsableSizes`).

## Model

| member | source | states |
|---|---|---|
| Allocator.Library.constructor | hw5/src/mem.c:17-19 | before Mem_Init the library is a well-formed empty heap |
| Allocator.Library.MemInit | hw5/src/mem.c:21-43 | bad sizes are refused without effect; otherwise the region is one free block spanning all of it |
| Allocator.Library.FindFit | hw5/src/mem.c:51-77 | the walk over the linked headers ends at the first block that fits, with its list predecessor, or at null if none fits |
| Allocator.Library.CarveFront | hw5/src/mem.c:63-72 | the header writes and the relinking of a split, as one heap function |
| Allocator.Library.MemAlloc | hw5/src/mem.c:45-82 | keeps the heap well-formed, carves the first fitting block, touches no live block, and reports E_BAD_ARGS or E_NO_SPACE without changing anything else |
| Allocator.Library.FindPlace | hw5/src/mem.c:94-100 | the walk ends between the free neighbours of the released block |
| Allocator.Library.LinkIn | hw5/src/mem.c:102-106 | the block becomes free in address order; every other live block keeps all its words |
| Allocator.Library.CoalesceAround | hw5/src/mem.c:108-117 | merges exactly with those neighbours in the tiling that are free, right before left |
| Allocator.Library.Absorb | hw5/src/mem.c:110-115 | one merge of two adjacent free blocks |
| Allocator.Library.MemFree | hw5/src/mem.c:84-120 | for null, a pointer outside the region or a live pointer: well-formedness, the freed tiling, the kept live blocks, and the return and error codes; `AllocatorLaws.FreeEffect` and `CoalesceEffect` spell the tiling out |
| Heaps.SplitKeeps | hw5/src/mem.c:63-72 | splitting a free block keeps tiling, alignment, stored sizes and the linked free list, and every live block's words |
| Heaps.ReleaseKeeps | hw5/src/mem.c:102-106 | address-ordered insertion keeps the same |
| Heaps.MergeKeeps | hw5/src/mem.c:109-116 | absorbing the right neighbour keeps the same |
| AllocatorLaws.FirstFitPolicy | hw5/src/mem.c:58-81 | a request of n bytes succeeds exactly when some free block has (n + 7) / 8 * 8 + 32 bytes, and then gets the lowest such block; a refused one changes nothing |
| AllocatorLaws.AllocEffect | hw5/src/mem.c:63-73 | the block served from becomes a live one of the rounded size and a free one with the rest; no other block changes |
| AllocatorLaws.FirstRequest | hw5/src/mem.c:27-39 | right after Mem_Init a request is served from the start of the region exactly when it fits |
| AllocatorLaws.FreeEffect | hw5/src/mem.c:94-108 | without coalescing every block keeps place and size, only the freed one's flag changes, and the free list gains exactly its address in order |
| AllocatorLaws.CoalesceEffect | hw5/src/mem.c:108-117 | with coalescing the block and its free neighbours become one free block; no other boundary vanishes |
| AllocatorLaws.CoalesceMatters | hw5/src/mem.c:108 | two adjacent free blocks on which the flag decides whether a later request is served |
| AllocatorLaws.NotWorstFit | hw5/README.md:37 | the documented worst-fit policy is not what the code does |
| AllocatorLaws.AllocatedBlock | hw5/src/mem.c:51-73 | a returned pointer is 8-aligned, inside the region, and its block is live with n to n + 7 bytes in a multiple of 8 |
| AllocatorLaws.FreeListShape | hw5/src/mem.c:58-77 | the linked list visits exactly the free blocks in strictly ascending order, and is never empty |
| AllocatorLaws.Conservation | hw5/src/mem.c:27-39 | block spans, headers included, add up to the region |
| AllocatorLaws.StoreKeeps | hw5/src/mem.c:73 | a program writing inside its own block damages no header and no other block |
| AllocatorLaws.RunKeeps | hw5/src/mem.c:45-120 | every state of every run of allocations, frees and stores is well-formed over the same region |
| AllocatorLaws.LiveSurvives | hw5/src/mem.c:63-115 | over every run a live block that is neither freed nor written keeps its place, size and payload |
| Coalescing.Canonical | hw5/src/mem.c:108-117 | without adjacent free blocks the free list is a function of the set of free bytes |
| Coalescing.FreeBytes | hw5/src/mem.c:94-117 | a free adds exactly the block's span to the free bytes and removes exactly it from the live blocks |
| Coalescing.AllocCoalesced | hw5/src/mem.c:63-72 | allocation never leaves two adjacent free blocks |
| Coalescing.FreeCoalesced | hw5/src/mem.c:108-117 | neither does a coalescing free |
| Coalescing.RunCoalesced | hw5/src/mem.c:36-117 | so no state of a run whose frees all coalesce has adjacent free blocks |
| Coalescing.HistoryIrrelevant | hw5/src/mem.c:45-120 | two such runs that end with the same free bytes end with the same free list, sizes included |
| Coalescing.FreeAllBytes | hw5/src/mem.c:94-117 | freeing a set of live blocks one by one adds exactly their spans |
| Coalescing.OrderIrrelevant | hw5/src/mem.c:94-117 | the order in which a set of live blocks is freed does not matter |
| Coalescing.AllFreed | hw5/src/mem.c:36-39 | freeing every live block gives back the single block of Mem_Init |
| Coalescing.AllocThenFree | hw5/src/mem.c:63-117 | an allocation freed at once is undone exactly when no free block precedes the one it came from |
| Coalescing.AllocFreeRestores | hw5/src/mem.c:45-120 | in a coalesced heap Mem_Alloc then Mem_Free restores all blocks, the list head, all stored sizes and all free-list links |
| Coalescing.HeadersDetermined | hw5/src/mem.c:58-77 | two well-formed heaps with the same blocks have the same list head, sizes and links |
| Threads.Library.constructor | src/userthread.c:34-37 | an empty table with no current thread |
| Threads.Library.ThreadCreate | src/userthread.c:184-225 | appends a ready thread, or refuses when the table is full |
| Threads.Library.ThreadJoin | src/userthread.c:239-271 | invalid, finished and blocking joins; the current thread waits only in the last case, and only if it has not finished |
| Threads.Library.FinishCurrent | src/userthread.c:62-66 | the current thread is finished and no other slot changes |
| Threads.Library.LibTerminate | src/userthread.c:163-182 | every thread in use is finished and the table is empty |
| Threads.Library.WakeWaiting | src/userthread.c:81-88 | exactly the threads whose awaited thread has finished become ready |
| Threads.Library.NextFifo | src/userthread.c:90-97 | the ready thread that comes next after the current one in cyclic order, or none |
| Threads.Library.NextShortest | src/userthread.c:98-105 | the first ready thread with the fewest ticks, or none |
| Threads.Library.NextByPriority | src/userthread.c:106-113 | the ready thread of highest priority above INT_MIN, the lowest index among equals, or none |
| Threads.Library.Scheduler | src/userthread.c:71-132 | wakes, selects by policy and dispatches, or leaves the current thread in place; counts one tick |
| Threads.Library.ThreadYield | src/userthread.c:227-236 | a scheduler call exactly when some thread was dispatched before |
| ThreadLaws.StepInv | src/userthread.c:58-225 | every step keeps tids, bounds, awaited tids of waiting threads in range, and zero ticks |
| ThreadLaws.LeftReady | src/userthread.c:106-125 | on any consistent table: a scheduler call leaves the current thread ready exactly under PRIORITY when it wakes it and every ready thread has priority INT_MIN |
| ThreadLaws.LeftReadyExample | src/userthread.c:106-125 | a consistent table on which that happens, and that no run reaches it |
| ThreadLaws.StepIdle | src/userthread.c:81-129 | every step keeps the current thread not ready and, under PRIORITY, of a priority above INT_MIN |
| ThreadLaws.RunKeeps | src/userthread.c:58-225 | over every run from the empty table, for all policies and priorities: the table is consistent and the current thread is never ready |
| ThreadLaws.Transitions | src/userthread.c:64-129 | the complete list of state changes a thread can undergo, with the step and condition of each; a wake-up needs a finished awaited thread |
| ThreadLaws.FinishedForever | src/userthread.c:64-88 | in every run finished is absorbing until termination |
| ThreadLaws.PreemptedForever | src/userthread.c:90-131 | in every run a running thread that is no longer current is never dispatched again |
| ThreadLaws.StepCount | src/userthread.c:81-129 | how one step changes the number of ready threads |
| ThreadLaws.Accounting | src/userthread.c:58-225 | between any two points of any run, ready threads = ready before + creations + wake-ups - dispatches |
| ThreadLaws.ReadyCount | src/userthread.c:58-225 | so since the empty table, ready threads = creations + wake-ups - dispatches |
| ThreadLaws.FifoStep | src/userthread.c:90-129 | each dispatch of another thread brings a ready thread nearer in cyclic order, also while the table grows |
| ThreadLaws.FifoNearer | src/userthread.c:90-129 | from any point of a run the distance falls with every scheduler call |
| ThreadLaws.FifoBoundedBypass | src/userthread.c:90-129 | a thread ready at any point of a run is dispatched within MAX_THREADS further scheduler calls whatever happens in between |
| ThreadLaws.BurstSorts | src/userthread.c:98-129 | with nobody to wake, as many calls as ready threads dispatch each once, in the stable order of the policy, and leave none ready; `ThreadEffects.BurstDescends` and `BurstAscends` spell the order out |
| ThreadLaws.ShortestIsLowestIndex | src/userthread.c:98-105 | SJF is lowest index first |
| ThreadEffects.CreateEffect | src/userthread.c:184-225 | the new thread's tid, priority, state and ticks; nobody else changes |
| ThreadEffects.JoinEffect | src/userthread.c:239-271 | exactly when a join makes the current thread wait, for exactly the thread joined; otherwise nothing changes |
| ThreadEffects.FinishEffect | src/userthread.c:64 | the thread that ends is finished, and nobody else changes |
| ThreadEffects.TerminateEffect | src/userthread.c:163-182 | nobody is left and no thread is current |
| ThreadEffects.ScheduleEffect | src/userthread.c:81-129 | the state of every thread after a call: the one dispatched runs, those that waited for a finished thread are ready, all else stays |
| ThreadEffects.FifoOrder | src/userthread.c:90-97 | the choice is the next thread in cyclic order that can run |
| ThreadEffects.PriorityOrder | src/userthread.c:106-113 | the choice has the highest priority and the lowest index among equals; none exactly when all that can run have priority INT_MIN |
| ThreadEffects.BurstDescends | src/userthread.c:106-113 | under PRIORITY a burst dispatches in descending priority, ascending index among equals |
| ThreadEffects.BurstAscends | src/userthread.c:98-105 | under SJF a burst dispatches in ascending index |
| ThreadEffects.StillWaits | src/userthread.c:81-88 | in every run a waiting thread waits for the same thread until a scheduler call finds that one finished |
| ThreadEffects.JoinWakes | src/userthread.c:64-125 | in every run a thread that joined an unfinished thread is made ready or dispatched by the first scheduler call after that one has finished, not before |
| DiskImage.FillsAll | hw6/defrag.c:85-93 | a repetition-free list of the right length reaches every number of the range |
| DiskImage.FileMonotone | hw6/defrag.c:36-51 | block writes outside a file's range leave its tree readable as before |
| Defrag.Copied | hw6/defrag.c:85-93 | copying u children writes exactly the numbers base to base + u - 1, each with its source contents, and nothing else |
| Defrag.Defragmenter.HandleIndirectBlocks | hw6/defrag.c:68-100 | the exact destination blocks, numbers and list entries of one call, as written and repaired |
| Defrag.Defragmenter.MoveIndirect | hw6/defrag.c:68-100 | the recorded numbers are those found in the destination tree, nothing below the current block changes; repaired, they are distinct and fill the new range and the tree reads the same; as written, where every block but the overwritten first child lands |
| Defrag.Defragmenter.MoveDirect | hw6/defrag.c:118-125 | direct blocks are copied to consecutive numbers |
| Defrag.Defragmenter.MoveIndirects | hw6/defrag.c:127-151 | the same for all trees of a list of pointer blocks: recorded numbers are the numbers in the destination trees, repaired they are distinct and exactly those handed out |
| Defrag.Defragmenter.MoveDoubly | hw6/defrag.c:134-164 | the same one level up |
| Defrag.Defragmenter.IsContiguous | hw6/defrag.c:103-111 | true exactly when every number is followed by the next |
| Defrag.Defragmenter.MoveBlocksContiguous | hw6/defrag.c:114-204 | in either mode, children lost or not: the inode fields are copied, direct blocks read the same at consecutive numbers, nothing below the old or beyond the new frontier is written, the recorded numbers are those of the file's tree in the destination, and as written every pointer block and surviving child lies at a stated number; the numbers are distinct and fill the file's range exactly when the mode is repaired or no pointer block is handled; without empty pointer blocks the file reads the same exactly when the mode is repaired or its pointer blocks are intact |
| Defrag.Defragmenter.DefragmentDisk | hw6/defrag.c:206-262 | all of that for every used inode at the end of the whole copy, files end to end in inode order, free inodes cleared, no block written outside the range used, and free_block the frontier if any inode is used |
| Defrag.IndirectSame | hw6/defrag.c:78-94 | repaired, a pointer block leads to the same leaves |
| DefragLaws.AsWrittenSlots | hw6/defrag.c:78-93 | as written, a moved pointer block names consecutive numbers from its own on: slot 0 leads to the pointer block itself and the other slots are right |
| DefragLaws.AsWrittenExactly | hw6/defrag.c:78-93 | as written, a non-empty pointer block survives exactly when its first child already equals the words that overwrite it |
| DefragLaws.AsWrittenEmpty | hw6/defrag.c:78-94 | as written, the number of an empty pointer block is handed out again, and exactly when the block then survives |
| DefragLaws.AsWrittenLosesChild | hw6/defrag.c:78-93 | an image on which the code as written loses a block and the repair does not |
| DefragLaws.ZeroEndsTheList | hw6/defrag.c:119-123 | exactly when a reader that stops at number 0 sees the whole direct list |
| DefragLaws.SoundDisks | hw6/README.MD:37 | repaired all disks, and as written all disks without pointer blocks, meet the condition of the next row |
| DefragLaws.RangesAreSpans | hw6/defrag.c:232-252 | in either mode the range of every inode is determined by the source |
| DefragLaws.InodeTable | hw6/defrag.c:232-250 | in either mode a destination inode is free exactly when the source's is, and then all 0; otherwise its fields are the source's and its direct blocks are copied to consecutive numbers |
| DefragLaws.PointersLand | hw6/defrag.c:127-131 | as written, the number of every pointer block and where its children other than the first lie with their contents |
| DefragLaws.DoublyLands | hw6/defrag.c:134-164 | the same under i2block and i3block, whose own blocks come last |
| DefragLaws.NeverInOrder | hw6/defrag.c:85-95 | the numbers recorded for a non-empty pointer block are never in consecutive order |
| DefragLaws.DiskPacked | hw6/README.MD:37 | every file of such a disk reads the same in the destination, its direct blocks are consecutive, its numbers are distinct and fill the range given by block counts, and free_block is the total count |
| DefragLaws.NoGaps | hw6/README.MD:37 | every number below free_block of such a disk is used by one of its files |
| DefragLaws.PackedExactly | hw6/README.MD:37 | in either mode, all files have distinct numbers that fill their ranges exactly when the disk meets that condition |
| DefragLaws.ContentsExactly | hw6/defrag.c:78-204 | in either mode, exactly when a file without empty pointer blocks reads the same in the destination, by a condition on the source |
| DefragLaws.FilesDisjoint | hw6/defrag.c:232-250 | different files never share a block number: direct, pointer block or leaf |
| DefragLaws.RegionsDisjoint | hw6/defrag.c:21-46 | boot and super block, inodes below max_inodes and data blocks occupy disjoint byte ranges |
| ShortNames.RoundTrip | hw7/src/vfs.c:34-52 | find_file decodes what fat16_open encodes to the same name exactly for 8.3 names |
| ShortNames.EncodeInjective | hw7/src/vfs.c:153-170 | different 8.3 names have different entries |
| ShortNames.EncodedBytes | hw7/src/vfs.c:34-52 | the eleven bytes stored for any name: what is before its last dot and after it, cut or padded with spaces |
| ShortNames.FoldMeans | hw7/src/vfs.c:510-513 | names are identified exactly when they differ at most in the case of A to Z |
| ShortNames.ListedName | hw7/src/vfs.c:330-356 | readdir lists the same name, without the dot when the extension is empty |
| ShortNames.FirstByte | hw7/src/vfs.c:537 | a stored 8.3 name never ends the directory, and looks deleted exactly when it starts with 0xE5 |
| FatImage.ChainDistinct | hw7/src/vfs.c:601-625 | a chain that ends visits no cluster twice |
| FatImage.ChainKept | hw7/src/vfs.c:628-644 | table changes elsewhere leave a chain intact |
| FatVolume.Vnode.GetNextCluster | hw7/src/vfs.c:601-625 | the table entry, or 0xFFFF for end marks and unreadable entries |
| FatVolume.Vnode.SetNextCluster | hw7/src/vfs.c:628-644 | writes exactly one table entry |
| FatVolume.Vnode.AllocateCluster | hw7/src/vfs.c:549-583 | claims the lowest free cluster, or changes nothing when there is none |
| FatVolume.Vnode.StemField | hw7/src/vfs.c:499-504 | the field up to its first space or NUL |
| FatVolume.Vnode.FindFile | hw7/src/vfs.c:477-518 | finds the first matching slot before the end mark, or reports that there is none |
| FatVolume.Vnode.FindFreeRootEntry | hw7/src/vfs.c:520-546 | finds the first unused slot, or reports that there is none |
| FatVolume.Vnode.ClusterToOffset | hw7/src/vfs.c:648-659 | the byte offset of a cluster |
| FatVolume.Vnode.EncodeName | hw7/src/vfs.c:34-52 | the padding loops produce the padded 8.3 fields |
| FatVolume.Vnode.Open | hw7/src/vfs.c:12-77 | succeeds exactly when the file exists or may be created in a free slot, points at that slot, and changes nothing on disk |
| FatVolume.Vnode.ClaimCluster | hw7/src/vfs.c:120-131 | the entry's cluster, or a freshly marked lowest free one |
| FatVolume.Vnode.WriteFile | hw7/src/vfs.c:109-193 | either the whole image after data, end mark and entry are stored, the entry being a plain file with the other bytes it had, or failure without any change and its exact reasons |
| FatImage.WrittenEntry | hw7/src/vfs.c:153-189 | every successful write stores name, attribute 0x20, cluster and size at their offsets and keeps the other 14 bytes of the entry |
| FatVolume.Vnode.ReadCluster | hw7/src/vfs.c:84-103 | the bytes of one cluster and the step along the chain |
| FatVolume.Vnode.ReadFile | hw7/src/vfs.c:80-107 | the first n bytes of the chain's concatenated clusters, leaving the pointer at the unread rest |
| FatVolume.Vnode.FreeChain | hw7/src/vfs.c:222-229 | terminates on every chain, zeroes exactly its table entries and changes no other byte of the image |
| FatLaws.AllocateKeeps | hw7/src/vfs.c:562-577 | an allocated cluster belongs to no chain and all chains stay intact and disjoint |
| FatLaws.FreeKeeps | hw7/src/vfs.c:223-229 | freeing one chain leaves every other chain intact |
| FatLaws.FreedReusable | hw7/src/vfs.c:562-579 | a freed cluster is allocated next if no lower one is free |
| FatLaws.FirstMatch | hw7/src/vfs.c:489-514 | find_file stops at the first match, looks at nothing behind the first byte 0, and passes over no deleted entry |
| FatLaws.DeletedIsReused | hw7/src/vfs.c:531-542 | the free slot is the first that starts with 0 or 0xE5 |
| FatLaws.LowestFree | hw7/src/vfs.c:549-579 | allocation takes the lowest entry that is 0 within the cluster count of the boot sector |
| FatLaws.NextMeans | hw7/src/vfs.c:611-624 | the successor is the table word below 0xFFF8, and 0xFFFF otherwise |
| FatLaws.ContentOrder | hw7/src/vfs.c:84-103 | a chain yields its clusters' bytes in chain order |
| FatLaws.ClusterByte | hw7/src/vfs.c:655-658 | the bytes of a cluster are those of the image at its offset |
| FatLaws.BlocksUsed | hw7/src/vfs.c:84-104 | a read of k blocks uses up k clusters, or the chain |
| FatLaws.BlocksCompose | hw7/src/vfs.c:84-104 | reading k blocks then m blocks equals reading k + m blocks |
| FatLaws.Cat | hw7/src/commands.c:39-43 | the 512-byte loop terminates and yields the whole chain |
| FatLaws.Geometry | hw7/src/vfs.c:655-658 | where tables, root directory, data and clusters lie, from the bytes of the boot sector |
| FatLaws.SlotMeans | hw7/src/vfs.c:489-493 | which root directory entries exist |
| FatLaws.SystemArea | hw7/src/vfs.c:528 | tables lie behind the boot sector and end where the root directory starts |
| FatLaws.RootBeforeData | hw7/src/vfs.c:656 | the root directory ends before the data exactly when its size is a multiple of the sector size |
| FatLaws.ClustersDisjoint | hw7/src/vfs.c:657 | clusters from 2 up lie behind the root directory in disjoint ranges |
| FileMap.WrittenWrote | hw7/src/vfs.c:140-189 | a write of at most one cluster changes only its table entry, its cluster and its directory entry, and stores name, plain-file attribute, cluster, size and data there |
| FileMap.PutHolds | hw7/src/vfs.c:109-193 | such a write turns a disk that holds some files into one that holds the updated files, all others unchanged |
| FileMap.LongWriteSpills | hw7/src/vfs.c:141-143 | a longer single write overwrites the next cluster |
| FileStore.HitIsIndex | hw7/src/vfs.c:489-514 | on such a disk find_file finds exactly the file with that name, case ignored |
| FileStore.VacantIsEnd | hw7/src/vfs.c:531-542 | a free slot is found exactly while fewer than 512 files exist |
| FileStore.FreeIsNext | hw7/src/vfs.c:562-579 | the cluster allocated is the one after those in use |
| FileStore.WriteNamed | hw7/test/test_vfs_write.c:23-38 | open and write update the held files at that name; failure exactly when the name is new and 512 exist |
| FileStore.FileChain | hw7/src/vfs.c:84-104 | a held file is a one-cluster chain that starts with the bytes last written |
| FileStore.ReadNamed | hw7/test/test_vfs_read.c:8-24 | open and read fail exactly for unknown names and change nothing on disk; a read up to the written length gives the bytes last written |
| BoundedMap.PutRefines | hw7/src/vfs.c:59-73 | a put updates a map at one key or is refused when the key is new and the map full |
| FileRuns.Lookup | hw7/src/vfs.c:510-513 | looking a name up in the map is finding its file |
| FileRuns.RunRefines | hw7/src/vfs.c:12-193 | every run of writes and reads by name is the run of a map with room for 512 case-folded names |
| FileRuns.PromiseIsStep | hw7/src/vfs.c:12-193 | what a call promises for the one list of files an image holds, it promises for every list and so is a step of a run; WriteNamed and ReadNamed both ensure it |
| FileRuns.DiskRun | hw7/src/vfs.c:12-193 | from a formatted disk, after every call of every run the image holds exactly the files of that map |
| FileRuns.RunReads | hw7/test/test_vfs_read.c:8-24 | in every run a read fails exactly when its name is not in the map so far, and a read of the stored length or less returns exactly the bytes last written |
| FileRuns.RunWrites | hw7/test/test_vfs_write.c:23-38 | in every run a write is refused exactly when its name is new and 512 names are stored |
| FileRuns.ReadsLastWrite | hw7/test/test_vfs_read.c:8-24 | in every run a read returns the data of the last accepted write under its name, case ignored |
| FileRuns.ReadFails | hw7/test/test_vfs_read.c:8-24 | in every run a read fails exactly when no earlier write under its name was accepted |
| FileRuns.HoldsUnique | hw7/src/vfs.c:489-514 | an image determines the names, order and bytes of the files it holds |
| Format.WriteTable | hw7/src/format_lib.c:108-126 | one table copy: reserved entries in the first, zeros after |
| Format.InitializeFat16 | hw7/src/format_lib.c:35-140 | every byte of the formatted image |
| Format.CreateDiskImage | hw7/src/format_lib.c:8-33 | the same starting from a new file |
| Format.BootParsed | hw7/src/format_lib.c:62-98 | the boot sector bytes decode to the intended geometry |
| Format.FormattedBytes | hw7/src/format_lib.c:42-139 | every field of the boot sector at its offset, the reserved table entries, and zeros everywhere else |
| Format.FormattedIsEmpty | hw7/src/format_lib.c:42-139 | a freshly formatted disk holds no files |
| Format.UsableSizes | hw7/src/format_lib.c:47-49 | a cluster can be allocated exactly when the size is not a multiple of 32 MB, and allocation only looks at entries of the first table |

## Left out

- `mmap`: its result is a parameter, an 8-aligned positive address; a failed mapping, which would overwrite `mem_start` of an older region, is not modelled.
- Request sizes above INT_MAX - 7 (signed overflow), double frees, foreign pointers inside the region and damaged headers: excluded by precondition.
- `Mem_Dump`: display only.
- Context switching, stacks, signals, the timer, the mutex and the condition variables: only the table steps are modelled; a blocked join is the state change, not the wait.
- `thread_libinit`: a run starts from the table it leaves and keeps the policy it sets; a later call that changes the policy between steps is not modelled.
- A failed stack allocation in `thread_create`: no effect on threads already in the table.
- File I/O of the defragmenter, its boot-block copy, debug output and the bound of one million recorded blocks.
- Block sizes that are not a multiple of 4 in the defragmenter: data blocks are sequences of 32-bit words.
- Triply indirect blocks: the code copies them one level too shallow; the model does the same, and the comparison of trees under `i3block` stops at the depth that is copied.
- The list of free blocks on the defragmented disk: the code writes only `free_block`.
- DefragLaws.ContentsExactly: for files with an empty pointer block the code as written has no file-level condition here, because that block's number is handed out again; `DefragLaws.AsWrittenEmpty` gives the condition for the block that takes it.
- O_TRUNC and `truncate_file`: afterwards the vnode no longer points at the file's entry.
- The directory update of `fat16_remove`, which goes to offset 0, and `fat16_rmdir`; only the loop that frees the chain is modelled.
- `fat16_mkdir`, `fat16_stat`, `fat16_to_tm`, `print_hex`, `read_cluster`, `write_cluster`, and time stamps.
- Failing or short host writes: reads can be short at the end of the image, writes succeed.
- FileStore.WriteNamed: covers single writes of at most 512 bytes and valid 8.3 names, because longer writes spill into the next cluster and other names are not found again.
- FatVolume.Vnode.WriteFile: assumes that the boot sector is not inside the table and that the entry's cluster is not 1.
- FatVolume.Vnode.ReadFile: assumes that the file pointer starts a chain; after an open of an entry without a cluster it is 0, and the code would read from two clusters before the data area.
- Formatting over an existing longer file: the image starts empty.
- Homework 1, 2 and 3 and the shell, parser and job control of homework 7.
