# Machine problems of a teaching kernel: models and proofs

Four parts of the kernel, each as the code that changes state step by step, proved against a
specification on values, and theorems about that specification over whole runs.

**The file system of MP7.** `FileSystem` keeps 16 inodes in block 0 and a bitmap of used blocks in block
1. `File` caches a whole file, 4 direct and 128 indirect blocks of 512 bytes, allocates blocks when they
are first written, and stores its pointer table when it is closed. `DiskFormat` has the byte formats,
`FileSystemSpec` and `FileSystemGrowth` the operations on values, `FileSystemClasses` and `OpenFileClass`
the code itself.
`FileSystemRun` to `FileSystemRefinement` show that every run is a run of a map from file id to byte string
and cursor, and that no block ever belongs to two slots. `FileSystemLaws` holds what follows for the disk
image, deletion, leaks and reading back, and `FileSystemLoss` a run that loses data. `FileSystemSpace` says
which blocks are allocated and how much a write stores; `FileSystemAccounts` gives both, and the number of
free blocks, from the sizes of the files; `FileSystemProgress` shows that every operation has an outcome and
that a formatted disk can be filled.

**Frame pools and paging (MP2, MP3, MP4).** `FrameStates` is the contiguous allocator on one state per
frame, and its meaning as a finite map from head frame to length of disjoint intervals. `FramePoolMp3`
(one-pass scan, most significant pair first) and `FramePoolMp2` (nested search, least significant pair
first) are the two implementations, and `FramePoolAgreement` compares them. `PageWalk` is the two-level
translation of 32-bit paging; `PagingState`, `PagingMp3` and `PagingMp4` are the two page fault handlers,
the second of which edits its tables through the window that directory slot 1023 opens. With paging on,
every load and store of the handlers goes through the translation they are changing.

**The context switch (MP5).** `ContextSwitch` describes memory, registers and threads with disjoint stacks;
`ThreadsLow` is the assembly routine instruction by instruction, and the thread constructor push by push.

**Schedulers and the disk queue (MP5, MP6).** `Scheduling` is the running thread, the ready queue and the
queue of disk waiters, one step for each operation; `Schedulers` has the linked queue, the ring, and the
operations that move threads between them.

Where the code and its comments differ, the code is followed:

- `setup_context` of MP5 says that interrupts are off in a new thread, and pushes flags with IF set
  (MP5_Sources/thread.C:107-116). The flags word is a parameter of the model; MP6 pushes 0.
- Block 1 stores 508 bytes of the bitmap, and kernel.C formats a disk of 2048 blocks
  (MP7_Sources/kernel.C:269). `FreeListRoundTripIff` gives the exact limit. The theorems about runs hold
  for larger disks too, as long as they are not mounted again.
- file_system.H speaks of files of up to 256 kB; the limit is 67,584 bytes.
- A close that needs a pointer block and finds none loses everything behind byte 2048 and says nothing.
  `CloseHasEffect` says exactly when, `CloseMoves` what remains, and `CloseCanLose` shows a run. The blocks
  lost stay marked used for good: `RunTightIff` says that this is the only way for blocks to leak.
- `get_frames` of MP2, asked for no frames, makes the first frame of the pool a head even when it is in
  use; that of MP3 returns 0 (`AllocateInBoth`).
- A page table frame of MP4 is used without being cleared. `AddsOneIff` says exactly when that maps pages
  nobody asked for, and `GarbageIsMapped` shows one.

## Model

| member | source | states |
|---|---|---|
| `DiskFormat.IntRoundTrip` | MP7_Sources/file.C:122-128 | A signed 32-bit int written byte by byte and read back is the same, -1 and all negative values included. |
| `DiskFormat.ByteRoundTrip` | MP7_Sources/file.C:140-146 | Reading four bytes as a signed int loses none of them. |
| `DiskFormat.BytesMakeWord` | MP7_Sources/file.C:122-146 | The four bytes of an int, least significant first, make it up modulo 2^32. |
| `DiskFormat.TableRoundTrip` | MP7_Sources/file.C:115-165 | Saving then loading an indirect table is the identity on all 128 signed entries. |
| `DiskFormat.TableBlockOnto` | MP7_Sources/file.C:115-165 | Every 512-byte block is the image of the table it decodes to, so loading then saving is the identity too. |
| `DiskFormat.TableLayout` | MP7_Sources/file.C:134-165 | Entry p of the pointer table lies at offset 4p. |
| `DiskFormat.InodeRoundTrip` | MP7_Sources/file_system.C:70-92 | Saving then loading the inode table gives back every member of every inode. |
| `DiskFormat.InodeLayout` | MP7_Sources/file_system.H:39-66 | Inode i lies at offset 32i of block 0, with id at 0, block_no at 4, indirect_block_no at 20, file_size at 24 and fs at 28. |
| `DiskFormat.CountRoundTrip` | MP7_Sources/file_system.C:97-137 | The 4-byte block count in block 1 is read back as saved. |
| `DiskFormat.FreeListLayout` | MP7_Sources/file_system.C:97-113 | Block 1 holds up to 508 bitmap bytes from offset 0, zeros behind them, and the count at 508, least significant byte first. |
| `DiskFormat.FreeListRoundTripIff` | MP7_Sources/file_system.C:97-137 | The bitmap is read back as saved, whatever the fresh allocation held, if and only if it has at most 508 entries. |
| `FileSystemClasses.FileSystem.SaveInodes` | MP7_Sources/file_system.C:70-81 | Writes exactly the encoding of all inodes to block 0 and nothing else. |
| `FileSystemClasses.FileSystem.LoadInodes` | MP7_Sources/file_system.C:84-92 | Every inode becomes the one that block 0 encodes, with `fs` pointing here. |
| `FileSystemClasses.FileSystem.SaveFreeBlocks` | MP7_Sources/file_system.C:97-113 | Writes the stored part of the bitmap and the block count to block 1. |
| `FileSystemClasses.FileSystem.LoadFreeBlocks` | MP7_Sources/file_system.C:117-137 | Count and bitmap are those of block 1, up to the bytes the block does not hold. |
| `FileSystemClasses.FileSystem.GetFreeBlock` | MP7_Sources/file_system.C:141-150 | -1 and no change exactly when no entry is 0; otherwise the entry returned was 0, all lower ones are not, it becomes 1, and block 1 alone of the disk changes, to the new bitmap. |
| `FileSystemClasses.FileSystem.GetFreeInode` | MP7_Sources/file_system.C:154-159 | The first inode with id -1, or -1 if there is none. |
| `FileSystemClasses.FileSystem.LookupFile` | MP7_Sources/file_system.C:243-254 | The first inode with the id, or null if no inode has it. |
| `FileSystemClasses.FileSystem.CreateFile` | MP7_Sources/file_system.C:256-291 | The whole new state: fails without change if the id exists or no inode is free, otherwise enters an empty file and saves the inodes. |
| `FileSystemClasses.FileSystem.DeleteFile` | MP7_Sources/file_system.C:293-350 | The whole new state: clears the bitmap entries the inode and its table name, then the inode, and saves both tables. |
| `FileSystemClasses.FileSystem.Format` | MP7_Sources/file_system.C:185-241 | The disk is that of an empty file system of the given size: 16 unused inodes, blocks 0 and 1 reserved. |
| `FileSystemClasses.FormatImage` | MP7_Sources/file_system.C:185-241 | A formatted disk holds 16 inodes with id -1 and no blocks in block 0; block 1 has the first two blocks used, all others free, and the count `size` / 512; no other block is written. |
| `FileSystemRefinement.FormatCount` | MP7_Sources/file_system.C:161-241 | Mounting a disk formatted with `size` gives `size` / 512 blocks; up to 508, exactly blocks 2 and up are free. |
| `FileSystemClasses.FileSystem.Mount` | MP7_Sources/file_system.C:161-183 | Inodes and bitmap are those that blocks 0 and 1 encode, and the disk is not written; the state is a mounted one when the recorded count is no more than the blocks there are. |
| `FileSystemClasses.FileSystem.Unmount` | MP7_Sources/file_system.C:51-61 | The destructor saves both tables. |
| `OpenFileClass.File.constructor` | MP7_Sources/file.C:29-71 | The handle has the block map the inode and its table name, and a cache with every block's contents and zeros elsewhere. |
| `OpenFileClass.File.LoadIndirectBlock` | MP7_Sources/file.C:115-129 | The upper 128 map entries are those of the pointer block, or stay as they were without one. |
| `OpenFileClass.File.GetOrAllocBlock` | MP7_Sources/file.C:170-181 | Returns the block of a logical block, allocating one if there is none; the map changes at that entry only. |
| `OpenFileClass.File.Read` | MP7_Sources/file.C:187-208 | Copies exactly min(n, rest) bytes from the cursor on and moves the cursor behind them. |
| `OpenFileClass.File.Write` | MP7_Sources/file.C:210-253 | Stores exactly the returned-length prefix at the cursor, allocates what it touches and no more, lowest free block first; it stops short of the size limit only at a block that is missing when none is free. |
| `OpenFileClass.File.WriteChunk` | MP7_Sources/file.C:225-243 | One round of the loop makes progress, stays in one block and in the cache, and fails only when no block is free. |
| `OpenFileClass.File.Reset` | MP7_Sources/file.C:255-259 | Only the cursor changes, to 0. |
| `OpenFileClass.File.EoF` | MP7_Sources/file.C:261-266 | True exactly when the cursor is at or behind the end. |
| `OpenFileClass.File.SaveIndirectBlock` | MP7_Sources/file.C:134-165 | Stores the pointer table, allocating a block for it if needed; false exactly when there is none and no block is free. |
| `OpenFileClass.File.Close` | MP7_Sources/file.C:73-106 | The whole new state after the destructor: cached blocks, direct pointers, pointer table and inodes are on disk. |
| `FileSystemSafety.CreateMoves` | MP7_Sources/file_system.C:256-291 | Create keeps the ownership invariant and changes the meaning of one inode only, to a new empty file. |
| `FileSystemSafety.DeleteMoves` | MP7_Sources/file_system.C:293-350 | Delete keeps the invariant, and every other file its blocks and bytes. |
| `FileSystemSafety.OpenMoves` | MP7_Sources/file.C:29-71 | Open keeps the invariant and all contents, and puts the cursor at 0. |
| `FileSystemSafety.WriteMoves` | MP7_Sources/file.C:210-253 | Write keeps the invariant; the file becomes the old content overlaid with the stored bytes; no other file changes. |
| `FileSystemClose.CloseHasEffect` | MP7_Sources/file.C:73-106 | A close keeps its pointers if and only if it needs no pointer block, has one, or finds a free one. |
| `FileSystemClose.CloseMoves` | MP7_Sources/file.C:73-165 | Close keeps the invariant and the bytes; if the pointers were lost, exactly the bytes behind 2048 read as zero afterwards. |
| `FileSystemLoss.CloseCanLose` | MP7_Sources/file.C:73-165 | On a disk of 7 blocks, 2560 bytes written to a new file are all reported as written, and after close and reopen the last 512 read as zero. |
| `FileSystemRefinement.RemountMoves` | MP7_Sources/file_system.C:51-183 | Unmounting and mounting again keeps every file. |
| `FileSystemRefinement.FreeInodeIff` | MP7_Sources/file_system.C:154-159 | An inode is free exactly when fewer than 16 files exist. |
| `FileSystemRefinement.StepRefines` | MP7_Sources/file.C:29-266 | Every legal operation keeps the invariant and is one step of the map from id to byte string and cursor, with the same result. |
| `FileSystemRefinement.RunRefines` | MP7_Sources/file_system.C:51-350 | Every run from a formatted disk is, result by result, a run of that map, and all blocks are used and owned once throughout. |
| `FileSystemRefinement.RunFiles` | MP7_Sources/file_system.C:161-350 | After every run, looking up an id finds exactly the file the map has under it. |
| `FileSystemLaws.ImageAlwaysSafe` | MP7_Sources/file_system.C:70-113 | At every operation boundary, even with files open, each block named on disk is marked used on disk and named once. |
| `FileSystemLaws.MountRebuilds` | MP7_Sources/file_system.C:161-183 | With no file open, mounting the disk afresh rebuilds the same inodes, up to `fs`, and the same bitmap. |
| `FileSystemLaws.DeleteFreesExactly` | MP7_Sources/file_system.C:300-349 | Delete raises the free count by the number of slots in use, pointer block included, and leaves all other files alone. |
| `FileSystemLaws.RunTight` | MP7_Sources/file.C:134-181 | If no close lost its pointers, the used blocks are exactly 0, 1 and the owned ones, and every block below the file size is allocated. |
| `FileSystemLaws.SessionRestores` | MP7_Sources/file_system.C:256-349 | Create, any use, close and delete of a file restore the bitmap exactly. |
| `FileSystemLaws.WrittenIsReadBack` | MP7_Sources/kernel.C:103-182 | A byte that a write stored at any cursor is what a later read of that place returns, after any other work: other files, writes elsewhere in this one, closes that keep the byte, reopening, remounting. |
| `FileSystemSpace.WriteStoresMost` | MP7_Sources/file.C:210-253 | A write stores the first j bytes (up to the size limit) if and only if the blocks still missing for them number at most the free ones; those blocks are no longer free, and a short write leaves none. |
| `FileSystemSpace.StepTakesLeast` | MP7_Sources/file_system.C:141-150 | Every block that enters a file, pointer blocks included, is the lowest one free before the step but for those that earlier slots took. |
| `FileSystemSpace.RunAllocates` | MP7_Sources/file.C:134-253 | Both hold at every step of every run from a formatted disk. |
| `FileSystemAccounts.Accounts` | MP7_Sources/file_system.C:97-159 | Free blocks, the two reserved ones and the blocks charged to files add up to the disk. |
| `FileSystemAccounts.WriteBySize` | MP7_Sources/file.C:210-253 | Without a lost pointer table, how much a write stores follows from cursor, file size and number of free blocks alone. |
| `FileSystemAccounts.CloseBySize` | MP7_Sources/file.C:73-165 | A close keeps its pointers if and only if the file has at most 2048 bytes, has a pointer block, or some block is free. |
| `FileSystemAccounts.RunHome` | MP7_Sources/file_system.C:161-291 | In every run from a disk formatted with `size` the block count is `size` / 512 throughout, and every inode points back to the file system. |
| `FileSystemAccounts.SpaceLaw` | MP7_Sources/file.C:73-253 | Over every run from a disk of up to 508 blocks in which no close lost its pointers: the free blocks are those that the file sizes leave, one block for each 512 bytes begun and one more behind 2048, and writes and closes succeed exactly as far as these allow. |
| `FileSystemAccounts.LeakStays` | MP7_Sources/file_system.C:293-350 | A block that is marked used and is in no file stays so through every step. |
| `FileSystemAccounts.RunTightIff` | MP7_Sources/file.C:73-181 | After every run, the used blocks are exactly the reserved and the owned ones, and each file has what its size calls for, if and only if no close lost its pointers. |
| `FileSystemProgress.StepHappens` | MP7_Sources/file.C:29-266 | Every legal operation can be done in every state with the invariant. |
| `FileSystemProgress.FormatAllUsable` | MP7_Sources/file_system.C:185-241 | On every disk formatted with up to 508 blocks some run puts every block but the first two into a file, and stores 512 bytes for each. |
| `FrameStates.MarkedAdds` | MP3_Sources/cont_frame_pool.C:205-230 | Marking a free range adds exactly one interval to the map. |
| `FrameStates.ReleasedRemoves` | MP3_Sources/cont_frame_pool.C:232-258 | Releasing a head removes exactly its interval. |
| `FrameStates.MarkedWellFormed` | MP3_Sources/cont_frame_pool.C:222-230 | Marking any range, even one partly in use, leaves every used frame behind a used frame or a head. |
| `FrameStates.MarkedCuts` | MP3_Sources/cont_frame_pool.C:222-230 | Marking any range enters its interval, drops the heads inside it, shortens an interval cut in front, and joins the tail of one cut in the middle to the new one. |
| `FrameStates.AllocateReleaseRestores` | MP3_Sources/cont_frame_pool.C:205-256 | Allocating and releasing restores the state of every frame of the pool. |
| `FrameStates.IntervalsDisjoint` | MP3_Sources/cont_frame_pool.C:195-258 | The intervals of a pool are disjoint and lie inside it. |
| `FrameStates.CoveredIffInUse` | MP3_Sources/cont_frame_pool.C:195-258 | A frame is in use exactly when an interval covers it. |
| `FrameStates.IntervalsDetermine` | MP3_Sources/cont_frame_pool.C:195-258 | Two pools of one size with the same intervals have the same frame states. |
| `FrameStates.FramesConserved` | MP3_Sources/cont_frame_pool.C:195-258 | Free frames and interval lengths always sum to the pool size. |
| `FrameStates.PoolRefinesIntervals` | MP3_Sources/cont_frame_pool.C:156-258 | Every run of requests acts on the interval map as specified, answer by answer, marks of ranges in use included, and keeps its size and well-formedness. |
| `FrameStates.InfoFramesKept` | MP3_Sources/cont_frame_pool.C:169-258 | Frames that hold the pool's own bitmap stay in use and are never handed out while no sequence that starts among them is released, whatever is marked inaccessible. |
| `FrameStates.InfoStatesKept` | MP3_Sources/cont_frame_pool.C:169-258 | If the marks miss them, they stay one sequence from the start of the pool. |
| `FramePoolMp3.StateUpdated` | MP3_Sources/cont_frame_pool.C:133-154 | Storing a state sets that frame and no other, though four share a byte. |
| `FramePoolMp3.NeededIsLeast` | MP3_Sources/cont_frame_pool.C:260-266 | The number of info frames is the least that holds two bits for every frame. |
| `FramePoolMp3.PackedFromTop` | MP3_Sources/cont_frame_pool.C:133-154 | Frame 4i is in the top two bits of byte i, frame 4i + 3 in the bottom two; 0 is free, 1 used, anything else a head. |
| `FramePoolMp3.ContFramePool.SetState` | MP3_Sources/cont_frame_pool.C:144-154 | One frame of the abstract state changes, to the given state. |
| `FramePoolMp3.ContFramePool.GetState` | MP3_Sources/cont_frame_pool.C:133-142 | The abstract state of the frame. |
| `FramePoolMp3.ContFramePool.constructor` | MP3_Sources/cont_frame_pool.C:156-193 | A pool with all frames free but its own info frames. |
| `FramePoolMp3.ContFramePool.GetFrames` | MP3_Sources/cont_frame_pool.C:195-220 | Returns and marks the lowest run of n free frames; 0 and no change if there is none. |
| `FramePoolMp3.ContFramePool.MarkInaccessible` | MP3_Sources/cont_frame_pool.C:222-230 | The range becomes one sequence, whatever it was. |
| `FramePoolMp3.ContFramePool.FreeSequence` | MP3_Sources/cont_frame_pool.C:245-257 | The head and the used frames behind it become free, nothing else. |
| `FramePoolMp3.PoolList.ReleaseFrames` | MP3_Sources/cont_frame_pool.C:232-258 | Frees the sequence in the first pool that contains the frame; stops without change if there is none or the frame is no head. |
| `FramePoolMp2.RawUpdated` | MP2_Sources/cont_frame_pool.C:135-151 | Storing two bits sets those of the frame and of no other, least significant pair first. |
| `FramePoolMp2.PackedFromBottom` | MP2_Sources/cont_frame_pool.C:135-151 | Frame 4i is in the bottom two bits of byte i, frame 4i + 3 in the top two; 0 is free, 1 used, 2 a head. |
| `FramePoolMp2.ContFramePool.GetFrames` | MP2_Sources/cont_frame_pool.C:185-212 | The nested search returns and marks the lowest run of n free frames, for n up to the pool size; for n = 0 it makes the first frame a head, whatever it was. |
| `FramePoolMp2.ContFramePool.MarkInaccessible` | MP2_Sources/cont_frame_pool.C:214-223 | The range becomes one sequence. |
| `FramePoolMp2.ContFramePool.FreeSequence` | MP2_Sources/cont_frame_pool.C:245-256 | The head and the used frames behind it become free, nothing else. |
| `FramePoolMp2.PoolList.Register` | MP2_Sources/cont_frame_pool.C:168-182 | The pool is linked in behind all others. |
| `FramePoolMp2.PoolList.FindPoolByFrame` | MP2_Sources/cont_frame_pool.C:225-235 | The first pool of the linked list that contains the frame, or null. |
| `FramePoolMp2.PoolList.ReleaseFrames` | MP2_Sources/cont_frame_pool.C:237-256 | Frees the sequence in the first pool of the linked list that contains the frame; stops without change if there is none or the frame is no head. |
| `FramePoolAgreement.AllocateInBoth` | MP2_Sources/cont_frame_pool.C:185-212 | On equal pools both searches return the same frame and leave equal pools, 0 exactly when no run exists; only for 0 frames they differ, where MP2 makes its first frame a head. |
| `FramePoolAgreement.AllocateAndRelease` | MP3_Sources/cont_frame_pool.C:195-258 | get_frames on any pool of the static list, then release_frames, restores that pool and leaves all others alone, provided no pool before it in the list contains its frames. |
| `PageWalk.EntryWord` | MP3_Sources/page_table.C:95-106 | An entry is the address of its frame with the present and write bits and no other. |
| `PagingState.MakePools` | MP3_Sources/kernel.C:107-122 | The kernel pool has frames 512 to 1023, the process pool 1024 to 8191; the pools are in the states of `BootStates`. |
| `PagingState.BootStates` | MP3_Sources/kernel.C:107-122 | At start-up frames 512 and 513 are in use, for the two bitmaps, and the frames from 15 MB to 16 MB are one sequence; all others are free. |
| `PagingMp3.BuiltInv` | MP3_Sources/page_table.C:26-55 | From any memory contents the constructor leaves exactly pages 0 to 1023 mapped, each to itself. |
| `PagingMp3.WordsOfBuilt` | MP3_Sources/page_table.C:26-55 | Directory and first table are the two lowest free kernel frames; entry i of the table is 4096i + 3, slot 0 the table's address + 3, the other slots 0, and nothing else is written. |
| `PagingMp3.FaultAddsOne` | MP3_Sources/page_table.C:75-109 | A fault on an unmapped page keeps the invariant, maps the page to a frame that was free, and changes no other translation. |
| `PagingMp3.FaultTakes` | MP3_Sources/page_table.C:75-109 | A fault takes the lowest free process frame for the page and, only if the directory has no table for it, the lowest free kernel frame; what it stores has the present and write bits and no other flag. |
| `PagingMp3.HistoryKeeps` | MP3_Sources/page_table.C:75-109 | Over every history of faults and stores by the program above 4 MB, each faulted page keeps the frame it was granted and all other pages are as they were. |
| `PagingMp3.MappedExactly` | MP3_Sources/page_table.C:26-109 | From start-up, after any faults and stores, exactly the low pages and the faulted pages are mapped, injectively, and none into the memory hole. |
| `PagingMp3.TablesExactly` | MP3_Sources/page_table.C:26-109 | From start-up, after any history, the directory has exactly the first table and those of the faulted pages. |
| `PagingMp3.GrantedInOrder` | MP3_Sources/kernel.C:38-122 | From start-up, a fault after n others, with any stores between them, is granted process frame 1024 + n, or 256 more once the hole at 15 MB is reached. |
| `PagingMp3.WriteSets` | MP3_Sources/page_table.C:26-109 | A store by the program above 4 MB changes no translation and no other word of virtual memory. |
| `PagingMp3.FaultKeepsContents` | MP3_Sources/page_table.C:75-109 | Handling a fault changes no accessible word of virtual memory. |
| `PagingMp3.MemoryKeeps` | MP3_Sources/page_table.C:75-109 | Over every history of faults and stores a word keeps its value until it is written. |
| `PagingMp3.ReadsLastWritten` | MP3_Sources/page_table.C:75-109 | A word reads as what was last stored there. |
| `PagingMp3.LowResolve` | MP3_Sources/page_table.C:83-103 | With paging on, the physical addresses the handler uses reach the words they name. |
| `PagingMp3.HandleFault` | MP3_Sources/page_table.C:75-109 | The handler, all of whose accesses are translated, makes exactly the step of the theorems above. |
| `PagingMp3.PageTable.constructor` | MP3_Sources/page_table.C:26-55 | The constructor's loops leave exactly the memory of `BuiltInv`. |
| `PagingMp3.Boot` | MP3_Sources/page_table.C:26-73 | From the pools of kernel.C, the constructor, load and enable_paging reach the state the handler needs, with exactly pages 0 to 1023 mapped and the directory in frame 514. |
| `PagingMp4.WindowReachesDirectory` | MP4_Sources/page_table.C:97-99 | With slot 1023 holding the directory, address 0xFFFFF000 + 4d is word d of the directory. |
| `PagingMp4.WindowReachesTable` | MP4_Sources/page_table.C:104-106 | Address 0xFFC00000 + 4096d + 4t is word t of the table of slot d, and unmapped when that is not present. |
| `PagingMp4.BuiltInv` | MP4_Sources/page_table.C:25-51 | The constructor sets up the window and maps exactly pages 0 to 1023 below it. |
| `PagingMp4.WordsOfBuilt` | MP4_Sources/page_table.C:25-51 | Slot 1023 holds the directory, slot 0 the first table, with flags 3; the other slots hold 2; entry i of the table is 4096i + 3, and nothing else is written. |
| `PagingMp4.FaultMaps` | MP4_Sources/page_table.C:70-109 | What every page outside the window maps to after a fault outside the window. |
| `PagingMp4.FaultTakes` | MP4_Sources/page_table.C:86-109 | A fault takes the lowest free process frame for the page; without a table for it the lowest becomes the table and the next one is for the page; what it stores has the present and write bits and no other flag. |
| `PagingMp4.FaultKeepsPresent` | MP4_Sources/page_table.C:93-111 | Every translation that was present is kept. |
| `PagingMp4.AddsOneIff` | MP4_Sources/page_table.C:93-111 | No other page changes if and only if the table was present or its frame held no other word that looks present. |
| `PagingMp4.GarbageIsMapped` | MP4_Sources/page_table.C:93-111 | Memory contents for which the first fault above 4 MB maps a second page. |
| `PagingMp4.HistoryKeeps` | MP4_Sources/page_table.C:70-111 | Over every history of faults and stores to faulted pages, present translations are kept and each faulted page maps to the frame it was granted, which is no table. |
| `PagingMp4.GivenOnce` | MP4_Sources/page_table.C:70-111 | No frame is given to two faults in a history of faults and stores. |
| `PagingMp4.OwnFrames` | MP4_Sources/page_table.C:70-111 | Two faulted pages never share a frame. |
| `PagingMp4.ReadsLastWritten` | MP4_Sources/page_table.C:70-111 | A word of a faulted page reads as what was last stored there, whatever faults and other stores came in between. |
| `PagingMp4.HandleFault` | MP4_Sources/page_table.C:86-109 | The handler, storing through its own window, makes exactly the step of the theorems above. |
| `PagingMp4.PageTable.constructor` | MP4_Sources/page_table.C:25-51 | The constructor's loops leave exactly the memory of `BuiltInv`. |
| `PagingMp4.Boot` | MP4_Sources/page_table.C:25-68 | From the pools of kernel.C, the constructor, load and enable_paging reach the state the handler needs, with exactly pages 0 to 1023 mapped below the window, the directory in frame 514 and the first table in frame 1024. |
| `ContextSwitch.SuspendSavesView` | MP5_Sources/threads_low.asm:56-99 | After the saving half, the thread's stack holds a frame that restores all its registers behind its call, and its stack above is unchanged. |
| `ContextSwitch.SuspendedWords` | MP5_Sources/threads_low.asm:56-99 | The 17 words of a suspended thread, word by word in the order of the REGS structure, with cs 8. |
| `ContextSwitch.SuspendKeepsOthers` | MP5_Sources/threads_low.asm:56-99 | The saving half writes nothing of any other thread. |
| `ContextSwitch.SavedViewSame` | MP5_Sources/threads_low.asm:109-116 | What a suspended thread resumes with depends on its own stack and control block only. |
| `ContextSwitch.SwitchStep` | MP5_Sources/threads_low.asm:53-134 | A switch to any thread, itself included, accesses only memory, makes it current, and leaves every view as it was. |
| `ContextSwitch.SuspendedKeepView` | MP5_Sources/thread.C:193-207 | At every moment of every run, what a suspended thread will see is what it saw when it gave up the processor. |
| `ContextSwitch.ResumesAfterCall` | MP5_Sources/threads_low.asm:31-116 | Over every run, a thread resumes at its return address one word up the stack with all registers, segment registers, IF and stack as at its call, and cs 8, the kernel code segment. |
| `ContextSwitch.ResumedInKernel` | MP5_Sources/threads_low.asm:78-116 | Over every run of threads that were set up, each switch resumes in GDT entry 1 at ring 0. |
| `ContextSwitch.SetUpStarts` | MP5_Sources/thread.C:90-187 | The 20 words a new thread is set up with stay on its stack of at least 80 bytes, touch no other thread, and form a frame that starts it. |
| `ContextSwitch.SetUpWords` | MP5_Sources/thread.C:90-158 | The words of the first frame, one by one, with cs 8 and ds and es 16. |
| `ContextSwitch.FirstDispatch` | MP5_Sources/thread.C:71-158 | The first switch to a thread that was set up enters `thread_start` with cs 8, ds and es 16 (GDT entries 1 and 2, ring 0) and general registers 0; its return enters the thread function with `thread_shutdown` as return address and argument 0. |
| `ThreadsLow.Cpu.MakeReturnFrame` | MP5_Sources/threads_low.asm:78-92 | The shuffle at the entry leaves the flags, selector 8 and the return address in place for iret, and eax as it was. |
| `ThreadsLow.Cpu.SaveRegisters` | MP5_Sources/threads_low.asm:31-37 | The pushes complete the 17-word frame. |
| `ThreadsLow.Cpu.RestoreAndReturn` | MP5_Sources/threads_low.asm:41-48 | The pops and iret load exactly the registers of the frame. |
| `ThreadsLow.Cpu.SwitchTo` | MP5_Sources/threads_low.asm:53-134 | The instructions compute the switch of the theorems above, with arithmetic flags left open and IF kept. |
| `ThreadsLow.ThreadObject.Push` | MP5_Sources/thread.C:62-66 | One word goes below the saved stack pointer, which moves down. |
| `ThreadsLow.ThreadObject.SetupContext` | MP5_Sources/thread.C:90-158 | The pushes lay down the first frame, with selector 8 in the place of cs and 16 in those of ds and es. |
| `ThreadsLow.ThreadObject.constructor` | MP5_Sources/thread.C:164-187 | Memory after the constructor is that of `SetUpStarts`. |
| `Scheduling.StepKeeps` | MP6_Sources/scheduler.C:34-80 | With at most 10 threads no step loses or copies a thread or overflows the ring; only a wait with no thread ready stops the machine. |
| `Scheduling.StepQueues` | MP6_Sources/kernel.C:103-122 | What each event does to processor and queues: a pass queues the woken thread, then the passing one, and runs the first; when it stops the machine, in both directions. |
| `Scheduling.RunKeeps` | MP6_Sources/kernel.C:103-122 | In every run each thread is in exactly one place, and the assertion that the ring is not full never fails. |
| `Scheduling.NeverFullIff` | MP6_Sources/scheduler.C:34-80 | No run of passes, waits and interrupts overflows the ring if and only if there are no more threads than it has places. |
| `Scheduling.WokenInOrder` | MP6_Sources/nonblocking_disk.C:66-109 | Threads that wait for the disk are resumed once for each wait, in order of arrival. |
| `Scheduling.RunInOrder` | MP6_Sources/scheduler.C:34-80 | Over every run the threads given the processor, followed by those still ready, are those ready at the start followed by those that became ready, in the order in which they did. |
| `Scheduling.RunsInTurn` | MP6_Sources/scheduler.C:61-80 | Whatever waits, passes and interrupts happen, the thread at place p of the ready queue runs after exactly p + 1 switches. |
| `Scheduling.RoundRobin` | MP5_Sources/kernel.C:110-128 | Without blocking, the k-th pass runs element (k - 1) mod n of ready + [current]. |
| `Scheduling.OncePerRound` | MP5_Sources/kernel.C:110-128 | In any n consecutive passes each of the n threads runs exactly once. |
| `Schedulers.LinkedQueue.Append` | MP6_Sources/nonblocking_disk.C:43-52 | The linked queue grows by one at its end. |
| `Schedulers.LinkedQueue.TakeFirst` | MP6_Sources/nonblocking_disk.C:54-60 | The first node is taken off; null exactly when the queue is empty. |
| `Schedulers.FifoScheduler.Resume` | MP5_Sources/scheduler.C:71-90 | The thread goes to the end of the ready queue. |
| `Schedulers.FifoScheduler.Yield` | MP5_Sources/scheduler.C:53-69 | The first ready thread becomes current; with none ready nothing changes. |
| `Schedulers.FifoScheduler.PassOnCPU` | MP5_Sources/kernel.C:110-128 | Queues the current thread last and runs the first: the pass of the run theorems, for any number of threads. |
| `Schedulers.RingScheduler.Resume` | MP6_Sources/scheduler.C:34-39 | The ring grows by one at its end, unless it holds 10 threads. |
| `Schedulers.RingScheduler.Dequeue` | MP6_Sources/scheduler.C:41-47 | The ring loses its first thread. |
| `Schedulers.RingScheduler.Yield` | MP6_Sources/scheduler.C:61-75 | The first ready thread becomes current; with none ready the machine stops. |
| `Schedulers.Kernel.HandleInterrupt` | MP6_Sources/nonblocking_disk.C:102-111 | The first disk waiter goes to the end of the ready queue; nothing happens when nobody waits. |
| `Schedulers.Kernel.CheckAndResume` | MP6_Sources/nonblocking_disk.C:87-96 | Wakes the first waiter unless the drive is busy. |
| `Schedulers.Kernel.PassOnCPU` | MP6_Sources/kernel.C:103-122 | Wakes a waiter if the drive is idle, then queues the current thread behind it and runs the first: new current thread and ready queue are the old ready queue, the woken thread and the old current thread. |
| `Schedulers.Kernel.WaitWhileBusy` | MP6_Sources/nonblocking_disk.C:66-75 | The current thread joins the end of the disk queue and the first ready thread runs; stops exactly when none is ready. |
| `Schedulers.PassBoth` | MP5_Sources/scheduler.C:53-90 | The linked queue and the ring run the same threads in the same order for any number of passes. |

## Left out

- FileSystemRefinement.RunRefines: covers the runs that keep the rules of the interface: no file id -1 (it marks unused inodes), one handle for a file, no deletion of an open file, mounting again only with all files closed and at most 508 blocks.
- FileSystemLaws.ImageAlwaysSafe: speaks of operation boundaries; DeleteFile writes the bitmap before the inodes, so a crash between the two writes is another matter.
- FramePoolMp2.ContFramePool.GetFrames: requires n <= pool size, because the loop bound wraps around for larger n and the search reads behind the bitmap; and a pool of at least one frame.
- PagingMp3.FaultAddsOne: requires that the pools still have the frames, because the handlers do not look for the 0 that an exhausted pool returns; PagingMp4.FaultMaps likewise.
- PagingMp4.FaultMaps: says nothing of the pages inside the window, which follow the directory.
- ContextSwitch.ResumesAfterCall: takes the switch as atomic. The routine keeps two words below the stack pointer for a moment, and an interrupt there would overwrite them.
- Scheduling.RunKeeps: takes each operation as one step, as MP6 does with interrupts off. MP5 turns them on between resume and yield, so a timer tick can queue a thread twice; nothing is claimed of that.
- Port I/O, ATA commands and polling, timers, interrupt dispatch, the console and start-up code: disk reads and writes are exact block copies, CR2 and CR3 are values.
- The bitmap of a frame pool is an array of its own, not the memory of its info frames; the static pool list of MP3 is a sequence.
- Pointers to inodes are indexes; `num_allocated_blocks` and `block_cache` are not used by the code.
- Bit operations on disjoint fields are sums, quotients and remainders, except in the frame-pool packings.
- Reserved flag bits, unaligned stacks, segment limits, translation caches and protection faults.
- Threads created while others run; the scheduler's `terminate`; the busy loop behind a finished wait.
- MP4's `free_page` and `VMPool`, with the check that an address belongs to a pool, and the MP4 frame pool: the MP4 model draws single frames from the MP3 pool.
- The bump allocators of MP5 to MP7, `SimpleFramePool` and the string utilities.
