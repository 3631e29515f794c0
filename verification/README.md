# Models of the operating system labs

A Dafny model of the hardest parts of a set of operating system labs: original lab
programs (a disk defragmenter, a region allocator, a futex lock, a multi-level feedback
queue scheduler) and an xv6 kernel with a changed address-space layout, with some of its
user programs. Every component is modelled in the form its source has: programs that
change state are classes and methods with loops, proved equal to a specification function
or relation; what the source promises is then proved about the specification, over every
input, every run or every interleaving.

| files | component |
|---|---|
| `Basics` | types and notions several components share |
| `Arith`, `DefragImage`, `DefragBuild`, `DefragFiles`, `DefragBytes`, `Defragmenter` | the defragmenter: reading an image, placing a file system, the promise on the bytes of an image, the program with its three global cursors |
| `MlfqSpec`, `MlfqWaiting`, `MlfqSlices`, `Mlfq` | the scheduler: one round, bounded waiting, time slices, the loop body over the process table |
| `FsState`, `FsMap`, `FsFull`, `FileStore`, `DirStore` | the file store: block ownership, block maps and the full disk, bitmap, reads and writes, directories |
| `FreeList`, `UMalloc` | the circular free list of the user-level allocator |
| `MemAlloc` | the region allocator with first, best and worst fit |
| `ShellSpec`, `ShellPrint`, `ShellSpace`, `ShellFlat`, `Shell` | the shell's grammar, printing, white space, precedence, and the parser over a character buffer |
| `VmSpec`, `VmRange`, `VmCopy`, `VmKernel`, `VmLayout`, `VmRuns`, `VmAccess`, `Vm` | frames and address spaces, the kernel's pages, the heap and stack layout, system call arguments, the code over the machine |
| `BufferRing`, `BufferSpec`, `BufferRuns`, `BufferCache` | the disk block cache and the queue of its disk |
| `ProcSpec`, `ProcKeeps`, `ProcTable`, `ProcKill` | fork, exit, wait, sleep, wakeup and kill on the process table |
| `Mutex`, `Pipe`, `Grep` | the futex lock, the pipe, the regular expression matcher |

Some results say where the code does not do what it seems meant to do, and exactly when:

- A scheduler round with no runnable process runs the process chosen before, whatever its
  state (`RoundRunsRunnableIff`, with the witness `IdleRoundRunsSleeper`).
- The defragmenter's first pass counts blocks by file size, the copy stops at what the
  pointer trees can hold; the two agree exactly if no file is larger
  (`DefragmentLayout`, with the witness `OversizedFile`).
- `balloc` does not compare with the size of the disk, and `mkfs` leaves spare bits in the
  bitmap. On a full disk `bmap` maps a block behind its end and block ownership is broken;
  `bmap`, `writei` and `dirlink` work exactly if as many blocks are free as are missing
  (`MapBlockExact`, `Writei`, `Dirlink`, with the witness `FullDiskMapsPastTheEnd`).
- When `setupkvm` runs out of frames half way, it does not give back what it has taken. A
  fork with 2 to 13 free frames loses all but one of them (`SetupkvmBuilds`,
  `CopyuvmCopiesOrRestores`, `ForkCopies`, with the witness `ForkLosesAFrame`).
- `growproc` keeps the memory layout for exactly the arguments that do not cut the size
  below 0x2000: a cut to 0 frees the pages although the call fails, and a cut below 0 wraps
  around and may report success without effect (`GrowprocDown`, with the witness
  `GrowprocLosesTheLayout`).
- `argptr` accepts some negative sizes (`ArgptrExact` says which; `ArgptrAcceptsNegative`
  is one).
- `mem_alloc` takes every header for large enough when the rounded size is not positive. It
  then hands out an allocated block again exactly if some block is allocated for best fit,
  all are for worst fit, the first one is for first fit (`ServedFresh`, with the witnesses
  `ZeroTwice` and `ZeroTwiceWhenFull`); a negative size can also write a header over other
  bytes, exactly under `Overlaps` (`Alloc`).
- `mem_free` succeeds on a block of zero bytes without a free neighbour and leaves it
  allocated (`FreedExactly`).
- `kill` looks at the pids of unused slots too, and `allocproc` does not clear the mark:
  `kill(0)`, a kill of a failed fork's pid, and the failure of a fork whose child was killed
  mark whoever gets the slot next, and nothing else does (`CleanExactly`, `KilledExactly`,
  with the witnesses `KillZeroStrikesTheNextChild` and `FailedForkPassesItsMarkOn`).

## Model

| member | source | states |
|---|---|---|
| `DefragFiles.DefragmentKeepsFiles` | Project4/4a File Defragmentation/defrag.c:78-133 | For every inode of every valid image: it is live after defragmenting exactly if it was before, its metadata is the same, and every logical block within its size and the trees' capacity resolves, through direct, single, double and triple pointers of the output, to the bytes it resolved to in the input |
| `DefragBytes.DefragmentKeepsBytes` | Project4/4a File Defragmentation/defrag.c:78-133 | The same said of the four-byte numbers of the two images alone: the superblock's five offsets and sizes, inodes of 100 bytes, ten direct, four single, one double and one triple pointer; for every inode the superblock leaves room for and every logical block its pointers can lead to |
| `DefragBytes.LocateIs` | Project4/4a File Defragmentation/defrag.c:337-388 | The walk leads to the block that dividing the logical number down the index blocks leads to, by the numbers at their byte addresses |
| `DefragBytes.GeometryIs` | Project4/4a File Defragmentation/defrag.c:157-177 | Inodes begin 1024 bytes and inode_offset blocks into the image, data blocks 1024 bytes and data_offset blocks, and there are as many inodes as 100 bytes fit into the blocks between |
| `DefragBytes.SuperKept` | Project4/4a File Defragmentation/defrag.c:134-140 | Of the superblock only free_iblock changes |
| `DefragFiles.DefragmentTwice` | Project4/4a File Defragmentation/defrag.c:72-140 | Running the program on its own output reproduces that output word for word |
| `DefragFiles.DefragmentLayout` | Project4/4a File Defragmentation/defrag.c:72-140 | Data blocks have exactly the numbers 0, 1, ... in inode and file order; index blocks have exactly the numbers from the claimed total up to the new free_iblock; and the blocks placed are as many as the first pass claimed if and only if no file claims more than the trees hold |
| `DefragFiles.OversizedFile` | Project4/4a File Defragmentation/defrag.c:183-201 | A concrete valid image with one file of 68 bytes in blocks of 4: it claims seventeen blocks, its pointers lead to fewer, and the output has a numbered block that no file has |
| `DefragFiles.BuildFsReads` | Project4/4a File Defragmentation/defrag.c:337-388 | The image built for any file system reads back, by the natural walk, as that file system, with its geometry, block numbering and free index pointer |
| `DefragImage.TreeDataResolves` | Project4/4a File Defragmentation/defrag.c:368-388 | The walk over one tree of any level lists exactly what following the pointers to each logical block gives |
| `DefragImage.ForestDataResolves` | Project4/4a File Defragmentation/defrag.c:337-366 | The walk over a file's root pointers lists exactly what resolving each logical block number gives |
| `DefragImage.ForestFrame` | Project4/4a File Defragmentation/defrag.c:337-388 | A file reads the same in two images that agree on the blocks it reaches |
| `DefragBuild.BuildForestReads` | Project4/4a File Defragmentation/defrag.c:92-128 | Reading a freshly placed file through its new root pointers gives its blocks, whatever pointers are left over |
| `DefragBuild.BuiltApart` | Project4/4a File Defragmentation/defrag.c:204-277 | What is placed later never overwrites a data or index block placed earlier |
| `DefragFiles.ReadFsValid` | Project4/4a File Defragmentation/defrag.c:320-358 | Reading a valid image gives a file system that can be built again |
| `Defragmenter.Program.WriteFromDataBlocks` | Project4/4a File Defragmentation/defrag.c:204-217 | Copies one data block and moves the cursors exactly as placing a tree of level 0 does |
| `Defragmenter.Program.WriteFromIndirectBlocks` | Project4/4a File Defragmentation/defrag.c:220-237 | Writes an index block and its data blocks exactly as placing a tree of level 1 does, whichever of the two bounds ends the loop |
| `Defragmenter.Program.WriteFromDoublyIndirectBlocks` | Project4/4a File Defragmentation/defrag.c:240-257 | The same for a tree of level 2 |
| `Defragmenter.Program.WriteFromTriplyIndirectBlocks` | Project4/4a File Defragmentation/defrag.c:260-277 | The same for a tree of level 3 |
| `Defragmenter.Program.RewriteInode` | Project4/4a File Defragmentation/defrag.c:87-132 | One live inode's pointers, blocks and cursors become those of the placed file |
| `Defragmenter.Program.CalculateSummaryOfBlocks` | Project4/4a File Defragmentation/defrag.c:183-201 | The first pass returns the number of blocks all live inodes claim |
| `Defragmenter.Program.Init` | Project4/4a File Defragmentation/defrag.c:157-177 | The boot sector is copied, and the addresses of inodes and of data blocks and the number of inodes are those the superblock's numbers give, in bytes |
| `Defragmenter.Program.Run` | Project4/4a File Defragmentation/defrag.c:72-140 | The whole program writes exactly the defragmented image |
| `MlfqSpec.NextKeepsInv` | Project2/2b xv6 Scheduling/xv6/kernel/proc.c:276-341 | The inductive invariant over every round, idle ones included, and everything processes do between rounds: priorities in 0..3; waits zero off the current level and below ten slices under level 3; done a multiple of the slice above the current level; the kept choice runnable unless a rescan is due |
| `MlfqSpec.BestIsLongestWait` | Project2/2b xv6 Scheduling/xv6/kernel/proc.c:292-298 | The rescan finds at each level a process of longest wait, the earliest among equals, or none exactly if the level has no runnable process |
| `MlfqSpec.ScanChoosesHighest` | Project2/2b xv6 Scheduling/xv6/kernel/proc.c:290-303 | A rescan chooses a runnable process of maximal priority and, at that priority, of maximal wait |
| `MlfqSpec.RoundRunsMaximal` | Project2/2b xv6 Scheduling/xv6/kernel/proc.c:277-303 | In every round with a runnable process, rescanned or not, the one run has maximal priority |
| `MlfqSpec.RoundRunsRunnableIff` | Project2/2b xv6 Scheduling/xv6/kernel/proc.c:301-309 | The process a round runs was runnable if and only if some process was: the exact condition under which the idle round goes wrong |
| `MlfqSpec.IdleRound` | Project2/2b xv6 Scheduling/xv6/kernel/proc.c:288-303 | With nothing runnable, the round rescans, finds no candidate at any level and stays with the process it had |
| `MlfqSpec.IdleRoundRunsSleeper` | Project2/2b xv6 Scheduling/xv6/kernel/proc.c:301-309 | A concrete table with only a sleeping process, whose next round marks the sleeper running |
| `MlfqWaiting.WaitingCosts` | Project2/2b xv6 Scheduling/xv6/kernel/proc.c:311-335 | Each round a runnable process is passed over uses up some of its patience, at every level |
| `MlfqWaiting.BoundedWaiting` | Project2/2b xv6 Scheduling/xv6/kernel/proc.c:277-335 | No runnable process is passed over for more than 500, 320 and 160 rounds for the levels it has to climb, plus 8 times NPROC rounds |
| `MlfqWaiting.ReachesTopLevel` | Project2/2b xv6 Scheduling/xv6/kernel/proc.c:311-324 | A waiting process is at level 3 after those rounds, and one at level 3 waits at most 8 times NPROC more |
| `MlfqSlices.RunningCosts` | Project2/2b xv6 Scheduling/xv6/kernel/proc.c:326-335 | The process a round runs pays one tick at its level and waits no more; it goes one level down and a rescan is due exactly if it is above level 0 and its ticks there have become a multiple of 32, 16 or 8 |
| `MlfqSlices.SliceRunsOut` | Project2/2b xv6 Scheduling/xv6/kernel/proc.c:272-341 | Over every run of rounds that choose the same process above level 0: it keeps its level for exactly what is left of its slice of at most 32, 16 or 8 rounds, and with the last of these it is one level lower with a rescan due |
| `MlfqSlices.LowestStays` | Project2/2b xv6 Scheduling/xv6/kernel/proc.c:329-334 | Over every such run a process at level 0 is never demoted |
| `MlfqSlices.SliceIsKept` | Project2/2b xv6 Scheduling/xv6/kernel/proc.c:277-303 | A process whose slice is not over and that nobody runnable is above runs again |
| `MlfqSlices.WaitingEffect` | Project2/2b xv6 Scheduling/xv6/kernel/proc.c:311-324 | A process that does not run waits one round more if it is runnable, climbs one level at 500, 320 and 160, and is otherwise as it was |
| `MlfqSpec.RunsGoOn` | Project2/2b xv6 Scheduling/xv6/kernel/proc.c:336-341 | The process that ran may yield, sleep or exit: each is a step between rounds |
| `MlfqSpec.SleepersMayWake` | Project2/2b xv6 Scheduling/xv6/kernel/proc.c:425-432 | So is waking any sleeper meanwhile |
| `Mlfq.Scheduler.RunRound` | Project2/2b xv6 Scheduling/xv6/kernel/proc.c:276-337 | The loop body computes exactly the round that the properties are about |
| `Mlfq.Scheduler.CheckPreemption` | Project2/2b xv6 Scheduling/xv6/kernel/proc.c:277-288 | The flag is set exactly if a runnable process is above the current one or there is none |
| `Mlfq.Scheduler.RescanLevels` | Project2/2b xv6 Scheduling/xv6/kernel/proc.c:290-300 | The four candidates are those of the specification's scan |
| `Mlfq.Scheduler.ChooseTarget` | Project2/2b xv6 Scheduling/xv6/kernel/proc.c:301-303 | The candidate of the highest level is taken, and the previous process if there is no candidate |
| `Mlfq.Scheduler.AgeOthers` | Project2/2b xv6 Scheduling/xv6/kernel/proc.c:311-324 | Every other process ages and climbs as the specification says |
| `Mlfq.Scheduler.ChargeChosen` | Project2/2b xv6 Scheduling/xv6/kernel/proc.c:326-335 | The chosen process is charged a tick and demoted on slice expiry |
| `Mlfq.Scheduler.AllocProc` | Project2/2b xv6 Scheduling/xv6/kernel/proc.c:34-61 | The first unused slot becomes a new process at level 3 with clean counters, keeping the invariant |
| `Mlfq.Scheduler.Iterate` | Project2/2b xv6 Scheduling/xv6/kernel/proc.c:272-342 | One whole pass of the loop, with any behaviour of the process that ran and of the interrupts, is one step of the specification, keeps the invariant, and sets the flag exactly on slice expiry or if the process did not come back runnable |
| `Mlfq.Scheduler.Wakeup1` | Project2/2b xv6 Scheduling/xv6/kernel/proc.c:425-432 | Exactly the sleepers on the channel become runnable |
| `FsState.AttachKeeps` | Project3/3b xv6 VM Layout/xv6/kernel/fs.c:319-347 | Pointing an empty slot at a block that is free and zero keeps every invariant and every byte of every file: each used block has one owner, free blocks are zero, none leaks |
| `FsState.ByteOnDisk` | Project3/3b xv6 VM Layout/xv6/kernel/fs.c:319-347 | Each byte below a file's end lies in a block of the data region that is marked used: the first twelve by the inode, the others by the little-endian words of the indirect block; no other block of any file is the same |
| `FsState.WriteBytes` | Project3/3b xv6 VM Layout/xv6/kernel/fs.c:421-451 | Writing inside one block changes exactly the bytes covered in its own file and no byte of any other |
| `FsState.WriteKeepsCore` | Project3/3b xv6 VM Layout/xv6/kernel/fs.c:421-451 | Writing into a mapped block keeps block ownership |
| `FsState.TruncateKeeps` | Project3/3b xv6 VM Layout/xv6/kernel/fs.c:352-380 | Truncation keeps the invariant, makes the file read as zero and leaves every byte of all other files |
| `FileStore.Store.Balloc` | Project3/3b xv6 VM Layout/xv6/kernel/fs.c:53-76 | Takes the first clear bit of the bitmap, whose length is rounded up to whole bitmap blocks, or panics exactly when all bits are set |
| `FileStore.Store.Bfree` | Project3/3b xv6 VM Layout/xv6/kernel/fs.c:79-97 | Zeroes and frees the block; panics exactly when it was free |
| `FsMap.MapBlockExact` | Project3/3b xv6 VM Layout/xv6/kernel/fs.c:319-347 | bmap gives a block inside the disk and keeps block ownership if and only if as many blocks are free as are missing on the way: none, one, or two with the indirect block; then no file's bytes change. With fewer it panics exactly if no bit of the bitmap is clear; otherwise ownership is broken |
| `FsFull.FullDiskMapsPastTheEnd` | Project3/3b xv6 VM Layout/xv6/kernel/fs.c:53-76 | A concrete disk of 1024 blocks, sound and full, on which bmap maps the first block of an empty file to block 1024, which the disk does not have, and ownership is broken |
| `FileStore.Store.Bmap` | Project3/3b xv6 VM Layout/xv6/kernel/fs.c:319-347 | The steps over inode, bitmap and indirect block compute exactly the mapping the two results above are about, with the search running over whole bitmap blocks |
| `FileStore.Store.Itrunc` | Project3/3b xv6 VM Layout/xv6/kernel/fs.c:352-380 | The state is exactly the truncated one and keeps the invariant: the file's blocks, and only they, are freed |
| `FileStore.Store.Readi` | Project3/3b xv6 VM Layout/xv6/kernel/fs.c:394-418 | Reads exactly the file's bytes, clipped to its size, across direct and indirect blocks; never changes the store; refuses exactly the offsets the guard names |
| `FileStore.Store.Writei` | Project3/3b xv6 VM Layout/xv6/kernel/fs.c:421-451 | The write is done if and only if the blocks missing in its range, the indirect block included, are free: then the range holds the new bytes, every other byte of every file is as before, the size grows exactly as needed, all sizes of others stay, and the invariant holds again. Otherwise, if there are no spare bits, it panics, a first part of the bytes written and nothing else; if there are, it goes past the end of the disk and breaks ownership |
| `FileStore.WritingMapped` | Project3/3b xv6 VM Layout/xv6/kernel/fs.c:438-443 | Mapping the next block in the middle of a write, possibly allocating, loses nothing written so far |
| `FileStore.WritingDone` | Project3/3b xv6 VM Layout/xv6/kernel/fs.c:445-449 | A finished write restores the invariant, including zero bytes behind every file's size |
| `DirStore.SameNameStored` | Project3/3b xv6 VM Layout/xv6/kernel/fs.c:455-459 | A name matches a stored entry exactly if both are stored as the same fourteen bytes |
| `DirStore.Namecmp` | Project3/3b xv6 VM Layout/xv6/kernel/string.c:55-62 | The comparison loop decides equality of names up to fourteen characters |
| `DirStore.Strncpy` | Project3/3b xv6 VM Layout/xv6/kernel/string.c:65-75 | The copy loops leave the fourteen bytes of a stored name |
| `DirStore.Dirlookup` | Project3/3b xv6 VM Layout/xv6/kernel/fs.c:464-493 | Finds the first entry of that name, scanning whole blocks; the zero bytes past the end match nothing |
| `DirStore.FindIs` | Project3/3b xv6 VM Layout/xv6/kernel/fs.c:473-488 | A search finds the first sixteen-byte entry whose inode number is not zero and whose bytes agree with the name up to its end or fourteen, at its offset, with its little-endian number; and nothing exactly if there is none |
| `DirStore.LookupAfter` | Project3/3b xv6 VM Layout/xv6/kernel/fs.c:496-523 | After an entry is added, its name gives the new inode and every other name what it gave before |
| `DirStore.PlaceIsFirstEmpty` | Project3/3b xv6 VM Layout/xv6/kernel/fs.c:509-515 | The entry dirlink takes is the first whose inode number is zero, or else the one behind the last |
| `DirStore.Dirlink` | Project3/3b xv6 VM Layout/xv6/kernel/fs.c:496-523 | Refuses exactly the names already there; otherwise succeeds exactly if the directory is not at its largest and the block of the entry is there or can be allocated on the disk, and then the first empty entry is filled, lookups of all names are as LookupAfter says and no other file's bytes change |
| `UMalloc.LiveApart` | Project3/3b xv6 VM Layout/xv6/user/umalloc.c:63-90 | Two live blocks, or a live and a free one, never overlap |
| `UMalloc.FreeApart` | Project3/3b xv6 VM Layout/xv6/user/umalloc.c:24-44 | Two free blocks never touch: each run of free units is one block |
| `UMalloc.ReleasedValid` | Project3/3b xv6 VM Layout/xv6/user/umalloc.c:24-44 | Freeing keeps the list circular, address-sorted with one wrap, disjoint and fully coalesced, and every sbrk'd unit has an owner |
| `UMalloc.UnlinkedValid` | Project3/3b xv6 VM Layout/xv6/user/umalloc.c:76-77 | Handing out a whole block keeps the same |
| `UMalloc.CarvedValid` | Project3/3b xv6 VM Layout/xv6/user/umalloc.c:78-82 | Cutting a request off the top of a block keeps the same |
| `UMalloc.ExtendedValid` | Project3/3b xv6 VM Layout/xv6/user/umalloc.c:54-58 | A chunk above everything, taken as a live block, keeps the same |
| `UMalloc.Allocator.Free` | Project3/3b xv6 VM Layout/xv6/user/umalloc.c:24-44 | The scan ends at the place of the block, and the pointer surgery leaves exactly the released heap; freep is then the free block in front of the one released; all other live blocks keep their sizes |
| `UMalloc.Allocator.Morecore` | Project3/3b xv6 VM Layout/xv6/user/umalloc.c:46-61 | Without memory nothing changes; otherwise exactly the new chunk is added, and a block large enough comes right behind or at the scan start |
| `UMalloc.Allocator.Take` | Project3/3b xv6 VM Layout/xv6/user/umalloc.c:75-85 | Gives a fresh live block of exactly the requested units, the top of the chosen one; freep is the block before it, so that the next search starts with what is left |
| `UMalloc.Allocator.Malloc` | Project3/3b xv6 VM Layout/xv6/user/umalloc.c:63-90 | Never returns units of a live block; takes the first fit behind freep whenever something fits, and leaves freep where the next search goes on; the block has as many units as the bytes need and one for its header; asks for memory at most once and only if nothing fits, then for at least 4096 units; returns 0 only if nothing fits and there is no memory; both loops terminate |
| `MemAlloc.AllocKeeps` | Project2/2a Dynamic Memory Allocation/mem.c:109-118 | Allocating a free block, also for 0 bytes, keeps the region exactly tiled, eight-byte aligned and without adjacent free blocks |
| `MemAlloc.FreeKeeps` | Project2/2a Dynamic Memory Allocation/mem.c:132-158 | Freeing with merging on both sides keeps the same |
| `MemAlloc.FreeUndoesServe` | Project2/2a Dynamic Memory Allocation/mem.c:59-159 | For every style and every size that writes no header over other bytes: mem_free on a pointer that was not handed out before restores the exact block list |
| `MemAlloc.ServedFresh` | Project2/2a Dynamic Memory Allocation/mem.c:70-119 | The pointer mem_alloc gives was not handed out before if and only if the rounded size is positive, or all blocks are free for best fit, some block for worst fit, the first block for first fit |
| `MemAlloc.ZeroTwice` | Project2/2a Dynamic Memory Allocation/mem.c:70-119 | In a region of one page, a request for 8 bytes and then one for 0, first or best fit, get the same pointer |
| `MemAlloc.ZeroTwiceWhenFull` | Project2/2a Dynamic Memory Allocation/mem.c:70-119 | In a region of one page given out whole, a request for 0 bytes gets the same pointer under every style |
| `MemAlloc.ZeroLengthBlock` | Project2/2a Dynamic Memory Allocation/mem.c:109-159 | A request for 0 bytes on a fresh region makes a block of zero bytes between two headers side by side, and freeing it restores the one block |
| `MemAlloc.FreedExactly` | Project2/2a Dynamic Memory Allocation/mem.c:121-159 | mem_free leaves the pointer allocated if and only if its block has zero bytes and no free neighbour |
| `MemAlloc.AllFreeIsOne` | Project2/2a Dynamic Memory Allocation/mem.c:141-151 | When all blocks are free there is one, covering the region |
| `MemAlloc.ChoiceUnique` | Project2/2a Dynamic Memory Allocation/mem.c:70-106 | First, best or worst fit with lowest address on ties determines the block |
| `MemAlloc.ServedMeans` | Project2/2a Dynamic Memory Allocation/mem.c:65-119 | A served request of a positive number of bytes gets the free block that the style names among those with so many bytes, gets them and fewer than 24 more, and what is left of the block is one free block behind it; every other block is as it was |
| `MemAlloc.Region.Init` | Project2/2a Dynamic Memory Allocation/mem.c:28-57 | Succeeds exactly once and for positive sizes, with one free block of the rounded size |
| `MemAlloc.Region.FindTarget` | Project2/2a Dynamic Memory Allocation/mem.c:70-106 | The walk over the headers picks exactly the block the style names, or NULL exactly if none fits |
| `MemAlloc.Region.Alloc` | Project2/2a Dynamic Memory Allocation/mem.c:59-119 | For every int size, rounded as in C: fails exactly if no header shows the size, for positive ones exactly if no free block has so many bytes, and then changes nothing; otherwise serves the block the style picks, with its split, and the pointer is one not handed out before exactly under the condition of ServedFresh; tells exactly when a negative size would write a header over other bytes |
| `MemAlloc.Region.Free` | Project2/2a Dynamic Memory Allocation/mem.c:121-159 | Accepts exactly NULL and starts of allocated blocks and then leaves the merged list; otherwise changes nothing |
| `ShellPrint.ParseUndoesPrint` | Project3/3b xv6 VM Layout/xv6/user/sh.c:326-445 | For every command tree with at most nine words to a command and symbol-free words, parsing its fully parenthesised text succeeds, consumes it all and gives the tree back |
| `ShellPrint.ReprintMeansTheSame` | Project3/3b xv6 VM Layout/xv6/user/sh.c:326-445 | For every line the parser accepts, the parenthesised text of its command is accepted and means the same |
| `ShellPrint.PrintedReads` | Project3/3b xv6 VM Layout/xv6/user/sh.c:343-445 | The same at any place of a line in front of its end or a closing parenthesis |
| `ShellSpec.ParseCmd` | Project3/3b xv6 VM Layout/xv6/user/sh.c:326-341 | An accepted line is consumed to its end and every word of its command is a maximal run of word characters, fewer than ten to a command |
| `ShellSpace.AcceptedWords` | Project3/3b xv6 VM Layout/xv6/user/sh.c:261-307 | In an accepted line no word of the command has a blank, tab, carriage return, newline, vertical tab or one of the seven symbols in it |
| `ShellSpace.TokensDecide` | Project3/3b xv6 VM Layout/xv6/user/sh.c:326-445 | Two lines of the same tokens are both accepted or both refused, and mean the same |
| `ShellSpace.SpacingDecidesNothing` | Project3/3b xv6 VM Layout/xv6/user/sh.c:261-319 | A line with each blank stretched to any blanks, tabs, carriage returns, newlines and vertical tabs, and any of them at the end, is accepted exactly if the line is, and means the same |
| `ShellSpace.SpacedTextParses` | Project3/3b xv6 VM Layout/xv6/user/sh.c:326-445 | So the text of every command, spaced in any of these ways, parses to the command |
| `ShellSpace.TypedLine` | Project3/3b xv6 VM Layout/xv6/user/sh.c:326-341 | A word with a newline behind it, as it is typed, is the command of that one word |
| `ShellFlat.ParseUndoesSpelling` | Project3/3b xv6 VM Layout/xv6/user/sh.c:343-445 | Every command written with only the parentheses it needs, and `>` or `>>` for output, parses to itself: pipes bind tighter than `&` and `;`, pipes and lists group to the right, redirections nest in the order they are written |
| `ShellFlat.FlatParses` | Project3/3b xv6 VM Layout/xv6/user/sh.c:343-445 | The same for every line that has these tokens, wherever white space stands |
| `ShellFlat.SignTells` | Project3/3b xv6 VM Layout/xv6/user/sh.c:383-393 | The sign in front of a file name tells the direction |
| `ShellFlat.SignRedirects` | Project3/3b xv6 VM Layout/xv6/user/sh.c:283-289 | A word, one of `<`, `>` and `>>`, and a file name are the word redirected from, to and to the file |
| `Shell.CutKeepsWords` | Project3/3b xv6 VM Layout/xv6/user/sh.c:448-492 | After a NUL is written behind every word, each argument and file name read as a C string is the word of the line: no NUL lands inside another word |
| `Shell.PrintedCommandComesBack` | Project3/3b xv6 VM Layout/xv6/user/sh.c:326-492 | From a command to its text, through parser and cutting, to the C strings left in the buffer, nothing changes |
| `Shell.Parser.constructor` | Project3/3b xv6 VM Layout/xv6/user/sh.c:332 | The end of the line is its first NUL |
| `Shell.Parser.GetToken` | Project3/3b xv6 VM Layout/xv6/user/sh.c:264-307 | The token, its span and the new cursor are those of the grammar, whose white space and symbols the properties above spell out |
| `Shell.Parser.Peek` | Project3/3b xv6 VM Layout/xv6/user/sh.c:309-319 | The cursor skips white space, and the answer is the grammar's |
| `Shell.Parser.ParseRedirs` | Project3/3b xv6 VM Layout/xv6/user/sh.c:373-396 | Panics exactly if the grammar does; else wraps the command in exactly the redirections read |
| `Shell.Parser.ParseLine` | Project3/3b xv6 VM Layout/xv6/user/sh.c:343-358 | Agrees with the grammar's line on result, cursor and panic |
| `Shell.Parser.ParsePipe` | Project3/3b xv6 VM Layout/xv6/user/sh.c:360-371 | Agrees with the grammar's pipeline |
| `Shell.Parser.ParseBlock` | Project3/3b xv6 VM Layout/xv6/user/sh.c:398-412 | Agrees with the grammar's block |
| `Shell.Parser.ParseExec` | Project3/3b xv6 VM Layout/xv6/user/sh.c:414-445 | Agrees with the grammar's exec command, including the panic at ten words |
| `Shell.Parser.NulTerminate` | Project3/3b xv6 VM Layout/xv6/user/sh.c:448-492 | Writes a NUL at exactly the ends of the command's words |
| `Shell.Parser.ParseCmd` | Project3/3b xv6 VM Layout/xv6/user/sh.c:326-341 | Succeeds exactly when the grammar accepts the whole line; then the C strings in the buffer make up the command the line spells |
| `VmRange.AllocuvmGrowsOrRestores` | Project3/3b xv6 VM Layout/xv6/kernel/vm.c:230-253 | Success adds exactly the zeroed pages between the sizes and nothing else, and happens exactly if they are below USERTOP and there are frames; failure leaves every address space, every page and the set of free frames as they were |
| `VmRange.DeallocuvmShrinks` | Project3/3b xv6 VM Layout/xv6/kernel/vm.c:259-280 | Exactly the user pages between the sizes go; every other page keeps its place and bytes |
| `VmRange.FreevmReturnsOwned` | Project3/3b xv6 VM Layout/xv6/kernel/vm.c:284-297 | The free frames afterwards are exactly those before and the directory, its page tables and its user pages; all other directories and their pages are untouched |
| `VmCopy.MapRangeGrows` | Project3/3b xv6 VM Layout/xv6/kernel/vm.c:77-98 | Mapping kernel pages where none is mapped never meets a mapped page, touches no user page and fails only without frames |
| `VmKernel.MapRangeAt` | Project3/3b xv6 VM Layout/xv6/kernel/vm.c:77-98 | Page by page of the range, the frames advance with the addresses and the permissions are those given; no other entry changes |
| `VmKernel.MapRangeOutcome` | Project3/3b xv6 VM Layout/xv6/kernel/vm.c:84-97 | It is done only if no page of the range was mapped, and panics over a remap only if one was |
| `VmKernel.SetupkvmMaps` | Project3/3b xv6 VM Layout/xv6/kernel/vm.c:122-149 | A new directory maps exactly the pages from 640 KB to 16 MB and the last 32 MB, each to the frame of its own number, none for the user, all but the kernel's text from 1 MB on writable |
| `VmKernel.CopyuvmMaps` | Project3/3b xv6 VM Layout/xv6/kernel/vm.c:301-342 | A copied address space has these entries too, and user pages that the user may read and write |
| `VmKernel.ForkMaps` | Project3/3b xv6 VM Layout/xv6/kernel/proc.c:144-178 | So has the child of a fork |
| `VmCopy.SetupkvmBuilds` | Project3/3b xv6 VM Layout/xv6/kernel/vm.c:122-149 | A new directory, with the table for user addresses and no user page, is built exactly if thirteen frames are free, for every end of the kernel text; no other directory is touched. With fewer, but any, all free frames are lost to a directory nobody gets |
| `VmCopy.KernelTables` | Project3/3b xv6 VM Layout/xv6/kernel/vm.c:122-131 | The four kernel ranges span twelve page tables, wherever the kernel data begins |
| `VmCopy.CopyuvmCopiesOrRestores` | Project3/3b xv6 VM Layout/xv6/kernel/vm.c:301-342 | Success, exactly if thirteen frames and one for each page are free, gives a new directory with exactly the parent's heap and stack pages, byte for byte; failure brings back all address spaces and the set of free frames if there were none or thirteen, and otherwise loses all free frames; no existing page is touched |
| `VmCopy.CopyIsFresh` | Project3/3b xv6 VM Layout/xv6/kernel/vm.c:317-320 | Each of the copy's frames was free before and is used for one page only |
| `VmSpec.SameSpacesSameFree` | Project3/3b xv6 VM Layout/xv6/kernel/vm.c:230-297 | No frame is lost: if the same address spaces are left, the same frames are free |
| `VmSpec.OwnedApart` | Project3/3b xv6 VM Layout/xv6/kernel/vm.c:230-342 | No frame is reached from two directories, as the directory, a page table or a user page, and none that is reached is free or the kernel's |
| `VmSpec.OwnedWhen` | Project3/3b xv6 VM Layout/xv6/kernel/vm.c:230-342 | The frames reached from a directory are exactly those in use for it |
| `VmLayout.GrowprocUp` | Project3/3b xv6 VM Layout/xv6/kernel/proc.c:107-125 | Growing succeeds exactly if the five-page gap stays and there are frames, adds exactly the zeroed heap pages, and otherwise restores pages and free frames |
| `VmLayout.GrowprocDown` | Project3/3b xv6 VM Layout/xv6/kernel/proc.c:107-125 | What shrinking does for every negative argument, with unsigned wrap-around: the layout is kept if and only if the size stays at 0x2000 or above or does not change |
| `VmLayout.GrowprocKeepsLayout` | Project3/3b xv6 VM Layout/xv6/kernel/proc.c:107-125 | growproc keeps the layout (heap pages from 0x2000, stack pages below USERTOP, nothing else, five pages between) for exactly the arguments that do not shrink too far |
| `VmLayout.GrowstackKeepsLayout` | Project3/3b xv6 VM Layout/xv6/kernel/proc.c:127-139 | The stack gets one zeroed page exactly if the gap stays and a frame is free, and the layout is kept |
| `VmLayout.ForkCopies` | Project3/3b xv6 VM Layout/xv6/kernel/proc.c:144-178 | There is a child exactly if a kernel stack, thirteen frames and one for each page are free, and it has the parent's layout and bytes. Without a child, address spaces and free frames are as before, the kernel stack included, if and only if the number of free frames was not between 2 and 13; then all but one are lost |
| `VmLayout.ReapReturns` | Project3/3b xv6 VM Layout/xv6/kernel/proc.c:239-251 | Reaping gives back exactly the kernel stack and the frames of the address space |
| `VmLayout.LayoutSpelled` | Project3/3b xv6 VM Layout/xv6/kernel/proc.c:107-139 | The layout in addresses: a heap from 0x2000, a stack below 0xA0000, 0x5000 bytes between, and no other page below 0xA0000 |
| `VmRuns.DoKeepsExactly` | Project3/3b xv6 VM Layout/xv6/kernel/proc.c:107-178 | A call of growproc, growstack, fork or wait keeps every process's layout and every frame owned by exactly one process, the kernel or the free list if and only if it is neither a shrink too far nor a fork with 2 to 13 free frames; either way it touches no other process's pages |
| `VmRuns.EveryFrameIsOwned` | Project3/3b xv6 VM Layout/xv6/kernel/proc.c:107-178 | In every state of a run each frame is free, the kernel directory's, or held by a process |
| `VmRuns.HoldingsApart` | Project3/3b xv6 VM Layout/xv6/kernel/proc.c:107-178 | The frames a process holds, kernel stack included, are not free, not the kernel directory's, and no other process's |
| `VmRuns.RunKeepsLayout` | Project3/3b xv6 VM Layout/xv6/kernel/proc.c:107-178 | Over every run of such calls by any processes, every process keeps its layout and no frame is lost or shared |
| `VmRuns.RunIsolates` | Project3/3b xv6 VM Layout/xv6/kernel/proc.c:107-178 | Nothing other processes do in a run moves or changes a byte of a process's pages |
| `VmRuns.DoKeepsKernel` | Project3/3b xv6 VM Layout/xv6/kernel/proc.c:107-178 | Each call keeps these kernel entries right in the directory of every process |
| `VmRuns.RunKeepsKernel` | Project3/3b xv6 VM Layout/xv6/kernel/proc.c:107-178 | Over every run from the first process, every process sees the kernel at the same pages, frames and permissions |
| `VmRuns.UserinitLayout` | Project3/3b xv6 VM Layout/xv6/kernel/proc.c:81-95 | The first process comes into being exactly if fifteen frames are free; it starts with the layout and its code at 0x2000, with no frame unowned |
| `VmRuns.Boot` | Project3/3b xv6 VM Layout/xv6/kernel/proc.c:76-103 | From the free list of kinit, through the kernel's directory, to the first process: a state runs start from, with its number of free frames |
| `VmRuns.ForkLosesAFrame` | Project3/3b xv6 VM Layout/xv6/kernel/proc.c:144-160 | A reachable state with two free frames in which fork fails and one of them is lost |
| `VmRuns.GrowprocLosesTheLayout` | Project3/3b xv6 VM Layout/xv6/kernel/proc.c:107-125 | A reachable state in which growproc(-0x2000) succeeds with a size below 0x2000, and growproc(-0x3000) fails after freeing the program's page |
| `VmRuns.KinitOk` | Project3/3b xv6 VM Layout/xv6/kernel/kalloc.c:22-32 | After kinit exactly the frames behind the kernel are free, each once |
| `VmAccess.FetchintExact` | Project3/3b xv6 VM Layout/xv6/kernel/syscall.c:17-29 | fetchint accepts exactly the words inside the heap or the stack, for all 32-bit addresses |
| `VmAccess.FetchstrExact` | Project3/3b xv6 VM Layout/xv6/kernel/syscall.c:33-50 | fetchstr accepts exactly the starts inside the heap or the stack, and looks no further than the end of that one |
| `VmAccess.ArgptrExact` | Project3/3b xv6 VM Layout/xv6/kernel/syscall.c:62-75 | argptr accepts exactly the ranges inside the heap or the stack for non-negative sizes, and what it accepts for negative ones |
| `VmAccess.ArgptrAcceptsNegative` | Project3/3b xv6 VM Layout/xv6/kernel/syscall.c:62-75 | A concrete process of which argptr accepts a pointer with size -0x3000, a range that ends where nothing is the process's |
| `VmAccess.ArgptrIsMapped` | Project3/3b xv6 VM Layout/xv6/kernel/syscall.c:62-75 | Every byte of an accepted range of non-negative size is on a mapped page the user may read and write |
| `VmAccess.FetchintIsMapped` | Project3/3b xv6 VM Layout/xv6/kernel/syscall.c:17-29 | Every byte of an accepted word is on a mapped page the user may read and write |
| `VmAccess.FetchstrIsMapped` | Project3/3b xv6 VM Layout/xv6/kernel/syscall.c:33-50 | fetchstr reads only mapped user pages |
| `VmAccess.CopyoutWrites` | Project3/3b xv6 VM Layout/xv6/kernel/vm.c:361-382 | copyout writes exactly the bytes before the first page that is not a user page, and succeeds exactly if these are all; otherwise it returns -1, or faults exactly if that page has no page table; no other byte changes and other address spaces are never touched |
| `VmAccess.GrownReadsZero` | Project3/3b xv6 VM Layout/xv6/kernel/vm.c:230-253 | After growproc every byte of the new pages reads 0 |
| `VmAccess.ForkReadsTheSame` | Project3/3b xv6 VM Layout/xv6/kernel/proc.c:144-178 | After a fork every byte of the child's heap and stack reads as the parent's |
| `Vm.Machine.constructor` | Project3/3b xv6 VM Layout/xv6/kernel/kalloc.c:22-32 | The loop builds exactly the free list of the specification |
| `Vm.Machine.Kfree` | Project3/3b xv6 VM Layout/xv6/kernel/kalloc.c:38-54 | All 4096 bytes of the frame are 1, it becomes the head of the free list, and no other byte changes |
| `Vm.Machine.Kalloc` | Project3/3b xv6 VM Layout/xv6/kernel/kalloc.c:59-70 | The head of the free list is handed out, or null |
| `Vm.Machine.Walkpgdir` | Project3/3b xv6 VM Layout/xv6/kernel/vm.c:52-72 | Finds or creates the page table, exactly as the specification's step |
| `Vm.Machine.Mappages` | Project3/3b xv6 VM Layout/xv6/kernel/vm.c:77-98 | Maps the range page by page with the specification's outcome: done, only if none was mapped, no memory, or remap, only if one was; when done, page v + i is on frame pa + i with the permissions given |
| `Vm.Machine.Setupkvm` | Project3/3b xv6 VM Layout/xv6/kernel/vm.c:134-149 | Exactly the specification's directory with the four kernel ranges; the kernel's pages are mapped to their own frames |
| `Vm.Machine.Allocuvm` | Project3/3b xv6 VM Layout/xv6/kernel/vm.c:230-253 | The loop with its rollback computes exactly the specification's state and result |
| `Vm.Machine.Deallocuvm` | Project3/3b xv6 VM Layout/xv6/kernel/vm.c:259-280 | The loop frees exactly the specification's pages |
| `Vm.Machine.Freevm` | Project3/3b xv6 VM Layout/xv6/kernel/vm.c:284-297 | Pages, tables and directory are freed exactly as specified |
| `Vm.Machine.Copyuvm` | Project3/3b xv6 VM Layout/xv6/kernel/vm.c:301-342 | Both copy loops and the failure path compute exactly the specification's state and result |
| `Vm.Machine.Uva2ka` | Project3/3b xv6 VM Layout/xv6/kernel/vm.c:345-356 | Gives the frame exactly of user pages, and follows a null pointer exactly without a page table |
| `Vm.Machine.Copyout` | Project3/3b xv6 VM Layout/xv6/kernel/vm.c:361-382 | The loop writes exactly the specified bytes and ends as specified, for every range |
| `Vm.Machine.Growproc` | Project3/3b xv6 VM Layout/xv6/kernel/proc.c:107-125 | Exactly the specified result; the layout is kept exactly if the shrink is not too far |
| `Vm.Machine.Growstack` | Project3/3b xv6 VM Layout/xv6/kernel/proc.c:127-139 | Exactly the specified result, keeping the layout |
| `Vm.Machine.Fork` | Project3/3b xv6 VM Layout/xv6/kernel/proc.c:144-178 | The memory part of fork is exactly the specified one, with its copy property and the kernel mapped in the child |
| `Vm.Machine.Fetchstr` | Project3/3b xv6 VM Layout/xv6/kernel/syscall.c:33-50 | Returns the length up to the first NUL inside the region the string starts in, or -1 exactly if there is none or the start is refused |
| `BufferRuns.ReadGivesLastWritten` | Project3/3b xv6 VM Layout/xv6/kernel/bio.c:95-105 | After any interleaving of callers and disk interrupts, a valid buffer its holder has not changed has the bytes of the last completed bwrite of that sector, or what the disk had at first: what bread returns, at once or after its sleep |
| `BufferRuns.WriteLands` | Project3/3b xv6 VM Layout/xv6/kernel/bio.c:107-115 | Whatever else happens meanwhile, a bwrite's bytes are on the disk, in its own sector, after as many interrupts as buffers were waiting before it and one more; the holder finds the buffer valid, clean and unchanged |
| `BufferRuns.QueueMoves` | Project3/3b xv6 VM Layout/xv6/kernel/ide.c:91-154 | Requests are served in the order they were made, and a waiting buffer is not touched |
| `BufferRuns.After` | Project3/3b xv6 VM Layout/xv6/kernel/bio.c:61-137 | Over every such interleaving: no two buffers hold the same sector, every idle valid buffer equals the disk, only waiting buffers are dirty, and every buffer is on the ring once |
| `BufferSpec.ServeKeeps` | Project3/3b xv6 VM Layout/xv6/kernel/ide.c:91-117 | An interrupt leaves the head of the queue valid, clean and equal to the disk; a dirty one changes exactly its own sector |
| `BufferSpec.RecyclesOldest` | Project3/3b xv6 VM Layout/xv6/kernel/bio.c:82-92 | The buffer bget recycles is idle, and every other idle buffer was released after it |
| `BufferSpec.GotIsMine` | Project3/3b xv6 VM Layout/xv6/kernel/bio.c:61-93 | A buffer is handed out only when idle, becomes busy, holds the sector asked for, agrees with the disk if valid, and no other buffer changes |
| `BufferSpec.GetExactly` | Project3/3b xv6 VM Layout/xv6/kernel/bio.c:61-93 | What bget answers, told from the buffers alone: the buffer that holds the sector, if it is idle, or, if none holds it, the idle one released longest ago; to wait exactly if the one that holds it is busy; a panic exactly if none holds it and all are busy |
| `BufferRing.UnlinkKeeps` | Project3/3b xv6 VM Layout/xv6/kernel/bio.c:126-127 | The two assignments take exactly that buffer off the doubly linked ring, both ways |
| `BufferRing.PushKeeps` | Project3/3b xv6 VM Layout/xv6/kernel/bio.c:128-131 | The four assignments put the buffer first, both ways |
| `BufferRing.FrontOrdered` | Project3/3b xv6 VM Layout/xv6/kernel/bio.c:126-131 | Moving a buffer to the front keeps the ring in order of release |
| `BufferCache.BCache.constructor` | Project3/3b xv6 VM Layout/xv6/kernel/bio.c:39-56 | binit links all buffers on the ring, each once |
| `BufferCache.BCache.Bget` | Project3/3b xv6 VM Layout/xv6/kernel/bio.c:61-93 | The searches along next and prev give exactly the answer told from the buffers alone, and change no buffer but the one handed out, which is busy and, if recycled, invalid and named after the sector |
| `BufferCache.BCache.Bread` | Project3/3b xv6 VM Layout/xv6/kernel/bio.c:95-105 | Answers as bget must, with a busy buffer of the sector: valid with the disk's bytes, or put at the end of the disk's queue |
| `BufferCache.BCache.Bwrite` | Project3/3b xv6 VM Layout/xv6/kernel/bio.c:107-115 | Panics exactly without the buffer; else the buffer, dirty, is at the end of the disk's queue |
| `BufferCache.BCache.Brelse` | Project3/3b xv6 VM Layout/xv6/kernel/bio.c:117-137 | Panics exactly without the buffer; else it is idle, first on the ring and released last |
| `BufferCache.BCache.Iderw` | Project3/3b xv6 VM Layout/xv6/kernel/ide.c:124-154 | The walk along qnext appends the buffer to the linked queue; panics exactly if the buffer is not held or has nothing to transfer |
| `BufferCache.BCache.Ideintr` | Project3/3b xv6 VM Layout/xv6/kernel/ide.c:91-117 | Takes the first buffer off the linked queue and leaves it as specified |
| `Mutex.MutualExclusion` | Project3/3a Locks and Threads/mutex.c:9-23 | In every state of every interleaving two owners are the same thread, and then the flag is 1 |
| `Mutex.FlagTells` | Project3/3a Locks and Threads/mutex.c:9-23 | In every state of every interleaving the flag is 1 if and only if some thread owns the lock |
| `Mutex.RunKeepsInv` | Project3/3a Locks and Threads/mutex.c:5-23 | Over every run of any number of threads the flag counts the owners, and whenever a thread sleeps there is an owner, a releaser yet to wake, or an awake thread inside mutex_acquire |
| `Mutex.FreeLockIsTaken` | Project3/3a Locks and Threads/mutex.c:9-23 | If threads sleep while the lock is free, at most two steps of threads already inside acquire or release give it an owner |
| `Mutex.Lock.Acquire` | Project3/3a Locks and Threads/mutex.c:11-13 | The exchange is the specified step, gives ownership exactly if the flag was 0, and keeps the invariant |
| `Mutex.Lock.Wait` | Project3/3a Locks and Threads/mutex.c:14-15 | Sleeping happens exactly if the flag is still 1, and keeps the invariant |
| `Mutex.Lock.Release` | Project3/3a Locks and Threads/mutex.c:19-21 | Clearing the flag is the specified step and keeps the invariant |
| `Mutex.Lock.Wake` | Project3/3a Locks and Threads/mutex.c:22-23 | Waking one sleeper, if there is one, is the specified step and keeps the invariant |
| `ProcTable.SleeperMissesNone` | Project3/3b xv6 VM Layout/xv6/kernel/proc.c:203-219 | In every run, a process asleep in wait never has a zombie child |
| `ProcTable.ParentIsLive` | Project3/3b xv6 VM Layout/xv6/kernel/proc.c:205-215 | In every run, every live or zombie process other than init has a parent that is neither unused nor a zombie |
| `ProcTable.ReapedExactlyOnce` | Project3/3b xv6 VM Layout/xv6/kernel/proc.c:225-264 | In every run, each pid given out is reaped at most once, and exactly if it is no longer in the table and its fork did not fail |
| `ProcTable.ExitHandsOver` | Project3/3b xv6 VM Layout/xv6/kernel/proc.c:203-219 | On exit the parent has a zombie to collect and is not asleep in wait |
| `ProcTable.ExitChanges` | Project3/3b xv6 VM Layout/xv6/kernel/proc.c:203-219 | All that exit changes: the caller is a zombie, its children are init's, and those awake who slept in wait as its parent, or as init if one of the children was a zombie |
| `ProcTable.WaitChanges` | Project3/3b xv6 VM Layout/xv6/kernel/proc.c:231-263 | All that wait changes: the lowest slot with a zombie child is emptied, or the caller sleeps on its own entry |
| `ProcTable.ForkMakesChild` | Project3/3b xv6 VM Layout/xv6/kernel/proc.c:144-178 | A fork that nothing interrupts makes the lowest unused slot a runnable child of the caller with the next pid, and changes nothing else |
| `ProcTable.WaitCollects` | Project3/3b xv6 VM Layout/xv6/kernel/proc.c:231-263 | wait returns a pid exactly if there is a zombie child, that child's and never one reaped before; it sleeps exactly if there are children, none is a zombie and it is not killed |
| `ProcTable.WaitsCollectAll` | Project3/3b xv6 VM Layout/xv6/kernel/proc.c:231-263 | As many calls of wait as there are zombie children collect them all, each once |
| `ProcKill.KillHits` | Project3/3b xv6 VM Layout/xv6/kernel/proc.c:407-425 | In every reachable table: the slot kill finds is in use if and only if the pid is neither 0 nor that of a failed fork, and then it is the one slot of that process |
| `ProcKill.KillWakes` | Project3/3b xv6 VM Layout/xv6/kernel/proc.c:407-425 | kill of a process in the table marks it and wakes it if it sleeps, on whatever channel, and changes nothing else |
| `ProcKill.WakeUpWakes` | Project3/3b xv6 VM Layout/xv6/kernel/proc.c:385-402 | wakeup makes exactly the sleepers on its channel runnable; nobody is left asleep there |
| `ProcKill.SwitchedBack` | Project3/3b xv6 VM Layout/xv6/kernel/proc.c:327-383 | Yielding and being scheduled changes nothing; sleeping, being woken on the same channel and being scheduled leaves only the channel |
| `ProcKill.RunIdlePids` | Project3/3b xv6 VM Layout/xv6/kernel/proc.c:45-54 | In every run an unused slot has pid 0 or the pid of a fork that failed |
| `ProcKill.CleanExactly` | Project3/3b xv6 VM Layout/xv6/kernel/proc.c:407-425 | An operation leaves a mark on an unused slot, for its next owner, if and only if it is a kill that finds pid 0 or the pid of a failed fork, or the failure of a fork whose child is marked already |
| `ProcKill.HeirIsMarked` | Project3/3b xv6 VM Layout/xv6/kernel/proc.c:45-47 | Whoever is given a marked slot by fork runs marked, under a new pid |
| `ProcKill.KilledExactly` | Project3/3b xv6 VM Layout/xv6/kernel/proc.c:407-425 | Over every run a process in the table is marked killed if kill was called with its pid while it was there, and only if so or if kill was called with pid 0 or the pid of a fork that failed before or after; without such calls it is an equivalence |
| `ProcKill.KillZeroStrikesTheNextChild` | Project3/3b xv6 VM Layout/xv6/kernel/proc.c:407-425 | A concrete run: kill(0) and a fork from boot leave process 2 runnable and marked, though nobody killed 2 |
| `ProcKill.FailedForkPassesItsMarkOn` | Project3/3b xv6 VM Layout/xv6/kernel/proc.c:155-160 | A concrete run: kill(2) while process 2 is being built, the failure of that fork, and another fork leave process 3 runnable and marked |
| `ProcKeeps.RunKeeps` | Project3/3b xv6 VM Layout/xv6/kernel/proc.c:144-264 | Every interleaving of fork, exit, wait, kill, sleep and wakeup keeps the invariant of the protocol |
| `ProcKeeps.ExitMissesNone` | Project3/3b xv6 VM Layout/xv6/kernel/proc.c:205-218 | Waking the parent, and init when it adopts a zombie, is enough that no sleeper misses a zombie |
| `ProcTable.Kernel.Wakeup1` | Project3/3b xv6 VM Layout/xv6/kernel/proc.c:385-393 | Exactly the sleepers on the channel become runnable |
| `ProcTable.Kernel.Exit` | Project3/3b xv6 VM Layout/xv6/kernel/proc.c:203-219 | The loops compute exactly the specified exit and keep the invariant |
| `ProcTable.Kernel.WaitPass` | Project3/3b xv6 VM Layout/xv6/kernel/proc.c:231-263 | One pass of the loop is exactly the specified wait and keeps the invariant |
| `ProcTable.Kernel.Kill` | Project3/3b xv6 VM Layout/xv6/kernel/proc.c:407-425 | Marks and wakes the first slot with that pid; succeeds exactly if there is one |
| `ProcTable.Kernel.AllocProc` | Project3/3b xv6 VM Layout/xv6/kernel/proc.c:32-48 | Takes the first unused slot for a new pid, keeping the invariant |
| `Pipe.Fifo` | Project3/3b xv6 VM Layout/xv6/kernel/pipe.c:75-118 | Over every interleaving of stretches of readers and writers: bytes delivered followed by bytes buffered are the bytes written, and the difference of the counters modulo 2^32 is what is buffered and at most 512 |
| `Pipe.CountersTell` | Project3/3b xv6 VM Layout/xv6/kernel/pipe.c:82 | The tests on the wrapped counters tell full and empty exactly |
| `Pipe.BufferedIs` | Project3/3b xv6 VM Layout/xv6/kernel/pipe.c:90 | The ring holds exactly what was written and not yet read, oldest first |
| `Pipe.WriteKeeps` | Project3/3b xv6 VM Layout/xv6/kernel/pipe.c:81-91 | A writer's stretch appends exactly as many of its bytes as fit |
| `Pipe.ReadKeeps` | Project3/3b xv6 VM Layout/xv6/kernel/pipe.c:110-114 | A reader's stretch delivers exactly the oldest bytes, as many as asked for or there are |
| `Pipe.Channel.Write` | Project3/3b xv6 VM Layout/xv6/kernel/pipe.c:75-95 | Up to its return or sleep, exactly the bytes passed are appended; it sleeps or fails only on a full ring, and fails exactly if the reader is gone or the writer killed |
| `Pipe.Channel.Read` | Project3/3b xv6 VM Layout/xv6/kernel/pipe.c:97-118 | It sleeps or fails only on an empty ring that may still be written; otherwise it delivers the oldest bytes |
| `Pipe.Channel.Close` | Project3/3b xv6 VM Layout/xv6/kernel/pipe.c:57-73 | Closes its end; the pipe is freed exactly when both are closed |
| `Grep.Match` | Project3/3b xv6 VM Layout/xv6/user/grep.c:71-81 | match returns 1 if and only if the text, at its start behind `^` or anywhere, splits into pieces that fit the items of the pattern, to its end behind a final `$` |
| `Grep.MatchHere` | Project3/3b xv6 VM Layout/xv6/user/grep.c:84-95 | matchhere returns 1 if and only if the pattern holds at the first character |
| `Grep.MatchStar` | Project3/3b xv6 VM Layout/xv6/user/grep.c:98-105 | matchstar returns 1 if and only if some number of repetitions and then the rest hold |
| `Grep.StarMeans` | Project3/3b xv6 VM Layout/xv6/user/grep.c:98-105 | c* means the rest, or one character and c* again: that character, or any if c is `.` |
| `Grep.OneMeans` | Project3/3b xv6 VM Layout/xv6/user/grep.c:92-93 | A literal means that character and then the rest, `.` any one character and then the rest |
| `Grep.LiteralMeans` | Project3/3b xv6 VM Layout/xv6/user/grep.c:84-95 | A pattern without `*`, `.` and `$` holds at the start exactly of the texts that begin with it |
| `Grep.DotsMean` | Project3/3b xv6 VM Layout/xv6/user/grep.c:84-95 | A pattern of characters and dots holds exactly of the texts that have those characters in their places at the start |
| `Grep.AnchorsMean` | Project3/3b xv6 VM Layout/xv6/user/grep.c:71-95 | For plain characters: anywhere in the text without anchors, its start behind `^`, its end before `$`, all of it between both |
| `Grep.RunMeans` | Project3/3b xv6 VM Layout/xv6/user/grep.c:86-105 | A starred character before `$` holds exactly of the texts of nothing else; alone, of every text |

## Left out

- Defragmenter: the image is a map from word addresses to words; file streams, the display mode and the lists of free inodes and free blocks, which the program does not copy, are not modelled. Input pointers that are negative or lead beyond the end of the image read zeros here, where the program keeps what its buffer had; such images are left out. Superblock sizes and file sizes are taken as non-negative, the block size as a multiple of four of at most 5000 bytes, the program's buffer. Numbers do not overflow.
- Defragmenter files beyond the capacity of the pointer trees keep the blocks the trees hold; `DefragmentKeepsFiles` speaks of those.
- Scheduler: one processor. The waiting bounds are for processes that stay runnable. Line 333 of the scheduler indexes with a pointer one past the table; all waits are zero by then, so it is no change if that word is below 4, and what it writes otherwise is not modelled. Counters and pids do not overflow.
- File store: one call at a time, without inode locks and reference counts, over a disk that the buffer cache property justifies; the in-memory copy of an inode and the one on disk are one; bitmap bits are booleans; device inodes, path names and inode allocation are not modelled. After a panic, and from the first block behind the end of the disk on, only the shape of the state is described.
- Writei: when it leaves the disk, nothing is said of the bytes it wrote before.
- User allocator: units are header-sized, `sbrk` extends one arena that begins above the list's empty block or fails, and `nbytes` does not overflow.
- Free: of `UMalloc`, it is called with the header of a live block, as its caller must.
- Region allocator: `mmap` gives a page-aligned address and succeeds; a negative size that would write a header over other bytes ends the model there; the word in front of a pointer that is not in the region is a parameter.
- Shell: running commands, reading lines and the messages of panics; a panic is a result. The exec node that the source fills through a pointer kept under its redirections is filled by `SetArgs` on values. The open modes of `>` and `>>` are the same in the source and one direction here.
- Virtual memory: a page directory and its tables are maps of present entries, which no two directories share; a freed page table takes its entries along at once, where the source leaves them in a directory about to be freed. The free list is a sequence. Writing control registers, segments, `loaduvm` and `exec` are not modelled; processes that `exec` are taken to have the layout.
- RunKeepsLayout: runs contain no shrink to below 0x2000 and no fork with 2 to 13 free frames, because `DoKeepsExactly` shows that exactly these break the invariant. Other users of `kalloc`, such as pipes and the stacks of other processors, take no part in the runs.
- Copyout: what happens after the fault on a missing page table is not modelled.
- Buffer cache: the ports of the disk controller, its errors and the check for a second disk are not modelled; a dirty buffer's bytes, which leave for the disk when its request is started, count as written at its interrupt, which is the same because nobody changes a waiting buffer (`QueueMoves`). Sleeping for a busy buffer is a result of `bget`. Device numbers are below 0xFFFFFFFF, the number of an unused buffer. Whoever changes a buffer writes it before releasing it, as the cache's interface asks.
- Exit and wait: open files, directories, names and memory of a process are left to the other modules; sleeping inside fork and `exit` by a process in the middle of fork do not happen; pids do not overflow. Killing is not shown to end a process, and a trap that marks its own process is not an operation here.
- Futex lock: only the owner releases; fairness and the time until a waiter gets the lock are not stated.
- Pipe: allocation, freeing and wakeups, so liveness; a killed writer that returns early without waking readers changes nothing in the safety property. Counters of closed ends are not used after freeing.
- Grep: the loop over input lines and the buffer of 1024 bytes.
- Scheduler in the kernel with the changed layout, `list.c`, `hash.c`, `counter.c`, `fastsort.c`, the line editor, set operations, device drivers, the console and `mkfs`: what could be proved of them is easier than what is here.
