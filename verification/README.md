# A verified model of the teaching kernel's file system, scheduler, paging and generator

The repository is a small 32-bit x86 kernel with a boot loader, a file system that is also
compiled into two host tools, a process scheduler with semaphores, a copying `fork`, and a game.
This project models its four stateful parts in Dafny and proves what they are for.

| part | modules |
|---|---|
| machine words, C strings, the bitmap, the disk layout | `Words`, `CString`, `Bitmap`, `FsLayout` |
| what the file system is, without disk or caches | `FsSpec` |
| its invariant, micro-steps and abstraction | `FsInv`, `FsAbs` |
| `kernel/fs.c` itself, as a class | `FileSystem` |
| a cache-free reader of a disk image; mounting and durability | `FsImage` |
| whole runs of file system calls, and the code against its description over them | `FsRuns`, `FsReplay` |
| the read after a SEEK_CUR or SEEK_END, in every case | `FsSeek` |
| `util/write_myfs.c`, `util/read_myfs.c`, the `fs-test` target | `MyfsTools` |
| `boot/main.c` | `BootLoader` |
| `kernel/sched.c`, `sem.c`, `syscall.c`, `pcb.c` and the timer branch of `trap.c` | `Scheduler`, `SchedulerRuns`, `Semaphores` |
| `kernel/pmap.c` and the processor's two-level walk; `sys_fork` whole | `Paging`, `Fork` |
| `game/rand.c` | `Rand` |

**File system.** `FsSpec` says what a user sees: sixteen slots that may hold a named byte
sequence, and 1024 descriptors with a cursor and a writable flag. The class `FileSystem` has the C
variables as fields and the C loops as methods: a first-fit bitmap, chains of 127-pointer inodes,
and a write-back sector and inode cache per descriptor in the states GARBAGE, USEFUL and
NEED_WASHING. Every public method is proved to do on the abstract state exactly what `FsSpec` says,
for every state that satisfies the invariant `FsInv.Inv`. The ghost field `G` says what each block
means. The invariant holds the disk, overlaid with the dirty caches, to that meaning; it includes
that blocks never have two roles, that a descriptor whose buffer is GARBAGE is at a multiple of 512
and one whose buffer is not has the sector of its cursor there, and that a file has exactly the
blocks its size needs. `Tight` makes the first an equivalence; every call keeps it, SEEK_CUR and
SEEK_END under a condition. `FsImage.DiskFiles` is an independent reading of a bare image, which
mounting and closing are tied to; the boot loader's walk is tied to the same reading.

**Scheduler.** Interrupts are off in the kernel, so each kernel entry is one step that ends with a
process in user mode. `Step` relates the states before and after; the class `Kernel` has the
loops and the mutual recursion between `sched_process` and `sys_sem_wait`, proved to terminate and
to do what `Step` says. The theorems about runs are over every sequence of steps.

**Where the code departs from what one would expect**, the model follows the code:

- Line 151 of `kernel/fs.c` sets `writable` for slot 0 only, because its `&&` short-circuits for
  every other slot. So a reopened file need not have the access asked for: `FsRuns.StaleWritable`
  shows both failures and `FsRuns.StaleExample` a concrete state for them. The flag of a descriptor
  is its history (`FsRuns.FlagHistory`), and an open honours its flags if and only if that history
  agrees with them (`FsRuns.ReopenHonoursFlags`). `FsRuns.KernelImmutable` shows that the one case
  where the line works protects the kernel file.
- `fs_lseek` with SEEK_SET ignores its offset and rewinds, which is the move asked for just for
  offset 0. SEEK_CUR and SEEK_END move the cursor and leave the caches. `FsSeek.NextReadIs` says
  what the next read does after every move, and `FsSeek.RightSector` that it is served the right
  sector for exactly the moves `Served` describes. After these the invariant holds and with it
  everything that is proved of the other calls (`FsAbs.Moved`); after any other the read fails the
  assertion at line 118, allocates, or delivers another sector, and `FsSeek.SeekExamples` shows each
  on a file.
- The search bound at line 46 of `kernel/fs.c` is 4096 words where 128 exist. `FindEmptyInode` ends
  in `PastEnd`, a read past the array, exactly when all 4096 bits are set.
- `sys_exit` may leave the process alive: if the scan meets a waiter on an empty semaphore before
  anyone ready, lines 34-37 of `kernel/sem.c` turn the exiting caller into a sleeper.
  `SchedulerRuns.ExitIffNoWaiterFirst` gives the exact condition, and `ThreeProcessesRun` with
  `ExitRevives` a run from the initial state in which it happens.
- The boot loader starts each segment at the sector its file offset falls in. `LoadedIsContent` says
  which bytes a segment gets and exactly when they are the right ones, as for every aligned offset;
  `MisalignedMisloads` gives a kernel that is loaded wrong.

## Model

| member | source | states |
|---|---|---|
| `CString.Strncmp` | lib/string.c:58-64 | 0 exactly when the two strings have the same 24-byte directory form, unterminated names included |
| `CString.Strncpy` | lib/string.c:66-77 | the destination holds the directory form of the source and nothing past it changes |
| `CString.NameFormOfPadded` | lib/string.c:66-77 | a stored name is its own directory form, so comparing a path with an entry compares two stored names |
| `CString.NameFormBytes` | lib/string.c:66-77 | byte k of the directory form is that of the string, or 0 from its terminator on |
| `Words.WordsRoundTrip` | kernel/fs.h:35-43 | 128 words stored in a sector and loaded again are unchanged |
| `Words.BytesRoundTrip` | kernel/fs.h:35-43 | any sector loaded as words and stored again is unchanged |
| `FsLayout.INodeRoundTrip` | kernel/fs.h:35-39 | an inode written to a sector reads back as itself |
| `FsLayout.DirRoundTrip` | kernel/fs.h:29-33 | a directory written to its sector reads back as itself |
| `FsLayout.EntryBytes` | kernel/fs.h:29-32 | in each 32-byte entry the name is bytes 0 to 23, the size 24 to 27 and the inode number 28 to 31, least significant byte first |
| `FsLayout.INodeBytes` | kernel/fs.h:35-38 | data pointer k is bytes 4k to 4k + 3, and next the last four |
| `FsLayout.BitmapBytes` | kernel/fs.h:43-43 | block b is used when bit b % 8 of byte b / 8 of the bitmap's sector is set |
| `Bitmap.LowestClearBit` | kernel/fs.c:47-52 | the complement-and-shift loop ends at the lowest clear bit of the word |
| `Bitmap.SetBitFirstFit` | kernel/fs.c:54-55 | or-ing that bit into the first word that is not full marks the lowest free block and no other |
| `Bitmap.ClearBitExists` | kernel/fs.c:46-57 | there is a clear bit for the search to find exactly when fewer than 4096 blocks are in use |
| `FileSystem.FileSystem.FindEmptyInode` | kernel/fs.c:44-58 | first fit: finds the lowest clear bit of the 4096, sets that bit only, and marks the bitmap dirty; with all bits set, and only then, it reads past the array |
| `FsInv.BlockSeparation` | kernel/fs.c:44-132 | chains and block lists have no repeats, inodes and data blocks never share a block, two files share none, and block 0 is never a data block or a later inode, so a zero pointer means none |
| `FsInv.CacheTransparency` | kernel/fs.c:60-66 | the disk overlaid with the dirty caches is what the blocks mean; every inode and sector cached by an open descriptor agrees with it, and a clean directory or bitmap is its sector on disk |
| `FsInv.FlushINode` | kernel/fs.c:60-66 | writing a dirty inode back changes no block's meaning |
| `FsInv.FlushBuffer` | kernel/fs.c:108-114 | writing a dirty sector back and forgetting it changes no block's meaning |
| `FsInv.SetINode` | kernel/fs.c:68-73 | giving an empty file its first inode keeps the invariant, with the file's chain longer by that block |
| `FsInv.LinkNext` | kernel/fs.c:76-77 | linking a new block after the last inode keeps everything but that one block backed |
| `FsInv.FreshINode` | kernel/fs.c:79-81 | turning the cache to the zeroed new inode restores the invariant in full |
| `FsInv.AllocSector` | kernel/fs.c:125-129 | the pointer for the next sector is empty in its inode, and filling it gives the inode of the grown file |
| `FsInv.StoreSector` | kernel/fs.c:197-204 | bytes laid in the buffer become the sector's meaning and nothing else's |
| `FsInv.LoadINode` | kernel/fs.c:94-104 | a clean inode read from disk is the inode the file means there |
| `FsInv.LoadSector` | kernel/fs.c:128-129 | a clean sector read from disk is the sector the file means there |
| `FsAbs.SpliceSector` | kernel/fs.c:197-204 | storing a chunk in one sector splices it into the content of the whole file, also when the sector is new |
| `FsAbs.SpaceAccounting` | kernel/fs.c:116-132 | between calls the set bits of the bitmap number exactly the data blocks and inodes the file sizes need |
| `FsAbs.FetchRoom` | kernel/fs.c:116-129 | the blocks one fetch can take are within what the whole write needs |
| `FsAbs.GrowChainLinear` | kernel/fs.c:68-83 | on a disk with one file, first fit places inode c at block 128 * c |
| `FsAbs.GrowBlocksLinear` | kernel/fs.c:124-127 | and sector s at block s + s / 127 + 1 |
| `FileSystem.FileSystem.constructor` | kernel/fs.c:17-29 | a new process starts with every descriptor closed |
| `FileSystem.FileSystem.FsInit` | kernel/fs.c:31-35 | mounting a consistent image gives a valid state with exactly the files a cache-free reader finds on the image |
| `FileSystem.FileSystem.FsFlush` | kernel/fs.c:37-42 | the bitmap is in sector 1 and the directory in sector 2 afterwards, both tables are clean, and no data sector is touched |
| `FileSystem.FileSystem.FdInodeFlush` | kernel/fs.c:60-66 | keeps the invariant; only the inode's state flag changes |
| `FileSystem.FileSystem.FdSetInode` | kernel/fs.c:68-73 | the file's chain starts at the first free block, recorded in the directory |
| `FileSystem.FileSystem.FdAllocNextInode` | kernel/fs.c:75-83 | the chain is one block longer, the old last inode points at it, and the cache holds the new inode |
| `FileSystem.FileSystem.FdInodeStateInit` | kernel/fs.c:85-106 | the cached inode is the one for the cursor: the first, the next, or a new one only when the chain ends |
| `FileSystem.FileSystem.FdBufferFlush` | kernel/fs.c:108-114 | keeps the invariant; the buffer is GARBAGE and nothing else of any descriptor changes |
| `FileSystem.FileSystem.FdInodeFetch` | kernel/fs.c:119-123 | at an inode boundary the inode of the cursor is brought to hand |
| `FileSystem.FileSystem.FdBufferAlloc` | kernel/fs.c:125-129 | the file grows by one block, the first free one, and the cached inode points at it |
| `FileSystem.FileSystem.FdBufferLoad` | kernel/fs.c:128-129 | the buffer holds the sector of the cursor |
| `FileSystem.FileSystem.FdBufferFetch` | kernel/fs.c:116-132 | sector and inode of the cursor are at hand; the file grows only at its end, by just enough; the assertion at line 118 holds |
| `FileSystem.FileSystem.InternalOpen` | kernel/fs.c:138-142 | the descriptor is open at offset 0 with no caches |
| `FileSystem.FileSystem.FirstClosedFd` | kernel/fs.c:159-159 | the lowest closed descriptor, if there is one |
| `FileSystem.FileSystem.OpenExisting` | kernel/fs.c:151-153 | write access to slot 0 is refused, its flag cleared otherwise; every other slot keeps the descriptor's stale flag |
| `FileSystem.FileSystem.CreateFile` | kernel/fs.c:160-167 | the free slot holds an empty file of that name and the descriptor is open on it |
| `FileSystem.FileSystem.FsOpen` | kernel/fs.c:144-170 | result code and new state are those of `OpenOp`: found by name, created in the lowest free slot, or refused with the right error; no block is allocated |
| `FsReplay.OpenAnswers` | kernel/fs.c:144-170 | case by case for the four combinations of O_RDWR and O_CREAT: a missing file is refused with -7 without O_CREAT, and with it created in the lowest free slot, or refused with -6 when the directory is full or -7 when no descriptor is free; write access to slot 0 is refused with -5, an empty path with -10 |
| `FileSystem.FileSystem.FdReadChunk` | kernel/fs.c:176-185 | one turn delivers the file's bytes from the cursor to the end of its sector |
| `FileSystem.FileSystem.FsRead` | kernel/fs.c:172-187 | delivers exactly the bytes at the cursor up to the end of the file, moves the cursor by as many, and never allocates |
| `FileSystem.FileSystem.FdStore` | kernel/fs.c:197-204 | the sector means the old one with the chunk laid over it, and the file is lengthened when it now ends there |
| `FileSystem.FileSystem.FdWriteChunk` | kernel/fs.c:194-208 | one turn splices its bytes into the content at the cursor |
| `FileSystem.FileSystem.FsWrite` | kernel/fs.c:189-210 | splices the whole buffer into the file at the cursor, across sectors and inodes, and leaves every other file's blocks alone |
| `FileSystem.FileSystem.Rewind` | kernel/fs.c:215-220 | the caches are written back, the cursor is 0, and no file changes |
| `FileSystem.FileSystem.FsLseek` | kernel/fs.c:212-230 | SEEK_SET rewinds, which is the move asked for just for offset 0; SEEK_CUR and SEEK_END move the cursor only, SEEK_END to the cursor plus the size plus the offset on 32 bits, and from caches that are where the cursor is the state stays valid exactly for the moves that are served |
| `FsAbs.Moved` | kernel/fs.c:221-226 | moving the cursor under the caches keeps the invariant exactly when it stays inside or at the start of its sector, or goes from a sector boundary to 0 or to another under the same inode |
| `FsSeek.StrayINode` | kernel/fs.c:119-123 | the code in a state of which nothing is assumed |
| `FsSeek.StrayRead` | kernel/fs.c:177-180 | one turn of the read loop in such a state is `NextTurn` of it: a failed assertion, an allocation, a read off the disk, or the bytes delivered |
| `FsSeek.NextFetchIs` | kernel/fs.c:116-131 | after any move to within the file, `NextSector` tells which sector of the file the code fetches, or that it fails or allocates |
| `FsSeek.RightSector` | kernel/fs.c:116-131 | that is the sector of the cursor exactly for the moves that are served, or that a left-over inode happens to serve |
| `FsSeek.NextReadIs` | kernel/fs.c:176-185 | the next read, in terms of the content of the file, for every state between calls, cursor and move |
| `FsSeek.NextReadRight` | kernel/fs.c:176-185 | it delivers the content at the cursor for those moves, and after any other fails, allocates, or delivers what is at that place in another sector |
| `FsSeek.SeekThenRead` | kernel/fs.c:172-226 | mounting any image, opening any file, reading o bytes, seeking to n and reading gives just that |
| `FsSeek.SeekExamples` | kernel/fs.c:221-226 | on a file of numbered sectors each kind of move that is not served reads a wrong byte, fails the assertion, or allocates |
| `FileSystem.FileSystem.FsClose` | kernel/fs.c:232-239 | the descriptor closes and no file changes; once none is open, the disk alone is consistent and holds exactly the files |
| `FsSpec.WriteTwice` | kernel/fs.c:194-208 | writing d and then e is writing d followed by e |
| `FsImage.MountedFiles` | kernel/fs.c:31-35 | the state after mounting has the files that the cache-free reader finds by walking chains |
| `FsImage.DiskSeparation` | kernel/fs.c:44-132 | told of a consistent image alone: chains end with next 0 just after their last inode, and no two inodes or data pointers of any two files lead to one block, nor any data pointer to block 0 |
| `FsImage.Durable` | kernel/fs.c:232-239 | with every descriptor closed, mounting the disk afresh yields the same files |
| `FsImage.ClosedFormLayout` | kernel/fs.c:44-58 | read off the disk alone, a lone file has inode c at block 128 * c and sector s at block s + s / 127 + 1 |
| `FsRuns.ConcreteWf` | kernel/fs.c:144-239 | in every reachable state names are distinct, cursors lie in their files, and a descriptor with unwritten changes is alone |
| `FsRuns.StepKeeps` | kernel/fs.c:144-239 | every allowed call keeps that |
| `FsRuns.FoundAgain` | kernel/fs.c:144-170 | over any run a file keeps its slot and name, and looking the name up finds that slot |
| `FsRuns.Isolation` | kernel/fs.c:144-239 | a run that never writes through a descriptor of a file leaves the file's bytes unchanged |
| `FsRuns.KernelImmutable` | kernel/fs.c:151-153 | once no open descriptor may write slot 0, no run of calls changes its bytes |
| `FsRuns.KernelFinal` | kernel/fs.c:144-239 | from the creation of the kernel file on: whatever happens until its creating descriptor is closed, no run of calls after that changes the file |
| `FsRuns.FlagHistory` | kernel/fs.c:151-162 | over every run a descriptor is writable exactly when a creation with O_RDWR or a refused O_RDWR open of the kernel file granted it and no later read-only open of the kernel file revoked it |
| `FsRuns.ReopenHonoursFlags` | kernel/fs.c:151-153 | from a mounted state, after any run, reopening a file other than the kernel gives the access asked for if and only if the free descriptor's history agrees with it |
| `FsRuns.StaleWritable` | kernel/fs.c:151-153 | after a file is created with O_RDWR and closed, any other opened read-only is writable; on unused descriptors, any opened with O_RDWR is not |
| `FsRuns.StaleExample` | kernel/fs.c:151-153 | with kernel.bin and "b" present and "a" created, both happen to "b" |
| `FsReplay.Perform` | kernel/fs.c:144-239 | one call that its callers may make (`Allowed`) is one step of the description, with the described answer |
| `FsReplay.Replay` | kernel/fs.c:144-239 | over any sequence of calls that callers may make (`RunOk`: no write beside another descriptor, no reopening of a file with unwritten changes, no seek but the `SeekSafe` ones) the code ends in the described state and gives the described codes and bytes; if it leaves nothing open, the disk alone holds the files |
| `FsReplay.Session` | kernel/fs.c:31-239 | from one mounting to the next: such calls on any mounted image, closing all they open, leave an image with the described files |
| `FsRuns.WriteChunks` | kernel/fs.c:189-210 | writing in any number of pieces is writing the whole |
| `FsRuns.ReadChunks` | kernel/fs.c:172-187 | reading in any number of pieces is reading the whole |
| `FsRuns.WriteThenRead` | kernel/fs.c:172-220 | what is written is what is read back after a rewind |
| `MyfsTools.Stdin.Read` | util/write_myfs.c:21-21 | a read delivers any positive number of the remaining bytes, and zero only at the end |
| `MyfsTools.CopyIn` | util/write_myfs.c:19-25 | however the input is split, the new file ends up holding all of it; the loop ends and its assertion holds |
| `MyfsTools.WriteMyfs` | util/write_myfs.c:10-29 | the image afterwards is consistent and holds the old files and the new one, with the whole input as its content |
| `MyfsTools.ReadMyfs` | util/read_myfs.c:11-28 | the loop ends and outputs exactly the file's bytes |
| `MyfsTools.AddedLookup` | kernel/fs.c:147-155 | after one file is added, its name finds it and every other name finds what it found before |
| `MyfsTools.RoundTrip` | util/write_myfs.c:10-29 | for any new path on any consistent image, read_myfs outputs what write_myfs read |
| `MyfsTools.OthersRead` | util/read_myfs.c:11-28 | and any file that was there reads as before |
| `MyfsTools.FormattedOk` | util/formatter:2-3 | a zeroed image with a boot sector is consistent and holds no file |
| `MyfsTools.LoneInPlace` | boot/main.c:18-19 | the first file written to an empty image has its first inode at block 0 and its first sector at block 1 |
| `MyfsTools.StaysInPlace` | boot/main.c:18-19 | and stays there while other files are written |
| `MyfsTools.FsTest` | Makefile:149-151 | both files, written by separate runs into a formatted image, read back byte for byte, and the kernel lies where the boot loader expects it |
| `MyfsTools.KernelRaw` | kernel/fs.h:12-43 | on that image, byte by byte: sector 2 begins with the kernel's name, size and first inode number 0, sector 3 with pointer 1, and sector 4 with the kernel |
| `BootLoader.SegmentsAre` | inc/elf.h:6-33 | byte by byte: the program headers read from an ELF header are as many, lie where, and say what its bytes say |
| `BootLoader.WalkTo` | boot/main.c:30-33 | following `next` reaches the inode of the wanted sector |
| `BootLoader.LoadSectors` | boot/main.c:34-44 | the file's bytes from that sector on are in memory, nothing outside the sectors read is touched, and the inode at hand fits the next segment |
| `BootLoader.LoadSegment` | boot/main.c:28-46 | one segment is in place, its tail zeroed, with inode and index carried on |
| `BootLoader.HandNext` | boot/main.c:31-32 | `next` of inode c leads to inode c + 1 of the kernel file |
| `BootLoader.HandSector` | boot/main.c:37-37 | data pointer i of inode c leads to sector 127 * c + i of the kernel file |
| `BootLoader.StillLoaded` | boot/main.c:28-46 | loading a later segment leaves an earlier one intact |
| `BootLoader.Bootmain` | boot/main.c:14-46 | every program header's memory holds the kernel file's bytes from the start of its sector, then zeros; memory outside the whole sectors read and the zeroed tails is unchanged |
| `BootLoader.LoadedIsContent` | boot/main.c:28-46 | a segment within the file gets the file system's bytes from the start of its sector; they are the bytes at its offset if and only if the file repeats them there, as when the offset is aligned |
| `BootLoader.MisalignedMisloads` | boot/main.c:34-37 | a kernel with one segment at offset 1 meets every requirement and is loaded wrong |
| `BootLoader.HeaderIsContent` | boot/main.c:19-19 | the header read from block 1 begins with the kernel file, up to its length or the sector's |
| `BootLoader.BuildAndBoot` | boot/main.c:14-46 | the kernel that write_myfs put on a formatted image is what bootmain places in memory, segment by segment |
| `Scheduler.Kernel.constructor` | kernel/pcb.c:17-27 | the initial table, with process 0 running and all else free and zero, satisfies the invariant |
| `Scheduler.Kernel.PcbExec` | kernel/pcb.c:39-44 | the process given is the current one and running |
| `Scheduler.Kernel.SchedProcess` | kernel/sched.c:6-33 | ends, by dispatching the first ready process in round-robin order at the first tick there is one, unless the caller first stumbles over a waiter |
| `Scheduler.Kernel.SysSemWait` | kernel/sem.c:31-41 | takes a permit, or refuses a sleeping caller, or blocks the caller and dispatches another; the mutual recursion ends |
| `Scheduler.Kernel.UserSemWait` | kernel/sem.c:31-41 | a process's wait is one step of the machine |
| `Scheduler.Kernel.SysSemOpen` | kernel/sem.c:19-23 | the count is the given value and no other changes |
| `Scheduler.Kernel.SysSemDestroy` | kernel/sem.c:25-29 | the count is 0 and no other changes |
| `Scheduler.Kernel.SysSemPost` | kernel/sem.c:44-48 | the count is one more and no other changes |
| `Scheduler.Kernel.SysSleep` | kernel/syscall.c:29-35 | the caller is asleep until the given time and another runs |
| `Scheduler.Kernel.SysExit` | kernel/syscall.c:37-42 | the caller's slot is free when the scan starts |
| `Scheduler.Kernel.SysFork` | kernel/syscall.c:52-68 | the lowest free slot other than the caller's holds a runnable copy with its own pid |
| `Scheduler.Kernel.TimerTick` | kernel/trap.c:110-118 | the clock advances and the running process is charged; when its time is used up another is dispatched |
| `Scheduler.StepKeeps` | kernel/sched.c:6-33 | every entry keeps: slot i has pid i, exactly one process runs and it is the current one, and whoever is not asleep waits for nothing and is past its wake-up time |
| `SchedulerRuns.RunKeeps` | kernel/sched.c:6-33 | that holds all along every run |
| `SchedulerRuns.StepUnique` | kernel/sched.c:6-33 | the outcome of an entry is determined by the state before it |
| `SchedulerRuns.Progress` | kernel/sched.c:10-31 | if anyone else can become ready, the scan ends within max(1, wake-up - now) passes, one more for an exit |
| `SchedulerRuns.EndsOnlyIf` | kernel/sched.c:10-31 | and a scan that ends had someone who could become ready |
| `SchedulerRuns.ExitIffNoWaiterFirst` | kernel/sem.c:34-37 | after exit the slot is free, or asleep again, exactly according to whether a waiter on an empty semaphore precedes everyone ready |
| `SchedulerRuns.ThreeProcessesRun` | kernel/sem.c:34-37 | six entries lead from the initial state to one with a waiter first |
| `SchedulerRuns.ExitRevives` | kernel/sem.c:34-37 | and there the exiting process is asleep on the semaphore afterwards |
| `SchedulerRuns.StepCloser` | kernel/sched.c:12-15 | each dispatch reaches a ready process or moves strictly closer to it in scan order |
| `SchedulerRuns.BoundedBypass` | kernel/sched.c:10-31 | over every run a ready process that waits for no semaphore is dispatched within its scan distance from the current one, at most 63 dispatches |
| `SchedulerRuns.PreemptedIsWaiting` | kernel/trap.c:113-117 | a preempted process is ready for the next scan |
| `SchedulerRuns.CallerRunsAgain` | kernel/sched.c:10-31 | over every run a caller that is ready after giving up the processor runs again within 64 dispatches |
| `SchedulerRuns.PreemptedRunsAgain` | kernel/trap.c:113-117 | in particular every preempted process does |
| `SchedulerRuns.TimeSlice` | kernel/trap.c:113-117 | over every run, after a preempting tick has brought the clock to c, the next tick to preempt is the first that brings it past c + 0x60 |
| `SchedulerRuns.FirstSlice` | kernel/trap.c:113-117 | from the initial state the first tick to preempt is the first that brings the clock to 97 |
| `SchedulerRuns.StepCharges` | kernel/trap.c:112-112 | a process is charged for exactly the ticks that find it running |
| `SchedulerRuns.NeverEarly` | kernel/syscall.c:29-33 | over every run a process that calls sleep(t) does not run again before t ticks have passed |
| `Semaphores.StepConserves` | kernel/sem.c:31-48 | each step changes a count by exactly what is posted and taken in it, the scheduler's own takings included |
| `Semaphores.WaiterPays` | kernel/sched.c:23-25 | a blocked process runs again only in a step that takes a permit for it |
| `Semaphores.Conservation` | kernel/sem.c:19-48 | over every run the count plus the permits held equals the initial count |
| `Semaphores.MutualExclusion` | kernel/sem.c:31-48 | with waits and posts in pairs, holders and count together never exceed the initial count |
| `Semaphores.OpenedWith` | kernel/sem.c:19-23 | over every run after sem_open(s, v), the count and the permits held make v, and at most v processes hold one |
| `Semaphores.DestroyedBlocks` | kernel/sem.c:25-41 | a wait straight after sem_destroy blocks its caller on that semaphore |
| `Semaphores.WaitBlocks` | kernel/sem.c:31-41 | a wait blocks its caller on that semaphore when the count is 0, and otherwise only takes a permit |
| `Semaphores.BlockedUntilPaid` | kernel/sem.c:31-41 | over every run, whoever blocks in sem_wait(s) stays asleep on s until the step that dispatches it, which takes a permit of s |
| `Paging.Packed` | kernel/pmap.c:36-36 | the shifted and or-ed entry is frame address plus flags |
| `Paging.Unpacked` | kernel/pmap.c:36-36 | and the walk takes it apart into exactly that frame |
| `Paging.PackedDir` | kernel/pmap.c:34-34 | the same for a directory entry and its table |
| `Paging.Memory.constructor` | kernel/pmap.c:13-17 | the zeroed directories and tables the kernel starts with are in order |
| `Paging.Memory.WindowWalk` | kernel/pmap.c:34-36 | through any table the walk takes byte k of the window to offset k of the region its entry names |
| `Paging.Memory.PcbPageInit` | kernel/pmap.c:23-27 | the process's two kernel entries are the static ones, and no other entry changes |
| `Paging.Memory.AllocPage` | kernel/pmap.c:30-42 | page k of the window is mapped to 16 MB + 4 MB * pid + 4 KB * k, with the flags given, and the result is the first of these; no other table or directory entry changes |
| `Paging.NotYetWritten` | kernel/pmap.c:55-55 | a byte the copy has still to read is not among those it has written |
| `Paging.Memory.CopyWindow` | kernel/pmap.c:55-55 | the destination region holds what the source window held; all other memory is unchanged, even when pages are shared |
| `Paging.Memory.PmapInitAndCopy` | kernel/pmap.c:48-57 | the child reads at every address what the parent read; the parent and every other process read what they did, except pages they share with the child's region; the borrowed entry is cleared, and no directory entry, table or memory outside the child changes otherwise |
| `Paging.Memory.PmapCopyOnePage` | kernel/pmap.c:59-64 | the one entry is copied and no other entry of any table changes; the destination reaches the source's page there, and no other address of any process moves |
| `Paging.Memory.MapFirst` | kernel/init.c:24-26 | at boot the window of process 0, from 0x8000000 on, lies at 16 MB |
| `Paging.AddressParts` | inc/mmu.h:33-55 | a linear address is its directory index, its table index and its offset |
| `Paging.Memory.InUserMemory` | inc/pmap.h:17-19 | a byte that a mapped process reaches in its window lies between 16 MB and 128 MB |
| `Paging.Memory.PrepareChild` | kernel/pmap.c:49-54 | the child's directory and table, with their addresses and flags, and the borrowed entry |
| `Paging.Memory.Serve` | kernel/syscall.c:64-78 | over any sequence of forks and page sharings the tables stay in order and every mapped process keeps its window, unless it takes a page from one that has none |
| `Paging.NobodyLoses` | kernel/syscall.c:75-78 | when all sharing processes have windows, nobody loses one |
| `Paging.FromBoot` | kernel/init.c:24-26 | all of this holds from power-on, and no page of any window ever lies in the kernel's 16 MB or beyond the 128 MB of memory |
| `Fork.PickedHasTable` | kernel/syscall.c:55-57 | the process sys_fork picks has a page table exactly when some slot that has one, other than the caller's, is free |
| `Fork.SysFork` | kernel/syscall.c:52-69 | then the child is that slot, runnable, and reads at every address what the parent read and still reads |
| `Rand.Generator.Srand` | game/rand.c:3-6 | the state is the seed |
| `Rand.Generator.Rand` | game/rand.c:9-13 | the state advances by one step and its bits 16 to 30 are returned |
| `Rand.ClosedForm` | game/rand.c:11-11 | n steps multiply the state by a^n and add 1 + a + ... + a^(n-1) |
| `Rand.Valuation` | game/rand.c:11-11 | a power of two divides that sum exactly when it divides n |
| `Rand.FullPeriod` | game/rand.c:9-13 | from any seed the state returns after n calls exactly when 2^32 divides n |
| `Rand.Distinct` | game/rand.c:9-13 | the states of one period are pairwise different |
| `Rand.EveryStateVisited` | game/rand.c:9-13 | so every 32-bit state comes up |

## Left out

- FileSystem.FileSystem.FsLseek: after a SEEK_CUR or SEEK_END that is not served, what the next read does is described and nothing beyond it, and not a write; `userprog_load` in kernel/init.c, which seeks with SEEK_SET to offsets that are ignored, is not modelled.
- FsSeek.NextReadIs: of a descriptor at offset 0 it takes that the inode field is zero or still holds an inode of the same file as it is now; one left over from another file, or since changed, is not described.
- FsReplay.Replay: for sequences that callers may make, as its row says; `Perform` for such calls.
- FileSystem.FileSystem.FsOpen: see FsWrite.
- FileSystem.FileSystem.FsWrite: asks that no other descriptor is open on the file (`MayWrite`), and `FsOpen` that the file has no unwritten changes (`MayOpen`), because descriptors do not see each other's caches; any number of readers may share a file.
- FileSystem.FileSystem.FindEmptyInode: what lies in memory after the bitmap is not modelled, so a search that reads on there ends the model; `FsWrite` asks for enough free blocks that it does not. The assertions at kernel/fs.c:158 and 190, and a free PCB for `SysFork`, whose lack is a panic, are asked for too.
- FileSystem.FileSystem.FdWriteChunk: like `FdReadChunk`, `FdStore`, `FdInodeFetch`, `FdBufferAlloc`, `FdBufferLoad`, `OpenExisting` and `CreateFile`, a named piece of a longer C function, cut out to keep each proof small.
- Buffers, inodes, tables and the descriptor pool are sequence-valued fields that methods reassign, so sharing of memory between them is not modelled; user buffers and boot memory are arrays.
- Scheduler.Kernel.SchedProcess: asks that someone can become ready, as otherwise the source loops for ever; `EndsOnlyIf` shows this is needed.
- Scheduler.Kernel.SysSemWait: semaphore numbers are 0 to 2, because the assertions in kernel/sem.c use `||` and check nothing; counts and the clock are unbounded naturals, so wrap-around is not modelled. The value that a blocked wait leaves in its caller's register is not modelled.
- Scheduler.Kernel.SysFork: the PCB part; `Fork.SysFork` joins it with the memory part for processes that have page tables. Registers are left out.
- Paging.Memory.AllocPage: flags fit the low 12 bits, and pids are below 28, the number of page tables that exist.
- The TLB, permission bits, segmentation, and the contents of the kernel's own page table: the walk reads the tables as they are and yields nothing for other entries.
- BootLoader.Bootmain: the jump to the kernel's entry point and the port input of `readsect`; program headers are taken to lie in the header sector, and segments to lie in the file, not to overwrite each other, and not to go back to an earlier inode.
- Rand.Generator.Rand: the signed multiplication is taken to wrap on 32 bits, as the target does.
- Nested interrupts in `sys_wait_intr`, the timer and keyboard handlers, drivers, printing, the game's logic and drawing, and assembly code.
