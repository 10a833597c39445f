# xv6 kernel core, modelled and verified in Dafny

This project models the hard core of an xv6 teaching kernel for x86 (with an MLFQ scheduler,
lazily allocated user memory and a reworked `deallocuvm`) and of four of its user programs, and
proves what they are for: a crash never tears a file system transaction, files are byte
sequences, processes do not starve, sleepers are woken, memory is conserved, what is parsed is
what was printed.

Run `dafny verify dfyconfig.toml` in this directory.

## How the model is laid out

| files | source | what they hold |
|---|---|---|
| `Ring`, `BufferCache`, `CacheReaders` | `bio.c`, `memide.c` | the MRU ring of buffers in front of one disk; a process at work among readers |
| `CrashRecovery`, `LogReservation`, `Log` | `log.c` | the on-disk protocol, the reservation protocol, the code over the cache |
| `DiskLayout`, `FileBlocks`, `FileBytes`, `FileSystem`, `OpenFile`, `Directory` | `fs.c`, `file.c`, `string.c` | bitmaps, inodes, block maps, file contents, directories |
| `FileCrash` | `fs.c`, `file.c`, `log.c` | file system operations as transactions: what a crash leaves of them |
| `PageTables`, `Vm`, `VmRuns` | `vm.c`, `kalloc.c`, `trap.c`, `sysproc.c` | two-level page tables, the frame allocator, lazy user memory, and three runs that go wrong |
| `Mlfq`, `Starvation`, `Demotion` | `proc.c` | the scheduler, starvation freedom, the bound of policy 3 |
| `SleepLock`, `Processes` | `sleeplock.c`, `proc.c` | sleep locks as an interleaved protocol; fork, exit, wait, kill |
| `Streams`, `Pipe`, `Console` | `pipe.c`, `console.c` | ring buffers with wrapping 32-bit counters |
| `Malloc` | `umalloc.c` | the Kernighan and Ritchie allocator |
| `ShellLexer`, `ShellGrammar`, `ShellParser`, `ShellPrinter` | `sh.c` | the shell's scanner and parser, a grammar, a printer |
| `Grep` | `grep.c` | the regular expression matcher |
| `Params`, `Blocks`, `Counting`, `Options` | `param.h` | limits; bytes, words and bits; finite sets; an option type |

Structures the C code updates in place are classes, and each method is one atomic section: a
stretch under a spin lock, or by the holder of a sleep lock. A commit is a sequence of such
sections; between any two of them other processes read through the cache, as a schedule of their
moves says. A wait loop is one attempt that may report that it went to sleep. C's 32-bit arithmetic
is written out where it matters; a panic is an outcome. The disk is a sequence of blocks and one
block write is one atomic step.

## Where the code does not do what one would hope

Each of these is stated exactly, as a condition that can be read off before the call.

- `log_write` checks the size of the log before it looks whether the block is already in it, so a
  full log panics even on a block it would absorb (`LogReservation.WritePanicsIff`), and full logs
  are reachable by operations that keep to their reservation (`LogReservation.FullLogReachable`).
- `begin_op` reserves room for LOGSIZE blocks, but the log region holds its header as well. An
  operation within its share can always log a new block if and only if the region is longer than
  LOGSIZE (`LogReservation.PromiseKeptIff`); mkfs makes it LOGSIZE, and for every such size there is
  a run that panics on a first-time write (`LogReservation.BrokenPromise`).
- The buffer cache has as many buffers as the log has blocks, every logged block is pinned, and
  `fileread` takes buffers without a transaction, before and during a commit. So `commit` can find
  no buffer. It comes to its end if and only if nobody asks for a buffer while all are pinned or in
  use; it does so, whatever the readers do, if logged blocks and readers are together fewer than
  NBUF (`Log.LogState.Commit`); in `Log.ReadersStopCommit` one block and 29 readers stop it.
- `copyuvm` loses a frame if and only if the free list runs down to one frame at a page whose page
  table the child does not have yet (`Vm.Memory.Copyuvm`; `VmRuns.LostFrame` is such a run).
- The rollback of `allocuvm` starts at the page that contains the old size, so what the process
  sees survives if and only if everything from that page up to the new size was zeros; it is
  reached if and only if the free list is shorter than the pages and page tables needed
  (`Vm.Memory.Allocuvm`; in `VmRuns.LostPage` a word that the process has stored is gone).
- `sbrk` does not bound the size and `deallocuvm` does not stop at the kernel half. The free list
  keeps its frames and gains those of the user pages, each once, if and only if the range holds no
  kernel page, which an old size of at most KERNBASE ensures (`Vm.Memory.Deallocuvm`,
  `Vm.Memory.Sbrk`; `VmRuns.SbrkFreesKernel` is a run of three calls that breaks it).
- `dirlink` stores the inode number in 16 bits, so the name is bound to the number if and only if
  it is between 1 and 65535 (`Directory.Dirlink`; `Directory.WrappedLink` is an input).
- `itrunc` runs in one transaction and logs each bitmap block its file has blocks in, so it keeps to
  MAXOPBLOCKS if and only if those are fewer than MAXOPBLOCKS; a disk of at most nine bitmap blocks
  ensures that (`FileSystem.FileSys.Itrunc`, `FileSystem.TruncateFits`).
- `pipewrite` wakes nobody when it gives up, so a killed writer that fills the pipe leaves a
  sleeping reader unserved (`Pipe.PipeState.Write`, `Pipe.Stranded`).
- An unused process slot has pid 0, or the pid of a fork that failed; `kill` of that number marks
  it, and the next process to get the slot starts out killed (`Processes.StaleKill`,
  `Processes.ProcTable.Fork`).
- `malloc` rounds up in 32 bits, passes sbrk a signed number of bytes, and sbrk does not stop at
  KERNBASE. A block of new memory is usable throughout and large enough if and only if what is
  wanted, at least 4096 units, fits below KERNBASE on top of the process and is less than 2^31 bytes
  (`Malloc.UsableIff`, with failing requests in `Malloc.UnbackedRequests`); a block found on the
  list is large enough if and only if the request is at most 2^32 - 8 bytes (`Malloc.RoomIff`).

## Model

| member | source | states |
|---|---|---|
| `Ring.NextPrevInverse` | xv6/bio.c:26-36 | In the circular list next and prev are inverse at every element and at the head. |
| `Ring.Unlink` | xv6/bio.c:132-133 | Taking a buffer out by the two pointer writes of brelse leaves a ring of the others in the same order. |
| `Ring.PushFront` | xv6/bio.c:134-137 | The four pointer writes that follow put it first and leave a ring. |
| `BufferCache.Bcache.constructor` | xv6/bio.c:38-56 | After binit the ring holds all NBUF buffers, none is in use, and the cache agrees with the disk. |
| `BufferCache.Bcache.Bget` | xv6/bio.c:61-93 | Returns the one buffer that holds the block, else, under its new identity, the reusable buffer that was released longest ago; fails if and only if the block is uncached and no buffer is reusable; buffers in use or dirty keep their identity. |
| `BufferCache.Bcache.FindCached` | xv6/bio.c:66-76 | The forward scan finds a buffer for the block if and only if there is one. |
| `BufferCache.Bcache.FindVictim` | xv6/bio.c:78-91 | The backward scan finds the last reusable buffer of the ring, if any. |
| `BufferCache.Bcache.Iderw` | xv6/memide.c:38-60 | A dirty buffer goes to its block and becomes clean, an invalid one is filled from it; no other block changes. |
| `BufferCache.Bcache.Bread` | xv6/bio.c:95-106 | Comes back with the buffer locked by the caller and holding exactly what the plain block map holds for that block, or asleep, counted as a user, exactly when another process has it locked, or with the no-buffers panic exactly when the block is uncached and no buffer is reusable; a miss recycles the reusable buffer that was released longest ago. |
| `BufferCache.Bcache.Resume` | xv6/bio.c:100-105 | Once the lock is free, the sleeper's read ends the same way. |
| `BufferCache.Bcache.Bwrite` | xv6/bio.c:108-116 | The holder's contents become both the block's meaning and its disk contents. |
| `BufferCache.Bcache.Brelse` | xv6/bio.c:118-141 | Releasing a buffer whose contents were written or logged keeps the cache coherent and counts one user less; the last user moves the buffer to the front of the ring and leaves the others in order, so that over any run the ring lists the buffers by the time of their last release. |
| `BufferCache.Bcache.MoveToFront` | xv6/bio.c:130-138 | The ring is the old one with the buffer moved to the front. |
| `CrashRecovery.CrashAtomicity` | xv6/log.c:69-122 | Over every run of commits cut short at any block write, and recoveries cut short any number of times, the home blocks after a completed recovery are what an atomic specification says: each transaction entirely there or entirely absent, and there exactly when its header write had landed. |
| `CrashRecovery.CommitStep` | xv6/log.c:176-202 | After any prefix of commit's block writes the disk recovers to the old contents if the header is not yet written and to the new ones if it is. |
| `CrashRecovery.RecoverStep` | xv6/log.c:114-122 | After any prefix of recovery's block writes the disk still recovers to the same contents. |
| `CrashRecovery.InstallPrefix` | xv6/log.c:69-82 | Any part of the installation leaves the header and the log intact, so that it can start again. |
| `CrashRecovery.HeaderCommits` | xv6/log.c:99-112 | Writing the header turns a disk that means the old contents into one that means the new ones. |
| `CrashRecovery.LogPrefix` | xv6/log.c:176-190 | Writing the log itself changes nothing that recovery sees. |
| `Log.LogState.BeginOp` | xv6/log.c:124-141 | Lets an operation in if and only if no commit is running and the blocks logged, with 10 for every operation under way and for this one, are at most 30; a run of the reservation protocol stays one. |
| `Log.LogState.EndOp` | xv6/log.c:143-174 | Panics if and only if a commit is running, which in a run of the reservation protocol it never is; the last operation out starts a commit. |
| `Log.LogState.LogWrite` | xv6/log.c:213-233 | Pins the block and adds it to the log once; panics exactly when the log holds 30 blocks or all but one of its own, or nothing is outstanding; within the operation's share it is a step of the reservation protocol. |
| `Log.LogState.CommitDone` | xv6/log.c:165-173 | The end of a commit is a step of the reservation protocol too. |
| `Log.LogState.RecordedSafe` | xv6/log.c:124-233 | So after any calls of begin_op, log_write, end_op and commit by operations within their shares, the list fits the log, names no block twice, and no operation is open during a commit. |
| `Log.LogState.WriteLog` | xv6/log.c:176-190 | The logged blocks are copied to the log in order while readers come and go; it fails only if someone asks for a buffer when all are gone, never if pinned buffers and readers are fewer than NBUF, and with readers that hold still exactly when every buffer is pinned or in use. |
| `Log.LogState.WriteHead` | xv6/log.c:99-112 | One block write of the header that lists the logged blocks, under the same conditions. |
| `Log.LogState.InstallTrans` | xv6/log.c:69-82 | Copies each logged block to its home, in order, and unpins it, waiting for readers that have the block locked, under the same conditions. |
| `Log.LogState.Commit` | xv6/log.c:192-202 | For every schedule of readers between its steps: it runs to its end if and only if nobody asks for a buffer when all are pinned or in use, which is so whenever logged blocks and readers are fewer than NBUF, and with readers that hold still exactly when logged blocks and unpinned buffers in use are; then the disk has seen exactly the block writes that `CrashRecovery` is about, and every home block holds what was logged. |
| `CacheReaders.TakenSize` | xv6/log.c:213-233 | Each block of the transaction pins one buffer of its own, so the buffers out of reach are the logged blocks plus the unpinned buffers in use. |
| `CacheReaders.FreeBuffer` | xv6/bio.c:78-91 | A process that holds nothing can read a log block exactly when some buffer is neither pinned nor in use. |
| `CacheReaders.GoneBound` | xv6/file.c:105-110 | Pinned buffers, those of the process itself, and one for each reader are all that can be gone, since a reader uses one buffer at a time. |
| `Log.LogState.Readers` | xv6/file.c:105-110 | The next batch of the schedule is played out, move by move: a reader that uses no buffer asks for a home block, gets the lock it has waited for, or finishes with its buffer. Whatever they do, the process at work keeps its buffers and their contents, nothing is pinned, unpinned or written, and nobody asks in vain if there is room for all readers. |
| `Log.ReadersStopCommit` | xv6/file.c:105-110 | A run in which a transaction of one block and 29 readers leave commit without a buffer. |
| `Log.LogState.ReadHead` | xv6/log.c:84-95 | The header in memory is the one on disk. |
| `Log.LogState.RecoverFromLog` | xv6/log.c:114-122 | The disk has seen exactly the block writes of recovery. |
| `Log.Boot` | xv6/log.c:53-66 | Starting on any disk that a crash can leave behind gives a valid, empty log and the recovered home blocks. |
| `LogReservation.ReservationSafety` | xv6/log.c:124-174 | In every interleaving of operations that each log at most MAXOPBLOCKS distinct blocks, logged plus reserved blocks never exceed LOGSIZE, logged blocks are distinct, and nothing is outstanding during a commit. |
| `LogReservation.EndNeverPanics` | xv6/log.c:143-174 | end_op's panic is unreachable. |
| `LogReservation.WritePanicsIff` | xv6/log.c:213-233 | With a log longer than LOGSIZE, log_write by a running operation panics if and only if the log is full, absorbed block or not. |
| `LogReservation.WritePanicsSmallLog` | xv6/mkfs.c:25 | On a log region of at most LOGSIZE blocks, in every run without a panic so far, the list holds at most one block less than the region, and the next write of a running operation panics exactly when it holds that many. |
| `LogReservation.PromiseKeptIff` | xv6/log.c:124-141 | An operation within its reservation can log a new block in every reachable state if and only if the log region is longer than LOGSIZE. |
| `LogReservation.BrokenPromise` | xv6/log.c:213-233 | For every shorter region, mkfs's included, a run without a panic in which an operation within its reservation then panics on a block that it logs for the first time. |
| `LogReservation.FullLogReachable` | xv6/log.c:213-233 | Three operations within their reservations reach the state in which writing a block again panics. |
| `DiskLayout.MarkUsed` | xv6/fs.c:62-67 | Setting a block's bit marks that block and no other. |
| `DiskLayout.UnmarkUsed` | xv6/fs.c:87-93 | Clearing it unmarks that block and no other. |
| `DiskLayout.DinodeRoundTrip` | xv6/fs.c:221-237 | Reading an on-disk inode back gives the inode that was written, and its neighbours are untouched. |
| `FileSystem.FileSys.Balloc` | xv6/fs.c:55-78 | The first free block, zeroed, marked and so far in no file; fails if and only if all are used. |
| `FileSystem.FileSys.Bfree` | xv6/fs.c:80-96 | Clears the bit of that block and no other; panics exactly when it is clear already, which `FileSystem.FileSys.Itrunc` never meets. |
| `FileBlocks.FreeBlock` | xv6/fs.c:55-78 | A block whose bit is clear lies in the data area and is in no slot of any file. |
| `FileBlocks.FillDirect` | xv6/fs.c:379-383 | Filling an empty direct slot or indirect pointer with a fresh block keeps every block in exactly one slot and the bitmap exact, and changes no file's contents. |
| `FileBlocks.FillIndirect` | xv6/fs.c:391-396 | The same for an entry of the indirect block. |
| `FileBlocks.SlotsDisjoint` | xv6/fs.c:372-401 | No block is in two slots, of the same file or of two. |
| `FileBlocks.Truncated` | xv6/fs.c:407-436 | A file with all its slots empty owns nothing, and ownership stays exact. |
| `FileSystem.FileSys.Bmap` | xv6/fs.c:372-401 | Returns the address in direct slot bn, or in entry bn - 12 of the indirect block, allocating it and the indirect block only if absent; fails only when no block is free; no byte of any file changes, what changes is logged, and the out-of-range panic is out of reach. |
| `FileSystem.FileSys.BmapIndirect` | xv6/fs.c:386-398 | The indirect half of it. |
| `FileBytes.ByteAt` | xv6/fs.c:364-401 | Byte o of a file is byte o mod 512 of the block that direct slot or indirect entry o / 512 names; a hole reads as zeros. |
| `FileSystem.FileSys.Readi` | xv6/fs.c:452-477 | Returns exactly the bytes of the file in the requested range, cut off at its size; -1 exactly when the range starts past the end or wraps around; panics only when no block is free; a file without holes is not changed by reading. |
| `FileSystem.FileSys.Writei` | xv6/fs.c:481-512 | Replaces exactly the bytes of the range, growing the file if need be; no other file changes, no holes appear, the on-disk inode stays current, every changed block is logged, and a write of at most 1536 bytes to a file without holes logs at most MAXOPBLOCKS blocks; -1 exactly when the range starts past the end, wraps around or passes the largest file; panics only when no block is free. |
| `FileSystem.FileSys.WriteLoop` | xv6/fs.c:499-504 | The bytes written so far are spliced in, and the blocks logged are tallied one by one; it stops early only when no block is free. |
| `FileSystem.SmallWrite` | xv6/file.c:124-134 | A write of at most 1536 bytes at or before the end of a file without holes logs at most MAXOPBLOCKS blocks, wherever it starts and whatever it allocates. |
| `FileSystem.TallySize` | xv6/fs.c:499-511 | A write logs at most one block per visit, one bitmap block per allocation, the indirect block with its bitmap block, and the inode block. |
| `FileSystem.NoNewHoles` | xv6/fs.c:481-512 | Writing at or before the end of a file without holes leaves a file without holes. |
| `FileSystem.FileSys.Iupdate` | xv6/fs.c:220-237 | The inode block holds the in-memory inode, inodes that were current on disk stay so, and no file changes. |
| `FileSystem.FileSys.Itrunc` | xv6/fs.c:407-436 | The file becomes empty, exactly its blocks become free, no other file changes and inodes that were current on disk stay so; it logs exactly the bitmap blocks of its blocks and its inode block, which keeps to MAXOPBLOCKS if and only if those bitmap blocks are fewer. |
| `FileSystem.TruncateFits` | xv6/fs.c:407-436 | The bitmap blocks of a file are at most those of the disk, so on a disk of at most nine it always does. |
| `FileBytes.ContentAfterWrite` | xv6/fs.c:481-512 | The contents after a write are the old ones with the range replaced. |
| `FileBytes.WrittenTwice` | xv6/file.c:133-151 | Writing two adjacent stretches is writing their concatenation. |
| `OpenFile.FileHandle.Read` | xv6/file.c:95-113 | Delivers the file's bytes from the offset on and moves the offset past them; no file changes. |
| `OpenFile.FileHandle.WriteTx` | xv6/file.c:136-143 | One transaction of filewrite, within its reservation: the bytes go in at the offset, no other file changes whatever the outcome, every changed block is logged, and it panics only when no block is free. |
| `OpenFile.FileHandle.Write` | xv6/file.c:116-156 | Any write, cut into transactions of 1536 bytes that each log at most 10 blocks, has the effect of one write of the whole at the offset; it fails exactly when the file is not writable or the range does not fit, and then has the effect of all the whole transactions that do fit; no other file changes whatever the outcome. |
| `FileCrash.OperationIsAtomic` | xv6/log.c:192-202 | An operation whose changed blocks are all logged, committed as one transaction: wherever the commit is cut short, and however often recovery is, the recovered disk is the file system before the operation or the one after it, the latter exactly when the header was written. |
| `FileCrash.FilesOnImage` | xv6/fs.c:289-313 | On such a disk a freshly started kernel finds each file with the contents it has in the file system. |
| `FileCrash.WriteAndCrash` | xv6/file.c:136-143 | One transaction of filewrite cut short by a crash: every file of the recovered disk has its old contents, or, exactly when the header was written, every file has its new contents. |
| `Directory.Strncmp` | xv6/string.c:58-66 | Zero exactly when the names agree up to a NUL or fourteen characters. |
| `Directory.NameIs` | xv6/fs.c:517-521 | The name a string stands for is the one prefix of it without a NUL that ends at a NUL, at the end of the string, or after fourteen bytes. |
| `Directory.Strncpy` | xv6/string.c:68-79 | The stored field compares equal to exactly the names with the same first fourteen characters. |
| `Directory.Dirlookup` | xv6/fs.c:524-549 | Finds the entry of the name if and only if the directory binds it, with its inode number and offset. |
| `Directory.LinkMeaning` | xv6/fs.c:568-576 | Writing the entry binds that name and changes the binding of no other. |
| `Directory.LinkUnique` | xv6/fs.c:551-579 | Live names stay pairwise different under the fourteen-character comparison. |
| `Directory.Dirlink` | xv6/fs.c:551-579 | Refuses a name that is bound; otherwise binds it, to the given number if and only if that fits, and leaves every other name alone; panics only when the directory has its full size or no block is free. |
| `Directory.WrappedLink` | xv6/fs.c:568-576 | In an empty directory, inode number 65537 goes in as number 1. |
| `PageTables.AddTable` | xv6/vm.c:38-58 | A fresh zeroed page table changes no mapping of any space. |
| `PageTables.OneEntry` | xv6/vm.c:60-83 | Writing one page table entry changes one page of one space. |
| `PageTables.MapUser` | xv6/vm.c:60-83 | Mapping a fresh frame keeps every frame in exactly one role. |
| `PageTables.UnmapUser` | xv6/vm.c:289-315 | Clearing an entry and letting its frame go keeps all other roles and pages. |
| `PageTables.StoreWord` | xv6/trap.c:99-152 | A store to a present user page changes that word of that page and no page of any other space, and keeps every frame in its role. |
| `PageTables.DropSpace` | xv6/vm.c:321-336 | Forgetting a whole space leaves the others as they were. |
| `Vm.Memory.Freerange` | xv6/kalloc.c:46-53 | Every whole page of the range is on the free list once, the last one first, filled with 0x01 bytes; no other frame changes. |
| `Vm.Memory.Kfree` | xv6/kalloc.c:59-77 | A frame that belongs to nobody goes to the head of the free list, every word of it 0x01010101; no space changes. |
| `Vm.Memory.Kalloc` | xv6/kalloc.c:82-95 | The head of the free list, or nothing exactly when it is empty; the list never repeats a frame. |
| `Vm.Memory.Walkpgdir` | xv6/vm.c:38-58 | The page table for an address, made if asked for; fails exactly when it is absent and must not or cannot be made. |
| `Vm.Memory.PageFault` | xv6/trap.c:99-152 | A fault changes nothing that any process sees; it maps exactly one fresh zero frame, present, writable and open to the user, or kills the process exactly when the address is the kernel's, the size is zero, the page is present or frames are short; a page and a missing page table are what it costs. |
| `Vm.Memory.Store` | xv6/trap.c:99-152 | A store by a process, with the fault it may take: exactly that word of that process's memory changes and no other process sees anything; the process is killed exactly when the address is the kernel's, the page is present but not writable, or the fault cannot be served; if it is not killed the page is writable afterwards. |
| `Vm.Memory.Deallocuvm` | xv6/vm.c:289-315 | Frees exactly the mapped pages from the page of the new size up to the old size, and changes no other page of any space; the free list is its old frames and those of the user pages, each once, if and only if no kernel page lies in the range and the address does not wrap. |
| `Vm.Memory.FreeKernelPage` | xv6/vm.c:300-312 | One page of the kernel half: if present, its frame is filled with junk and put on the free list and its entry cleared; a frame the allocator does not manage is kfree's panic. |
| `Vm.Memory.Sbrk` | xv6/sysproc.c:73-91 | The size moves by the argument in 32-bit arithmetic; it refuses exactly when shrinking to or from zero, and returns -1 then and at size 2^32 - 1; growing touches no memory; shrinking keeps the free list exact if and only if no kernel page lies in the range. |
| `VmRuns.SbrkFreesKernel` | xv6/sysproc.c:73-91 | A run in which sbrk grows the size past KERNBASE and then gives a kernel frame to the free list. |
| `Vm.Memory.Freevm` | xv6/vm.c:321-336 | Frees each user frame, page table and the directory once, and nothing else. |
| `Vm.Memory.Setupkvm` | xv6/vm.c:123-144 | A new space whose present pages are exactly those from the first byte to the last byte of a line of the kernel's memory map, each with the frame of its line and the line's permission bits plus present; panics exactly when two pages of the map fall together before frames run out, fails exactly when there are too few frames for the directory and its page tables, and then gives back exactly what it took. |
| `Vm.ClashIffOverlap` | xv6/vm.c:106-121 | Two pages of the map fall together exactly when two of its lines overlap. |
| `Vm.Memory.Allocuvm` | xv6/vm.c:229-257 | Every page up to the new size is there, writable and open to the user, and no process sees a difference; it fails exactly when the free list is shorter than the pages and the absent page tables of the range, and panics exactly on a page that is there already; after a failure the view is intact if and only if everything from the page of the old size on was zeros; frames are conserved either way. |
| `VmRuns.LostPage` | xv6/vm.c:243-254 | A run in which the rollback loses a word that the process has stored. |
| `Vm.Memory.Copyuvm` | xv6/vm.c:353-383 | The child has the same user pages, permissions and contents on frames of its own, and the kernel half of the memory map; it fails exactly when the free list is shorter than directory, kernel page tables, pages and their page tables together; then everything is as before but for one frame, lost exactly when the list runs down to one frame at a page that needs a page table. |
| `VmRuns.LostFrame` | xv6/vm.c:372-376 | A run in which it is lost. |
| `Vm.Memory.Lifetimes` | xv6/vm.c:123-383 | Any interleaving of setupkvm, copyuvm, growing, shrinking, page faults, stores and freevm over any number of spaces, failed or not: step by step each process sees what its own events do and nothing else, a copy starts with its parent's memory, and once all spaces are gone exactly the frames are free that were free, less at most one for each copy; the run stops early exactly at an event that panics or shrinks over a kernel page. |
| `Vm.HaltsOnly` | xv6/vm.c:123-383 | Such an event is a new space under a kernel map with overlapping lines, growing onto a page that is there, or shrinking from above KERNBASE. |
| `Mlfq.Scheduler.AllocProc` | xv6/proc.c:99-115 | The first unused slot, at level 3 with all counters zero. |
| `Mlfq.Scheduler.Select` | xv6/proc.c:420-433 | The runnable process of lowest index on the highest occupied level, or none if none is runnable. |
| `Mlfq.Scheduler.WaitAll` | xv6/proc.c:457-465 | Every other runnable process waits one tick more on its level. |
| `Mlfq.Scheduler.BoostAll` | xv6/proc.c:467-485 | Exactly the runnable processes below level 3 whose wait on their level has reached 500, 320 or 160 move up one level, with all four wait counters cleared; nothing else changes. |
| `Mlfq.Scheduler.Round` | xv6/proc.c:418-486 | A whole round of the MLFQ branch is the round relation of the run theorems, and slot by slot: a level rises, by one, exactly for a runnable process that has waited 500, 320 or 160 rounds there; it falls, by one, exactly for the chosen process whose ticks there have reached 32, 16 or 8; the wait counters are cleared by either, and otherwise grow by one for those left waiting. |
| `Starvation.NoStarvation` | xv6/proc.c:418-486 | Under policies 1 and 2, from any counters, a process that stays runnable is chosen within 1737 rounds whatever the others do, sleeping, being woken and exiting included, and within 1300 if none of them ends a turn by sleeping. |
| `Starvation.ReachesTop` | xv6/proc.c:467-485 | A runnable process that is not chosen comes one round nearer to the top level with every round, and it is never more than 980 away. |
| `Starvation.TopIsServed` | xv6/proc.c:420-455 | On the top level it is chosen within 757 rounds, or 320 if nobody sleeps, since each turn of another process there costs ticks that never go down, and a demoted one is away for 160 rounds. |
| `Starvation.NoOverflow` | xv6/proc.c:446-463 | Counters grow by at most two a round, so 32 bits last for a billion rounds. |
| `Demotion.PolicyThreeBound` | xv6/proc.c:436-455 | With every CPU under policy 3 a process's level never rises and it collects at most one tick more than the threshold on each level above 0. |
| `Demotion.BoundIsTight` | xv6/proc.c:519-529 | One run, of turns cut short by sleeping and one full turn per level, collects that extra tick on all three levels. |
| `SleepLock.NoLostWakeup` | xv6/sleeplock.c:22-42 | In every state of every interleaving, whatever other sleep locks the processes hold, a process asleep on a sleep lock has an owner or a releaser that will still wake it; with the spin lock free, the sleep lock is taken. |
| `SleepLock.MutualExclusion` | xv6/sleeplock.c:22-32 | Each sleep lock is held by at most one process, and a process may hold any number of them. |
| `SleepLock.AcquireReturns` | xv6/sleeplock.c:22-32 | Over every run: a process that has called acquiresleep and comes back holds the lock on top of all it held, and the lock is taken. |
| `SleepLock.ReleaseReturns` | xv6/sleeplock.c:34-42 | A process that has called releasesleep and comes back holds everything it held but that lock. |
| `SleepLock.ExclusiveUse` | xv6/sleeplock.c:22-42 | Two processes that have come back from acquiresleep on one lock, and have not begun to release it, are the same process. |
| `SleepLock.NoDeadlock` | xv6/proc.c:554-590 | While any process is in the middle of an operation on a sleep lock, some such process can take its next step. |
| `SleepLock.StepKeepsInv` | xv6/proc.c:554-611 | Every step of acquire, release, sleep, wakeup and kill keeps the invariant behind these. |
| `Processes.ProcTable.constructor` | xv6/proc.c:145-156 | At boot there is one runnable process, init, with pid 1; the next pid is 2. |
| `Processes.ProcTable.Wakeup1` | xv6/proc.c:595-603 | Exactly the sleepers on the channel become runnable; every other slot, and every other field of theirs, is as it was. |
| `Processes.ProcTable.Exit` | xv6/proc.c:280-327 | The process becomes a zombie, its children become init's, its parent is woken, and init is woken exactly when it inherits a zombie; no other field of any slot changes; panics exactly for init. |
| `Processes.ExitForgetsNone` | xv6/proc.c:304-325 | After exit no process asleep in wait has a zombie child, reparented ones included. |
| `Processes.ExitKeepsTree` | xv6/proc.c:309-318 | After exit every process still has a live parent. |
| `Processes.ProcTable.Wait` | xv6/proc.c:331-374 | Reaps the first zombie child if there is one, gives up exactly when there are no children or the caller is killed, and sleeps otherwise. |
| `Processes.ProcTable.Fork` | xv6/proc.c:231-274 | The first unused slot becomes a runnable child with a new pid and the slot's old killed flag; a failed attempt leaves it unused. |
| `Processes.ProcTable.Kill` | xv6/proc.c:616-635 | Marks the first slot with the pid, makes it runnable if it sleeps, and changes nothing else; fails exactly when no slot has the pid. |
| `Processes.ProcTable.Wakeup` | xv6/proc.c:606-611 | The same as wakeup1, keeping the table valid. |
| `Processes.ProcTable.Sleep` | xv6/proc.c:554-578 | The caller sleeps on the object. |
| `Processes.SameTreeKeeps` | xv6/proc.c:554-635 | Changes of state that keep pids and parents, and start no wait with a zombie child, keep the table valid. |
| `Processes.ReachesInit` | xv6/proc.c:309-318 | Following parents from any used slot ends at init: the processes form one tree. |
| `Processes.StaleKill` | xv6/proc.c:616-635 | A run in which kill(0) makes the next child start out killed. |
| `Pipe.PipeState.constructor` | xv6/pipe.c:33-37 | An empty pipe with both ends open. |
| `Pipe.PipeState.Write` | xv6/pipe.c:78-98 | What is taken is appended to the stream; it stops short only at a full pipe, fails exactly then for a killed writer or a closed read end, and leaves sleeping readers unserved in exactly one case; readers and writers are never asleep at the same time. |
| `Pipe.PipeState.Read` | xv6/pipe.c:100-121 | What is delivered is the next stretch of the stream; nothing is delivered only from a drained pipe whose write end is closed; readers and writers are never asleep at the same time. |
| `Pipe.PipeState.Close` | xv6/pipe.c:59-75 | The other end's sleepers are woken; the pipe is freed exactly at the second close. |
| `Pipe.Stranded` | xv6/pipe.c:85-89 | A run that leaves a reader asleep in front of a full pipe. |
| `Streams.SlotOf` | xv6/pipe.c:93 | Since 512 and 128 divide 2^32, a wrapped counter still names the slot of its character. |
| `Streams.Distance` | xv6/pipe.c:85 | Wrapped counters still tell an empty ring and a full ring from all others. |
| `Console.ConsoleInput.Intr` | xv6/console.c:222-259 | The edited text changes as the key says, a line end or a full buffer commits it and wakes the readers; a full buffer is always a committed one. |
| `Console.ConsoleInput.KillLine` | xv6/console.c:234-240 | The line kill erases exactly the uncommitted text. |
| `Console.ConsoleInput.Read` | xv6/console.c:266-302 | Delivers the committed text up to its next newline or ^D and no further; the ^D is consumed exactly by a call that delivers nothing. |
| `Console.TakenIsALine` | xv6/console.c:284-296 | What is delivered holds no ^D and a newline at most at its end, and could not be longer. |
| `Malloc.RoomIff` | xv6/umalloc.c:69 | The block has room for the bytes asked for if and only if the rounding does not wrap. |
| `Malloc.BackedIff` | xv6/umalloc.c:46-57 | sbrk is asked for all the bytes of the units wanted if and only if they are fewer than 2^31; all of them are usable if and only if the process also stays below KERNBASE. |
| `Malloc.UsableIff` | xv6/umalloc.c:46-90 | A block of new memory is usable throughout and has room for the bytes asked for if and only if what is wanted fits below KERNBASE on top of the process and is less than 2^31 bytes. |
| `Malloc.UnbackedRequests` | xv6/umalloc.c:46-57 | Requests for which sbrk is asked for nothing, to shrink the process, and for more than there is below KERNBASE. |
| `Malloc.Heap.FindSpot` | xv6/umalloc.c:30-32 | The search loop ends, at the last list element below the block. |
| `Malloc.Heap.Free` | xv6/umalloc.c:24-44 | Exactly the block's units go back to the list, which stays ordered and coalesced; no byte of a live block is written and no unit is lost. |
| `Malloc.Heap.Morecore` | xv6/umalloc.c:46-61 | The new memory joins the list and there is now a large enough block; nothing changes if sbrk refuses; a block that is not all usable memory is the outcome exactly when the byte count wraps or the process would pass KERNBASE. |
| `Malloc.Heap.Search` | xv6/umalloc.c:74-89 | One way round the list finds the first block that fits, or none exactly when no block does. |
| `Malloc.Heap.Carve` | xv6/umalloc.c:75-85 | The tail of the block, or all of it, becomes a live block of the size asked for. |
| `Malloc.Heap.Malloc` | xv6/umalloc.c:63-90 | A new live block out of free units if there are enough in a row, else out of new memory, which is asked for at most once; fails exactly when neither is to be had, and gets a block that is not all usable exactly when sbrk grants a request that wraps or passes KERNBASE; no live byte is written and the heap grows by exactly what sbrk granted. |
| `Malloc.Heap.Store` | xv6/umalloc.c:11-22 | The caller's writes to its block do not disturb the allocator. |
| `Malloc.FreedGood` | xv6/umalloc.c:33-43 | The four ways of joining neighbours all keep the list ordered, coalesced and equal to the free units. |
| `Malloc.TakeTail` | xv6/umalloc.c:78-82 | Splitting a block keeps all of that. |
| `Malloc.UnitsConserved` | xv6/umalloc.c:24-90 | The units obtained from sbrk are the sizes of the free blocks plus the sizes of the live blocks. |
| `Malloc.Coalesced` | xv6/umalloc.c:33-42 | Two free units next to each other are always in one block. |
| `Malloc.AllFreed` | xv6/umalloc.c:24-44 | Once every unit is free again the list is a single block. |
| `ShellLexer.GetToken` | xv6/sh.c:265-308 | The next token of the line, its end points, and the rest of the line. |
| `ShellLexer.Peek` | xv6/sh.c:310-320 | Whether the next token starts with one of the symbols. |
| `ShellLexer.TokensUnique` | xv6/sh.c:265-308 | Which token sequences a line has: every character that is not white space lies in exactly one token and no white space in any, a symbol is its one character or >>, words do not touch and > is not followed by >. For every line exactly one sequence has these properties, the scanner's. |
| `ShellLexer.TokensAreMaximal` | xv6/sh.c:295-299 | Every word is as long as it can be. |
| `ShellLexer.ScanRender` | xv6/sh.c:265-308 | Scanning printed token texts gives them back in order. |
| `ShellGrammar.LineSound` | xv6/sh.c:344-446 | What the parser accepts is what the grammar derives, with at most nine words to a command. |
| `ShellGrammar.LineComplete` | xv6/sh.c:344-446 | What the grammar derives is accepted, with the same derivation. |
| `ShellGrammar.AcceptsGrammar` | xv6/sh.c:327-342 | A line is accepted exactly when the grammar derives it, and the derivation is unique. |
| `ShellParser.ParseRedirections` | xv6/sh.c:374-397 | The redirections at the cursor, or a panic exactly when a file name is missing. |
| `ShellParser.ParseWords` | xv6/sh.c:429-445 | The words and redirections of a command, or a panic exactly for the tenth word or a stray symbol. |
| `ShellParser.ParseExecCmd` | xv6/sh.c:415-446 | The command at the cursor is the one that the derivation stands for. |
| `ShellParser.ParseBlock` | xv6/sh.c:399-413 | The same for a parenthesised one. |
| `ShellParser.ParsePipeCmd` | xv6/sh.c:361-372 | The same for a pipeline. |
| `ShellParser.ParseLineCmd` | xv6/sh.c:344-359 | The same for a line; the mutual recursion ends on every input. |
| `ShellParser.Nulterminate` | xv6/sh.c:448-493 | NULs are written at the ends of the command's words and nowhere else. |
| `ShellParser.ParseCmd` | xv6/sh.c:327-342 | The command of the unique derivation, or a panic exactly when there is none; each word then reads from the buffer as a C string equal to its token. |
| `ShellParser.WordReads` | xv6/sh.c:462-473 | No word ends inside another, so that terminating them all leaves each whole. |
| `ShellPrinter.RoundTrip` | xv6/sh.c:327-446 | Printing any command tree with at most nine words per command and redirections <, > and >>, with parentheses where needed, and parsing the text gives the same tree, each redirection with its mode and descriptor. |
| `Grep.MatchStar` | xv6/grep.c:98-106 | True exactly when some number of repetitions followed by a match of the rest exists. |
| `Grep.MatchHere` | xv6/grep.c:84-96 | True exactly when the text has a prefix that splits into pieces taken by the items of the pattern. |
| `Grep.ParseIff` | xv6/grep.c:84-96 | An item list is what the matcher reads a pattern as if and only if its items spell the pattern, with a star wherever one can be read and $ an end mark only in last place. |
| `Grep.Match` | xv6/grep.c:72-82 | True exactly when the anchored pattern matches at the start, or the unanchored one somewhere. |

## Left out

- Device and boot code, the network stack, graphics, context switching and memory fences: hardware effects; the disk is a sequence of blocks and a context switch is a scheduler step.
- The inode cache (iget, iput, ilock), path names (namex), device inodes, link counts, exec and the system call layer: plumbing around the operations modelled here.
- grep's line buffer and the shell's runcmd: input, output and process launching.
- Log: one device; the check of log_write, which the code makes before it takes the lock, is part of one atomic step.
- Log.LogState.Commit: the other processes in the cache are readers of home blocks that use one buffer at a time, as fileread does; what readers do while commit sleeps on a buffer's lock, other than letting go of it, is scheduled right after commit has the lock, which makes no difference to the buffers in use.
- Log.LogState.RecoverFromLog: runs before any other process uses the cache, as at boot.
- FileSystem: readi and writei work on the block contents that the cache of `BufferCache` presents, not through bread and brelse again; at most one process works on the file system's blocks at a time.
- Vm.Memory.Store: stores of aligned words; an unaligned one is two of them.
- Vm: memory is counted in words and frames, the free list is a sequence of frame numbers rather than links inside the pages, the kernel's memory map is a parameter, and mappages' "remap" panic is an outcome.
- Vm.Memory.Deallocuvm: the frame of a user page is freed after its entry is cleared, where the code frees it first; once the walk has read a page table outside memory or its address has wrapped round, nothing is said of what follows.
- Mlfq: policy 0, which ignores the queues; the counters are unbounded integers, which `Starvation.NoOverflow` justifies.
- Starvation.NoStarvation: one CPU, and no process is created during the run, because a new one starts on the top level with no ticks to its account.
- SleepLock: the pid field of a sleep lock, which only serves debugging.
- Processes: fork and exit are each one step; closing files, freeing the kernel stack and freeing the memory of a reaped child.
- Processes.ProcTable.Wait: one pass of its loop; a woken process calls it again.
- Pipe: copying to and from user memory is a sequence of bytes in and out.
- Console: echoing characters and the process listing itself.
- Malloc.Heap.Malloc: what happens to the heap after a block that is not all usable memory has been recorded.
- ShellParser.ParseRedirections: returns the redirections as a list and its callers wrap the command, because the code fills in the wrapped execcmd afterwards through a second pointer.
- ShellLexer: command lines hold no NUL before their end, which is what strlen makes of them.
