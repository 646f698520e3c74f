# Verified models of an extended xv6 kernel

This project models the parts of the kernel and its user programs in which most depends on order and bookkeeping, and
proves what they promise.

**Crash-safe storage.** `kernel/log.c` is a redo log per disk with transaction boundaries shared by all disks, over the
write-back buffer cache of `kernel/bio.c`. One block write is atomic and a crash may come between any two.
`CrashSpec` defines the disk after every number of writes of commit and recovery, `CacheSpec` the cache as a machine of
many processes, `BufferCache` and `Log` the code, proved to pass through exactly those states, and `LogSystem` all
interleavings of operations, group commit over several disks, crashes and reboots.

**Files and paths.** `kernel/fs.c` on the disk a transaction sees: the bitmap, direct and indirect addresses, inodes in
memory and on disk, and files as byte sequences (`FsSpec`, `FileSpec`, `FileSystem`); directories, the mount table and
path names (`PathSpec`, `Paths`), the bytes on disk as mkfs writes them (`DiskFormat`), and the working directories of processes (`WorkingDir`).

**Memory.** Three-level page tables as trees of pages (`VmSpec`, `PageTable`) and the hardware that reads them (`Mmu`), growing, copying and lazy allocation of
user memory (`UserMemory`, `LazyMemory`), runs of processes with lazy and eager growth (`LazyRuns`, `LazyProcesses`),
freeing of spaces (`VmFree`), the kernel's slab allocator (`SlabSpec`, `Kmalloc`) and the user library's circular
first-fit allocator (`HeapSpec`, `Umalloc`).

**Processes and resources.** The protocol of sleep, wakeup and kill (`SleepWakeup`, `SleepProgress`) and its wait lists
(`WaitTable`),
the priority scheduler with aging (`Aging`), and the banker's algorithm (`BankerSpec`, `BankerRuns`,
`Banker`).

**The disk driver.** The split virtqueue against a device that completes in any order (`VirtqSpec`, `VirtioDisk`).

**Language code.** The pattern matcher of grep (`Matcher`) and the shell's parser (`ShellSpec`, `ShellGrammar`,
`Shell`, `ShellRun`).

Code that updates memory is a class, or methods on one, with loops and invariants; each method's contract ties the new
state to a specification on values, about which the lemmas are proved. Protocols are machines: a state, enabled steps,
an invariant that every step keeps, and theorems over all runs.

## Where the code and its promise differ

- log_write tests for a full log before it looks for an earlier copy of the block, so an operation within its budget can
  panic by writing a block twice (`RelogCanPanic`); `LogWritePanicsIff` says exactly when.
- A refused banker_release has already given back the entries before the first bad one (`ReleaseNotAtomic`);
  `ReleaseAtomicIff` says exactly when it has not.
- banker_request takes negative entries and can grant one beyond what is held, which makes the allocation negative
  (`NegativeRequest`, `Overdraw`); `RequestValidIff` says exactly when a request leaves proper tables.
- banker_setmax takes a demand beyond all there is, after which the state is not safe; `DeclareSafeIff` says exactly when a
  declaration by a process that holds nothing keeps the state safe.
- morecore's request passes through sbrk's int, which keeps it exactly up to 2^31 - 32 bytes (`SbrkAsksEnough`).
- A directory with the mount point's name on the root disk cannot be reached by the path inodepath would print for it
  (`HiddenDirectory`); `PathRoundTripIff` says exactly which directories can. getcwd is not affected: no process can be
  in or below such a directory (`GetcwdNamesCwd`).
- vmfault refuses an address between sz and the end of its page although an eagerly allocated space has that page
  (`RefusedPastSize`); `FaultAgreesIff` and `PutIsEagerIff` say exactly for which addresses lazy and eager space agree.
- copyinstr does not fault pages in: on an untouched lazy page it fails where the process sees the empty string
  (`UntouchedString`); `StringAgreesIff` says exactly when it finds what the process sees.
- kkill leaves a victim that goes to sleep between its two looks on a wait list although it is RUNNABLE (`StaleKill`);
  `ListsExactIff` says exactly which runs keep the lists right. The next insertion of that process cuts the list or
  makes it a ring (`StaleInsertCuts`, `StaleInsertLoops`), so that later wakeups miss sleepers, or do not end if they
  wake nobody on the ring.

## Model

| member | source | states |
|---|---|---|
| CrashSpec.CommitAtomic | kernel/log.c:194-219 | After a crash behind any k block writes of commit, and any number of crashes inside recovery, the home blocks are all old if the header was not yet written and all new if it was; no other outcome. |
| CrashSpec.RecoverThroughCrashes | kernel/log.c:131-137 | Recovery interrupted any number of times at any writes ends with the home blocks that one undisturbed recovery gives, and an empty log. |
| CrashSpec.RecoverAgain | kernel/log.c:80-97 | Stopping recovery after any number of its writes does not change what a later recovery produces. |
| CrashSpec.RecoverAt | kernel/log.c:80-97 | What recovery leaves in each block, block by block: the logged copy for listed blocks, the old contents elsewhere. |
| CrashSpec.CommitFinished | kernel/log.c:210-219 | A commit that ran to its end needs no recovery: the log is empty and the new contents are in place. |
| LogHeader.RoundTrip | kernel/log.c:35-38 | The on-disk log header decodes to the list that was encoded, for every list that fits. |
| LogHeader.KernelAreaValid | kernel/log.c:100-128 | The header block format meets what the crash proofs need of an encoding. |
| LogHeader.WriteHead | kernel/log.c:117-128 | The loop over the header words produces the encoded header. |
| LogHeader.ReadHead | kernel/log.c:101-111 | The loop over the header words returns the decoded list. |
| CacheSpec.StepInv | kernel/bio.c:57-152 | Every step of every process keeps: the LRU list is a permutation of all buffers, at most one buffer per used block, reference counts equal to users plus pins, valid buffers show the logical block, and where the disk is behind a locked or pinned buffer has the newer data. |
| CacheSpec.FreshInv | kernel/bio.c:36-52 | The state after binit satisfies the invariant. |
| CacheSpec.ReadsSimpleDisk | kernel/bio.c:58-102 | In every run, a process that holds a valid buffer sees exactly the block of a disk without a cache. |
| CacheSpec.NeverRecycled | kernel/bio.c:58-136 | From bget until its own brelse, a process's buffer keeps its block, whatever the other processes do. |
| CacheSpec.HeldAlone | kernel/bio.c:98-133 | From acquiresleep to its own releasesleep a process has the buffer to itself, in every run: nobody else locks it, loads it or changes its contents. |
| CacheSpec.QuiescentDisk | kernel/bio.c:104-152 | When nothing is locked or pinned the disk itself equals the logical disk. |
| Ring.PushFrontLinks | kernel/bio.c:45-51 | Linking a node behind the head makes the doubly linked ring of the list with the node in front. |
| Ring.UnlinkLinks | kernel/bio.c:127-128 | Unlinking a node makes the ring of the list without it. |
| BufferCache.BufferCache.constructor | kernel/bio.c:36-52 | binit: the ring of all buffers, and an empty cache over the given disks. |
| BufferCache.BufferCache.FindCached | kernel/bio.c:65-72 | The forward scan finds the buffer of a block if there is one, and otherwise no buffer has it. |
| BufferCache.BufferCache.FindVictim | kernel/bio.c:76-86 | The backward scan finds the least recently used buffer without references, or every buffer has one. |
| BufferCache.BufferCache.Bget | kernel/bio.c:58-88 | bget is the Take step of the cache machine; it panics exactly when the block is not cached and every buffer is referenced. |
| BufferCache.BufferCache.Bread | kernel/bio.c:92-102 | bread returns a locked buffer with the logical block, leaves the caller's other buffers alone, and cannot fail while held and pinned buffers are fewer than the buffers. |
| BufferCache.BufferCache.Bwrite | kernel/bio.c:106-111 | bwrite is the Write step, and adds one disk state to the trace of disk states. |
| BufferCache.BufferCache.Brelse | kernel/bio.c:116-136 | brelse gives up exactly this buffer, provided it is pinned or equals the disk: the steps Unlock and Drop. |
| BufferCache.BufferCache.PutBack | kernel/bio.c:123-135 | The last user moves the buffer to the front of the ring: the Drop step. |
| CacheSpec.MostRecentFirst | kernel/bio.c:123-133 | In every run the list has the buffers in the order in which their last users released them, latest first, and behind them the never used ones as binit linked them. |
| CacheSpec.RecyclesOldest | kernel/bio.c:74-86 | In every run the buffer that a miss recycles is, of the unreferenced ones, the one released longest ago. |
| BufferCache.BufferCache.MoveToFront | kernel/bio.c:127-132 | The pointer assignments move the buffer to the front of the ring and keep the order of the others. |
| BufferCache.BufferCache.Bpin | kernel/bio.c:139-144 | bpin is the Pin step. |
| BufferCache.BufferCache.Bunpin | kernel/bio.c:147-152 | bunpin is the Unpin step. |
| BufferCache.RoomLeft | kernel/bio.c:76-87 | With more buffers than are held or pinned, some buffer is unreferenced, so the bget panic is not reached. |
| Log.Log.WriteLog | kernel/log.c:195-207 | write_log copies each logged block to its log slot; the disk passes through exactly the states of LogTrace, and it succeeds when two buffers beyond the pinned ones exist. |
| Log.Log.InstallTrans | kernel/log.c:80-97 | install_trans copies each log slot to its home block and, outside recovery, unpins it; the disk passes through exactly InstallTrace. |
| Log.Log.WriteHead | kernel/log.c:117-128 | write_head is one block write that puts the list into the header block. |
| Log.Log.CopyToLog | kernel/log.c:200-205 | One round of write_log copies the cached block to its log slot with one block write. |
| Log.Log.CopyFromLog | kernel/log.c:88-95 | One round of install_trans copies the log slot home with one block write, and unpins outside recovery. |
| Log.Log.Commit | kernel/log.c:210-219 | commit passes through exactly the disk states of CommitTrace, also when it stops half-way; when it ends the list is empty and the blocks are unpinned. |
| Log.Log.ReadHead | kernel/log.c:101-111 | read_head loads the list the header block encodes and writes nothing. |
| Log.Log.RecoverFromLog | kernel/log.c:131-137 | recover_from_log passes through exactly RecoverTrace and leaves cache and disk equal with an empty log. |
| Log.Log.LogWrite | kernel/log.c:250-263 | log_write absorbs a listed block, else appends and pins it; it panics exactly when the list is full, which it tests first. |
| Log.CommitTraceAtomic | kernel/log.c:210-219 | Every disk state commit passes through recovers, through any crashes of recovery, to the whole old or whole new contents; other disks are untouched. |
| Log.CommitMakesDurable | kernel/log.c:210-219 | If disk and logical disk differ only in listed blocks, a whole commit makes the home blocks on disk the logical ones. |
| LogSystem.StepInv | kernel/log.c:141-264 | Every step of the machine of operations, disks, commits, crashes and reboots keeps the invariant that ties disks to complete operations. |
| LogSystem.CrashShowsWholeOps | kernel/log.c:141-226 | Over all interleavings: a crash at any moment, with any crashes of recovery, shows on each disk exactly the log_writes of complete operations, in order, and nothing of an open one. |
| LogSystem.EndedOpsSurvive | kernel/log.c:176-189 | Durability, over all runs: with no operation open and no commit under way, a crash, with any crashes of recovery, shows every log_write of every operation on every disk. |
| LogSystem.CommitEnds | kernel/log.c:209-226 | A group commit that has begun comes to its end by its own steps alone, in exactly as many as its block writes and disks take; it loses and adds nothing. |
| LogSystem.RecoveryEnds | kernel/log.c:130-137 | From any crash of any run recovery, left alone, comes to its end, with the contents that the crash left to produce. |
| LogSystem.EarlierDisksFirst | kernel/log.c:221-226 | After a crash in commit_all, a later disk shows its new contents only if every earlier disk does. |
| LogSystem.CommitRunsAlone | kernel/log.c:166-191 | While committing, no operation is open, none begins, and the logs and logical disks do not change. |
| LogSystem.EndOpNeverPanics | kernel/log.c:172-175 | end_op never finds a commit in progress. |
| LogSystem.StepSpace | kernel/log.c:146-159 | Every step keeps the reservation: logged blocks plus what open operations may still add fit in the log, also between begin_op's per-disk checks. |
| LogSystem.WithinBudgetNeverFull | kernel/log.c:250-252 | An operation within MAXOPBLOCKS that writes a block it has not written before never hits the full-log panic. |
| LogSystem.LogWritePanicsIff | kernel/log.c:250-262 | A log_write panics exactly when the log is full, and in a run that happens only for a block the operation wrote before. |
| LogSystem.RelogCanPanic | kernel/log.c:251-257 | For any number of disks and a log that takes exactly n operations: n operations begin, each logs MAXOPBLOCKS blocks, all different, and any of them that logs any of its blocks again panics, because the full test precedes the absorption search. |
| LogSystem.RebootShowsWholeOps | kernel/log.c:131-137 | A reboot, through any number of crashes, starts from the contents after a prefix of complete operations. |
| FsSpec.WithMarkAt | kernel/fs.c:182-186 | Setting or clearing one bitmap bit changes that block's mark and no other. |
| FsSpec.GrownInv | kernel/fs.c:592-630 | Giving a free block to an empty address slot keeps: marks exactly on owned and metadata blocks, no block owned twice, files without holes; and leaves all that was there. |
| FsSpec.ExtendsBytes | kernel/fs.c:592-630 | Growing one inode changes no byte of any file. |
| FsSpec.SameShapeInv | kernel/fs.c:716-749 | Writes that change no address and no mark keep the volume invariant. |
| FileSystem.Volume.Balloc | kernel/fs.c:173-196 | balloc marks and zeroes the first unmarked block, or returns 0 when every block is marked. |
| FileSystem.Volume.Bfree | kernel/fs.c:200-214 | bfree unmarks a block and panics exactly when it is not marked. |
| FileSystem.Volume.Bmap | kernel/fs.c:592-630 | bmap returns the block of the file's bn-th block, allocating block and indirect block as needed; 0 only when the disk is full; files and other inodes are as before. |
| FileSystem.Volume.MapDirect | kernel/fs.c:598-606 | An address in the inode: found, or a new zeroed block is linked there, or the disk is full. |
| FileSystem.Volume.MapIndirect | kernel/fs.c:618-627 | An entry of the indirect block: found, or a new zeroed block is linked there, or the disk is full. |
| FileSystem.Volume.TruncDirect | kernel/fs.c:641-646 | The direct blocks are unmarked without a panic, and nothing else. |
| FileSystem.Volume.TruncIndirect | kernel/fs.c:648-657 | The blocks of the indirect block and the block itself are unmarked without a panic, and nothing else. |
| FileSystem.Volume.FreeEntries | kernel/fs.c:650-654 | The blocks named in the indirect block are unmarked without a panic, and nothing else. |
| FileSystem.Volume.Iupdate | kernel/fs.c:391-407 | iupdate writes the inode's size and addresses to its place in the inode blocks. |
| FileSpec.UpdatedSynced | kernel/fs.c:391-407 | After iupdate the inode on disk equals the one in memory and every other inode on disk is unchanged. |
| FileSystem.Volume.Itrunc | kernel/fs.c:635-662 | itrunc never frees a free block, unmarks exactly the file's blocks, empties the inode in memory and on disk, and keeps the volume invariant. |
| FileSpec.TruncatedBytes | kernel/fs.c:635-662 | Truncation empties this file and leaves the contents of every other file. |
| FileSpec.TruncatedInv | kernel/fs.c:635-662 | Truncation keeps the volume invariant, with marks exactly on owned and metadata blocks. |
| FileSpec.NextMarked | kernel/fs.c:641-657 | When itrunc comes to a block it is still marked: no block is freed twice. |
| FileSystem.Volume.Readi | kernel/fs.c:681-706 | readi returns exactly the file's bytes in the range cut at the file size, nothing for a bad range, and allocates nothing. |
| FileSystem.Volume.Writei | kernel/fs.c:716-749 | writei returns -1 exactly for a bad range; otherwise it splices in exactly the bytes it reports, all unless the disk is full, extends the size, stores the inode, and leaves the other files. |
| FileSystem.Volume.WriteChunk | kernel/fs.c:726-738 | One round of the write loop splices one piece into one block, or the disk is full and no byte has changed. |
| FileSpec.ChunkWritten | kernel/fs.c:730-737 | Patching one data block splices the file's bytes at that offset and keeps the invariant. |
| FileSpec.ChunkElsewhere | kernel/fs.c:730-737 | Patching a data block of one file changes no byte of another. |
| FileSpec.SpliceReadBack | kernel/fs.c:681-749 | Bytes spliced in at an offset are the bytes read back from there; all others stay, and the length grows only as far as was written. |
| FileSpec.FormattedInv | mkfs/mkfs.c:242-255 | A volume with empty inodes whose bitmap marks the used blocks satisfies the invariant. |
| DiskFormat.BitmapOfMkfs | mkfs/mkfs.c:242-255 | A volume with its first n blocks marked has, byte for byte, the bitmap that mkfs writes. |
| DiskFormat.FileOnDisk | mkfs/mkfs.c:260-301 | The size and every byte of a file are found from the bytes on disk alone where mkfs puts them: inode fields, twelve direct addresses, the indirect block, least significant byte first. |
| Paths.SkipElem | kernel/fs.c:835-857 | skipelem splits off the first element, clipped to 14 bytes, and stops exactly at the end of the path. |
| Paths.LookUp | kernel/fs.c:764-787 | dirlookup finds the first used entry with the name. |
| Paths.NameByInum | kernel/fs.c:950-971 | dirent_name_by_inum finds the first entry for the inode that is not . or .. |
| Paths.NextDir | kernel/fs.c:885-893 | One element of namex: across a mount in either direction, or to an entry. |
| Paths.Namex | kernel/fs.c:867-904 | namex resolves the elements of the path from the root or the working directory; with nameiparent it returns the directory of the last element and its name. |
| Paths.UpOne | kernel/fs.c:107-138 | One round of the walk up: the parent and the name there, across a mount, or failure. |
| Paths.Collect | kernel/fs.c:107-146 | The walk up fills the buffer from its end with the joined names, or no walk that reaches the root fits. |
| Paths.InodePath | kernel/fs.c:89-154 | inodepath succeeds exactly when the walk up reaches the root and the text fits; the buffer then holds the text and a NUL. It ends for every directory tree. |
| PathSpec.ElementsPrinted | kernel/fs.c:835-857 | Splitting a printed path gives back its names. |
| PathSpec.ElementsSplit | kernel/fs.c:835-857 | The elements of two paths with a slash between are those of the one and then those of the other. |
| PathSpec.AbsolutePath | kernel/fs.c:872-873 | A path with a slash in front names the same for every working directory: what the rest names in the root. |
| PathSpec.RelativePath | kernel/fs.c:874-904 | A path without one is walked from the working directory, and what follows a slash from where the front led. |
| PathSpec.PathRoundTripIff | kernel/fs.c:89-154 | In a tree with proper and unique names, from whatever working directory, namex of what inodepath prints is the same directory if and only if that directory does not lie on the root disk under the mount point's name. |
| PathSpec.HiddenDirectory | kernel/fs.c:42-44 | A directory named disk1 on the root disk, in which no process can be (GetcwdNamesCwd), would be printed as a path that names the other disk's root. |
| WorkingDir.ShadowedProper | user/init.c:28 | The tree with that directory, which init makes, is a proper tree. |
| WorkingDir.StepListed | kernel/fs.c:867-904 | In a proper tree one path element takes a process from a directory whose walk up reaches the root in sight of the mount to another such directory: down, up, in place, or across the mount either way. |
| WorkingDir.GetcwdNamesCwd | kernel/sysfile.c:419-466 | After any chdirs in a proper tree, inodepath's walk from the working directory reaches the root, not by way of a hidden directory, and namex of the path printed, in any process, is the working directory. |
| WorkingDir.Process.SysChdir | kernel/sysfile.c:419-441 | chdir moves to the directory the path names or fails and stays; in a proper tree the process stays where getcwd can print it. |
| WorkingDir.Process.SysGetcwd | kernel/sysfile.c:444-466 | getcwd fails only for want of room; what it returns is a NUL-terminated path that names the working directory in every process. |
| PathSpec.LeadsOnce | kernel/fs.c:107-138 | The walk up from a directory is determined by where it starts. |
| VmSpec.PteRoundTrip | kernel/riscv.h:375-380 | A page table entry gives back the page number and flags it was made of. |
| VmSpec.PteBits | kernel/riscv.h:368-372 | The tests of the flags find the bits that the constants name, in every entry. |
| Mmu.HardwareFindsLeaf | kernel/vm.c:102-119 | Address translation as Sv39 defines it, on bits and table pages alone, finds for every page of a space exactly the entry that walk finds. |
| Mmu.GrownAccess | kernel/vm.c:218-242 | The process can read every page that uvmalloc mapped, and write or execute it exactly as asked for. |
| Mmu.FaultAccess | kernel/vm.c:449-469 | The process can read and write the page that vmfault mapped. |
| VmSpec.PxInjective | kernel/riscv.h:382-385 | Below MAXVA the three indices determine the page. |
| VmSpec.ExtendedInv | kernel/vm.c:102-119 | Adding a table page changes no mapping in any space and keeps the tables trees that share no page. |
| VmSpec.GrabbedInv | kernel/kalloc.c:70-83 | A page taken from the free list for data is mapped nowhere, and the invariant is kept. |
| VmSpec.ReleasedInv | kernel/kalloc.c:47-64 | Freeing a data page that nothing maps keeps the invariant and all mappings. |
| VmSpec.WrittenInv | kernel/vm.c:161-165 | Writing the entry of a page changes that mapping only. |
| PageTable.Vm.Walk | kernel/vm.c:102-119 | walk finds the entry of a page, making missing tables if asked; it fails exactly when tables are missing and may not or cannot be made; no mapping changes. |
| PageTable.Vm.Kalloc | kernel/kalloc.c:70-83 | kalloc takes the head of the free list, or there is none. |
| PageTable.Vm.Kfree | kernel/kalloc.c:47-64 | kfree puts the page at the head of the free list. |
| PageTable.Vm.Mappages | kernel/vm.c:146-174 | mappages adds exactly its range on success; on failure exactly the pages before the one for which no table could be had; two free pages for each page are always enough. |
| PageTable.Vm.MapOne | kernel/vm.c:158-172 | One round of mappages maps one page exactly when the missing tables can be had. |
| PageTable.Vm.UnmapOne | kernel/vm.c:199-212 | One round of uvmunmap clears one mapping and frees its page if asked. |
| PageTable.Vm.Uvmunmap | kernel/vm.c:192-213 | uvmunmap removes exactly the mappings of its range, and with do_free exactly their pages become free, each once. |
| UserMemory.MapNew | kernel/vm.c:228-239 | Taking, filling and mapping one page works exactly when there are enough free pages for it and its tables; otherwise mappings and data are as before. |
| UserMemory.Uvmdealloc | kernel/vm.c:249-260 | uvmdealloc unmaps and frees exactly the pages between the two sizes. |
| UserMemory.Uvmalloc | kernel/vm.c:218-242 | uvmalloc adds zeroed pages exactly between the two sizes, or leaves all mappings and data pages as they were; it cannot fail with three free pages for each page, and fails only if no more pages are left free than were asked for. |
| UserMemory.Uvmcopy | kernel/vm.c:296-323 | uvmcopy gives the child a copy of every mapped page below sz with its flags, or leaves all mappings and data pages as they were, so every data page it took is back; it cannot fail with three free pages for each page, and fails only if no more pages are left free than were asked for. |
| UserMemory.AddedUndone | kernel/vm.c:218-323 | Unmapping what was added brings back the old mappings and exactly the old data pages. |
| LazyMemory.Vmfault | kernel/vm.c:449-469 | vmfault maps a zeroed page exactly when the address is below sz, unmapped, and pages suffice; what the process sees does not change. |
| LazyMemory.FaultAgreesIff | kernel/trap.c:70-74 | For a page that is not there and with pages to be had, a user access comes out as on an eagerly allocated space if and only if its address is below sz or beyond the last page. |
| LazyMemory.RefusedPastSize | kernel/vm.c:454-455 | For every address between sz and the end of its untouched page: the eager space has a zeroed page there, vmfault refuses. |
| LazyMemory.PastSizeExists | kernel/vm.c:454-456 | Such addresses exist exactly for sizes that do not end on a page. |
| LazyMemory.Reach | kernel/vm.c:351-358 | walkaddr and then vmfault reach exactly the pages an eagerly allocated space gives the process, unless the page is missing and no more than one page is left. |
| LazyMemory.Copyin | kernel/vm.c:380-402 | copyin returns the bytes an eagerly allocated space would have; it fails only at a page the process may not touch, or at a missing page with no more than one page left. |
| LazyMemory.Copyout | kernel/vm.c:342-374 | copyout writes the bytes an eagerly allocated space would get, to pages the process may write only; it stops at the first page the process may not write, or at a missing page with no more than one page left. |
| LazyMemory.FlagsDecide | kernel/vm.c:123-137 | The kernel copies from and to a page of a process exactly if its U bit is set, and to it only if its W bit is set as well. |
| LazyMemory.GrownStore | kernel/vm.c:359-362 | copyout stores into a page that uvmalloc mapped exactly if it was asked for with PTE_W. |
| LazyMemory.TextStays | kernel/vm.c:359-362 | copyout to a page of program text stores nothing, and no byte that the process sees changes. |
| LazyMemory.Copyinstr | kernel/vm.c:408-444 | copyinstr returns the string an eagerly allocated space would have if and only if it ends within max bytes and every page up to that of its NUL is mapped already; it changes nothing. |
| LazyMemory.TakeToNul | kernel/vm.c:422-437 | The inner loop takes the bytes before the first NUL of the page, or all it may take. |
| LazyMemory.UntouchedString | kernel/vm.c:415-417 | On every page that was grown lazily and not touched the process sees the empty string, and copyinstr fails. |
| LazyMemory.StringAgreesIff | kernel/vm.c:408-444 | copyinstr finds a string that the process sees if and only if all pages of the string are there. |
| LazyRuns.LazyGrowth | kernel/sysproc.c:69-77 | A lazy sbrk keeps what the process sees below the old size and shows zeros above it. |
| LazyRuns.EagerGrowth | kernel/proc.c:383-401 | An eager sbrk shows the process the same memory as a lazy one. |
| LazyRuns.Shrinking | kernel/vm.c:249-260 | Shrinking keeps what the process sees below the new size and clears it above. |
| LazyRuns.Forked | kernel/vm.c:296-323 | After fork the child sees what the parent sees, although only the pages that are there were copied. |
| LazyRuns.ForkCopies | kernel/proc.c:406-423 | fork adds one process whose memory is what the parent had at that moment, whatever the parent and others do afterwards, and the parent's is not touched by what the child does. |
| LazyRuns.LazyIsEager | kernel/sysproc.c:55-80 | Over any run of any number of processes that grow, shrink, fault, write and fork, growing lazily shows every process the same memory as growing eagerly, as long as user stores do not go to a missing page past the size. |
| LazyRuns.PutIsEagerIff | kernel/trap.c:70-74 | A user store does to the lazy space what it does to the eager one, for every byte, if and only if it does not go to a missing page between the size and the end of that page. |
| LazyRuns.PutRefused | kernel/trap.c:70-74 | The store that shows it: the eager space has the byte, the lazy one is as before. |
| LazyProcesses.StepShows | kernel/vm.c:296-469 | Every operation on the page tables, by the promises of uvmalloc, uvmdealloc, vmfault, uvmcopy and a write by the kernel or the user, is the operation on the spaces, and leaves the other spaces. |
| LazyProcesses.UserStored | kernel/trap.c:70-74 | A user store on the tables, with or without the fault, is the store on the space. |
| LazyProcesses.TablesShowEager | kernel/vm.c:218-469 | After any run on the page tables, every page of every process is as if each sbrk had allocated and zeroed its pages at once. |
| LazyProcesses.ForkShows | kernel/vm.c:296-323 | The space that uvmcopy filled shows the same pages as its source. |
| VmFree.Freewalk | kernel/vm.c:265-280 | freewalk on a tree without mappings returns every table page once and meets no leaf. |
| VmFree.Uvmfree | kernel/vm.c:284-289 | uvmfree returns every data page of the space and every table page of it to the pool once, without a panic, when nothing is mapped above sz; other spaces are untouched. |
| VmFree.Uvmcreate | kernel/vm.c:178-186 | uvmcreate makes a space without mappings, or there is no free page. |
| VmFree.CreatedInv | kernel/vm.c:178-186 | Adding an empty space keeps the invariant, all mappings and the set of all pages. |
| VmFree.DroppedInv | kernel/vm.c:265-289 | Removing a space keeps the invariant and the set of all pages. |
| VmFree.EmptyInv | kernel/kalloc.c:27-44 | The pool as kinit leaves it, with no space yet, satisfies the invariant. |
| Kmalloc.Kheap.constructor | kernel/kmalloc.c:210-221 | kheapinit: an empty heap over a pool of pages satisfies the slab invariant. |
| Kmalloc.Kheap.ClassIndex | kernel/kmalloc.c:71-78 | The smallest class that has n bytes, none above 2048. |
| Kmalloc.Kheap.FindPage | kernel/kmalloc.c:128-135 | A page of the class with a free object, or none has one. |
| Kmalloc.Kheap.GrowClass | kernel/kmalloc.c:138-175 | A free page is cut into objects and joins the class, or there is no free page. |
| Kmalloc.Kheap.AllocBig | kernel/kmalloc.c:178-207 | A page of its own for a big object; fails exactly for too many bytes or no page. |
| Kmalloc.Kheap.Alloc | kernel/kmalloc.c:224-260 | kmalloc hands out an object of at least n bytes that was not in use, of the smallest class with room, or on a page of its own; it takes a page exactly when its class has no room, and fails exactly for 0, too many bytes, or when a page is needed and there is none; no panic. |
| Kmalloc.Kheap.Free | kernel/kmalloc.c:263-327 | kmfree of an object in use takes exactly it out of use, without a panic, and keeps the invariant. |
| Kmalloc.Kheap.TakeFrom | kernel/kmalloc.c:244-259 | The first free object of a page is handed out; the counters and the page set stay right. |
| Kmalloc.Kheap.RemovePage | kernel/kmalloc.c:115-125 | class_remove_page takes exactly this page off the class list. |
| Kmalloc.Kheap.GiveTo | kernel/kmalloc.c:301-326 | The object joins its page's free list; a page without objects in use leaves its class and goes back to the pool. |
| SlabSpec.LiveInside | kernel/kmalloc.c:93-96 | An object in use lies inside one page, past the header. |
| SlabSpec.LiveDisjoint | kernel/kmalloc.c:162-168 | Two objects in use share no byte. |
| SlabSpec.HeldIffUsed | kernel/kmalloc.c:311-323 | A page is held exactly while some object of it is in use. |
| SlabSpec.AllFreed | kernel/kmalloc.c:263-327 | When everything has been freed the free list is the whole pool of pages again. |
| SlabSpec.GrownSound | kernel/kmalloc.c:138-175 | A new page keeps counters, lists and objects consistent. |
| SlabSpec.BigTakenInv | kernel/kmalloc.c:178-207 | A big object on a page of its own keeps the invariant and was not in use. |
| SlabSpec.BigGivenInv | kernel/kmalloc.c:283-299 | Giving a big object back keeps the invariant and the set of all pages. |
| SlabSpec.MovedSound | kernel/kmalloc.c:251-253 | Taking or returning one object keeps page and class counters equal to the real counts. |
| SlabSpec.ReturnedSound | kernel/kmalloc.c:311-323 | Removing a page whose objects are all free keeps the invariant and the set of all pages. |
| HeapSpec.FreedValid | user/umalloc.c:25-44 | free keeps every unit, hands back exactly its block and coalesces it with both neighbours; the list stays ordered with no two free blocks touching. |
| HeapSpec.TakenValid | user/umalloc.c:75-84 | malloc hands out one new block of exactly the units asked, keeps all others, and the list stays valid. |
| HeapSpec.BlocksDisjoint | user/umalloc.c:25-90 | No two blocks overlap, whether free or handed out. |
| HeapSpec.FreeUndoesMalloc | user/umalloc.c:25-90 | Freeing what malloc just handed out restores the free list exactly. |
| Umalloc.Allocator.Free | user/umalloc.c:25-44 | free on the circular list ends and gives exactly the freed heap, for a search that starts anywhere on the ring; freep is then the node before the block. |
| HeapSpec.MergeTiled | user/umalloc.c:33-40 | Merging two adjacent blocks keeps the blocks a tiling of the units. |
| HeapSpec.SplitTiled | user/umalloc.c:79-81 | Splitting a block keeps the blocks a tiling of the units. |
| HeapSpec.GrowTiled | user/umalloc.c:54-59 | A new region adds exactly its units as one block. |
| Umalloc.Allocator.Refill | user/umalloc.c:86-88 | The call of morecore in malloc leaves a block that is large enough, or nothing changes. |
| Umalloc.Allocator.FindPlace | user/umalloc.c:30-32 | The search of free ends at the node the block belongs behind, also when it wraps round. |
| Umalloc.Allocator.MoreCore | user/umalloc.c:47-61 | morecore adds the region as a free block large enough, and live blocks are unchanged. |
| Umalloc.Allocator.Malloc | user/umalloc.c:64-90 | malloc takes the end of the first block with room, going round from freep, and leaves freep before it; only when no block has room it asks for one region, and fails exactly if sbrk does. The block overlaps nothing, and free plus live units are what sbrk gave. |
| Umalloc.SbrkAsksEnough | user/umalloc.c:52-58 | The bytes morecore asks for survive sbrk's int exactly for requests up to 2^31 - 32 bytes. |
| Umalloc.UnitsHold | user/umalloc.c:70 | The units of a request hold a header and the bytes asked for, and no unit more. |
| Umalloc.Allocator.Search | user/umalloc.c:75-89 | The loop of malloc finds the first block with room, going round from freep; morecore is asked only when no block has any. |
| BankerSpec.StuckIsUnsafe | kernel/banker.c:56-74 | If no unfinished process can go on, no order of completions is safe. |
| BankerSpec.WorkMonotone | kernel/banker.c:66 | More finished processes leave no less to work with. |
| BankerSpec.MoveConserves | kernel/banker.c:156-160 | Granting and releasing neither create nor destroy resources. |
| BankerSpec.RequestValidIff | kernel/banker.c:148-160 | A request that passes both comparisons leaves proper tables if and only if its negative entries hand back no more than is held. |
| BankerSpec.NegativeRequest | kernel/banker.c:148-160 | A request with a negative entry that passes both comparisons and leads to no dead end of the safety check, so that Request grants it, and makes an allocation negative. |
| Banker.Overdraw | kernel/banker.c:83-177 | The same through the calls: after banker_init and banker_setmax a process that holds nothing asks for minus one, gets it, and then holds minus one. |
| BankerSpec.SafeIffNeverBlocked | kernel/banker.c:56-80 | If no way of finishing processes comes to a dead end the state is safe, and in proper tables a safe state has no dead end: the order in which is_safe looks does not matter. |
| BankerSpec.MoveBack | kernel/banker.c:166-170 | The roll-back restores the state. |
| BankerSpec.ReleaseSafe | kernel/banker.c:186-192 | Giving resources back keeps a safe state safe. |
| BankerSpec.SomeoneCanFinish | kernel/banker.c:45-80 | In a safe state some process can be granted all it still needs. |
| Banker.Banker.IsSafe | kernel/banker.c:45-80 | What is_safe returns is a safe order; when it fails, the processes it found can finish and then nobody else can. On proper tables it succeeds if and only if some safe order exists. |
| Banker.Banker.Request | kernel/banker.c:139-177 | Whatever is in the tables, banker_request grants only what is within need and available and leaves a safe state, grants all of that which leads to no dead end, and otherwise changes nothing; need stays what is left of max. In proper tables a request that hands back no more than is held is granted exactly if it is within need, available and safe, and the tables stay proper exactly if what was granted hands back no more than is held. |
| Banker.Banker.Release | kernel/banker.c:180-195 | banker_release succeeds exactly when every entry is within the allocation; a refused release has given back the entries before the first bad one. |
| Banker.Banker.Init | kernel/banker.c:83-103 | banker_init sets up an empty state for a proper number of resources and refuses others; the tables are proper exactly if no amount is negative. |
| Banker.Banker.SetMax | kernel/banker.c:106-117 | banker_setmax sets the demand and recomputes the needs, clamped at zero; in proper tables whose needs are what is left of max only this row changes, and they stay so exactly when the demand covers the allocation. |
| Banker.Banker.RecomputeNeed | kernel/banker.c:32-40 | recompute_need makes need the difference of max and allocation for all processes. |
| BankerRuns.DeclareSafeIff | kernel/banker.c:106-117 | A declaration by a process that holds nothing keeps a safe state safe if and only if it demands no more of any resource than there is in all; banker_setmax does not look. |
| BankerRuns.LessSafe | kernel/banker.c:106-117 | A declaration that leaves no more need than before keeps a safe state safe. |
| BankerRuns.ActKeeps | kernel/banker.c:106-195 | Every request, release and sensible declaration, also a refused one, keeps a safe state safe and the resources constant. |
| BankerRuns.RunStaysSafe | kernel/banker.c:106-195 | Along every run of requests, releases and sensible declarations from a safe state, such as banker_init leaves: every state is safe, resources are conserved, and someone can finish. |
| BankerRuns.ReleaseAtomicIff | kernel/banker.c:186-192 | A refused release leaves the state alone exactly when it asks for nothing before its first bad entry. |
| BankerRuns.ReleaseNotAtomic | kernel/banker.c:186-192 | A refused release that has changed the state. |
| SleepWakeup.StepInv | kernel/proc.c:1297-1391 | Every step of sleep and wakeup, and of kkill where it is clean, keeps: locks have one holder, lists and links match states, and what a waker owes. |
| SleepWakeup.NoLostWakeup | kernel/proc.c:1297-1345 | In every state reached with clean kills, whoever sleeps or is about to sleep on a true condition has a waker at work on that channel. |
| SleepWakeup.ScanLeavesNobody | kernel/proc.c:1325-1345 | At the end of a scan nobody sleeps on its channel. |
| SleepWakeup.WakeupComplete | kernel/proc.c:1325-1345 | When a wakeup ends, every sleep it found on its channel has ended and nobody sleeps there, also when channels share a bucket and kills are under way. |
| SleepProgress.SleepsUntilWoken | kernel/proc.c:1325-1391 | In every run a process stays SLEEPING on its channel until a wakeup on that channel, not merely on its bucket, or a kill of it. |
| SleepProgress.NoDeadlock | kernel/proc.c:1297-1391 | In every state reached with clean kills, while anybody has something to finish some process can take a step that is not the beginning of something new. |
| SleepProgress.StepAdvances | kernel/proc.c:1297-1391 | Every step of sleep, wakeup and kkill brings its process nearer to the end of what it has begun. |
| SleepProgress.ReadiedOnlyWhenOut | kernel/proc.c:1297-1391 | wakeup and kkill make a process RUNNABLE only once it has been switched out and its lock released, never on its way into sched. |
| SleepProgress.ReturnsLocked | kernel/proc.c:1314-1320 | A sleeper made RUNNABLE comes back with its condition lock held, for the same channel. |
| SleepWakeup.ListedIffSleeping | kernel/proc.c:149-180 | In every state reached with clean kills a process is on a wait list exactly while it is SLEEPING, once, on its channel's bucket. |
| SleepWakeup.KillKeepsListsIff | kernel/proc.c:1364-1386 | The second half of kkill keeps the wait lists exact if and only if the victim is awake or linked to the bucket that the first half read. |
| SleepWakeup.ListsExactIff | kernel/proc.c:1351-1391 | In a run the wait lists are exact in every state if and only if every kill of the run is clean. |
| SleepWakeup.StaleKill | kernel/proc.c:1364-1386 | For any two processes and any false condition: the run in which one looks at the other for kkill, the other goes to sleep and the first comes back ends with the victim RUNNABLE and still on the wait list. |
| WaitTable.Procs.constructor | kernel/proc.c:64-103 | procinit: nobody is linked. |
| WaitTable.Procs.WaitlistInsert | kernel/proc.c:156-164 | waitlist_insert links the process in front of its bucket and leaves the other lists. |
| WaitTable.Procs.WaitlistRemove | kernel/proc.c:167-180 | waitlist_remove takes exactly this process off its list, wherever it is. |
| WaitTable.RemoveUndoesInsert | kernel/proc.c:149-180 | waitlist_remove undoes waitlist_insert, link for link. |
| WaitTable.Procs.Sleep | kernel/proc.c:1297-1313 | sleep up to sched puts the process in front of its channel's bucket, SLEEPING. |
| WaitTable.Procs.Wakeup | kernel/proc.c:1325-1345 | wakeup makes RUNNABLE exactly the other processes that sleep on the channel; the rest of the bucket keeps its order. |
| WaitTable.Procs.KillLook | kernel/proc.c:1358-1367 | kkill reads the victim's bucket: that of its channel if it is SLEEPING, none otherwise. |
| WaitTable.Procs.KillEnd | kernel/proc.c:1369-1386 | The second half of kkill, on the links: what it does to state and list, and that states and links agree afterwards if and only if the victim was awake or linked to the bucket read. |
| WaitTable.StaleInsertCuts | kernel/proc.c:156-164 | A process still linked in one bucket that is inserted into another cuts off everything behind it: the walk of a later wakeup goes on into the other list and meets none of them. |
| WaitTable.StaleInsertLoops | kernel/proc.c:156-164 | One that is inserted into the same bucket again closes the list into a ring: however far the links are followed from its head they stay on it, so a wakeup that wakes nobody on the ring does not end. |
| WaitTable.SleepIsEnqueue | kernel/proc.c:1306-1310 | What sleep does to the table is the Enqueue step of the protocol. |
| WaitTable.RoundIsVisit | kernel/proc.c:1332-1343 | A round of wakeup is the Visit step of the protocol. |
| WaitTable.KillIsStep | kernel/proc.c:1369-1386 | The second half of kkill is the KillEnd step of the protocol. |
| WaitTable.Procs.Visit | kernel/proc.c:1332-1343 | One round of wakeup wakes the process exactly if it sleeps on the channel, and goes to the next on the list either way. |
| WaitTable.KeptMembers | kernel/proc.c:1332-1343 | What a wakeup leaves on the list: exactly those it does not wake. |
| VirtqSpec.StepInv | kernel/virtio_disk.c:206-289 | Every step of processes, device and interrupt handler keeps: free descriptors and chains partition the table, ring slots hold what is outstanding under 16-bit wrap, requests and buffers match; only an interrupt can panic. |
| VirtqSpec.DeviceReadsRequest | kernel/virtio_disk.c:221-243 | What the device reads from the chain is the request the process meant. |
| VirtqSpec.InterruptReads | kernel/virtio_disk.c:276-287 | The id the interrupt handler reads is a completed request with its buffer recorded; it panics if and only if the device reported an error status for that request. |
| VirtqSpec.TestsAreExact | kernel/virtio_disk.c:256-278 | The comparisons of 16-bit indices are true exactly when there is something to take. |
| VirtqSpec.ExactlyOnce | kernel/virtio_disk.c:206-289 | In every run, for any completion order, each request is reported exactly once or still on its way. |
| VirtqSpec.AvailSlotNotPending | kernel/virtio_disk.c:245-250 | An avail slot is written only when the device has taken what was in it. |
| VirtqSpec.CollectDelivers | kernel/virtio_disk.c:257-264 | When a process collects its request, buffer and medium agree, whatever failed transfers of other requests left. |
| VirtqSpec.RequestTransfers | kernel/virtio_disk.c:206-289 | Over the life of a request that succeeds, in any run: a write puts on the medium what the buffer held when it was submitted, a read puts into the buffer what the medium held then. |
| VirtqSpec.RequestGoesOn | kernel/virtio_disk.c:206-289 | In every run, while a request is on its way, the device, the interrupt handler or a process can take a step for one. |
| VirtqSpec.NotesAreExact | kernel/virtio_disk.c:241-264 | In every run the note of a buffer stands for a chain from its submission to its collection and not longer. |
| VirtioDisk.Driver.AllocDesc | kernel/virtio_disk.c:70-79 | alloc_desc takes the first free descriptor. |
| VirtioDisk.Driver.FreeDesc | kernel/virtio_disk.c:82-94 | free_desc clears and frees a descriptor and panics exactly for a bad or free one. |
| VirtioDisk.Driver.Alloc3 | kernel/virtio_disk.c:111-122 | alloc3_desc takes three descriptors, or none with everything as before when fewer are free. |
| VirtioDisk.Driver.Start | kernel/virtio_disk.c:206-256 | The first half of virtio_disk_rw is the Submit step, or fewer than three descriptors are free. |
| VirtioDisk.Driver.FreeChain | kernel/virtio_disk.c:97-108 | free_chain frees exactly the three descriptors of the chain. |
| VirtioDisk.Driver.Finish | kernel/virtio_disk.c:257-264 | The second half of virtio_disk_rw is the Collect step. |
| VirtioDisk.Driver.Intr | kernel/virtio_disk.c:267-289 | virtio_disk_intr reports the completed requests once each, in ring order, up to the first with an error status, and panics exactly if there is one. |
| VirtioDisk.Driver.ReportOne | kernel/virtio_disk.c:276-287 | One round reports the next completed request, or finds its status an error. |
| Aging.Scheduler.PrioAgingTick | kernel/proc.c:964-981 | prio_aging_tick ages every RUNNABLE process by one, not below 0, when due. |
| Aging.Scheduler.Select | kernel/proc.c:1005-1029 | The pass picks the RUNNABLE process that none is ahead of, the first in the table. |
| Aging.Scheduler.Round | kernel/proc.c:994-1070 | One round of the scheduler is the Pick step. |
| Aging.AgesForward | kernel/proc.c:964-981 | Over any run in which it is not picked, a waiting process comes forward once per aging, to priority 0 after at most MAX_PRIORITY. |
| Aging.FallsByAgings | kernel/proc.c:964-981 | Over any run the priority of any process falls by exactly the number of agings that found it RUNNABLE, to 0 and no further: who sleeps or runs does not come forward. |
| Aging.AgingsApart | kernel/proc.c:967-969 | In any run agings are at least PRIO_AGING_TICKS apart. |
| Aging.PicksSomeone | kernel/proc.c:1005-1070 | A round picks somebody if and only if somebody is RUNNABLE. |
| Aging.PicksLeast | kernel/proc.c:1005-1029 | Who is picked has the least priority, then the oldest last turn, then the oldest creation time, then the first place in the table. |
| Aging.RunsAlone | kernel/proc.c:1050-1070 | No two processes run at a time. |
| Aging.NotAgain | kernel/proc.c:1005-1029 | A process picked since is not picked before one that waits at priority 0 with an older turn. |
| Aging.PickedOnce | kernel/proc.c:1005-1029 | The choice of the pass is unique. |
| Aging.PicksOnce | kernel/proc.c:1005-1070 | While a process waits at priority 0 past its last turn, no other process is picked twice. |
| Aging.BoundedWait | kernel/proc.c:1005-1070 | Such a process gets its turn within as many picks as there are processes. |
| Matcher.MatchHere | user/grep.c:86-97 | matchhere is true if and only if some front of the text is in the language of the pattern body, all of it if the body is anchored; it ends. |
| Matcher.MatchStar | user/grep.c:101-108 | matchstar is true if and only if after some characters that fit the rest matches. |
| Matcher.Match | user/grep.c:73-82 | match is true if and only if some part of the text, anchored by ^ and $ as written, is in the language of the pattern. |
| Matcher.LanguageStep | user/grep.c:86-97 | The language of items is the concatenation of the strings of each. |
| Matcher.PlainMatch | user/grep.c:73-97 | A pattern without special characters matches exactly the lines it occurs in; with ^ it must occur at the beginning, with $ at the end, with both be the line. |
| Matcher.DotAndStar | user/grep.c:86-108 | A dot stands for any one character, and a star for any number of what is before it. |
| Shell.GetToken | user/sh.c:391-433 | gettoken returns the first of the line's remaining tokens and the place behind it. |
| Shell.Peek | user/sh.c:436-445 | peek tells whether the next token starts with one of the symbols. |
| Shell.ParseRedirs | user/sh.c:500-522 | parseredirs agrees with the parser on tokens. |
| Shell.ParseWords | user/sh.c:550-570 | The argument loop of parseexec agrees with the parser on tokens, with its limit of arguments. |
| Shell.ParseExec | user/sh.c:525-571 | parseexec and parseblock agree with the parser on tokens. |
| Shell.ParsePipe | user/sh.c:487-497 | parsepipe agrees with the parser on tokens. |
| Shell.ParseLine | user/sh.c:470-484 | parseline agrees with the parser on tokens. |
| ShellGrammar.FoundIffDerived | user/sh.c:470-571 | The parser on tokens finds a tree for all tokens if and only if it is the grammar's tree for them, so the grammar is not ambiguous. |
| ShellSpec.TokenUnique | user/sh.c:391-433 | At most one token starts at a place. |
| ShellSpec.LexLine | user/sh.c:391-433 | Every line has tokens: gettoken never gets stuck. |
| ShellSpec.LexedWords | user/sh.c:391-433 | The tokens of a line have exactly its words, each once. |
| ShellSpec.LineWords | user/sh.c:470-571 | A tree of the grammar has exactly the words of its tokens. |
| ShellRun.FirstRedirectionWins | user/sh.c:194-202 | A simple command reads from the file behind its first < and writes to the one behind its first > or >>, truncated or appended to accordingly: the parser puts the last redirection on top, and runcmd carries out the first one last. |
| Shell.NulTerminate | user/sh.c:575-618 | nulterminate puts a NUL behind every word of the tree and changes nothing else. |
| Shell.WordSurvives | user/sh.c:575-618 | The NULs spoil no word, although all spans share the line. |
| Shell.ParseCmd | user/sh.c:453-467 | parsecmd succeeds exactly for lines of the grammar and returns the tree; its words are all words of the line, and each is now a string in the buffer. |

## Left out

- WriteLog: success is promised only when two buffers beyond the pinned ones exist, because the buffers are shared by all disks; the same holds for InstallTrans, Commit and RecoverFromLog.
- The device number of begin_op and end_op, which the code ignores, and sleeping in begin_op: a blocked begin_op is a check that is repeated.
- Several processes inside the file layer at once: the model of fs.c is one process inside one transaction, with the inode lock held; bread and log_write are reads and writes of the disk that transaction sees.
- Writei: a failing copy from user memory is not modelled.
- Readi: a failing copy to user memory is not modelled.
- Iupdate: type, device numbers and link count are not modelled; the code rewrites them with their old values.
- The bitmap operations `|= m` and `&= ~m` are addition and subtraction of the bit where it is clear or set.
- The inode table (ialloc, iget, iput, ireclaim), dirlink and the system calls on files: reference counts of in-memory inodes and the creation and removal of directory entries are not modelled.
- GetcwdNamesCwd: directories are not made or removed along the run; a process in a removed directory has no path.
- SysGetcwd: a failing copy to user memory is not modelled.
- SysChdir: a path that cannot be fetched is not modelled.
- InodePath: reference counts and inode locks are not modelled; a directory's entries are names without padding.
- Kalloc: the free list is a sequence, not links inside the pages, and the junk fill is not modelled.
- Kfree: the range panic and the junk fill are not modelled.
- Uvmunmap: shared memory pages are taken to be absent.
- Mappages: the panics for unaligned and already mapped addresses are preconditions.
- Walk: the panic for an address above MAXVA is a precondition.
- uvmclear and the kernel's own page table are not modelled.
- LazyIsEager: a user store to a missing page past the size is excluded; PutIsEagerIff says what it does. User reads change nothing and are not steps; FaultAgreesIff covers them.
- TablesShowEager: copyout as a whole is not a step: a Store is what it does to one page, and Copyout alone says how far it gets. copyin and copyinstr change nothing that a process sees and are no steps. A step that lacks a page leaves mappings and data pages alone.
- RemovePage: the class list is a sequence; the surgery on its links is not modelled.
- Kheap: object free lists are sequences, not links inside pages; the zero fill of objects, locks and statistics are not modelled; stale and double frees are excluded.
- Malloc: sbrk's answer is a parameter that promises a region nobody has; above 2^31 - 32 bytes sbrk is asked for less (SbrkAsksEnough), so that this promise is more than the kernel's sbrk makes.
- Start: no two requests in flight are for the same buffer or sector, as the buffer cache's locks ensure.
- Intr: the queue has the kernel's NUM of 8 descriptors; after a failed transfer the buffer, or the sector, may hold anything.
- banker_setmax_alloc is not modelled.
- ListedIffSleeping: runs with a kill that is not clean are excluded; ListsExactIff shows that the statement fails for exactly those.
- KillEnd: the process table slot keeps its pid between the two looks of kkill, and the killed flag is not modelled.
- Aging: the set of processes is fixed along a run, so that fork, which puts a process with last_sched 0 into the table (kernel/proc.c:205-209), is not a step; affinity, several CPUs and priority changes from outside are not modelled; counters do not wrap.
- The virtqueue's initialisation and the memory barriers: steps are in program order.
- grep's reading of lines and the shell's execution of commands.
- The other schedulers, semaphores, monitors, shared memory, the network and the deadlock detector.
