# xv6: storage, memory, processes and shell, verified in Dafny

This project models the parts of the xv6 teaching kernel and its user programs whose correctness is
hardest to see from the code, and proves what they promise.  It covers

- the redo log: crash atomicity over every run, group commit, and the log's space reservations;
- the buffer cache and the memory disk under it;
- files: block ownership, contents as byte sequences, truncation, and the write budget of a transaction;
- files and log together: every disk that recovery can produce holds a consistent file system;
- directories and link counts under create, link and unlink;
- physical frames and page tables: allocation, mapping, fork's copy, copyout;
- the user heap allocator of section 8.7 of The C Programming Language, second edition;
- the process table: fork, exit, wait, sleep, wakeup and kill;
- the three-class scheduler, its tick accounting and aging;
- pipes; the shell's parser; grep's matcher.

Code that updates things in place is a class or a method with loops, proved against functions on
values; protocols are state machines over their steps, with theorems about every run.  A kernel panic
is either an outcome of the operation or a condition on its caller, as the row or the comment says.

| file | models |
|---|---|
| `Params.dfy`, `Options.dfy` | the limits of param.h and file types of stat.h; optional values |
| `Blocks.dfy` | disk blocks as bytes, 32-bit words and bits |
| `Bio.dfy` | bio.c over memide.c |
| `CrashLog.dfy`, `GroupCommit.dfy` | log.c as a state machine over single disk writes, with crashes |
| `RedoLog.dfy` | log.c as code over the buffer cache, and its refinement of the state machine |
| `FsImage.dfy`, `Fs.dfy` | fs.c's blocks and files, and filewrite of file.c |
| `CrashFs.dfy` | the inode blocks, and transactions of `Fs.dfy` on the log of `CrashLog.dfy` |
| `Links.dfy` | create, link and unlink of sysfile.c over fs.c's directories |
| `Frames.dfy`, `Vm.dfy` | kalloc.c and vm.c |
| `Heap.dfy` | umalloc.c |
| `ProcTree.dfy`, `Sched.dfy` | proc.c, with the timer part of trap.c |
| `Pipe.dfy` | pipe.c |
| `Shell.dfy`, `ShellSyntax.dfy`, `ShellParser.dfy` | the parser of sh.c: its grammar as functions, the language as it is written, and the code |
| `Grep.dfy` | the matcher of grep.c |

## Findings

Eight promises do not hold as the source's comments or types suggest.  In each case the exact condition is proved.

- **Log space.** The reservation of begin_op keeps the log within LOGSIZE, but the panic test of log_write
  compares with the log's own size less one and runs before absorption.  `GroupCommit.PanicFreeIff` gives
  the exact budget per system call; with the log size mkfs writes, `GroupCommit.MkfsLogBudget` shows that a
  panic is possible exactly when calls may log MAXOPBLOCKS = 10 blocks.  `Fs.FileSystem.WriteChunk` and
  `Fs.FileSystem.FileWrite` show that each transaction of a write logs at most 10, and at most 7 on a disk
  with one free-map block such as the one mkfs makes.
- **malloc of almost 4 GB.** The rounding wraps: `Heap.LargeEnoughIff` and `Heap.WrappedRequest`.
- **morecore.** A request of 2^28 units or more does not reach sbrk as a positive int: `Heap.SbrkGrowsIff`,
  with `Heap.NegativeRequest` for malloc(0x7FFF_FFF8), and the result BadSbrk of `Heap.Allocator.Malloc`.
- **copyout.** A page whose page-table page is missing is not refused: uva2ka reads its entry through a null
  pointer.  The result NullRead of `Vm.Memory.CopyOut` has its exact condition; `Vm.NullReads` has it for every
  address space that setupkvm and allocuvm build, and `Vm.KernelGap` for all addresses from 0x8E00_0000 up to
  0xFE00_0000, where `Vm.ArgumentInGap` says exactly which arguments of exec end up.
- **kill.** A pid of 0, or a kill between a fork's allocation and its failure, marks a free slot, and nothing
  clears the mark when the slot is taken: `ProcTree.KillZero` has the first fork of init born killed, and
  `ProcTree.KillMarksIff` says exactly in which runs free slots stay unmarked.
- **pipewrite.** A killed writer that fills the pipe leaves without waking readers:
  the last clause of `Pipe.PipeBuffer.Write`, and `Pipe.LostWakeup`.
- **Unlinked directories.** create and link in a directory that has been removed while still open break the
  link counts or the tree, and only then: the contracts of `Links.Tree.Create` and `Links.Tree.Link`, and `Links.Orphan`.
- **`>>` in the shell.** It opens its file exactly as `>` does, without appending: `Shell.PlainLine` says that no
  token list can tell the two apart, `Shell.AppendIsWrite` says it for lines, and `Shell.AppendExample` shows one.

## Model

| member | source | states |
|---|---|---|
| CrashLog.StepInv | xv6-public-master/log.c:69-233 | every begin, log_write, end, single disk write of commit or recovery, and crash keeps the relation between disk, cache and the list of transactions |
| CrashLog.RecoveredIsCommitted | xv6-public-master/log.c:69-122 | in every such state, recovering the disk yields exactly the committed transactions applied in order |
| CrashLog.CrashAtomicity | xv6-public-master/log.c:69-202 | over every run from boot, with crashes anywhere and during recovery: recovery gives all of each committed transaction and nothing else, and between crashes readers see the committed state plus the running transaction |
| CrashLog.QuietIsDurable | xv6-public-master/log.c:143-202 | over every run from boot: whenever no call runs and no commit or recovery is under way, everything readers see is on the disk and survives a crash |
| CrashLog.CommitIsOneWrite | xv6-public-master/log.c:192-202 | the transaction becomes committed at the single write of the non-empty header, with no call in progress, and at no other step |
| CrashLog.RecoveryCompletes | xv6-public-master/log.c:115-122 | recovery left alone finishes, after one write per listed block and the header, in the committed state |
| CrashLog.OneTransactionPerCall | xv6-public-master/log.c:124-174 | over every run from boot, a call with a write in one committed transaction has none in another, none pending, and is no longer running |
| GroupCommit.GroupCommitSafety | xv6-public-master/log.c:124-174 | over every run in which each call logs at most MAXOPBLOCKS blocks, whenever it asks to log or end: nothing begins, is logged or ends while a commit runs, so its panics are those of log_write alone; listed blocks are distinct, and the list plus all unspent reservations stays within LOGSIZE |
| GroupCommit.NoPanic | xv6-public-master/log.c:143-221 | a per-call budget whose peak fits the log makes the panics of log_write and of end_op unreachable |
| GroupCommit.PanicFreeIff | xv6-public-master/log.c:214-221 | panic freedom over all runs within a budget holds exactly when that peak is below LOGSIZE and below log.size - 1 |
| GroupCommit.MkfsLogBudget | xv6-public-master/log.c:214-221 | for a log of LOGSIZE blocks a panic can be reached exactly when calls may log MAXOPBLOCKS blocks |
| RedoLog.HeaderRoundTrip | xv6-public-master/log.c:85-113 | the header block written for a block list reads back as that list |
| RedoLog.HeaderLayout | xv6-public-master/log.c:84-113 | the header block word by word: the count in word 0, the block numbers in order from word 1 on, the other words as they were |
| RedoLog.FillHeader | xv6-public-master/log.c:98-113 | the same of the loop of write_head, and the list reads back |
| RedoLog.ParseHeader | xv6-public-master/log.c:84-96 | the loop of read_head returns word 0 many numbers, the i-th from word 1 + i |
| RedoLog.CommitOrder | xv6-public-master/log.c:176-202 | the order and place of every disk write of a commit: the k-th listed block to log.start + 1 + k, the header, the k-th listed block to its home, the header with count 0 |
| RedoLog.RecoverOrder | xv6-public-master/log.c:68-122 | the same for recovery: log.start + 1 + k to the k-th block the header lists, then the header with count 0 |
| RedoLog.Log.BeginOp | xv6-public-master/log.c:124-141 | a call is admitted exactly when no commit runs and its reservation fits, which is the machine's Begin step; otherwise nothing changes |
| RedoLog.Log.LogWrite | xv6-public-master/log.c:213-233 | panics exactly when the list has LOGSIZE or log.size - 1 blocks; otherwise the block number is appended unless it is listed, its buffer pinned with its new contents, and the machine takes its step |
| RedoLog.Log.EndOp | xv6-public-master/log.c:143-174 | end_op's panic is unreachable; an earlier call changes only the count; the last one commits the whole list by a run of the machine, after which every block outside the log area has on disk what readers saw; stopping its disk writes anywhere and recovering leaves every such block old, or every one new |
| RedoLog.Log.WriteLog | xv6-public-master/log.c:176-190 | the k-th disk write puts the cached contents of the k-th listed block at log.start + 1 + k, and there are no others; buffers that others hold are undisturbed |
| RedoLog.Log.WriteHead | xv6-public-master/log.c:98-113 | one disk write: block log.start has the count in word 0 and the list in the words after it, and no other block changes |
| RedoLog.Log.InstallTrans | xv6-public-master/log.c:68-82 | the k-th disk write puts the contents of log.start + 1 + k in the k-th listed block, and no buffer stays pinned |
| RedoLog.Log.Commit | xv6-public-master/log.c:192-202 | every disk write of a commit, by position, block and contents: log blocks, header, home blocks, empty header; none for an empty list; other buffers may be held |
| RedoLog.Log.RecoverFromLog | xv6-public-master/log.c:115-122 | on the disk of any crashed machine state: every disk write of recovery by position, block and contents, a run of the machine, after which the log serves and every home block has its committed contents |
| RedoLog.Log.RecoverHead | xv6-public-master/log.c:84-122 | read_head and the rest of recovery: reads the list back from the header and installs it |
| RedoLog.Restart | xv6-public-master/log.c:53-66 | a restart with an empty cache: recovery finds the buffers it needs, and leaves a log that tracks the machine, holds the committed contents and is ready to commit |
| RedoLog.CommitRun | xv6-public-master/log.c:176-202 | a commit's disk writes are a run of the state machine that ends serving, in a state with this disk and this view |
| RedoLog.CommitCrashes | xv6-public-master/log.c:176-202 | for every prefix of a commit's disk writes, also an empty commit's, recovery is all or nothing |
| RedoLog.CommitCrashPoints | xv6-public-master/log.c:176-202 | cutting commit's disk writes at any point gives a disk that a run of the state machine reaches |
| RedoLog.RecoverCrashPoints | xv6-public-master/log.c:68-122 | the same for recovery's disk writes |
| RedoLog.CommitIsAtomic | xv6-public-master/log.c:176-202 | for every machine state at the start of a commit and every number k of its disk writes that landed, recovery restores all home blocks to the old contents when the header write has not landed and to the new ones when it has |
| RedoLog.RecoveryEndsCommitted | xv6-public-master/log.c:68-122 | recovery interrupted after any number of writes and run again still ends in the committed contents |
| RedoLog.RecoveryCompletesOnDisk | xv6-public-master/log.c:115-122 | running recovery's writes on a reachable disk yields the committed contents of every home block |
| Bio.BufferCache.constructor | xv6-public-master/bio.c:38-56 | the ring links all buffers, the last one first, and none holds a block |
| Bio.BufferCache.Bget | xv6-public-master/bio.c:58-93 | at most one buffer per block; a cached block is shared and only its count changes, otherwise the least recently used unreferenced clean buffer is recycled, invalid and with one reference, and failure means there is none |
| Bio.BufferCache.Iderw | xv6-public-master/memide.c:35-60 | a dirty buffer is written to its block, a clean invalid one is filled from it |
| Bio.BufferCache.Bread | xv6-public-master/bio.c:95-106 | the last contents written to the block, through cache or disk, in a locked valid buffer with one more reference, the least recently used one if the block was not cached; waits exactly for a locked buffer of the block, and panics exactly when no buffer has the block or can be recycled |
| Bio.BufferCache.Bwrite | xv6-public-master/bio.c:108-116 | exactly one disk write, of this block; the buffer is unpinned |
| Bio.BufferCache.Pin | xv6-public-master/log.c:231-231 | a dirty mark keeps the buffer from being recycled and becomes what readers see |
| Bio.BufferCache.Brelse | xv6-public-master/bio.c:118-141 | an unreferenced buffer moves to the front of the ring and the others keep their order; otherwise the ring is unchanged; contents and pins are unchanged |
| Bio.BufferCache.CleanIsOnDisk | xv6-public-master/bio.c:58-93 | a block whose latest contents are not on disk has a dirty, hence unrecyclable, buffer |
| Blocks.WordLayout | xv6-public-master/fs.c:389-392 | word i of a block is the little-endian number in bytes 4i to 4i + 3, and storing one changes no other byte |
| Blocks.BitLayout | xv6-public-master/fs.c:66-68 | bit i of a block is worth 2 to the i % 8 in byte i / 8, and setting or clearing it changes no other byte |
| FsImage.FreeMapLayout | xv6-public-master/fs.c:64-68 | bit b of the free map is in byte b % 4096 / 8 of block bmapstart + b / 4096 |
| FsImage.ContentLayout | xv6-public-master/fs.c:372-400 | the contents of every file are its blocks one after the other, in the order direct numbers, then words of the indirect table, cut off at the size; a missing block is zeros |
| FsImage.NoHolesLayout | xv6-public-master/fs.c:372-400 | in a file without holes every block up to the size is there and none after it |
| FsImage.OwnedMeansOneReference | xv6-public-master/fs.c:53-95 | the ownership invariant in the source's terms: a free-map bit is set iff the block is metadata or stored in a slot, and no block is stored in two slots |
| FsImage.OneReferenceMeansOwned | xv6-public-master/fs.c:53-95 | the converse: an image in which the free map and the slots agree has an owner for every block |
| FsImage.EmptyImage | xv6-public-master/fs.c:53-95 | an image without files whose free map marks the metadata is such an image |
| FsImage.FilledSlot | xv6-public-master/fs.c:372-400 | storing a fresh block in an empty slot keeps ownership, every byte of every file, and every other slot |
| FsImage.DroppedOwned | xv6-public-master/fs.c:407-435 | freeing a slot's block and clearing the slot keeps ownership |
| FsImage.PatchedBytes | xv6-public-master/fs.c:498-504 | overwriting part of one data block changes those bytes of that file and no byte of any file else |
| FsImage.WroteContent | xv6-public-master/fs.c:481-511 | bytes written at an offset up to the size give the spliced, possibly longer, contents |
| FsImage.LogBudget | xv6-public-master/fs.c:481-511 | a write of blocks lo to hi logs at most its data blocks, one free-map block per new block, the table and its map block, and the inode block |
| FsImage.MissingBeyondSize | xv6-public-master/file.c:126-152 | in a file without holes an unaligned first block is already allocated |
| Fs.FileSystem.constructor | xv6-public-master/fs.c:53-95 | mounting any image with exactly one reference per used block gives a valid file system, and without holes one that transactions keep durable |
| Fs.FileSystem.Empty | xv6-public-master/fs.c:53-95 | the empty file system of any valid superblock is one |
| Fs.FileSystem.FindFree | xv6-public-master/fs.c:56-78 | finds the lowest clear bit of the free map, across its blocks, or none when all are set |
| Fs.FileSystem.Balloc | xv6-public-master/fs.c:42-78 | returns the lowest free block; in bytes: 2 to the b % 8 is added to its byte of the free map, the block is zeroed, no other byte of the disk changes, and both blocks are logged; panics exactly when no block is free |
| Fs.FileSystem.Bfree | xv6-public-master/fs.c:80-95 | takes 2 to the b % 8 away from its byte of the free map, changes no other byte of the disk, and logs the block |
| Fs.FileSystem.Bmap | xv6-public-master/fs.c:372-400 | the block number returned is addrs[bn] for the first 12 and word bn - 12 of block addrs[12] after them, allocated with its table if missing: nothing already mapped moves, no byte of any file changes, ownership holds, every changed block is logged; fails exactly when fewer blocks are free than are missing |
| Fs.FileSystem.BmapIndirect | xv6-public-master/fs.c:383-397 | the same for the blocks behind the indirect table, which is allocated only when missing |
| Fs.FileSystem.Writei | xv6-public-master/fs.c:481-511 | contents become exactly the spliced sequence, every other file and inode is unchanged; errors and panics under exact conditions, a panic exactly when the missing blocks and table outnumber the free blocks; a panic has stored a prefix up to a block boundary and not the inode; every block that changed is logged, and what else may be |
| Fs.FileSystem.Readi | xv6-public-master/fs.c:452-476 | returns exactly the requested slice clipped to the size; changes no byte of any file, and nothing at all in a file without holes; panics exactly when filling the holes it reads takes more than the free blocks |
| Fs.FileSystem.Itrunc | xv6-public-master/fs.c:402-435 | frees exactly the blocks of the file, sets its size and all 13 addrs to 0, leaves every other file, slot and block owner as it was, and logs every block it changes |
| Fs.OwnedIsUsed | xv6-public-master/fs.c:90-92 | the panic on freeing a free block is unreachable: a stored block is marked used |
| Fs.FileSystem.WriteChunk | xv6-public-master/file.c:136-146 | one transaction: every block it changed is among those it logged, which are at most MAXOPBLOCKS in a file without holes and at most 7 with one free-map block; its exact panic condition; it keeps the history durable |
| Fs.FileSystem.Truncate | xv6-public-master/fs.c:402-435 | truncation as a transaction keeps the history durable |
| Fs.FileSystem.FileWrite | xv6-public-master/file.c:116-153 | the chunks together write the whole sequence, or a prefix when the end or offset is bad, in one transaction per CHUNK bytes, each within the budget; it panics exactly when what fits needs more than the free blocks; it keeps the history durable |
| Fs.ChunkBudget | xv6-public-master/file.c:126-152 | the counting argument for one chunk, aligned or not |
| Fs.ChunkStep | xv6-public-master/file.c:126-152 | one chunk in terms of the whole write: it panics only if the whole is short of blocks, stops only where the rest does not fit, and otherwise takes what the range so far needs |
| CrashFs.DinodeRoundTrip | xv6-public-master/fs.c:220-236 | an inode stored in its inode block reads back the same |
| CrashFs.DinodeLayout | xv6-public-master/fs.h:28-42 | where every field of inode i lies on disk: 64 bytes at 64 * (i % 8) of block inodestart + i / 8, each field little-endian |
| CrashFs.DiskHolds | xv6-public-master/fs.c:220-236 | the disk of a sound file system holds exactly its inodes, its slots and its files' contents |
| CrashFs.UnloggedSame | xv6-public-master/log.c:204-233 | a transaction leaves every disk block it did not log as it was, inode blocks included |
| CrashFs.GroupCommitted | xv6-public-master/log.c:143-202 | a committed batch of whole transactions turns the disk before them into the disk after them |
| CrashFs.CrashConsistency | xv6-public-master/log.c:69-202 | over every run of the log, with crashes anywhere, whose batches are groups of whole transactions: the recovered disk has exactly one reference to each used block, no holes, and the inodes and file contents that one of the transactions left |
| CrashFs.BatchFor | xv6-public-master/log.c:204-233 | for any transaction there is such a batch, with one write per logged block |
| CrashFs.Mount | xv6-public-master/fs.c:286-312 | such a disk can be mounted, with a new durable history |
| Links.AddEntry | xv6-public-master/fs.c:550-578 | the entry that completes a link restores the counts and the shape of the tree |
| Links.NewDir | xv6-public-master/sysfile.c:262-274 | a new directory's ".." is matched by its parent's new link |
| Links.OwnLink | xv6-public-master/sysfile.c:262-279 | every linked directory has a link of its own besides its children's ".." |
| Links.EmptyDirLinks | xv6-public-master/sysfile.c:208-212 | a named inode has a link, so the nlink panic is unreachable; an empty named directory has exactly one, and its parent at least two |
| Links.UnlinkInv | xv6-public-master/sysfile.c:213-232 | removing an entry keeps every count, a directory taking its ".." with it |
| Links.LinkUnlink | xv6-public-master/sysfile.c:117-239 | unlink undoes link: every inode is as before, and every entry but the free one that was used |
| Links.FreeInv | xv6-public-master/fs.c:324-352 | freeing an inode without links keeps the counts |
| Links.UnlinkedParent | xv6-public-master/sysfile.c:118-165 | a new name in an unlinked directory always breaks the count |
| Links.UnlinkedGrandparent | xv6-public-master/sysfile.c:241-283 | a new directory in an unlinked one always breaks the tree |
| Links.Orphan | xv6-public-master/sysfile.c:241-283 | a concrete run: mkdir, rmdir, create inside |
| Links.Tree.DirLookup | xv6-public-master/fs.c:522-548 | finds the entry of a name, and fails only when there is none |
| Links.Tree.DirLink | xv6-public-master/fs.c:550-578 | refuses a name in use, otherwise stores the entry at the first free place or at the end, and changes nothing else |
| Links.Tree.IsDirEmpty | xv6-public-master/sysfile.c:167-181 | true exactly when nothing follows the two dots |
| Links.Tree.FindInode | xv6-public-master/fs.c:194-214 | the first free inode, or none when all are in use |
| Links.Tree.Create | xv6-public-master/sysfile.c:241-283 | each result's exact condition, an existing name being opened exactly when a file is asked for and found; a new inode is the first free one, with one link and, as a directory, its two dots; the parent gets the entry and, for a directory, a link; nothing else changes; nlink equals the number of names and all names are unique afterwards exactly when the parent is linked |
| Links.Tree.Link | xv6-public-master/sysfile.c:117-165 | success exactly for a non-directory and an unused name, and then one more link, one new entry, and nothing else; failure rolls back to the state before; the invariant survives exactly when the parent is linked |
| Links.Tree.Unlink | xv6-public-master/sysfile.c:183-239 | success exactly for a name other than the dots that is not a non-empty directory, and then the entry is cleared, the inode has one link fewer, the parent too if it was a directory, and nothing else changes; the invariant always survives |
| Links.Tree.Free | xv6-public-master/fs.c:332-352 | an unlinked inode can be freed at any time |
| Frames.Recolour | xv6-public-master/kalloc.c:55-95 | taking or giving back a frame that no table names changes no translation |
| Frames.NewTable | xv6-public-master/vm.c:33-55 | a new page-table page changes no translation in any address space |
| Frames.MapUser | xv6-public-master/vm.c:57-80 | mapping a held frame changes one translation and gives the frame exactly one place |
| Frames.UnmapUser | xv6-public-master/vm.c:266-276 | unmapping frees that one frame and changes that one translation |
| Frames.Retire | xv6-public-master/vm.c:281-298 | a directory without user pages can be given up with its tables without touching any other address space |
| Vm.LookupIsPhysical | xv6-public-master/mmu.h:65-80 | the translation by page numbers is the processor's: bits 31-22 index the directory, bits 21-12 the table, bits 11-0 are kept |
| Vm.LookupPermits | xv6-public-master/vm.c:48-53 | in every address space the directory entries have all permissions, so the flags of the translation alone decide what the processor lets through |
| Vm.KernelLayout | xv6-public-master/vm.c:105-116 | what the kernel's mappings mean for every 32-bit address: physical memory from 0x80000000, devices in place, nothing else, nothing for user code, and only the text write-protected |
| Vm.Memory.constructor | xv6-public-master/kalloc.c:30-53 | after initialisation every managed frame is free, once |
| Vm.Memory.Kalloc | xv6-public-master/kalloc.c:79-95 | pops the frame freed last; fails exactly when none is free |
| Vm.Memory.Kfree | xv6-public-master/kalloc.c:55-77 | the frame is on top of the free list, once, and nothing mapped changed |
| Vm.Memory.Walk | xv6-public-master/vm.c:33-55 | finds or makes the page-table page, its directory entry present, writable and for user code, without changing any translation or any data; fails exactly when the page-table page is missing and no frame is free |
| Vm.Memory.Mappages | xv6-public-master/vm.c:57-80 | exactly the pages asked for are mapped, in order, or a prefix of them; it panics on the first mapped page, runs out of memory, or succeeds, each under its exact condition on the free frames and missing page-table pages |
| Vm.Memory.NewDirectory | xv6-public-master/vm.c:120-126 | a cleared frame is a directory with no translation and no page-table page; other address spaces are untouched |
| Vm.Memory.Setupkvm | xv6-public-master/vm.c:105-136 | a new directory holds exactly the kernel's layout and page-table pages; it succeeds exactly when 65 frames are free; failure gives back every frame taken; other address spaces are untouched |
| Vm.Memory.Allocuvm | xv6-public-master/vm.c:219-249 | success, exactly when enough frames are free for the pages and their missing page-table pages, maps exactly the new pages, present, writable and for user code, each on its own frame: the range added reads as zeros and every other user byte of every address space is as before; failure restores every mapping and leaves only page-table pages behind |
| Vm.Memory.Deallocuvm | xv6-public-master/vm.c:251-279 | exactly the pages in range are unmapped and exactly their frames freed; every user byte outside the range, in every address space, is as before |
| Vm.Skipped | xv6-public-master/vm.c:267-269 | the jump over a missing page-table page does what visiting its 1024 pages would |
| Vm.Memory.Freevm | xv6-public-master/vm.c:281-298 | the directory, its page-table pages and its user frames are free, and no other frame changed hands |
| Vm.ReleaseUndoes | xv6-public-master/vm.c:118-136 | freeing a directory built since some point restores the frame map of that point |
| Vm.Memory.Copyuvm | xv6-public-master/vm.c:313-345 | success, exactly when 65 frames, one per page and one per page-table page are free: equal bytes and flags below sz on frames of the child's own, the kernel's layout above, the parent untouched; failure restores the frame map |
| Vm.Memory.CopyOut | xv6-public-master/vm.c:347-386 | writes exactly those bytes of that address space and no byte of any other, so parent and child of a fork do not see each other's writes; copies, refuses or reads through null under exact conditions on the first page not mapped for user code |
| Vm.NullReads | xv6-public-master/vm.c:349-360 | in every address space that setupkvm and allocuvm build, copying to an address without a page-table page reads through null |
| Vm.KernelGap | xv6-public-master/vm.c:105-116 | all addresses between the kernel's memory and its devices are of that kind, whatever the size of the process |
| Vm.ArgumentInGap | xv6-public-master/exec.c:70-77 | exactly the arguments more than 32 MB and at most 1824 MB longer than the stack pointer are put there |
| Vm.UserWritable | xv6-public-master/vm.c:82-86 | a page user code may touch is never in the kernel half |
| Vm.UserStore | xv6-public-master/vm.c:376-379 | a store inside one user page changes those bytes of that address space only |
| Heap.LargeEnoughIff | xv6-public-master/umalloc.c:63-69 | nunits units hold nbytes bytes exactly when the rounding does not wrap |
| Heap.WrappedRequest | xv6-public-master/umalloc.c:63-69 | the largest request gets a bare header |
| Heap.SbrkGrowsIff | xv6-public-master/umalloc.c:46-61 | sbrk is asked for the block's size exactly below 2^28 units |
| Heap.NegativeRequest | xv6-public-master/umalloc.c:46-69 | malloc(0x7FFF_FFF8) asks sbrk for a negative amount |
| Heap.BlocksDisjoint | xv6-public-master/umalloc.c:24-90 | blocks, free or handed out, never overlap |
| Heap.OneFreeList | xv6-public-master/umalloc.c:24-90 | the free list is a function of the blocks handed out: two heaps over the same memory with the same live blocks have the same free blocks, of the same sizes, linked in the same order |
| Heap.Inserted | xv6-public-master/umalloc.c:29-43 | a block put in its gap keeps the ring circular and in address order with one wrap |
| Heap.Merged | xv6-public-master/umalloc.c:33-42 | merging touching neighbours keeps the ring and every unit in one block |
| Heap.FreedOk | xv6-public-master/umalloc.c:24-44 | after free no two free blocks touch and no unit is lost |
| Heap.TookTail | xv6-public-master/umalloc.c:75-81 | splitting a free block keeps the ring and every unit in one block |
| Heap.ScanNext | xv6-public-master/umalloc.c:74-88 | having come round to freep the search has seen every free block |
| Heap.Allocator.FindPlace | xv6-public-master/umalloc.c:29-32 | the search loop ends, at the free block just below the one freed, also across the wrap |
| Heap.Allocator.Free | xv6-public-master/umalloc.c:24-44 | the invariant holds, this block alone stops being live, units are conserved, and freep is left at the last free block below it |
| Heap.Allocator.Join | xv6-public-master/umalloc.c:33-42 | free's pointer and size updates, with both merges decided on the sizes before |
| Heap.Allocator.Morecore | xv6-public-master/umalloc.c:46-61 | adds exactly the new region, as a free block large enough |
| Heap.Allocator.Malloc | xv6-public-master/umalloc.c:63-90 | terminates for every request; a new live block of nunits units, cut from the end of the first free block after freep, going round, that fits, with freep left just before it; no live block changed, units conserved; sbrk is asked at most once, only when no free block fits, and for a wrong amount exactly from 2^28 units on |
| Heap.MallocFree | xv6-public-master/umalloc.c:24-90 | free undoes malloc: unless the heap had to grow, the free blocks, their sizes and their links are what they were |
| ProcTree.StepInv | xv6-public-master/proc.c:77-330 | every lock section of fork, exit, wait, sleep, wakeup, kill, dispatch and yield keeps the invariant |
| ProcTree.ProcessTree | xv6-public-master/proc.c:195-330 | over every run from boot: pids of used slots are distinct, every started process but init has a living parent with a smaller pid, nobody sleeps in wait with a zombie child, no pid is reaped twice or while in use |
| ProcTree.AncestorsEndAtInit | xv6-public-master/proc.c:262-275 | following parents from any started process ends at init, through living processes |
| ProcTree.ExitInv | xv6-public-master/proc.c:262-285 | exit's wakeups, reparenting and state change together keep the tree and lose no waiter |
| ProcTree.GoneHistory | xv6-public-master/proc.c:300-318 | a slot leaving use moves its pid, never seen there before, to the reaped or aborted ones |
| ProcTree.WakeupStep | xv6-public-master/proc.c:485-505 | the machine's wakeup in the fields of every slot: no sleeper on the channel is left, each is runnable, nothing else changes |
| ProcTree.WakeupNotLost | xv6-public-master/proc.c:445-505 | over every run after a wakeup: a process is asleep on that channel only if it went to sleep on it again |
| ProcTree.KillStep | xv6-public-master/proc.c:507-528 | the machine's kill in the fields of every slot |
| ProcTree.AllocStep | xv6-public-master/proc.c:77-94 | the same for allocproc: the first free slot becomes an embryo with the next pid, or nothing changes |
| ProcTree.ForkMakesChild | xv6-public-master/proc.c:195-241 | a fork that succeeds makes one runnable process, in the first free slot, with the next pid and the caller as parent, and changes no other slot |
| ProcTree.ForkFails | xv6-public-master/proc.c:204-216 | a fork that fails after allocproc gives the slot back, and only the pid is used up |
| ProcTree.ExitStep | xv6-public-master/proc.c:264-285 | the same for exit: the process is a zombie, its children are init's, the parent is woken, and init exactly when a zombie was among the children |
| ProcTree.WaitStep | xv6-public-master/proc.c:288-330 | the same for wait: the first zombie child's slot is cleared and its pid returned, or the caller gives up or sleeps on itself |
| ProcTree.ProcTable.Wakeup1 | xv6-public-master/proc.c:485-496 | afterwards nobody sleeps on the channel; whoever did is runnable and otherwise as before; every other slot is unchanged |
| ProcTree.ProcTable.Allocproc | xv6-public-master/proc.c:77-100 | the first unused slot gets the next pid |
| ProcTree.ProcTable.ExitProc | xv6-public-master/proc.c:264-285 | the loop with its interleaved wakeups does the one step of the machine |
| ProcTree.ProcTable.PassChildren | xv6-public-master/proc.c:273-280 | every child goes to init, and init is woken exactly when a zombie is among them |
| ProcTree.ProcTable.WaitOnce | xv6-public-master/proc.c:288-330 | reaps the first zombie child, with a pid never reaped before, gives up, or sleeps, each under its exact condition |
| ProcTree.ProcTable.KillPid | xv6-public-master/proc.c:507-528 | the first slot with the pid is marked killed and, if it slept, runnable; nothing else in it and no other slot changes; succeeds exactly when there is one |
| ProcTree.StepUnmarkedIff | xv6-public-master/proc.c:507-528 | a step leaves every free slot unmarked exactly when it neither kills a pid that a free slot has nor fails a fork whose embryo was killed |
| ProcTree.KillMarksIff | xv6-public-master/proc.c:507-528 | over every run from boot: free slots stay unmarked exactly when no such step happens |
| ProcTree.KillZero | xv6-public-master/proc.c:507-528 | kill(0) by init right after boot succeeds, and the first process that init then forks is born killed |
| Sched.RoundRobin | xv6-public-master/proc.c:695-709 | the cyclically first ready slot from the last one on; none only when no RR process is ready |
| Sched.ShortestJobFirst | xv6-public-master/proc.c:711-730 | the least burst among the first ready slot and those sure enough of theirs, earliest of equals |
| Sched.FirstComeFirstService | xv6-public-master/proc.c:732-750 | the earliest entry time, earliest slot of equals |
| Sched.BootState | xv6-public-master/mp.c:108-114 | full budgets and the first process give a state the invariant holds in |
| Sched.Processor.constructor | xv6-public-master/proc.c:132-169 | boot builds that state |
| Sched.StepInv | xv6-public-master/proc.c:341-394 | every tick, pass, block, wake, creation and class change keeps the accounting |
| Sched.BudgetsHold | xv6-public-master/trap.c:40-49 | over every run from boot: ticks_used stays in 0..5, no class falls below -5, and none is charged more than its weight plus 5 between refills |
| Sched.PassDispatchesOrRefills | xv6-public-master/proc.c:341-394 | a pass refills exactly when no process can be dispatched: a class with budget and work always has a process its rule picks |
| Sched.OneRefillSuffices | xv6-public-master/proc.c:341-394 | in every run from boot, after a refill and any events short of a dispatch, as soon as any class has a runnable process no second refill can happen and some process can be dispatched |
| Sched.AgingPromotes | xv6-public-master/proc.c:752-776 | aging never demotes and moves one class at a time |
| Sched.ClassChange | xv6-public-master/proc.c:752-776 | for every step that neither creates a process nor moves it from outside: its class changes exactly at a tick that finds it runnable, below RR and more than STARVATION_BOUNDRY ticks past both its entry and its last run, and then by one class |
| Sched.KeepsClass | xv6-public-master/proc.c:752-776 | over every run that ends within STARVATION_BOUNDRY ticks of its entry or of its last run, a process keeps its class and entry time |
| Sched.NoEarlyPromotion | xv6-public-master/proc.c:120-124 | in every run from boot, the class a process is created in or moved to is its class for at least STARVATION_BOUNDRY ticks, whatever happens |
| Sched.AgingBound | xv6-public-master/proc.c:752-776 | in every run from boot, a process that stays runnable for 2 * (STARVATION_BOUNDRY + 1) ticks is in RR |
| Sched.Processor.SchedulerPass | xv6-public-master/proc.c:341-394 | one round is the machine's step: the process dispatched is ready and its class has budget, and no class before it with budget has a ready process; otherwise no class with budget has one, and the budgets become 30, 20 and 10 |
| Sched.Processor.Aging | xv6-public-master/proc.c:752-776 | a slot changes exactly when it is runnable, below RR, and more than STARVATION_BOUNDRY ticks past both its entry and its last run; it then goes up one class and enters it now |
| Sched.Processor.TimerTick | xv6-public-master/trap.c:92-164 | the clock goes on by one; the class of the running process, and no other, is charged one tick; the process is charged too, or after its fifth tick put back in line; aging happens first |
| Pipe.Counters | xv6-public-master/pipe.c:85-85 | the wrapping 32-bit counters tell full and empty apart |
| Pipe.PipeBuffer.Close | xv6-public-master/pipe.c:59-75 | closing an end wakes the other side's sleepers; the pipe is freed exactly when both ends are closed, with nobody asleep |
| Pipe.PipeBuffer.Write | xv6-public-master/pipe.c:77-98 | appends a prefix of the source to the bytes written; outcome conditions; the wakeup discipline survives iff the writer is not killed, or no reader slept, or at most 512 bytes remained |
| Pipe.PipeBuffer.Read | xv6-public-master/pipe.c:100-121 | delivers the oldest buffered bytes in order, as many as asked for and there; sleeps exactly on an empty open pipe; never loses a wakeup |
| Pipe.LostWakeup | xv6-public-master/pipe.c:77-98 | a concrete run that leaves a reader asleep on a full pipe |
| Shell.LexRender | xv6-public-master/sh.c:262-308 | reading a printed token list gives the tokens back |
| Shell.LineTrip | xv6-public-master/sh.c:344-446 | the parenthesised printing of a tree parses to the tree before an end or a closing parenthesis |
| Shell.RoundTrip | xv6-public-master/sh.c:327-446 | every well-formed tree is what its printing parses to |
| Shell.ParsePrintParse | xv6-public-master/sh.c:327-446 | every accepted line gives a well-formed tree, and printing and parsing it again changes nothing |
| Shell.PlainLine | xv6-public-master/sh.c:374-397 | replacing every `>>` by `>` in any token list changes no tree, no error and nothing of what is left |
| Shell.AppendIsWrite | xv6-public-master/sh.c:374-397 | so the two printed lines parse alike, whatever the tokens |
| Shell.AppendExample | xv6-public-master/sh.c:389-392 | `a >> b` and `a > b` give the same tree |
| ShellSyntax.LineRead | xv6-public-master/sh.c:344-446 | every line of the written syntax - pipes of commands with any number of &, separated by ; - is read whole to the tree the syntax gives it |
| ShellSyntax.LineIsWritten | xv6-public-master/sh.c:344-446 | the converse: whatever tokens the grammar accepts are such a line, and its tree is the one made |
| ShellSyntax.AcceptsExactly | xv6-public-master/sh.c:327-446 | the shell accepts exactly the lines of the written syntax, and fails on all others; a pipe binds tighter than & and ;, pipes and lists group to the right, words and redirections may mix, the last redirection is outermost, and a command has fewer than MAXARGS words |
| ShellSyntax.WrapNest | xv6-public-master/sh.c:374-397 | wrapping redirections from the first outwards is nesting them from the last inwards |
| ShellSyntax.BindingExample | xv6-public-master/sh.c:344-397 | two short lines, one with a pipe, a list and a background command, one with two redirections, and their trees |
| ShellSyntax.LexSpelled | xv6-public-master/sh.c:262-308 | tokens written with blanks where they would stick together, and with any blanks elsewhere, are read back |
| ShellSyntax.LexExactly | xv6-public-master/sh.c:262-308 | the tokens of a text are exactly those it can be so written with |
| ShellParser.Parser.GetToken | xv6-public-master/sh.c:265-308 | reads exactly the next token and, for a word, its span |
| ShellParser.Parser.Peek | xv6-public-master/sh.c:310-320 | looks at the next character without consuming a token |
| ShellParser.Parser.ParseRedirs | xv6-public-master/sh.c:374-397 | the loop reads the redirections the grammar finds ahead |
| ShellParser.Parser.ParseExecAt | xv6-public-master/sh.c:399-446 | what was read is a command of the written syntax and the tree is that command's; agrees with the grammar on success and on what is left, and terminates on all input |
| ShellParser.Parser.ParseBlockAt | xv6-public-master/sh.c:399-415 | the same as the grammar for a line in parentheses and its redirections |
| ShellParser.Parser.ParseArgs | xv6-public-master/sh.c:426-445 | the same for the word loop with its limit of MAXARGS - 1 words |
| ShellParser.Parser.ParsePipeAt | xv6-public-master/sh.c:361-372 | the same for pipes: commands joined to the right |
| ShellParser.Parser.ParseLineAt | xv6-public-master/sh.c:344-359 | the same for lines: each pipe under its own &s, lists joined to the right |
| ShellParser.Parser.ParseBacks | xv6-public-master/sh.c:350-353 | the loop makes one background node per & ahead |
| ShellParser.NulTerminate | xv6-public-master/sh.c:448-493 | writes NUL exactly at the ends of the tree's words |
| ShellParser.WordsTerminated | xv6-public-master/sh.c:448-493 | afterwards every argv and file string equals its token: no token character was overwritten |
| ShellParser.ParseCommand | xv6-public-master/sh.c:327-342 | parsecmd as a whole: accepts exactly the lines of the written syntax, makes the tree the syntax gives them, and leaves the words as C strings in the buffer |
| Grep.FirstItem | xv6-public-master/grep.c:84-106 | a cutting of the text for a pattern is a piece for its first item and a cutting of the rest |
| Grep.ItemsPrint | xv6-public-master/grep.c:84-96 | every list of items that some pattern denotes is what its printing is read as |
| Grep.PrintItems | xv6-public-master/grep.c:84-96 | every pattern is the printing of the items it is read as |
| Grep.WordMeaning | xv6-public-master/grep.c:72-96 | for every word without special characters: it matches where it occurs, ^word exactly texts that start with it, word$ those that end with it, ^word$ that text alone |
| Grep.DotMeaning | xv6-public-master/grep.c:84-96 | a dot between two words is exactly one character |
| Grep.StarMeaning | xv6-public-master/grep.c:89-106 | c* between two words is any number of that character, and .* anything |
| Grep.Match | xv6-public-master/grep.c:72-82 | returns 1 iff some part of the text, anchored as ^ and $ demand, can be cut into pieces for the pattern's items |
| Grep.MatchHere | xv6-public-master/grep.c:84-96 | the same from a given position, for every pattern and text, with termination |
| Grep.MatchStar | xv6-public-master/grep.c:98-106 | the same for a starred character: no split is missed |

## Left out

- Hardware, boot, interrupts, segment setup and cr3 loads; the console; sys_move_file; the reentrant lock; system-call counters; mkfs.
- Path lookup (namex, skipelem), inode reference counts and locks: operations take the inodes that lookup returns.
- Concurrency inside a transaction of create, link and unlink, and between readers and writers of one inode: these run one at a time.
- CrashFs.CrashConsistency: the transactions are whole ones of `Fs`, one after another; those of create, link and unlink, which `Links` models on entries, are not on disk here.
- fs.c's use of bread and log_write: `Fs` works on the block contents that bread returns and records the block numbers passed to log_write.
- Directories as bytes: `Links` has entries of any number; a directory at the maximal file size, where dirlink panics, is not modelled, nor is the overflow of the 16-bit nlink.
- exec, loaduvm, inituvm, clearpteu and switchuvm.
- runcmd and the shell's main loop; grep's read loop and main.
- The 32-bit wrap of ticks, nextpid and process sizes.
- Fs.FileSystem.FileWrite: devices are handed over as an outcome; a negative count, for which the loop does nothing, is not modelled; after a panic only Writei says what was stored.
- RedoLog.Log.Commit: a commit is one atomic section, so waiting inside it is not modelled: its log blocks and listed blocks must be unlocked and a buffer free. Readers outside any transaction may hold every other buffer.
- RedoLog.Log.EndOp: the same for the last call to end.
- RedoLog.Log.WriteLog: the same, as for WriteHead and InstallTrans.
- RedoLog.Log.WriteHead: see WriteLog.
- RedoLog.Log.InstallTrans: see WriteLog; recovery needs two free buffers.
- Bio.BufferCache.Brelse: the caller must have logged or written what it changed, as callers in fs.c and log.c do.
- Links.Tree.Create: the panic on a full inode table is the result NoInodes; running out of blocks is not modelled.
- Vm.Memory.Allocuvm: pages already mapped, on which mappages panics, are excluded by precondition; Copyuvm likewise requires the parent's pages to be present.
- Vm.Memory.Deallocuvm: only old sizes up to KERNBASE, as all callers pass; the new size may be anything.
- ProcTree.StepInv: a process that wakes in wait may do any next step, not only rescan; this allows more runs than the code has.
- Sched.AgingBound: aging is one atomic step, and nobody outside changes the waiting process's class, as change_queue could.
- Sched.StepInv: one CPU, and no change of class for the running process.
- Pipe.PipeBuffer.Close: the file table closes an end only when no process is inside a call on it.
- Grep.Match: text and pattern without NUL, which ends both.
