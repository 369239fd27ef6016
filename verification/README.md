# xv6 with ext2: a model and its proofs

This project models the parts of the kernel and its user programs whose correctness spans many calls, and proves what they guarantee over every input, every run and every interleaving. `dafny verify dfyconfig.toml` takes in the whole project.

**The redo log** (`RedoLog`, `Log`, `LogProtocol`, `LogRoom`). A disk is a sequence of blocks and one block write is one update of it, so a crash can fall between any two. `Log` is log.c with every disk state recorded; `LogProtocol` is the protocol as a state machine with crashes at any block write, recovery included, log_write cut between its unlocked guard and its locked append, and a history of calls to measure recovered disks against; `LogRoom` counts log space.

**The buffer cache** (`LruList`, `BufferCache`) over memide's disk: the doubly linked list as two pointer tables, the newest contents of every block as the yardstick for coherence, and the blocks named in the log header as what must stay pinned.

**Files** (`FsModel`, `FileBytes`, `BlockCount`, `Truncate`, `FileSystem`, `Mkfs`, `Dirents`, `FileOps`): who holds each block, and what byte sequence each file is, from the image that mkfs builds through bmap, readi, writei, itrunc and filewrite to link, unlink and create; how many blocks a write needs, and how many each operation logs. Indirect blocks are bytes, read as little-endian words.

**The inode cache and ext2 directories** (`InodeCache`, `Icache`, `DirRecords`, `Ext2Dir`): the entries shared by both file systems with their side tables of address slots, iput cut at its critical sections; and a directory block as bytes, its records as a map from names to inodes.

**Memory** (`FreeList`, `Ring`, `Umalloc`, `Frames`, `AddressSpaces`, `FrameCount`, `VirtualMemory`): the K&R allocator on a map of header words; physical frames, two-level page tables and address spaces, in units of pages, and what mapping costs in frames.

**Processes** (`SleepLock`, `ProcTable`, `Ptable`, `Pipe`): sleep locks with sleep, wakeup and the schedulers as interleaved steps; fork, exit and wait as steps of the process table; the pipe ring with its 32-bit counters.

**Languages** (`Grep`, `ShellGrammar`, `ShellLexer`, `Shell`): the regular-expression matcher against the languages of its patterns; the shell's parser against a grammar, down to the characters of the line and nulterminate's cuts.

Seven things that the code or its comments suggest do not hold as stated, and the exact condition is proved instead.

- begin_op reserves ten blocks an operation, but mkfs makes the log one block too short for that. With operations of ten blocks log_write can panic; and because its guard is tested before the lock is taken, two writers can pass it together and list 30 blocks for 29 slots, after which a crash during the commit leaves a disk that no set of whole operations explains. All three can happen exactly if operations may write MAXOPBLOCKS blocks (`LogRoom.TooBigExactly`). filewrite sizes its chunks for blocks of 512 bytes although BSIZE is 2048, and a chunk still logs at most seven; link, unlink and create stay below nine too (`FileOps.Link`, `FileOps.Unlink`, `FileOps.Create`), so no run of such operations comes to that (`LogRoom.SmallOperationsAreSafe`).
- A commit can find no buffer for a log slot: bget panics exactly when the listed blocks and the buffers in other use are NBUF together, so with 29 listed blocks nobody else may hold one (`BufferCache.BuffersLeft`); that state is reached from an empty cache (`BufferCache.NoBufferLeft`).
- mkfs's rounding of the root directory adds a hole exactly to a size that is a block multiple (`Mkfs.RootRounding`, `Mkfs.RootWithHole`).
- A killed pipe writer can leave a reader asleep beside a full pipe (`Pipe.Pipe.Write`, `Pipe.LostWakeup`).
- fs.c's iput forgets the slot of an inode's cache entry before it drops its reference. An iget in between revives the entry without addresses, for a caller who is then about to lock it (`InodeCache.RevivedIsBroken`), and the slot is lost exactly if the last iput of the entry begins after that (`InodeCache.OneToOneExactly`); the whole table can be lost so (`InodeCache.TableRunsOut`). ext2_iput forgets no slot, and its table never loses one; it does forget the entry's file type, which ext2_ilock never sets again, so a revived entry can be neither locked nor put (`InodeCache.Ext2StaysCleared`).
- The ext2 code reads a whole entry struct at every record, so it panics at a record that starts late in the block, and ext2_dirlink can make one (`Ext2Dir.Dir.Dirlookup`, `Ext2Dir.Dir.Dirlink`). Seven names of 254 bytes fill a block as far as it can go, the eighth link panics after cutting the last record short, and every later search for an unbound name panics (`Ext2Dir.EighthLink`).
- kill compares pids of unused entries too, and allocproc does not clear the mark: a process is born killed exactly if kill has found its table entry since wait last cleared it (`ProcTable.BornKilledExactly`), and kill(0) does that (`ProcTable.BornKilled`).

## Model

| member | source | states |
|---|---|---|
| `RedoLog.HeadRoundTrip` | log.c:85-113 | the block list that write_head puts into a header block is the list that read_head takes out of it |
| `RedoLog.InstallAt` | log.c:69-82 | block by block, what copying the first k slots home leaves: each listed block holds its slot, every other block, the whole log included, what it held |
| `RedoLog.RecoverIdempotent` | log.c:115-122 | recovering a recovered disk changes no block at all |
| `RedoLog.HeadWrite` | log.c:101-113 | one header write moves the outcome of recovery from the old home blocks to exactly the pinned buffers over the old home blocks |
| `RedoLog.PartInstalled` | log.c:69-82 | however many of the copies have been made, recovery still ends at the same home blocks |
| `RedoLog.ClearWrite` | log.c:192-202 | once every logged block is home, erasing the header does not change what recovery yields |
| `RedoLog.CommitOutcome` | log.c:192-202 | the disk that commit ends with is what recovery makes of the disk at its header write, and its home blocks are the pinned buffers over the old blocks |
| `Log.Log.WriteLog` | log.c:177-190 | after every block write of the loop a crash recovers to the old home blocks; at the end each slot holds the pinned copy of its block and nothing is unpinned |
| `Log.Log.WriteHead` | log.c:101-113 | one block write makes the header on disk encode the in-memory list, entries beyond the list untouched |
| `Log.Log.InstallTrans` | log.c:69-82 | the disk becomes the installed one, after each copy a crash still recovers to the committed home blocks, and exactly the installed buffers lose their pin |
| `Log.Log.ReadHead` | log.c:85-96 | the in-memory list becomes the list in the header on disk |
| `Log.Log.RecoverFromLog` | log.c:115-122 | ends with the recovered disk and an empty log; cut short by another crash after any block write, the disk still recovers to the same home blocks |
| `Log.Log.Commit` | log.c:192-202 | its writes split in two: a crash in the first part recovers to the home blocks as they were, in the second to the home blocks as the running kernel saw them, never to a mixture; with nothing logged it writes nothing |
| `Log.Log.LogWrite` | log.c:213-233 | refused exactly when the transaction is at capacity (before absorption is looked at) or no operation is in progress; otherwise readers see the new block, the block is listed once, and the list stays free of duplicates |
| `Log.Log.EndOp` | log.c:145-174 | only the last operation out commits; readers see the same blocks before and after, and a crash on the way recovers to all of it or none of it |
| `LogProtocol.QuietPrefixIsWhole` | log.c:125-174 | a prefix of the history in which no operation is in progress consists of all calls of a set of operations |
| `LogProtocol.NextInv` | log.c:125-233 | as long as the list fits the log, begin_op, log_write's unlocked guard and later its locked append, end_op, each block write of commit and recovery, and a crash at any point all keep the invariant tying disk, pinned buffers, log list and history together |
| `LogProtocol.CrashKeepsWholeOperations` | log.c:125-174 | in every state of every run whose list has always fitted the log, with crashes anywhere and during recovery, a completed recovery leaves the home blocks as the operations ended by the last commit would, every call of each included and no call of any other |
| `LogProtocol.CommittedSurvives` | log.c:145-174 | once no operation is in progress and no commit is under way, every operation so far survives whole, whatever steps and crashes follow |
| `LogProtocol.IdleIsDurable` | log.c:145-174 | readers always see every write so far; when the log is idle a crash loses nothing; while it commits no operation is in progress |
| `LogRoom.BeginRoom` | log.c:125-141 | an operation that begin_op lets in can log its whole budget: with it too, the listed blocks and what all operations in progress may still add stay within the limit |
| `LogRoom.AppendRoom` | log.c:223-232 | an append stays within what was reserved, whoever else has passed the guard meanwhile |
| `LogRoom.Reserved` | log.c:125-141 | in every run of operations of at most MAXOPBLOCKS blocks the listed blocks plus what every active operation may still add never exceed LOGSIZE |
| `LogRoom.NeverTooBig` | log.c:213-233 | if no operation writes more than nine different blocks, the "too big a transaction" guard fires in no state of any run |
| `LogRoom.RunFits` | log.c:213-233 | in every run of operations of at most nine blocks on a log of 30, or ten on one of 31, the list never outgrows the log's slots, however guards and appends interleave |
| `LogRoom.SafeBudgetIsAtomic` | log.c:125-233 | so every crash in every such run recovers to whole operations only |
| `LogRoom.SmallOperationsAreSafe` | log.c:125-233 | if the sets of blocks that the operations give to log_write have at most nine members each, the guard fires in no state of any run and every crash recovers to whole operations only |
| `LogRoom.FillLog` | log.c:213-233 | for every number of blocks up to 28, a run of three operations of at most ten blocks each that has listed that many and has two operations with a block left |
| `LogRoom.TenOverrun` | log.c:218-232 | from there two operations pass the guard together and both append: 30 blocks are listed for 29 slots |
| `LogRoom.TenTear` | log.c:177-190 | write_log then puts the last slot on a home block before the header is written, and a crash there recovers to a disk that no set of whole operations leaves |
| `LogRoom.TooBigExactly` | log.c:213-233 | on the layout that mkfs writes, the guard can fire, the list can outgrow the log, and a crash can fail to be atomic, each if and only if operations may write MAXOPBLOCKS blocks or more |
| `LruList.UnlinkKeepsList` | bio.c:128-138 | taking a node out by its two pointer writes leaves next and prev inverse and one cycle through the others |
| `LruList.PushKeepsList` | bio.c:46-55 | inserting a node after the head by four pointer writes does the same for one node more |
| `BufferCache.Cache.constructor` | bio.c:38-56 | the list links all NBUF buffers into one cycle, every buffer is unlocked, unused, invalid and clean and has no user, so none holds a block's contents, and the cache agrees with the disk |
| `BufferCache.Cache.Lookup` | bio.c:69-76 | finds a buffer that holds the block if and only if there is one, although it only follows next pointers |
| `BufferCache.Cache.Victim` | bio.c:81-91 | finds an unused clean buffer if and only if there is one, and it is the one that has been free the longest |
| `BufferCache.Cache.Bget` | bio.c:61-93 | fails only if no buffer has the block and all are in use or dirty, which for an uncached block is exactly when the listed blocks and the buffers in other use are NBUF; otherwise the block is in one buffer and no other, every lock is as it was, a recycled buffer is invalid, clean and has one user, and a buffer that is in use or pinned keeps its block and data |
| `BufferCache.Cache.Lock` | bio.c:69-91 | a user who takes a buffer's free sleep lock changes nothing else |
| `BufferCache.Cache.Iderw` | memide.c:38-60 | a transfer leaves buffer and disk block both at the newest contents; the cases where it panics are exactly the unlocked, the clean valid, the wrong device and the out-of-range block |
| `BufferCache.Cache.Bread` | bio.c:96-106 | whatever path it takes, the caller ends with the newest contents of the block and the disk is unchanged |
| `BufferCache.Cache.Change` | bio.c:8-14 | a holder's change of the data becomes the block's newest contents and is owed to the disk |
| `BufferCache.Cache.Bwrite` | bio.c:109-116 | the disk has the newest contents of the block afterwards, nothing is owed for it and it is no longer listed |
| `BufferCache.Cache.Pin` | log.c:228-232 | the block is listed and its buffer is valid and dirty; the invariant that every method keeps says so of every listed block, and only a write of the block to disk takes it off the list, so no listed block's buffer is recycled before install_trans has written it |
| `BufferCache.BuffersLeft` | bio.c:81-93 | each listed block takes one buffer, so a buffer is left for an uncached block, such as a log slot, if and only if the listed blocks and the buffers in other use are fewer than NBUF |
| `BufferCache.NoBufferLeft` | bio.c:81-93 | a run from an empty cache, 29 blocks read, changed, logged and released and one more read, after which bget for another block fails |
| `BufferCache.Cache.Unlock` | bio.c:120-127 | releasing the lock keeps the cache coherent for holders who wrote or logged what they changed |
| `BufferCache.Cache.Unref` | bio.c:128-141 | the reference count is the number of users, and the last one out moves the buffer to the front of the list, stamped as freed last |
| `FsModel.LinkKeepsOwned` | fs.c:92-114 | taking a free block into one empty place keeps ownership: a bit is set if and only if the block is metadata or held at exactly one place of one inode |
| `FileSystem.FileSystem.Balloc` | fs.c:92-114 | answers the first block that was free, hence neither 0 nor held anywhere, zeroed and marked; fails exactly with every bit set, and otherwise there is one unused block less |
| `FileSystem.FileSystem.Bmap` | fs.c:433-462 | an existing block is found and nothing changes; otherwise a zeroed block becomes block bn of that file, ownership and all other blocks kept, with at most two blocks and the table's two logged; it fails exactly if fewer blocks are unused than it lacks, and takes just those |
| `FileSystem.FileSystem.Iupdate` | fs.c:252-269 | if the inode was the only one out of date on disk, the file system is consistent again; that logs one block |
| `FileSystem.FileSystem.Readi` | fs.c:516-540 | -1 exactly for a start past the end or a range that wraps; otherwise the bytes of the file's byte sequence, with nothing allocated or changed |
| `FileSystem.FileSystem.Writei` | fs.c:545-575 | -1, and nothing changed, exactly for a start past the end or an end past the maximum; balloc panics exactly if fewer blocks are unused than the file has to grow by, its table included; otherwise just those are taken, the file's byte sequence is the old one with src laid over it, no block of the file moves, other files are unchanged, the disk inode is up to date, and the logged blocks are bounded by the span |
| `BlockCount.WriteCost` | fs.c:562-568 | what one round of writei lacks is the difference that its bytes make to the blocks a file of that size occupies |
| `FileBytes.WrittenAll` | fs.c:545-575 | block-by-block writes across the direct/indirect split add up to one splice of the byte sequence, for this file and no other |
| `Truncate.NextStillSet` | fs.c:470-499 | the next block itrunc frees is still marked in use, so "freeing free block" cannot happen |
| `FileSystem.FileSystem.FreeHeld` | fs.c:477-494 | bfree on the next block of the file finds it in use, so "freeing free block" cannot happen, and the bits cleared are exactly those of the blocks visited so far; only bitmap blocks are logged |
| `Truncate.TruncateKeepsOwned` | fs.c:470-499 | freeing all blocks of a file keeps ownership for the rest |
| `Truncate.TruncateKeepsFiles` | fs.c:470-499 | the truncated file reads as empty and every other file as before |
| `FileSystem.FileSystem.Itrunc` | fs.c:470-499 | exactly the file's blocks, its table included, become free, each by one bfree that finds it in use; only bitmap blocks and the inode's block are logged |
| `FileSystem.FileSystem.Filewrite` | file.c:119-158 | exactly from the state before the call: the full count if and only if there is nothing to write, or the start is not past the end, the end not past the maximum and the blocks to grow by are unused; balloc panics if and only if the chunks that fit the maximum need more blocks than are unused; otherwise -1, with exactly those chunks written; the file has received that prefix at the offset and no other file changed |
| `FileSystem.FileSystem.WriteChunk` | file.c:135-147 | one transaction of filewrite: -1 and the panic exactly as for writei, the new size and the blocks taken; at most seven different blocks are logged |
| `Dirents.EntryReads` | fs.c:635-640 | an entry written for a name reads back as that name, and as the inode number cut to 16 bits |
| `Dirents.SpliceSlot` | fs.c:615-642 | writing one entry changes that slot of the directory and no other |
| `Dirents.LinkBinds` | fs.c:615-642 | an entry in a free slot or behind the last binds its name and changes no other binding |
| `Dirents.UnlinkBinds` | sysfile.c:199-206 | a zeroed entry unbinds its name and no other |
| `FileOps.Dirlookup` | fs.c:588-612 | the first entry with the name, or 0 exactly if no entry has it; it panics exactly if none has and the directory ends in part of an entry; nothing changes |
| `FileOps.Dirlink` | fs.c:615-642 | refused exactly if the name is there; otherwise the entry is in the first free slot and nothing else has changed, unless it panics, exactly for part of an entry at the end, a directory of the maximal size or too few unused blocks; it logs the blocks of that slot, of the table and of the inode |
| `FileOps.Link` | sysfile.c:119-166 | the name is bound to the inode, or nothing changes because it was bound, or it panics, each exactly as dirlink does; at most six blocks are logged |
| `FileOps.ClearEntry` | sysfile.c:199-206 | the writei of fs_unlink never fails, so its panic cannot happen |
| `FileOps.Unlink` | sysfile.c:219-266 | done exactly if the name is there, a panic exactly if it is not and the directory ends in part of an entry, and otherwise nothing changes; when done, the inode it was bound to is the one that goes, the name is bound no more, the file is empty if that was the last reference to it, and all else reads as before; at most four blocks besides the bitmap are logged |
| `FileOps.Create` | sysfile.c:269-307 | refused exactly if the name is there; a panic exactly for part of an entry at the end, a directory of the maximal size, or too few unused blocks for a new directory's own entries and its parent's; otherwise the name is bound to the new inode, a new directory has . and .. and nothing else, and all other files read as before; at most eight blocks are logged |
| `Mkfs.Image.constructor` | mkfs.c:68-100 | the blank image satisfies ownership with only metadata in use, and every inode is empty |
| `Mkfs.Image.Ialloc` | mkfs.c:241-252 | the next inode number, with an empty file behind it |
| `Mkfs.Image.Iappend` | mkfs.c:272-314 | the file grows by exactly these bytes, other files stay as they are, and blocks are taken in order without holes; it fails exactly if the file would exceed its maximum or the image lacks the blocks, table included, that the new bytes need |
| `Mkfs.Image.Finish` | mkfs.c:254-268 | the finished image, bitmap and all, satisfies the invariant that the kernel's file system starts from |
| `Mkfs.RootRounding` | mkfs.c:175-180 | rounding the root directory's size up keeps files without holes if and only if the size is not a block multiple already |
| `Mkfs.RootWithHole` | mkfs.c:162-180 | a root directory of 128 entries, appended one by one, is an image that the rounding damages |
| `FreeList.LinkAboveOk` | umalloc.c:33-37 | linking the freed block to the one above leaves the list sorted and disjoint but for its lower neighbour's link |
| `FreeList.JoinAboveOk` | umalloc.c:33-35 | so does merging it with the block above |
| `FreeList.LinkBelowOk` | umalloc.c:38-42 | linking the lower neighbour completes the cycle again |
| `FreeList.JoinBelowOk` | umalloc.c:38-40 | so does merging into the lower neighbour, and no two free blocks touch |
| `FreeList.TakeWholeOk` | umalloc.c:76-78 | unlinking a block that fits exactly keeps the cycle and makes the block live |
| `FreeList.TakeTailOk` | umalloc.c:79-83 | cutting a block's tail off keeps the list, and the tail is a live block that overlaps nothing |
| `FreeList.GrownOk` | umalloc.c:46-61 | memory from sbrk enters as one live block of exactly the new units |
| `Umalloc.Allocator.FindPlace` | umalloc.c:29-32 | the walk round the list terminates at the entry below the block |
| `Umalloc.Allocator.Free` | umalloc.c:24-44 | the heap invariant holds again, the block is no longer live, all of its units are inside one free block, no other block changes hands, and every other live block keeps its contents |
| `Umalloc.Allocator.Morecore` | umalloc.c:46-61 | nu units more on the free list but at least 4096, and every live block's contents as they were, or failure exactly when sbrk fails, with nothing changed |
| `Umalloc.Allocator.Scan` | umalloc.c:74-88 | the walk terminates with the first block from freep on that is large enough, every block before it being too small, unless none on the whole list is large enough |
| `Umalloc.Allocator.Scribble` | umalloc.c:84-84 | whatever its owner writes into a live block, the header excepted, the heap invariant holds |
| `Umalloc.Allocator.Malloc` | umalloc.c:63-90 | null if and only if every free block is too small and sbrk refuses; otherwise a block that was not live, with just the units that a header and nbytes need, cut from the end of the first block from freep on that is large enough unless memory was obtained, which happens only if none is; every live block keeps its contents |
| `Grep.CharThen` | grep.c:93-94 | matching one literal or dot and then the rest is matching in the language of the concatenation |
| `Grep.StarThen` | grep.c:98-106 | x* followed by the rest matches if and only if some number of leading x's can be skipped and the rest matches there |
| `Grep.ReadWritten` | grep.c:84-96 | a list of literals and dots, starred or not, with or without a final anchor, is read back from its text as exactly that if and only if it has no literal dot, no literal star behind an unstarred item and no unstarred literal dollar at the end |
| `Grep.EveryPatternIsWritten` | grep.c:84-96 | every pattern is the text of such a list |
| `Grep.Match` | grep.c:72-82 | true if and only if the text contains a string of the pattern's language, or begins with one for ^; for a pattern without . and * that is: contains it, begins with it for ^, ends with it for $, is it for both |
| `Grep.MatchHere` | grep.c:84-96 | true if and only if some initial part of the text is in the language of the rest of the pattern, all of it for a trailing $; ^, $ and * elsewhere are literals |
| `Grep.MatchStar` | grep.c:98-106 | true if and only if some number of leading characters fit and the rest of the pattern matches after them |
| `Pipe.Wrapped` | pipe.c:84-92 | counters modulo 2^32 tell full from empty, and index the right slot, wherever they wrap |
| `Pipe.Pipe.Write` | pipe.c:78-98 | stores, in order, exactly as much as there is room for, and sleeps only on a full pipe; afterwards no reader sleeps in vain unless the call fails with readers asleep, so a call that does not fail also rouses readers left behind earlier; from a pipe where nobody sleeps in vain it leaves one so exactly when a killed writer has more than a pipeful and readers are asleep |
| `Pipe.Pipe.Read` | pipe.c:100-121 | returns the oldest unread bytes in order, as many as there are up to n; it sleeps only on an empty pipe whose write end is open; it leaves no writer asleep once it has returned, and no reader in vain on a pipe it leaves empty and open |
| `Pipe.Pipe.Rouse` | proc.c:483-501 | a kill that wakes a sleeper leaves the ring and the other sleepers as they are, and who sleeps in vain does so exactly as before |
| `Pipe.Pipe.Close` | pipe.c:59-75 | wakes the other end, whoever was left asleep there, and the page goes exactly with the second end |
| `Pipe.LostWakeup` | pipe.c:84-90 | a killed writer can leave a reader asleep beside a full pipe |
| `SleepLock.NextInv` | sleeplock.c:22-42 | every step of acquiresleep, releasesleep, sleep, wakeup, yield, the scheduler and kill keeps the invariant over all processes, CPUs and both spinlocks |
| `SleepLock.NoLostWakeup` | proc.c:421-478 | in every state of every interleaving, a process asleep on the lock finds it held, or its inner spinlock held by a releaser that has yet to finish its wakeup |
| `SleepLock.OneHolder` | sleeplock.c:22-42 | at most one process is between acquiresleep and releasesleep, and lk->locked says so |
| `SleepLock.AcquireReturnsHolder` | sleeplock.c:22-32 | in every run, whatever yields, sleeps, wakeups and kills come in between, acquiresleep returns only with the caller holding the lock and lk->locked set |
| `SleepLock.ReleaseReturnsFree` | sleeplock.c:34-42 | releasesleep returns with the caller not holding the lock, and the lock has been free on the way |
| `SleepLock.HolderKeeps` | sleeplock.c:22-42 | in every run the holder keeps the lock until it clears lk->locked itself in releasesleep |
| `SleepLock.OthersSleepOn` | proc.c:461-469 | a sleeper on another channel is woken by no step of acquiresleep, releasesleep or the scheduler |
| `SleepLock.OneCpu` | proc.c:325-359 | a RUNNING process sits on one CPU and no other, and what sits on a CPU while ptable.lock is free is RUNNING |
| `ProcTable.NextOk` | proc.c:184-315 | every critical section of fork, exit, wait, sleep, wakeup, kill and the scheduler keeps the table's invariant |
| `ProcTable.ExitOk` | proc.c:231-271 | reparenting and both wakeups leave no orphan, and no parent asleep in wait over a zombie |
| `ProcTable.ZombieIsSeen` | proc.c:255-271 | in every run a zombie's parent is live and not asleep in wait, whatever it sleeps on |
| `ProcTable.RunWaits` | proc.c:308-312 | in every run a process asleep in wait sleeps on its own entry, the channel that exit wakes |
| `ProcTable.NoOrphans` | proc.c:258-265 | in every run every process past EMBRYO other than init has a live parent |
| `ProcTable.ReapedOnce` | proc.c:290-303 | in every run an exited process is either a zombie or has been returned by wait, and then by exactly one |
| `ProcTable.NothingLeaks` | proc.c:290-300 | in every state, forks in progress included, the kernel stacks and page directories in use are exactly those that processes in the table have, one each; a born process has both and an unused entry neither |
| `ProcTable.MarkedExactly` | proc.c:483-501 | in every run an entry's killed mark is set exactly if kill has found the entry since wait last cleared it |
| `ProcTable.MarkedAwake` | proc.c:483-501 | in every run, no step that marks an entry as killed leaves it asleep |
| `ProcTable.BornKilledExactly` | proc.c:76-99 | a process is born killed exactly if kill has found its entry since then, by whatever pid the entry had |
| `ProcTable.BornKilled` | proc.c:483-501 | a run from boot in which kill(0) finds the first unused entry and the next process forked is born killed |
| `Ptable.Ptable.constructor` | proc.c:125-158 | the table at boot: init alone, runnable, with its stack and page directory |
| `Ptable.Ptable.Allocproc` | proc.c:79-97 | takes the first unused entry with a pid never used before, or fails exactly when there is none |
| `Ptable.Ptable.GiveStack` | proc.c:99-103 | the new entry owns the page, or is unused again without one |
| `Ptable.Ptable.CopySpace` | proc.c:196-204 | without memory the stack is given back and the entry is unused; otherwise the child has its own address space and its parent |
| `Ptable.Ptable.Start` | proc.c:217-226 | the child becomes runnable and the parent learns its pid |
| `Ptable.Ptable.Wakeup1` | proc.c:461-469 | exactly the processes asleep on the channel become runnable |
| `Ptable.Ptable.Wakeup` | proc.c:472-478 | waking other channels keeps the table's invariant |
| `Ptable.Ptable.Exit` | proc.c:231-271 | panics exactly for init; otherwise the caller is a zombie, its children are init's, its parent is awake, and so is init if it inherited a zombie |
| `Ptable.Ptable.Scan` | proc.c:284-304 | the first zombie child if there is one, and whether there is any child |
| `Ptable.Ptable.Wait` | proc.c:275-315 | reaps exactly when some child is a zombie, with its stack and address space; fails exactly without children or when killed; otherwise sleeps |
| `Ptable.Ptable.Sleep` | proc.c:421-456 | sleeping on another channel keeps the invariant |
| `Ptable.Ptable.Switch` | proc.c:338-355 | being picked and yielding keep the invariant |
| `Ptable.Ptable.Kill` | proc.c:483-501 | the first entry with that pid is marked and, if it was asleep, runnable, and no other field or entry changes; -1 exactly when no entry has it |
| `ShellGrammar.ReadLine` | sh.c:344-446 | whatever tokens the grammar writes for a line, the parser reads as that line's command and stops where the line ends |
| `ShellGrammar.WroteLine` | sh.c:344-446 | whatever the parser accepts is a line of the grammar, with the same command and at most nine arguments a command |
| `ShellGrammar.ParseIsGrammar` | sh.c:327-446 | the parser accepts exactly the language of the grammar and builds exactly the command it stands for |
| `ShellGrammar.WroteLineCmd` | sh.c:196-258 | every command tree with at most nine arguments an exec is some line's command, with parentheses where the tree does not fit its place |
| `ShellGrammar.ParseWritten` | sh.c:327-446 | parsing the tokens of a written command gives the command back |
| `ShellLexer.LexRender` | sh.c:262-308 | the tokens of a rendered line are the tokens it was rendered from |
| `ShellLexer.LexLayout` | sh.c:262-308 | tokens laid out with any of the five white-space characters, in any number or none, before, between and behind them are read back if and only if there is some between two words and between a > and the next |
| `ShellLexer.PrintParses` | sh.c:262-446 | every command whose words are words prints as text that parses back to it |
| `Shell.Gettoken` | sh.c:265-308 | splits the first token off, white space on both sides skipped; a word's span is exactly its word characters |
| `Shell.Peek` | sh.c:310-320 | skips white space only, and tells whether the next character is one of those asked for |
| `Shell.ParseRedirs` | sh.c:374-397 | reads the redirections that the token parser reads, or panics where it does |
| `Shell.ParseArgs` | sh.c:431-442 | the same for the arguments and the redirections between them |
| `Shell.ParseExec` | sh.c:415-446 | the same for a simple command or a block |
| `Shell.ParseBlock` | sh.c:399-413 | the same for a parenthesised line and its redirections |
| `Shell.ParsePipe` | sh.c:361-372 | the same for a pipeline |
| `Shell.ParseLine` | sh.c:344-359 | the same for a line; the mutual recursion terminates |
| `Shell.Nulterminate` | sh.c:448-493 | exactly the characters after the words of the command become NUL |
| `Shell.WordsSurvive` | sh.c:448-493 | with all words terminated, each argument and file name reads as exactly the token scanned, because no word ends inside another |
| `Shell.Parsecmd` | sh.c:327-342 | the command read from the cut line is the one the grammar gives for the line's tokens; where it panics the line is unchanged |
| `InodeCache.SharedOk` | fs.c:281-288 | another reference to an entry keeps every invariant of the cache, whatever an iput is doing to it |
| `InodeCache.BusyCount` | fs.c:292-318 | the busy slots of a table are as many as its live entries and its lost slots together |
| `InodeCache.SlotIsFree` | fs.c:292-302 | while an entry is free, a table that has lost no slot is not full |
| `InodeCache.DroppedOk` | fs.c:404-410 | dropping a reference keeps every invariant; it loses a slot exactly if it drops the last reference with a null slot in hand |
| `InodeCache.NextOk` | fs.c:274-411 | every step of iget, idup, the call of ilock and its end, and both iputs keeps the invariant: one entry per (dev, inum), counted references, a busy slot of its own for every live entry, pointers to that slot or null, no lost slot of the ext2 table; lost slots of the root table stay lost and grow by one exactly with a leak |
| `InodeCache.RunOk` | fs.c:274-411 | the invariant in every state of every run, and the lost slots of the root table are as many as the leaks so far |
| `InodeCache.OneToOneExactly` | fs.c:382-411 | live entries and busy slots correspond one to one, in the ext2 table always, in the root table if and only if no iput so far has dropped the last reference to an entry whose slot was forgotten when it began |
| `InodeCache.SearchExactly` | fs.c:292-302 | with an entry free, iget's slot search ends in the ext2 table always, and in the root table unless its live entries and the leaks are NINODE together |
| `InodeCache.LeakHistory` | fs.c:386-410 | the iput that leaks began on an entry that an earlier iput of fs.c had cleared |
| `InodeCache.NoClashCalm` | fs.c:281-288 | while no iget finds an inode that an iput is freeing, iput frees only as the last holder, has its entry's own slot in hand, and nothing leaks |
| `InodeCache.RevivedIsBroken` | fs.c:392-410 | a run from boot, each iput on an entry that has its operations, that ends with a live entry without addresses or operations in the hands of a caller about to lock it, beside a busy slot that nothing points at |
| `InodeCache.Ext2StaysCleared` | ext2fs.c:348-358 | no step gives an ext2 entry its operations back once ext2_iput has cleared them, so whoever then holds it can neither lock nor put it: its reference stays |
| `InodeCache.TableRunsOut` | fs.c:292-313 | a run from boot in which that happens NINODE times and each caller locks and puts the inode: no inode is in use and the root table has no free slot |
| `Icache.Icache.constructor` | fs.c:204-218 | the empty cache |
| `Icache.Icache.Find` | fs.c:281-291 | the live entry for the inode if there is one, else the first free entry |
| `Icache.Icache.FreeSlot` | fs.c:292-299 | the first free slot of a table |
| `Icache.Icache.Iget` | ext2fs.c:239-285 | panics exactly if the inode is not cached and no entry is free; runs off the slot table exactly if an entry is free and the table full, which only the root table can be; otherwise the inode's entry has one reference more, or the first free entry is the inode's, with the first free slot of its table and its file system's operations |
| `Icache.Icache.Idup` | fs.c:323-332 | copying a held reference keeps the cache sound and, where nobody has revived an inode, does not revive one |
| `Icache.Icache.PutCheck` | fs.c:383-392 | the slot in hand is the entry's own or, in the root table, null; never null where nobody has revived an inode; the inode is freed only if there is one reference |
| `Icache.Icache.PutClear` | ext2fs.c:348-358 | clearing the entry leaves the slot with its owner until the reference goes |
| `Icache.Icache.PutEnd` | fs.c:404-410 | the last reference frees exactly the entry's own slot, or loses it exactly if the slot in hand is null |
| `DirRecords.Frame` | ext2fs.c:593-609 | what records a stretch of the block holds, and their bindings, depends on those bytes alone |
| `DirRecords.Bind` | ext2fs.c:632-661 | shrinking the last record to its name and giving the rest of the block to a new record adds exactly one binding and keeps the tiling |
| `DirRecords.Unbind` | sysfile.c:207-217 | a record without an inode number removes exactly one binding and keeps the tiling |
| `Ext2Dir.EntryIsRec` | ext2fs.c:655-661 | a struct written over the block, with whatever follows it on the stack, is a record with that inode, length and name |
| `Ext2Dir.Dir.Dirlookup` | ext2fs.c:587-612 | the inode bound to the name and the record that binds it, or 0 exactly if the part of the directory that can be read does not bind it; it panics exactly if the name is not bound there and the directory goes on behind that part |
| `Ext2Dir.Dir.FindLast` | ext2fs.c:627-642 | the last record, if it is longer than a struct |
| `Ext2Dir.Dir.Dirlink` | ext2fs.c:614-664 | refuses exactly a name it finds; otherwise, on a directory that can be read to its end, it adds exactly that binding if and only if the directory is empty or a struct fits after the last record's name, and the new record is the last, starts there and has a name of that length; where it panics after shrinking the last record, the readable part ends there; no binding is ever lost |
| `Ext2Dir.EighthLink` | ext2fs.c:614-664 | seven links of names of 254 bytes succeed, the eighth panics after cutting the last record short, the seven stay bound, and a later lookup of an unbound name panics |
| `Ext2Dir.Dir.Unlink` | sysfile.c:207-217 | removes exactly the binding of that record, and the directory can be read as far as before |
| `Ext2Dir.Dir.IsDirEmpty` | sysfile.c:183-198 | true if and only if every live record reads as . or .. taken as a C string, which is if and only if nothing else is bound provided names of at most two bytes end in NUL; it panics exactly at an unreadable record with nothing else before it |
| `Frames.MovesOwned` | kalloc.c:54-95 | if one frame changes hands and nothing else moves, every frame is still in exactly one of the free list, a user mapping, a table or directory, or the kernel's hands |
| `Frames.FreedExactly` | vm.c:287-304 | when a directory is gone and the rest is as it was, its frames, and no others, have become free |
| `FrameCount.TabsAre` | vm.c:38-61 | the tables that mapping a range of pages in turn makes are as many as the directory slots that the range touches and that have none |
| `VirtualMemory.Memory.constructor` | kalloc.c:31-44 | at boot every frame above the kernel is still to be freed |
| `VirtualMemory.Memory.Freerange` | kalloc.c:46-53 | puts exactly the frames of the range on the free list |
| `VirtualMemory.Memory.Kalloc` | kalloc.c:79-95 | hands out a frame that nobody holds, or fails exactly when none is free |
| `VirtualMemory.Memory.Kfree` | kalloc.c:54-77 | takes a frame back; no address space sees it |
| `VirtualMemory.Memory.Walkpgdir` | vm.c:38-61 | finds or makes the table for a page, failing exactly if it needs a frame and none is free; a new table's entry is writable and for users; no page of any address space looks different |
| `VirtualMemory.Memory.MapPage` | vm.c:74-85 | exactly that page is mapped to exactly that frame, or nothing changes |
| `VirtualMemory.Memory.Mappages` | vm.c:66-86 | maps the range page by page to consecutive frames and changes no other entry; it succeeds exactly if there are frames for the tables lacking, and takes just those |
| `VirtualMemory.Memory.Setupkvm` | vm.c:123-142 | a directory without user pages in which every page of physical memory is mapped at its distance from KERNBASE and the devices at their own address, all writable but the kernel's text and read-only data, and nothing else; it fails exactly with fewer than 65 free frames, and then everything is given back |
| `VirtualMemory.Memory.Allocuvm` | vm.c:225-255 | zeroed writable pages exactly from oldsz up to newsz, if and only if newsz is below the kernel and the free frames cover the pages and the tables they lack; on failure the user mapping is exactly as it was; the kernel's mappings and other address spaces are untouched |
| `VirtualMemory.Memory.Deallocuvm` | vm.c:257-285 | exactly the pages from newsz up to oldsz go, though missing tables are skipped whole; the kernel's mappings stay |
| `VirtualMemory.Memory.Freevm` | vm.c:287-304 | the directory, its tables and its user pages are free, each once, and nothing else is |
| `VirtualMemory.Memory.Copyuvm` | vm.c:319-351 | equal contents and flags page by page in a new address space with the kernel's mappings, whose frames no other address space has, the old one untouched, if and only if the free frames cover a kernel map, the pages and their tables; without them the free frames are the same as before |

## Left out

- Umalloc.Allocator.Malloc: sizes are unbounded integers, so requests near 2^32 bytes, where the unit count wraps, are not modelled; addresses are in units of a header, so alignment is by construction.
- Log.Log.LogWrite: one call at a time, guard and append together; their interleaving is in LogProtocol and LogRoom.
- LogProtocol.AppendStep: an append to a list that already fills the header's array of 30, which only operations of more than ten blocks can reach, is not a step.
- Icache.Icache.Iget: what the code overwrites behind the table once the slot search has run off its end, and what a store through a null slot pointer hits, is not modelled.
- Ext2Dir.Dir.Dirlink: a directory that would need a second block is reported as full, because ext2_dirlink then writes records that its own fixed-size reads cannot follow; names to be linked are shorter than 255 bytes.
- Ptable.Ptable.Allocproc: pids do not wrap.
- VirtualMemory.Memory.AddPage: when mapping fails the page in hand is freed before the earlier ones, which only changes the order of the free list.
- Frames hold bytes or table entries; that both are the same memory, and the packing of entries into words, is not modelled.
- The free bitmap is a sequence of bits and the inodes on disk a table of inodes; their packing into blocks is not modelled.
- FileOps.Unlink: the entries of the directory are taken to name existing inodes, and whether a directory to be removed is empty is not looked at.
- FileOps.Create: inode numbers are taken to fit an entry's 16 bits, and ialloc's choice, an inode without contents, is a parameter.
- Link counts and types of inodes, files of type T_DEV, and path walks (namex), with what the iput of a directory that is removed during the walk would log.
- ext2 block and inode bitmaps, and ext2 indirect blocks, whose entries are not written back or go to the wrong buffer.
- The contents of cached inodes, and of ilock all but that it sets an entry's file system again: only entries, references and address slots are modelled.
- File descriptors, the file table and pipealloc.
- uva2ka, copyout, loaduvm, inituvm and growproc, which only read or fill pages that are already mapped.
- exec, trap and system-call dispatch, printf and the console.
- Hardware: ide.c, the interrupt controllers, timers and assembly. The disk is memide's, a spinlock is one atomic step, and time is the order of steps.
- runcmd of the shell, grep's line buffering and the other user programs.
