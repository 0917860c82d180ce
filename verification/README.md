# Pintos, verified

A Dafny model of the algorithmic core of the Pintos teaching kernel, with proofs of what its
parts promise. The sources are the kernel tree of the third project, `pintos-3_vm/src`, the
student's paging layer `pintos-3_vm/vm`, and the archive tool of the second project.

Code that changes things in place is modelled twice. A class or an array method follows the
source statement by statement, and is proved equal to a function on values. Invariants, runs and
round trips are then proved about the functions. Allocation and device failures are parameters.
Threads are machines of atomic steps; the calls of `sema_down`, of locks and of condition
variables are also modelled whole, with their loops, and with whatever steps the other threads
choose to take wherever they can run.

| area | modules |
|---|---|
| 64-bit division on a 32-bit divider | `NonLinear`, `Arithmetic64` |
| in-place heapsort and binary search | `HeapSort` |
| file system: device, files, ownership, runs, contents | `Bytes`, `Bitmap`, `InodeIO`, `FsModel`, `FsOwnership`, `FsInvariant`, `FsRuns`, `FsTheorems`, `FsOutcomes`, `FsContent`, `FsStore`, `FileSystem` |
| scheduler and semaphores | `Semaphores`, `Scheduler`, `Wakeups`, `Threads` |
| locks and condition variables | `Monitor`, `LockOrder`, `Locks` |
| block allocator over the page allocator | `HeapModel`, `HeapInvariant`, `HeapRuns`, `HeapTheorems`, `HeapReturns`, `Malloc` |
| second-chance search, eviction, swap | `Clock`, `VmModel`, `VmInvariant`, `VmTheorems`, `VmExamples`, `VirtualMemory` |
| two-level page table | `PageTable`, `PageRuns`, `PageDirectory` |
| program loading and the initial stack | `UserPages`, `Loader`, `ArgTokens`, `ArgStack` |
| formatted output | `Printf`, `PrintfParse` |
| tar headers and archives | `Ustar`, `Archive` |
| shared | `Options`, `Lists` |

## Where the code falls short

The model keeps the code as it is. These properties fail in it. Each has its exact condition as
a lemma, and a failing case.

- Signed division is not truncating for INT64_MIN / -1; `umod64` and `smod64` truncate their
  result to 32 bits (`Sdiv64IsTruncating`, `Umod64IsLowRemainder`, `Umod64TruncatesExample`,
  `Smod64ExactWhenItFits`).
- A create that the directory refuses loses the file's data sectors (`CreateLeaks`,
  `SecondCreateLeaks`).
- `malloc` of one of the eleven largest 32-bit sizes returns a block of one page (`MallocRoom`,
  `WrappedRequestExample`). The 4096 sizes below those ask for no page and are refused.
- The clock never takes the list head, so it does not end when only the head is unpinned, nor on
  a list of one page (`SearchEnds`, `HeadUnpinnedExample`, `ReturnsIff`).
- After an eviction the page behind the evicted one loses its turn: the next search starts one
  further on and comes to it last (`NextSearchBegins`).
- With swap full an evicted page is lost without notice (`SwapFullLosesPage`, `SwapFullExample`).
- A dirty page of a mapped file is written back from its user address in whatever address space
  happens to be active (`FilePageSurvives`, `OtherThreadExample`).
- With both `-` and `0` in force a field is padded twice. `parse_conversion` clears `0` when `-`
  is among the flags, but a negative `*` width sets `-` afterwards (`FieldWidth`, `FormatWidth`,
  `DoublePaddingExample`).
- A precision above 63 is cut to 63 (`NumeralLength`, `LongPrecisionExample`). Commas of the group
  flag count towards the precision.
- `ustar_make_header` accepts a negative size, and its header does not parse (`HeaderRoundTrip`).
  `fsutil_append` passes a file's length, which is never negative, so only a direct call can do
  this.

## Model

| member | source | states |
|---|---|---|
| `Arithmetic64.Nlz` | pintos-3_vm/src/lib/arithmetic.c:42-73 | counts the leading zero bits of a nonzero word: the result is the shift that brings its top bit to bit 31 |
| `Arithmetic64.LongEstimate` | pintos-3_vm/src/lib/arithmetic.c:87-112 | for a divisor of 2^32 or more the normalised `divl` does not trap and its estimate is the quotient or one more |
| `Arithmetic64.CorrectionIsExact` | pintos-3_vm/src/lib/arithmetic.c:114-125 | the correction by one remainder, all sums and products taken modulo 2^64, yields the quotient from either estimate |
| `Arithmetic64.Udiv64` | pintos-3_vm/src/lib/arithmetic.c:78-127 | returns floor(n/d) for all 64-bit n and nonzero d, on a divider of 64 by 32 bits that traps on overflow |
| `Arithmetic64.TruncDivisionCharacterised` | pintos-3_vm/src/lib/arithmetic.c:140-154 | the truncating quotient and remainder of section 6.5.5 of ISO C99 are the only q and r with n = d*q + r, r smaller than d in size, and r zero or of the sign of n |
| `Arithmetic64.Sdiv64IsTruncating` | pintos-3_vm/src/lib/arithmetic.c:140-146 | signed division truncates toward zero if and only if the operands are not INT64_MIN and -1 |
| `Arithmetic64.Umod64IsLowRemainder` | pintos-3_vm/src/lib/arithmetic.c:132-135 | returns the low 32 bits of the remainder, hence the remainder exactly when that fits 32 bits |
| `Arithmetic64.Umod64TruncatesExample` | pintos-3_vm/src/lib/arithmetic.c:132-135 | the remainder 0x1_8000_0000 is returned as 0x8000_0000 |
| `Arithmetic64.Smod64IsLowRemainder` | pintos-3_vm/src/lib/arithmetic.c:151-154 | returns the low 32 bits of the true remainder, INT64_MIN % -1 included |
| `Arithmetic64.Smod64ExactWhenItFits` | pintos-3_vm/src/lib/arithmetic.c:151-154 | is the true remainder if and only if that fits a signed 32-bit word |
| `HeapSort.DoSwap` | pintos-3_vm/src/lib/stdlib.c:66-79 | exchanges two records byte by byte and leaves every other byte alone |
| `HeapSort.FloatDownStep` | pintos-3_vm/src/lib/stdlib.c:97-123 | one swap of heapify moves the only heap violation one level down |
| `HeapSort.RootIsLargest` | pintos-3_vm/src/lib/stdlib.c:97-152 | in a heap no record compares above the root, for any total preorder |
| `HeapSort.LevelsAtMostLog2` | pintos-3_vm/src/lib/stdlib.c:97-152 | a node has at most floor(log2 cnt) levels below it, which bounds the comparisons of one heapify |
| `HeapSort.Heapify` | pintos-3_vm/src/lib/stdlib.c:97-123 | restores the heap below a node, permuting the records, with at most two comparisons a level |
| `HeapSort.ExtractStep` | pintos-3_vm/src/lib/stdlib.c:142-151 | swapping the root to the end extends the sorted part by the largest remaining record |
| `HeapSort.Sort` | pintos-3_vm/src/lib/stdlib.c:132-152 | leaves a sorted rearrangement of the byte-strided records, touches no byte beyond them, and makes at most 3 cnt floor(log2 cnt) comparisons |
| `HeapSort.BinarySearch` | pintos-3_vm/src/lib/stdlib.c:185-207 | on sorted records returns a matching record if and only if there is one |
| `Bitmap.FirstRunUnique` | pintos-3_vm/src/lib/kernel/bitmap.c:296-310 | the first run of equal bits is determined by the bitmap |
| `Bitmap.Bitmap.Scan` | pintos-3_vm/src/lib/kernel/bitmap.c:296-310 | returns the start of the first long enough run at or after start, or an error when there is none |
| `Bitmap.Bitmap.ScanAndFlip` | pintos-3_vm/src/lib/kernel/bitmap.c:320-326 | finds that run and inverts exactly its bits |
| `Bitmap.SetRunTwice` | pintos-3_vm/src/lib/kernel/bitmap.c:218-228 | flipping a run and flipping it back restores the bitmap |
| `InodeIO.Inode.ByteToSector` | pintos-3_vm/src/filesys/inode.c:46-54 | a position inside the file lies in the sector start + pos / 512, at offset pos % 512, and other positions in none |
| `InodeIO.FlatPatch` | pintos-3_vm/src/filesys/inode.c:294-310 | overwriting part of one sector overwrites exactly those bytes of the flat device |
| `InodeIO.Inode.ReadAt` | pintos-3_vm/src/filesys/inode.c:200-250 | reads all that was asked for or all up to the end of the file, nothing from past the end, and the bytes are that stretch of the flat file; without a bounce buffer only whole sectors |
| `InodeIO.Inode.WriteAt` | pintos-3_vm/src/filesys/inode.c:258-318 | writes all that was given or all up to the end of the file, nothing when writes are denied, and the device is the old one with exactly that stretch overwritten |
| `InodeIO.WriteIsPatch` | pintos-3_vm/src/filesys/inode.c:258-318 | a write overwrites the file as one byte array and what is read back is what was written |
| `FsContent.WriteContents` | pintos-3_vm/src/filesys/inode.c:258-318 | through an open file that nobody denies writes to, a write overwrites that file's bytes at its position with all of the data or all that fits the file, and leaves every other live file's bytes as they were |
| `FsContent.FilesKeepApart` | pintos-3_vm/src/filesys/inode.c:258-318 | after any run from a fresh format, the same: sectors being owned, files never run into each other |
| `InodeIO.File.Read` | pintos-3_vm/src/filesys/file.c:69-74 | reads all that was asked for or all up to the end, from the position on, and advances it by what was read |
| `InodeIO.File.Write` | pintos-3_vm/src/filesys/file.c:95-100 | writes all that was given or all up to the end, from the position on, and advances it by what was written |
| `FsTheorems.FormatEstablishes` | pintos-3_vm/src/filesys/filesys.c:95-103 | formatting succeeds exactly when the two system files fit, and then the invariant holds |
| `FsOwnership.OwnAdd` | pintos-3_vm/src/filesys/free-map.c:28-41 | sectors fresh from the free map can be given to a new inode without any sector gaining a second owner |
| `FsOwnership.OwnDrop` | pintos-3_vm/src/filesys/free-map.c:45-50 | releasing the sectors of one inode leaves every other live inode its own |
| `FsInvariant.InodeCloseKeeps` | pintos-3_vm/src/filesys/inode.c:164-186 | the last close of a removed inode releases marked sectors and keeps ownership and the open table right |
| `FsRuns.CreateKeeps` | pintos-3_vm/src/filesys/filesys.c:46-59 | create, with its rollback on every failure, keeps the file system invariant |
| `FsRuns.RemoveKeeps` | pintos-3_vm/src/filesys/filesys.c:84-91 | remove keeps the file system invariant, the open files and every byte on the device |
| `FsRuns.AllowWriteKeeps` | pintos-3_vm/src/filesys/file.c:133-141 | turning write denial off keeps the denial count between zero and the openers |
| `FsTheorems.RunKeeps` | pintos-3_vm/src/filesys/filesys.c:46-91 | the invariant holds after every run of create, open, reopen, write, deny, allow, remove and close |
| `FsTheorems.NoAssertionFails` | pintos-3_vm/src/filesys/free-map.c:45-50 | in no run does the assertion of free_map_release or of the denial counts fail |
| `FsTheorems.SectorsAreOwned` | pintos-3_vm/src/filesys/inode.c:72-186 | after any run the sectors of live inodes are pairwise disjoint and marked used, and a used sector is owned or leaked |
| `FsTheorems.TableIsFaithful` | pintos-3_vm/src/filesys/inode.c:111-186 | after any run the open table has one entry a sector, equal to the disk, with the openers and the denying openers as its counts |
| `FsTheorems.NamesStayUnique` | pintos-3_vm/src/filesys/directory.c:142-179 | after any run no two directory slots in use have the same name |
| `FsTheorems.OpenFileKeepsContent` | pintos-3_vm/src/filesys/inode.c:164-186 | an open file keeps its inode and bytes through any run that neither closes nor writes it, also when it is removed meanwhile |
| `FsTheorems.CreateSucceeds` | pintos-3_vm/src/filesys/filesys.c:46-59 | create succeeds if and only if it reaches the directory with its sectors and the directory takes the name |
| `FsTheorems.CreateLeaks` | pintos-3_vm/src/filesys/filesys.c:50-55 | create loses data sectors if and only if the directory refuses the name and the file has data |
| `FsOutcomes.CreateMakesFile` | pintos-3_vm/src/filesys/filesys.c:46-59 | a successful create enters the name in the first free slot under an inode sector that was free, for a file as long as asked for and all zeros; the other slots are as they were |
| `FsOutcomes.RemoveSucceeds` | pintos-3_vm/src/filesys/filesys.c:84-91 | remove succeeds if and only if the root directory opens, has the name, and the named inode opens; without faults, if and only if the name is there |
| `FsOutcomes.RemoveFrees` | pintos-3_vm/src/filesys/directory.c:185-216 | a successful remove frees that one slot and leaves every other; the file's sectors become free at once if nobody has it open, else none does |
| `FsOutcomes.CloseFrees` | pintos-3_vm/src/filesys/inode.c:164-186 | closing a file frees the sectors of a removed file with its last opener, and otherwise none |
| `FsOutcomes.OpenSucceeds` | pintos-3_vm/src/filesys/filesys.c:66-78 | open succeeds if and only if the root directory and the named inode open and there is memory for the file; either way no slot, sector or byte changes |
| `FsOutcomes.ReopenSucceeds` | pintos-3_vm/src/filesys/file.c:18-42 | reopen succeeds if and only if there is memory for the file, which then starts at 0 on the same inode |
| `FsOutcomes.CreateThenRemove` | pintos-3_vm/src/filesys/filesys.c:46-91 | removing a file just created gives back exactly the sectors it took and leaves the names that were there |
| `FsStore.SecondCreateLeaks` | pintos-3_vm/src/filesys/filesys.c:50-55 | creating one name twice on a fresh device loses a sector |
| `FsModel.InodeRoundTrip` | pintos-3_vm/src/filesys/inode.c:15-21 | an inode written to its sector is read back |
| `FileSystem.FileSystem.FilesysCreate` | pintos-3_vm/src/filesys/filesys.c:46-59 | the tables changed in place take the step of the machine |
| `FileSystem.FileSystem.FilesysRemove` | pintos-3_vm/src/filesys/filesys.c:84-91 | the same for removing a file |
| `FileSystem.FileSystem.CloseInode` | pintos-3_vm/src/filesys/inode.c:164-186 | the same for closing an inode |
| `FileSystem.FileSystem.FileWrite` | pintos-3_vm/src/filesys/file.c:95-100 | writing sector by sector through the open inode takes the byte-level step |
| `FileSystem.FileSystem.FileRead` | pintos-3_vm/src/filesys/file.c:69-74 | reading through the open inode gives that stretch of the file's bytes, all that was asked for or all up to the end |
| `FileSystem.FileSystem.AddEntry` | pintos-3_vm/src/filesys/directory.c:142-179 | the same for adding a directory entry, slot search included |
| `Scheduler.LeaveKeeps` | pintos-3_vm/src/threads/thread.c:577-592 | giving up the processor keeps the invariant of statuses, lists and counts |
| `Scheduler.UpKeeps` | pintos-3_vm/src/threads/synch.c:111-123 | sema_up unblocks only a blocked waiter and keeps it |
| `Scheduler.StepKeeps` | pintos-3_vm/src/threads/synch.c:61-123 | every step of every thread keeps it, a woken thread re-testing in its loop included |
| `Scheduler.RunKeeps` | pintos-3_vm/src/threads/synch.c:61-123 | it holds in every reachable state, whatever the interleaving |
| `Scheduler.SemaphoreLaws` | pintos-3_vm/src/threads/synch.c:61-123 | while threads wait, as many woken threads as the semaphore has units are on their way; completed downs plus value equal initial value plus ups |
| `Scheduler.NoAssertionFails` | pintos-3_vm/src/threads/thread.c:214-243 | no assertion of block, unblock and schedule fails in any run |
| `Scheduler.OneListEach` | pintos-3_vm/src/threads/thread.c:214-315 | a thread is on the ready list exactly once iff it is ready, and on a wait list only if blocked, never on two lists |
| `Scheduler.ReadyAfter` | pintos-3_vm/src/threads/thread.c:515-592 | a switch takes the head of the ready list and nothing else reorders it |
| `Scheduler.KeepsPlace` | pintos-3_vm/src/threads/thread.c:515-592 | a ready thread moves up one place with each switch |
| `Scheduler.DispatchedInOrder` | pintos-3_vm/src/threads/thread.c:515-592 | the thread at index k runs first at exactly the (k+1)-th switch |
| `Wakeups.StepEffect` | pintos-3_vm/src/threads/thread.c:214-315 | every step either switches, to the head of the ready list or the idle thread, the leaver taking its new status and a yielder the last place, or stays and puts those it wakes at the end; no other thread is touched |
| `Wakeups.SemaphoreAfter` | pintos-3_vm/src/threads/synch.c:61-123 | across any step a semaphore gains a unit and loses its first waiter by sema_up, loses a unit or gains a last waiter by a test, and is otherwise untouched |
| `Wakeups.WaiterKeepsPlace` | pintos-3_vm/src/threads/synch.c:61-123 | in any run a thread asleep on a semaphore moves up one place with each sema_up on it, and nothing else moves it |
| `Wakeups.WokenInOrder` | pintos-3_vm/src/threads/synch.c:111-123 | the waiter at index i sleeps until exactly the (i+1)-th sema_up, which makes it ready at the end of the ready list |
| `Threads.ThreadSystem.SemaDown` | pintos-3_vm/src/threads/synch.c:61-74 | whatever the others do while it is off the processor, the thread comes back from the loop only when its own test found a unit, and takes it |
| `Monitor.StepKeeps` | pintos-3_vm/src/threads/synch.c:195-340 | every step of lock and condition operations keeps the invariant of owners, signals and sleepers |
| `Monitor.MutualExclusion` | pintos-3_vm/src/threads/synch.c:195-238 | in every reachable state the owners of a lock, the window before the holder is set included, plus its semaphore value are one |
| `Monitor.NoLockWakeupLost` | pintos-3_vm/src/threads/synch.c:61-123 | in every reachable state, while threads sleep on a free lock some thread is awake in its sema_down and about to take it |
| `LockOrder.LockAfter` | pintos-3_vm/src/threads/synch.c:61-123 | across any step a lock's semaphore gains the unit and loses its first sleeper by a release, loses the unit or gains a last sleeper by a test, and its holder is set by the taker and cleared before the release |
| `LockOrder.SleeperKeepsPlace` | pintos-3_vm/src/threads/synch.c:61-123 | in any run a thread asleep on a lock moves up one place with each sema_up of a release, and nothing else moves it |
| `LockOrder.SleepersWokenInOrder` | pintos-3_vm/src/threads/synch.c:111-123 | in every reachable state the sleeper at index i is asleep until exactly the (i+1)-th such sema_up, and then off the list and able to test again |
| `Monitor.SignalsAreKept` | pintos-3_vm/src/threads/synch.c:290-324 | a waiter off the list has exactly one unit under way or waiting for it, even between its lock_release and sema_down, and a thread whose unit is there is awake to take it |
| `Monitor.SignalReleasesOldest` | pintos-3_vm/src/threads/synch.c:314-324 | a signal takes the longest-waiting waiter; when it is done, whatever others did meanwhile, that waiter's thread and no other is awake to take the one unit |
| `Monitor.WaitReturnsSignalled` | pintos-3_vm/src/threads/synch.c:290-304 | cond_wait returns only to its caller, after a signal for its own waiter, with the lock re-held |
| `Monitor.HolderGuardsList` | pintos-3_vm/src/threads/synch.c:290-340 | while a thread holds the lock no other thread changes the condition's list |
| `Monitor.BroadcastWakesAll` | pintos-3_vm/src/threads/synch.c:333-340 | a broadcast leaves the list empty and every thread that was on it awake, its unit there to take or taken, whatever the others do meanwhile |
| `Locks.LockSystem.LockDown` | pintos-3_vm/src/threads/synch.c:61-74 | the loop of sema_down on a lock, re-tested at each wake-up with others running in between, ends with the unit taken; else the thread is asleep |
| `Locks.LockSystem.LockAcquire` | pintos-3_vm/src/threads/synch.c:195-203 | on return the caller holds the lock, whatever the others did |
| `Locks.LockSystem.LockTryAcquire` | pintos-3_vm/src/threads/synch.c:212-223 | takes the lock exactly when its semaphore has the unit, and then holds it on return |
| `Locks.LockSystem.LockRelease` | pintos-3_vm/src/threads/synch.c:231-238 | on return the lock is free and, if threads sleep on it, one is awake to take it |
| `Locks.LockSystem.CondWait` | pintos-3_vm/src/threads/synch.c:290-304 | the whole call: back with the lock held, and only after this call's own waiter was signalled and its unit taken |
| `Locks.LockSystem.CondBroadcast` | pintos-3_vm/src/threads/synch.c:333-340 | the whole loop, others running between and within its signals: the list ends empty and every thread that waited is awake |
| `HeapModel.DescriptorTable` | pintos-3_vm/src/threads/malloc.c:71-85 | the seven size classes and their block counts are what malloc_init computes |
| `Malloc.MallocInit` | pintos-3_vm/src/threads/malloc.c:71-85 | its loop makes exactly those |
| `HeapModel.BlocksApart` | pintos-3_vm/src/threads/malloc.c:284-294 | different blocks of an arena, or of different arenas, share no byte |
| `HeapModel.BlockPlace` | pintos-3_vm/src/threads/malloc.c:266-282 | rounding a block's address down finds its arena and the alignment assertion holds |
| `HeapTheorems.MallocRoom` | pintos-3_vm/src/threads/malloc.c:109-154 | the block malloc returns has room for the size asked for if and only if that is below 0xFFFFFFF5 |
| `HeapTheorems.WrappedRequestExample` | pintos-3_vm/src/threads/malloc.c:109-120 | a request of 2^32 - 1 bytes on a fresh page succeeds with 4084 bytes |
| `HeapRuns.MallocKeeps` | pintos-3_vm/src/threads/malloc.c:89-154 | malloc keeps the heap invariant, returns a block nobody holds and changes no byte |
| `HeapRuns.FreeKeeps` | pintos-3_vm/src/threads/malloc.c:218-264 | free trips no assertion, keeps the invariant, gives up exactly that block and keeps the bytes of every other live block |
| `HeapTheorems.MallocFails` | pintos-3_vm/src/threads/malloc.c:89-154 | malloc fails if and only if its class has no free block and no page is free, or for a big block the page count wraps to none or no run of pages is long enough |
| `HeapTheorems.ReallocKeeps` | pintos-3_vm/src/threads/malloc.c:194-214 | realloc moves the common prefix to a new block, gives the old one up, and changes nothing on failure |
| `HeapTheorems.ReallocFails` | pintos-3_vm/src/threads/malloc.c:194-214 | realloc, of a held block too, gives none if and only if the size is 0 or malloc has nothing for it while the old block is still held |
| `HeapTheorems.FreeThenMalloc` | pintos-3_vm/src/threads/malloc.c:89-264 | a small block given back to an arena that stays is the next of its class to be handed out, and then lists, arenas and page map are as they were |
| `HeapTheorems.BlocksAreSound` | pintos-3_vm/src/threads/malloc.c:89-294 | after any run live blocks are large enough, inside their arena past the header, and pairwise disjoint |
| `HeapTheorems.CountersAgree` | pintos-3_vm/src/threads/malloc.c:218-264 | after any run each arena's counter is its number of free blocks and no arena is wholly free |
| `HeapTheorems.BlockKeepsContent` | pintos-3_vm/src/threads/malloc.c:89-264 | a block keeps its bytes through any run that neither writes nor gives it up |
| `HeapReturns.EverythingReturns` | pintos-3_vm/src/threads/palloc.c:70-142 | once everything has been given back the page bitmap, the arenas and the free lists are as at the start |
| `Malloc.Allocator.Malloc` | pintos-3_vm/src/threads/malloc.c:89-154 | the search, refill and pop in place are the specified step |
| `Malloc.Allocator.UnlinkBlocks` | pintos-3_vm/src/threads/malloc.c:247-251 | the loop that unlinks an arena's blocks removes exactly that arena's |
| `Malloc.Allocator.Free` | pintos-3_vm/src/threads/malloc.c:218-264 | free in place is the specified step |
| `Malloc.Allocator.Realloc` | pintos-3_vm/src/threads/malloc.c:194-214 | realloc in place is the specified step |
| `Clock.SearchEnds` | pintos-3_vm/vm/frame.c:95-128 | over two pages or more the search ends, within two sweeps, if and only if some page past the head is not pinned |
| `Clock.SecondChance` | pintos-3_vm/vm/frame.c:113-128 | it takes the first page in clock order that is neither pinned nor accessed; only if there is none, the first unpinned one, every bit having been cleared |
| `Clock.SweepVisits` | pintos-3_vm/vm/frame.c:95-111 | a sweep visits every page but the head |
| `Clock.HeadUnpinnedExample` | pintos-3_vm/vm/frame.c:113-128 | with the head alone unpinned no page is ever taken |
| `Clock.ReturnsIff` | pintos-3_vm/vm/frame.c:95-111 | some activation of the hand function returns, the first or the second, if and only if two pages or more are listed; with one page none does, however deep |
| `VmModel.SwapOutFinds` | pintos-3_vm/vm/swap.c:57-79 | a slot is found if and only if one is free, and it is the lowest |
| `VmModel.SwapRoundTrip` | pintos-3_vm/vm/swap.c:28-79 | a page swapped out comes back from its slot, which is free again |
| `VmTheorems.EvictKeeps` | pintos-3_vm/vm/frame.c:114-156 | eviction frees one unpinned page's frame and leaves its bytes to be rebuilt; every other entry is unchanged |
| `VmTheorems.NextSearchBegins` | pintos-3_vm/vm/frame.c:38-156 | an eviction leaves the hand on the page behind the evicted one, or at the end; the next search starts with the page after that one and comes to it last |
| `VmTheorems.UsedPageIsSpared` | pintos-3_vm/vm/frame.c:113-128 | a page used since the hand passed is not the next one evicted while another unpinned page past the head has not been used |
| `VmTheorems.SwapFullLosesPage` | pintos-3_vm/vm/frame.c:131-151 | a page that goes to swap can be rebuilt if and only if a slot was free |
| `VmTheorems.FilePageSurvives` | pintos-3_vm/vm/frame.c:140-147 | a dirty mapped page survives if and only if the running thread sees its bytes at that address and the file is writable, or the file already held them |
| `VmExamples.SwapFullExample` | pintos-3_vm/vm/frame.c:131-151 | four steps on one slot of swap lead to a state whose next eviction loses a page |
| `VmExamples.OtherThreadExample` | pintos-3_vm/vm/frame.c:140-147 | evicting a mapped page while another thread runs writes that thread's page to the file |
| `VmTheorems.LoadKeeps` | pintos-3_vm/vm/page.c:107-118 | a page that comes in holds what it held when it went out and disturbs no other |
| `VmTheorems.LoadedComesLast` | pintos-3_vm/vm/frame.c:28-66 | a page that comes in joins the end of the list: the hand comes first to all the pages behind it, in order, and then to the new one |
| `VmTheorems.PagingIsTransparent` | pintos-3_vm/vm/frame.c:46-156 | after any run every loaded page holds, and every evicted page rebuilds to, what plain memory would hold; no two share a frame or slot |
| `VirtualMemory.LoadFile` | pintos-3_vm/vm/page.c:107-118 | load_file through the inode layer succeeds if and only if the file reaches far enough, and then builds the entry's page |
| `VirtualMemory.Swap.SwapOut` | pintos-3_vm/vm/swap.c:57-79 | the eight sector writes put the page in the slot and leave other slots alone |
| `VirtualMemory.Swap.SwapIn` | pintos-3_vm/vm/swap.c:28-55 | the eight reads bring it back |
| `VirtualMemory.VirtualMemory.GetNextLruClock` | pintos-3_vm/vm/frame.c:95-111 | the recursion returns within a given depth exactly when one of its activations does, and then at the next page in circular order past the head |
| `VirtualMemory.VirtualMemory.FindVictim` | pintos-3_vm/vm/frame.c:120-128 | the loop ends at the specified victim with exactly the passed pages' bits cleared |
| `VirtualMemory.VirtualMemory.TryToFreePages` | pintos-3_vm/vm/frame.c:114-156 | eviction in place is the specified step |
| `PageTable.PackUnpack` | pintos-3_vm/src/threads/pte.h:70-104 | an entry made for a page leads back to it with the rights asked for |
| `PageTable.IndexesNamePage` | pintos-3_vm/src/threads/pte.h:32-39 | the directory and table indexes together name a page and nothing less |
| `PageTable.SetPageMaps` | pintos-3_vm/src/userprog/pagedir.c:106-127 | setting a page is a map update that leaves every other page alone; it fails only for want of a table page |
| `PageTable.GetPageReads` | pintos-3_vm/src/userprog/pagedir.c:133-145 | getting a page is a map lookup plus the offset |
| `PageTable.ClearPageUnmaps` | pintos-3_vm/src/userprog/pagedir.c:151-165 | clearing a page is a map removal that leaves every other page alone |
| `PageTable.AccessedKeepsMappings` | pintos-3_vm/src/userprog/pagedir.c:200-223 | setting or clearing the accessed bit does that, keeps the dirty bit, and changes no mapping |
| `PageTable.DirtyKeepsMappings` | pintos-3_vm/src/userprog/pagedir.c:171-194 | the same for the dirty bit |
| `PageTable.DestroyFrees` | pintos-3_vm/src/userprog/pagedir.c:35-56 | destroying frees the frame of every mapped user page and every user page table, and nothing else |
| `PageRuns.RunKeeps` | pintos-3_vm/src/userprog/pagedir.c:106-223 | from creation on, setting, clearing and marking pages never maps a frame twice or maps a page table |
| `PageRuns.DestroyFreesOnce` | pintos-3_vm/src/userprog/pagedir.c:35-56 | so after any such run destroying frees each of them exactly once |
| `PageDirectory.PageDirectory.LookupPage` | pintos-3_vm/src/userprog/pagedir.c:64-94 | the lookup in place returns the entry's place and makes a table only when asked |
| `PageDirectory.PageDirectory.SetPage` | pintos-3_vm/src/userprog/pagedir.c:106-127 | setting in place is the specified step |
| `PageDirectory.PageDirectory.Destroy` | pintos-3_vm/src/userprog/pagedir.c:35-56 | the nested loops free the specified pages in order |
| `Loader.ValidateMeans` | pintos-3_vm/src/userprog/process.c:706-747 | the wrapped tests accept exactly the segments that lie in user memory past page 0 in true arithmetic |
| `Loader.PlanIsExact` | pintos-3_vm/src/userprog/process.c:645-670 | for a valid segment no sum wraps, no difference goes below zero, and the pages are those the segment touches |
| `Loader.RunIsSegment` | pintos-3_vm/src/userprog/process.c:645-670 | the loaded run of pages is the segment: byte p_offset+k at p_vaddr+k for k < p_filesz, zero up to p_memsz |
| `Loader.Process.LoadSegment` | pintos-3_vm/src/userprog/process.c:763-806 | succeeds if and only if the file has the bytes, memory and page tables can be had and no page is mapped yet; other pages are unchanged in any case |
| `UserPages.InstallShows` | pintos-3_vm/src/userprog/process.c:838-846 | installing a filled frame in the two-level table adds exactly that page to what the table shows |
| `Loader.Process.InstallPage` | pintos-3_vm/src/userprog/process.c:838-846 | install_page through the page directory succeeds if and only if the page is free and a page table can be had |
| `Loader.Process.LoadPhdr` | pintos-3_vm/src/userprog/process.c:633-675 | a program header is taken if and only if it asks for no dynamic linking and, if loadable, is valid, has its bytes in the file, and its pages are new and to be had; every other kind is ignored |
| `Loader.FitsOneMore` | pintos-3_vm/src/userprog/process.c:618-676 | one more header fits if and only if it fits into the pages and the memory that the headers before it leave |
| `Loader.Process.LoadSegments` | pintos-3_vm/src/userprog/process.c:618-676 | the loop over the program headers succeeds if and only if all of them are in the file and can be loaded, and then their pages are mapped, no others, and each loadable segment is in memory |
| `Loader.Process.Load` | pintos-3_vm/src/userprog/process.c:582-693 | loading succeeds if and only if the executable header is as demanded, every program header is in the file and of a kind that is taken, every loadable segment is valid with its bytes in the file, the pages of all segments and the stack are new, different and to be had; then every segment is where user accesses through the page table find it, byte for byte, the stack page is zero, and the entry point is the header's |
| `ArgTokens.StrtokR` | pintos-3_vm/src/lib/string.c:234-275 | cuts off the next word in place and leaves the rest to be tokenised |
| `ArgTokens.TokensAreWords` | pintos-3_vm/src/lib/string.c:234-275 | no token is empty or has a space, and together they are the text without its spaces |
| `ArgTokens.Strlcpy` | pintos-3_vm/src/lib/string.c:326-343 | copies the string cut to size - 1 bytes and ends it |
| `ArgTokens.ExtractCommand` | pintos-3_vm/src/userprog/process.c:308-328 | the argument pointers are the command's words in order, followed by null |
| `ArgStack.StackDecodes` | pintos-3_vm/src/userprog/process.c:233-278 | a finished stack decodes to the arguments, word-aligned, with return address 0 |
| `ArgStack.PushArguments` | pintos-3_vm/src/userprog/process.c:233-278 | the pushes lay out exactly that stack and touch nothing below it |
| `ArgStack.InitialStack` | pintos-3_vm/src/userprog/process.c:215-278 | from the final stack pointer a program finds exactly the command's words, for any command of fewer than 100 words that fits the page |
| `Printf.DigitsReadBack` | pintos-3_vm/src/lib/stdio.c:501-524 | the numeral, commas aside, stands for the value in its base, whatever the flags and precision |
| `Printf.BufferFits` | pintos-3_vm/src/lib/stdio.c:475-524 | no 64-bit conversion overruns the 64-byte buffer |
| `Printf.FieldWidth` | pintos-3_vm/src/lib/stdio.c:526-546 | the field has max(width, natural length) characters if and only if '-' and '0' are not both in force with padding to do |
| `Printf.NumeralLength` | pintos-3_vm/src/lib/stdio.c:515-524 | the precision is honoured if and only if it is at most 63 or the digits suffice |
| `PrintfParse.ParseConversion` | pintos-3_vm/src/lib/stdio.c:340-455 | the loops over flags, width and precision give the conversion that the options mean |
| `PrintfParse.WrittenParses` | pintos-3_vm/src/lib/stdio.c:340-455 | a conversion written out as flags, width and precision is parsed back to itself, up to the character behind it |
| `PrintfParse.FormatWidth` | pintos-3_vm/src/lib/stdio.c:340-546 | a conversion fills its field exactly unless the flags have '0' and no '-', no precision is given and a negative * width exceeds the natural length |
| `PrintfParse.DoublePaddingExample` | pintos-3_vm/src/lib/stdio.c:340-546 | %0*d with -5 and 7 puts out nine characters |
| `PrintfParse.LongPrecisionExample` | pintos-3_vm/src/lib/stdio.c:340-524 | %.64d with 7 puts out 63 digits |
| `Printf.FillBuffer` | pintos-3_vm/src/lib/stdio.c:501-524 | the loops fill the buffer with that numeral, least digit first |
| `Printf.FormatInteger` | pintos-3_vm/src/lib/stdio.c:469-547 | outputs the specified text, and the text shows the number to a reader |
| `Printf.TextShows` | pintos-3_vm/src/lib/stdio.c:469-547 | a reader of the text finds the number with its sign, + exactly for the plus flag on a nonnegative signed value, the base's prefix and letter case, no padding behind it without -, none before it with - or 0, and a leading zero only where 0, the precision or # asks for it |
| `Printf.NumeralShape` | pintos-3_vm/src/lib/stdio.c:501-524 | commas stand after every three digits, four in hexadecimal, of the value and nowhere else, only with the group flag; leading zeros only as the precision or octal # asks |
| `Printf.FormatString` | pintos-3_vm/src/lib/stdio.c:560-572 | outputs the string in a field of at least the width |
| `Printf.Aux.Put` | pintos-3_vm/src/lib/stdio.c:44-52 | stores a character only while there is room and counts all |
| `Printf.Aux.Finish` | pintos-3_vm/src/lib/stdio.c:25-42 | the buffer ends up with the first bufSize - 1 characters and a null, and the full count is returned |
| `Ustar.StripIdempotent` | pintos-3_vm/src/lib/ustar.c:65-73 | stripping prefixes twice is stripping once |
| `Ustar.OctalTextIs` | pintos-3_vm/src/lib/ustar.c:102-115 | the octal fields have their full width and stand for their value |
| `Ustar.ParseOctalIs` | pintos-3_vm/src/lib/ustar.c:128-162 | a field is read if and only if it is octal digits ended by a space or a null that stand for a 32-bit number, and as that number |
| `Ustar.CalculateChksum` | pintos-3_vm/src/lib/ustar.c:35-54 | sums the header with the checksum field taken for spaces |
| `Ustar.MakeHeader` | pintos-3_vm/src/lib/ustar.c:82-118 | succeeds if and only if the stripped name has at most 99 bytes, and then composes the whole header |
| `Ustar.ParseHeader` | pintos-3_vm/src/lib/ustar.c:181-227 | the checks in order give the specified result or message |
| `Ustar.ParseAccepts` | pintos-3_vm/src/lib/ustar.c:181-227 | the parser takes exactly the headers with magic, version, checksum, name, type and size as the format has them, and exactly a block of zeros for the end |
| `Ustar.HeaderRoundTrip` | pintos-3_vm/src/lib/ustar.c:82-227 | parsing undoes composing: name and type come back, a regular file's size exactly if it was not negative, a directory's as 0 |
| `Archive.Appender.Append` | pintos-2_userprog/src/filesys/fsutil.c:166-223 | the file is opened, read chunk by chunk and closed; it succeeds if and only if the file is there and the name and the device allow it, and then the file follows the archive and two zero sectors end it |
| `Archive.AppendExtends` | pintos-2_userprog/src/filesys/fsutil.c:166-223 | appending one file after others makes the archive of all |
| `FsStore.PutFileEffect` | pintos-2_userprog/src/filesys/fsutil.c:120-141 | creating, opening, writing chunk by chunk and closing a file succeeds if and only if it fits next, and then the directory holds it, with its bytes, and the others |
| `Archive.Extractor.Extract` | pintos-2_userprog/src/filesys/fsutil.c:72-156 | the loop over headers and data, each file created, opened, written through file_write and closed, is the specified extraction; then the first two sectors are erased |
| `Archive.ExtractRestores` | pintos-2_userprog/src/filesys/fsutil.c:72-156 | extraction of an archive does not panic if and only if all its files fit, and then the directory holds exactly them after what it held |
| `Archive.Transfer` | pintos-2_userprog/src/filesys/fsutil.c:72-223 | the round trip: files appended one by one from one file system and extracted into a fresh one come back with their bytes, if and only if they are there and fit |

## Left out

- The words inside an arena header and a free block are kept apart from the bytes of memory, so a caller who writes outside its block is not modelled; `calloc` is left out.
- struct inode, struct file and directory entries are records in sequences and maps, found by sector or number instead of by pointer.
- Failures of bounce buffers and of the device inside directory and free-map I/O. The bytes of the free map's and the directory's own files are kept apart, as a bit sequence and as typed slots.
- One file system operation is not interleaved with another (the source holds no lock inside these files).
- `off_t` sums in read and write, the length of a formatted string and the value of a semaphore do not reach the end of their integer types.
- Each stretch of code with interrupts off is one step of the thread machines; time slices are yields at any point between steps. The idle thread's halting loop is not modelled.
- Of `thread.c` only the switch inside `sema_down` also runs in place; blocking, yielding, exiting and `sema_up` are steps on values.
- Locks.LockSystem.CondWait: a call that is out of turns returns false with its thread asleep; that the others will let it run again is up to them, so no waiting time is bounded.
- Thread priorities, which this scheduler ignores, and the thread stacks' memory.
- The `list` and `hash` libraries: lists are sequences, the table of vm_entries is a map from thread and page.
- The page-fault handler that would call `alloc_page`, `load_file` and `swap_in` is not in the repository; `VmModel.PageIn` stands for it and takes the frame that `palloc_get_page` gives.
- VmTheorems.PagingIsTransparent: bytes of a mapped file's page past its read_bytes are not promised to outlive an eviction, because the code writes only read_bytes of them.
- The accessed bit that the kernel's own copy from a user address sets during a write-back.
- Swap slots of evicted pages that are unmapped stay in use, as in the source; no statement about their number is made.
- The kernel half of a page directory and the processor's TLB.
- Loader.Process.Load: which page `palloc_get_page` gives for the page table of each directory entry, or none, is fixed beforehand; the executable stays the same while it is read.
- ArgStack.InitialStack: requires fewer than 100 words and a stack within its page, because the source overruns its arrays otherwise.
- `printf`'s loop over the format, its type modifiers and varargs; widths and precisions beyond 32 bits, where C has signed overflow.
- Arithmetic64.Sdiv64IsTruncating: the modelled arithmetic wraps silently where C has signed overflow, in the negations of `sdiv64` and the products of `smod64`.
- The `fsutil_append` of `pintos-3_vm/src/filesys/fsutil.c`, which writes its second end block over the first, from one byte further on in the buffer; the model is of the second project's, which writes two.
- Archive.Transfer: malloc, the bounce buffers and the free map's writes do not fail; a panic is a return of false, and what it leaves behind is not described.
- The console, timer, interrupt, disk and partition drivers, the real-time clock, the system calls, and the exec and wait mailbox.
