# Verified models of the Pintos kernel

The project models `lab_2/pintos/src`, a small 32-bit kernel, and proves what its hardest parts promise. Pointers,
`size_t` and `unsigned long` are 32 bits wide. Sums that can wrap are written with their modulus.

| file | what it models |
|---|---|
| `Basics.dfy` | constants, options and small facts that the others share |
| `Arithmetic.dfy` | 64-bit division and remainder from a 32-bit divide instruction |
| `Scheduler.dfy`, `Kernel.dfy` | the round-robin scheduler, as steps on values and as in-place code |
| `Synch.dfy`, `SynchWait.dfy`, `SynchSteps.dfy`, `SynchLock.dfy`, `SynchCond.dfy`, `SynchRuns.dfy`, `SynchBroadcast.dfy`, `SynchCalls.dfy` | semaphores, locks and condition variables as a step machine over any number of threads, and what holds in all its runs |
| `List.dfy`, `ListOps.dfy`, `MergeTheory.dfy` | doubly linked lists with two sentinels, natural merge sort, reversal, ordered insertion, removal of duplicates |
| `Hash.dfy` | the hash table with its resizing and iteration |
| `Heapsort.dfy` | heap sort and binary search |
| `Bitmap.dfy`, `Palloc.dfy`, `MallocHeap.dfy`, `Malloc.dfy` | the word-packed bitmap, the page allocator on it, and size-class arenas on pages |
| `Disk.dfy`, `Inode.dfy`, `Directory.dfy`, `FsMap.dfy`, `FsOwnership.dfy`, `FileSys.dfy`, `FsLeak.dfy`, `FsMount.dfy` | a device of sectors, file bytes through bounce buffers, directories, the free map on disk, sector ownership, files by name, a sector that leaks, starting from an existing disk |
| `PageTables.dfy`, `PageDir.dfy`, `ProcessExit.dfy`, `Loader.dfy` | two-level page tables with a TLB, leaving an address space under preemption, loading ELF segments |
| `Format.dfy`, `Ustar.dfy` | integer formatting and ustar archive headers |

How outside things enter the model:

- A memory allocation that can fail is a parameter that says whether it succeeds, or how many reads of a scan find a
  bounce buffer. Results are stated for all values of these parameters.
- A step of the thread machine is the code between disabling and restoring interrupts, or up to a context switch
  inside it. The context switch, the divide instruction and loading the page directory register are primitives.
- The TLB may hold any translation the CPU has walked since the directory register was last loaded.
- Comparison functions are strict weak orders (list, hash) or total preorders (heap sort), and hash functions agree on
  equal elements.

Where the code falls short of what its comments promise, the code is modelled as it is. For each case an input that
shows it and the exact condition are proved:

- `umod64` and `smod64` return 32-bit types, so they give the remainder for all dividends only for divisors of size at
  most 2^32 and 2^31; `sdiv64` wraps for -2^63 / -1.
- `malloc` of more than 2^32 - 12 bytes wraps and can return a block that is too small (`BigEnough`, `WrappedRequest`).
- A semaphore's value counts modulo 2^32 (`SemaphoreConserves`, `ValueWraps`).
- `dir_add` can add a name twice or overwrite an entry, exactly when a read of the directory is cut short for lack of
  memory at the wrong place (`FillRefines`, `GoodSlotWhen`, `DuplicateName`, `OverwrittenName`).
- `filesys_create` leaves data sectors marked, exactly when sector and extent could be had but the directory could not
  take the name, and the file has data (`CreateFile`, `LeakedSector`).
- `bitmap_scan_and_flip` for a count of 0 returns its start index, so 0 only for a start of 0 (`EmptyGroup`,
  `EmptyGroupNotZero`).
- A ustar header made for a regular file of negative size does not parse (`RoundTrip`).

## Model

| member | source | states |
|---|---|---|
| `Arithmetic.Divl` | lab_2/pintos/src/lib/arithmetic.c:25-37 | the quotient of a 64-bit by a 32-bit word, under the condition on which the instruction does not trap |
| `Arithmetic.Nlz` | lab_2/pintos/src/lib/arithmetic.c:41-73 | exactly the number of leading zeros of a nonzero word |
| `Arithmetic.LeadingZerosNormalise` | lab_2/pintos/src/lib/arithmetic.c:41-73 | shifting by that number normalises the word: the top bit is set and none is lost |
| `Arithmetic.Estimate` | lab_2/pintos/src/lib/arithmetic.c:121-123 | the estimate from the normalised divisor is the true quotient or one more |
| `Arithmetic.EstimateQuotient` | lab_2/pintos/src/lib/arithmetic.c:121-123 | computes that estimate; the division it uses never traps |
| `Arithmetic.CorrectionIsExact` | lab_2/pintos/src/lib/arithmetic.c:124-124 | the test on the remainder of q - 1 picks the right one of the two without wrapping |
| `Arithmetic.DivideLarge` | lab_2/pintos/src/lib/arithmetic.c:119-125 | divisors above 32 bits: q * d <= n < (q + 1) * d |
| `Arithmetic.DivideSmall` | lab_2/pintos/src/lib/arithmetic.c:80-112 | divisors of 32 bits: two chained divisions give n / d |
| `Arithmetic.Udiv64` | lab_2/pintos/src/lib/arithmetic.c:77-127 | n / d for every 64-bit n and nonzero d |
| `Arithmetic.Umod64` | lab_2/pintos/src/lib/arithmetic.c:131-135 | the remainder reduced to 32 bits |
| `Arithmetic.UmodExactDivisors` | lab_2/pintos/src/lib/arithmetic.c:131-135 | a divisor gives the true remainder for all dividends if and only if it is at most 2^32 |
| `Arithmetic.SignedQuotient` | lab_2/pintos/src/lib/arithmetic.c:139-146 | the signed reading of the unsigned quotient is right except for -2^63 / -1 |
| `Arithmetic.Sdiv64` | lab_2/pintos/src/lib/arithmetic.c:139-146 | truncation toward zero if and only if the operands are not -2^63 and -1 |
| `Arithmetic.Smod64` | lab_2/pintos/src/lib/arithmetic.c:150-154 | the signed remainder reduced to 32 bits |
| `Arithmetic.SmodExactDivisors` | lab_2/pintos/src/lib/arithmetic.c:150-154 | a divisor gives the true signed remainder for all dividends if and only if its size is at most 2^31 |
| `Arithmetic.TruncModRange` | lab_2/pintos/src/lib/arithmetic.c:150-154 | the remainder is smaller than the divisor and has the sign of the dividend |
| `Scheduler.InitSchedInv` | lab_2/pintos/src/threads/thread.c:88-102 | the scheduler invariant holds at boot |
| `Scheduler.NextIsLive` | lab_2/pintos/src/threads/thread.c:493-569 | the assertions of schedule hold, and the thread chosen is not the dying one |
| `Scheduler.ScheduleInv` | lab_2/pintos/src/threads/thread.c:493-569 | schedule keeps: one running thread, a run queue of exactly the ready threads without repeats, dying pages freed once and only after the switch |
| `Scheduler.ScheduleKeepsBlocked` | lab_2/pintos/src/threads/thread.c:493-569 | schedule blocks and unblocks nobody but the idle thread |
| `Scheduler.BlockInv` | lab_2/pintos/src/threads/thread.c:221-231 | thread_block keeps the invariant |
| `Scheduler.UnblockInv` | lab_2/pintos/src/threads/thread.c:239-251 | thread_unblock keeps the invariant |
| `Scheduler.YieldInv` | lab_2/pintos/src/threads/thread.c:309-323 | thread_yield keeps the invariant |
| `Scheduler.ExitInv` | lab_2/pintos/src/threads/thread.c:288-306 | thread_exit keeps the invariant; the page is handed to the next thread to free |
| `Scheduler.TickInv` | lab_2/pintos/src/threads/thread.c:123-140 | a timer tick, with the yield on return at the end of a slice, keeps the invariant |
| `Scheduler.SpawnInv` | lab_2/pintos/src/threads/thread.c:166-218 | thread_create adds a blocked thread and keeps the invariant |
| `Scheduler.SetIdleInv` | lab_2/pintos/src/threads/thread.c:396-423 | the start of the idle thread keeps the invariant |
| `Scheduler.SchedStepInv` | lab_2/pintos/src/threads/thread.c:221-323 | every step keeps the invariant |
| `Scheduler.RunInv` | lab_2/pintos/src/threads/thread.c:221-569 | every run keeps the invariant |
| `Scheduler.RoundRobin` | lab_2/pintos/src/threads/thread.c:493-569 | a thread at position k of the run queue is chosen by exactly the (k+1)-th later call of schedule, and by none before |
| `Scheduler.TicksArePaid` | lab_2/pintos/src/threads/thread.c:123-140 | no four ticks pass without a call of schedule |
| `Scheduler.TickEffect` | lab_2/pintos/src/threads/thread.c:123-140 | a tick is on the clock and calls schedule if and only if three of the slice have passed |
| `Scheduler.FourthTick` | lab_2/pintos/src/threads/thread.c:123-140 | in every run, a tick calls schedule if and only if it is the fourth since the last call |
| `Scheduler.BoundedWait` | lab_2/pintos/src/threads/interrupt.c:344-389 | so a thread at position k runs within 4 (k + 1) timer ticks |
| `Kernel.Cpu.NextThreadToRun` | lab_2/pintos/src/threads/thread.c:493-500 | pops the front of the run queue, or gives the idle thread |
| `Kernel.Cpu.ThreadScheduleTail` | lab_2/pintos/src/threads/thread.c:518-547 | the new thread runs, its slice starts at 0, and a dying predecessor is freed unless it is the initial thread |
| `Kernel.Cpu.ScheduleNext` | lab_2/pintos/src/threads/thread.c:555-569 | the in-place form computes the step Schedule |
| `Kernel.Cpu.ThreadBlock` | lab_2/pintos/src/threads/thread.c:221-231 | the in-place form computes the step Block |
| `Kernel.Cpu.ThreadUnblock` | lab_2/pintos/src/threads/thread.c:239-251 | the in-place form computes the step Unblock |
| `Kernel.Cpu.ThreadYield` | lab_2/pintos/src/threads/thread.c:309-323 | the in-place form computes the step Yield |
| `Kernel.Cpu.ThreadExit` | lab_2/pintos/src/threads/thread.c:288-306 | the in-place form computes the step Exit |
| `Kernel.Cpu.ThreadTick` | lab_2/pintos/src/threads/thread.c:123-140 | counts the tick and asks for a yield at the end of the slice |
| `Kernel.Cpu.TimerInterrupt` | lab_2/pintos/src/threads/interrupt.c:344-389 | the handler clears the yield flag, runs, and obeys the flag: the step Tick |
| `Kernel.Semaphore.DownPass` | lab_2/pintos/src/threads/synch.c:61-75 | one pass of the wait loop: a unit is taken or the thread queues and blocks, as the step machine says |
| `Kernel.Semaphore.SemaTryDown` | lab_2/pintos/src/threads/synch.c:83-103 | takes a unit if there is one, without waiting |
| `Kernel.Semaphore.SemaUp` | lab_2/pintos/src/threads/synch.c:108-121 | wakes the front waiter, if any, and adds a unit modulo 2^32 |
| `SynchSteps.StepGood` | lab_2/pintos/src/threads/synch.c:60-121 | every event of the machine keeps wait lists, wake-up bound, unit count and the scheduler invariant |
| `SynchSteps.InitGood` | lab_2/pintos/src/threads/synch.c:44-50 | these hold initially |
| `SynchLock.StepLock` | lab_2/pintos/src/threads/synch.c:192-237 | every event keeps: a lock has at most one owner, and a stored holder means semaphore value 0 |
| `SynchCond.StepCond` | lab_2/pintos/src/threads/synch.c:287-338 | every event keeps the waiter records of all condition variables in step with lists, semaphores and threads |
| `SynchRuns.RunKeepsInv` | lab_2/pintos/src/threads/synch.c:60-338 | every legal run keeps the whole invariant |
| `SynchRuns.ReachableInv` | lab_2/pintos/src/threads/synch.c:60-338 | it holds in every reachable state |
| `SynchRuns.SchedulerSafe` | lab_2/pintos/src/threads/thread.c:493-569 | in every reachable state no scheduler assertion has fired, one thread runs, the run queue is exactly the ready threads, and a dead thread was freed once, after the switch |
| `SynchRuns.OneListPerThread` | lab_2/pintos/src/threads/thread.h:77-82 | the list element shared by run queue and wait lists is never on two of them |
| `SynchRuns.SemaphoreConserves` | lab_2/pintos/src/threads/synch.c:60-121 | value = initial + ups - completed downs modulo 2^32, and exactly so if and only if that sum fits a word |
| `SynchRuns.ValueWraps` | lab_2/pintos/src/threads/synch.c:108-121 | a legal run of one sema_up from an interrupt handler after which a semaphore has value 0 although initial + ups - downs is 2^32 |
| `SynchRuns.NoLostWakeUp` | lab_2/pintos/src/threads/synch.c:60-121 | while threads wait, the value is at most the number of woken threads that have not tested again |
| `SynchRuns.QuiescentMeansEmpty` | lab_2/pintos/src/threads/synch.c:60-121 | if all threads but idle are blocked, nobody waits on a semaphore with units |
| `SynchRuns.MutualExclusion` | lab_2/pintos/src/threads/synch.c:192-237 | at most one thread between the return of lock_acquire and lock_release; it is the holder and the value is 0 |
| `SynchRuns.LockIsOwned` | lab_2/pintos/src/threads/synch.c:192-237 | the value is at most 1, and is 0 if and only if a thread holds, is storing or is clearing the lock |
| `SynchRuns.ListUnderLock` | lab_2/pintos/src/threads/synch.c:287-338 | only the holder of its lock changes the waiter list of a condition variable |
| `SynchRuns.CondWaitReturnsHolding` | lab_2/pintos/src/threads/synch.c:287-306 | cond_wait returns after its own signal, holding the lock |
| `SynchRuns.SignalFreesLongestWaiter` | lab_2/pintos/src/threads/synch.c:311-322 | a signal goes to the longest waiter and to no other |
| `SynchRuns.SignalIsNotLost` | lab_2/pintos/src/threads/synch.c:287-322 | from signal to notice the private semaphore is 1 and its waiter is not asleep on it, even if the signal comes before sema_down |
| `SynchRuns.OnlyDowner` | lab_2/pintos/src/threads/synch.c:287-306 | only the calling thread waits on the private semaphore |
| `SynchRuns.RunProjects` | lab_2/pintos/src/threads/synch.c:60-338 | every run of the machine is a run of the scheduler |
| `SynchRuns.ReadyThreadsRun` | lab_2/pintos/src/threads/thread.c:123-140 | so in every run a thread at position k of the run queue runs within 4 (k + 1) ticks |
| `SynchBroadcast.WaitLife` | lab_2/pintos/src/threads/synch.c:287-338 | no event skips or undoes a step in the life of a cond_wait call: queued, taken off by a signaller, signalled by that signaller, done |
| `SynchBroadcast.WakingReturns` | lab_2/pintos/src/threads/synch.c:311-338 | in every run, cond_signal and cond_broadcast hold the lock until they return and the list only shrinks; on return cond_broadcast has freed all that were on the list and left it empty, and cond_signal has freed the first and left the others |
| `SynchBroadcast.WakingNobody` | lab_2/pintos/src/threads/synch.c:311-338 | they return at once if and only if nobody waits |
| `SynchBroadcast.WakingEnds` | lab_2/pintos/src/threads/synch.c:330-338 | with n waiters the call returns at the latest at its own step 2n, whatever the others do |
| `SynchBroadcast.BroadcastFreesAll` | lab_2/pintos/src/threads/synch.c:330-338 | once the caller of cond_broadcast is back in its own code, or gone, every call that was on the list has been signalled, and stays so |
| `SynchCalls.CallBegins` | lab_2/pintos/src/threads/synch.c:60-306 | no call returns before a step of its own, but lock_try_acquire if and only if the lock is not free |
| `SynchCalls.CallReturns` | lab_2/pintos/src/threads/synch.c:60-306 | in every run, when a call returns: sema_down has taken a unit that was there, lock_acquire and lock_try_acquire have the lock, after lock_release it is free, cond_wait has been signalled on that condition variable and has the lock again, the thread that thread_create made is on the run queue |
| `SynchCalls.TryAcquireExact` | lab_2/pintos/src/threads/synch.c:210-222 | lock_try_acquire takes the lock if and only if it is free, and otherwise changes nothing |
| `SynchCalls.FirstComeFirstServed` | lab_2/pintos/src/threads/synch.c:60-121 | in every run, the thread at position i of a wait list is woken by exactly the (i+1)-th later sema_up and only moves forward until then |
| `SynchCalls.UpWakesFirst` | lab_2/pintos/src/threads/synch.c:108-121 | one unit more; the first waiter, if any, is off the list and at the back of the run queue |
| `SynchCalls.TryDownExact` | lab_2/pintos/src/threads/synch.c:83-103 | takes a unit if and only if there is one, and never waits |
| `SynchCalls.YieldGivesWay` | lab_2/pintos/src/threads/thread.c:309-323 | the front of the run queue runs and the caller stands at its back |
| `SynchCalls.ExitLeaves` | lab_2/pintos/src/threads/thread.c:288-306 | the caller is gone and its page given back, unless it is the initial thread; the front of the run queue runs, or the idle thread |
| `SynchCalls.TimerTicks` | lab_2/pintos/src/threads/thread.c:123-140 | the timer adds one tick and changes nothing but the scheduler |
| `SynchCalls.IdleStarts` | lab_2/pintos/src/threads/thread.c:396-401 | the idle thread makes itself known and then raises the semaphore that thread_start waits for |
| `SynchCalls.IdleGivesWay` | lab_2/pintos/src/threads/thread.c:403-422 | afterwards it blocks whenever it runs |
| `List.ListHead.constructor` | lab_2/pintos/src/lib/kernel/list.c:60-68 | an empty list of two linked sentinels |
| `List.ListHead.Insert` | lab_2/pintos/src/lib/kernel/list.c:168-177 | the element stands before the given one, links consistent both ways |
| `List.ListHead.Remove` | lab_2/pintos/src/lib/kernel/list.c:248-255 | the element is out, the rest keep their order; its successor is returned |
| `List.ListHead.SpliceWithin` | lab_2/pintos/src/lib/kernel/list.c:183-204 | a range moves inside one list |
| `List.ListHead.SpliceFrom` | lab_2/pintos/src/lib/kernel/list.c:183-204 | a range moves from one list to another |
| `ListOps.Reverse` | lab_2/pintos/src/lib/kernel/list.c:325-337 | the elements in reverse order, well linked |
| `List.FindEndOfRun` | lab_2/pintos/src/lib/kernel/list.c:357-372 | the end of the maximal nondescending run |
| `List.InplaceMerge` | lab_2/pintos/src/lib/kernel/list.c:379-396 | two adjacent runs become their stable merge, in place |
| `MergeTheory.MergeSorted` | lab_2/pintos/src/lib/kernel/list.c:379-396 | the merge of sorted runs is sorted |
| `MergeTheory.StableMerge` | lab_2/pintos/src/lib/kernel/list.c:379-396 | merging neighbouring runs keeps equal elements in order and loses nothing |
| `List.MergePass` | lab_2/pintos/src/lib/kernel/list.c:404-436 | one pass: r runs become at most half as many, rounded up, by a stable rearrangement |
| `List.Sort` | lab_2/pintos/src/lib/kernel/list.c:404-440 | a well-linked, sorted, stable permutation for every strict weak order, with termination |
| `ListOps.InsertSorted` | lab_2/pintos/src/lib/kernel/list.c:445-457 | inserting before the first greater element keeps order, after all equal ones |
| `ListOps.InsertOrdered` | lab_2/pintos/src/lib/kernel/list.c:445-457 | finds that place and inserts there |
| `ListOps.KeptAndDropped` | lab_2/pintos/src/lib/kernel/list.c:465-486 | survivors and duplicates together are the input |
| `ListOps.KeptNeighbours` | lab_2/pintos/src/lib/kernel/list.c:465-486 | no two neighbouring survivors are alike |
| `ListOps.KeptIncreases` | lab_2/pintos/src/lib/kernel/list.c:465-486 | of a sorted list the survivors increase strictly |
| `ListOps.Unique` | lab_2/pintos/src/lib/kernel/list.c:465-486 | with a list for the duplicates: the list keeps exactly the survivors and the duplicates move to the other list in order |
| `ListOps.UniqueAlone` | lab_2/pintos/src/lib/kernel/list.c:465-486 | without one: the list keeps exactly the survivors |
| `Heapsort.DoSwap` | lab_2/pintos/src/lib/stdlib.c:66-79 | two elements trade places, as whole elements |
| `Heapsort.SwapBytes` | lab_2/pintos/src/lib/stdlib.c:66-79 | the byte loop exchanges the bytes of two elements and changes no other byte |
| `Heapsort.MaxOfThree` | lab_2/pintos/src/lib/stdlib.c:97-118 | the greatest of a node and its children |
| `Heapsort.FloatDown` | lab_2/pintos/src/lib/stdlib.c:97-128 | swapping with the greatest child moves the only exception to the heap property down |
| `Heapsort.Heapify` | lab_2/pintos/src/lib/stdlib.c:97-128 | given heaps below i, a heap at i; a permutation of the heap part, terminating |
| `Heapsort.RootIsMax` | lab_2/pintos/src/lib/stdlib.c:131-152 | the root of a heap is a greatest element |
| `Heapsort.ExtractMax` | lab_2/pintos/src/lib/stdlib.c:146-151 | moving the root behind the heap extends the sorted part, which stays no smaller than the heap |
| `Heapsort.Sort` | lab_2/pintos/src/lib/stdlib.c:131-152 | a sorted permutation for every total preorder |
| `Heapsort.BinarySearch` | lab_2/pintos/src/lib/stdlib.c:184-207 | an element equal to the key, or none only if there is none |
| `Bits.MaskOps` | lab_2/pintos/src/lib/kernel/bitmap.c:156-192 | what or, and-not and exclusive-or with a one-bit mask do to every bit of a word |
| `Bitmap.LastMaskBits` | lab_2/pintos/src/lib/kernel/bitmap.c:65-70 | the last-word mask has exactly the bits that stand for something |
| `Bitmap.ElemCnt` | lab_2/pintos/src/lib/kernel/bitmap.c:49-54 | as few words as hold the bits |
| `Bitmap.BitmapObject.constructor` | lab_2/pintos/src/lib/kernel/bitmap.c:78-93 | all bits false |
| `Bitmap.BitmapObject.Mark` | lab_2/pintos/src/lib/kernel/bitmap.c:156-165 | sets one position of the boolean sequence |
| `Bitmap.BitmapObject.Reset` | lab_2/pintos/src/lib/kernel/bitmap.c:169-178 | clears one position |
| `Bitmap.BitmapObject.FlipBit` | lab_2/pintos/src/lib/kernel/bitmap.c:184-193 | flips one position |
| `Bitmap.BitmapObject.TestBit` | lab_2/pintos/src/lib/kernel/bitmap.c:197-202 | reads one position |
| `Bitmap.BitmapObject.Set` | lab_2/pintos/src/lib/kernel/bitmap.c:144-153 | writes one position |
| `Bitmap.BitmapObject.SetMultiple` | lab_2/pintos/src/lib/kernel/bitmap.c:217-228 | writes a range and nothing else |
| `Bitmap.BitmapObject.Contains` | lab_2/pintos/src/lib/kernel/bitmap.c:250-263 | whether a range holds a value |
| `Bitmap.BitmapObject.Scan` | lab_2/pintos/src/lib/kernel/bitmap.c:295-309 | the least index of a fitting group, or the error value only when there is none; the start index for a count of 0 |
| `Bitmap.EmptyGroup` | lab_2/pintos/src/lib/kernel/bitmap.c:311-326 | the first group of no bits is at the start index, so it is at 0 if and only if the search starts at 0 |
| `Bitmap.EmptyGroupNotZero` | lab_2/pintos/src/lib/kernel/bitmap.c:311-326 | a search for no bits that starts at 1 does not find 0 |
| `Bitmap.BitmapObject.ScanAndFlip` | lab_2/pintos/src/lib/kernel/bitmap.c:319-326 | flips exactly the first fitting group |
| `Bitmap.BitmapObject.Write` | lab_2/pintos/src/lib/kernel/bitmap.c:355-361 | the words handed over are those of the bitmap and stand for its contents |
| `Bitmap.BitmapObject.Read` | lab_2/pintos/src/lib/kernel/bitmap.c:340-352 | the contents become those of the words read; unused bits are zero |
| `Palloc.Pool.Take` | lab_2/pintos/src/threads/palloc.c:70-88 | marks a free group inside the pool, or reports that none exists |
| `Palloc.Pool.Give` | lab_2/pintos/src/threads/palloc.c:117-142 | clears exactly the given group |
| `Palloc.PageAllocator.GetMultiple` | lab_2/pintos/src/threads/palloc.c:70-103 | the group handed out was free, lies in the pool asked for and is all that changes; null only when no such group exists |
| `Palloc.PageAllocator.FreeMultiple` | lab_2/pintos/src/threads/palloc.c:117-142 | a group goes back to the pool it came from |
| `Palloc.PageAllocator.PoolsApart` | lab_2/pintos/src/threads/palloc.c:174-182 | the pools share no page |
| `Palloc.InitPool` | lab_2/pintos/src/threads/palloc.c:153-170 | fails if and only if the bitmap does not fit; otherwise the bitmap takes as few pages as it needs, from the start, and the pool the rest |
| `Palloc.Init` | lab_2/pintos/src/threads/palloc.c:45-63 | fails if and only if one of the two bitmaps does not fit; otherwise the two regions are exactly the memory from 1 MB to the end of RAM, the user region being half of it or the limit, with all pages free |
| `MallocHeap.BlockInPage` | lab_2/pintos/src/threads/malloc.c:284-294 | every block of an arena lies in its page, behind the header, and leads back to it |
| `MallocHeap.BlocksPerArena` | lab_2/pintos/src/threads/malloc.c:76-84 | as many blocks as fit behind the header: one more would not |
| `MallocHeap.BlocksApart` | lab_2/pintos/src/threads/malloc.c:284-294 | blocks of an arena do not overlap |
| `MallocHeap.RefillInv` | lab_2/pintos/src/threads/malloc.c:125-146 | a new arena keeps the heap invariant |
| `MallocHeap.TakeFirstInv` | lab_2/pintos/src/threads/malloc.c:148-153 | handing out the first free block keeps it: lists, counts, live blocks, page groups |
| `MallocHeap.AddBigInv` | lab_2/pintos/src/threads/malloc.c:105-120 | a big block keeps it |
| `MallocHeap.PutFirstInv` | lab_2/pintos/src/threads/malloc.c:238-242 | putting a block back keeps it |
| `MallocHeap.DropArenaInv` | lab_2/pintos/src/threads/malloc.c:241-253 | returning an unused arena keeps it and leaves none of its blocks listed |
| `MallocHeap.DropBigInv` | lab_2/pintos/src/threads/malloc.c:257-262 | returning a big block keeps it |
| `Malloc.PieceHome` | lab_2/pintos/src/threads/malloc.c:266-294 | every header, live block and free block lies in the pages of its arena |
| `Malloc.PiecesApart` | lab_2/pintos/src/threads/malloc.c:89-294 | headers, live blocks and free blocks never share a byte |
| `Malloc.OneUse` | lab_2/pintos/src/threads/malloc.c:89-264 | a block is never both live and listed, nor on two lists |
| `Malloc.ReturnedWhenUnused` | lab_2/pintos/src/threads/malloc.c:241-253 | a page goes back if and only if the block freed was the last one in use, and then no block of it is listed |
| `Malloc.CapacityKept` | lab_2/pintos/src/threads/malloc.c:89-264 | a block keeps its room while it is in use |
| `Malloc.BigEnough` | lab_2/pintos/src/threads/malloc.c:105-120 | a big block has room for the request if and only if size plus header did not wrap |
| `Malloc.PagesFor` | lab_2/pintos/src/threads/malloc.c:105-120 | as few pages as hold the request and the header, unless the sum wraps |
| `Malloc.WrappedRequest` | lab_2/pintos/src/threads/malloc.c:105-120 | the largest request is served with one page, far too small |
| `Malloc.InitDescs` | lab_2/pintos/src/threads/malloc.c:71-85 | the descriptor table: 16 bytes, doubling, as long as below half a page |
| `Malloc.Allocator.constructor` | lab_2/pintos/src/threads/malloc.c:71-85 | an empty heap satisfies the invariant |
| `Malloc.Allocator.Malloc` | lab_2/pintos/src/threads/malloc.c:89-154 | a new live block of the smallest fitting class or of its own pages, big enough if and only if the size does not wrap; exactly the pages of its arena are taken, if that is new; null changes nothing and means no free block and no room |
| `Malloc.Allocator.Unlist` | lab_2/pintos/src/threads/malloc.c:244-251 | the loop takes exactly the blocks of the page off the list |
| `Malloc.Allocator.Free` | lab_2/pintos/src/threads/malloc.c:218-264 | exactly the given block goes, and its pages exactly when returned |
| `HashBits.PowerOf2` | lab_2/pintos/src/lib/kernel/hash.c:336-340 | the test accepts only powers of two |
| `HashBits.PowIsPowerOf2` | lab_2/pintos/src/lib/kernel/hash.c:336-340 | and all of them |
| `HashBits.MaskIsRemainder` | lab_2/pintos/src/lib/kernel/hash.c:305-310 | the mask selects the hash modulo the bucket count |
| `HashBits.IdealBuckets` | lab_2/pintos/src/lib/kernel/hash.c:364-372 | the largest power of two at most half the elements, and at least 4; the loop ends |
| `Hash.EqualSameBucket` | lab_2/pintos/src/lib/kernel/hash.c:305-326 | an equal element can only be in the bucket searched |
| `Hash.CountAfter` | lab_2/pintos/src/lib/kernel/hash.c:415-429 | the element counter follows the contents modulo 2^32 |
| `Hash.HashTable.constructor` | lab_2/pintos/src/lib/kernel/hash.c:24-42 | an empty table of four buckets |
| `Hash.HashTable.FindElem` | lab_2/pintos/src/lib/kernel/hash.c:314-326 | an equal element of the bucket, or the end only if there is none |
| `Hash.HashTable.Find` | lab_2/pintos/src/lib/kernel/hash.c:131-135 | an equal element of the table, or null only if there is none |
| `Hash.HashTable.InsertElem` | lab_2/pintos/src/lib/kernel/hash.c:415-421 | one element more, in the bucket its hash selects |
| `Hash.HashTable.RemoveElem` | lab_2/pintos/src/lib/kernel/hash.c:423-429 | exactly that element goes |
| `Hash.HashTable.MoveBucket` | lab_2/pintos/src/lib/kernel/hash.c:400-409 | every element of an old bucket moves to its new one, none is lost |
| `Hash.HashTable.Rehash` | lab_2/pintos/src/lib/kernel/hash.c:351-413 | the contents are kept, even when allocation fails; otherwise the bucket count is the ideal one |
| `Hash.HashTable.Insert` | lab_2/pintos/src/lib/kernel/hash.c:98-110 | a set modulo equality gains the element unless an equal one is there, which is returned |
| `Hash.HashTable.Replace` | lab_2/pintos/src/lib/kernel/hash.c:114-127 | the element takes the place of an equal one, which is returned |
| `Hash.HashTable.Delete` | lab_2/pintos/src/lib/kernel/hash.c:144-154 | an equal element goes and is returned, if there is one |
| `Hash.HashIterator.constructor` | lab_2/pintos/src/lib/kernel/hash.c:199-208 | all elements are still to come |
| `Hash.HashIterator.Next` | lab_2/pintos/src/lib/kernel/hash.c:218-235 | the next of the elements left, or null only when none is left |
| `Hash.Visit` | lab_2/pintos/src/lib/kernel/hash.c:182-235 | iteration yields every element once and no two equal ones |
| `Disk.FlatPatch` | lab_2/pintos/src/filesys/inode.c:299-307 | reading a sector, patching it and writing it back replaces exactly those device bytes |
| `Inode.INode.ReadAt` | lab_2/pintos/src/filesys/inode.c:200-250 | the bytes delivered are the matching slice of the file; their number is exactly all that is available, or whole sectors only where there is no bounce buffer; the rest of the buffer is untouched |
| `Inode.INode.CopyOut` | lab_2/pintos/src/filesys/inode.c:209-240 | one chunk, whole sector or through the bounce buffer |
| `Inode.INode.WriteAt` | lab_2/pintos/src/filesys/inode.c:257-318 | exactly the bytes [offset, offset + n) of the file change and no other device byte; n is exactly all that fits, or whole sectors only without a bounce buffer, or 0 while writes are denied |
| `Inode.INode.CopyIn` | lab_2/pintos/src/filesys/inode.c:284-308 | one chunk; the branch that zero-fills the bounce buffer is shown unreachable |
| `FsOwnership.BytesToSectors` | lab_2/pintos/src/filesys/inode.c:25-29 | as few sectors as hold the bytes, and enough even where the signed sum wraps |
| `FsOwnership.CreateKeeps` | lab_2/pintos/src/filesys/inode.c:72-106 | a new inode on unowned sectors keeps ownership disjoint and marked |
| `FsOwnership.FileWritten` | lab_2/pintos/src/filesys/inode.c:257-318 | a write to a file changes no inode and no ownership |
| `FsOwnership.ReleaseKeeps` | lab_2/pintos/src/filesys/inode.c:176-182 | releasing an inode keeps the ownership of all others |
| `FsOwnership.FirstRoomUnique` | lab_2/pintos/src/lib/kernel/bitmap.c:295-309 | the first place where a number of sectors is free is one place |
| `FsMap.MapBack` | lab_2/pintos/src/lib/kernel/bitmap.c:340-361 | a bitmap read from the bytes that were written is the bitmap |
| `FileSys.FileSystem.constructor` | lab_2/pintos/src/filesys/free-map.c:12-20 | sectors 0 and 1 are marked, nothing else |
| `FileSys.FileSystem.Allocate` | lab_2/pintos/src/filesys/free-map.c:27-41 | succeeds if and only if a group fits and the map can be written; then the first fitting group is marked and the disk holds the map; otherwise the map is as before |
| `FileSys.FileSystem.Release` | lab_2/pintos/src/filesys/free-map.c:44-50 | exactly the group is unmarked, and the disk holds the map if it could be written |
| `FileSys.FileSystem.WriteMap` | lab_2/pintos/src/filesys/free-map.c:30-37 | succeeds if and only if the last part of a sector, if any, finds a bounce buffer; the file then holds the map, and only the data of that file changed |
| `FileSys.FileSystem.PlaceInode` | lab_2/pintos/src/filesys/inode.c:88-100 | the inode, with its magic number, and its zeroed data on sectors that nobody owns; no other inode changes, nor the map on disk |
| `FileSys.FileSystem.Create` | lab_2/pintos/src/filesys/inode.c:72-106 | succeeds if and only if there is memory, the data fit and the map can be written; then a new inode with the first extent that was free, all zeros; otherwise nothing |
| `FileSys.FileSystem.Open` | lab_2/pintos/src/filesys/inode.c:111-142 | the one open inode of the sector with an opener more, or a new one from the disk |
| `FileSys.FileSystem.Remove` | lab_2/pintos/src/filesys/inode.c:190-195 | only the flag changes |
| `FileSys.FileSystem.Close` | lab_2/pintos/src/filesys/inode.c:163-186 | only the last close takes the inode off the list, and only of a removed one are exactly its sectors released |
| `FileSys.FileSystem.CloseFile` | lab_2/pintos/src/filesys/inode.c:163-186 | the same, keeping the consistency of the whole file system, the bytes of every file that still exists and, with memory, the map on disk |
| `FileSys.FileSystem.OpenRoot` | lab_2/pintos/src/filesys/directory.c:34-58 | one opener more on the root directory, or no change |
| `FileSys.FileSystem.NewInodeSector` | lab_2/pintos/src/filesys/filesys.c:51-51 | the first free sector, if and only if there is one and the map can be written; it is nobody else's |
| `FileSys.FileSystem.NewInode` | lab_2/pintos/src/filesys/filesys.c:52-52 | the inode in that sector, if and only if its data fit and there is memory |
| `FileSys.FileSystem.AddEntry` | lab_2/pintos/src/filesys/filesys.c:53-53 | the entry, if and only if the name is valid, not seen, and a slot can be read and written; no name or inode changes otherwise |
| `FileSys.FileSystem.MakeInode` | lab_2/pintos/src/filesys/filesys.c:51-55 | sector and inode together, if and only if both fit after each other and there is memory; or the free map as before |
| `FileSys.FileSystem.CreateIn` | lab_2/pintos/src/filesys/filesys.c:45-59 | succeeds if and only if sector and data fit, there is memory, and the directory can take the name; on failure data sectors stay marked if and only if it was the directory that failed and the file has data |
| `FileSys.FileSystem.CreateFile` | lab_2/pintos/src/filesys/filesys.c:45-59 | succeeds if and only if, besides, the root directory opens; a file of its own sectors, the first free ones, all zeros, gets the name; on failure names and inodes are as before, and the free map differs if and only if the directory could not take the name of a file with data, by exactly the extent that inode would have had; no byte of another file changes |
| `FsLeak.LeakedSector` | lab_2/pintos/src/filesys/filesys.c:45-59 | from any disk of 64 sectors: format, create an empty file, create the name again with one byte; that fails with all memory granted, and sector 6 stays marked although no inode owns it |
| `FileSys.FileSystem.OpenFile` | lab_2/pintos/src/filesys/filesys.c:66-77 | the inode of the first entry of the name, with one opener more; null if and only if the root directory does not open, no entry is seen, or there is no memory |
| `FileSys.FileSystem.EraseName` | lab_2/pintos/src/filesys/directory.c:204-211 | the entry is erased and the inode marked, both or, without memory, neither |
| `FileSys.FileSystem.RemoveFile` | lab_2/pintos/src/filesys/filesys.c:83-91 | succeeds if and only if the root directory opens, the name is there, and there is memory; with memory, if and only if the name is there; its first entry is erased; an open file is marked removed, a closed one is gone with exactly its sectors; no byte of a file that still exists changes, removed or not |
| `FileSys.FileSystem.WriteFile` | lab_2/pintos/src/filesys/inode.c:257-318 | the bytes of the file change as inode_write_at says, those of no other file do, nor any directory entry, ownership or the map on disk |
| `FileSys.OtherFile` | lab_2/pintos/src/filesys/inode.c:257-318 | bytes of other files are untouched |
| `FileSys.KeptBut` | lab_2/pintos/src/filesys/inode.c:257-318 | writes that spare the sectors of a file leave its bytes |
| `FileSys.ZeroData` | lab_2/pintos/src/filesys/inode.c:93-100 | a file whose data sectors were zeroed is all zeros |
| `FileSys.FileSystem.FormatMap` | lab_2/pintos/src/filesys/free-map.c:72-85 | succeeds if and only if the map's file fits and there is memory; it then lies in the first free place and holds the map |
| `FileSys.FileSystem.Format` | lab_2/pintos/src/filesys/filesys.c:94-103 | succeeds if and only if the two system files fit after each other and there is memory; they then lie in the first free places, the root directory is empty, and the state is consistent |
| `FsMount.ReadMap` | lab_2/pintos/src/lib/kernel/bitmap.c:340-351 | the words of the map's file become the map, if and only if the last part of a sector, if any, finds a bounce buffer |
| `FsMount.Mount` | lab_2/pintos/src/filesys/filesys.c:17-32 | starting again on the disk of a consistent file system whose map is on disk: the same free map, inodes and names, and a consistent state; it panics if and only if there is no memory |
| `DirEntries.NewEntryMeans` | lab_2/pintos/src/filesys/directory.c:171-174 | the entry written reads back as in use, with the name and sector given |
| `DirEntries.NamesThatFit` | lab_2/pintos/src/filesys/directory.c:151-153 | the names accepted are exactly those that an entry can hold with their null, but the empty one |
| `DirEntries.EntriesWrite` | lab_2/pintos/src/filesys/directory.c:171-175 | writing 20 bytes at an entry offset updates that entry alone |
| `DirEntries.UniqueAfter` | lab_2/pintos/src/filesys/directory.c:141-179 | names stay unique if and only if no other slot holds the name |
| `DirEntries.FillRefines` | lab_2/pintos/src/filesys/directory.c:141-179 | the directory map gains exactly the name if and only if the slot is free or its own and no other slot holds the name |
| `DirEntries.GoodSlotWhen` | lab_2/pintos/src/filesys/directory.c:155-175 | that is so if and only if the slot search was not cut short at an entry of another name, and lookup was not cut short before an entry of this name |
| `DirEntries.GoodSlotAlways` | lab_2/pintos/src/filesys/directory.c:155-175 | it is so whenever every read finds memory |
| `DirEntries.DuplicateName` | lab_2/pintos/src/filesys/directory.c:155-175 | with a read cut short, a name can be added twice |
| `DirEntries.OverwrittenName` | lab_2/pintos/src/filesys/directory.c:155-175 | with the slot search cut short at an entry in use, its name is lost |
| `DirEntries.EraseRefines` | lab_2/pintos/src/filesys/directory.c:184-216 | erasing a slot removes exactly its name |
| `DirEntries.FreedSlotReused` | lab_2/pintos/src/filesys/directory.c:159-175 | a slot erased by a removal, or an earlier free one, is where the next search ends |
| `Directory.Dir.ReadEntry` | lab_2/pintos/src/filesys/directory.c:101-103 | an entry is read if and only if it exists and there is memory |
| `Directory.Dir.WriteEntry` | lab_2/pintos/src/filesys/directory.c:171-175 | an entry is written completely or no entry changes |
| `Directory.Dir.Lookup` | lab_2/pintos/src/filesys/directory.c:91-112 | the first entry in use with the name, or none among those read |
| `Directory.Dir.FreeSlot` | lab_2/pintos/src/filesys/directory.c:166-169 | the first free slot, or where reading ends |
| `Directory.Dir.Add` | lab_2/pintos/src/filesys/directory.c:141-179 | success exactly when the name is valid, not seen, and a slot could be written; with memory the map gains exactly the name |
| `Directory.Dir.ReadDir` | lab_2/pintos/src/filesys/directory.c:221-236 | the next name in use, or none only if no entry that can be read is in use |
| `PageTables.PdeBack` | lab_2/pintos/src/threads/pte.h:70-81 | a directory entry leads back to its table and lets a user read and write there |
| `PageTables.PteBack` | lab_2/pintos/src/threads/pte.h:87-106 | a user entry gives back frame and writability, for a user |
| `PageTables.StatusBit` | lab_2/pintos/src/threads/pte.h:64-66 | changing the accessed or dirty bit changes nothing else |
| `PageTables.Split` | lab_2/pintos/src/threads/pte.h:31-38 | two user addresses share both indexes if and only if they are in one page |
| `PageTables.PteWriteMeans` | lab_2/pintos/src/userprog/pagedir.c:88-119 | writing one entry changes what one page of one directory maps to |
| `PageTables.AddTableMeans` | lab_2/pintos/src/userprog/pagedir.c:66-81 | a new table maps nothing |
| `PageTables.AddDirMeans` | lab_2/pintos/src/userprog/pagedir.c:16-23 | a new directory maps nothing and changes no other |
| `PageTables.DropDirMeans` | lab_2/pintos/src/userprog/pagedir.c:27-48 | a destroyed directory takes nothing from the others |
| `PageTables.FreedOnce` | lab_2/pintos/src/userprog/pagedir.c:27-48 | no page is freed twice if and only if each frame is mapped once and is not a table |
| `PageTables.ApartOnce` | lab_2/pintos/src/userprog/pagedir.c:27-48 | which holds of every directory when no frame is mapped twice anywhere and none is a directory or table |
| `PageTables.ApartSet` | lab_2/pintos/src/userprog/pagedir.c:98-119 | mapping one more page keeps that if and only if its frame was not in use |
| `PageDir.Mmu.Create` | lab_2/pintos/src/userprog/pagedir.c:16-23 | a directory with the kernel entries and no user mapping; frames stay exclusive |
| `PageDir.Mmu.LookupPage` | lab_2/pintos/src/userprog/pagedir.c:56-86 | the table of the address, made if asked for; null if and only if there is none and none is made; no mapping changes, and frames stay exclusive |
| `PageDir.Mmu.SetPage` | lab_2/pintos/src/userprog/pagedir.c:98-119 | succeeds if and only if there is a table or a page for one; the map of the directory gains exactly the page; the TLB stays right; frames stay exclusive if and only if the new one was not in use |
| `PageDir.Mmu.GetPage` | lab_2/pintos/src/userprog/pagedir.c:125-137 | the kernel address of a user byte, or null if and only if it is unmapped |
| `PageDir.Mmu.ClearPage` | lab_2/pintos/src/userprog/pagedir.c:143-157 | the map loses exactly the page, and no stale translation remains |
| `PageDir.Mmu.SetDirty` | lab_2/pintos/src/userprog/pagedir.c:172-186 | exactly the dirty bit changes; clearing it flushes the TLB if the directory is active |
| `PageDir.Mmu.SetAccessed` | lab_2/pintos/src/userprog/pagedir.c:201-215 | exactly the accessed bit changes |
| `PageDir.Mmu.Activate` | lab_2/pintos/src/userprog/pagedir.c:219-231 | the directory, or the kernel one for null, is active and the TLB empty |
| `PageDir.Mmu.Invalidate` | lab_2/pintos/src/userprog/pagedir.c:254-263 | the TLB is flushed if and only if the directory is active |
| `PageDir.StillAgrees` | lab_2/pintos/src/userprog/pagedir.c:172-186 | setting a status bit without a flush leaves cached translations valid |
| `PageDir.Mmu.Access` | lab_2/pintos/src/userprog/pagedir.c:246-263 | every access by a user goes where the active directory says, through whatever the TLB holds, if both levels allow it; a write leaves the page dirty |
| `PageDir.Mmu.Destroy` | lab_2/pintos/src/userprog/pagedir.c:27-48 | one free for every page the directory refers to, in order, none twice when frames are exclusive, which they stay; the other directories keep their maps |
| `ProcessExit.StepKeeps` | lab_2/pintos/src/userprog/process.c:95-133 | every step, switches included, keeps the directory invariant |
| `ProcessExit.RunKeeps` | lab_2/pintos/src/userprog/process.c:95-133 | so does every run |
| `ProcessExit.NeverActiveAndDestroyed` | lab_2/pintos/src/userprog/process.c:95-117 | in no interleaving is the active directory a destroyed one |
| `ProcessExit.SwappedOrderFails` | lab_2/pintos/src/userprog/process.c:106-112 | with the two statements exchanged there is a run where it is |
| `Loader.SegmentArithmetic` | lab_2/pintos/src/userprog/process.c:271-297 | for an accepted header nothing wraps, the pages are user pages above page 0, and they are exactly those the segment touches |
| `Loader.AcceptedSegments` | lab_2/pintos/src/userprog/process.c:325-364 | in plain arithmetic: accepted if and only if offset and address agree within a page, the file reaches the offset, the image is at least the file part, not empty, and lies between page 1 and the kernel |
| `Loader.Process.LoadPage` | lab_2/pintos/src/userprog/process.c:391-418 | one page filled and installed, if and only if there are a page, the bytes, a table or a page for one, and nothing mapped there; frames stay exclusive |
| `Loader.Process.LoadSegment` | lab_2/pintos/src/userprog/process.c:382-425 | succeeds if and only if every page can be loaded; then read_bytes file bytes from the offset and zeros behind; counters never below zero, other pages untouched, frames exclusive |
| `Loader.Process.LoadHeader` | lab_2/pintos/src/userprog/process.c:271-300 | succeeds if and only if the header is accepted and every page it touches can be loaded; the process then sees the file bytes at their addresses and zeros behind them, and may store there if and only if the header says so; pages that the segment does not touch stay as they were |
| `Format.PutDigits` | lab_2/pintos/src/lib/stdio.c:501-513 | the digits and commas, always inside the 64-byte buffer |
| `Format.PutNumber` | lab_2/pintos/src/lib/stdio.c:515-524 | precision and the octal zero, inside the buffer |
| `Format.FormatInteger` | lab_2/pintos/src/lib/stdio.c:469-547 | computes the output for every conversion |
| `Format.OutputMeans` | lab_2/pintos/src/lib/stdio.c:469-547 | for every flag, width and precision the output is at least as wide as asked, and no wider than it must be; it reads as the value when padding, sign, prefix and commas are passed over; it has a minus sign if and only if the number is negative |
| `Format.OutputShape` | lab_2/pintos/src/lib/stdio.c:469-547 | from left to right: spaces, sign, prefix, zeros, digits without zeros in front, spaces; spaces left without MINUS and ZERO and right with MINUS, zeros with ZERO; exactly as many as width and precision ask for |
| `Format.DigitsRead` | lab_2/pintos/src/lib/stdio.c:501-513 | in every base the digits printed, with or without commas, read back as the value |
| `Format.CommasBetweenGroups` | lab_2/pintos/src/lib/stdio.c:501-513 | grouped digits have commas between groups of three, or four in hexadecimal, counted from the right, and nowhere else |
| `Format.ZeroPaddedOctal` | lab_2/pintos/src/lib/stdio.c:469-547 | "%0No" prints exactly N octal digits of a value that fits |
| `Format.OctalBack` | lab_2/pintos/src/lib/stdio.c:501-513 | octal digits read back as the value |
| `Ustar.CalculateChksum` | lab_2/pintos/src/lib/ustar.c:36-54 | the sum of the bytes outside the checksum field, and of eight spaces |
| `Ustar.SumIsTotal` | lab_2/pintos/src/lib/ustar.c:36-54 | the running sum is that sum |
| `Ustar.SumSame` | lab_2/pintos/src/lib/ustar.c:36-54 | the checksum does not depend on its own field |
| `Ustar.StripAntisocialPrefixes` | lab_2/pintos/src/lib/ustar.c:65-73 | exactly the longest run of "/", "./" and "../" at the start goes; what is left is the result, or "." if that is empty or ".." |
| `Ustar.StripStops` | lab_2/pintos/src/lib/ustar.c:65-73 | stripping ends where that run ends |
| `Ustar.StopsOnce` | lab_2/pintos/src/lib/ustar.c:65-73 | it ends in one place only |
| `Ustar.SocialStays` | lab_2/pintos/src/lib/ustar.c:65-73 | a name without such a prefix, not empty and not "..", stays as it is |
| `Ustar.StripFacts` | lab_2/pintos/src/lib/ustar.c:56-73 | a stripped name has no such prefix, is not empty or "..", is a suffix or ".", and stripping it again changes nothing |
| `Ustar.FieldBytes` | lab_2/pintos/src/lib/ustar.c:99-117 | every field of a finished header holds its bytes |
| `Ustar.MakeHeader` | lab_2/pintos/src/lib/ustar.c:82-118 | fails if and only if the stripped name has more than 99 characters; otherwise the finished header |
| `Ustar.HeaderNumbers` | lab_2/pintos/src/lib/ustar.c:99-117 | by the members of the struct: permissions 0644 or 0755, owner and group 0, the size, the fixed time, the checksum |
| `Ustar.HeaderStrings` | lab_2/pintos/src/lib/ustar.c:99-117 | and the strings: name, type, "ustar", "00", "root" twice, and zeros in all others |
| `Ustar.ParseOctalField` | lab_2/pintos/src/lib/ustar.c:129-162 | accepts exactly digits ended by space or null with a 32-bit value |
| `Ustar.OctalField` | lab_2/pintos/src/lib/ustar.c:129-162 | a printed field reads back |
| `Ustar.IsAllZeros` | lab_2/pintos/src/lib/ustar.c:164-173 | whether all bytes are zero |
| `Ustar.ReadHeader` | lab_2/pintos/src/lib/ustar.c:181-227 | computes the parse; an entry it returns has a name of 1 to 99 characters without null or antisocial prefix, and a size that fits an int |
| `Ustar.EntryIsHarmless` | lab_2/pintos/src/lib/ustar.c:181-227 | so for every 512 bytes whatever |
| `Ustar.AcceptedHeaders` | lab_2/pintos/src/lib/ustar.c:181-227 | accepted if and only if, by the members of the struct, magic, version, checksum, name, prefix, type and size are right; what is read are those members; the end of the archive is a block of zeros |
| `Ustar.AcceptedIsMade` | lab_2/pintos/src/lib/ustar.c:181-227 | any accepted header parses as the header made for what was read from it |
| `Ustar.DamageIsSeen` | lab_2/pintos/src/lib/ustar.c:181-227 | an accepted header with one byte outside the checksum changed is refused |
| `Ustar.HeaderChksum` | lab_2/pintos/src/lib/ustar.c:114-115 | the stored checksum matches the finished header |
| `Ustar.RoundTrip` | lab_2/pintos/src/lib/ustar.c:75-227 | parsing a made header gives the stripped name, type and size (0 for directories) if and only if the file is a directory or the size is not negative; otherwise "file too large" |

## Left out

- `calloc`, `realloc` and the contents of heap blocks: they call malloc and free and copy or clear bytes.
- `list_max`, `list_min`, `list_size` and the accessors of lists, hash tables, bitmaps and files: they read one field or walk a list once.
- `hash_clear`, `hash_destroy` and `hash_apply`: they call a function on every element, bucket by bucket.
- List nodes under the hash table and under the wait and run queues: there a list is a sequence; the linked form is modelled in `List.dfy`.
- `all_list` and thread priorities: the list is changed with interrupts possibly on, and the scheduler ignores priorities.
- Locks around malloc, palloc and the file system: operations of these components are taken one at a time.
- `file.c`: positions and the per-file deny-write flag; `inode_deny_write` and `inode_allow_write` are counters.
- `dir_create` of other directories, `dir_reopen` and `fsutil.c`: a second opener of a directory, and copying between a scratch device and files.
- Names on disk without a terminating null: only directories written by this code are modelled.
- Flag bits of page table entries are added and taken away arithmetically below bit 12, which is what "or" and "and not" do there.
- `load`: reading the ELF header, the loop over program headers and the stack page; the treatment of one loadable header is modelled.
- `__vprintf` and `parse_conversion`: a conversion enters as the record that parsing leaves; strings and characters are not modelled.
- Heapsort.DoSwap: elements are swapped whole, because the sort only moves elements; the byte loop is `SwapBytes`.
- Bitmap.BitmapObject.constructor: an allocation that fails, for which bitmap_create returns null, is not modelled.
- Bitmap.BitmapObject.Write: hands over the words; the transfer to the file, which can stop short, is `WriteMap` in `FileSys.dfy`.
- Bitmap.BitmapObject.Read: takes all words; the transfer from the file, which can stop short, is `ReadMap` in `FsMount.dfy`.
- Palloc.PageAllocator.GetMultiple: does not model filling the pages with zeros nor the panic that a caller can ask for instead of null.
- Hash.HashTable.constructor: an allocation that fails, for which hash_init returns false, is not modelled.
- Inode.INode.ReadAt: negative offsets are not modelled; callers assert or compute non-negative ones.
- Inode.INode.WriteAt: negative offsets are not modelled, for the same reason.
- FileSys.FileSystem.Open: the sector must hold an existing inode; sector numbers from a damaged disk are not modelled.
- FileSys.FileSystem.Format: ends with the map's file open as created; closing it and opening it again is `Mount` in `FsMount.dfy`.
- FsMount.Mount: the map on disk must be the one in memory, which every operation keeps when its writes of the map find memory; files that were removed but still open stay allocated, since nothing releases them at a restart.
- PageDir.Mmu.LookupPage: lookups are for user addresses; for kernel addresses, which pagedir_is_dirty and the like would accept, it is proved only that all directories hold the entries of init_page_dir.
- PageDir.Mmu.SetPage: does not require that the frame is not in use, since the code does not; it says what follows when it is.
- Malloc.Allocator.Free: addresses that malloc did not return, on which the code asserts, are not modelled.
- Devices, interrupt stubs, system calls and user programs: port input and output, assembly and plumbing.
- `lab_1` and `lab_3`: a parser over unchecked static buffers, and unfinished exercise stubs.
