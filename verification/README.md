# A model of the Pintos kernel

This project models the parts of the Pintos kernel whose correctness is not visible in any one
function, and proves what they promise: the priority scheduler with donation, the multi-level
feedback queue and the alarm clock; the page and block allocators; the file system; and the
data structures, arithmetic and formats they rest on.

State machines over whole runs:

- `Scheduler` is a transition system over threads, the ready and sleep lists, semaphores, locks
  and donation lists. Its steps are the pieces of thread.c, synch.c and timer.c between two
  points at which another thread or an interrupt can run. `SchedulerQueues`, `SchedulerSync`,
  `SchedulerDonation`, `SchedulerWakeups`, `SchedulerAlarm` and `SchedulerMlfqs` prove what each
  step keeps; `SchedulerRuns`, `SchedulerAccounts` and `SchedulerSlices` what holds in every run;
  `SchedulerDeepChain` has a run in which donation stops short. `SchedulerEffects`,
  `SchedulerChains`, `SchedulerTicks` and `SchedulerRelation` say without reference to the code what
  each step does, and `SchedulerUnique` that this determines the step. `Kernel` has a method for every
  step, which updates the kernel's fields in place and is proved to take that step, and
  `ThreadLists` shows that the linked lists of list.c compute what the steps say of their lists.
  `Mlfqs` has the 17.14 fixed-point arithmetic.
- `FileSystem` is a transition system over the device's sectors, the free map, the open inodes
  and the open files; every memory allocation a call makes may fail, and so may every read of a
  directory entry. `FileLayout` to `FileSteps` prove what each call keeps; `FileFormat` leads from
  any device to the state of `FileStart`, in which runs start, and `FileRemount` from any state
  through a reboot. `FileRuns` proves what holds in every run of calls and reboots. `FileView`
  is a specification in terms of entries, files as strings of bytes, and handles, that every call and
  run refines; `FileMap` and `FileSpace` follow the free map in memory and on the device, `FileReads`
  reads one after the other, and `FileLeaks` the sectors that are marked but nobody's. `FileNames` says
  exactly when creates succeed, names stay unique and entries stay, and `FileLowMemory` has runs in
  which a name gets in twice and in which an entry is overwritten. `Volume`
  has the code, which updates its tables and the device in place, and is proved to take those
  steps. `Inode`, `Directory` and `Bitmap` have the loops over sectors, entries and words.
- `Palloc` interleaves, bit by bit, allocations under the pool's lock with frees without it;
  `PallocScan` says which run an allocation then finds.
- `Malloc` is the block allocator on abstract heaps, with `MallocInvariant`, `MallocRuns`
  and, on what free and malloc undo, `MallocUndo`.
  `MallocCode` is the code on memory, a function from addresses to bytes in which descriptors, arena
  headers and list links are words like any other. `MallocLayout` says when memory holds a heap;
  `MallocSteps`, `MallocAllocation`, `MallocRelease` and `MallocInit` prove that the code then does
  to memory what is specified for the heap. `MallocMemory` has the runs of malloc, free, realloc and
  stores by the blocks' owners and by others, `MallocOverrun` a run in which a realloc writes over a
  header, and `MallocPool` the runs on top of the page allocator's pool. `Allocator` has the loops.

Pointer, word and byte level:

- `KernelList` is the doubly linked list with its in-place merge sort, on heap nodes.
- `HashTable`, `Sorting`, `Arithmetic`, `PageDir`, `Arguments`, `Ustar` and `UstarHeaders` are the resizing hash table,
  heapsort, 64-bit division, two-level page tables, argument passing and archive headers.

A lemma named `...Iff` or a concrete counterexample beside a theorem marks a promise that the code
keeps only under a condition; the condition is stated on the state before the call.

## What the steps assume

- lock_acquire's registration as a waiter and its donation, synch.c:281-286, run with interrupts
  on in the code; they are one atomic step here. So are lock_release's bookkeeping, the code of
  thread_set_priority and thread_set_nice before their preemption tests, and each test.
- A thread that exits holds no lock, a lock is not acquired twice by one thread, and only its
  holder releases it, as the assertions and comments of synch.c and thread.c ask.
- thread_set_nice is called only under MLFQS: in the other mode it would overwrite a donated
  priority.
- The timer's tick count and the count that thread_tick keeps are one number.
- Semaphore values are unbounded natural numbers; ups, downs and the first value are history.
- File-system calls are atomic, and a reboot falls between two of them.
- The page allocator's answers to lookup_page, and to malloc outside `MallocPool`, are parameters;
  they hand out pages that are not in use. malloc, free and realloc are atomic.
- malloc's descriptors lie at a fixed address below every page that is handed out; their locks,
  which nobody contends for in atomic calls, are not represented.
- Callers of malloc store only into their own live blocks, free and realloc only live blocks, and
  everyone else stores outside the descriptors and the arenas' pages.
- A disk has fewer than 2^21 sectors: ide.c:297 registers no larger one.
- Tuples of allocation outcomes (`Luck`) and single flags named `memory` say which allocations succeed.
- Signed 32-bit overflow, where it is modelled, wraps around.
- divl is the instruction's quotient, with the condition under which it does not trap as its
  precondition.

## Model

| member | source | states |
|---|---|---|
| `SchedulerQueues.StepKeepsQueues` | pintos/src/threads/thread.c:239-400 | Whatever step runs next, no kernel assertion fails and the lists stay exact: the ready list holds exactly the ready threads other than a registered idle thread in descending priority, the sleep list exactly the sleepers by wake-up tick, each wait list exactly the threads blocked on that semaphore, and exactly the current thread runs |
| `SchedulerQueues.OneList` | pintos/src/threads/thread.c:257-269 | A thread is on at most one of the ready list, the sleep list and the wait lists, and idle, once registered, on none |
| `SchedulerQueues.DispatchPicksMax` | pintos/src/threads/thread.c:693-700 | The thread dispatched has the highest priority of all ready threads |
| `SchedulerQueues.UpWakesMax` | pintos/src/threads/synch.c:114-143 | sema_up wakes a waiter whose current priority is the highest of all waiters, the first in the list among equals; it becomes ready, no other thread changes, and the rest wait in descending priority, a stable permutation of what the list was |
| `SchedulerSync.StepKeepsSync` | pintos/src/threads/synch.c:215-333 | Every step keeps: a lock semaphore is 0 exactly while one thread owns the lock, 1 otherwise; everyone in a donation list is distinct and waits for a lock its owner holds; waiting_lock is set only inside lock_acquire; priority is at least the base |
| `SchedulerDonation.StepKeepsInv` | pintos/src/threads/synch.c:65-333 | The whole scheduler invariant is kept by every enabled step, and no enabled step meets a failing assertion |
| `SchedulerDonation.AcquireCoversIff` | pintos/src/threads/synch.c:215-241 | After an acquisition priorities still cover every donor if and only if, judged before the call, the holders below the new priority along the chain of waits number at most eight, or the ninth does not count the eighth as its donor |
| `SchedulerDonation.OtherStepsCover` | pintos/src/threads/synch.c:243-333 | Every step but an acquisition keeps each priority at or above that of every thread in the donation list |
| `SchedulerDonation.ReleaseExact` | pintos/src/threads/synch.c:318-333 | Just after a release the donors left are exactly those for other locks, and the priority equals the maximum of the base and those donors |
| `SchedulerDonation.SetPriorityExact` | pintos/src/threads/thread.c:438-454 | Just after thread_set_priority the priority equals the maximum of the new base and the donors, which are unchanged |
| `SchedulerDeepChain.DonationStopsShort` | pintos/src/threads/synch.c:215-241 | A run, from thread_start on, whose last step, an acquisition behind a chain of nine holders, leads from a state in which every priority is at or above its donors' to one in which it is not |
| `SchedulerDeepChain.ReachesChain` | pintos/src/threads/synch.c:215-291 | For every length up to nine, the run that builds a chain of that many holders |
| `SchedulerWakeups.StepKeepsWakeups` | pintos/src/threads/synch.c:65-143 | Every step keeps value = initial + ups - completed downs, and value at most the number of woken threads that have not rechecked while anyone waits: no wake-up is lost |
| `SchedulerAlarm.WakeExact` | pintos/src/threads/thread.c:387-400 | thread_wake removes exactly the due sleepers, however many there are, and makes them ready |
| `SchedulerAlarm.TickWakes` | pintos/src/devices/timer.c:171-177 | In the timer interrupt a sleeper leaves the sleep list exactly when its wake-up tick is reached by the new count |
| `SchedulerAlarm.OthersLeaveAsleep` | pintos/src/threads/thread.c:370-400 | No step but a tick takes a thread off the sleep list or changes its wake-up tick |
| `SchedulerMlfqs.StepKeepsBounded` | pintos/src/threads/thread.c:523-552 | Every MLFQS step keeps the load average in [0, R] and every recent_cpu within its limit, when at an update at most R threads, idle apart, are ready or running and nice is in range |
| `SchedulerMlfqs.StepLoadAvg` | pintos/src/threads/thread.c:134-163 | The load average changes exactly on the ticks that complete a second, by the 59/60 and 1/60 update with the number of threads, idle apart, that are ready or running |
| `SchedulerMlfqs.ReadyCountIs` | pintos/src/threads/thread.c:535-552 | What the update counts, the length of the ready list and one more unless idle runs, is the number of threads, idle apart, that are ready or running |
| `SchedulerAccounts.TickThread` | pintos/src/threads/thread.c:134-163 | Under MLFQS a tick charges the running thread, decays every recent_cpu once a second by the new load average and recomputes every priority from it on every fourth tick, leaves all of idle's alone, and changes nothing else of a thread but its status and, if it slept, where it is |
| `SchedulerAccounts.RunPriorities` | pintos/src/threads/thread.c:509-561 | In every MLFQS run, right after a tick whose count is a multiple of four, every thread but idle has the priority its recent_cpu and nice call for |
| `SchedulerSlices.TickSlice` | pintos/src/threads/thread.c:134-163 | A tick makes thread_ticks one more, and at four it dispatches, which makes it zero |
| `SchedulerSlices.RunSlices` | pintos/src/threads/thread.c:134-163 | In every state of every run the running thread has had fewer than four ticks since it was dispatched |
| `SchedulerEffects.YieldEffect` | pintos/src/threads/thread.c:327-341 | thread_yield puts the running thread, unless it is idle, behind all ready threads of its own or a higher priority and in front of those of a lower one, and runs the front of that list; no other thread moves |
| `SchedulerEffects.YieldMakesWay` | pintos/src/threads/thread.c:327-341 | So a thread at the front of the ready list whose priority is not below that of the thread that yields runs next |
| `SchedulerEffects.YieldRotates` | pintos/src/threads/thread.c:327-341 | When all ready threads have the priority of the one that yields, they and it rotate by one place: everyone has its turn before anyone has a second one |
| `SchedulerTicks.FrontRunsNext` | pintos/src/threads/thread.c:134-163 | After thread_yield as a step, and after a tick that ends the time slice, the thread at the front of the ready list of that moment runs if its priority is not below that of the thread that ran |
| `SchedulerTicks.TickEffect` | pintos/src/threads/thread.c:134-163 | A tick in declarative terms: which threads wake, where in the ready list each goes, what the accounts become, and that at the end of a slice the processor is handed over |
| `SchedulerChains.AcquireEffect` | pintos/src/threads/synch.c:215-291 | lock_acquire up to its sema_down: exactly the holders along the chain of waits, at most eight and up to the first whose priority is not below, are raised to the priority of the thread that waits; raised ones that are ready are placed anew behind their equals |
| `SchedulerRelation.StepEffect` | pintos/src/threads/thread.c:239-561 | Every step of the scheduler is in a relation that says, in terms of places in lists, sets and maxima rather than of the code, what the step does to every thread, list, semaphore and lock |
| `SchedulerUnique.EffectOnce` | pintos/src/threads/thread.c:239-561 | That relation leaves nothing open: in a state that satisfies the invariant it admits one successor for every enabled step |
| `SchedulerRuns.InitHolds` | pintos/src/threads/thread.c:116-129 | The state thread_start leaves satisfies every invariant |
| `SchedulerRuns.RunInvariant` | pintos/src/threads/thread.c:239-400 | In every state of every run the scheduler invariant, the semaphore balance and the absence of lost wake-ups hold, and no enabled step meets a failing assertion, among them that every thread unblocked is blocked |
| `SchedulerRuns.RunLists` | pintos/src/threads/thread.c:257-341 | In every state of every run the lists agree with the threads' states, are sorted and share no thread |
| `SchedulerRuns.SwitchesRunHighest` | pintos/src/threads/thread.c:327-341 | After a yield, a preemption test, a block or an exit, no ready thread has a higher priority than the running one |
| `SchedulerRuns.ExpiryRunsHighest` | pintos/src/threads/thread.c:134-163 | A tick that ends the time slice leaves a highest-priority thread running |
| `SchedulerRuns.RunExclusion` | pintos/src/threads/synch.c:273-333 | In every state of every run at most one thread is between acquiring and releasing a given lock |
| `SchedulerRuns.RunCoveredIff` | pintos/src/threads/synch.c:215-291 | Throughout a run priorities cover their donors if and only if every acquisition in it met a chain that fits |
| `SchedulerRuns.EightHoldersFit` | pintos/src/threads/synch.c:215-241 | A chain of waits without a cycle and with at most eight holders always fits |
| `SchedulerRuns.SleepsUntil` | pintos/src/devices/timer.c:89-98 | In every run a thread that went to sleep at tick c with wake-up tick w stays asleep while the count is below max(w, c + 1) |
| `SchedulerRuns.WakesOnTime` | pintos/src/threads/thread.c:387-400 | The tick that makes the count max(w, c + 1) makes that thread ready |
| `SchedulerRuns.RunBounded` | pintos/src/threads/thread.c:523-552 | Over runs of any length the load average is the one the ready counts determine, and it and every recent_cpu stay within their limits |
| `SchedulerRuns.RunLimits` | pintos/src/threads/thread.c:523-552 | The limits spelled out: the load average in [0, R], never above the exact recurrence and less than 60 (R + 1) units below it, and |recent_cpu| at most 120 (2R + 1) |
| `SchedulerRuns.RunReports` | pintos/src/threads/thread.c:493-503 | In every state of every MLFQS run thread_get_load_avg reports 100 times the load average, rounded, while updates see at most 1310 ready threads; thread_get_recent_cpu reports 100 times recent_cpu, rounded, if and only if that is within 1310.7, which at most four ready threads guarantee |
| `Mlfqs.NextLoadAvgRange` | pintos/src/threads/thread.c:535-552 | One load-average update in closed form, and its range |
| `Mlfqs.LoadAvgLag` | pintos/src/threads/thread.c:535-552 | For every sequence of ready counts at most R the fixed-point load average is never above the exact one and lags it by less than 60 (R + 1) units |
| `Mlfqs.LoadAvgRange` | pintos/src/threads/thread.c:535-552 | For every sequence of ready counts at most R the load average is in [0, R] |
| `Mlfqs.DecayBound` | pintos/src/threads/thread.c:523-532 | The decay coefficient is below 1 and at most 2R / (2R + 1) |
| `Mlfqs.NextRecentCpuRange` | pintos/src/threads/thread.c:523-532 | One recent_cpu update maps the range before the update into the range after it |
| `Mlfqs.NextRecentCpuClose` | pintos/src/threads/thread.c:523-532 | One update is within one unit, and one unit for each tick of recent_cpu, of (2 load_avg)/(2 load_avg + 1) * recent_cpu + nice in exact arithmetic |
| `Mlfqs.PriorityClose` | pintos/src/threads/thread.c:509-520 | The priority is within 0.51 of PRI_MAX - recent_cpu / 4 - nice * 2 in exact arithmetic, cut off at the ends |
| `Mlfqs.PriorityMonotone` | pintos/src/threads/thread.c:509-520 | Using the processor more or being nicer never raises a priority |
| `Mlfqs.FitsMachineIntegers` | pintos/src/threads/fixed-point.h:7-29 | Within those limits and R at most 545 no stored 32-bit value and no 64-bit product of the updates overflows |
| `Mlfqs.ReportedIff` | pintos/src/threads/thread.c:493-503 | With product and rounding in 32 bits, 100 times a value is reported correctly if and only if its magnitude is at most 21474754 units, about 1310.7 |
| `Mlfqs.ReportsWithinLimits` | pintos/src/threads/thread.c:499-503 | With at most four ready threads recent_cpu never exceeds that, and the limits for five allow it |
| `Kernel.Machine.constructor` | pintos/src/threads/thread.c:116-129 | The machine starts in an initial state of the transition system |
| `Kernel.Machine.Unblock` | pintos/src/threads/thread.c:257-269 | A blocked thread becomes ready, in the ready list behind threads of its own or a higher priority and in front of the first of a lower one; nothing else changes |
| `Kernel.Machine.Schedule` | pintos/src/threads/thread.c:693-700 | A thread of the highest ready priority runs next with a fresh time slice, and idle when no thread is ready |
| `Kernel.Machine.YieldProcessor` | pintos/src/threads/thread.c:327-341 | thread_yield keeps the lists exact and exactly one thread running; the thread that yields, unless it is idle, goes behind all ready threads of its own or a higher priority and in front of the others, and the front of that list runs |
| `Kernel.Machine.BlockThread` | pintos/src/threads/thread.c:239-247 | thread_block of a thread the lists already count as blocked keeps the lists exact and leaves a thread of the highest ready priority running, alone |
| `Kernel.Machine.YieldThread` | pintos/src/threads/thread.c:327-341 | thread_yield as a call of its own is one step, keeps the invariant and has the effect the relation says |
| `Kernel.Machine.CreateThread` | pintos/src/threads/thread.c:187-229 | thread_create up to its preemption test is one step, keeps the invariant and has the effect the relation says |
| `Kernel.Machine.TestCreated` | pintos/src/threads/thread.c:187-229 | The preemption test at the end of thread_create is one step, keeps the invariant and has the effect the relation says |
| `Kernel.Machine.TestFront` | pintos/src/threads/thread.c:438-454 | The preemption test against the front of the ready list is one step, keeps the invariant, and leaves no ready thread above the running one |
| `Kernel.Machine.ExitThread` | pintos/src/threads/thread.c:306-323 | thread_exit is one step, keeps the invariant and has the effect the relation says |
| `Kernel.Machine.SleepThread` | pintos/src/threads/thread.c:370-384 | thread_sleep is one step, keeps the invariant and has the effect the relation says |
| `Kernel.Machine.WakeThreads` | pintos/src/threads/thread.c:387-400 | The loop of thread_wake computes the recursive specification |
| `Kernel.Machine.UpdateAllRecentCpu` | pintos/src/threads/thread.c:535-552 | The loop over all threads updates every recent_cpu but idle's |
| `Kernel.Machine.UpdateAllPriorities` | pintos/src/threads/thread.c:555-561 | Every priority but idle's is recomputed and the ready list stably sorted for them |
| `Kernel.Machine.Tick` | pintos/src/threads/thread.c:134-163 | The timer tick with its accounting, wake-ups and preemption is one step, keeps the invariant and has the effect the relation says |
| `Kernel.Machine.RaiseSema` | pintos/src/threads/synch.c:114-143 | The part of sema_up with interrupts off is the step of the transition system |
| `Kernel.Machine.TryDownSema` | pintos/src/threads/synch.c:89-108 | sema_try_down is one step, and succeeds exactly when the value is positive |
| `Kernel.Machine.TestDownSema` | pintos/src/threads/synch.c:65-82 | One round of the loop of sema_down is one step, keeps the invariant and has the effect the relation says |
| `Kernel.Machine.WaitAt` | pintos/src/threads/synch.c:65-82 | Waiting at a semaphore keeps the lists exact, and a thread of the highest ready priority runs |
| `Kernel.Machine.EnterDown` | pintos/src/threads/synch.c:65-82 | Entering sema_down is one step, keeps the invariant and has the effect the relation says; the thread is then on no list |
| `Kernel.Machine.UpSema` | pintos/src/threads/synch.c:114-143 | sema_up by a thread, up to its preemption test, is one step, keeps the invariant and has the effect the relation says |
| `Kernel.Machine.InterruptUp` | pintos/src/threads/synch.c:114-143 | sema_up by an interrupt handler is one step, keeps the invariant and has the effect the relation says |
| `Kernel.Machine.DonatePriority` | pintos/src/threads/synch.c:215-241 | The donation loop computes the recursive specification |
| `Kernel.Machine.RemoveDonations` | pintos/src/threads/synch.c:243-255 | The loop leaves exactly the donors that wait for other locks, in order |
| `Kernel.Machine.EffectivePriority` | pintos/src/threads/thread.c:422-436 | The loop computes the maximum of the base and the donors |
| `Kernel.Machine.ChangePriority` | pintos/src/threads/thread.c:438-454 | thread_set_priority up to its preemption test is one step, keeps the invariant and has the effect the relation says |
| `Kernel.Machine.ChangeNice` | pintos/src/threads/thread.c:465-484 | thread_set_nice up to its preemption test is one step, keeps the invariant and has the effect the relation says; the new priority is within PRI_MIN and PRI_MAX, and no other thread changes |
| `Kernel.Machine.AcquireLock` | pintos/src/threads/synch.c:273-291 | lock_acquire up to its sema_down is one step, keeps the invariant and has the effect the relation says |
| `Kernel.Machine.ClearWaitingLock` | pintos/src/threads/synch.c:273-291 | Clearing waiting_lock behind sema_down is one step, keeps the invariant and has the effect the relation says; the thread owns the lock, is not yet recorded as its holder, and donates to nobody |
| `Kernel.Machine.RecordHolder` | pintos/src/threads/synch.c:273-291 | Recording the holder is one step, keeps the invariant and has the effect the relation says; the lock had no recorded holder, and the one recorded is the thread that took its semaphore |
| `Kernel.Machine.TryAcquireLock` | pintos/src/threads/synch.c:299-311 | lock_try_acquire up to recording the holder is one step, keeps the invariant, and succeeds exactly when no thread owns the lock |
| `Kernel.Machine.ReleaseLock` | pintos/src/threads/synch.c:318-333 | lock_release up to its sema_up is one step, keeps the invariant and has the effect the relation says |
| `Kernel.Machine.GiveUpLock` | pintos/src/threads/synch.c:318-333 | lock_release's sema_up, up to its preemption test, is one step, keeps the invariant and has the effect the relation says |
| `Kernel.Machine.StartIdle` | pintos/src/threads/thread.c:575-603 | Idle registering itself is one step, keeps the invariant and has the effect the relation says; idle is then on no list |
| `Kernel.Machine.BlockIdle` | pintos/src/threads/thread.c:575-603 | Idle blocking is one step, keeps the invariant and has the effect the relation says |
| `Ordering.StableSortUnique` | pintos/src/lib/kernel/list.c:404-440 | A sorted stable permutation of a list is unique |
| `Ordering.MergeStable` | pintos/src/lib/kernel/list.c:379-399 | Merging two sorted runs is a stable permutation of their concatenation |
| `Ordering.InsertOrderedSorted` | pintos/src/lib/kernel/list.c:445-459 | Ordered insertion keeps a sorted list sorted and is a stable permutation of the list with the element appended |
| `Ordering.StableSortCorrect` | pintos/src/lib/kernel/list.c:404-440 | The specification of sorting is a sorted stable permutation for every strict weak order |
| `KernelList.InsertBefore` | pintos/src/lib/kernel/list.c:168-178 | list_insert leaves a well-formed doubly linked chain with the element at that place |
| `KernelList.Remove` | pintos/src/lib/kernel/list.c:248-255 | list_remove leaves a well-formed chain without the element and returns its successor |
| `KernelList.Splice` | pintos/src/lib/kernel/list.c:183-204 | list_splice moves a range in front of an element of another list or of the same one outside the range, leaving well-formed chains |
| `KernelList.FindEndOfRun` | pintos/src/lib/kernel/list.c:357-372 | The run found is nondecreasing and maximal |
| `KernelList.InplaceMerge` | pintos/src/lib/kernel/list.c:379-399 | The chain between the bounds becomes the merge of the two runs, everything else stays |
| `KernelList.Pass` | pintos/src/lib/kernel/list.c:404-440 | One pass is a stable permutation with fewer maximal runs unless only one run is left |
| `KernelList.List.FindPosition` | pintos/src/lib/kernel/list.c:445-459 | The loop stops at the first element that is greater |
| `KernelList.List.InsertOrdered` | pintos/src/lib/kernel/list.c:445-459 | list_insert_ordered inserts behind all elements that are not greater |
| `KernelList.List.Reverse` | pintos/src/lib/kernel/list.c:325-337 | list_reverse leaves a well-formed doubly linked list of the elements in reverse order |
| `KernelList.ReversedTwice` | pintos/src/lib/kernel/list.c:325-337 | Reversing twice gives back the list |
| `KernelList.List.Sort` | pintos/src/lib/kernel/list.c:404-440 | list_sort terminates and leaves a well-formed doubly linked list that is the sorted stable permutation of the input, for every strict weak order |
| `ThreadLists.InsertMapped` | pintos/src/lib/kernel/list.c:445-459 | Ordered insertion of list elements inserts their threads in order, for every comparator of threads |
| `ThreadLists.SortMapped` | pintos/src/lib/kernel/list.c:404-440 | Sorting list elements sorts their threads, stably |
| `ThreadLists.InsertThread` | pintos/src/threads/thread.c:257-269 | list_insert_ordered on the links leaves the sequence of threads the scheduler's model computes |
| `ThreadLists.PopThread` | pintos/src/threads/thread.c:693-700 | list_pop_front takes the first thread off the links and leaves the others |
| `ThreadLists.PopHighest` | pintos/src/threads/synch.c:114-143 | Sorting the waiters' links and popping the front takes the thread the scheduler's model wakes, and leaves the list it leaves |
| `ThreadLists.Reposition` | pintos/src/threads/synch.c:215-241 | Taking a donated-to thread out of the links and inserting it again leaves the ready list of the scheduler's model |
| `Arithmetic.Nlz` | pintos/src/lib/arithmetic.c:41-73 | The number of leading zero bits |
| `Arithmetic.UDivExact` | pintos/src/lib/arithmetic.c:77-127 | udiv64 is floor(n / d) for all 64-bit n and nonzero d; every divl it executes meets the condition under which divl does not trap |
| `Arithmetic.SmallExact` | pintos/src/lib/arithmetic.c:77-127 | The branch for divisors below 2^32: two divl steps give the quotient |
| `Arithmetic.UModWraps` | pintos/src/lib/arithmetic.c:131-135 | umod64 is the remainder modulo 2^32, so it is the remainder exactly when that is below 2^32 |
| `Arithmetic.UModExactIff` | pintos/src/lib/arithmetic.c:131-135 | umod64 is exact for every dividend if and only if d is at most 2^32 |
| `Arithmetic.SDivTruncates` | pintos/src/lib/arithmetic.c:139-146 | sdiv64 is the quotient truncated toward zero if and only if the operands are not -2^63 and -1 |
| `Arithmetic.SModExactIff` | pintos/src/lib/arithmetic.c:150-154 | smod64 is exact for every dividend if and only if |d| is at most 2^31 |
| `InodeIo.PatchedContents` | pintos/src/filesys/inode.c:257-318 | Storing bytes inside a file replaces exactly that slice of what the file holds |
| `InodeIo.PatchedElsewhere` | pintos/src/filesys/inode.c:257-318 | Sectors outside the file keep their bytes |
| `Inode.OpenInode.ReadAt` | pintos/src/filesys/inode.c:200-250 | For every offset and size the chunk loop with its bounce buffer copies exactly the in-range slice and returns its length |
| `Inode.OpenInode.WriteAt` | pintos/src/filesys/inode.c:257-318 | For every offset and size the chunk loop replaces exactly the in-range slice, changes no other byte of the device, and returns the length, 0 if writes are denied |
| `DiskFormat.InodeRoundTrip` | pintos/src/filesys/inode.c:72-106 | Decoding an on-disk inode gives back its start and length |
| `DiskFormat.InodeBytes` | pintos/src/filesys/inode.c:15-21 | Where each byte of an on-disk inode goes: start, length and magic number in three little-endian words, and zeros |
| `DiskFormat.FilledDecodes` | pintos/src/filesys/directory.c:141-179 | A directory entry written with a name and sector reads back as that entry, in use |
| `DiskFormat.EntryBytesAt` | pintos/src/filesys/directory.c:17-22 | Where each byte of a directory entry goes: sector, name with its NUL, flag |
| `DiskFormat.ErasedDecodes` | pintos/src/filesys/directory.c:184-216 | An erased entry reads back with its name and sector and not in use |
| `DiskFormat.SlotStored` | pintos/src/filesys/directory.c:141-179 | Storing one entry's bytes changes that entry of the directory and no other |
| `FileSystem.OpenCloseRestores` | pintos/src/filesys/inode.c:111-186 | Opening an inode and closing it again leaves the state as it was |
| `FileSteps.CreateStep` | pintos/src/filesys/filesys.c:45-59 | filesys_create adds a new zero-filled file, its inode in the lowest free sector and its data in the lowest free run after that, in the slot dir_add finds, under a name its lookup does not find, or adds nothing; no live file changes, whichever reads and allocations fail |
| `FileDirectory.OverflowFails` | pintos/src/filesys/inode.c:23-29 | A size within 511 of 2^31 overflows when it is rounded up to sectors: inode_create asks for more than any device has, fails, and changes nothing |
| `FileDirectory.SectorsExact` | pintos/src/filesys/inode.c:23-29 | For every file that exists the number of sectors computed from its length in 32 bits is the number it has |
| `FileSteps.OpenStep` | pintos/src/filesys/filesys.c:66-77 | filesys_open gives a handle at position 0 on the inode its lookup finds, which has one opener more, when every allocation succeeds, and changes nothing otherwise |
| `FileSteps.RemoveStep` | pintos/src/filesys/filesys.c:83-91 | filesys_remove erases the entry its lookup finds; an open inode is marked removed and keeps its sectors, any other is released at once; on failure nothing changes |
| `FileSteps.CloseStep` | pintos/src/filesys/file.c:45-54 | file_close drops the handle, its denial and its opener; it releases exactly the inode's sectors when it was the last opener of a removed file, and no sector otherwise; no live file changes |
| `FileSteps.WriteStep` | pintos/src/filesys/file.c:94-100 | file_write replaces exactly the slice at the file's position and advances it; no other live file changes |
| `FileSteps.QuietStep` | pintos/src/filesys/file.c:68-157 | Reading, seeking, denying and allowing writes change no byte of the device; reading moves the position by the bytes read, seeking sets it, denying and allowing set the handle's flag, deny_write_cnt is the number of handles that deny, and nothing else changes |
| `FileSteps.StepKeeps` | pintos/src/filesys/filesys.c:45-91 | Every call, whatever allocations fail in it, meets no failing assertion, keeps the file-system invariant and leaves the bytes of every live file it is not about; among the assertions, every sector released was marked used |
| `FileSpace.CreateUsed` | pintos/src/filesys/filesys.c:45-59 | The free map after filesys_create, bit by bit: unchanged unless the inode's sector and then the data's run were obtained; then the run is marked, and the inode's sector exactly if the file was created |
| `FileSpace.FailedCreate` | pintos/src/filesys/filesys.c:45-59 | A create that fails leaves the sector it tried for the inode free, and the map as it was in every bit outside the run inode_create obtained, if it obtained one |
| `FileSpace.StepExact` | pintos/src/filesys/free-map.c:27-50 | A call that has the memory to store the map leaves on the device the map it leaves in memory |
| `FileMap.FlushMap` | pintos/src/lib/kernel/bitmap.c:355-360 | Storing the map sets every stored bit to the one in memory; without memory for a bounce buffer, exactly the bits in whole sectors |
| `FileMap.CreateStepMap` | pintos/src/filesys/filesys.c:45-59 | The map in memory and the map on the device after filesys_create, whichever of its up to three stores of the map are cut short |
| `FileMap.RemoveStepMap` | pintos/src/filesys/filesys.c:83-91 | The same for filesys_remove |
| `FileMap.CloseStepMap` | pintos/src/filesys/file.c:45-54 | The same for file_close |
| `FileView.StepRefines` | pintos/src/filesys/filesys.c:45-91 | Every call, on sectors and tables, does to what is seen of them, that is directory entries, files by inode with their place and bytes, open inodes and handles, and the free map in memory and on the device, exactly what a specification in those terms says |
| `FileView.RebootRefines` | pintos/src/filesys/free-map.c:53-60 | A reboot leaves the named files, nothing open, and the stored map as the map |
| `FileView.RunRefines` | pintos/src/filesys/filesys.c:16-91 | Every run of calls and reboots, with any allocation failing anywhere, shows a run of that specification from an empty directory on |
| `FileView.RunStored` | pintos/src/filesys/free-map.c:27-60 | While every change of the map can be stored, the device holds the map in use in every state of every run, and a reboot neither takes a sector nor gives one back |
| `FileReads.RunReads` | pintos/src/filesys/file.c:68-74 | Over any stretch of a run in which a handle stays open, is not repositioned and its inode not written to, the bytes its reads return are together the one slice of the file from its first position to its last, whatever else is called in between |
| `FileReads.ReadsToEnd` | pintos/src/filesys/file.c:68-74 | Reading until nothing more comes, with memory at hand, returns the rest of the file |
| `FileReads.StepPosition` | pintos/src/filesys/file.c:68-169 | No call but a seek of the handle or a write to its inode moves a handle's position, except that a read moves it by the bytes it returns |
| `FileLeaks.StepAccountedIff` | pintos/src/filesys/filesys.c:45-91 | If every sector marked used is the system's or belongs to a file with a name or a handle, a call keeps that if and only if it is not a create that obtains its data but cannot enter the name, a create that overwrites the entry of a file not open, or the last close of a file whose entry was overwritten |
| `FileLeaks.RunAccountedIff` | pintos/src/filesys/free-map.c:27-60 | Up to a moment of a run, reboots included, every marked sector has always belonged to someone if and only if no event before was of those kinds or a reboot with an open file without a name or with a stored map that marks more |
| `FileStart.FormattedHolds` | pintos/src/filesys/filesys.c:94-103 | The state formatting leads to satisfies the invariant |
| `FileRuns.RunInvariant` | pintos/src/filesys/filesys.c:45-91 | In every state of every run of calls and reboots, with any allocation failing anywhere, the invariant holds, the device mounts, the stored map marks every sector in use, and no call can meet a failing assertion |
| `FileRuns.RunDisjoint` | pintos/src/filesys/free-map.c:27-50 | In every state of every run the entries in use lead to different inodes, and the inode and data sectors of named and open files are allocated and pairwise disjoint |
| `FileRuns.RunIsolates` | pintos/src/filesys/inode.c:257-318 | Over any stretch of a run without a write to its inode, the bytes seen through an open handle do not change |
| `FileRuns.StepIsolates` | pintos/src/filesys/inode.c:163-195 | The same for one call |
| `FileRuns.ReleasedAtLastClose` | pintos/src/filesys/inode.c:163-186 | A sector of an open file is released only by the close of the last handle to a removed file |
| `FileRuns.RunRemounts` | pintos/src/filesys/free-map.c:27-60 | In every state of every run, with any allocation failing anywhere and any reboots before, a reboot continues the run: the device mounts to a state with every invariant, the same directory and files, nothing open, and every sector in use marked so |
| `FileNames.CreatesIff` | pintos/src/filesys/filesys.c:45-59 | filesys_create succeeds if and only if, judged before the call, there is memory for the inodes, the entry and the map, a sector for the inode and then a run for the data, the name is proper and not met by the lookup's reads, and the search for a free slot ends inside the directory |
| `FileNames.StepEntries` | pintos/src/filesys/directory.c:141-216 | Exactly filesys_create and filesys_remove change the directory, each in the one entry its reads lead it to |
| `FileNames.StepUniqueIff` | pintos/src/filesys/directory.c:141-179 | A call keeps names unique if and only if it is not a create that goes through although its name is in use at an entry its lookup could not read and its new entry does not overwrite |
| `FileNames.RunUniqueIff` | pintos/src/filesys/directory.c:141-179 | Names are unique throughout a run if and only if no create in it is of that kind |
| `FileNames.StepEntryIff` | pintos/src/filesys/directory.c:141-216 | A call leaves an entry in use as it is if and only if it is neither the remove that finds it nor a create whose search for a free slot was cut off right there |
| `FileNames.RunEntryIff` | pintos/src/filesys/directory.c:141-216 | Over any stretch of a run an entry stays if and only if no call in it is of those two kinds |
| `FileNames.RunPersists` | pintos/src/filesys/filesys.c:45-91 | Over any stretch of a run, reboots included, a file keeps its entry and its bytes as long as no call in it is of those two kinds for its entry or writes to it |
| `FileLowMemory.EntryOverwritten` | pintos/src/filesys/directory.c:141-179 | For any two names: the run of two creates on a fresh file system, the second one's search without memory, in which the new entry overwrites the first file's, whose name is gone while its inode's sector stays in use |
| `FileLowMemory.NamedTwice` | pintos/src/filesys/directory.c:91-112 | For every name: the run of two creates on a fresh file system, the lookups without memory, after which the name is in the directory twice |
| `FileFormat.FormatReaches` | pintos/src/filesys/filesys.c:94-103 | Formatting and mounting any device that it does not panic on leads to the state in which runs start |
| `FileFormat.SurvivesIff` | pintos/src/filesys/free-map.c:68-84 | Formatting panics if and only if memory runs out where it counts or there is no sector for the root directory behind the map |
| `FileRemount.StepCovers` | pintos/src/filesys/free-map.c:27-50 | Whatever allocations fail in a call, the map stored on the device goes on marking every sector in use |
| `FileRemount.MountedHolds` | pintos/src/filesys/free-map.c:53-60 | Reading the stored map back gives a state that satisfies the invariant, with the same directory and files, whose map is the stored one |
| `FilePersistence.MapRoundTrip` | pintos/src/lib/kernel/bitmap.c:340-360 | Reading a written free map gives back the same bits |
| `FilePersistence.FlushPersists` | pintos/src/filesys/free-map.c:27-50 | After a free-map write that completes, the map on the device is the one in memory |
| `Volume.FileVolume.constructor` | pintos/src/filesys/free-map.c:53-60 | The tables after the map's inode has been opened: it is open once, and no file is |
| `Volume.CreateMap` | pintos/src/filesys/free-map.c:68-84 | free_map_create up to opening the map's file, with its panics |
| `Volume.Format` | pintos/src/filesys/filesys.c:16-31 | filesys_init with formatting gives a volume in a starting state of the transition system, with the invariant, and panics exactly when the specification says |
| `Volume.ClearSectors` | pintos/src/filesys/inode.c:72-106 | The loop fills exactly the data sectors with zeros |
| `Volume.Mount` | pintos/src/filesys/free-map.c:53-60 | free_map_open reads the map stored on the device |
| `Volume.FileVolume.ReadMap` | pintos/src/lib/kernel/bitmap.c:340-352 | bitmap_read gives the bits the file holds |
| `Volume.FileVolume.WriteAt` | pintos/src/filesys/inode.c:257-318 | inode_write_at on an open inode is the write of the transition system |
| `Volume.FileVolume.StoreMap` | pintos/src/lib/kernel/bitmap.c:355-360 | The map is written to its file, and success means all of it was |
| `Volume.FileVolume.AllocateSectors` | pintos/src/filesys/free-map.c:27-41 | free_map_allocate marks the first fit, and takes it back when the map cannot be stored |
| `Volume.FileVolume.ReleaseSectors` | pintos/src/filesys/free-map.c:44-50 | free_map_release of a run that is all in use, as it asserts, clears exactly that run |
| `Volume.FileVolume.NewInodeAt` | pintos/src/filesys/inode.c:72-106 | inode_create with its failures is the creation of the transition system |
| `Volume.FileVolume.Close` | pintos/src/filesys/inode.c:163-186 | inode_close forgets the inode with its last opener and releases its sectors, which are in use, if it was removed |
| `Volume.FileVolume.Find` | pintos/src/filesys/directory.c:118-133 | The first entry in use with that name |
| `Volume.FileVolume.Add` | pintos/src/filesys/directory.c:141-179 | dir_add is the insertion of the transition system, and tells whether it happened |
| `Volume.FileVolume.OpenRoot` | pintos/src/filesys/directory.c:34-58 | The root directory is opened, or everything is as before |
| `Volume.FileVolume.CreateFile` | pintos/src/filesys/filesys.c:45-59 | filesys_create with its rollback is one step with its effect on the view, tells whether it created the file, and leaves the free map as specified: without success the inode's sector is free again |
| `Volume.FileVolume.OpenFile` | pintos/src/filesys/filesys.c:66-77 | filesys_open is one step with its effect on the view, tells whether there is a file, and keeps the invariant |
| `Volume.FileVolume.RemoveHere` | pintos/src/filesys/directory.c:184-216 | dir_remove is the removal of the transition system, and tells whether it happened |
| `Volume.FileVolume.RemoveFile` | pintos/src/filesys/filesys.c:83-91 | filesys_remove is one step with its effect on the view, tells whether the name is gone, and keeps the invariant |
| `Volume.FileVolume.DenyWrites` | pintos/src/filesys/file.c:118-127 | file_deny_write is one step with its effect on the view; the handle denies, and deny_write_cnt is the number of handles that do |
| `Volume.FileVolume.AllowWrites` | pintos/src/filesys/file.c:132-141 | file_allow_write is one step with its effect on the view; the handle does not deny, and deny_write_cnt is the number of handles that do |
| `Volume.FileVolume.CloseFile` | pintos/src/filesys/file.c:45-54 | file_close is one step with its effect on the view and keeps the invariant |
| `Volume.FileVolume.ReadFile` | pintos/src/filesys/file.c:68-74 | file_read is one step with its effect on the view; it returns the bytes at the handle's position, as many as asked for and as there are, and moves the position by their number; no other handle, no inode and no bit of the map changes |
| `Volume.FileVolume.WriteFile` | pintos/src/filesys/file.c:94-100 | file_write is one step with its effect on the view; it returns how many bytes were stored, none while a handle denies writes, and moves the position by that number |
| `Volume.FileVolume.SeekFile` | pintos/src/filesys/file.c:152-158 | file_seek is one step with its effect on the view: it sets the position and nothing else |
| `Directory.AddSoundIff` | pintos/src/filesys/directory.c:141-179 | When directory reads may run out of memory, dir_add keeps names unique and loses no entry if and only if the lookup was not cut off before an entry of that name and the search for a free slot was not cut off before one |
| `Directory.AddSound` | pintos/src/filesys/directory.c:141-179 | With enough memory for every read dir_add always keeps names unique and loses no entry |
| `Directory.LowMemoryDuplicates` | pintos/src/filesys/directory.c:91-112 | A concrete directory in which a lookup that runs out of memory lets a name be added twice |
| `Directory.Dir.Lookup` | pintos/src/filesys/directory.c:91-112 | The loop finds the first entry in use with that name among those it can read |
| `Directory.Dir.FindFree` | pintos/src/filesys/directory.c:141-179 | The loop finds the first free slot among those it can read, or stops behind them |
| `Directory.Dir.Add` | pintos/src/filesys/directory.c:141-179 | dir_add changes the entries as the specification says, and succeeds exactly when it says |
| `Directory.Dir.Erase` | pintos/src/filesys/directory.c:184-216 | The entry is marked unused and every other entry stays |
| `Directory.Dir.ReadDir` | pintos/src/filesys/directory.c:221-236 | The next entry in use from the position among those it can read, and the position behind it |
| `Bitmap.AddedBit` | pintos/src/lib/kernel/bitmap.c:156-166 | Setting bit j of a word changes no other bit |
| `Bitmap.RemovedBit` | pintos/src/lib/kernel/bitmap.c:169-179 | Clearing bit j of a word changes no other bit |
| `Bitmap.Bitmap.Set` | pintos/src/lib/kernel/bitmap.c:144-153 | bitmap_set changes exactly one bit of the map |
| `Bitmap.Bitmap.SetMultiple` | pintos/src/lib/kernel/bitmap.c:217-228 | bitmap_set_multiple sets exactly that run |
| `Bitmap.Bitmap.Contains` | pintos/src/lib/kernel/bitmap.c:250-263 | bitmap_contains tells whether a run has a bit of that value |
| `Bitmap.Bitmap.Scan` | pintos/src/lib/kernel/bitmap.c:295-310 | bitmap_scan finds the first fit |
| `Bitmap.Bitmap.ScanAndFlip` | pintos/src/lib/kernel/bitmap.c:319-326 | bitmap_scan_and_flip finds the first fit and flips exactly that run |
| `Bitmap.FirstRunFound` | pintos/src/lib/kernel/bitmap.c:295-310 | The first fit is a run of that value, and no earlier start is |
| `Bitmap.FirstRunIsFirstFit` | pintos/src/filesys/free-map.c:27-41 | The bitmap scan is the first fit the file system model allocates by |
| `Palloc.StepKeeps` | pintos/src/threads/palloc.c:70-142 | Every single-bit step of allocating under the lock and freeing without it keeps every used bit claimed by exactly one allocation or worker |
| `Palloc.RunInvariant` | pintos/src/threads/palloc.c:70-142 | The same in every state of every interleaving |
| `Palloc.NeverSharedTwice` | pintos/src/threads/palloc.c:70-142 | Under every interleaving no page belongs to two live allocations, every page of one is marked and inside the pool, and no worker is about to clear it |
| `PallocScan.FailsOnlyWhenFull` | pintos/src/threads/palloc.c:70-101 | Whatever is freed in the meantime, an allocation that finds nothing took the lock at a moment when no run of that length was free |
| `PallocScan.FindsLowest` | pintos/src/threads/palloc.c:70-101 | The run an allocation finds is free when it starts to mark it, and no lower run was when it took the lock |
| `PallocScan.ScanProgress` | pintos/src/lib/kernel/bitmap.c:295-310 | Every test moves the scan forward, and it gives up exactly when the run would reach past the pool |
| `Pools.MapFits` | pintos/src/threads/palloc.c:153-170 | The bitmap of a pool ends before its first page |
| `Pools.RunsApart` | pintos/src/threads/palloc.c:45-62 | A run handed out is inside its own pool and free memory, page-aligned, recognised as its pool's, and apart from the other pool and from both bitmaps |
| `PageAllocator.PagePool.GetMultiple` | pintos/src/threads/palloc.c:70-101 | The first free run is marked and its address returned; nothing changes when there is none |
| `PageAllocator.PagePool.FreeMultiple` | pintos/src/threads/palloc.c:117-142 | Exactly the bits of the freed pages are cleared |
| `PageAllocator.FreeUndoesGet` | pintos/src/threads/palloc.c:117-142 | Freeing what was allocated restores the bitmap |
| `Malloc.ArenaOfBlock` | pintos/src/threads/malloc.c:267-294 | block_to_arena inverts arena_to_block |
| `Malloc.BlockOfArena` | pintos/src/threads/malloc.c:267-294 | arena_to_block inverts block_to_arena |
| `MallocInvariant.MallocKeeps` | pintos/src/threads/malloc.c:89-154 | malloc keeps the heap invariant, in which every arena's free_cnt equals the number of its blocks on its free list, and meets no failing assertion |
| `MallocInvariant.FreeKeeps` | pintos/src/threads/malloc.c:218-264 | free keeps the heap invariant; the pages go back exactly when their arena leaves, and then no live block and no free-list entry points into them |
| `MallocRuns.LiveApart` | pintos/src/threads/malloc.c:89-154 | Live blocks never overlap |
| `MallocRuns.MallocHolds` | pintos/src/threads/malloc.c:89-154 | Every live block holds at least the bytes asked for after a malloc if and only if the request is below 2^32 - 11 or no page was granted |
| `MallocRuns.HugeRequestTooSmall` | pintos/src/threads/malloc.c:89-154 | A request of 2^32 - 1 bytes wraps and is given too little |
| `MallocRuns.FreeHolds` | pintos/src/threads/malloc.c:218-264 | free leaves every other live block as large as was asked for |
| `MallocUndo.FreeUndoesMalloc` | pintos/src/threads/malloc.c:89-264 | Freeing what malloc returned restores the heap exactly, lists, counts and pages, and gives back the pages it had asked for, for every heap and size |
| `MallocUndo.MallocUndoesFree` | pintos/src/threads/malloc.c:89-264 | A block freed in an arena that stays is the next one of its class to be handed out, and then the heap is as before |
| `MallocUndo.MallocFailsIff` | pintos/src/threads/malloc.c:89-154 | malloc fails if and only if the size is 0, or every block of the class is handed out and no page is granted; it asks for a page exactly when every block of the class is handed out |
| `MallocUndo.BigPagesLeast` | pintos/src/threads/malloc.c:105-122 | A big block gets as few pages as hold it and its header, unless the sum wraps around |
| `MallocUndo.ReturnsIff` | pintos/src/threads/malloc.c:218-264 | free gives pages back if and only if no other block of the arena is handed out |
| `MallocUndo.CallLive` | pintos/src/threads/malloc.c:89-264 | Which blocks callers have after each call: realloc to 0 bytes is a free, and a realloc that fails leaves the old block with its owner |
| `MallocWords.InsertChain` | pintos/src/lib/kernel/list.c:168-178 | list_insert, four stores to memory, makes the links of a free list spell out the list with the new block in it, and writes no byte but of its elements |
| `MallocWords.RemoveChain` | pintos/src/lib/kernel/list.c:248-255 | list_remove, two stores to memory, makes the links spell out the list without the block, and writes no byte but of its elements |
| `MallocInit.InitRepresents` | pintos/src/threads/malloc.c:71-85 | Whatever memory held, malloc_init leaves in it the descriptors of the seven classes, 16 to 1024 bytes, with their blocks per arena and empty lists |
| `MallocLayout.SameRepresents` | pintos/src/threads/malloc.c:36-61 | Whether memory holds a heap, that is descriptors, arena headers and links in free blocks as the allocator last stored them, depends on the bytes of descriptors, headers and blocks nobody has, and on no other |
| `MallocLayout.LiveNotOverhead` | pintos/src/threads/malloc.c:89-154 | None of those bytes is in a live block |
| `MallocAllocation.TakeRefines` | pintos/src/threads/malloc.c:148-154 | Popping a free list and counting down in the header, as words of memory, is taking the front block of the heap; no assertion fails, and only bytes of descriptors, headers and blocks nobody has change |
| `MallocAllocation.ArenaRefines` | pintos/src/threads/malloc.c:124-146 | Writing the header of a granted page and pushing its blocks one by one makes memory hold the heap with the new arena; no assertion fails, and only such bytes change |
| `MallocAllocation.MallocRefines` | pintos/src/threads/malloc.c:89-154 | On memory that holds a heap, malloc fails no assertion, returns the block specified, leaves memory that holds the heap specified, and writes only bytes of descriptors, headers and blocks nobody has |
| `MallocRelease.RemoveRefines` | pintos/src/threads/malloc.c:245-252 | The loop takes the blocks of an arena off their list, wherever they are in it, and fails no assertion |
| `MallocRelease.FreeRefines` | pintos/src/threads/malloc.c:218-264 | On memory that holds a heap, free of a live block fails no assertion, leaves memory that holds the heap specified, and writes only such bytes and the pages it gives back |
| `MallocMemory.ReallocRefines` | pintos/src/threads/malloc.c:194-214 | The same for a realloc that is contained, with malloc's block as its result |
| `MallocMemory.CopyFitsIff` | pintos/src/threads/malloc.c:194-214 | The copy of a realloc stays inside the new block if and only if the call is contained: the size is below 2^32 - 11, or the old block has at most 4084 bytes, or no page is granted |
| `MallocMemory.ReallocCopies` | pintos/src/threads/malloc.c:194-214 | A contained realloc that is given a block returns a live block of the new size with the old bytes, as many as fit both, and the old block is gone |
| `MallocMemory.StepKeeps` | pintos/src/threads/malloc.c:89-264 | A contained call, a store of a caller into its block and a store outside the allocator's memory fail no assertion and leave memory that holds the heap the calls were to build, again a proper one |
| `MallocMemory.OthersPreserve` | pintos/src/threads/malloc.c:89-264 | A contained call about other blocks keeps a live block where it is, with its bytes |
| `MallocMemory.RunInvariant` | pintos/src/threads/malloc.c:89-264 | In every state of every run whose calls so far were contained, the heap is proper and memory holds it: every header, descriptor and link is what the allocator last stored |
| `MallocMemory.RunProceeds` | pintos/src/threads/malloc.c:218-294 | And the next call, if contained too, fails no assertion, among them the magic number and the alignment |
| `MallocMemory.RunApart` | pintos/src/threads/malloc.c:89-294 | In such a state live blocks overlap neither each other nor a byte of a descriptor, a header or a block nobody has, and block_size reads off the header what a live block offers |
| `MallocMemory.RunPreserves` | pintos/src/threads/malloc.c:89-264 | Over any stretch of a run whose calls were all contained from the start, a live block that no call is about stays live and keeps its bytes, whatever else is asked for |
| `MallocMemory.AfterHolds` | pintos/src/threads/malloc.c:89-264 | A call leaves every live block as large as was asked for if and only if it is not a request of at least 2^32 - 11 bytes that is granted a page |
| `MallocMemory.RunHolds` | pintos/src/threads/malloc.c:89-264 | Up to a moment of a run every live block has always been as large as was asked for if and only if no request of at least 2^32 - 11 bytes was granted a page |
| `MallocMemory.OversizedOnly` | pintos/src/threads/malloc.c:194-214 | A run in which no such request was granted is contained |
| `MallocOverrun.ReallocOverruns` | pintos/src/threads/malloc.c:194-294 | A run of two mallocs and a realloc to 2^32 - 1 bytes that is not contained: the copy changes a byte of another live block and overwrites the magic number in front of it, memory no longer holds the heap, and the free of that block, which its owner may ask for, fails its assertion |
| `MallocPool.AnswerGranted` | pintos/src/threads/palloc.c:70-101 | The pages the pool answers with are pages the heap does not have |
| `MallocPool.EventKeeps` | pintos/src/threads/malloc.c:89-264 | With the page allocator's pool underneath, and others taking and returning its pages: every contained call fails no assertion of malloc.c or of palloc_free_multiple, and afterwards memory holds the heap and the pages in use are exactly those of the arenas and those of others, none both |
| `MallocPool.RunInvariant` | pintos/src/threads/palloc.c:70-142 | The same in every state of every run from an empty pool on |
| `Allocator.BlockAllocator.constructor` | pintos/src/threads/malloc.c:71-85 | malloc_init's loop, which doubles the block size, leaves the empty heap in memory and writes only descriptors |
| `Allocator.BlockAllocator.FindClass` | pintos/src/threads/malloc.c:100-104 | The loop over the descriptors in memory finds the smallest class that fits |
| `Allocator.BlockAllocator.NewArena` | pintos/src/threads/malloc.c:124-146 | The stores of the header and the loop of list_push_back leave memory that holds the heap with the new arena; every assertion holds |
| `Allocator.BlockAllocator.Malloc` | pintos/src/threads/malloc.c:89-154 | malloc, store by store, returns the block specified, leaves memory that holds the heap specified, and keeps the invariant; every assertion holds |
| `Allocator.BlockAllocator.RemoveBlocks` | pintos/src/threads/malloc.c:245-252 | The loop of list_remove over an arena's blocks; every assertion holds |
| `Allocator.BlockAllocator.Release` | pintos/src/threads/malloc.c:218-264 | free, store by store, leaves memory that holds the heap specified and keeps the invariant; every assertion holds |
| `Allocator.BlockAllocator.Realloc` | pintos/src/threads/malloc.c:194-214 | A contained realloc, store by store, returns the block specified, leaves memory that holds the heap specified and keeps the invariant |
| `HashTable.DropsLowest` | pintos/src/lib/kernel/hash.c:329-340 | x & (x - 1) is zero exactly for powers of two, and otherwise smaller and not below the highest power |
| `HashTable.MaskIsRemainder` | pintos/src/lib/kernel/hash.c:305-310 | Masking with a power of two minus one is the remainder |
| `HashTable.BucketCount` | pintos/src/lib/kernel/hash.c:351-413 | The loop finds the largest power of two that is at most half the elements, at least 4 |
| `HashTable.Table.constructor` | pintos/src/lib/kernel/hash.c:24-42 | A new table is valid and empty |
| `HashTable.Init` | pintos/src/lib/kernel/hash.c:24-42 | hash_init gives an empty valid table, or fails when there is no room for its buckets |
| `HashTable.Table.FindBucket` | pintos/src/lib/kernel/hash.c:305-310 | The bucket index is the hash modulo the number of buckets |
| `HashTable.Table.FindElem` | pintos/src/lib/kernel/hash.c:314-326 | An equivalent element of the bucket, if there is one |
| `HashTable.Table.Find` | pintos/src/lib/kernel/hash.c:131-135 | hash_find returns the equivalent element of the whole table, or nothing when there is none |
| `HashTable.Table.Insert` | pintos/src/lib/kernel/hash.c:98-110 | hash_insert adds the element unless an equivalent one, or it itself, is there, which it returns; whether the rehash finds memory or not the table stays valid, with fewer than 4 elements a bucket when it does |
| `HashTable.Table.Replace` | pintos/src/lib/kernel/hash.c:114-127 | hash_replace exchanges the equivalent element for the new one |
| `HashTable.Table.Delete` | pintos/src/lib/kernel/hash.c:144-154 | hash_delete removes exactly the equivalent element |
| `HashTable.Table.Rehash` | pintos/src/lib/kernel/hash.c:351-413 | Rehashing keeps the set of elements; it is valid, a power of two at least 4 of buckets with every element in its hash's bucket, whether it finds memory or not |
| `HashTable.Table.Next` | pintos/src/lib/kernel/hash.c:218-235 | The iterator moves to the next position of the table, and ends exactly at the last |
| `HashTable.FlattenOnce` | pintos/src/lib/kernel/hash.c:218-235 | The positions the iterator goes through have every element exactly once |
| `PageDir.EntryRoundTrip` | pintos/src/threads/pte.h:71-104 | The frame and the writable bit read back from an entry are those it was made from, and user code may use it; a directory entry leads back to its table and forbids neither user code nor writing |
| `PageDir.AddressParts` | pintos/src/threads/pte.h:31-44 | The directory and table indices of a user address make up its page number |
| `PageDir.WithTableKeeps` | pintos/src/userprog/pagedir.c:56-86 | A new page table changes no mapping |
| `PageDir.StoredKeeps` | pintos/src/userprog/pagedir.c:98-119 | Storing an entry changes exactly one mapping |
| `PageDir.PageDirectory.constructor` | pintos/src/userprog/pagedir.c:16-23 | A new page directory maps no user page and has the kernel's entries |
| `PageDir.Create` | pintos/src/userprog/pagedir.c:16-23 | pagedir_create gives a directory that maps no user page, or fails for lack of a page |
| `PageDir.PageDirectory.Find` | pintos/src/userprog/pagedir.c:56-86 | lookup_page without creation finds the entry of that page |
| `PageDir.PageDirectory.FindOrCreate` | pintos/src/userprog/pagedir.c:56-86 | lookup_page with creation has a table exactly when there was one or a page was found, and changes no mapping |
| `PageDir.PageDirectory.SetPage` | pintos/src/userprog/pagedir.c:98-119 | pagedir_set_page changes exactly one mapping of the flat map, to that frame, usable by user code and writable as asked at both levels, or none when no page table can be had |
| `PageDir.PageDirectory.GetAddress` | pintos/src/userprog/pagedir.c:125-137 | pagedir_get_page agrees with the flat map for every user address |
| `PageDir.PageDirectory.ClearPage` | pintos/src/userprog/pagedir.c:143-157 | pagedir_clear_page removes exactly one mapping, and keeps every other bit of the entry |
| `PageDir.PageDirectory.Destroy` | pintos/src/userprog/pagedir.c:27-48 | The nested loops free the pages of the specification in order |
| `PageDir.DestroyOnce` | pintos/src/userprog/pagedir.c:27-48 | pagedir_destroy frees every mapped frame, every page table and the directory exactly once and nothing else |
| `PageDir.CallChanges` | pintos/src/userprog/pagedir.c:98-157 | A call of pagedir_set_page or pagedir_clear_page changes exactly the mapping it names, or nothing when it fails; a page mapped is usable by user code at both levels, and unmapping keeps all bits of the entry but the lowest |
| `PageDir.CallOwnedIff` | pintos/src/userprog/pagedir.c:98-157 | One call keeps every frame mapped once, and frames, tables and the directory distinct, if and only if it maps no page the directory already uses |
| `PageDir.RunOwnedIff` | pintos/src/userprog/pagedir.c:56-157 | The same over every run of mapping, unmapping and creating tables from pagedir_create on |
| `PageDir.RunDestroysOnce` | pintos/src/userprog/pagedir.c:27-157 | At the end of every such run pagedir_destroy frees exactly the pages in use, each once |
| `Arguments.NextToken` | pintos/src/lib/string.c:234-275 | strtok_r with a space cuts off the next word, leaves the words behind it and touches nothing before it |
| `Arguments.Tokenize` | pintos/src/userprog/process.c:293-355 | The loop finds the first 128 words, each ended by a NUL |
| `Arguments.PushArguments` | pintos/src/userprog/process.c:293-355 | Whatever the command line, memory ends in the stack image at the final stack pointer and everything below it is unchanged; the code writes below the stack page if and only if the image is larger than the page |
| `Arguments.ReadBack` | pintos/src/userprog/process.c:293-355 | Read back from the final stack pointer: a zero return address, argc, argv, the null pointer behind the pointers, and 4-byte alignment |
| `Arguments.ReadBackArgument` | pintos/src/userprog/process.c:293-355 | The i-th pointer leads to a NUL-terminated copy of the i-th word, above the pointers, and the copies follow one another without overlap |
| `Arguments.ArgsAreWords` | pintos/src/lib/string.c:234-275 | At most 128 words are passed, none empty and none with a space or a NUL |
| `Arguments.LongLineDoesNotFit` | pintos/src/userprog/process.c:293-355 | Of one word of 4095 letters only the letters are written in the page, and the twenty bytes of pointers and counts below it |
| `Arguments.ArgsFit` | pintos/src/userprog/process.c:293-355 | No command line makes the code write below the two pages under PHYS_BASE |
| `Sorting.Heapify` | pintos/src/lib/stdlib.c:96-123 | heapify restores the heap from its index on and only rearranges |
| `Sorting.TopIsLargest` | pintos/src/lib/stdlib.c:96-123 | The top of a heap is a largest element |
| `Sorting.Sort` | pintos/src/lib/stdlib.c:131-152 | sort leaves an ordered permutation, for every array and every consistent comparator |
| `Sorting.BinarySearch` | pintos/src/lib/stdlib.c:184-207 | binary_search on a sorted array finds a key exactly when one is there |
| `Ustar.FormatOctal` | pintos/src/lib/stdio.c:469-547 | The digit loop prints octal with leading zeros to the width |
| `Ustar.ParseOctalField` | pintos/src/lib/ustar.c:129-162 | The loop parses an octal field or rejects it, as specified, with its overflow test |
| `Ustar.OctalRoundTrip` | pintos/src/lib/ustar.c:129-162 | Every number that fits the width is parsed back from what is printed |
| `Ustar.StripPrefixes` | pintos/src/lib/ustar.c:65-73 | The loop strips what the specification strips |
| `Ustar.StripTwice` | pintos/src/lib/ustar.c:65-73 | Stripping is idempotent and leaves no name that starts with a slash or a .. component, and no empty one |
| `Ustar.CalculateChecksum` | pintos/src/lib/ustar.c:36-54 | The loop computes the sum with blanks for the checksum field |
| `Ustar.SumIgnoresField` | pintos/src/lib/ustar.c:36-54 | The checksum does not depend on its own field |
| `Ustar.Make` | pintos/src/lib/ustar.c:82-118 | ustar_make_header fills the buffer with the specified header, or rejects a name that is too long |
| `Ustar.Parse` | pintos/src/lib/ustar.c:181-227 | ustar_parse_header accepts and rejects as specified |
| `Ustar.RoundTrip` | pintos/src/lib/ustar.c:82-227 | Parsing a header that was made succeeds and gives the stripped name, the type and the size, 0 for directories, for every name of at most 99 stripped characters and every nonnegative int size |
| `UstarHeaders.MadeBytes` | pintos/src/lib/ustar.c:82-118 | Every byte of a made header: name, mode 0644 or 0755, owner and group 0, size, time, checksum, type, magic, version and names, and NULs elsewhere |
| `UstarHeaders.ParsesIff` | pintos/src/lib/ustar.c:181-227 | A header is accepted as a member of that name, type and size if and only if its magic, version, checksum, name, type and size fields say so, and a block is the end of the archive if and only if it is all zeros |
| `UstarHeaders.RejectsIff` | pintos/src/lib/ustar.c:181-227 | Every other header is rejected, with the message for the first of eight conditions it fails |
| `UstarHeaders.DamageRejected` | pintos/src/lib/ustar.c:36-54 | A header that was accepted is rejected when any one byte outside the checksum is changed |
| `UstarHeaders.FieldIff` | pintos/src/lib/ustar.c:129-162 | An octal field has a value if and only if it is one or more octal digits of at most 2^32 - 1 in front of a blank or a NUL |

## Left out

- Donation by waiters that a release leaves behind: the code does not register them with the lock's next holder, and the model follows the code.
- What the processor does when push_arguments writes below the stack page, where nothing is mapped.
- Elements of sort and binary_search as raw bytes, swapped byte by byte: they are values here.
- A crash in the middle of a file-system call.
- FileRuns.RunDisjoint: does not state that names are unique, because they need not be when reads of directory entries find no memory; FileNames.RunUniqueIff has the exact condition.
- Condition variables.
- Direct use of thread_block outside semaphores, sleep and idle, and the thread-identifier lock.
- exec, wait and exit of processes, system calls, load and load_segment.
- Device drivers, interrupts other than the timer and sema_up from a handler, booting, context switching.
- calloc; runs with free or realloc of a null pointer; extended partitions.
- Allocator.BlockAllocator.Realloc: is for contained calls, because any other writes past the block it is given; MallocMemory.CopyFitsIff says which calls those are and MallocOverrun.ReallocOverruns has one.
- Sectors that leak: the code does not take them back, and neither does the model; FileLeaks.RunAccountedIff says which calls leak them.
- inode_reopen, open files shared between processes, and structures in memory as such: open inodes and files are tables indexed by sector and by handle.
- list_unique, list_max, list_min and the hash table's clear, apply and hash functions.
- bitmap_flip, bitmap_count, bitmap_dump and the last-word mask.
- The accessed and dirty bits of page-table entries, and activating a page directory.
- printf formats other than the octal ones an archive header needs.
- sdiv64 of -2^63 by -1 is given its two's-complement value; in C it is undefined.
- Fixed-point overflow inside the updates: values are unbounded integers, and Mlfqs.FitsMachineIntegers gives the range in which that is the machine's arithmetic.
