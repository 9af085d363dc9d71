# emlib in Dafny

emlib is a C base library. This project models six of its components in Dafny and proves what they promise:

- **Timer heap** (`TimerHeap.dfy`, on `HeapOrder.dfy`, `Freelist.dfy`, `SortedQueue.dfy`, `TimeValues.dfy`): a binary
  min-heap of entries beside the `timer_ids` array, which is the inverse index of the heap and at the same time a
  linked freelist. The class has the arrays and fields of the source, and ghost fields for the set of scheduled
  entries, the freelist as a sequence, and the ids and lock references kept back while a callback runs. Its abstract
  value is the agenda, which says what is scheduled and for when. A callback is a list of calls that it makes; the
  clock is an argument.
- **Structured exceptions** (`Exceptions.dfy`): a statement language with loops and recursive functions, its ordinary
  exception semantics (`Exec`),
  the expansion of the macros (`Expand`), and a machine with the handler stack, where `setjmp` saves a continuation
  and `longjmp` resumes it (`Step`). The two are proved to agree, as for a compiler.
- **Memory pools and the caching factory** (`PoolBlocks.dfy`, `Pools.dfy`, `PoolCaching.dfy`): blocks with integer
  addresses, pools that hand out ranges, and the size-class cache with its accounting. The backend allocator is an
  argument of each call, the address that it grants or none. The `sizeof` constants are any positive multiples of 4.
- **Event object** (`Events.dfy`): auto-reset and manual-reset events, one step for each critical section, with any
  number of threads, spurious wake-ups, and any choice of the thread that a signal wakes.
- **Intrusive list** (`Lists.dfy`): circular lists of heap nodes, each operation specified by the sequences of nodes
  before and after it.
- **Numbers** (`Numbers.dfy`) and **time values** (`TimeValues.dfy`): saturating parsing, printing with an in-place
  reversal, and the normal form that the time comparison macros need.

`dafny verify dfyconfig.toml` checks the whole project.

Three promises do not hold of the code as they stand, and the model follows the code:

- The header says that a pulse of a manual-reset event releases all waiting threads (`include/em/os.h:1006-1010`). The
  permits of a pulse can be taken by other threads: `Events.PulseCanBeStolen` gives a run, and
  `Events.PulseReleasesAllIff` says exactly when all of them are released. A pulse without waiters also leaves a set
  event set (`Events.IdlePulseHasNoBound`).
- The header says that `em_strtoul3` leaves the value untouched when it returns `EM_EINVAL`
  (`include/em/string.h:707-715`). In builds without assertions (with them, `src/string.c:403` stops the program), it
  stores 0 first for an unsupported base: `Numbers.UnsupportedBaseStoresZero` is an instance, and `Numbers.StrToUl3`
  says for exactly which inputs the value changes.
- `insert_node` decides about growth from the number of entries alone, so an id kept back for a running callback is
  not counted. `TimerHeaps.TimerHeap.RoomIffFree` says exactly when an operation of a callback still finds an id, the
  run theorem carries that condition over whole runs, `TimerHeaps.TimerHeap.RunUntilNoRoom` shows what happens where it
  breaks, and `TimerHeaps.LacksIdSoon` reaches such a point from creation.

## Model

| member | source | states |
|---|---|---|
| HeapOrder.ChildrenOfParent | src/timer.c:42-43 | the slots whose parent is slot p are 2p+1 and 2p+2, and no others |
| HeapOrder.SiftUpStep | src/timer.c:201-213 | exchanging an entry with a later parent keeps the whole heap in order except for that entry, one level further up |
| HeapOrder.SiftDownStep | src/timer.c:173-191 | exchanging an entry with its earlier child keeps the whole heap in order except for that entry, one level further down |
| HeapOrder.ReplaceInHeap | src/timer.c:237-254 | after the last entry took the place of a removed one, the comparison with the parent picks the direction in which the heap can be repaired |
| HeapOrder.AppendToHeap | src/timer.c:294-301 | a new last entry can only be out of order with its parent |
| HeapOrder.RootIsLeast | src/timer.c:626-630 | the entry in slot 0 has the earliest deadline of all |
| Freelist.SplitMeans | src/timer.c:87-103 | the ids 1 to max_size-1 are split without overlap between heap entries, freelist and ids held by callbacks, and their numbers add up |
| Freelist.SplitHold | src/timer.c:630-632 | an id that leaves the heap can be held instead of freed |
| Freelist.SplitRelease | src/timer.c:650-652 | an id that is held can be freed later |
| Freelist.SplitGrow | src/timer.c:287-291 | doubling adds exactly the new ids to the free ones |
| Freelist.ChainGrow | src/timer.c:287-291 | doubling turns the old sentinel into a real free id that carries the chain on to the new sentinel |
| SortedQueue.DrainCount | src/timer.c:626-635 | a poll fires exactly the smaller of its limit and the number of due entries |
| SortedQueue.DrainUnique | src/timer.c:626-635 | the deadlines that a poll fires, and their order, do not depend on the heap: only ties are open |
| TimerHeaps.TimerHeap.constructor | src/timer.c:378-428 | a new heap is empty, valid, and has all its ids free |
| TimerHeaps.TimerHeap.CopyNode | src/timer.c:127-137 | heap slot and id slot are written together, and nothing else |
| TimerHeaps.TimerHeap.PopFreelist | src/timer.c:139-153 | the first id of the freelist is taken off |
| TimerHeaps.TimerHeap.PushFreelist | src/timer.c:155-163 | an id is put in front of the freelist |
| TimerHeaps.TimerHeap.ReheapDown | src/timer.c:166-194 | from a heap in order but for one slot, every entry ends in one slot that its id names, in heap order |
| TimerHeaps.TimerHeap.ReheapUp | src/timer.c:196-218 | the same for sifting up |
| TimerHeaps.TimerHeap.RemoveNode | src/timer.c:221-257 | exactly the entry in the slot leaves the heap, which stays valid, and its id is the first one free |
| TimerHeaps.TimerHeap.GrowHeap | src/timer.c:259-292 | both arrays double, every slot and every id keeps its value, and the new ids continue the freelist |
| TimerHeaps.TimerHeap.InsertNode | src/timer.c:294-301 | the entry is added to the heap, which doubles when it was within two of its size |
| TimerHeaps.TimerHeap.ScheduleEntry | src/timer.c:304-319 | with headroom the entry always gets an id and is added, and the result is never -1 |
| TimerHeaps.TimerHeap.Cancel | src/timer.c:322-359 | exactly the given entry is removed, 1 is returned if and only if it was scheduled, and the mismatch branch is dead |
| TimerHeaps.TimerHeap.ScheduleWGrpLock | src/timer.c:489-526 | the error cases leave all as it was; otherwise the entry is scheduled at now plus the delay in normal form and its lock gets one reference |
| TimerHeaps.TimerHeap.CancelTimer | src/timer.c:571-593 | exactly the entry leaves the heap, and the lock references still balance |
| TimerHeaps.TimerHeap.FireFirst | src/timer.c:630-638 | the earliest entry leaves the heap while its id and its lock reference are kept back |
| TimerHeaps.TimerHeap.EndFire | src/timer.c:647-652 | the reference is dropped and the id is free again |
| TimerHeaps.TimerHeap.Perform | src/timer.c:489-605 | a schedule adds exactly its entry, time and lock to the agenda, unless the entry is on it already or has no callback, and a cancel takes exactly its entry off |
| TimerHeaps.TimerHeap.RoomIffFree | src/timer.c:294-319 | while a callback runs, an operation that needs an id finds one if and only if the entries and 3 more fit the arrays |
| TimerHeaps.TimerHeap.RunCallback | src/timer.c:640-645 | a callback that finds room has the combined effect of its calls on the agenda, never lacks a free id, and never makes the arrays grow |
| TimerHeaps.SomeLacksRoom | src/timer.c:640-645 | a callback that does not find room has a first operation without |
| TimerHeaps.TimerHeap.RunUntilNoRoom | src/timer.c:294-319 | at the first operation without room the freelist is empty and starts past the array |
| TimerHeaps.TimerHeap.NextDelay | src/timer.c:654-661 | the delay is the larger of 0 and the time to the earliest deadline, in normal form |
| TimerHeaps.TimerHeap.Poll | src/timer.c:608-665 | with any callbacks that find room, each entry that fires is due and the earliest on the agenda at that time, the callbacks' effects come in between, at most the limit fire, and fewer only when nothing is due |
| TimerHeaps.EffectDoes | src/timer.c:489-605 | an operation adds or removes exactly its entry, with the deadline in normal form and the lock, and says nothing else about the agenda |
| TimerHeaps.PollTrace | src/timer.c:626-653 | a poll is a trace of agendas: in each step the earliest due entry leaves, and then the operations of its callback are done one after the other; it ends at the limit or when nothing is due |
| TimerHeaps.RearmedFiresToTheLimit | src/timer.c:626-653 | an entry that alone is due, and whose callback schedules it again with zero delay, fires exactly as often as the limit allows, and is scheduled afterwards |
| TimerHeaps.IdlePollDrains | src/timer.c:626-653 | when callbacks schedule and cancel nothing, a poll takes a prefix of the queue sorted by deadline, and leaves the rest |
| TimerHeaps.TimerHeap.ValidMeans | src/timer.c:79-103 | the invariant in terms of the arrays: parents do not expire after children, ids are the inverse of the heap, the id range is split, and the references held on a lock are its scheduled entries plus its callbacks in flight |
| TimerHeaps.TimerHeap.SizeIsCount | src/timer.c:667-672 | cur_size is the number of scheduled entries |
| TimerHeaps.TimerHeap.FreeIffHeadroom | src/timer.c:139-153 | the freelist has an id besides the sentinel if and only if cur_size plus the held ids plus 2 is at most max_size |
| TimerHeaps.TimerHeap.ScheduledIffRunning | src/timer.c:474-477 | an initialised entry is in the heap if and only if its id is at least 1, and otherwise it holds no lock |
| TimerHeaps.TimerHeap.FirstIsEarliest | src/timer.c:674-687 | the first entry of the heap has the earliest deadline |
| TimerHeaps.Run | src/timer.c:378-665 | every run of schedule, cancel and poll from creation whose callbacks find room refines a run on the agenda, call by call, and keeps the invariant, with no id missing at any schedule |
| TimerHeaps.TracedMeans | src/timer.c:378-665 | in such a run, each call outside polls changes the agenda by exactly its entry, and each poll is a trace as above |
| TimerHeaps.OneNetRunsAnywhere | src/timer.c:378-665 | callbacks with at most one net schedule find room in every run of a heap of any size |
| TimerHeaps.OneNetHasRoom | src/timer.c:640-645 | so does one such callback whenever it runs |
| TimerHeaps.SecondNetScheduleLacksId | src/timer.c:294-314 | in every heap filled up to its limit a callback's first net schedule takes the last free id, and the freelist then starts past the array |
| TimerHeaps.LacksIdSoon | src/timer.c:294-428 | that happens in a heap just created for one entry, with one entry scheduled |
| TimeValues.NormalFormExistsAndIsUnique | src/os_time_common.c:98-120 | each number of milliseconds has exactly one normal form |
| TimeValues.TimeCell.Normalize | src/os_time_common.c:98-120 | the total is kept and becomes truncated quotient and remainder, for every input |
| TimeValues.TimeCell.Add | include/em/types.h:404-408 | the normal form of the sum |
| TimeValues.TimeCell.Sub | include/em/types.h:424-428 | the normal form of the difference |
| TimeValues.OrderIsMsecOrder | include/em/types.h:352-394 | on normal values the comparison macros compare the totals |
| TimeValues.OrderNeedsNormalForm | include/em/types.h:352-394 | on other values they may not |
| Exceptions.Simulate | include/em/except.h:313-348 | for every statement that follows the rules, in any activation of any function, and every handler stack: when the ordinary semantics ends, the expanded macros reach its state and outcome and leave the handler stack as it was |
| Exceptions.Diverges | include/em/except.h:313-348 | and when the ordinary semantics uses up any amount of fuel, the machine is still running after at least as many steps, in the state reached |
| Exceptions.ProgramMeaning | include/em/except.h:63-180 | a whole program whose ordinary meaning ends, ends as it says, with no handler left, and an uncaught exception is a crash |
| Exceptions.OnlyEnd | include/em/except.h:63-180 | any end that the machine reaches is the end of the ordinary meaning |
| Exceptions.EndsIff | include/em/except.h:63-180 | the machine ends if and only if the ordinary meaning does |
| Exceptions.CatchMeans | include/em/except.h:319-341 | when the block throws a, EM_CATCH runs its handler if and only if it names a, where 0 counts as 1, EM_CATCH_ANY always does, and otherwise the block's state stands and the exception ends there |
| Exceptions.MachineCatches | include/em/except.h:319-341 | the expanded macros come to the handler, or past it, under exactly these conditions and in that state, with the outer handlers in place |
| Exceptions.ThrowCatchProgram | include/em/except.h:319-341 | a program that throws a and catches b does its handler's action if and only if a, or 1 for 0, equals b |
| Exceptions.EnterTry | include/em/except.h:319-322 | EM_TRY pushes its record, saves the rest of the macros, and enters the block |
| Exceptions.LeaveTry | include/em/except.h:340-341 | EM_END after a normal end restores the handlers before EM_TRY |
| Exceptions.TryThrows | src/except.c:49-63 | a throw in the block lands in the cascade of the innermost EM_TRY with the outer handlers in place |
| Exceptions.Handled | include/em/except.h:328-341 | the handler runs under the outer handlers and EM_END then changes nothing |
| Exceptions.Swallowed | include/em/except.h:328-341 | an exception that EM_CATCH does not match ends there |
| Exceptions.NoReturn | include/em/except.h:157-175 | a block that follows the rules never returns from inside |
| Exceptions.LinksAreStack | src/except.c:83-107 | push and pop on the linked records are push and pop on a sequence |
| Exceptions.PushKeepsStackIff | include/em/except.h:127-155 | pushing keeps the handlers a finite stack if and only if the record is not on it yet |
| Exceptions.ReturnInTryLeavesHandler | include/em/except.h:157-175 | a return from anywhere in a try block, except from a nested one, leaves the dead record on top of the handlers before |
| Exceptions.Thread.PushHandler | src/except.c:83-96 | the record becomes the first of the stack |
| Exceptions.Thread.PopHandler | src/except.c:98-107 | the record comes off if it is the first, and otherwise nothing changes |
| Exceptions.Thread.ThrowException | src/except.c:49-63 | the jump goes to the first record, which comes off the stack |
| PoolBlocks.RoundUp | include/em/pool_i.h:51-53 | the least multiple of 4 that is enough |
| PoolBlocks.AlignPtrIsNext | src/pool.c:41 | the next address that is a multiple of 4 |
| PoolBlocks.FirstFit | src/pool.c:105-110 | the first block of the list that has room |
| PoolBlocks.FitsIff | include/em/pool_i.h:51-54 | a block has room if and only if some multiple of 4 that is at least the request ends inside it |
| PoolBlocks.BumpMoves | include/em/pool_i.h:51-58 | an allocation moves exactly the rounded size from the room to the used size |
| PoolBlocks.GrowSizeIsLeast | src/pool.c:127-138 | the size of a new block is a whole number of increments, the least one above the request with its overhead unless one increment just equals that |
| PoolBlocks.GrowthSuffices | src/pool.c:148-149 | the retry in the new block always succeeds |
| PoolBlocks.GrowAdds | src/pool.c:55-89 | a new block adds its header to the used size and the rest of it to the room |
| PoolBlocks.BumpKeeps | include/em/pool_i.h:54-58 | an allocation is aligned, in one block, and apart from all that was handed out before |
| PoolBlocks.GrowKeeps | src/pool.c:76-84 | so it stays when a block is added |
| PoolBlocks.Conservation | include/em/pool_i.h:34-43 | capacity is used size plus the room left in all blocks |
| Pools.LeasedRemove | src/pool_policy_malloc.c:66-84 | giving back memory takes its size off the sum of what is held |
| Pools.Factory.OnBlockAlloc | src/pool_caching.c:310-324 | used size grows, and the peak is the largest it has been |
| Pools.Factory.OnBlockFree | src/pool_caching.c:327-334 | used size shrinks |
| Pools.Factory.BlockAlloc | src/pool_policy_malloc.c:38-64 | used size is the total of the memory held, also after a refusal, which can only raise the peak |
| Pools.Factory.BlockFree | src/pool_policy_malloc.c:66-84 | memory goes back once, with its own size, so that used size never wraps |
| Pools.Pool.Create | src/pool.c:187-234 | a pool exists if and only if the size has room for the headers and memory was granted, and it is as new |
| Pools.Pool.GetUsedSize | include/em/pool_i.h:34-43 | the sum over the blocks, and capacity minus it is the room left |
| Pools.Pool.AllocFromBlock | include/em/pool_i.h:45-60 | the block refuses if and only if no multiple of 4 that is at least the request ends inside it; otherwise it serves from its current address, and nothing else changes |
| Pools.Pool.CreateBlock | src/pool.c:55-89 | the new block comes first, and capacity and the factory's used size grow alike |
| Pools.Pool.AllocateFind | src/pool.c:97-156 | the first block with room serves the request, else a new block does, and the assertion after it holds |
| Pools.Pool.Alloc | include/em/pool_i.h:62-68 | null if and only if the request ends inside no block and there is no increment, or no memory, for a new one; and in every run since the last reset, what is handed out is aligned, in one block, and disjoint |
| Pools.Pool.AllocatedAt | src/pool.c:105-110 | the first block inside which the rounded request ends serves it, from its current address |
| Pools.Pool.AllocatedNew | src/pool.c:112-156 | when it ends inside none, a new block of whole increments comes first and serves it right behind its header |
| Pools.Pool.ValidMeans | include/em/pool_i.h:45-68 | what is handed out is aligned, lies behind a header in memory that the pool holds, and shares no byte with anything else handed out |
| Pools.Pool.Reset | src/pool.c:241-270 | every added block goes back with its own size, the first stays, and the pool is as new |
| Pools.Pool.Destroy | src/pool.c:287-302 | no memory of the pool stays held |
| PoolCaching.CachingPool.constructor | src/pool_caching.c:56-88 | a new factory is valid and has no pools |
| PoolCaching.CachingPool.FindClass | src/pool_caching.c:148-160 | the search from the middle finds the same class as a search from the start |
| PoolCaching.Class | src/pool_caching.c:143-160 | the least size class that is enough, or none |
| PoolCaching.PoolSizeMeans | src/pool_caching.c:143-171 | up to 65536 a pool is created with the least table size that is enough, and above with the size asked for |
| PoolCaching.CachingPool.CreatePool | src/pool_caching.c:124-206 | from the cache or not, the pool is as just created for its class, and is now in use |
| PoolCaching.CachingPool.HitIff | src/pool_caching.c:148-163 | the cache serves if and only if the list of the least class that is enough has a pool |
| PoolCaching.CachingPool.ReleasePool | src/pool_caching.c:208-273 | exactly this pool is no longer in use; it is destroyed if it is too large for the classes or the cache, and else becomes as new on the list of its class, whose index is always in range |
| PoolCaching.CachingPool.Alloc | include/em/pool_i.h:62-68 | allocation in a pool in use keeps the factory's books balanced |
| PoolCaching.CachingPool.Reset | src/pool.c:275-282 | so does resetting one |
| PoolCaching.CachingPool.Destroy | src/pool_caching.c:90-122 | all memory goes back and used size is 0 |
| PoolCaching.CachingPool.ValidMeans | src/pool_caching.c:124-273 | the invariant in plain terms: pools in use are consistent, cached ones are as new and not in use, used size is the capacity of all, and all memory belongs to one of them |
| PoolCaching.CachedUpdate | src/pool_caching.c:270 | changing one free list changes the cached capacity by its class size for each pool |
| PoolCaching.PlaceFree | src/pool_caching.c:269 | a pool put on a free list is in no other place |
| PoolCaching.TakeFree | src/pool_caching.c:179-180 | a pool taken from a free list is in no other place |
| PoolCaching.CachingPool.CoreAfter | src/pool_caching.c:310-334 | when only one pool in use changes, within its own memory, used size is still the sum of all capacities |
| Events.Event.constructor | src/os_core_unix.c:1737-1760 | the initial state |
| Events.Event.OnOneRelease | src/os_core_unix.c:1762-1783 | one release, with the assertion proved |
| Events.Event.WaitBegin | src/os_core_unix.c:1788-1798 | a thread goes through at once if and only if the event is signalled, and otherwise counts as waiting |
| Events.Event.WaitResume | src/os_core_unix.c:1792-1796 | a woken thread goes through if and only if the event is signalled, and otherwise waits on |
| Events.Event.TryWait | src/os_core_unix.c:1803-1815 | success if and only if the event is signalled |
| Events.Event.Set | src/os_core_unix.c:1820-1831 | the state after a set and whom it wakes |
| Events.Event.Pulse | src/os_core_unix.c:1836-1850 | the state after a pulse and whom it wakes |
| Events.Event.Reset | src/os_core_unix.c:1855-1862 | the state after a reset |
| Events.StepKeeps | src/os_core_unix.c:1762-1862 | every step keeps the invariant: the waiting count is right, a pending pulse has at least as many waiters as permits, and no wake-up is lost |
| Events.RunKeeps | src/os_core_unix.c:1762-1862 | in every state of every run, a signalled manual-reset event has nobody asleep, and a signalled event with waiters has one that is awake and will go through |
| Events.ReachableKeeps | src/os_core_unix.c:1737-1862 | that holds from creation |
| Events.AutoConservation | src/os_core_unix.c:1762-1862 | over any run, an auto-reset event lets through exactly one thread for each signal that is neither lost nor still there |
| Events.AutoFromCreation | src/os_core_unix.c:1737-1862 | from creation on, an initial state that is set counts as one signal |
| Events.SignalWakes | src/os_core_unix.c:1820-1850 | a set, or a pulse with waiters, wakes all sleepers of a manual-reset event and exactly one of an auto-reset event |
| Events.SetOpens | src/os_core_unix.c:1762-1862 | after a set of a manual-reset event, and until a reset or a pulse with waiters, every thread that comes, returns from its wait or tries goes through, and nobody sleeps |
| Events.CreatedOpen | src/os_core_unix.c:1737-1815 | the same from creation in the set state |
| Events.ResetCloses | src/os_core_unix.c:1762-1862 | after a reset of either kind of event, and until the next signal, nobody goes through, and the waiters are those before and all who came |
| Events.CreatedClosed | src/os_core_unix.c:1737-1815 | the same from creation in the reset state |
| Events.PulseConservation | src/os_core_unix.c:1762-1850 | after a pulse and until the next signal, a manual-reset event lets through exactly the permits that are neither left nor revoked |
| Events.PulseBalance | src/os_core_unix.c:1762-1850 | as many waiters of a pulse stay behind as permits are left, revoked or used by others |
| Events.PulseReleasesAllIff | src/os_core_unix.c:1836-1850 | all threads that were waiting at a pulse go through if and only if the next critical sections, as many as there were waiters, are all returns of woken waiters |
| Events.PulseBoundIff | src/os_core_unix.c:1836-1850 | the threads let through after a pulse and before the next signal are bounded if and only if the event was not set or somebody waited, and then by the number of waiters |
| Events.PulseCanBeStolen | src/os_core_unix.c:1803-1850 | a run in which a trywait takes the permit and the waiting thread stays |
| Events.IdlePulseHasNoBound | src/os_core_unix.c:1836-1850 | a pulse without waiters leaves a set event set, which then lets any number through |
| Lists.RingMeans | include/em/list.h:74-82 | a ring is a sequence of distinct nodes in which next leads from each to the one after it, from the last to the first, and prev back |
| Lists.RingIsUnique | include/em/list.h:74-82 | a list head stands for one sequence of nodes |
| Lists.RingRotates | include/em/list.h:74-82 | any node of a circular list can be its head |
| Lists.Empty | include/em/list.h:107-110 | true if and only if the head is the only node |
| Lists.LinkNode | include/em/list_i.h:28-32 | the two nodes are linked to each other |
| Lists.InsertAfter | include/em/list_i.h:45-51 | the node comes right after the position |
| Lists.InsertBefore | include/em/list_i.h:54-57 | the node comes right before the position, which for a head is the end of the list |
| Lists.InsertNodesAfter | include/em/list_i.h:60-67 | the whole chain comes right after the position |
| Lists.InsertNodesBefore | include/em/list_i.h:69-72 | the whole chain comes right before the position |
| Lists.MergeLast | include/em/list_i.h:74-81 | the first list followed by the second, which becomes empty |
| Lists.MergeFirst | include/em/list_i.h:83-90 | the second list followed by the first, and the second becomes empty |
| Lists.Erase | include/em/list_i.h:92-101 | exactly the node leaves the list and is a list of its own, so that erasing it again changes nothing |
| Lists.FindNode | include/em/list_i.h:104-111 | the node if it is in the list, which may be the head itself, and else null |
| Lists.Search | include/em/list_i.h:114-122 | the first match behind the head, or null if there is none, for a comparison that may read the nodes |
| Lists.Size | include/em/list_i.h:125-136 | the number of nodes behind the head |
| Numbers.NumberAppend | src/string.c:378-383 | one digit more multiplies the positional value by the base and adds the digit |
| Numbers.TrimmedMeans | src/string.c:187-196 | what is cut off is all spaces (codes 9 to 13 and 32), and what is left does not start with one |
| Numbers.CharactersMean | src/string.c:359-381 | the digits of base 16 are those of two tables, in lower and upper case, and those of a base up to 10 are a prefix of them |
| Numbers.DigitValues | include/em/ctype.h:162-170 | each digit is worth its place in the table |
| Numbers.StrLTrim | src/string.c:187-196 | the string from its first character that is not a space |
| Numbers.AddDigit | src/string.c:373-383 | the next value exactly, or the maximum if and only if that is larger |
| Numbers.StrToUl3 | src/string.c:344-407 | the positional value of the longest digit prefix if it is at most EM_MAXULONG, and else EM_MAXULONG with EM_ETOOBIG; and the error cases |
| Numbers.UnsupportedBaseStoresZero | src/string.c:366-405 | the value 7 becomes 0 for the string 5 and base 12 |
| Numbers.StrToL2 | src/string.c:244-290 | the signed value clamped to the range of long, with the matching status; and the error cases |
| Numbers.SignsAreRead | src/string.c:265-289 | in front of any decimal digits, a minus gives the negative number and a plus, or nothing, the number, clamped |
| Numbers.Clamp | src/string.c:272-287 | a value in the range of long, and the end of the range next to the value when that is outside |
| Numbers.StrToUl | src/string.c:292-306 | the positional value of the longest digit prefix, modulo the range of unsigned long |
| Numbers.ReverseInPlace | src/string.c:473-479 | the text is reversed and the rest of the buffer is kept |
| Numbers.UtoaPad | src/string.c:452-482 | the buffer holds the padding, the decimal digits and a NUL, the rest is kept, and the length is returned |
| Numbers.PrintedMeans | src/string.c:466-471 | the text is as long as the larger of minDig and the number of digits, ends with the digits, and has only padding before them |
| Numbers.DigitsMean | src/string.c:460-464 | the digits stand for the number and have no leading zero |
| Numbers.ReadBackIff | src/string.c:292-306 | what is read back is the number printed if and only if there is no padding, or it is with zeros, or it hides a zero |
| Numbers.RoundTrip | src/string.c:292-482 | print then parse gives the number back, for em_strtoul in its range and for em_strtoul3 |
| Numbers.SpacesAreTrimmed | src/string.c:344-357 | em_strtoul3 also reads what is padded with spaces |

## Left out

- TimerHeaps.TimerHeap.ScheduleWGrpLock: requires a free id for the entry if it needs one; null arguments are not modelled.
- TimerHeaps.TimerHeap.Poll: callbacks that find no room, nested polls and concurrent polls, where the source can run out of ids; callbacks see the heap only through schedule and cancel.
- TimerHeaps.TimerHeap.GrowHeap: `grow_heap` does not test for a failing pool (`src/timer.c:270-282`), and the model takes memory as given; the failure returns of creation are left out with it.
- TimerHeaps.GroupLock: only the reference counter of a group lock, since its mutual exclusion (`src/lock.c`) is not part of this model.
- TimeValues.TimeCell.Normalize: `long` is unbounded here, so overflow at its ends is not modelled.
- Exceptions.Simulate: what the C standard leaves undefined is not modelled (local variables changed after `setjmp`, a jump into a function that has returned); the program's own variables are global, and only the records and codes of the macros belong to activations; thread-local storage is one pointer.
- Pools.Pool.Alloc: `size_t` does not wrap; the callback on failure and its throw are a null result; the list of blocks and the lists of pools are sequences, for which `Lists.dfy` shows that linked nodes can stand.
- PoolCaching.CachingPool.Destroy: the two counters `capacity` and `used_count` keep their values, as in the source; locking is left out.
- PoolCaching.CachingPool.ReleasePool: requires a pool in use, since the test for it is compiled out (`src/pool_caching.c:220-226`).
- Numbers.StrToUl3: null pointers are not modelled; plain `char` is taken as signed, which matters only for an unsupported base.
- Numbers.StrToUl: the loop counter is unbounded.
- Lists.Search: the comparison function does not change the list.
- Exception ids and their names, `em_pool_calloc`, pools on a caller's buffer, pool names, logging and stack checks.
- `src/cbuf.c`, `em_strspn` and `em_strtok`, the errno registry, `src/utils.c`, sockets, float parsing, random strings, mutex and semaphore wrappers, and timer tasks: easier than the rest or outside these components.
