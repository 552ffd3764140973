# Trona, modelled in Dafny

Trona is the userspace runtime of a capability operating system. This project models its hard core and
proves what that core is for:

* **Futex synchronisation.** The three-state mutex, the typed mutexes with the condition variable, the
  reader-writer lock and the barrier are transition systems. One event is one atomic operation or one
  kernel action (a wake, a spurious wake, a timeout). Any finite set of threads runs with any
  interleaving; atomics are sequentially consistent. Besides the invariants over all runs there is what
  every call answers and that it does: `TypedCalls` for the typed mutexes, the last sections of `Mutex`,
  `RwLock` and `Barrier` for the others.
* **Capability slots.** The segmented bitmap allocator is a class that refines a plain set of slots in
  use, over every sequence of single and contiguous allocation, free and run-time expansion. `SlotCallers`
  lets any number of threads call it, one locked section of one of them at a time. Its most demanding
  client, the worker pool, is modelled twice: `Worker` follows one spawn, rollback or reap through the
  allocator, the capability space and the address space; `WorkerPool` is a transition system of many
  threads doing so at once.
* **Image loading and linking.** The ELF and PE loaders fill pages step by step and refine "the bytes of
  the segments, zeros elsewhere, then the relocations"; where that puts each byte, right and relocated
  word is said in terms of the program and section headers' own fields (`ElfLoader.LoadImage`,
  `PePlacement`). The GNU hash index with its Bloom filter agrees with the linear scan.
* **Static TLS.** From the linker's layout over the runtime's initialisation to the address of a variable,
  on x86_64 and aarch64.
* **Readers and planners.** The CPIO reader for every byte string and its round trip, the address-space and
  CSpace planners, and case folding over any table.

Each module is one `.dfy` file (`SlotAlloc.dfy` also holds `SlotHistory`; `Common`, `Bytes`, `Sets` and
`Word` are shared). `dafny verify dfyconfig.toml`
checks them all. Kernel calls, clocks, random draws and the kernel's answers are parameters: an oracle that
says which call fails, a sequence of replies, a draw. Integers are unbounded; where a width matters (the
32-bit counters, sequence and phase words, 64-bit addresses that wrap) the wrap is written out.

## Where a promise is not kept, and exactly when it is

* A blocking allocation can be refused although slots are free: another caller completes the last expansion,
  or frees a slot, between its scan and its refusal (`SlotCallers.LateCaller`, `SlotCallers.LateFree`). With
  any number of callers, a refusal means that the last scan found nothing and that no expansion is possible
  now; there is nothing now exactly if nothing freed or added since the scan would do
  (`SlotCallers.Callers.DriveSection`). A call that is alone is refused only with nothing to give
  (`SlotAlloc.SlotAllocator.Alloc`, `SlotAlloc.SlotAllocator.AllocRun`).
* If the loader's scratch mapping fails while a segment is merged into a page that is already there, the
  segment's bytes are skipped and loading still succeeds. Every successful load has all bytes of the image,
  whatever the kernel answers, exactly if each copy into a page of an earlier segment writes only what is
  there already, except where a relocation stores its word; in a well-formed image that means zeros
  (`ElfLoader.Loader.Load` and `ElfImage.RedundantIff` one way, `ElfLoader.FaultyLoad` and
  `ElfLoader.MissedCopyShows` the other). The PE loader does the same, and its relocations hide nothing
  (`PeLoader.Load`, `PeLoader.FaultyLoad`, `PeLoader.MissedSectionShows`).
* A recursive mutex's counter equals its owner's nesting depth exactly for fewer than 2^32 locks
  (`TypedMutex.CounterEqualsDepthIff`), and every step but the one that overflows keeps all invariants
  (`TypedMutex.InvStepIff`). An overflow costs the overflowing thread its count and nothing else: owner and
  lock still agree, for everybody (`TypedMutex.OwnerIsHolder`), and depth, counter and waits of all other
  threads stay exact (`TypedMutex.OwnershipIsExact`, `TypedMutex.WaitRoundTrip`). With the counter wrapped
  to zero a wait releases the lock and returns without it (`TypedCalls.WaitAfterOverflow`). A thread sleeps
  through broadcasts made after its snapshot exactly when their number is a multiple of 2^32
  (`TypedMutex.SleepsThroughIff`).
* Reader-writer exclusion needs no bound on the number of threads; reading the writer from bit 31 does
  (`RwLock.WriterBitIff`), and 2^31 readers do reach the bit (`RwLock.CrowdReachable`).
* A failed spawn gives back exactly what it took if the slots that the descriptor still names from an
  earlier rollback are free; otherwise it also frees those (`Worker.Descriptor.Spawn`,
  `WorkerPool.StaleRecordFreesForeignSlot`).
* The pages of consecutive workers are apart exactly if stack and TLS have at most 63 pages together, and
  the guard page between them is left alone exactly if they have at most 62; nobody checks either
  (`Worker.Descriptor.PlaceTwo`).
* The expansion protocol fails for good only with more than eight startup segments, and then does fail when
  every request is granted (`SlotAlloc.SlotAllocator.ProtocolSafety`, `SlotAlloc.LargePoolFails`). A startup
  pool must keep out of the expansions' slots, which nobody checks (`SlotAlloc.ClearIff`).
* A RELATIVE relocation stores load base plus addend, which is the ABI's B + A exactly when the image's
  lowest address is 0 (`ElfImage.RelativeIsBPlusA`).
* Eager and lazy PLT binding agree exactly when the symbol resolves or is not weak
  (`GnuHash.BindBothWays`).
* The linker exports up to 16 TLS modules but the runtime reads 8: TP-relative and module-relative addresses
  agree exactly for the first eight modules and, on x86_64, for the last one
  (`StaticTls.AddressesAgree`). Besides, the linker copies all 16 rows into the runtime's array of 8
  (rtld/elf/rtld_main.c:225, substrate/lib.rs:206); the model's table is as long as its rows. The main
  thread's block is aligned for every module exactly if none asks for more than 64 bytes
  (`StaticTls.MainThreadAligned`).

## Where the code and its comments differ

The code is followed.

* `slot_alloc_init` is documented to treat a zero base or a zero count as "not provided". It initialises
  the allocator unless both are zero or the count does not fit into sixteen segments.
* `VmLayoutPlan` is documented to signal failure with `stack_top == 0`. No plan does; large images get their
  stack above the code.
* `register_new_segment` documents a way to add segments that nothing calls.

## Model

| member | source | states |
|---|---|---|
| `Mutex.InvStep` | substrate/sync.rs:182-254 | every atomic step, wake, spurious wake and timeout keeps mutual exclusion and the no-lost-wakeup invariant |
| `Mutex.Safety` | substrate/sync.rs:162-254 | after every run of any number of threads the word is nonzero iff exactly one thread holds the lock, and whoever sleeps has a word of 2, a wake still to come or an awake thread about to swap in 2 |
| `Mutex.Acquire` | substrate/sync.rs:182-240 | on a free lock an awake thread inside a locking call gets the lock by its own steps |
| `Mutex.Drain` | substrate/sync.rs:182-254 | from every state the invariant allows, all threads inside a call can return without spurious wakes or timeouts |
| `Mutex.NobodyIsStranded` | substrate/sync.rs:182-254 | whatever happened so far, including timeouts of woken threads, every pending call can still return |
| `Mutex.AnswerIff` | substrate/sync.rs:182-246 | in every state a locking call of any form ends with an operation of its own, with the lock iff that found the word 0; it leaves 1 on the fast path and 2 after it; the blocking form ends with the lock only, and a failed try leaves the word alone |
| `Mutex.NeverGivesUp` | substrate/sync.rs:182-240 | in every run a lock, and a lock_timeout whose deadline has not passed, does not come back without the lock |
| `Mutex.CallsAnswer` | substrate/sync.rs:212-246 | a try_lock, or a lock_timeout past its deadline, is over after at most four operations of its own: with the lock iff the word was 0, and no other thread touched |
| `Mutex.NeverLonger` | substrate/sync.rs:212-246 | no run of such a call by itself takes longer |
| `Mutex.TryLockAnswers` | substrate/sync.rs:243-246 | a whole try_lock takes the lock iff it is free and else leaves no trace |
| `Mutex.LockTimeoutAnswers` | substrate/sync.rs:212-240 | a whole lock_timeout past its deadline: one operation on a free lock, four on a taken one |
| `Mutex.LockAnswers` | substrate/sync.rs:182-206 | a whole lock that nobody disturbs: one operation on a free lock; on a taken one it spins, marks the word 2 and sleeps after 43 operations |
| `Mutex.UnlockAnswers` | substrate/sync.rs:248-254 | a holder's next operation frees the word, and leaves a wake to do iff a waiter is marked |
| `Mutex.WakeWakesOne` | substrate/sync.rs:248-254 | a wake that is due ends one sleep if anybody sleeps, and touches nobody else |
| `TypedMutex.InvStep` | substrate/sync.rs:315-561 | every atomic step of lock, unlock, wait, signal and broadcast keeps the invariant that ties owner, count, futex word and nesting depth together, except for the count of a thread that overflows the counter in that step |
| `TypedMutex.OverflowBreaks` | substrate/sync.rs:315-347 | whoever overflows the counter for the first time, among any number of threads, then owns the mutex 2^32 times with a counter of zero |
| `TypedMutex.InvStepIff` | substrate/sync.rs:315-561 | a step keeps the counts of a set of threads exact iff it overflows the counter for none of them |
| `TypedMutex.InvRun` | substrate/sync.rs:315-679 | the same over every run: all threads but those that overflowed stay exact |
| `TypedMutex.OwnerIsHolder` | substrate/sync.rs:315-460 | after every run, overflows included, a recorded owner holds the lock, and between calls a thread holds it iff it is the recorded owner |
| `TypedMutex.OwnershipIsExact` | substrate/sync.rs:315-460 | after every run, between calls of a thread, lock and owner agree with the caller's depth and the recursive count equals it, unless the mutex is recursive and this thread has overflowed the counter |
| `TypedCalls.LocksMinusUnlocks` | substrate/sync.rs:315-460 | in every run, for a thread that has not overflowed the counter: the locks that returned with the lock, less the unlocks made with it, are the depth at which it owns the mutex; counted from the calls alone |
| `TypedCalls.NoCounter` | substrate/sync.rs:315-460 | no run of a normal or error-checking mutex overflows a counter, so that the above holds of all their threads |
| `TypedCalls.Finish` | substrate/sync.rs:315-460 | a call that is not kept from the lock by somebody else completes by its own operations, without touching anybody else's hold |
| `TypedCalls.UnlockAlone` | substrate/sync.rs:392-425 | an owner at depth d that unlocks ends at depth d - 1, at depth 1 with neither the lock nor its name on it, deeper still owning it with a counter of d - 1 |
| `TypedCalls.LockAlone` | substrate/sync.rs:315-390 | a lock of any form on a free word, or by the owner of a recursive mutex, ends one deeper, owning the mutex, with the counter saying so |
| `TypedCalls.LockRefused` | substrate/sync.rs:350-390 | a try_lock, or a lock_timeout past its deadline, while another thread has the lock ends without it |
| `TypedCalls.ForeignUnlock` | substrate/sync.rs:392-425 | an unlock by a thread that is not the owner leaves no trace |
| `TypedCalls.ForeignWait` | substrate/sync.rs:632-647 | nor does a wait by one |
| `TypedCalls.RelockRefused` | substrate/sync.rs:315-347 | nor does a second lock of an error-checking mutex by its owner |
| `TypedCalls.WaitAlone` | substrate/sync.rs:525-551 | an owner at any depth that waits gives the lock up by its own operations and is about to sleep on the sequence value it saw, with its depth saved |
| `TypedCalls.WaitAfterOverflow` | substrate/sync.rs:525-551 | an owner whose counter has wrapped to zero gives the lock up when it waits, does not sleep, and comes back without it |
| `TypedCalls.ReturnAlone` | substrate/sync.rs:554-561 | a woken waiter that finds the lock free comes back owning it at the depth it had, with that counter |
| `TypedCalls.SignalWakes` | substrate/sync.rs:670-679 | a signal ends one sleep if anybody sleeps and touches nobody else, a broadcast ends all |
| `TypedCalls.SleepEnds` | substrate/sync.rs:632-679 | a sleep may also end on its own; the waiter then goes on to take the lock |
| `TypedCalls.WaitOrGo` | substrate/sync.rs:632-647 | a wait sleeps iff the sequence word has not changed since its snapshot, modulo 2^32 |
| `TypedCalls.ReleasedAtZero` | substrate/sync.rs:392-425 | in every run, overflows included, a recursive mutex is released with its counter at zero |
| `TypedMutex.WaitReleases` | substrate/sync.rs:525-551 | between release and reacquisition a waiter neither holds the lock nor is its owner, at whatever depth it waits |
| `TypedMutex.WaitRoundTrip` | substrate/sync.rs:632-647 | a wait that a thread starts at depth d, not having overflowed before, ends owning the lock at depth d, whatever other threads do meanwhile, overflows included |
| `TypedMutex.BroadcastReaches` | substrate/sync.rs:676-679 | once a broadcast has issued its wake, in every run a thread with an older snapshot sleeps only if at least 2^32 signals passed between snapshot and sleep |
| `TypedMutex.CounterEqualsDepthIff` | substrate/sync.rs:315-347 | n nested locks are reachable for every n, and the counter equals the depth iff n < 2^32 |
| `TypedMutex.SleepsThroughIff` | substrate/sync.rs:632-679 | a reachable waiter with a snapshot n broadcasts old falls asleep iff n is a multiple of 2^32 |
| `RwLock.ExecCounts` | substrate/sync.rs:719-886 | each operation changes the word by exactly what its thread becomes or stops being |
| `RwLock.ExecWaiting` | substrate/sync.rs:747-886 | each operation keeps the waiting-writer word equal to the number of threads in a write slow path, modulo 2^32 |
| `RwLock.InvStep` | substrate/sync.rs:719-886 | every step of the blocking, trying and timed forms keeps both counts |
| `RwLock.Exclusion` | substrate/sync.rs:719-886 | after every run the word is readers plus 2^31 for a writer, there is at most one writer, and never both |
| `RwLock.WaitingWriters` | substrate/sync.rs:747-886 | with fewer than 2^32 threads the waiting-writer word is the number of threads inside a write slow path, timeouts included |
| `RwLock.WriterBitIff` | substrate/sync.rs:698-735 | bit 31 tells whether a writer holds the lock iff fewer than 2^31 threads read |
| `RwLock.CrowdReachable` | substrate/sync.rs:715-734 | every set of at most 2^31 readers is reached from the fresh lock |
| `RwLock.BitWithoutWriter` | substrate/sync.rs:715-734 | 2^31 readers reach a state in which the bit is set and nobody writes |
| `RwLock.WritersGoFirst` | substrate/sync.rs:715-734 | as long as writers wait, a thread that comes to read with the blocking form does not get the lock |
| `RwLock.TryDoesNotYield` | substrate/sync.rs:780-793 | the trying form does enter beside a waiting writer |
| `RwLock.Answered` | substrate/sync.rs:719-886 | from any point of a call, if nobody interferes: with the lock free the caller gets it, past its deadline with the lock taken, or found past before the wait, it comes back without it, each after at most seven operations of its own |
| `RwLock.WriteAnswers` | substrate/sync.rs:747-802 | whatever happened so far: a writing call gets the lock while nobody has it; while somebody has it, the trying form and the timed one past its deadline come back with the word unchanged |
| `RwLock.ReadAnswers` | substrate/sync.rs:719-846 | the same for a reading call, which yields to waiting writers unless it is the trying form |
| `RwLock.UnlockAnswers` | substrate/sync.rs:737-776 | whatever happened so far, a reader's next operation takes it off the count and a writer's frees the word |
| `RwLock.NeverGivesUp` | substrate/sync.rs:719-886 | in every run a blocking call, and a timed one before its deadline, does not come back without the lock |
| `RwLock.FastPathOnce` | substrate/sync.rs:804-860 | a timed call goes through its fast path once, before it takes the time |
| `Barrier.InvStep` | substrate/sync.rs:917-937 | every step of wait keeps the counting, closing and no-lost-wakeup invariants |
| `Barrier.NobodyLeavesEarly` | substrate/sync.rs:917-937 | no call returns from round k before every thread has arrived in round k |
| `Barrier.OneLeaderPerRound` | substrate/sync.rs:915-937 | of the calls of a finished round exactly one returned true |
| `Barrier.SleepersAreAwaited` | substrate/sync.rs:928-935 | a thread asleep on the phase of a finished round has its leader's wake still to come, although the phase word wraps |
| `Barrier.SomebodyIsAwake` | substrate/sync.rs:917-937 | never are all threads asleep |
| `Barrier.LeavesAlone` | substrate/sync.rs:928-936 | once its round is over, a thread that is awake leaves it by at most two steps of its own and is told false |
| `Barrier.LeaderLeaves` | substrate/sync.rs:922-926 | the leader's wake tells it true and leaves nobody asleep |
| `Barrier.ArrivesAlone` | substrate/sync.rs:917-921 | a thread that has not arrived does so by at most three steps of its own |
| `Barrier.RoundCompletes` | substrate/sync.rs:917-937 | after every run the round being collected can be completed without any spurious wake: there is a way on that returns every thread's call in it |
| `Segment.MarkUsed` | substrate/slot_alloc.rs:520-525 | adds exactly one index to the set of used ones and keeps the usage count equal to its size |
| `Segment.MarkFree` | substrate/slot_alloc.rs:527-532 | removes exactly one index and keeps the usage count equal to the set's size |
| `Segment.FindFree` | substrate/slot_alloc.rs:540-554 | finds the first free index of a range, or proves that all are used |
| `Segment.AllocSingle` | substrate/slot_alloc.rs:534-555 | takes the first free index from the hint on, wrapping round; fails iff every slot is used |
| `Segment.FindRun` | substrate/slot_alloc.rs:565-587 | the one-pass counter finds the first free run of n, and none iff there is none |
| `Segment.AllocContiguous` | substrate/slot_alloc.rs:557-587 | takes the first free run of n; fails iff n is 0 or there is no free run of n |
| `Segment.Free` | substrate/slot_alloc.rs:589-598 | frees a used index; refused iff it is not used |
| `SlotPool.FullIff` | substrate/slot_alloc.rs:600-612 | the pool is full iff each of its segments is |
| `SlotPool.RemainingIs` | substrate/slot_alloc.rs:260-274 | the sum of what segments have left is universe minus slots in use |
| `SlotPool.PoolTake` | substrate/slot_alloc.rs:534-587 | a run taken in one segment was free in the whole pool and is in use afterwards, nothing else changes |
| `SlotPool.PoolFree` | substrate/slot_alloc.rs:481-501 | a slot freed in one segment is freed in the whole pool, nothing else changes |
| `SlotPool.NoWindowIff` | substrate/slot_alloc.rs:390-405 | no segment has n free slots in a row iff no segment has a free run |
| `SlotHistory.NeverTwice` | substrate/slot_alloc.rs:481-612 | between two times a slot is handed out it is taken back |
| `SlotHistory.AppendRun` | substrate/slot_alloc.rs:557-587 | handing out a run of free slots one after the other keeps the history fair |
| `SlotAlloc.ExpandPool` | substrate/slot_alloc.rs:641-661 | the next expansion overlaps neither the startup pool nor an earlier expansion, and brings only free slots |
| `SlotAlloc.ClearIff` | uapi/consts/server.rs:60-62 | all eight expansions are disjoint from the startup pool iff the pool keeps out of their address range |
| `SlotAlloc.SlotAllocator.Chunk` | substrate/slot_alloc.rs:197-222 | splits the startup range into disjoint segments that cover it, all of it iff it fits into sixteen |
| `SlotAlloc.SlotAllocator.constructor` | substrate/slot_alloc.rs:176-228 | for every range: when the allocator is initialised, that it then manages exactly the range with nothing in use, and that it is sound iff the range keeps out of the expansions' slots or there will be none |
| `SlotAlloc.FindSingle` | substrate/slot_alloc.rs:600-612 | going round from the active segment, takes a slot from the first segment that has one |
| `SlotAlloc.FindContiguous` | substrate/slot_alloc.rs:397-403 | the same for n slots in a row |
| `SlotAlloc.SlotAllocator.AllocFast` | substrate/slot_alloc.rs:449-457 | hands out a slot that was free; fails iff every slot is taken; which segment and slot, and the new hint |
| `SlotAlloc.SlotAllocator.AllocRunFast` | substrate/slot_alloc.rs:390-405 | hands out n slots in a row that were free; fails iff n is 0 or no segment has room; which segment and run, and the new hint |
| `SlotAlloc.SlotAllocator.Free` | substrate/slot_alloc.rs:481-501 | takes back exactly the slot and moves the active segment back to its owner if that is earlier; refused iff it is not in use |
| `SlotAlloc.SlotAllocator.FreeRange` | substrate/slot_alloc.rs:466-479 | takes back exactly those slots of the range that are in use |
| `SlotAlloc.SlotAllocator.Remaining` | substrate/slot_alloc.rs:260-274 | the number of slots that are not in use |
| `SlotAlloc.SlotAllocator.EnsureRootBits` | substrate/slot_alloc.rs:682-694 | learns the root CNode's size once |
| `SlotAlloc.SlotAllocator.Poll` | substrate/slot_alloc.rs:618-679 | a successful probe adds a disjoint segment of 1024 free slots, returns to Idle and learns the depth; fails for good iff the segment table is full |
| `SlotAlloc.SlotAllocator.AllocAsync` | substrate/slot_alloc.rs:315-357 | which of slot, would-block and exhausted is answered, for every state and kernel reply, in terms of free slots, the request and the probe, and what changes; Requested always means fewer than eight expansions |
| `SlotAlloc.SlotAllocator.DriveStep` | substrate/slot_alloc.rs:696-722 | one locked round of waiting: it completes iff a request was pending, the probe succeeds, an expansion is allowed and the table has room; otherwise no segment and no slot changes; it is refused only if no expansion is allowed |
| `SlotAlloc.SlotAllocator.Drive` | substrate/slot_alloc.rs:696-732 | for a caller that is alone: the wait completes iff an expansion is allowed, the table has room and a probe after the request succeeds; otherwise the request is made if there was any answer, or none is allowed |
| `SlotAlloc.SlotAllocator.Alloc` | substrate/slot_alloc.rs:411-430 | for a caller that is alone: a slot is returned iff one was free or the answers are enough for an expansion, which is then the only one; if none is, the expansion has been asked for whenever it may be |
| `SlotAlloc.SlotAllocator.AllocRun` | substrate/slot_alloc.rs:367-385 | for a caller that is alone: n slots in a row are returned iff a segment had room for them, or n is at most 1024 and the answers are enough for an expansion; the loop bound is never reached |
| `SlotAlloc.SlotAllocator.DepthExact` | substrate/slot_alloc.rs:290-301 | once a depth is known the slots of expansions are invoked with it, and a startup slot is not iff it lies below the expansions |
| `SlotAlloc.SlotAllocator.WhereSlotsAre` | substrate/slot_alloc.rs:618-661 | after every run each slot belongs to the startup pool or to a completed expansion |
| `SlotAlloc.SlotAllocator.ProtocolSafety` | substrate/slot_alloc.rs:315-357 | Requested means fewer than eight expansions, Failed means more than eight startup segments, the segments are the startup pool and the expansions |
| `SlotAlloc.SlotAllocator.SegmentsApart` | substrate/slot_alloc.rs:641-661 | any two segments are disjoint |
| `SlotAlloc.LargePoolFails` | substrate/slot_alloc.rs:645-648 | with more than eight startup segments the protocol does fail when every request is granted |
| `SlotAlloc.SlotAllocator.NeverTwice` | substrate/slot_alloc.rs:411-501 | over the allocator's whole history no live slot is handed out twice |
| `SlotCallers.KeptUnlessFreed` | substrate/slot_alloc.rs:411-501 | a slot in use at some point of the history is in use at its end or was freed since |
| `SlotCallers.LacksSingleIff` | substrate/slot_alloc.rs:411-430 | after a scan that found every slot taken, every slot is taken again iff each slot freed or added since is in use |
| `SlotCallers.OldWindow` | substrate/slot_alloc.rs:390-405 | a run of free slots none of which was freed or added since the scan was free at the scan |
| `SlotCallers.LacksRowIff` | substrate/slot_alloc.rs:367-385 | after a scan that found no room for n slots, there is no room now iff no free run has a slot that was freed or added since |
| `SlotCallers.NothingOpened` | substrate/slot_alloc.rs:459-501 | if nobody frees and no segment is added, nothing is opened, so that scan and refusal describe one moment |
| `SlotCallers.Callers.ScanSection` | substrate/slot_alloc.rs:415-423 | the locked scan of one of many callers: what it gets was free and is then in use; it gets nothing iff there is nothing at that moment |
| `SlotCallers.Callers.NextRound` | substrate/slot_alloc.rs:415-429 | each round of a call but the first is an expansion which that call completed, of eight in all, so that the bound of 18 rounds is never reached |
| `SlotCallers.Callers.DriveSection` | substrate/slot_alloc.rs:696-732 | one round of the wait of one of many callers: when it completes, and what a refusal means: nothing at the last scan, no expansion possible now, and nothing now iff nothing that would do was freed or added in between |
| `SlotCallers.Callers.FreeSection` | substrate/slot_alloc.rs:459-479 | a free between two sections of other callers' calls keeps what is known of them |
| `SlotCallers.Callers.AsyncSection` | substrate/slot_alloc.rs:308-313 | so does an allocation that never waits |
| `SlotCallers.Callers.NoExpandSection` | substrate/slot_alloc.rs:435-443 | so does an allocation from the segments there are |
| `SlotCallers.Callers.Run` | substrate/slot_alloc.rs:308-501 | after any interleaving of any callers' sections: segments disjoint, at most eight expansions, Requested and Failed as above, no live slot handed out twice, and no call ended by its loop bound |
| `SlotCallers.RunFromStart` | substrate/slot_alloc.rs:176-501 | the same from the startup pool on |
| `SlotCallers.LateCaller` | substrate/slot_alloc.rs:411-430 | a run in which two callers find every slot taken, one completes the last expansion, and the other is refused with its 1024 slots free |
| `SlotCallers.LateFree` | substrate/slot_alloc.rs:411-430 | a run in which a caller is refused with the slot free that was freed after its scan |
| `CspaceLayout.Compute` | substrate/layout.rs:56-137 | the allocator's range holds no reserved slot and ends exactly at the first one; when there is a receive range and an expansion window, and where |
| `CspaceLayout.NeverReserved` | substrate/layout.rs:74-116 | whatever an allocator started on such a plan has done, no slot it can hand out is in the receive range or among the expansion root slots, and exactly the slots of expansions are invoked with a depth |
| `Worker.Kernel.RetypeRun` | substrate/worker.rs:454-461 | makes capabilities in order up to the first failing call |
| `Worker.Kernel.MapRun` | substrate/worker.rs:501-513 | maps frame after frame to page after page up to the first failing call |
| `Worker.TakeFrames` | substrate/worker.rs:442-461 | a run of slots is free before and in use after; capabilities appear only in it; which calls fail decides the outcome, and with room for an expansion that the kernel grants there are slots |
| `Worker.Descriptor.Acquire` | substrate/worker.rs:405-485 | everything the descriptor names afterwards is what was taken plus what it still named from before |
| `Worker.Descriptor.Place` | substrate/worker.rs:486-542 | guard page, stack, IPC buffer and TLS follow each other in a region above everything mapped before, with the right frame behind each page; a failure leaves nothing mapped outside it |
| `Worker.Descriptor.PlaceTwo` | substrate/worker.rs:242-247 | the pages of two workers placed in turn are apart iff the first has at most 65 pages with its guard page, and it leaves the second's guard page alone iff it has at most 64 |
| `Worker.Descriptor.Release` | substrate/worker.rs:727-772 | unmaps, deletes and frees exactly what the descriptor names |
| `Worker.Descriptor.Spawn` | substrate/worker.rs:383-640 | after success the new slots, capabilities and pages are exactly the descriptor's; after a failure at any step all three are as before iff what the descriptor still named is not in use; a call that still waits for an expansion has what its record names and has mapped nothing; it succeeds if the allocator can grow three times and no call fails |
| `Worker.Descriptor.Reap` | substrate/tls.rs:586-679 | an exited thread is reaped: everything it names is given back and its ranges are cleared |
| `Worker.Descriptor.Life` | substrate/worker.rs:1024-1080 | a whole life, or a failed spawn, from a descriptor that names no frames conserves slots, capabilities and pages |
| `WorkerPool.ExecKeepsHeld` | substrate/worker.rs:383-775 | a step on one descriptor takes only free slots and gives back only what the descriptor holds |
| `WorkerPool.OrderStep` | substrate/worker.rs:1051-1080 | every step of any thread, whatever descriptors still name, moves each state word along UNUSED, RUNNING, EXITED, REAPING, UNUSED or back from RUNNING to UNUSED, and keeps it in step with the work done on the descriptor |
| `WorkerPool.InvStep` | substrate/worker.rs:1051-1080 | every step of any thread keeps ownership of slots, if a claimed descriptor names no frames from an earlier use |
| `WorkerPool.OneWorkerPerDescriptor` | substrate/tls.rs:173-188 | in every run two threads never work on one descriptor: one claimer, one reaper |
| `WorkerPool.StatesInOrder` | substrate/tls.rs:173-188 | in every run each step moves a state word along that order, and it says REAPING iff somebody reaps the descriptor |
| `WorkerPool.SlotsAreAccountedFor` | substrate/worker.rs:383-775 | in every state of a run whose claimed descriptors name no frames from an earlier use, the slots in use are exactly those of other clients and those descriptors hold, and nothing is held twice |
| `WorkerPool.SlotsAreConserved` | substrate/worker.rs:383-1080 | whenever a run with such claims only has all descriptors unused again, no slot is left behind and none was taken from anybody else |
| `WorkerPool.CarefulUnlessLateFailure` | substrate/worker.rs:383-640 | if no spawn fails after it has recorded frames, no claimed descriptor names frames of an earlier use |
| `WorkerPool.ConservedUnlessLateFailure` | substrate/worker.rs:383-1080 | then, from a zeroed pool, slots are conserved over every run |
| `WorkerPool.StaleRecordFreesForeignSlot` | substrate/worker.rs:727-775 | a run from a zeroed pool in which a descriptor that a rollback left with a frame is claimed again and a second rollback frees another client's slot |
| `WorkerPool.SpawnCompletes` | substrate/worker.rs:383-640 | whatever the pool looks like, an unused descriptor that names no frames becomes a running worker with the three runs of free slots that its claimer takes |
| `WorkerPool.ReapCompletes` | substrate/tls.rs:586-679 | a running worker that exits is reaped: its slots are free again and its descriptor is unused and names no frames |
| `WorkerPool.RefusedComesBack` | substrate/worker.rs:405-420 | a spawn that gets no slots leaves the pool as it was |
| `ElfImage.FileBytes` | loader/elf_loader.rs:599-643 | with in-file, byte-disjoint segments every file-backed byte of the image is its file byte |
| `ElfImage.ZeroBytes` | loader/elf_loader.rs:701-716 | every other byte of the image is zero |
| `ElfImage.PatchPage` | loader/elf_loader.rs:599-645 | copying a segment into its page makes the page that of one segment more, also on shared pages |
| `ElfImage.CountShift` | loader/elf_loader.rs:357-394 | the page count does not depend on a shift by whole pages |
| `ElfImage.PagesInSpan` | loader/elf_loader.rs:400-444 | with a page-multiple shift every page of the image lies within the computed span of the first |
| `ElfImage.RelocatedWord` | loader/elf_loader.rs:295-317 | an entry that no later one overlaps leaves load base plus addend at its target |
| `ElfImage.RelocatedElsewhere` | loader/elf_loader.rs:327-350 | a byte that no entry targets stays |
| `Bytes.LowestFirst` | loader/elf_loader.rs:327-350 | byte i of a stored word is its digit of weight 256^i: the lowest byte comes first |
| `ElfImage.RelativeIsBPlusA` | loader/elf_loader.rs:295-297 | the stored word is B + A iff the lowest address of the image is 0 |
| `ElfImage.RedundantImage` | loader/elf_loader.rs:625-645 | if copies into pages of earlier segments write only what is there already, it does not matter which of them are missed |
| `ElfImage.RedundantIff` | loader/elf_loader.rs:625-645 | in a well-formed image such a copy is redundant iff its byte is zero |
| `ElfImage.HarmlessPage` | loader/elf_loader.rs:625-645 | nor does it matter, for a relocated page, what was missed where relocations store their words |
| `ElfLoader.SegmentFlags` | loader/elf_loader.rs:154-164 | never writable and executable |
| `ElfLoader.Merge` | loader/elf_loader.rs:647-651 | never writable and executable, whatever was merged |
| `ElfLoader.CopyInto` | loader/elf_loader.rs:599-643 | what part of a page a segment fills, and that exactly this part is copied |
| `ElfLoader.NewPage` | loader/elf_loader.rs:590-729 | what loading a page of a segment does to the page's bytes and rights, copy skipped or not |
| `ElfLoader.Loader.AddPage` | loader/elf_loader.rs:669-733 | a new page gets a frame of its own with the segment's bytes and zeros; whichever call fails, the table stays what the child has mapped and all other pages are untouched |
| `ElfLoader.Loader.MergeBytes` | loader/elf_loader.rs:625-645 | bytes are added to a page that is there, or skipped when the scratch mapping fails |
| `ElfLoader.Loader.MergeFlags` | loader/elf_loader.rs:647-668 | a remapped page has the merged rights and the same frame; if it cannot be mapped again it is unmapped and nothing else changes |
| `ElfLoader.Loader.LoadPage` | loader/elf_loader.rs:589-733 | both cases together; on every outcome the table keeps distinct page-aligned addresses and no mapping is writable and executable |
| `ElfLoader.Loader.ValidIff` | loader/elf_loader.rs:565-733 | the table after a success is the table of every outcome with no row unmapped |
| `ElfLoader.Loader.NeverBoth` | loader/elf_loader.rs:647-651 | nothing the child has mapped is writable and executable, or off a page boundary, however a load ends |
| `ElfLoader.Loader.LoadSegments` | loader/elf_loader.rs:532-737 | after all segments each page is as they make it; the precomputed capacity is never exceeded, so that check never fires; errors and break; the table's invariant on every outcome |
| `ElfLoader.Loader.Relocate` | loader/elf_loader.rs:282-317 | each page afterwards is the page before with the relocations applied in order; succeeds when every target is a word of a mapped page and the calls succeed |
| `ElfLoader.Loader.Load` | loader/elf_loader.rs:458-737 | on success the child has exactly the segments' pages, with the rights and bytes they give them, then the relocations, whose targets are mapped; an image is moved by 0 if it is position-dependent and else so that its lowest address is the load base; exactly which copies are lost; nothing is lost that shows if copies into shared pages are redundant; succeeds when the image fits and no call fails whose failure is not ignored; the table's invariant on every outcome |
| `ElfLoader.LoadedBytes` | loader/elf_loader.rs:569-737 | byte by byte, relocations included: file-backed bytes of a well-formed image are mapped and are their file bytes, other bytes are zero, every relocated word that no later one overlaps is mapped and is load base plus addend |
| `ElfLoader.LoadImage` | loader/elf_loader.rs:458-737 | a load and its bytes in one: after a success in which no copy was lost, or none that shows, byte k of each segment is at its address plus k, moved by 0 for a position-dependent image and else so that the lowest address is the load base; the pages mapped and their rights, the zeros, and each relocated word as load base plus addend; exactly which copies are lost; on every outcome nothing is writable and executable |
| `ElfLoader.ImagePlaced` | loader/elf_loader.rs:526-737 | the image's pages, rights, bytes and relocated words in terms of the program headers' own fields |
| `ElfLoader.FaultyLoad` | loader/elf_loader.rs:625-645 | for every image with a copy that is not redundant, a load that succeeds with the wrong byte at that address, only scratch mappings of its page failing |
| `ElfLoader.MissedCopyShows` | loader/elf_loader.rs:625-645 | two segments on one page: the load succeeds and the file's byte is not there |
| `GnuHash.ComputeHash` | rtld/elf/rtld_symbol.c:10-15 | the loop computes the GNU hash modulo 2^32 |
| `GnuHash.HashIsNumber` | rtld/elf/rtld_symbol.c:10-15 | the hash is 5381 * 33^n plus the name's bytes as digits to the base 33, modulo 2^32 |
| `GnuHash.ShrDivides` | rtld/elf/rtld_symbol.c:37-48 | the shift for the second filter bit divides by a power of two |
| `GnuHash.CStr` | rtld/elf/rtld_symbol.c:50-82 | a name in the string table ends before the first NUL |
| `GnuHash.NeverRejected` | rtld/elf/rtld_symbol.c:37-48 | the Bloom filter never rejects a name that is there, and its bucket starts at or before it |
| `GnuHash.NotLast` | rtld/elf/rtld_symbol.c:75-79 | no symbol of the bucket before the wanted one carries the end mark |
| `GnuHash.WalkChain` | rtld/elf/rtld_symbol.c:50-82 | the walk finds a matching symbol no later than the wanted one, and the step limit never ends it |
| `GnuHash.IndexLookup` | rtld/elf/rtld_symbol.c:17-82 | on a well-formed index the result is the address of the one symbol offered under the name, else 0 |
| `GnuHash.LinearLookup` | rtld/elf/rtld_symbol.c:84-118 | the same for the scan |
| `GnuHash.BothWays` | rtld/elf/rtld_symbol.c:17-118 | index and scan agree on every name |
| `GnuHash.ExampleIsWellFormed` | rtld/elf/rtld_symbol.c:17-82 | a concrete object meets what is asked of a well-formed index |
| `GnuHash.Resolve` | rtld/elf/rtld_symbol.c:120-134 | the answer of the first object in link order that has one |
| `GnuHash.FirstInLinkOrder` | rtld/elf/rtld_symbol.c:120-134 | a name resolves to the answer of the first object that has one, and to 0 if none has |
| `GnuHash.BindNow` | rtld/elf/rtld_reloc.c:128-141 | what eager binding stores, or that it is fatal |
| `GnuHash.BindLazily` | rtld/elf/rtld_reloc.c:210-244 | what lazy binding stores, or that it is fatal |
| `GnuHash.BindBothWays` | rtld/elf/rtld_reloc.c:26-48 | eager and lazy binding agree iff the symbol resolves or is not weak; what each stores, and when it is fatal |
| `StaticTls.Finalize` | rtld/elf/rtld_main.c:136-182 | the loop computes the layout of the ABI: one row for each object with TLS in link order, each block at the multiple of its alignment nearest to its predecessor, the first one nearest to the thread pointer or its 16-byte header; the area ends where the last block does; the alignment is the strictest that is asked for |
| `StaticTls.LayoutIsTight` | rtld/elf/rtld_main.c:155-182 | the recursive layout, from which the other results are proved, is that one |
| `StaticTls.BlockInArea` | rtld/elf/rtld_main.c:155-171 | every block lies between the thread pointer and the total, on the ABI's side of it |
| `StaticTls.BlocksApart` | rtld/elf/rtld_main.c:155-171 | blocks of different objects do not overlap |
| `StaticTls.BlockAligned` | rtld/elf/rtld_main.c:154-171 | with an aligned thread pointer every block is aligned as its object asks |
| `StaticTls.ModuleAt` | rtld/elf/rtld_main.c:195-206 | the exported rows are the objects with TLS in link order, numbered from 1 |
| `StaticTls.Initialize` | substrate/tls.rs:383-421 | afterwards every byte of the area comes from the template that reaches it, or from the executable's if there is no module table, or is zero; every byte outside is untouched |
| `StaticTls.FindVariable` | substrate/tls.rs:425-441 | the row with the module's number is used if the runtime knows it, else the default base |
| `StaticTls.BlockContents` | substrate/tls.rs:383-421 | a block holds its template followed by zeros if its object is among the first eight with TLS, else zeros |
| `StaticTls.WithoutTable` | substrate/tls.rs:383-421 | without a module table the area holds the executable's template, then zeros |
| `StaticTls.AddressesAgree` | rtld/elf/rtld_reloc.c:143-162 | tp + TPOFF64 is the address found from DTPMOD64 and DTPOFF64 iff the object is among the first eight with TLS or, on x86_64, the last |
| `StaticTls.AddressBothWays` | rtld/elf/rtld_reloc.c:143-162 | lays out any objects, addresses a variable both ways through the linker's own table, and gets the same address under exactly that condition |
| `StaticTls.RegionFits` | substrate/tls.rs:464-485 | the region holds the blocks, the aarch64 header and the runtime's block apart from each other, with the pointer aligned |
| `StaticTls.RegionTight` | substrate/tls.rs:464-485 | the region is less than a page larger than its parts can need, and pointer and block are as near to their neighbours as their alignments allow |
| `StaticTls.SetUpWorker` | substrate/worker.rs:653-701 | end to end: each object's block lies in the worker's region apart from the runtime's block, is aligned and holds its template and zeros; the thread block is where the runtime computes it, in the region, aligned and above the blocks |
| `StaticTls.MainThreadAligned` | substrate/tls.rs:491-546 | the main thread's pointer is aligned for every placement iff no module asks for more than 64 |
| `Cpio.ParseHex8` | loader/cpio.rs:17-30 | the value of eight hexadecimal digits of either case, 0 if one is none |
| `Cpio.FieldEitherCase` | loader/cpio.rs:17-30 | capital and small digits denote the same number |
| `Cpio.Format` | loader/cpio.rs:160-196 | for every byte string, an entry is there iff the newc format says so, and where its name, its data and the next header are |
| `Cpio.Offsets` | loader/cpio.rs:150-198 | iteration visits offsets that rise by at least a header each and every visited entry is complete |
| `Cpio.EntryAt` | loader/cpio.rs:171-196 | name and data of an entry lie inside the archive |
| `Cpio.Next` | loader/cpio.rs:150-198 | for every byte string an entry is returned iff there is one, with the next offset |
| `Cpio.NextExt` | loader/cpio.rs:207-262 | its own parser finds the same entries, with the header's other fields |
| `Cpio.FindFile` | loader/cpio.rs:73-140 | for every byte string the first entry of the iteration with the name, nothing iff there is none |
| `Cpio.FindStep` | loader/cpio.rs:80-138 | one round of the search with its own parser: ends iff there is no entry, finds it iff the name is right, else goes on where iteration does |
| `Cpio.FindFileExt` | loader/cpio.rs:272-343 | the same entry, with the header's other fields |
| `Cpio.FindExtStep` | loader/cpio.rs:279-342 | one round of that search with its own parser |
| `Cpio.ArchiveSize` | loader/cpio.rs:353-394 | the loop computes the size up to the trailer, a missing header or the end |
| `Cpio.SizeIsAtStop` | loader/cpio.rs:353-394 | for every byte string the size is decided where the iteration ends: behind a trailer, at a place without a header, else the whole buffer |
| `Cpio.PartRead` | loader/cpio.rs:160-196 | reading where a file was written gives its name, data and metadata and ends where the file's part ends |
| `Cpio.RoundTrip` | loader/cpio.rs:150-394 | the archive of any list of files, whatever follows it: iteration gives exactly these files, the size is that of the archive |
| `Cpio.ListFiles` | loader/cpio.rs:150-198 | calling the iterator from 0 gives exactly the entries, in order, and ends |
| `Cpio.ListFilesExt` | loader/cpio.rs:207-262 | so does the iterator with the header's other fields |
| `Cpio.ReadBack` | loader/cpio.rs:150-394 | the archive of any list of files, whatever follows it, read with both iterators and the size function: the files' names, data and metadata in order, and the size |
| `PeImage.ShiftImage` | loader/pe_loader.rs:359-440 | the byte at an offset from the base does not depend on the base |
| `PeImage.RebasedWord` | loader/pe_loader.rs:764-793 | a word that no other entry overlaps has the distance added exactly once |
| `PeImage.RebasedElsewhere` | loader/pe_loader.rs:719-744 | a byte that no entry targets stays |
| `PeImage.WordsDiffer` | loader/pe_loader.rs:666-757 | the same relocated word at two bases differs by the distance of the bases modulo 2^64, also at the image's own base |
| `PeImage.OtherBytesEqual` | loader/pe_loader.rs:666-757 | all other bytes are equal |
| `PeImage.RebasedInjective` | loader/pe_loader.rs:764-793 | relocating a page loses nothing: different pages stay different |
| `PeLoader.HeaderPage` | loader/pe_loader.rs:464-500 | a page of the headers takes what page and file have, no more |
| `PeLoader.MappedPages` | loader/pe_loader.rs:336-392 | an image maps exactly the pages of its headers and of the sections that are neither discardable nor empty |
| `PeLoader.LoadParts` | loader/pe_loader.rs:336-441 | after the headers and all sections each page is as they make it; if the calls succeed this succeeds iff the image has at most 512 pages |
| `PeLoader.Rebase` | loader/pe_loader.rs:666-757 | each page afterwards is the page before with the distance added to the words of all DIR64 entries in order, and these are words of mapped pages; succeeds when they are and the calls succeed |
| `PeLoader.Load` | loader/pe_loader.rs:308-457 | on success the child has mapped exactly the image's pages with their rights and relocated words, with the image's bytes at the base except for copies lost into shared pages; it is the image if these are redundant; succeeds when the image fits and no call fails whose failure is not ignored; the table's invariant on every outcome |
| `PeLoader.FaultyLoad` | loader/pe_loader.rs:533-552 | for every image with a copy that is not redundant, a load that succeeds and is not the image, only scratch mappings of one page failing |
| `PeLoader.MissedSectionShows` | loader/pe_loader.rs:533-552 | a section on the page of the headers: the load succeeds without its byte |
| `PeLoader.SamePages` | loader/pe_loader.rs:511-640 | any two successful loads of one image map the same pages with the same rights |
| `PeLoader.WordsMoved` | loader/pe_loader.rs:764-793 | in two loads, not both at the image's own base, each relocated word is mapped and differs by the distance of the bases modulo 2^64 |
| `PeLoader.BytesKept` | loader/pe_loader.rs:511-640 | in two loads every other byte is the same |
| `PeLoader.TwoLoads` | loader/pe_loader.rs:308-457 | loads an image at two bases: if both succeed, pages and rights are the same; if also no copy was lost, or none that shows, relocated words and all other bytes are as above; exactly which copies are lost; each succeeds if the kernel lets it |
| `PePlacement.PagesPlaced` | loader/pe_loader.rs:336-441 | a loaded image has mapped exactly the pages on which its headers or a kept section have an address, writable if one of these sections is, else executable if one is; in terms of the section headers' fields |
| `PePlacement.SectionBytes` | loader/pe_loader.rs:359-440 | byte k of a section's raw data is at base plus section address plus k, unless a later section or a relocation has the place |
| `PePlacement.ZeroBytes` | loader/pe_loader.rs:359-440 | where nothing in the file is for an address of a section it is zero |
| `PePlacement.RelocatedWords` | loader/pe_loader.rs:666-793 | the word of a DIR64 entry is the file's word plus base minus image base, modulo 2^64 |
| `PePlacement.TargetsAre` | loader/pe_loader.rs:690-757 | the relocated places are block address plus entry offset of the DIR64 entries, and no others |
| `VmLayout.FixedIsGood` | substrate/layout.rs:274-352 | for all sizes the regions are page-aligned and pairwise disjoint, and the stack's top is its end and the scratch page's base |
| `VmLayout.RandomizedIsGood` | substrate/layout.rs:367-456 | the same for all random draws |
| `VmLayout.FixedFits` | substrate/layout.rs:274-352 | every part gets the room it needs, an unused page separates the parts of the code, optional regions are there exactly when wanted, the stack is in the first of the two windows that the code leaves free, else the guard gap above the code |
| `VmLayout.RandomizedFits` | substrate/layout.rs:367-456 | the same for all random draws, with the code moved by less than 256 pages |
| `VmLayout.PlanIsDrawn` | substrate/layout.rs:367-456 | each draw moves its part by a number of pages congruent to it, the code up by up to 255, the stack down by up to 63, if that leaves a window for the stack; else the plan is the fixed one |
| `VmLayout.HeapBase` | substrate/layout.rs:215-227 | page-aligned, at or above every region's end and less than a page above the highest |
| `VmLayout.MaxMappedEnd` | substrate/layout.rs:230-251 | the highest end of a nonempty region |
| `VmLayout.MmapBase` | substrate/layout.rs:263-266 | page-aligned, at least 256 MiB above the heap's start and every region |
| `Casefold.FoldCodepoint` | substrate/casefold.rs:24-46 | ASCII fast path and binary search equal plain table lookup |
| `Casefold.LookupTwice` | substrate/casefold.rs:24-46 | folding a folded code point changes nothing |
| `Casefold.FoldUtf8` | substrate/casefold.rs:51-67 | decodes, folds and encodes; nothing iff the bytes are not UTF-8, a folded code point is no character, or the result does not fit |
| `Casefold.FoldedTwice` | substrate/casefold.rs:51-67 | folding a folded string gives it back |
| `Casefold.CasefoldEqual` | substrate/casefold.rs:72-84 | compares folded strings if both exist, else the bytes |
| `Casefold.SameIsEquivalence` | substrate/casefold.rs:72-84 | the comparison is an equivalence relation on all byte strings, whatever the table |
| `Casefold.SameAsFolded` | substrate/casefold.rs:72-84 | a name equals its folded form |
| `Casefold.SameIff` | substrate/casefold.rs:72-84 | two names are equal iff both can be folded and agree character by character after folding, or one cannot and the bytes are the same |
| `Casefold.AsciiNames` | substrate/casefold.rs:24-84 | names of at most 256 ASCII characters are equal iff they are but for the case of their letters |
| `Utf8.DecodeEncode` | substrate/casefold.rs:51-64 | reading back encoded characters gives the same characters |
| `Utf8.EncodeDecode` | substrate/casefold.rs:51-64 | what can be read is the encoding of what is read, so that overlong forms are refused |

## Left out

- Semaphore and Once, and wakeup claims for the reader-writer lock: the futex sleep of `RwLock` may end at
  any moment, which is all that exclusion needs.
- Weak memory orderings: atomics are sequentially consistent.
- Thread cancellation inside the condition variable, and the timed condition waits: a timeout of a wait is a
  sleep that ends on its own.
- TypedMutex.OwnershipIsExact: callers of a normal mutex lock it only when they do not hold it and unlock or
  wait only when they do, as its kind demands; recursive and error-checking mutexes take any call.
- SlotAlloc.SlotAllocator.Alloc: stated for a caller that is alone; many callers are in `SlotCallers`.
- SlotAlloc.SlotAllocator.AllocRun: likewise.
- SlotAlloc.SlotAllocator.Drive: likewise.
- The spin lock around the allocator, its base and total-count queries, and root CNodes of 2^64 slots or more.
- Worker.Descriptor.Spawn: no other client of the allocator acts between the sections of one spawn; `WorkerPool`
  lets them act.
- The worker slot table, scheduling budgets, trampolines and the worker's message loop.
- Personality cleanup hooks and threads that a personality owns.
- Decoding of ELF and PE headers, program headers, section tables, dynamic sections and relocation blocks:
  they are sequences of decoded records. PE imports.
- ElfLoader.Loader.Load: frame slots come from the loader's own counter, not from a callback; addresses do
  not overflow 64 bits.
- ElfLoader.Loader.Relocate: a relocated word that crosses a page ends the load with the error `Overrun`; the
  source writes past its scratch page there.
- PeLoader.Load: follows the code for page-aligned load bases; for others the code maps the headers at the base
  itself, the model at the start of its page.
- PeLoader.Rebase: `Overrun` as above.
- GnuHash.IndexLookup: the symbol count is known, and the tables are as long as it says.
- StaticTls.Finalize: alignment masks are rounding to multiples, which is the same for powers of two. TLS
  descriptors.
- Casefold.FoldUtf8: the destination buffer is the sequence of bytes written to it. The fold table is a
  parameter with the properties in `Casefold.Good`.
- VmLayout.FixedIsGood: sizes do not overflow 64 bits.
- POSIX and Win32 message packing, raw system calls, serial output, framebuffer and DNS.
