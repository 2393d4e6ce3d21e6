# A Dafny model of the iceoryx2 core

iceoryx2 is a zero-copy inter-process communication library in Rust. Its containers, allocators and its event
multiplexer live in shared memory and must neither allocate behind the user's back nor lose a resource. This project
models the parts where this is decided and proves what they keep, over every run and, where threads meet, over every
interleaving.

| files | what they model |
|---|---|
| `Queue`, `QueueWrap`, `SlotMapState`, `SlotMapFreeList`, `SlotMapRuns`, `SlotMapPromise`, `SlotMap` | the slot map: keys, data slots, a ring buffer of free slots and a doubly linked free list of keys |
| `FlatMap` | the flat map on top of the slot map |
| `Callbacks`, `Deadlines`, `DeadlineEffects`, `DeadlineQueue` | the queue of periodic deadlines |
| `WaitSetState`, `WaitSetPasses`, `WaitSetEffects`, `WaitSetRuns`, `WaitSetErrors`, `WaitSet` | the wait set: guards, reactor, deadline queue and the two maps between them |
| `BumpAllocator`, `LoanCounter`, `UniqueIndexSet`, `TagWrap` | lock-free code as state machines over its atomic steps |
| `PoolAllocator`, `ContainerMemory` | bucket addresses, and the memory sizes that relocatable containers announce |
| `ByteString`, `SemanticString`, `NamedConcept` | fixed-size strings, strings with a content rule, and names of files |
| `Prelude`, `Math` | shared helpers |

Objects that the source updates in place are classes (`MetaQueue`, `MetaSlotMap`, `MetaFlatMap`, `DeadlineQueue`,
`WaitSet`, `PoolAllocator`, `FixedSizeByteString`, `SemanticString`). Their methods keep the loops of the source and are
proved to compute a function on a value, the abstract state. The theorems about runs are proved of these functions.
The lock-free code is a transition system: one event per atomic access, any number of threads, any order.

Clock readings, the outcome of waiting at the reactor, the termination signal and the answers of user callbacks are
parameters. A callback is a predicate on the sequence of arguments it was given so far, so it may keep state. Only
monotonicity is required of clock readings.

## Where the code does not do what is expected of it

The model follows the code in all of these. Where a promise is broken, the lemmas named give a concrete case and the
exact condition; inputs on which the code panics or leaves its memory are preconditions, as said.

- `insert_at` on the head of the free list leaves the head in place, and on a key in use it follows a stale link. The
  documentation of `insert` promises a new key, or none when full. That promise survives exactly for the keys that pass
  `ClaimIsSafe` (`PromiseHoldsIff`, and for the list itself `InsertAtKeepsListIff`); otherwise a later `insert` returns a
  key in use and overwrites its entry (`HeadClaimBreaksInsert`, `StaleNextBreaksInsert`).
- Range checks of the slot map refuse keys above the capacity, but let the capacity itself through, which is then out of
  bounds. The model excludes just this key.
- Removing from a full byte string indexes one past the end when the range is empty or reaches the end
  (`RemovableIff`). The methods above it inherit the condition as a precondition.
- `retain` removes the bytes for which the predicate holds; its documentation says the opposite. The model follows the code.
- `remove` of a byte string lets the index equal to the length through its guard; the length then underflows. The model
  demands a smaller index.
- `retain` of a semantic string checks a first pass on a copy and then asks the closure again. A closure with state may
  leave invalid contents (`StatefulRetainBreaksRule`); every content rule survives exactly when the second pass repeats the
  first or removes nothing (`EveryRuleSurvivesIff`), as it does without state.
- Stripping a pattern of more than 123 bytes whose removal would be invalid panics while the error message is built. The
  strips of the model demand shorter patterns in that case.
- A loan whose allocation fails never gives its count back (`LoanAdmittedIff`, `FailuresAddUp`,
  `FailedAllocationsBlockForEver`).
- The wait time is cut to 64 bits of nanoseconds (`WaitIsExactIff`, `CutWaitIsZero`).
- A callback that stops loses the missed deadlines that were not handed out yet, because the last iteration moves
  nevertheless (`AllDeliveredIff`, `NextReportIff`, `StopLosesInterval`).
- A failed `attach_deadline` leaves entries in the two lookup maps; they are proved harmless (`StaleEntriesKeepInv`).
- A full wait set refuses a new descriptor as already attached exactly when no interval is attached, and only otherwise
  for its capacity (`NotificationErrorIff`, `DeadlineErrorIff`, `FullReactorMisreports`).
- The pool allocator places buckets at multiples of the bucket size, not of the padded size its count is based on, so
  addresses are aligned only under the condition of `AddressesAlignedIff` (`SecondBucketIsMisaligned`).
- A pool over a region that is shorter than the padding in front of its first bucket counts buckets from an underflow, and
  the fixed-size pool hands them out although they lie outside (`BucketsInsideIff`, `ShortRegionIsOverrun`); a build with
  overflow checks panics. A bucket size of zero divides by zero. The constructor of the model excludes both.
- The start counter of the ring buffer wraps around after 2^64 pushes. The queue stays first in, first out exactly when
  the capacity divides 2^64 (`FifoForEverIff`, `CapacityThreeLosesElement`). A build with overflow checks panics at the
  wrap-around instead.
- The 16-bit tag of the index set is sound as long as fewer than 65536 exchanges happen during one acquire
  (`AcquiredIndexIsUnique`). Without that bound it is sound exactly for sets of at most one index (`UniqueForEverIff`,
  `TagWrapHandsOutHeldIndex`).

## Model

| member | source | states |
|---|---|---|
| `SlotMapRuns.RunRefinesMap` | iceoryx2-bb/container/src/slotmap.rs:253-307 | after every run of insert, insert_at and remove from an empty map, with whatever keys other than the capacity itself, the next operation and its answer agree with one map operation: insert that returns a key sets it and one that returns none changes nothing, insert_at sets exactly its key and answers whether it is in range, remove deletes exactly its key and answers whether it was there |
| `SlotMapRuns.SafeRunRefinesFreshMap` | iceoryx2-bb/container/src/slotmap.rs:421-432 | as long as every insert_at of a run claimed a safe key, insert moreover uses a key that was not in use and fails exactly when the map is full |
| `SlotMapRuns.SafeRunKeepsList` | iceoryx2-bb/container/src/slotmap.rs:209-307 | after every such run the doubly linked free list threads exactly the unused keys, once each, and used keys have no predecessor |
| `SlotMapRuns.SafeStepKeepsList` | iceoryx2-bb/container/src/slotmap.rs:253-307 | every single safe operation keeps the free list well formed |
| `SlotMapRuns.InsertExtendsMap` | iceoryx2-bb/container/src/slotmap.rs:253-260 | with a well-formed free list, insert either grows the map by a fresh key or the map was full |
| `SlotMapRuns.Run` | iceoryx2-bb/container/src/slotmap.rs:253-307 | every state reached by operations with keys other than the capacity satisfies the index invariant (injective key-to-slot map, free slots are the rest, length is the number of keys) and keeps its capacity |
| `SlotMapRuns.Apply` | iceoryx2-bb/container/src/slotmap.rs:253-307 | one operation keeps the index invariant and the capacity, safe or not |
| `SlotMapRuns.HeadClaimBreaksInsert` | iceoryx2-bb/container/src/slotmap.rs:224-266 | counterexample: after insert_at on the head of the free list the next insert returns that key, overwrites its value and does not grow the map |
| `SlotMapPromise.PromiseHoldsIff` | iceoryx2-bb/container/src/slotmap.rs:421-432 | after insert_at on a map with a well-formed free list, every insert of every continuation of safe operations returns an unused key, or none exactly when full, if and only if the key was safe to claim |
| `SlotMapPromise.ListKeepsPromise` | iceoryx2-bb/container/src/slotmap.rs:421-425 | a well-formed free list keeps that promise over every safe continuation |
| `SlotMapPromise.StaleClaimBreaks` | iceoryx2-bb/container/src/slotmap.rs:224-266 | for every map and every used key whose stale successor is an inner list entry: insert_at on it, insert_at on the successor and enough inserts make insert return a key in use |
| `SlotMapPromise.HeadInUseBreaks` | iceoryx2-bb/container/src/slotmap.rs:209-222 | a head that is in use makes the very next insert return it |
| `SlotMapPromise.StaleNextBreaksInsert` | iceoryx2-bb/container/src/slotmap.rs:224-266 | a map reached by three inserts and two removes in which insert_at on a key in use destroys the list and breaks the promise of insert |
| `SlotMapFreeList.InsertAtKeepsListIff` | iceoryx2-bb/container/src/slotmap.rs:224-266 | insert_at leaves a well-formed free list if and only if the key is unused and not the head, or used with a stale successor that is none, the head or a used key |
| `SlotMapFreeList.StaleNextIsUnsafe` | iceoryx2-bb/container/src/slotmap.rs:224-238 | a used key whose stale successor is an inner list entry is never safe to claim |
| `SlotMapFreeList.ClaimOfUsedKey` | iceoryx2-bb/container/src/slotmap.rs:224-238 | claiming a used key keeps the very same list when safe, and no list at all exists afterwards when not |
| `SlotMapFreeList.ClaimUnlinks` | iceoryx2-bb/container/src/slotmap.rs:224-238 | claiming an inner list entry removes exactly that entry from the list and clears its links |
| `SlotMapFreeList.AcquireTakesHead` | iceoryx2-bb/container/src/slotmap.rs:209-222 | acquiring pops the first list entry and touches no key outside the list |
| `SlotMapFreeList.ReleasePushesFront` | iceoryx2-bb/container/src/slotmap.rs:240-251 | releasing puts the key in front of the list and touches no key outside it |
| `SlotMapFreeList.InsertUsesFreshKey` | iceoryx2-bb/container/src/slotmap.rs:253-260 | insert uses the list head, which no entry uses, and fails iff length equals capacity |
| `SlotMapFreeList.InsertKeepsList` | iceoryx2-bb/container/src/slotmap.rs:253-260 | insert keeps the free list, uses a fresh key and fails iff the map is full |
| `SlotMapFreeList.InsertAtUnlinksKey` | iceoryx2-bb/container/src/slotmap.rs:262-266 | insert_at on an unused key that is not the head takes just this key out of the list |
| `SlotMapFreeList.RemoveReturnsKey` | iceoryx2-bb/container/src/slotmap.rs:289-307 | remove returns the key to the front of the list, and leaves the list alone for an unused key |
| `SlotMapFreeList.RemoveKeepsList` | iceoryx2-bb/container/src/slotmap.rs:289-307 | remove keeps the free list |
| `SlotMapFreeList.InitEstablishesListInv` | iceoryx2-bb/container/src/slotmap.rs:162-174 | a new map has all keys in its free list in ascending order |
| `SlotMapFreeList.WalkIsUnique` | iceoryx2-bb/container/src/slotmap.rs:209-222 | the links determine the free list: following them from the head gives one list only |
| `SlotMapFreeList.ListLength` | iceoryx2-bb/container/src/slotmap.rs:209-222 | list length plus number of entries is the capacity, and the head is invalid exactly when the list is empty |
| `SlotMapState.Model` | iceoryx2-bb/container/src/slotmap.rs:189-197 | the map that lookups see has exactly the used keys, and the stored length is its size |
| `SlotMapState.InsertRefinesUpdate` | iceoryx2-bb/container/src/slotmap.rs:253-260 | insert is a map update at the returned key, or changes nothing |
| `SlotMapState.InsertAtRefinesUpdate` | iceoryx2-bb/container/src/slotmap.rs:262-266 | insert_at is a map update at its key for every key in range, used or not, and changes nothing above the range |
| `SlotMapState.RemoveRefinesDeletion` | iceoryx2-bb/container/src/slotmap.rs:289-307 | remove deletes the key and answers true iff it was present |
| `SlotMapState.StoreRefinesUpdate` | iceoryx2-bb/container/src/slotmap.rs:268-287 | storing a value is a map update, whether it takes a slot from the queue or overwrites in place |
| `SlotMapState.AcquireKeepsIndexInv` | iceoryx2-bb/container/src/slotmap.rs:209-222 | taking a key off the free list changes no lookup |
| `SlotMapState.ClaimKeepsIndexInv` | iceoryx2-bb/container/src/slotmap.rs:224-238 | claiming any key, even an unsafe one, changes no lookup |
| `SlotMapState.InitEstablishesIndexInv` | iceoryx2-bb/container/src/slotmap.rs:162-174 | a new map is empty and consistent |
| `SlotMapState.FreeSlotsAreTheRest` | iceoryx2-bb/container/src/slotmap.rs:268-307 | the data slots outside the queue of free slots are exactly those owned by used keys |
| `SlotMapState.FreeSlotAvailable` | iceoryx2-bb/container/src/slotmap.rs:268-287 | whenever some key is unused a free data slot exists, so storing never finds an empty queue |
| `SlotMap.MetaSlotMap.constructor` | iceoryx2-bb/container/src/slotmap.rs:385-397 | construction yields the empty state |
| `SlotMap.MetaSlotMap.InitializeDataStructures` | iceoryx2-bb/container/src/slotmap.rs:162-174 | the fill loops build the empty state with a chained free list and all slots queued |
| `SlotMap.MetaSlotMap.AcquireNextFreeIndex` | iceoryx2-bb/container/src/slotmap.rs:209-222 | in-place pop of the free list refines the state function whose list effect is AcquireTakesHead |
| `SlotMap.MetaSlotMap.ClaimIndex` | iceoryx2-bb/container/src/slotmap.rs:224-238 | in-place unlinking for any index, in range or not |
| `SlotMap.MetaSlotMap.ReleaseFreeIndex` | iceoryx2-bb/container/src/slotmap.rs:240-251 | in-place push to the front of the free list |
| `SlotMap.MetaSlotMap.StoreValue` | iceoryx2-bb/container/src/slotmap.rs:268-287 | stores through the ring buffer of free slots; false iff the key is above the capacity |
| `SlotMap.MetaSlotMap.Insert` | iceoryx2-bb/container/src/slotmap.rs:253-260 | the imperative insert reaches the state and returns the key that InsertRefinesUpdate and InsertUsesFreshKey speak about |
| `SlotMap.MetaSlotMap.InsertAt` | iceoryx2-bb/container/src/slotmap.rs:262-266 | the imperative insert_at reaches the state that InsertAtRefinesUpdate and InsertAtKeepsListIff speak about |
| `SlotMap.MetaSlotMap.Remove` | iceoryx2-bb/container/src/slotmap.rs:289-307 | the imperative remove reaches the state that RemoveRefinesDeletion and RemoveReturnsKey speak about |
| `SlotMap.MetaSlotMap.NextFreeKey` | iceoryx2-bb/container/src/slotmap.rs:309-316 | the announced key is the one the next insert returns, for every value, and none iff that insert fails |
| `SlotMap.MetaSlotMap.Get` | iceoryx2-bb/container/src/slotmap.rs:189-197 | lookup answers the model map |
| `SlotMap.MetaSlotMap.Overwrite` | iceoryx2-bb/container/src/slotmap.rs:199-207 | writing through the mutable reference updates just this key; there is no reference for an unused key |
| `SlotMap.MetaSlotMap.NextAvailableKeyAfter` | iceoryx2-bb/container/src/slotmap.rs:144-160 | the scan finds the smallest used key at or after the start, or none exists |
| `SlotMap.MetaSlotMap.Iterate` | iceoryx2-bb/container/src/slotmap.rs:107-118 | iteration visits every entry of the map exactly once, in ascending key order |
| `SlotMap.RemovalFitsQueue` | iceoryx2-bb/container/src/slotmap.rs:289-307 | whenever a key is in use the queue of free slots has room for its slot |
| `Queue.MetaQueue.Push` | iceoryx2-bb/container/src/queue.rs:405-414 | appends at the back of the FIFO sequence, refused iff full |
| `Queue.MetaQueue.PushWithOverflow` | iceoryx2-bb/container/src/queue.rs:416-427 | on a full queue the oldest element comes back and the rest shifts; nothing else is lost |
| `Queue.MetaQueue.UncheckedPush` | iceoryx2-bb/container/src/queue.rs:429-437 | the ring-buffer write appends to the sequence and disturbs no live cell |
| `Queue.MetaQueue.Pop` | iceoryx2-bb/container/src/queue.rs:389-403 | removes and returns the oldest element, with the cell vacated |
| `Queue.MetaQueue.Peek` | iceoryx2-bb/container/src/queue.rs:377-387 | returns the element pop would return |
| `Queue.MetaQueue.Get` | iceoryx2-bb/container/src/queue.rs:194-212 | indexing from the front is indexing in the FIFO sequence |
| `Queue.MetaQueue.Clear` | iceoryx2-bb/container/src/queue.rs:361-363 | popping until empty drops every element: all cells are vacant |
| `Queue.MetaQueue.constructor` | iceoryx2-bb/container/src/queue.rs:142-151 | an empty queue of the given capacity |
| `QueueWrap.FifoForEverIff` | iceoryx2-bb/container/src/queue.rs:389-437 | with the start counter wrapping at 2^64, every run of pushes, overflowing pushes and pops answers as a first-in-first-out queue if and only if the capacity divides 2^64 |
| `QueueWrap.RunIsFifo` | iceoryx2-bb/container/src/queue.rs:389-437 | for every capacity, every run with at most 2^64 operations so far is first in, first out, and for dividing capacities every run |
| `QueueWrap.CapacityThreeLosesElement` | iceoryx2-bb/container/src/queue.rs:429-437 | with capacity three, two pushes around the wrap-around share a cell: the older element is lost and the younger comes out in its place |
| `FlatMap.MetaFlatMap.Insert` | iceoryx2-bb/container/src/flatmap.rs:90-104 | adds the pair; key-already-exists iff the key is present, is-full iff it is absent and the size equals the capacity; contents unchanged on error |
| `FlatMap.MetaFlatMap.Get` | iceoryx2-bb/container/src/flatmap.rs:106-110 | linear search answers the map |
| `FlatMap.MetaFlatMap.Assign` | iceoryx2-bb/container/src/flatmap.rs:119-126 | writing through the mutable reference updates exactly this key, if present |
| `FlatMap.MetaFlatMap.Remove` | iceoryx2-bb/container/src/flatmap.rs:128-136 | deletes exactly this key and nothing for an absent key |
| `FlatMap.MetaFlatMap.Contains` | iceoryx2-bb/container/src/flatmap.rs:146-150 | membership in the map |
| `FlatMap.MetaFlatMap.Len` | iceoryx2-bb/container/src/flatmap.rs:152-154 | the slot map length is the size of the flat map |
| `FlatMap.MetaFlatMap.Search` | iceoryx2-bb/container/src/flatmap.rs:112-117 | the walk over the slot-map iterator ends at an entry with this id, or no entry has it |
| `FlatMap.MetaFlatMap.Find` | iceoryx2-bb/container/src/flatmap.rs:112-117 | it finds an entry exactly when the id is in the map |
| `FlatMap.MetaFlatMap.constructor` | iceoryx2-bb/container/src/flatmap.rs:159-164 | an empty map of the given capacity |
| `FlatMap.IndexIsUnique` | iceoryx2-bb/container/src/flatmap.rs:90-104 | an entry is found at one slot-map key only: ids are unique |
| `FlatMap.ViewSize` | iceoryx2-bb/container/src/flatmap.rs:152-154 | as many ids as slot-map entries |
| `FlatMap.FlatInsert` | iceoryx2-bb/container/src/flatmap.rs:90-104 | inserting an absent id into the slot map extends the id map by it, and fails iff full |
| `FlatMap.FlatRemove` | iceoryx2-bb/container/src/flatmap.rs:128-136 | removing an entry deletes exactly its id |
| `FlatMap.FlatReplace` | iceoryx2-bb/container/src/flatmap.rs:119-126 | replacing the value of an entry updates exactly its id |
| `Deadlines.MissedIffBoundary` | iceoryx2-bb/posix/src/deadline_queue.rs:258-292 | the two-division test holds if and only if a multiple of the period after the start lies in the half-open window from the last iteration to now |
| `Deadlines.MissedContains` | iceoryx2-bb/posix/src/deadline_queue.rs:258-292 | the pass reports an index iff an attachment with this index is missed |
| `Deadlines.MissedOnce` | iceoryx2-bb/posix/src/deadline_queue.rs:258-292 | no attachment is reported twice in one pass |
| `Deadlines.NoBoundaryIsLost` | iceoryx2-bb/posix/src/deadline_queue.rs:227-308 | over every run of adds, removes, resets, waits and polls, a boundary of an attachment that is neither removed nor reset is reported by the first poll at or after it |
| `Deadlines.EveryReportIsNew` | iceoryx2-bb/posix/src/deadline_queue.rs:258-308 | whatever a poll reports has a boundary later than every earlier poll of the run |
| `Deadlines.NextReportIff` | iceoryx2-bb/posix/src/deadline_queue.rs:296-308 | the next poll reports an attachment exactly when one of its boundaries lies between the two polls, whether or not the earlier report was delivered |
| `Deadlines.RunKeepsPending` | iceoryx2-bb/posix/src/deadline_queue.rs:227-308 | a boundary still ahead of the last iteration stays ahead through every run without a poll at or after it |
| `Deadlines.StepKeepsPending` | iceoryx2-bb/posix/src/deadline_queue.rs:227-256 | in particular computing the wait time never swallows a boundary |
| `Deadlines.AddedIsPending` | iceoryx2-bb/posix/src/deadline_queue.rs:181-197 | every boundary of a new attachment lies ahead |
| `Deadlines.ResetSetsStart` | iceoryx2-bb/posix/src/deadline_queue.rs:214-223 | a reset restarts the period of its attachment |
| `Deadlines.ResetSparesOthers` | iceoryx2-bb/posix/src/deadline_queue.rs:214-223 | a reset changes no other attachment |
| `DeadlineEffects.ResetChangesStart` | iceoryx2-bb/posix/src/deadline_queue.rs:214-223 | a reset changes the start time of its attachment and nothing else, and every attachment keeps its place |
| `DeadlineEffects.RemoveTakesIndex` | iceoryx2-bb/posix/src/deadline_queue.rs:199-211 | a removal takes exactly the attachment with the index |
| `DeadlineEffects.RemoveKeepsOrder` | iceoryx2-bb/posix/src/deadline_queue.rs:199-211 | the attachments that stay keep their order |
| `DeadlineEffects.AddComesLast` | iceoryx2-bb/posix/src/deadline_queue.rs:181-197 | a new attachment comes last and the others are as they were |
| `DeadlineEffects.ReportsKeepOrder` | iceoryx2-bb/posix/src/deadline_queue.rs:258-292 | missed attachments are reported in the order in which they were added |
| `DeadlineEffects.ZeroPeriodIsAlwaysReported` | iceoryx2-bb/posix/src/deadline_queue.rs:268-276 | an attachment without a period is reported by every poll |
| `DeadlineEffects.LookingChangesNothing` | iceoryx2-bb/posix/src/deadline_queue.rs:227-308 | computing the wait and polling change no attachment |
| `Deadlines.RemainderIsDistance` | iceoryx2-bb/posix/src/deadline_queue.rs:250-256 | period minus remainder is the distance to the earliest boundary strictly after now |
| `Deadlines.Step` | iceoryx2-bb/posix/src/deadline_queue.rs:181-308 | every operation keeps indices unique and below the counter, start times and the last iteration not in the future, and both clocks monotone |
| `Deadlines.Run` | iceoryx2-bb/posix/src/deadline_queue.rs:181-308 | so does every run |
| `DeadlineQueue.DeadlineQueue.constructor` | iceoryx2-bb/posix/src/deadline_queue.rs:111-122 | an empty queue whose last iteration is now |
| `DeadlineQueue.DeadlineQueue.AddDeadlineInterval` | iceoryx2-bb/posix/src/deadline_queue.rs:181-197 | adds the attachment under the returned, never used index |
| `DeadlineQueue.DeadlineQueue.Remove` | iceoryx2-bb/posix/src/deadline_queue.rs:199-211 | the search loop removes the attachment with this index, and nothing when there is none |
| `DeadlineQueue.DeadlineQueue.Reset` | iceoryx2-bb/posix/src/deadline_queue.rs:214-223 | the search loop restarts the attachment with this index, and nothing when there is none |
| `DeadlineQueue.DeadlineQueue.HandleMissedDeadlines` | iceoryx2-bb/posix/src/deadline_queue.rs:258-292 | the callback is given exactly the missed indices in order, cut right after the first Stop |
| `DeadlineQueue.DeadlineQueue.DurationUntilNextDeadline` | iceoryx2-bb/posix/src/deadline_queue.rs:227-256 | the maximum when empty, zero when something is missed, else the distance to the earliest boundary of any attachment reduced modulo 2^64; the last iteration moves only in the third case |
| `DeadlineQueue.DeadlineQueue.MinimalDistance` | iceoryx2-bb/posix/src/deadline_queue.rs:250-253 | the minimum loop yields the distance to the earliest next boundary |
| `DeadlineQueue.DeadlineQueue.MissedDeadlines` | iceoryx2-bb/posix/src/deadline_queue.rs:296-308 | reports the missed indices up to the first Stop and moves the last iteration to now either way |
| `DeadlineQueue.StopLosesInterval` | iceoryx2-bb/posix/src/deadline_queue.rs:296-308 | counterexample: two added intervals are due, the callback stops after the first, and the second is not reported by the next poll |
| `DeadlineQueue.CutWaitIsZero` | iceoryx2-bb/posix/src/deadline_queue.rs:255-255 | counterexample: one interval of 2^64 nanoseconds is not missed, but the wait is cut to zero |
| `DeadlineQueue.WaitIsExactIff` | iceoryx2-bb/posix/src/deadline_queue.rs:255-255 | the truncating cast returns the exact distance if and only if some attachment is due within 2^64 nanoseconds |
| `Callbacks.CutIsUnique` | iceoryx2-bb/posix/src/deadline_queue.rs:258-292 | handing out up to the first Stop determines the calls made |
| `Callbacks.AllDeliveredIff` | iceoryx2-bb/posix/src/deadline_queue.rs:258-292 | everything is handed out if and only if no call but the last is answered with Stop |
| `WaitSetRuns.NoBoundaryIsLost` | iceoryx2/src/waitset.rs:606-636 | over every run of attaches, guard drops and passes of the wait set, a boundary of an interval, or of a deadline whose descriptor is not triggered, whose guard lives is found missed in the first pass that polls at or after it |
| `WaitSetRuns.BoundaryReachesCallback` | iceoryx2/src/waitset.rs:577-604 | in that pass the callback is given the id of exactly this guard, unless it stops the pass itself |
| `WaitSetRuns.NewIntervalIsPending` | iceoryx2/src/waitset.rs:687-698 | an interval is attached iff capacity is left, and then all its boundaries lie ahead |
| `WaitSetRuns.NewDeadlineIsPending` | iceoryx2/src/waitset.rs:660-683 | all boundaries of a newly attached deadline lie ahead |
| `WaitSetErrors.NotificationErrorIff` | iceoryx2/src/waitset.rs:941-964 | attaching a new descriptor to a full wait set reports already-attached if and only if no interval is attached, and insufficient capacity if and only if one is |
| `WaitSetErrors.DeadlineErrorIff` | iceoryx2/src/waitset.rs:660-683 | the same for attaching a deadline |
| `WaitSetErrors.ReactorSize` | iceoryx2/src/waitset.rs:941-964 | the reactor holds exactly one descriptor per notification or deadline guard |
| `WaitSetErrors.FullReactorMisreports` | iceoryx2/src/waitset.rs:642-653 | a wait set for one attachment calls a second, different descriptor already attached |
| `WaitSetRuns.RunKeepsPending` | iceoryx2/src/waitset.rs:606-636 | a pending boundary survives every run without a poll at or after it |
| `WaitSetRuns.TriggeredIsMissedIffPeriodPassed` | iceoryx2/src/waitset.rs:561-636 | a deadline whose descriptor was triggered in a pass is reported missed in that pass if and only if a whole period went by between its reset and the poll |
| `WaitSetRuns.ResetsSetStart` | iceoryx2/src/waitset.rs:561-575 | after the reset loop every triggered deadline starts at the time its own reset read the clock |
| `WaitSetRuns.LiveGuardsAgreeWithMaps` | iceoryx2/src/waitset.rs:552-575 | in every state with the invariant the two lookup maps agree on every living deadline guard, and no interval is taken for a deadline |
| `WaitSetRuns.Run` | iceoryx2/src/waitset.rs:538-698 | every run keeps the invariant: counter equals number of guards and stays within capacity, reactor and queue hold exactly the attachments of the guards |
| `WaitSetRuns.Apply` | iceoryx2/src/waitset.rs:538-698 | one operation keeps the invariant |
| `WaitSetPasses.IdMatchesOneGuard` | iceoryx2/src/waitset.rs:331-434 | every id that a pass may hand out belongs to exactly one living guard: only for it does one of has_event_from and has_missed_deadline hold, never both, and for no guard of another wait set |
| `WaitSetPasses.PassHandsOutLiveIds` | iceoryx2/src/waitset.rs:577-636 | every id handed out in a pass is such an id |
| `WaitSetPasses.ApplyPassKeepsInv` | iceoryx2/src/waitset.rs:865-919 | a pass keeps the invariant |
| `WaitSetState.CreateEstablishesInv` | iceoryx2/src/waitset.rs:491-513 | a new wait set of the given capacity has no guards and satisfies the invariant |
| `WaitSetState.AttachNotificationKeepsInv` | iceoryx2/src/waitset.rs:642-653 | on success and on every error path the invariant holds |
| `WaitSetState.AttachIntervalKeepsInv` | iceoryx2/src/waitset.rs:687-698 | on success and on the capacity error the invariant holds |
| `WaitSetState.AttachDeadlineKeepsInv` | iceoryx2/src/waitset.rs:660-683 | on success and on every error path the invariant holds, although the capacity error leaves stale entries in the lookup maps |
| `WaitSetState.StaleEntriesKeepInv` | iceoryx2/src/waitset.rs:660-683 | the stale entries that a failed attach leaves behind name no living attachment |
| `WaitSetState.DropGuardKeepsInv` | iceoryx2/src/waitset.rs:459-467 | dropping a guard keeps the invariant and the counter never underflows |
| `WaitSetEffects.DropLeaves` | iceoryx2/src/waitset.rs:459-467 | dropping any living guard takes exactly this guard, one unit of capacity, its descriptor out of the reactor and its attachment out of the queue, and nothing else |
| `WaitSetEffects.DropForgetsDeadline` | iceoryx2/src/waitset.rs:552-559 | the two maps forget a dropped deadline and no other entry |
| `WaitSetEffects.DropUndoesNotification` | iceoryx2/src/waitset.rs:459-467 | dropping the guard of a notification that was just attached restores the wait set |
| `WaitSetEffects.NotificationJoins` | iceoryx2/src/waitset.rs:642-653 | attaching a notification adds exactly its guard, capacity and descriptor; an attached descriptor is refused as already attached, and every refusal changes nothing |
| `WaitSetEffects.IntervalJoins` | iceoryx2/src/waitset.rs:687-698 | attaching an interval adds exactly its guard, capacity and an attachment with this period that starts now; a refusal leaves all attachments as they were |
| `WaitSetEffects.DeadlineJoins` | iceoryx2/src/waitset.rs:660-683 | attaching a deadline adds exactly its guard, capacity, descriptor, attachment and map entries; a capacity error leaves just the map entries, an attached descriptor is refused and changes nothing |
| `WaitSetEffects.CalledIff` | iceoryx2/src/waitset.rs:412-434 | for every living guard: a pass has an event from it if and only if its descriptor was triggered or its interval is over, and reports its missed deadline if and only if the deadline is over |
| `WaitSetEffects.EventReachesCallback` | iceoryx2/src/waitset.rs:606-636 | a triggered descriptor reaches the callback as an event of its guard unless the callback stops the pass |
| `WaitSetEffects.MissedComesFirst` | iceoryx2/src/waitset.rs:606-636 | everything missed is handed out before any event of a descriptor |
| `WaitSetState.DropUndoesDeadline` | iceoryx2/src/waitset.rs:459-467 | dropping the guard of a fresh deadline restores reactor, queue, maps, counter and guards; only the index counter and the clock have moved, and a stale entry of the descriptor is gone |
| `WaitSetState.DropUndoesInterval` | iceoryx2/src/waitset.rs:687-698 | the same for an interval, and a refused interval leaves nothing behind |
| `WaitSetState.IndexIsFresh` | iceoryx2/src/waitset.rs:966-980 | the next queue index belongs to no attachment, guard or map entry |
| `WaitSet.WaitSet.constructor` | iceoryx2/src/waitset.rs:491-513 | an empty wait set |
| `WaitSet.WaitSet.Attach` | iceoryx2/src/waitset.rs:542-550 | takes one unit of capacity, refused iff none is left |
| `WaitSet.WaitSet.AttachToReactor` | iceoryx2/src/waitset.rs:941-964 | adds the descriptor, refused iff present or the reactor is full |
| `WaitSet.WaitSet.AttachNotification` | iceoryx2/src/waitset.rs:642-653 | refines the state function that AttachNotificationKeepsInv speaks about, errors included |
| `WaitSet.WaitSet.AttachInterval` | iceoryx2/src/waitset.rs:687-698 | refines the state function that AttachIntervalKeepsInv speaks about, guards dropped on error included |
| `WaitSet.WaitSet.AttachDeadline` | iceoryx2/src/waitset.rs:660-683 | refines the state function that AttachDeadlineKeepsInv speaks about, guards dropped on error included |
| `WaitSet.WaitSet.DropGuard` | iceoryx2/src/waitset.rs:459-467 | refines the state function that DropGuardKeepsInv and DropUndoesDeadline speak about |
| `WaitSet.WaitSet.ResetDeadline` | iceoryx2/src/waitset.rs:561-575 | restarts the deadline of the descriptor, and does nothing for a plain notification |
| `WaitSet.WaitSet.ResetDeadlines` | iceoryx2/src/waitset.rs:606-623 | the loop restarts every triggered deadline, in order, each with its own clock reading |
| `WaitSet.WaitSet.HandleDeadlines` | iceoryx2/src/waitset.rs:577-604 | the callback is given the ids of the missed attachments up to the first Stop, and the result says whether it stopped |
| `WaitSet.WaitSet.Notify` | iceoryx2/src/waitset.rs:624-636 | continues with the notification ids of the triggered descriptors, again up to the first Stop |
| `WaitSet.WaitSet.HandleAllAttachments` | iceoryx2/src/waitset.rs:606-636 | resets come before the poll, missed deadlines before notifications, and one Stop ends both |
| `WaitSet.WaitSet.Dispatch` | iceoryx2/src/waitset.rs:894-919 | each reactor outcome gives its result; only a triggered reactor moves the queue or calls back |
| `WaitSet.WaitSet.WaitAndProcessOnceWithTimeout` | iceoryx2/src/waitset.rs:865-919 | a whole pass: termination and emptiness checked first without effect, then a sleep that is no longer than the timeout and no longer than the queue allows and equal to one of them, then the calls of the pass in order, cut at the first Stop |
| `BumpAllocator.GrantedChunkIsInside` | iceoryx2-bb/memory/src/bump_allocator.rs:73-109 | over every interleaving of any number of threads, with lost and spuriously failing exchanges, every chunk granted since the last deallocate is aligned and inside the memory |
| `BumpAllocator.GrantedChunksAreDisjoint` | iceoryx2-bb/memory/src/bump_allocator.rs:73-109 | and any two of them are disjoint |
| `BumpAllocator.StepKeepsInv` | iceoryx2-bb/memory/src/bump_allocator.rs:73-114 | every atomic step keeps the chunk invariant, in which the position is the end of the last granted chunk or the start of the region, and never moves the memory |
| `BumpAllocator.Run` | iceoryx2-bb/memory/src/bump_allocator.rs:73-109 | every interleaving keeps the invariant |
| `BumpAllocator.ExchangeAnswers` | iceoryx2-bb/memory/src/bump_allocator.rs:84-100 | the answer to every exchange, current or stale: out of memory if and only if nothing fits behind the loaded position, granted at the least aligned place if and only if moreover the position has not moved, and otherwise tried again |
| `BumpAllocator.UndisturbedAnswers` | iceoryx2-bb/memory/src/bump_allocator.rs:73-109 | an allocation that nobody disturbs is granted at the least aligned place behind all granted chunks if one has room, else refused; size zero is refused at once and changes nothing |
| `BumpAllocator.RetryAnswers` | iceoryx2-bb/memory/src/bump_allocator.rs:99-102 | a thread that lost an exchange and is left alone gets the right answer for what is granted by then |
| `BumpAllocator.DeallocateMakesRoom` | iceoryx2-bb/memory/src/bump_allocator.rs:111-114 | after deallocate, in every reachable state, the next undisturbed request is granted if and only if some aligned place from the start of the region has room, at the least such place |
| `BumpAllocator.NewRegionIsFree` | iceoryx2-bb/memory/src/bump_allocator.rs:47-53 | a new allocator grants its first request if and only if some aligned place of the region has room |
| `BumpAllocator.GrantedIsWhatWasHandedOut` | iceoryx2-bb/memory/src/bump_allocator.rs:73-114 | the chunks that the safety theorems speak about are exactly the answers of the run since its last deallocate |
| `BumpAllocator.OthersKeepTheirAttempts` | iceoryx2-bb/memory/src/bump_allocator.rs:73-109 | no step of one thread changes the attempt of another |
| `BumpAllocator.AloneItFinishes` | iceoryx2-bb/memory/src/bump_allocator.rs:99-108 | a thread that is not disturbed finishes within two exchanges |
| `BumpAllocator.WrappingIsExact` | iceoryx2-bb/memory/src/bump_allocator.rs:81-97 | with layouts and memory no larger than the largest signed size, the end computed in wrapping 64-bit arithmetic is the exact one, even where the address sum inside align wraps |
| `BumpAllocator.Candidate` | iceoryx2-bb/memory/src/bump_allocator.rs:73-82 | the candidate is aligned as an address and not before the loaded position |
| `LoanCounter.LoansStayBelowMax` | iceoryx2/src/active_request.rs:232-252 | over every interleaving of loans, failing allocations and drops, the responses alive never exceed the maximum, the counter is exactly their number plus those on the way plus every failed allocation, and the subtraction never underflows |
| `LoanCounter.LoanAdmittedIff` | iceoryx2/src/active_request.rs:232-252 | at rest a loan is admitted if and only if living responses plus failed allocations so far are below the maximum |
| `LoanCounter.ExchangeAnswers` | iceoryx2/src/active_request.rs:232-252 | the answer to every exchange: refused if and only if the counter was full as the thread saw it, admitted if and only if it was not and has not moved, and otherwise tried again |
| `LoanCounter.LoneAnswers` | iceoryx2/src/active_request.rs:233-249 | after a load or a lost exchange a thread left alone is admitted if and only if the counter is below the maximum |
| `LoanCounter.RunAgrees` | iceoryx2/src/active_request.rs:295-300 | over every run, the threads admitted, the responses alive and on their way back, and the failed allocations are exactly what the events of the run and their answers say |
| `LoanCounter.CounterIsBalance` | iceoryx2/src/response_mut.rs:134-141 | so the counter is the balance of the history alone |
| `LoanCounter.LoanAndDropBalance` | iceoryx2/src/response_mut.rs:134-141 | a loan that is admitted, allocated and dropped leaves the whole state as it was, up to the next id |
| `LoanCounter.MaximumIsReached` | iceoryx2/src/active_request.rs:232-252 | a new request lets exactly its maximum of responses be alive at once |
| `LoanCounter.LoanIsFresh` | iceoryx2/src/active_request.rs:295-300 | a successful allocation returns a response that is no other one |
| `LoanCounter.OthersKeepTheirAttempts` | iceoryx2/src/active_request.rs:232-252 | no step of one thread changes the attempt of another |
| `LoanCounter.FailedAllocationsBlockForEver` | iceoryx2/src/active_request.rs:295-300 | once as many allocations failed as loans are allowed, no response is alive and every later loan of every run is refused |
| `LoanCounter.FailuresAddUp` | iceoryx2/src/active_request.rs:295-300 | such runs exist: n failing loans in a row raise the counter by n for good |
| `LoanCounter.StepKeepsInv` | iceoryx2/src/response_mut.rs:134-141 | every step, drops included, keeps the accounting |
| `LoanCounter.RunKeepsInv` | iceoryx2/src/active_request.rs:232-252 | every run keeps the accounting |
| `UniqueIndexSet.AcquiredIndexIsUnique` | iceoryx2-bb/lock-free/src/mpmc/unique_index_set.rs:384-424 | over every interleaving of acquires and releases, an acquired index is in range, held by nobody and not on its way to or from anybody |
| `UniqueIndexSet.StepKeepsInv` | iceoryx2-bb/lock-free/src/mpmc/unique_index_set.rs:384-480 | every atomic step within the tag window keeps the invariant: the free list holds distinct indices, and every index is free, held or in the hands of one thread |
| `UniqueIndexSet.AcquireKeepsInvIff` | iceoryx2-bb/lock-free/src/mpmc/unique_index_set.rs:404-418 | in or out of the window, a successful exchange of an acquire keeps the invariant if and only if the successor that was read is the one the head has now |
| `UniqueIndexSet.LocksIffLast` | iceoryx2-bb/lock-free/src/mpmc/unique_index_set.rs:449-456 | a release locks the set if and only if it asks to and its index is the only one that is not free |
| `UniqueIndexSet.LockedForEver` | iceoryx2-bb/lock-free/src/mpmc/unique_index_set.rs:394-396 | after a lock, in every later state of every interleaving, in or out of the tag window, nothing is held, the head is unchanged and every acquire is refused as locked |
| `UniqueIndexSet.RunKeepsInv` | iceoryx2-bb/lock-free/src/mpmc/unique_index_set.rs:384-480 | every interleaving within the tag window keeps it |
| `UniqueIndexSet.AcquireTakesFirst` | iceoryx2-bb/lock-free/src/mpmc/unique_index_set.rs:404-418 | a successful exchange pops the first free index, although the cell was read before |
| `UniqueIndexSet.ReleasePutsFirst` | iceoryx2-bb/lock-free/src/mpmc/unique_index_set.rs:438-480 | a successful exchange pushes the released index |
| `UniqueIndexSet.EqualWordIsEqualHead` | iceoryx2-bb/lock-free/src/mpmc/unique_index_set.rs:240-260 | within the tag window an equal 64-bit word means that the head has not moved at all |
| `UniqueIndexSet.RefusedIffAllBorrowed` | iceoryx2-bb/lock-free/src/mpmc/unique_index_set.rs:389-418 | at the first load and after every lost exchange an acquire is refused as out of indices if and only if all indices are borrowed, as locked if and only if the set is locked, and goes on otherwise |
| `UniqueIndexSet.LoneAcquireSucceeds` | iceoryx2-bb/lock-free/src/mpmc/unique_index_set.rs:404-424 | after the first load or a lost exchange, a thread left alone acquires the first free index whenever there is one and the set is not locked |
| `UniqueIndexSet.LoneReleaseAnswers` | iceoryx2-bb/lock-free/src/mpmc/unique_index_set.rs:446-480 | from its start or after a lost exchange, a release left alone returns its index, and locks if and only if it was asked to and no other index is in anybody's hands |
| `UniqueIndexSet.OthersKeepTheirPhase` | iceoryx2-bb/lock-free/src/mpmc/unique_index_set.rs:384-480 | no step of one thread changes what another is doing, and only an answer ends an operation |
| `UniqueIndexSet.HeldIsWhatWasAcquired` | iceoryx2-bb/lock-free/src/mpmc/unique_index_set.rs:384-480 | callers hold exactly what acquires answered and releases have not begun to return |
| `UniqueIndexSet.StepsNeverGetStuck` | iceoryx2-bb/lock-free/src/mpmc/unique_index_set.rs:384-480 | a thread inside an operation can always take its next step, with no access out of bounds |
| `TagWrap.UniqueForEverIff` | iceoryx2-bb/lock-free/src/mpmc/unique_index_set.rs:240-260 | without any bound on the exchanges during one acquire, every acquired index of every interleaving is unique if and only if the capacity is at most one |
| `TagWrap.TagWrapHandsOutHeldIndex` | iceoryx2-bb/lock-free/src/mpmc/unique_index_set.rs:384-424 | a run of every set of two or more indices from its creation: after 65536 exchanges during one acquire its stale exchange succeeds, and the next acquire returns an index that is held |
| `UniqueIndexSet.CreateEstablishesInv` | iceoryx2-bb/lock-free/src/mpmc/unique_index_set.rs:277-297 | a new set has all indices in its list |
| `PoolAllocator.PoolAllocator.Allocate` | iceoryx2-bb/memory/src/pool_allocator.rs:189-215 | each error holds exactly under its own condition, in the order size, alignment, exhaustion; success moves one free bucket to the outstanding ones |
| `PoolAllocator.PoolAllocator.DeallocateBucket` | iceoryx2-bb/memory/src/pool_allocator.rs:108-113 | returns the bucket at this address to the free ones |
| `PoolAllocator.PoolAllocator.GetIndex` | iceoryx2-bb/memory/src/pool_allocator.rs:180-185 | the division recovers the bucket whose address was handed out |
| `PoolAllocator.PoolAllocator.Grow` | iceoryx2-bb/memory/src/pool_allocator.rs:224-255 | grows in place with each error exactly under its own condition |
| `PoolAllocator.PoolAllocator.Shrink` | iceoryx2-bb/memory/src/pool_allocator.rs:257-283 | shrinks in place with each error exactly under its own condition |
| `PoolAllocator.PoolAllocator.constructor` | iceoryx2-bb/memory/src/pool_allocator.rs:120-133 | all buckets are free |
| `PoolAllocator.PoolAllocator.FreePlusOutstanding` | iceoryx2-bb/memory/src/pool_allocator.rs:189-222 | free plus outstanding buckets is always the number of buckets |
| `PoolAllocator.PoolAllocator.ChunksAreDisjoint` | iceoryx2-bb/memory/src/pool_allocator.rs:189-222 | outstanding chunks lie inside the managed memory and never overlap |
| `PoolAllocator.PoolAllocator.AddressesAlignedIff` | iceoryx2-bb/memory/src/pool_allocator.rs:205-213 | all handed-out addresses are aligned to every admitted alignment if and only if there is at most one bucket or the bucket size is a multiple of the bucket alignment |
| `PoolAllocator.PoolAllocator.SecondBucketIsMisaligned` | iceoryx2-bb/memory/src/pool_allocator.rs:205-213 | otherwise the second bucket violates the bucket alignment |
| `PoolAllocator.PoolAllocator.BucketIsAligned` | iceoryx2-bb/memory/src/pool_allocator.rs:205-213 | a bucket satisfies every power-of-two alignment up to the bucket alignment under that condition |
| `PoolAllocator.BucketCountIsMaximal` | iceoryx2-bb/memory/src/pool_allocator.rs:163-168 | as many padded buckets as fit behind the aligned start, and no more |
| `PoolAllocator.BucketsFit` | iceoryx2-bb/memory/src/pool_allocator.rs:163-168 | every bucket counted lies inside the memory |
| `PoolAllocator.BucketsInsideIff` | iceoryx2-bb/memory/src/pool_allocator.rs:163-168 | with the count in wrapping 64-bit arithmetic, all buckets lie inside the region if and only if the region is not shorter than the padding in front of the first bucket |
| `PoolAllocator.ShortRegionIsOverrun` | iceoryx2-bb/memory/src/pool_allocator.rs:321-331 | counterexample: an empty region at an unaligned address gets buckets, none of them inside |
| `ContainerMemory.AnnouncedSizeSuffices` | iceoryx2-bb/elementary/src/math.rs:16-18 | for every list of arrays and every start address the announced sizes cover the aligned, disjoint placement of all of them |
| `ContainerMemory.AnnouncedSizeIsTight` | iceoryx2-bb/elementary/src/math.rs:16-18 | for every array there is a start address behind which all announced bytes are used |
| `ContainerMemory.ElementsFillRegion` | iceoryx2-bb/elementary/src/math.rs:16-18 | the elements of an array lie one after the other inside its region and fill it to the end |
| `ContainerMemory.InitSlotMap` | iceoryx2-bb/container/src/slotmap.rs:348-376 | the nested init calls place all arrays of a slot map, disjoint and aligned, within its announced memory size |
| `ContainerMemory.SlotMapTotal` | iceoryx2-bb/container/src/slotmap.rs:472-477 | the announced size is the sum over exactly the arrays that init requests |
| `ContainerMemory.InitArray` | iceoryx2-bb/container/src/vec.rs:177-195 | one array is placed at the next aligned address and the allocator moves behind it |
| `ContainerMemory.PlacementShifts` | iceoryx2-bb/container/src/slotmap.rs:348-376 | the placement relative to the base is the same wherever an aligned base is mapped |
| `ContainerMemory.BumpAllocator.Allocate` | iceoryx2-bb/elementary/src/bump_allocator.rs:35-47 | the next aligned address, and the position right behind it |
| `ContainerMemory.BumpAllocator.constructor` | iceoryx2-bb/elementary/src/bump_allocator.rs:26-31 | starts at the given address |
| `Math.Align` | iceoryx2-bb/elementary/src/math.rs:21-27 | a multiple of the alignment, not below the value and less than one alignment above |
| `Math.AlignIsLeast` | iceoryx2-bb/elementary/src/math.rs:21-27 | and the least such multiple |
| `ByteString.InsertRemoveUndo` | iceoryx2-bb/container/src/byte_string.rs:492-609 | removing what was inserted gives the string back |
| `ByteString.RemoveInsertUndo` | iceoryx2-bb/container/src/byte_string.rs:492-609 | inserting what was removed gives the string back |
| `ByteString.KeptCounts` | iceoryx2-bb/container/src/byte_string.rs:612-625 | with a stateless closure, retain keeps every byte for which it is false with all its occurrences and none for which it is true |
| `ByteString.KeptIsFiltered` | iceoryx2-bb/container/src/byte_string.rs:612-625 | with a stateless closure, asking from the last byte to the first leaves the plain filter of the string |
| `ByteString.KeptForgets` | iceoryx2-bb/container/src/semantic_string.rs:302-314 | with a stateless closure the second pass of a semantic retain leaves exactly the contents that were checked in the first |
| `SemanticString.StatefulRetainBreaksRule` | iceoryx2-bb/container/src/semantic_string.rs:302-314 | counterexample: a closure with state passes the check on the copy and then leaves invalid contents behind |
| `ByteString.FixedSizeByteString.InsertBytes` | iceoryx2-bb/container/src/byte_string.rs:492-512 | splices the bytes in, or reports the overflow exactly when they do not fit and changes nothing |
| `ByteString.FixedSizeByteString.InsertBytesUnchecked` | iceoryx2-bb/container/src/byte_string.rs:522-539 | the overlapping copy and the write splice the bytes into the contents |
| `ByteString.FixedSizeByteString.CopyWithin` | iceoryx2-bb/container/src/byte_string.rs:525-531 | the overlapping block copy moves the old bytes and leaves the rest |
| `ByteString.FixedSizeByteString.RemoveRange` | iceoryx2-bb/container/src/byte_string.rs:589-609 | cuts the range out of the contents |
| `ByteString.FixedSizeByteString.RemovableIff` | iceoryx2-bb/container/src/byte_string.rs:589-609 | a removal inside the string stays in bounds if and only if not: the string is full and the range is empty or reaches its end |
| `ByteString.FixedSizeByteString.Remove` | iceoryx2-bb/container/src/byte_string.rs:575-586 | cuts one byte out and returns it |
| `ByteString.FixedSizeByteString.Retain` | iceoryx2-bb/container/src/byte_string.rs:612-625 | the backward loop of single removals computes the filter in order, for closures with state too, and hands back the closure after one call per byte |
| `ByteString.FixedSizeByteString.Find` | iceoryx2-bb/container/src/byte_string.rs:629-649 | the first match position, or no position matches |
| `ByteString.FixedSizeByteString.RFind` | iceoryx2-bb/container/src/byte_string.rs:653-673 | the last match position, or no position matches |
| `ByteString.FixedSizeByteString.StripPrefix` | iceoryx2-bb/container/src/byte_string.rs:677-685 | strips iff the contents start with the bytes |
| `ByteString.FixedSizeByteString.StripSuffix` | iceoryx2-bb/container/src/byte_string.rs:689-705 | strips iff the contents end with the bytes |
| `ByteString.FixedSizeByteString.Truncate` | iceoryx2-bb/container/src/byte_string.rs:708-717 | the prefix of the new length, or unchanged when shorter |
| `ByteString.FixedSizeByteString.Clone` | iceoryx2-bb/container/src/byte_string.rs:88-106 | an equal string in fresh memory |
| `ByteString.FixedSizeByteString.constructor` | iceoryx2-bb/container/src/byte_string.rs:316-324 | the empty string |
| `SemanticString.SemanticString.New` | iceoryx2-bb/container/src/semantic_string.rs:125-135 | a valid string with these bytes; each error exactly under its own condition |
| `SemanticString.SemanticString.NewEmpty` | iceoryx2-bb/container/src/semantic_string.rs:125-135 | the empty start value that New fills |
| `SemanticString.SemanticString.InsertBytes` | iceoryx2-bb/container/src/semantic_string.rs:213-228 | never leaves invalid contents: applied iff the result fits and is valid, else rolled back to the old contents |
| `SemanticString.SemanticString.Remove` | iceoryx2-bb/container/src/semantic_string.rs:272-283 | applied iff the result is valid, else unchanged; the removed byte is returned |
| `SemanticString.SemanticString.RemoveRange` | iceoryx2-bb/container/src/semantic_string.rs:287-298 | applied iff the result is valid, else unchanged |
| `SemanticString.SemanticString.Retain` | iceoryx2-bb/container/src/semantic_string.rs:302-314 | refused, with nothing changed, iff the first pass on a copy gives invalid contents; otherwise the contents are what the second pass keeps; valid after an error and for every stateless closure |
| `SemanticString.EveryRuleSurvivesIff` | iceoryx2-bb/container/src/semantic_string.rs:302-314 | for a given string and closure, no content rule can be broken if and only if the second pass repeats the first or removes nothing |
| `SemanticString.SemanticString.StripPrefix` | iceoryx2-bb/container/src/semantic_string.rs:319-336 | three answers, each exactly under its own condition; the string is untouched unless the stripped copy is valid |
| `SemanticString.SemanticString.StripSuffix` | iceoryx2-bb/container/src/semantic_string.rs:341-358 | three answers, each exactly under its own condition; the string is untouched unless the stripped copy is valid |
| `SemanticString.SemanticString.Truncate` | iceoryx2-bb/container/src/semantic_string.rs:361-373 | applied iff the result is valid, else unchanged |
| `NamedConcept.ExtractsExactlyItsFiles` | iceoryx2-cal/src/named_concept.rs:99-117 | extraction yields a name if and only if the file name is prefix, name and suffix put together |
| `NamedConcept.FileNamesAreUnique` | iceoryx2-cal/src/named_concept.rs:74-87 | different names give different file names |
| `NamedConcept.ExtractNameFromFile` | iceoryx2-cal/src/named_concept.rs:99-117 | the stripping method computes that extraction, the name it returns is valid, and none means that no name has this file |

## Left out

- Raw pointers, uninitialised memory and the relocatable and fixed-size wrapper types that forward to the modelled code.
- Capacity zero of the slot map, whose first insert is out of bounds, and keys equal to the capacity (see above).
- 64-bit wrap-around of the deadline queue's index counter. The class `MetaQueue` counts pushes without bound; the wrap-around
  of its counter is modelled on values in `QueueWrap`.
- Failing clocks, reactor errors other than already-attached and full, and signals beyond the termination flag.
- Callbacks that attach to or drop guards of the wait set they are called from; the endless loop of `wait_and_process`
  and the system default timeout, which only repeat the modelled pass.
- Memory orderings: atomic steps are sequentially consistent, a weak exchange may fail spuriously.
- UniqueIndexSet.RunKeepsInv: speaks of runs in which fewer than 65536 exchanges happen during any one acquire, because
  beyond that the property is false; `AcquireKeepsInvIff` says for which exchanges and `UniqueForEverIff` for which sets.
- UniqueIndexSet.StepKeepsInv: speaks of steps of the same runs, for the same reason.
- UniqueIndexSet.AcquiredIndexIsUnique: speaks of the same runs, for the same reason.
- Truncation to the 24-bit fields of the index set's head word: the capacities that its constructor admits keep every
  index and count below 2^24.
- PoolAllocator.PoolAllocator.Allocate: takes any free bucket, because which one the index set hands out is the subject of
  `UniqueIndexSet`; zero-filling variants and the pool's own memory size are not modelled.
- NamedConcept.ExtractNameFromFile: requires that stripping leaves valid contents, because the source panics otherwise;
  `path_for` is modelled on the file name only, without the path hint and length limits.
- Single-byte insert, push and pop, comparison, hashing, formatting, escaping, serialisation and `normalize` of strings:
  they only add easy members.
- Vectors, other lock-free containers, services, ports, publish-subscribe, discovery, the POSIX layer, configuration and
  the language bindings.
