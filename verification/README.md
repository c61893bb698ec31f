# SaferCPlusPlus: models and proofs

SaferCPlusPlus replaces unsafe C++ elements by checked ones. This project models the stateful core of that
library in Dafny and proves what the library is for: that its reentrant reader/writer mutex excludes whom it
should, that registered pointers never dangle, that vector iterators follow their elements, that type-erased
values are owned exactly once, and that its byte codecs and section splitters are exact.

`dafny verify dfyconfig.toml` checks everything.

## The parts

**The reentrant reader/writer mutex** (`MutexModel`, `MutexInvariant`, `MutexRefinement`, `MutexDeadlock`,
`MutexAnswers`, `ReentrantLockSpec`, `Mutex`). The mutex keeps its own book-keeping under a state mutex and lets
go of that mutex while it waits for the underlying `std::shared_timed_mutex`. The model is a state machine for
any number of threads. `MutexAnswers` says what every call answers and that its answer is true. One step is one
stretch between two acquisitions of the state mutex, and "has the underlying mutex, not yet the state mutex" is
a point of its own. Section 33.4.3.4 of ISO C++17 [thread.sharedmutex.requirements] gives the rules of the
underlying mutex; its `try_lock()` may fail spuriously. `Mutex` is the same thing as an object with methods that
update its fields, each tied to the state machine, with the source's debug assertions proved where they stand.

**Registered pointers** (`WeakStore`, `PointerLists`, `PointerRuns`, `RegisteredPointers`). Every object heads an
intrusive doubly linked list of the pointers that target it, in which a back link is the address of the slot that
points to the node. `WeakStore` is the simple thing this implements: a table of references that go null with their
target. `PointerRuns` has whole runs on the lists themselves; each method of `RegisteredPointers` makes exactly the
field updates that `PointerRuns.Perform` names.

**Tracked vector iterators** (`TrackedPositions`, `IteratorTables`, `IteratorRegistry`, `TrackedVector`). The
vector rewrites every live iterator in each structural operation. The iterators are found through a registry
that is a six-slot array at first and a hash map from the seventh iterator on.

**Type-erased values** (`AnyContents`, `Any`). `AnyContents` says which value each holder has after each
operation; `Any` has the vtables, the storage and the heap cells.

**Byte codecs** (`TwosComplement`, `ByteCodec`, `LegacyIo`). Bitwise operations on ints, with wrap-around where
an int is shifted into its sign bit, are arithmetic on integers. `LegacyIo.File` stands for the C library's
stream. A `Format` says how wide an element type is, whether it is signed, whether a temporary of it can be assigned
a `long long` (native integers cannot) and whether its construction checks the range (the library's own `TInt` does).

**Section splitters** (`Sections`). The two constructors that cut a container into consecutive sections.

`Options`, `MapSums` and `Sequences` are shared helpers.

## Where the code is not what its comments or assertions say

- The assertion at line 117 of mseasyncshared.h, that nobody writes when somebody reads, is false when another
  thread holds a write and a read lock. `ReadersAssertFailsIff` gives the exact condition. The model follows the
  code with assertions disabled.
- `lock_shared()` under the caller's own nonrecursive write lock is not reported as an error; it goes on to call
  `lock_shared()` on the underlying mutex, which its owner must not do. In the model that call waits for ever.
- `try_lock()` fails for a thread that holds a write and a read lock, although `lock()` would give that thread
  another write lock. `TriesSucceedIff` says that this is the only such case, and `TryLockRefusesWriterExample`
  reaches it.
- Erasing resets the iterators in the erased range and then shifts those behind the range by looking at the
  index only. A reset iterator whose new index falls into the shifted range is moved again and is no end marker
  any more. `StepConsistencyIff` gives the exact condition. In particular a single-element `erase()` through an
  iterator leaves that iterator inconsistent unless it stood on the last element.
- `fread()` divides the number of items read by the width of an element, as if items were bytes. With any `size`
  other than 1 it decodes too few elements. It also builds elements narrower than an int from a number that is never
  negative, and four-byte elements from one that may be, so a range-checked type refuses negative elements of one or
  two bytes and unsigned elements of four bytes with the top bit set. `ReadBackIsCompleteIff` gives the exact
  condition.
- `memset()` asks whether a temporary of the element type can be assigned a `long long`. For native integers it
  cannot, so they take the overload that asserts a zero value and returns the default element: with assertions
  disabled a native range is filled with zeros whatever the value. A range-checked type may refuse the element that
  the other overload makes. `FilledRangeIsOneByteIff` gives the exact condition.
- A moved-from `any` is documented as unspecified; the code leaves it empty, and the model says so.
- A splitter made with one index has no second section if that index is the end of the container.

## Model

| member | source | states |
|---|---|---|
| `MutexRefinement.RunRefines` | 3rd-parties/SaferCPlusPlus/mseasyncshared.h:105-684 | Any interleaved run of the untimed operations by any number of threads is a run of the simple reentrant reader/writer lock, and every state passed through satisfies that lock's exclusion rules. The abstract writer is the owner with its depth, except while it takes its shared lock back inside `unlock()` |
| `MutexRefinement.StepRefines` | 3rd-parties/SaferCPlusPlus/mseasyncshared.h:105-684 | One stretch of a call between two acquisitions of the state mutex does to the simple lock exactly what its outcome reports (acquired, released, or nothing); a first stretch of `unlock()` releases even if the call has to wait afterwards |
| `MutexInvariant.StepKeepsInv` | 3rd-parties/SaferCPlusPlus/mseasyncshared.h:105-684 | The full invariant linking the fields, the underlying mutex and the point every thread has reached is kept by every step of every thread |
| `MutexRefinement.ReachableStates` | 3rd-parties/SaferCPlusPlus/mseasyncshared.h:105-684 | In every reachable state the total read count is the sum of the read map, its values are at least 1, the nonrecursive flag implies depth 1 without readers or suspension, a set flag names a reader, every other reader holds the underlying shared lock exactly once, and a writer not inside `unlock()` holds it exclusively and is the only possible reader |
| `MutexInvariant.WriterExcludes` | 3rd-parties/SaferCPlusPlus/mseasyncshared.h:484-531 | A writer that is not inside `unlock()` holds the underlying mutex exclusively, nobody shares it, and no other thread reads |
| `MutexInvariant.AcquirerFindsNoWriter` | 3rd-parties/SaferCPlusPlus/mseasyncshared.h:141-159 | A thread that leaves the yield loop finds the write count 0 and no reader but possibly itself (the assertions at lines 157 and 380) |
| `MutexRefinement.TryLockFindsNoWriter` | 3rd-parties/SaferCPlusPlus/mseasyncshared.h:180-222 | A successful attempt on the underlying mutex, the caller's shared lock being given up if it has one, finds the write count 0 (the assertions at lines 218 and 410) |
| `MutexRefinement.UpgradeIsAtomic` | 3rd-parties/SaferCPlusPlus/mseasyncshared.h:131-159 | From a thread's first read lock to its last `unlock_shared()`, suspension of its shared lock included, no other thread is ever the writer and none takes the write count from 0 |
| `MutexRefinement.UpgradeSeesWhatItRead` | 3rd-parties/SaferCPlusPlus/mseasyncshared.h:131-159 | Data changed only under a write lock is the same when a reader's upgrade completes as it was when it first read |
| `MutexRefinement.SuspensionLasts` | 3rd-parties/SaferCPlusPlus/mseasyncshared.h:331-342 | Over any part of a run in which the suspended reader itself does nothing, no other thread overwrites the recorded id or clears the flag |
| `MutexRefinement.LockThrowsIff` | 3rd-parties/SaferCPlusPlus/mseasyncshared.h:109-130 | `lock()` throws exactly if the caller holds the nonrecursive write lock, or reads while another reader is inside an upgrade or downgrade |
| `MutexRefinement.CallErrorsExact` | 3rd-parties/SaferCPlusPlus/mseasyncshared.h:314-672 | `unlock()`, `nonrecursive_unlock()`, `nonrecursive_lock()` and `unlock_shared()` throw, each with its own error, exactly if the simple lock says the caller does not hold, or already holds, what the call needs; a stale owner id never misleads them |
| `MutexRefinement.FailedCallsChangeNothing` | 3rd-parties/SaferCPlusPlus/mseasyncshared.h:105-672 | A call that throws, or that returns false at once, leaves the whole state unchanged |
| `MutexRefinement.AllowedLockIsGranted` | 3rd-parties/SaferCPlusPlus/mseasyncshared.h:105-160 | With no other call under way, `lock()` completes whenever the simple lock allows it, upgrades and recursion included, and makes the caller the writer |
| `MutexRefinement.AllowedNonrecLockIsGranted` | 3rd-parties/SaferCPlusPlus/mseasyncshared.h:347-384 | The same for `nonrecursive_lock()` |
| `MutexRefinement.AllowedReadIsGranted` | 3rd-parties/SaferCPlusPlus/mseasyncshared.h:484-531 | The same for `lock_shared()`, under the caller's own write lock included |
| `MutexRefinement.TriesSucceedIff` | 3rd-parties/SaferCPlusPlus/mseasyncshared.h:162-582 | With no other call under way and no spurious failure, the try functions succeed exactly if the simple lock allows it, except that `try_lock()` fails for a thread that holds a write and a read lock |
| `MutexRefinement.LastUnlockIsGranted` | 3rd-parties/SaferCPlusPlus/mseasyncshared.h:314-345 | With no other call under way, the last `unlock()` completes and leaves exactly the read locks; a downgraded thread holds its shared lock again |
| `MutexAnswers.CallDoesWhatItAnswers` | 3rd-parties/SaferCPlusPlus/mseasyncshared.h:105-672 | Over any run: between a call and its answer, whatever other threads do meanwhile, the caller's own read and write depth and exclusiveness change exactly as the call and its answer say. No call gives an answer it cannot give; one that has waited ends with success, and a `try_lock()` that has waited with false |
| `MutexAnswers.WaitedLockIsAsAsked` | 3rd-parties/SaferCPlusPlus/mseasyncshared.h:141-159 | A `lock()` or `nonrecursive_lock()` that had to wait, however often it yielded, ends with the caller as writer with depth 1, exclusively exactly for `nonrecursive_lock()` |
| `MutexAnswers.ResumeAnswer` | 3rd-parties/SaferCPlusPlus/mseasyncshared.h:142-214 | After waiting, a locking call yields exactly to another reader's upgrade and then waits for the same thing again; otherwise it gets what it asked for. A failed `try_lock()` answers false, and `unlock()` and `lock_shared()` complete |
| `MutexAnswers.StepKeepsCall` | 3rd-parties/SaferCPlusPlus/mseasyncshared.h:105-672 | A thread stays in its call until it gets an answer, and other threads do not move it |
| `MutexAnswers.LockAnswer` | 3rd-parties/SaferCPlusPlus/mseasyncshared.h:105-146 | In every state: at once for a recursive writer, an error for an exclusive writer or for a reader while another reader upgrades, and otherwise it waits with nothing changed |
| `MutexAnswers.NonrecLockAnswer` | 3rd-parties/SaferCPlusPlus/mseasyncshared.h:347-369 | In every state: an error exactly if the caller holds any lock, and otherwise it waits with nothing changed |
| `MutexAnswers.UnlockAnswer` | 3rd-parties/SaferCPlusPlus/mseasyncshared.h:314-345 | In every state: an error exactly if the caller is not the recursive writer; it waits exactly if the last write lock goes and the caller still reads |
| `MutexAnswers.NonrecUnlockAnswer` | 3rd-parties/SaferCPlusPlus/mseasyncshared.h:468-482 | In every state: done exactly for the exclusive writer |
| `MutexAnswers.LockSharedAnswer` | 3rd-parties/SaferCPlusPlus/mseasyncshared.h:484-512 | In every state: it never fails; it is granted at once exactly if the caller reads or is a recursive writer, and otherwise it waits with nothing changed |
| `MutexAnswers.UnlockSharedAnswer` | 3rd-parties/SaferCPlusPlus/mseasyncshared.h:645-672 | In every state: done exactly if the caller reads |
| `MutexAnswers.TryLockAnswer` | 3rd-parties/SaferCPlusPlus/mseasyncshared.h:162-225 | In every state, for every answer of the underlying mutex: true, false or a wait for the shared lock given up, in terms of who holds and upgrades what |
| `MutexAnswers.TryNonrecAnswer` | 3rd-parties/SaferCPlusPlus/mseasyncshared.h:386-416 | In every state: true exactly if the caller does not read and nobody else reads, writes, upgrades or is about to |
| `MutexAnswers.TrySharedAnswer` | 3rd-parties/SaferCPlusPlus/mseasyncshared.h:533-582 | In every state: true exactly if the caller reads or is a recursive writer, or nobody writes or is about to |
| `MutexDeadlock.StepKeepsNoHoldAndWaitIff` | 3rd-parties/SaferCPlusPlus/mseasyncshared.h:484-512 | A step makes a blocked thread hold the underlying mutex exactly if it is `lock_shared()` under the caller's own nonrecursive write lock |
| `MutexDeadlock.DisciplinedRunsNeverHoldAndWait` | 3rd-parties/SaferCPlusPlus/mseasyncshared.h:116-146 | In any run without that call no blocked thread ever holds the underlying mutex in any mode |
| `MutexDeadlock.SelfDeadlockIsForever` | 3rd-parties/SaferCPlusPlus/mseasyncshared.h:507-512 | The excluded call, read as waiting until the underlying lock can be granted, blocks its thread for good, whatever the other threads do |
| `MutexDeadlock.SelfDeadlockExample` | 3rd-parties/SaferCPlusPlus/mseasyncshared.h:507-512 | A run that reaches the self-deadlock |
| `MutexDeadlock.OneUpgradeAtATime` | 3rd-parties/SaferCPlusPlus/mseasyncshared.h:122-137 | Two readers never both wait inside an upgrade or a downgrade |
| `MutexDeadlock.BlockedThreadsWaitForSomeone` | 3rd-parties/SaferCPlusPlus/mseasyncshared.h:142-146 | Whenever a thread is blocked, its acquisition is enabled or a thread that is not blocked holds the underlying mutex |
| `MutexDeadlock.CallsProgress` | 3rd-parties/SaferCPlusPlus/mseasyncshared.h:142-155 | As long as no thread sits outside a call with a lock in its hands, some call under way can take a step |
| `MutexDeadlock.ReadersAssertFailsIff` | 3rd-parties/SaferCPlusPlus/mseasyncshared.h:116-117 | The debug assertion at line 117 fails exactly if another thread holds a write and a read lock at once |
| `MutexDeadlock.ReadersAssertFailsExample` | 3rd-parties/SaferCPlusPlus/mseasyncshared.h:116-117 | A run in which that assertion fails |
| `MutexDeadlock.TryLockRefusesWriterExample` | 3rd-parties/SaferCPlusPlus/mseasyncshared.h:167-169 | A run that ends where `try_lock()` refuses a thread the write lock that `lock()` gives it at once |
| `ReentrantLockSpec.SpecStepKeepsSafe` | 3rd-parties/SaferCPlusPlus/mseasyncshared.h:98-100 | The simple lock's own steps keep its exclusion rules |
| `Mutex.RecursiveSharedTimedMutex.LockBegin` | 3rd-parties/SaferCPlusPlus/mseasyncshared.h:105-146 | First stretch of `lock()`: new state and outcome are those of the state machine, the invariant is kept, and the assertions at lines 121 and 141 hold |
| `Mutex.RecursiveSharedTimedMutex.LockContinue` | 3rd-parties/SaferCPlusPlus/mseasyncshared.h:147-159 | The stretch after the unlock guard, of `lock()` and `nonrecursive_lock()`: yields to a suspended reader or completes |
| `Mutex.RecursiveSharedTimedMutex.BaseCallReturns` | 3rd-parties/SaferCPlusPlus/mseasyncshared.h:142-146 | The return of a blocked call on the underlying mutex, before the state mutex is taken back |
| `Mutex.RecursiveSharedTimedMutex.TryLockBegin` | 3rd-parties/SaferCPlusPlus/mseasyncshared.h:162-225 | `try_lock()` up to the unlock guard, with its assertions |
| `Mutex.RecursiveSharedTimedMutex.TryLockContinue` | 3rd-parties/SaferCPlusPlus/mseasyncshared.h:207-214 | A failed upgrade attempt after it has its shared lock back |
| `Mutex.RecursiveSharedTimedMutex.UnlockBegin` | 3rd-parties/SaferCPlusPlus/mseasyncshared.h:314-345 | `unlock()` up to the unlock guard, errors included |
| `Mutex.RecursiveSharedTimedMutex.UnlockContinue` | 3rd-parties/SaferCPlusPlus/mseasyncshared.h:338-344 | `unlock()` after the suspended shared lock is back |
| `Mutex.RecursiveSharedTimedMutex.NonrecursiveLockBegin` | 3rd-parties/SaferCPlusPlus/mseasyncshared.h:347-369 | `nonrecursive_lock()` up to the unlock guard |
| `Mutex.RecursiveSharedTimedMutex.TryNonrecursiveLock` | 3rd-parties/SaferCPlusPlus/mseasyncshared.h:386-416 | `try_nonrecursive_lock()` |
| `Mutex.RecursiveSharedTimedMutex.NonrecursiveUnlock` | 3rd-parties/SaferCPlusPlus/mseasyncshared.h:468-482 | `nonrecursive_unlock()`, with the assertion that there are no readers |
| `Mutex.RecursiveSharedTimedMutex.LockSharedBegin` | 3rd-parties/SaferCPlusPlus/mseasyncshared.h:484-512 | `lock_shared()` up to the unlock guard |
| `Mutex.RecursiveSharedTimedMutex.LockSharedContinue` | 3rd-parties/SaferCPlusPlus/mseasyncshared.h:513-530 | `lock_shared()` after the underlying shared lock is held |
| `Mutex.RecursiveSharedTimedMutex.TryLockSharedBegin` | 3rd-parties/SaferCPlusPlus/mseasyncshared.h:533-582 | `try_lock_shared()` |
| `Mutex.RecursiveSharedTimedMutex.UnlockSharedBegin` | 3rd-parties/SaferCPlusPlus/mseasyncshared.h:645-672 | `unlock_shared()`, unpaired calls included |
| `PointerRuns.HeapRunIsSafe` | 3rd-parties/SaferCPlusPlus/msecregistered.h:254-286 | In every heap that a run of creating, copying, assigning and destroying pointers and objects reaches, the lists are exact, every non-null pointer targets a live object, and any operation that may come next goes through: no dead link is followed and the destructor's loop ends |
| `PointerRuns.HeapRunRefines` | 3rd-parties/SaferCPlusPlus/msecregistered.h:254-286 | What the heaps of such a run mean is a run of the table of references that go null with their target |
| `PointerRuns.HeapIsHistory` | 3rd-parties/SaferCPlusPlus/msecregistered.h:254-286 | What a run from the empty heap has come to: there are the objects and pointers whose last making was not followed by their end, and each pointer is at the object that its value goes back to through copies and assignments, unless that was destroyed since |
| `PointerRuns.PerformKeepsLists` | 3rd-parties/SaferCPlusPlus/msecregistered.h:625-652 | Each operation, as the field updates it makes, keeps every list exact and changes the table of targets as it should |
| `WeakStore.NeverDangling` | 3rd-parties/SaferCPlusPlus/msecregistered.h:602-604 | The same of the table alone, from any table without dangling targets |
| `PointerRuns.NodeTargetOverRun` | 3rd-parties/SaferCPlusPlus/msecregistered.h:602-604 | A pointer that is left alone targets the same object until that object is destroyed, and nothing from then on, in every heap of a run |
| `WeakStore.TargetIsOrigin` | 3rd-parties/SaferCPlusPlus/msecregistered.h:260-286 | The same of the table: a target is what the last operation that gave one gave, followed back through copies and assignments |
| `WeakStore.StoreIsHistory` | 3rd-parties/SaferCPlusPlus/msecregistered.h:602-604 | The objects and pointers in the table are those made and not ended since |
| `PointerRuns.EmptyHeapIsSound` | 3rd-parties/SaferCPlusPlus/msecregistered.h:654-655 | The heap in which runs start |
| `PointerLists.ListIsExact` | 3rd-parties/SaferCPlusPlus/msecregistered.h:625-655 | Every object's list holds exactly the live pointers that target it, once each |
| `PointerLists.WalkFollowsList` | 3rd-parties/SaferCPlusPlus/msecregistered.h:643-652 | Following the links from the head slot passes the list in order and ends: the chain has no cycle |
| `PointerLists.BackLinkIsTheSlot` | 3rd-parties/SaferCPlusPlus/msecregistered.h:247-249 | A pointer's back link is the one slot, head or next field, that points to it |
| `PointerLists.RegisterKeepsLists` | 3rd-parties/SaferCPlusPlus/msecregistered.h:625-632 | Linking in front keeps every list of every object exact and changes no target |
| `PointerLists.UnregisterKeepsLists` | 3rd-parties/SaferCPlusPlus/msecregistered.h:633-641 | Unlinking from any position removes just that pointer from just its list, and every other list stays exact |
| `PointerLists.DestroyKeepsLists` | 3rd-parties/SaferCPlusPlus/msecregistered.h:602-604 | Destroying an object makes exactly its pointers null and leaves every other pointer and list as it was |
| `RegisteredPointers.RegisteredObj.RegisterPointer` | 3rd-parties/SaferCPlusPlus/msecregistered.h:625-632 | The method's heap after it is exact again, with the pointer first in its target's list |
| `RegisteredPointers.RegisteredObj.ClearList` | 3rd-parties/SaferCPlusPlus/msecregistered.h:643-652 | The destructor's loop ends and clears exactly the nodes of its list |
| `RegisteredPointers.RegisteredObj.Destroy` | 3rd-parties/SaferCPlusPlus/msecregistered.h:602-604 | The destructor: exactly the pointers that targeted the object are null afterwards, and no dead object is referred to |
| `RegisteredPointers.RegisteredPointer.ToObject` | 3rd-parties/SaferCPlusPlus/msecregistered.h:315-319 | A pointer made from an object targets it and is registered in front of its list |
| `RegisteredPointers.RegisteredPointer.Copy` | 3rd-parties/SaferCPlusPlus/msecregistered.h:260-264 | The copy constructor: the copy targets what its source targets, null included |
| `RegisteredPointers.RegisteredPointer.Null` | 3rd-parties/SaferCPlusPlus/msecregistered.h:259-271 | A null pointer is on no list |
| `RegisteredPointers.RegisteredPointer.UnregisterPointer` | 3rd-parties/SaferCPlusPlus/msecregistered.h:633-641 | Removes the pointer from wherever it stands; the order of the rest stays |
| `RegisteredPointers.RegisteredPointer.Assign` | 3rd-parties/SaferCPlusPlus/msecregistered.h:277-286 | Assignment, self-assignment included: the pointer then targets what the right side targeted, and only this pointer's target changes |
| `RegisteredPointers.RegisteredPointer.Destroy` | 3rd-parties/SaferCPlusPlus/msecregistered.h:272-276 | A pointer's destructor |
| `RegisteredPointers.RegisteredPointer.DeleteTarget` | 3rd-parties/SaferCPlusPlus/msecregistered.h:305-309 | Deleting through a pointer leaves it null (the assertion at line 308) along with every other pointer to that object |
| `TrackedPositions.IteratorFollowsElement` | 3rd-parties/SaferCPlusPlus/msemsevector.h:3629-4053 | Over any run of insertions, erasures, resizes and replacements, an iterator that is not itself moved keeps denoting its element for as long as the element is in the vector |
| `TrackedPositions.EndMarkerStays` | 3rd-parties/SaferCPlusPlus/msemsevector.h:3629-4053 | An end marker stays the end marker over any run |
| `TrackedPositions.InsertedIs` | 3rd-parties/SaferCPlusPlus/msemsevector.h:3757-3850 | An insertion element by element and iterator by iterator: everything from the position on moves up by the number of new elements |
| `TrackedPositions.ErasedIs` | 3rd-parties/SaferCPlusPlus/msemsevector.h:3977-4047 | An erasure element by element and iterator by iterator, iterators in the erased range included |
| `TrackedPositions.StepConsistencyIff` | 3rd-parties/SaferCPlusPlus/msemsevector.h:3977-4047 | An operation keeps every flag in agreement with its index if and only if it is not an erase that covers an iterator's slot and leaves behind the range at least as many elements as it removes |
| `TrackedPositions.ConsistencyOverRuns` | 3rd-parties/SaferCPlusPlus/msemsevector.h:3977-4047 | Flags and indexes agree in every run whose erases are of the harmless kind |
| `TrackedPositions.ErasedIteratorIsEndMarkerIff` | 3rd-parties/SaferCPlusPlus/msemsevector.h:3998-4001 | An iterator in the erased range ends up as an end marker exactly if fewer elements survive behind the range than were erased; otherwise the second pass moves it again |
| `TrackedPositions.EraseBreaksIteratorExample` | 3rd-parties/SaferCPlusPlus/msemsevector.h:3998-4001 | Three elements, first one erased: the iterator at it stands on the last element while its flag denies it |
| `TrackedPositions.NavigationKeepsConsistency` | 3rd-parties/SaferCPlusPlus/msemsevector.h:4431-4481 | Navigation keeps iterators consistent; stepping by one is advancing by one; advancing repairs an inconsistent iterator |
| `TrackedPositions.NavigationMeans` | 3rd-parties/SaferCPlusPlus/msemsevector.h:4431-4481 | Where each navigation leads from any position, and exactly when it fails |
| `IteratorTables.TableWithout` | 3rd-parties/SaferCPlusPlus/msemsevector.h:4769-4771 | Closing the gap in the six-slot array forgets the removed key and nothing else |
| `IteratorTables.TableAppend` | 3rd-parties/SaferCPlusPlus/msemsevector.h:4740-4743 | Filling the next slot of the array adds one entry |
| `IteratorRegistry.IteratorTable.Store` | 3rd-parties/SaferCPlusPlus/msemsevector.h:4725-4744 | Adding an entry in either mode, and the switch from the array to the hash map with the seventh, which loses nothing |
| `IteratorRegistry.IteratorTable.Remove` | 3rd-parties/SaferCPlusPlus/msemsevector.h:4747-4778 | Removing removes exactly its key in either mode and fails exactly if there is none |
| `IteratorRegistry.IteratorTable.ApplyToAll` | 3rd-parties/SaferCPlusPlus/msemsevector.h:4648-4673 | In either mode every live iterator gets the update once; it stops early only at an iterator that does not admit it |
| `IteratorRegistry.IteratorSet.AllocateMut` | 3rd-parties/SaferCPlusPlus/msemsevector.h:4780-4807 | A new iterator at the beginning, under a key that no live iterator of either kind has |
| `IteratorRegistry.IteratorSet.AllocateConst` | 3rd-parties/SaferCPlusPlus/msemsevector.h:4719-4746 | The same for const iterators |
| `IteratorRegistry.IteratorSet.ReleaseMut` | 3rd-parties/SaferCPlusPlus/msemsevector.h:4808-4839 | Releasing forgets one iterator and leaves the others where they are |
| `IteratorRegistry.IteratorSet.ReleaseConst` | 3rd-parties/SaferCPlusPlus/msemsevector.h:4747-4778 | The same for const iterators |
| `IteratorRegistry.IteratorSet.IsEmpty` | 3rd-parties/SaferCPlusPlus/msemsevector.h:4695-4717 | True exactly if no iterator of either kind is live |
| `IteratorRegistry.IteratorSet.DuplicateConst` | 3rd-parties/SaferCPlusPlus/msemsevector.h:4935-4939 | The copy of a client's iterator stands where the original does |
| `IteratorRegistry.VectorIterator.ShiftInclusiveRange` | 3rd-parties/SaferCPlusPlus/msemsevector.h:4561-4572 | Shifts an iterator in range, or fails without change if it would leave the vector |
| `IteratorRegistry.VectorIterator.MoveToNext` | 3rd-parties/SaferCPlusPlus/msemsevector.h:4442-4453 | Stepping forward, failing exactly where the flag is clear |
| `IteratorRegistry.VectorIterator.MoveToPrevious` | 3rd-parties/SaferCPlusPlus/msemsevector.h:4454-4462 | Stepping back, failing exactly at the beginning |
| `IteratorRegistry.VectorIterator.MoveBy` | 3rd-parties/SaferCPlusPlus/msemsevector.h:4467-4481 | Advancing, failing exactly if the target is outside the vector |
| `TrackedVector.TrackedVector.PushBack` | 3rd-parties/SaferCPlusPlus/msemsevector.h:3670-3711 | `push_back()` and `emplace_back()`: elements and all iterators change as an insertion at the end |
| `TrackedVector.TrackedVector.PopBack` | 3rd-parties/SaferCPlusPlus/msemsevector.h:3712-3734 | `pop_back()`: fails exactly on an empty vector, otherwise erases the last element |
| `TrackedVector.TrackedVector.Resize` | 3rd-parties/SaferCPlusPlus/msemsevector.h:3629-3647 | `resize()`: the size is the one asked for, elements and iterators below both sizes stay as they are, every new element is the given one, and all other iterators are end markers |
| `TrackedVector.TrackedVector.Insert` | 3rd-parties/SaferCPlusPlus/msemsevector.h:3757-3850 | `insert()`: fails exactly on a bad position; no exception comes out of the passes over the iterators |
| `TrackedVector.TrackedVector.Erase` | 3rd-parties/SaferCPlusPlus/msemsevector.h:3977-4009 | `erase()` of one element |
| `TrackedVector.TrackedVector.EraseRange` | 3rd-parties/SaferCPlusPlus/msemsevector.h:4010-4047 | `erase()` of a range, with its refusal of an empty range at the end |
| `TrackedVector.TrackedVector.Assign` | 3rd-parties/SaferCPlusPlus/msemsevector.h:3735-3740 | `assign()` and `clear()`: every iterator becomes the end marker |
| `TrackedVector.TrackedVector.InsertBefore` | 3rd-parties/SaferCPlusPlus/msemsevector.h:5164-5198 | `insert_before()` through a client's iterator returns a new iterator at the position's old index |
| `TrackedVector.InsertBeforeMeaning` | 3rd-parties/SaferCPlusPlus/msemsevector.h:5164-5198 | The returned iterator denotes the first new element, the position argument still denotes its own, and all else is an insertion at that position |
| `TrackedVector.TrackedVector.EraseItem` | 3rd-parties/SaferCPlusPlus/msemsevector.h:5270-5277 | `erase()` through a client's iterator: fails exactly at the end of the vector; its saved successor is tracked through the erasure |
| `TrackedVector.EraseItemMeaning` | 3rd-parties/SaferCPlusPlus/msemsevector.h:5270-5277 | The returned iterator denotes what followed the erased element; the position argument is left inconsistent unless its element was the last; all else is the erasure of that one element |
| `Any.EveryCellHasOneOwner` | 3rd-parties/SaferCPlusPlus/mseany.h:62-90 | In every valid state allocated cells and holders of allocated values correspond one to one; when all holders are gone, no cell is left |
| `Any.Any.Swap` | 3rd-parties/SaferCPlusPlus/mseany.h:162-189 | `swap()` exchanges the two values in every empty, non-empty, same-type, different-type and self-aliased case and keeps ownership exact |
| `Any.Any.TakeFrom` | 3rd-parties/SaferCPlusPlus/mseany.h:168-182 | Taking over another holder's type and storage transfers the ownership of its cell |
| `Any.Any.Copy` | 3rd-parties/SaferCPlusPlus/mseany.h:70-77 | Copying gives an equal value in a cell of its own |
| `Any.Any.Move` | 3rd-parties/SaferCPlusPlus/mseany.h:81-89 | Moving transfers the value and leaves the source empty |
| `Any.Any.Hold` | 3rd-parties/SaferCPlusPlus/mseany.h:401-420 | Construction from a value, allocated or in place as the type requires |
| `Any.Any.DestroyStorage` | 3rd-parties/SaferCPlusPlus/mseany.h:252-256 | Deleting requires a cell that is still allocated, so no cell is deleted twice |
| `Any.Any.Clear` | 3rd-parties/SaferCPlusPlus/mseany.h:150-157 | Clearing leaves the holder empty and deletes its cell |
| `Any.Any.Destroy` | 3rd-parties/SaferCPlusPlus/mseany.h:92-96 | The destructor |
| `Any.Any.AssignCopy` | 3rd-parties/SaferCPlusPlus/mseany.h:110-114 | Copy assignment through a temporary, self-assignment included |
| `Any.Any.AssignMove` | 3rd-parties/SaferCPlusPlus/mseany.h:120-124 | Move assignment through a temporary: the value moves, self-assignment keeps it |
| `Any.Any.AssignValue` | 3rd-parties/SaferCPlusPlus/mseany.h:131-137 | Assignment of a value through a temporary |
| `AnyContents.StepBalance` | 3rd-parties/SaferCPlusPlus/mseany.h:62-189 | How many holders have a given value after an operation, exactly: moves and swaps keep the number, copies and constructions add one, clearing and overwriting take one away |
| `AnyContents.MovesConserve` | 3rd-parties/SaferCPlusPlus/mseany.h:81-189 | A run of moves, swaps and self-move-assignments duplicates no value and loses none |
| `AnyContents.ContentsAreHistory` | 3rd-parties/SaferCPlusPlus/mseany.h:62-189 | After any run from nothing, every holder has the value that was put somewhere and has come to it through copies, moves and exchanges, and is empty if its last value was moved away or cleared |
| `LegacyIo.DecodeElement` | 3rd-parties/SaferCPlusPlus/mselegacyhelpers.h:735-743 | The or-loop of `fread()`, with its shift into the sign bit of an int, and the construction of the element, which a range-checked type may refuse |
| `LegacyIo.EncodeElement` | 3rd-parties/SaferCPlusPlus/mselegacyhelpers.h:771-775 | The shift-and-mask loop of `fwrite()` writes the big-endian bytes of the element and nothing else |
| `LegacyIo.FRead` | 3rd-parties/SaferCPlusPlus/mselegacyhelpers.h:724-751 | `fread()`: result or range error, position and every element of the range, decoded or unchanged |
| `LegacyIo.FWrite` | 3rd-parties/SaferCPlusPlus/mselegacyhelpers.h:754-782 | `fwrite()`: result and the exact bytes, with zeros after the last whole element |
| `LegacyIo.WrittenBytes` | 3rd-parties/SaferCPlusPlus/mselegacyhelpers.h:763-777 | What `fwrite()` puts out, byte by byte |
| `LegacyIo.ByteOfEncode` | 3rd-parties/SaferCPlusPlus/mselegacyhelpers.h:774 | The byte at an index is the one the shift selects |
| `ByteCodec.BytesCompareAsNumbers` | 3rd-parties/SaferCPlusPlus/mselegacyhelpers.h:739 | The most significant byte comes first: byte groups compare as their numbers do |
| `ByteCodec.DecodeIs` | 3rd-parties/SaferCPlusPlus/mselegacyhelpers.h:735-743 | Decoding succeeds exactly if the type is unchecked, or signed and as wide as an int, or narrower and unsigned, or the top bit is clear; and with which element |
| `ByteCodec.DecodeEncode` | 3rd-parties/SaferCPlusPlus/mselegacyhelpers.h:738-743 | Decoding the encoding of an element returns it, or refuses it exactly under that condition |
| `ByteCodec.EncodeDecode` | 3rd-parties/SaferCPlusPlus/mselegacyhelpers.h:771-775 | Encoding what any bytes were decoded to returns them, so elements and byte groups correspond one to one |
| `ByteCodec.RoundTrip` | 3rd-parties/SaferCPlusPlus/mselegacyhelpers.h:724-782 | Sequences of any length come back up to the first element that its type refuses; native integers always come back |
| `LegacyIo.ReadBackIsCompleteIff` | 3rd-parties/SaferCPlusPlus/mselegacyhelpers.h:724-751 | Reading with the same arguments what was written returns all of it if and only if `size` is 1 or nothing was written, and the type refuses none of the elements |
| `LegacyIo.ReadBackIsPrefix` | 3rd-parties/SaferCPlusPlus/mselegacyhelpers.h:724-751 | In every other case it stores a prefix, whose length is given |
| `LegacyIo.ShortReadIsPrefix` | 3rd-parties/SaferCPlusPlus/mselegacyhelpers.h:724-751 | From a file that ends early, the elements are stored that are complete and come before the first that is refused |
| `LegacyIo.CompleteItems` | 3rd-parties/SaferCPlusPlus/mselegacyhelpers.h:729 | The items counted are as many as were asked for or as fit in the bytes that are there |
| `LegacyIo.ReadByElementSizeExample` | 3rd-parties/SaferCPlusPlus/mselegacyhelpers.h:729-730 | Four four-byte integers written and read with `size` 4: one comes back |
| `LegacyIo.RefusedElementExample` | 3rd-parties/SaferCPlusPlus/mseprimitives.h:297-334 | A negative native two-byte integer comes back; a range-checked one is refused |
| `LegacyIo.AdjustedFill` | 3rd-parties/SaferCPlusPlus/mselegacyhelpers.h:870-883 | The or-loop of the overload for assignable types builds the element all of whose bytes are the low byte of the argument, or the type refuses it |
| `LegacyIo.MemsetValue` | 3rd-parties/SaferCPlusPlus/mselegacyhelpers.h:870-896 | The choice between the two overloads, the second of which returns the default element |
| `LegacyIo.Memset` | 3rd-parties/SaferCPlusPlus/mselegacyhelpers.h:893-902 | `memset()` sets exactly the whole elements in the given number of bytes, or fails before the first; all others stay |
| `LegacyIo.FilledRangeIsOneByteIff` | 3rd-parties/SaferCPlusPlus/mselegacyhelpers.h:763-777 | `memset()` succeeds and writing the filled range puts out only the byte it was filled with, whatever follows the range, if and only if: for assignable types, the type is unchecked, or signed and as wide as an int, or narrower and unsigned, or the byte is below 128; for all others, native integers among them, the byte is 0 or the range is empty |
| `LegacyIo.FillExamples` | 3rd-parties/SaferCPlusPlus/mselegacyhelpers.h:885-891 | Filling a native int with ones leaves a zero, which is what is then written; a range-checked two-byte integer cannot be filled with 0xff |
| `TwosComplement.OrDisjoint` | 3rd-parties/SaferCPlusPlus/mselegacyhelpers.h:739-741 | Bitwise or of numbers without a common bit, negative ones included, adds them |
| `TwosComplement.OrBits` | 3rd-parties/SaferCPlusPlus/mselegacyhelpers.h:740 | Bitwise or, bit by bit, of any two numbers |
| `Sections.Splitter.Construct` | 3rd-parties/SaferCPlusPlus/mseasyncshared.h:2516-2538 | The splitter's loop yields the sections at prefix-sum offsets and the remainder, and fails exactly if a size is negative |
| `Sections.ScopedSplitter.Construct` | 3rd-parties/SaferCPlusPlus/mseasyncshared.h:2437-2463 | The scoped splitter yields the same sections in both of its maps, numbered from 0 |
| `Sections.SplitCoversOnce` | 3rd-parties/SaferCPlusPlus/mseasyncshared.h:2516-2538 | Every index of the container lies in exactly one section, whatever the sizes; indexes beyond it only if the sizes add up to more |
| `Sections.SectionsAreDisjoint` | 3rd-parties/SaferCPlusPlus/mseasyncshared.h:2516-2538 | No index lies in two sections |
| `Sections.SectionsFitIff` | 3rd-parties/SaferCPlusPlus/mseasyncshared.h:2516-2538 | The sections stay inside the container if and only if the sizes do not add up to more than it has |
| `Sections.SectionsJoinToWhole` | 3rd-parties/SaferCPlusPlus/mseasyncshared.h:2516-2538 | The elements of the sections, one after the other, are the container's |
| `Sections.SectionsAsAsked` | 3rd-parties/SaferCPlusPlus/mseasyncshared.h:2533-2538 | Every size asked for is met, and there is one more section exactly if the sizes add up to less than the container has |
| `Sections.SplitAtIndex` | 3rd-parties/SaferCPlusPlus/mseasyncshared.h:2540-2541 | Splitting at one index gives a second section exactly if the index is before the end |

## Left out

- The timed operations of the mutex: they depend on a clock, and their yield branches let go of the underlying
  lock without asking whether they got it.
- Starvation: the yield loop can spin, and no fairness is claimed.
- Exceptions from map insertion and memory allocation, and from copying or moving a held value.
- Overflow of the lock counters, of the iterator keys and of sums and products of sizes; counts are unbounded
  integers.
- The granularity of the mutex model: a stretch under the state mutex is one step, because `std::mutex` makes it
  one; the state mutex itself and the waiting for it are not modelled.
- Mutex.RecursiveSharedTimedMutex.TryLockSharedBegin: under the caller's own nonrecursive write lock the call on the
  underlying mutex is undefined by the standard; the model lets it fail.
- MutexDeadlock.SelfDeadlockIsForever: `lock_shared()` on the underlying mutex by the thread that owns it is undefined
  by the standard as well; that it blocks for good is the model's reading.
- MutexDeadlock.CallsProgress: says that some call can take a step, not that every call returns.
- `msevector`: swap, move assignment, range erase through two client iterators, `release_all`, and the guards on
  structure changes. Swap and move assignment leave the other vector's iterators alone, and the range erase steps
  past its end iterator.
- IteratorRegistry.VectorIterator.MoveToNext: the iterator gets the size of its vector as a parameter instead of
  asking its owner, and iterators of different vectors are not mixed; the same goes for the other navigation methods.
- TrackedVector.TrackedVector.Insert: where the vector has no iterators the original does not check the position, and
  neither does the model, which asks for a good one in that case; the same goes for the erasures and `pop_back()`.
- Polymorphic and const conversions of registered pointers, and the registry of allocated objects.
- `any_cast`: clients cannot reach into a held value and change it in place; values are taken as they were put in.
- The file is a sequence of bytes; errors and short writes of the C library are not modelled.
- LegacyIo.Memset: through a pointer without a subscript operator the original sets one element whatever the number
  of bytes; only ranges are modelled.
- The width of an element is that of its value; builds that check for use before initialization make the library's
  integer classes wider.
- `fread`, `fwrite` and `memset` on eight-byte elements, whose shifts are done in an int in the original.
- Access requesters and leases of the splitters; a section is its start and its length.
