# cbase concurrency core, modelled in Dafny

This project models the concurrency core of the `cbase` C++ utility library and proves properties of the model. The core has six parts:

- **`lockfree_queue`**: an in-process bounded ring queue. Its head and tail counters only grow, and each slot carries a readiness flag.
- **`SharedLockFreeQueue`**: the same ring, laid out inside a shared memory segment. A reader gives up on a slot that a crashed writer never published and reports it as dropped.
- **`concurrent_queue`**: a FIFO behind a mutex and a condition variable, with blocking and timed `pop`.
- **`rw_spin_lock`** and its scoped guards: a reader/writer spin lock packed into one `uint32` flag.
- **`buffering_ptr`**: a double buffer. `update` writes the slot readers are not using, then flips the read index.
- **`Procedure` / `Transaction`**: actions run in order. Everything is committed only when all actions succeed; otherwise the error callbacks of uncommitted procedures run from the back when the transaction is destroyed.
- **`Tokenize`**: splits a string at a separator character and drops the empty pieces.

Every atomic load, compare-and-swap, fetch-sub or store is one sequential step, so each compare-and-swap loop becomes one step that succeeds. Each stateful entity is a `class` whose methods are proved against a specification function of the state:

- the ring queues against the window of live counters (`Window`) and an invariant on the slot flags;
- the blocking queue against its sequence of items;
- the spin lock against a ghost record of its holders;
- the double buffer against its two slots and read index;
- the transaction against the states of its procedures.

The pure specifications come with all-inputs lemmas:

- the ring window grows and shrinks by exactly the pushed and popped element;
- the lock keeps mutual exclusion under any sequence of operations;
- the destructor rolls back in reverse insertion order;
- joining the tokens with the separator gives the input with its separators collapsed.

Files: `wrappers.dfy` (Option), `ring_arith.dfy` (the element count, modular-arithmetic lemmas and 2^64), `shared_lockfree_queue.dfy`, `lockfree_queue.dfy`, `concurrent_queue.dfy`, `buffering_ptr.dfy`, `transaction.dfy` and `string_util.dfy`.

Where the code differs from what its reader would expect, the model follows the code:

- **Slot map.** `lockfree_queue` maps counter `c` to slot `get_idx(c - 1)`, computed in `uint64` arithmetic. It does not use `c mod N`.
- **Fullness.** `push` refuses once N - 1 elements are queued, not N.

In two places the model departs from the code:

- **Shared-memory assertions.** The source asserts on a header mismatch (cbase/shared_lockfree_queue.h:98-100), which aborts a debug build; here `Init` returns `false` instead.
- **Batch slot index.** The batch `AddData` writes element i to slot `GetIdx(tail) + i` (cbase/shared_lockfree_queue.h:137-139), which runs past the slot array when the batch wraps around the end of the ring. The model writes element i to the slot of counter tail + i. The two agree whenever the source's index stays inside the ring (`BatchSlotAgrees`); the overrun is reported under Findings.

## Model

| member | source | states |
|---|---|---|
| SharedLockFree.Block.IsReadable | cbase/shared_lockfree_queue.h:49-51 | a slot is readable exactly when its flag holds 1 |
| SharedLockFree.Block.SetData | cbase/shared_lockfree_queue.h:52-55 | the slot then holds the payload and is flagged readable |
| SharedLockFree.Block.GetData | cbase/shared_lockfree_queue.h:57-60 | the flag is cleared, the payload stays in the slot and is handed out |
| SharedLockFree.TotalSize | cbase/shared_lockfree_queue.h:86 | the segment size covers the 32-byte header |
| SharedLockFree.GetIdx | cbase/shared_lockfree_queue.h:32 | a counter's slot is inside the ring, and counters below the capacity map to themselves |
| RingArith.UsedCnt | cbase/shared_lockfree_queue.h:34-37 | the count of elements is what separates head from tail (head <= tail is required, as both queues assert); lockfree_queue.h:33-36 is the same function |
| SharedLockFree.WindowAfterSet | cbase/shared_lockfree_queue.h:104-120 | publishing at the tail counter appends exactly that element to the contents and keeps all free slots unflagged |
| SharedLockFree.WindowAfterReserve | cbase/shared_lockfree_queue.h:104-116 | a reservation without publication appends an unreadable element and keeps the ring invariant |
| SharedLockFree.WindowAfterConsume | cbase/shared_lockfree_queue.h:145-178 | consuming the head counter's slot removes exactly the oldest element and frees that slot |
| SharedLockFree.WriteBatch | cbase/shared_lockfree_queue.h:137-141 | writing a batch keeps the slot array's size |
| SharedLockFree.WindowAfterBatch | cbase/shared_lockfree_queue.h:122-143 | publishing a batch at consecutive tail counters appends the whole batch, in order, and keeps the ring invariant |
| SharedLockFree.PublishBatch | cbase/shared_lockfree_queue.h:137-141 | the publishing loop leaves the slot array as the batch written at counters tail, tail + 1, and so on |
| SharedLockFree.BatchSlotAsWritten | cbase/shared_lockfree_queue.h:139 | the source's index for element i is i plus a slot of the ring, and is tail + i while tail is below the capacity, so it can reach past the last slot |
| SharedLockFree.BatchSlotAgrees | cbase/shared_lockfree_queue.h:137-139 | wherever the source's batch index stays inside the ring, it is the slot of counter tail + i |
| SharedLockFree.BatchSlotAsWrittenOverruns | cbase/shared_lockfree_queue.h:132-139 | a batch that passes the capacity check can still index past the slot array |
| SharedLockFree.Queue.Create | cbase/shared_lockfree_queue.h:63-74 | a freshly created segment is all zero: header fields and every slot flag |
| SharedLockFree.SharedLockFreeQueue.constructor | cbase/shared_lockfree_queue.h:18-23 | the handle keeps its configuration and maps nothing |
| SharedLockFree.SharedLockFreeQueue.Init | cbase/shared_lockfree_queue.h:84-102 | the first opener writes the header with zero counters; later openers leave it alone; success exactly when the stored size and capacity match; on success the handle is valid, and empty if it was first |
| SharedLockFree.SharedLockFreeQueue.AddData | cbase/shared_lockfree_queue.h:104-120 | Full exactly when the ring is at capacity, with nothing changed; otherwise tail advances by one, only the tail counter's slot changes and the contents gain x at the back |
| SharedLockFree.SharedLockFreeQueue.AddDataCrashed | cbase/shared_lockfree_queue.h:104-116 | a writer that dies after reserving leaves an unreadable element at the back and the ring invariant intact |
| SharedLockFree.SharedLockFreeQueue.AddDataBatch | cbase/shared_lockfree_queue.h:122-143 | an empty batch succeeds and changes nothing; Full exactly when the batch does not fit; otherwise tail advances by the batch size and, with element i written to the slot of counter tail + i (the corrected index), the contents gain the batch in order |
| SharedLockFree.SharedLockFreeQueue.GetData | cbase/shared_lockfree_queue.h:145-178 | Empty exactly when nothing is queued; otherwise head advances, the oldest element leaves, and its slot is cleared; Success hands out a published payload; Dropped is returned exactly for an unpublished one, and then data is left as given |
| SharedLockFree.FillThenDrain | cbase/shared_lockfree_queue.h:104-178 | up to capacity pushes into an empty queue, then as many pops, return the elements in push order |
| LockFree.Block.Readable | cbase/lockfree_queue.h:43-45 | a slot is readable exactly when its flag holds 1 |
| LockFree.Block.SetData | cbase/lockfree_queue.h:47-50 | the slot then holds the payload and is flagged readable |
| LockFree.Block.GetData | cbase/lockfree_queue.h:52-55 | the flag is cleared and the payload is handed out |
| LockFree.Slot | cbase/lockfree_queue.h:76 | the slot of counter c is inside the ring, and is (c - 1) mod N whenever c - 1 does not wrap |
| LockFree.SlotRotates | cbase/lockfree_queue.h:76 | when N divides 2^64 the wrapped map is the plain rotation (c - 1) mod N for every counter |
| LockFree.SlotsDistinct | cbase/lockfree_queue.h:64-97 | when N divides 2^64, counters fewer than N apart never share a slot |
| LockFree.FirstWindowClash | cbase/lockfree_queue.h:76 | when (2^64 - 1) mod N <= N - 3, counter 0 shares its slot with a counter that is queued together with it |
| LockFree.DefaultCapacityClash | cbase/lockfree_queue.h:13 | with the default N = 10000, counters 0 and 1616 both use slot 1615 while both are queued |
| LockFree.WindowAfterPush | cbase/lockfree_queue.h:64-79 | publishing at the tail counter appends exactly that element and keeps every live slot readable |
| LockFree.WindowAfterPop | cbase/lockfree_queue.h:81-97 | consuming the head counter's slot hands out the oldest element and removes exactly it |
| LockFree.LockfreeQueue.constructor | cbase/lockfree_queue.h:16 | a new queue has zero counters, no readable slot and empty contents |
| LockFree.LockfreeQueue.Size | cbase/lockfree_queue.h:25-28 | the size is the number of queued elements |
| LockFree.LockfreeQueue.Push | cbase/lockfree_queue.h:64-79 | Full exactly when N - 1 elements are queued, with nothing changed; otherwise tail advances, only the tail counter's slot changes, and the contents gain x at the back |
| LockFree.LockfreeQueue.Pop | cbase/lockfree_queue.h:81-97 | Empty exactly when nothing is queued, with data returned as given; otherwise the oldest element is handed out and removed, and its slot's flag is cleared |
| LockFree.FillThenDrain | cbase/lockfree_queue.h:64-97 | up to N - 1 pushes into an empty queue, then as many pops, return the elements in push order |
| BlockingQueue.ConcurrentQueue.constructor | cbase/concurrent_queue.h:13 | a new queue is empty |
| BlockingQueue.ConcurrentQueue.Push | cbase/concurrent_queue.h:19-33 | both overloads append at the back |
| BlockingQueue.ConcurrentQueue.Pop | cbase/concurrent_queue.h:35-41 | returns the front element and removes exactly it |
| BlockingQueue.ConcurrentQueue.TimedPop | cbase/concurrent_queue.h:43-56 | true exactly when an element is there, which is then taken from the front; otherwise the queue and data are unchanged |
| BlockingQueue.ConcurrentQueue.IsEmpty | cbase/concurrent_queue.h:58-61 | true exactly when no element is queued |
| BlockingQueue.ConcurrentQueue.Size | cbase/concurrent_queue.h:63-66 | the number of queued elements |
| BlockingQueue.FillThenDrain | cbase/concurrent_queue.h:19-41 | pushes into an empty queue, then as many pops, return the elements in push order |
| Buffering.SharedAttempt | cbase/buffering_ptr.h:21-25 | one shared compare-and-swap succeeds exactly when the flag has no bit above the low 16 set, and then stores the flag plus one |
| Buffering.ExclusiveAttempt | cbase/buffering_ptr.h:32-34 | one exclusive compare-and-swap succeeds exactly when the flag is 0, and then stores the exclusive bit 0x10000 |
| Buffering.SharedRelease | cbase/buffering_ptr.h:28 | the fetch_sub(1) on the uint32 flag takes one off a non-zero flag and wraps 0 around to 2^32 - 1 |
| Buffering.SharedAttemptSpec | cbase/buffering_ptr.h:19-26 | a shared compare-and-swap succeeds exactly when no writer holds the lock and the count has room, and then it records one more reader |
| Buffering.ExclusiveAttemptSpec | cbase/buffering_ptr.h:30-37 | an exclusive compare-and-swap succeeds exactly when nobody holds the lock |
| Buffering.DecodeFaithful | cbase/buffering_ptr.h:19-28 | the flag's bit fields show the true holders exactly while fewer than 65536 readers hold the lock |
| Buffering.MutualExclusion | cbase/buffering_ptr.h:11-42 | after any sequence of acquires and releases, a writer never holds the lock with a reader, and the flag records the holders |
| Buffering.RwSpinLock.constructor | cbase/buffering_ptr.h:13 | a new lock is free with flag 0 |
| Buffering.RwSpinLock.Copy | cbase/buffering_ptr.h:16 | the copy takes over the other lock's flag |
| Buffering.RwSpinLock.TrySharedLock | cbase/buffering_ptr.h:21-25 | one attempt succeeds exactly when no writer holds the lock and the count has room; it adds one reader or changes nothing |
| Buffering.RwSpinLock.SharedLock | cbase/buffering_ptr.h:19-26 | adds one reader, raising the flag by one |
| Buffering.RwSpinLock.SharedUnlock | cbase/buffering_ptr.h:28 | removes one reader, lowering the flag by one |
| Buffering.RwSpinLock.TryLock | cbase/buffering_ptr.h:32-34 | one attempt succeeds exactly when the lock is free, and then a writer holds it |
| Buffering.RwSpinLock.Lock | cbase/buffering_ptr.h:30-37 | a writer then holds the lock, with flag 0x10000 |
| Buffering.RwSpinLock.Unlock | cbase/buffering_ptr.h:38 | the lock is free again, with flag 0 |
| Buffering.ScopedShareGuard.constructor | cbase/buffering_ptr.h:47-50 | construction takes one shared hold on the given lock |
| Buffering.ScopedShareGuard.Exit | cbase/buffering_ptr.h:52 | leaving the scope gives that hold back |
| Buffering.ScopedExclusiveGuard.constructor | cbase/buffering_ptr.h:64-67 | construction takes the exclusive hold on the given lock |
| Buffering.ScopedExclusiveGuard.Exit | cbase/buffering_ptr.h:69 | leaving the scope frees the lock |
| Buffering.SharedScope | cbase/buffering_ptr.h:44-59 | a shared guard's scope leaves the lock exactly as it found it |
| Buffering.ExclusiveScope | cbase/buffering_ptr.h:61-76 | an exclusive guard's scope leaves the lock free, as it found it |
| Buffering.BufferingPtr.constructor | cbase/buffering_ptr.h:84-86 | slot 0 holds the default value and is read; slot 1 is empty; the slot array and both slot locks are new objects, so the holder owns them |
| Buffering.BufferingPtr.Reader | cbase/buffering_ptr.h:92-95 | returns the read index, which is 0 or 1 |
| Buffering.BufferingPtr.Update | cbase/buffering_ptr.h:97-107 | the read index flips, the newly read slot holds x, the slot read before keeps its value, and both locks end free |
| Buffering.BufferingPtr.Get | cbase/buffering_ptr.h:109-114 | returns the value in the slot being read (always present) and leaves both locks as they were |
| Buffering.BufferingPtr.Peek | cbase/buffering_ptr.h:116-120 | the value being read is always present |
| Buffering.PublishThenRead | cbase/buffering_ptr.h:97-114 | a get after update(x) returns x, and the value published before stays in the other slot |
| Buffering.BuildUpdateGet | cbase/buffering_ptr.h:84-114 | a freshly built holder, updated with x, reads back x |
| Transactions.Rollback | cbase/transaction.h:22-28 | destroying a procedure runs its error function at most once: exactly when it is uncommitted and has one |
| Transactions.RollbackAll | cbase/transaction.h:102-107 | popping every procedure from the back runs at most one error function per procedure |
| Transactions.RollbackIsReversePending | cbase/transaction.h:102-107 | popping from the back runs the armed error functions in reverse insertion order |
| Transactions.CommittedRollsBackNothing | cbase/transaction.h:102-107 | when every procedure is committed, the destructor runs no error function |
| Transactions.Procedure.constructor | cbase/transaction.h:17-20 | a new procedure is uncommitted, holds the action, has no error function, and would roll back nothing |
| Transactions.Procedure.Copy | cbase/transaction.h:30-33 | the copy has the same flag and functions |
| Transactions.Procedure.CopyAssign | cbase/transaction.h:35-41 | the target takes the source's flag and functions; self-assignment changes nothing |
| Transactions.Procedure.Move | cbase/transaction.h:43-48 | the new procedure takes the source's flag and functions; the source is left committed and empty, so it never rolls back |
| Transactions.Procedure.MoveAssign | cbase/transaction.h:50-56 | the target takes the source's flag and functions, and the source is committed and empty; a self-move keeps the functions and commits |
| Transactions.Procedure.AddErrorFunc | cbase/transaction.h:60-63 | the error function is replaced and nothing else changes |
| Transactions.Procedure.Invoke | cbase/transaction.h:65 | returns the action's outcome and counts one invocation |
| Transactions.Procedure.Commit | cbase/transaction.h:66 | the procedure is committed and nothing else changes |
| Transactions.Procedure.Destroy | cbase/transaction.h:22-28 | runs the error function exactly when the procedure is uncommitted and has one |
| Transactions.Transaction.constructor | cbase/transaction.h:77 | a new transaction has no procedures |
| Transactions.Transaction.AddProcedure | cbase/transaction.h:109-128 | appends a fresh, uncommitted procedure with the action and no error function, and returns that last element; the moved-from local rolls back nothing |
| Transactions.Transaction.InvokeCurrentProcedures | cbase/transaction.h:130-142 | true exactly when every action succeeds. On success every procedure is committed and invoked once. On failure nothing is committed and exactly the actions up to the first failure were invoked. Only the actions the loop reaches, up to the first failure, need to be present |
| Transactions.Transaction.CommitAll | cbase/transaction.h:138-140 | every procedure is committed and nothing else changes |
| Transactions.Transaction.Destroy | cbase/transaction.h:102-107 | empties the list and runs the armed error functions in reverse insertion order |
| Transactions.InvokeThenDestroy | cbase/transaction.h:102-142 | after a successful invoke the destructor runs nothing; after a failure it runs every armed error function, last added first |
| Transactions.FailThenMovedOut | cbase/transaction.h:130-142 | a failing procedure followed by one whose action was moved out: the invoke returns false without reaching the empty action, and the destructor runs only the failing procedure's error function |
| StringUtil.RunLength | cbase/string_util.cpp:10-14 | the run before the first separator (or the end) is separator-free and maximal |
| StringUtil.Tokens | cbase/string_util.cpp:5-22 | no token is empty and none contains the separator |
| StringUtil.JoinTokens | cbase/string_util.cpp:5-22 | the tokens joined by the separator give the input with leading and trailing separators dropped and runs of separators collapsed to one |
| StringUtil.NoSeparatorOneToken | cbase/string_util.cpp:20 | a non-empty string without the separator is a single token |
| StringUtil.NoTokens | cbase/string_util.cpp:9-21 | there are no tokens exactly when every character is the separator |
| StringUtil.RunThenRest | cbase/string_util.cpp:15-18 | a maximal run followed by a separator or the end is the first token |
| StringUtil.TokenLengths | cbase/string_util.cpp:5-22 | the token lengths add up to the number of characters other than the separator, so no character is lost or duplicated |
| StringUtil.Tokenize | cbase/string_util.cpp:5-22 | the iterator loop with its start marker returns exactly the tokens of the input |

## Left out

- **Concurrency.** Thread and process interleavings, memory orders and weak compare-and-swap failures are not modelled. Every atomic operation is one sequential step, so a compare-and-swap succeeds first time.
- **Spin and blocking waits.**
  - The spins in `rw_spin_lock` and the wait in the blocking `concurrent_queue::pop` would never end when run alone. They become preconditions under which the first attempt succeeds.
  - The spin on the slot flag in `lockfree_queue::pop` needs no precondition: the queue invariant proves the flag of the head counter's slot is already set, so the spin exits on its first check.
  - The condition variable's notify is not modelled.
  - The 100 ms sleeps between `GetData` retries are not modelled.
- **Counter width.** Head and tail are unbounded `nat`. A counter's wrap-around at 2^64 is modelled only where the source depends on it: the `c - 1` in `lockfree_queue`'s slot map. Exhausting 2^64 pushes is not modelled.
- **Shared memory.** `SharedMemory` (cbase/shared_memory.h, cbase/shared_memory.cpp) is not part of this model. `Init` is handed the mapped segment as a `Queue` object. That segment is all zero when new, and it has the opener's number of slots, as the opener's own size check in `SharedMemory::Open` ensures.
- **Reader crashes.** Only a writer that dies between reserving and publishing a slot is modelled (`AddDataCrashed`). A reader that dies between its head compare-and-swap (cbase/shared_lockfree_queue.h:153-155) and its flag reset (lines 172 and 175) would leave a flagged slot that no counter owns; the queue invariant assumes this does not happen, so a later writer crash on that slot, which would hand the stale payload out as `Success` instead of `Dropped`, is not modelled.
- **Layout.** Byte layout, the `sizeof` of a slot and the `union` padding are not modelled. `TotalSize` takes the slot size as a parameter.
- SharedLockFree.SharedLockFreeQueue.Init: a failed header assertion aborts the process in the source, and the model returns `false`. With `NDEBUG` the assertions vanish and the source returns `true` on a mismatched segment; that build is not modelled.
- LockFree.LockfreeQueue.constructor: requires a capacity that divides 2^64. This is sufficient for the slot map never to put two queued counters in one slot. The divisors of 2^64 + 1 are also safe but are excluded. The source accepts every N, including its default 10000, which is unsafe (see Findings).
- SharedLockFree.SharedLockFreeQueue.AddDataBatch: the model writes element i to the slot of counter tail + i, the corrected index. This agrees with the source whenever `GetIdx(tail) + |xs| <= maxCnt` (`BatchSlotAgrees`); in the source a batch that wraps past the end of the ring writes past the slot array (see Findings).
- Buffering.RwSpinLock.SharedLock: requires that no writer holds the lock and that fewer than 65536 readers do. Run alone, the source would spin forever otherwise.
- Buffering.RwSpinLock.Lock: requires the lock to be free. Run alone, the source would spin forever otherwise.
- Buffering.BufferingPtr.Get: `shared_ptr` reference counting is not modelled, so a reader's handle outliving later updates is not shown. The value is returned directly.
- Buffering.BufferingPtr.Valid: both slot locks are free between calls, so a `get` overlapping an `update` is not modelled.
- Transactions.Procedure.Invoke: requires a non-empty action. Calling an empty `std::function` throws `std::bad_function_call`, which is not modelled.
- **Transaction callbacks.**
  - `std::function` and `std::bind` callbacks are modelled by values: an action by the boolean it returns, an error function by an identifier that is logged when it runs.
  - Exceptions thrown by callbacks are not modelled.
  - `AddErrorFunc`'s bound object and arguments are not modelled.
- **Transaction members not modelled.** `Transaction::GetErrMsg` (the message is never set) and the deleted copy and `operator new` members (compile-time restrictions) are not modelled.
- **Other files.** `chrono_time_elapser`, `time_elapser`, `file_watcher`, `registry`, `sequence` and `stack_trace` are not part of this model.

## Findings

| source | as written | input that shows it | evidently intended | confidence | as-written member | corrected member |
|---|---|---|---|---|---|---|
| cbase/lockfree_queue.h:76 | push and pop use slot `get_idx(c - 1)` in uint64, so counter 0 goes to slot (2^64 - 1) mod N | default N = 10000: counters 0 and 1616 both use slot 1615, and the 1617th push overwrites the unread first element | every counter in the window has its own slot, as with (c - 1) mod N | not executed | LockFree.DefaultCapacityClash | LockFree.SlotsDistinct |
| cbase/shared_lockfree_queue.h:139 | the batch writes slot `GetIdx(tail) + i` with no reduction modulo the capacity | capacity 4, head = tail = 3, a batch of 2: the check passes and the second element goes to index 4, past the slot array | element i goes to the slot of counter tail + i | not executed | SharedLockFree.BatchSlotAsWrittenOverruns | SharedLockFree.WindowAfterBatch |
