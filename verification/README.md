# Lock-free and locking queues and stacks, modelled in Dafny

This project models the data structures of the Lock-Free-Data-Structure
repository. Each is modelled as one thread sees it: every atomic step or
critical section is one state transition on an immutable Dafny value. A
CAS retry loop becomes one transition per pass. The model covers:

- the mutex-guarded stacks and queues;
- the ring buffers;
- the dummy-node MPSC queues, including the variants that recycle nodes
  through a pool and a tagged pointer;
- the split-reference-count MPMC queues and stack of "C++ Concurrency in
  Action" and their variants;
- the hazard-pointer managers;
- the two freelist pools.

Memory is a map from node ids to nodes. Freeing a node removes its key.
Touching a freed or null node gives a `Failure` (use-after-free, null
dereference, a failed `assert`), not undefined behaviour that goes
unnoticed.

Every container has a representation predicate `Rep(q, ids, vals)`. It
says that the state holds the abstract sequence `vals` in the node chain
`ids`, and that the allocated nodes are exactly the chain (and the pool,
where there is one), so nothing leaks. For each operation, a lemma shows
that it keeps `Rep` and does to `vals` what a queue or stack should. For
the split-count structures, `Rep` also fixes the internal and external
count of every node, so the lemmas show that a node is deleted exactly
when it leaves the structure.

The modules follow the source files:

- `SplitCount`, `CountedQueue`: the counters and the shared steps of the
  split-count queues.
- `BookQueue`, `HelpingQueue`, `ExchangeQueue`, `GuardedQueue`,
  `CheckedQueue`: the five split-count queue files.
- `CountedStack`: the split-count stack.
- `DummyQueue` (`LockFreeMpscQueue`, `MpscQueue`, `LockMpmcQueue`): the
  dummy-node queues.
- `PooledQueue`, `MpscQueueV2`, `TaggedPtr`, `TaggedMpscQueue`: the
  pooled MPSC queues.
- `LinkedStack`, `VectorStack`: the other stacks.
- `Ring` (`LockFreeSpscQueue`, `CountedRing`, `LockSpscQueue`,
  `LockMpscQueue`): the ring buffers.
- `HazardManager`, `HazardPointerManager`, `Retirement`: the
  hazard-pointer managers.
- `ThreadLocalPool`, `MemoryPool`: the pools.
- `Linked`, `Wrappers`: shared helpers.

The model follows the code where it differs from the repository's own
description. Three places are worth stating:

- `ThreadExitCleaner` only clears the owner id, and does not drain the
  thread's retired list.
- `LockFreeSPSCQueue` accepts a zero capacity at compile time.
- `src/mpmc_queue.cpp` uses names it never declares. The model takes the
  constants from `include/hazard_pointer.hpp` and leaves the row width
  free.

## Model

| member | source | states |
|---|---|---|
| SplitCount.Released | include/lock-free_mpmc_queue.hpp:45-62 | `release_ref` lowers the 30-bit internal count by one: adding one back gives the old count modulo 2^30, and the external counters are untouched |
| SplitCount.Freed | include/lock-free_mpmc_queue.hpp:80-100 | `free_external_counter` drops one external counter modulo 4 and adds `external_count - 2` to the internal count modulo 2^30 |
| SplitCount.ReleaseRef | include/lock-free_mpmc_queue.hpp:45-62 | a null node is a null dereference and a freed node a use-after-free; otherwise the node is deleted exactly when this was the last internal reference and no external counter remains, only its count changes otherwise, and every other node is untouched |
| SplitCount.FreeExternalCounter | include/lock-free_mpmc_queue.hpp:80-100 | a null or freed node is a fault; otherwise the node is deleted exactly when both adjusted fields reach zero, only its count changes otherwise, and every other node is untouched |
| SplitCount.FreeExternalCounterGuarded | other/lock-free_mpmc_queue.hpp:85-105 | the guarded variant does nothing for a null pointer, fails its `assert` for an external count below 2, and otherwise acts as `free_external_counter` |
| SplitCount.IncreaseExternalCount | include/lock-free_mpmc_queue.hpp:65-78 | `increase_external_count` leaves the handle naming the same node with one more external reference |
| SplitCount.ReleaseFreeCommute | include/lock-free_mpmc_queue.hpp:45-100 | a `release_ref` and a `free_external_counter` on the same node give the same counter in either order, so it does not matter which thread finishes first |
| SplitCount.EarlyReleasesBalance | include/lock-free_mpmc_queue.hpp:80-100 | after `k` early `release_ref`s on a node with one external counter left, freeing a handle with count `ext` deletes the node exactly when `ext - 2` equals `k` modulo 2^30 |
| CountedQueue.SetNewTail | include/lock-free_mpmc_queue.hpp:102-112 | if `tail` still names the old tail node, it becomes the new tail and the old handle's external counter is freed; otherwise the old node gets `release_ref`; `head` never changes |
| CountedQueue.New | include/lock-free_mpmc_queue.hpp:115-117 | no contract of its own: `CountedQueue.NewRep` shows the constructor's queue is consistent and holds nothing |
| CountedQueue.NewRep | include/lock-free_mpmc_queue.hpp:115-117 | the constructor's queue, one node named by `head` and `tail` with count `{1, ptr}`, holds no values and is empty |
| CountedQueue.EmptyIff | include/lock-free_mpmc_queue.hpp:227-231 | `empty()`, a null `next` in the head node, holds exactly when the queue holds no values |
| CountedQueue.Empty | include/lock-free_mpmc_queue.hpp:227-231 | no contract of its own: `CountedQueue.EmptyIff` shows `empty()` holds exactly when no value is held |
| CountedQueue.Length | include/lock-free_mpmc_queue.hpp:216-225 | `length()` follows `next` from the head node to a null link, and one less than the number of nodes met is exactly the number of values held |
| BookQueue.Enqueue | include/lock-free_mpmc_queue.hpp:127-166 | a producer never moves `head`, whatever the state and the number of passes; `BookQueue.EnqueueRefines` states what it does to a consistent queue |
| BookQueue.Dequeue | include/lock-free_mpmc_queue.hpp:168-214 | a consumer allocates nothing and leaves `tail` alone; when `head` and `tail` name one node it returns null and keeps its raised count in `head`; otherwise `head` moves to the head node's `next` and that node's value is returned |
| BookQueue.EnqueueRefines | include/lock-free_mpmc_queue.hpp:127-166 | `enqueue` on a consistent queue ends in its first pass: the value goes into the old tail node, a fresh empty node becomes the tail, and the queue holds `vals + [v]` with every count as the invariant requires |
| BookQueue.DequeueRefines | include/lock-free_mpmc_queue.hpp:168-214 | `dequeue` on an empty queue returns null and keeps the queue consistent; on a non-empty one it returns the first value, the queue holds the rest, and the old head node is deleted |
| BookQueue.PopRemovesHead | include/lock-free_mpmc_queue.hpp:203-211 | on a non-empty queue the compare-and-swap of `head` succeeds in the first pass and returns the head node's value |
| BookQueue.NewDequeuesNothing | include/lock-free_mpmc_queue.hpp:197-201 | a new queue is empty and `dequeue` on it returns null without a fault |
| BookQueue.FifoOrder | include/lock-free_mpmc_queue.hpp:127-214 | after `enqueue(v)`, `dequeue` returns the oldest value: `v` on an empty queue, the first held value otherwise |
| BookQueue.Destroy | include/lock-free_mpmc_queue.hpp:120-125 | the destructor's `dequeue` loop pops exactly the held values in order, and deleting the dummy leaves no node allocated |
| HelpingQueue.Push | include/mpmc_queue.hpp:134-177 | `push` never moves `head`; it is the book's `enqueue` |
| HelpingQueue.PushRefines | include/mpmc_queue.hpp:134-177 | `push` on a consistent queue succeeds and the queue holds `vals + [v]` |
| HelpingQueue.Pop | include/mpmc_queue.hpp:179-227 | however many passes it takes, `pop` allocates nothing and can only free nodes; `HelpingQueue.PopRefines` states its result on a consistent queue |
| HelpingQueue.PopRefines | include/mpmc_queue.hpp:179-227 | `pop` on a consistent queue ends in its first pass as the book's `dequeue` does: null when empty, the first value otherwise |
| HelpingQueue.EmptyReturnsNothing | include/mpmc_queue.hpp:193-199 | when `head` and `tail` name the same node and its `next` is null, `pop` returns null; `tail` stays put and `head` keeps the external reference it took |
| HelpingQueue.LaggingTailHelped | include/mpmc_queue.hpp:201-203 | when `head` and `tail` name the same node but its `next` is set, `pop` moves `tail` to that `next` and retries |
| ExchangeQueue.Push | include/mpmc_queue_1.hpp:134-156 | `push` never moves `head`, whatever the number of passes |
| ExchangeQueue.PushRefines | include/mpmc_queue_1.hpp:134-156 | `push` on a consistent queue ends in its first pass with the state the book's winning producer leaves, holding `vals + [v]` |
| ExchangeQueue.LoserRetries | include/mpmc_queue_1.hpp:143-154 | a producer that finds the tail's data slot taken releases its reference to that node and goes round again with the same spare node |
| ExchangeQueue.PopIff | include/mpmc_queue_1.hpp:158-178 | `pop` returns null exactly when `head` and `tail` name the same node; otherwise it returns the head node's value and moves `head` to its `next` |
| GuardedQueue.NewRep | other/lock-free_mpmc_queue.hpp:123-127 | a new queue holds nothing, its `size_` is 0, `length()` is 0 and `empty()` holds |
| GuardedQueue.New | other/lock-free_mpmc_queue.hpp:123-127 | no contract of its own: `GuardedQueue.NewRep` shows the new queue is consistent with `size_` 0 |
| GuardedQueue.Length | other/lock-free_mpmc_queue.hpp:239 | no contract of its own: `GuardedQueue.LengthCounts` shows `length()` is the number of values held |
| GuardedQueue.IsEmpty | other/lock-free_mpmc_queue.hpp:241 | no contract of its own: `GuardedQueue.LengthCounts` shows `empty()` holds exactly when no value is held |
| GuardedQueue.LengthCounts | other/lock-free_mpmc_queue.hpp:239-241 | `length()` is the number of values held, and `empty()` holds exactly when there are none |
| GuardedQueue.Enqueue | other/lock-free_mpmc_queue.hpp:139-179 | whatever the number of passes, `enqueue` never moves `head` and adds one to `size_` exactly once, wrapping at 2^64 |
| GuardedQueue.EnqueueRefines | other/lock-free_mpmc_queue.hpp:139-179 | `enqueue` ends in its first pass; the queue holds `vals + [v]` and `size_` grows by one |
| GuardedQueue.DequeueRefines | other/lock-free_mpmc_queue.hpp:184-236 | the corrected `dequeue` returns null on an empty queue, keeping it consistent with `size_` 0; otherwise it returns the first value, holds the rest and lowers `size_` by one |
| GuardedQueue.Dequeue | other/lock-free_mpmc_queue.hpp:184-236 | the corrected `dequeue` allocates nothing; `size_` is unchanged when it returns null and one lower, wrapping, when it returns a value |
| GuardedQueue.DequeueAsWritten | other/lock-free_mpmc_queue.hpp:184-236 | the `dequeue` as written allocates nothing and moves `size_` as the corrected one does; `GuardedQueue.EmptyDequeueFreesLiveNode` shows how its empty path goes wrong |
| GuardedQueue.PopRemovesHead | other/lock-free_mpmc_queue.hpp:218-229 | on a non-empty queue one pass moves `head` to the next node, returns the first value and lowers `size_` |
| GuardedQueue.EmptyDequeueFreesLiveNode | other/lock-free_mpmc_queue.hpp:195-201 | as written, the first `dequeue` of a new queue returns null but leaves the dummy with internal count 2^30 - 1; the second deletes the dummy that `head` and `tail` still name and then touches it |
| GuardedQueue.EmptyDequeuesKeepNode | other/lock-free_mpmc_queue.hpp:195-201 | with `release_ref` alone on the empty path, `dequeue` on an empty queue returns null, keeps the queue consistent and keeps the dummy allocated |
| GuardedQueue.UnlinkedNextRetries | other/lock-free_mpmc_queue.hpp:210-215 | a consumer whose head node is not the tail but has a null `next` retries without moving `head` or changing `size_` |
| GuardedQueue.WinnerLinks | other/lock-free_mpmc_queue.hpp:149-162 | a producer that claims the empty tail slot stops looping, moves `tail` to its spare node and adds one to `size_` |
| GuardedQueue.LoserHelps | other/lock-free_mpmc_queue.hpp:163-177 | a producer that loses the tail slot goes round again with `size_` unchanged; it links its spare into a null `next` and takes a new spare, and moves `tail` to the node that follows |
| CheckedQueue.AssertPtr | other/lock-free_mpmc_queue_1.hpp:113-119 | `assert_ptr` aborts exactly on a null pointer |
| CheckedQueue.Enqueue | other/lock-free_mpmc_queue_1.hpp:157-205 | `enqueue` never moves `head`, whatever the number of passes, and a null `tail` makes its first `assert_ptr` abort |
| CheckedQueue.WinnerRoundAsBook | other/lock-free_mpmc_queue_1.hpp:164-185 | a producer that claims the tail's empty data slot passes both `assert_ptr` checks, takes the book's winning path and ends the loop |
| CheckedQueue.EnqueueAsBook | other/lock-free_mpmc_queue_1.hpp:157-205 | on a consistent queue the checked `enqueue` gives exactly the book's result |
| CheckedQueue.EnqueueRefines | other/lock-free_mpmc_queue_1.hpp:157-205 | on a consistent queue every `assert_ptr` passes, `enqueue` ends in its first pass, and the queue holds `vals + [v]` |
| CheckedQueue.NextStillNullRetries | other/lock-free_mpmc_queue_1.hpp:187-201 | when the tail's data slot is taken and its `next` is still null after the failed compare-and-swap, the producer releases the tail node and retries with the same spare, without moving `tail` |
| CheckedQueue.NullTailAborts | other/lock-free_mpmc_queue_1.hpp:164-167 | a null `tail` makes the first `assert_ptr` abort |
| CountedStack.Push | other/lock-free_mpmc_stack.h:58-68 | `push` puts a new node with internal count 0 and the old head as `next` on top, named by `{1, ptr}`, and leaves every other node alone |
| CountedStack.IncreaseHeadCount | other/lock-free_mpmc_stack.h:38-51 | `increase_head_count` keeps `head` on the same node with one more external reference |
| CountedStack.New | other/lock-free_mpmc_stack.h:37 | no contract of its own: `CountedStack.NewRep` shows the value-initialised stack is empty |
| CountedStack.Pop | other/lock-free_mpmc_stack.h:71-100 | an empty stack returns null; otherwise `pop` returns the top node's data, moves `head` to its `next`, and deletes the node exactly when `internal_count + external_count - 2` is zero |
| CountedStack.LoserRelease | other/lock-free_mpmc_stack.h:93-98 | a losing thread's `fetch_add(-1)` deletes the node exactly when it was the last internal reference, otherwise lowers that count by one and changes nothing else in the node; no other node changes and none is added |
| CountedStack.LoserDeletesAfterWinner | other/lock-free_mpmc_stack.h:76-98 | when a losing consumer has raised `head`'s count, the winner's `pop` returns the top value but leaves the node alive with internal count 1; the loser's release then deletes it, leaving the heap a lone consumer's `pop` leaves |
| CountedStack.NewRep | other/lock-free_mpmc_stack.h:37 | the value-initialised `head` is an empty stack |
| CountedStack.PushRefines | other/lock-free_mpmc_stack.h:58-68 | `push` onto a stack holding `vals` gives one holding `[v] + vals` |
| CountedStack.PopRefines | other/lock-free_mpmc_stack.h:71-100 | `pop` never faults; on an empty stack it returns null; otherwise it returns the top value, the stack holds the rest and the popped node is deleted |
| CountedStack.PushThenPop | other/lock-free_mpmc_stack.h:58-100 | a `pop` right after `push(v)` returns `v` and restores the stack's contents |
| CountedStack.Destroy | other/lock-free_mpmc_stack.h:53-55 | the destructor's `pop` loop returns every held value in order and frees every node |
| DummyQueue.Enqueue | include/lock-free_mpsc_queue.h:32-36 | a fresh node holding `v` with a null `next` is linked after the old tail and becomes the tail; `head` and every other node are unchanged |
| DummyQueue.Dequeue | include/lock-free_mpsc_queue.h:38-47 | a null `head->next` returns nothing and changes nothing; otherwise the next node's value is returned, that node becomes the dummy and the old dummy is freed |
| DummyQueue.EnqueueRefines | include/lock-free_mpsc_queue.h:32-36 | `enqueue` on a queue holding `vals` gives one holding `vals + [v]` |
| DummyQueue.DequeueRefines | include/lock-free_mpsc_queue.h:38-47 | `dequeue` on an empty queue returns nothing and changes nothing; otherwise it returns the first value and the queue holds the rest |
| DummyQueue.FifoOrder | include/lock-free_mpsc_queue.h:32-47 | after `enqueue(v)`, `dequeue` returns the oldest value: `v` on an empty queue, the first held value otherwise |
| DummyQueue.EmptyIff | include/lock-free_mpsc_queue.h:39-41 | the dummy's `next` is null exactly when the queue holds no values |
| LockFreeMpscQueue.New | include/lock-free_mpsc_queue.h:25-29 | the constructor's queue is one dummy named by `head` and `tail`, holding no values |
| LockFreeMpscQueue.Destroy | include/lock-free_mpsc_queue.h:48-55 | the destructor deletes exactly the nodes of the chain, in order, and leaves nothing allocated |
| MpscQueue.New | include/mpsc_queue.hpp:23-27 | the constructor's queue is one empty dummy named by `head` and `tail`, holding no values |
| LockMpmcQueue.New | include/lock_mpmc_queue.hpp:42-46 | the constructor's queue is one dummy with null data, empty, holding no values |
| LockMpmcQueue.Destroy | include/lock_mpmc_queue.hpp:48-55 | the destructor's `dequeue` loop returns every held value in order, and deleting the last dummy leaves nothing allocated |
| LockMpmcQueue.EmptyIff | include/lock_mpmc_queue.hpp:93-96 | `empty()` holds exactly when the queue holds no values |
| LockMpmcQueue.Empty | include/lock_mpmc_queue.hpp:93-96 | no contract of its own: `LockMpmcQueue.EmptyIff` shows `empty()` holds exactly when no value is held |
| LinkedStack.New | include/lock_mpmc_stack.h:37-39 | a null `head` is an empty stack holding no values |
| LinkedStack.Push | include/lock_mpmc_stack.h:49-58 | a fresh node holding `v` whose `next` is the old head becomes the head; every other node is unchanged |
| LinkedStack.Pop | include/lock_mpmc_stack.h:62-77 | a null head returns nothing and changes nothing; otherwise the top node's value is returned, its `next` becomes the head and the node is freed |
| LinkedStack.PushRefines | include/lock-free_mpmc_stack.hpp:39-45 | `push` onto a stack holding `vals` gives one holding `[v] + vals` |
| LinkedStack.PopRefines | include/lock-free_mpmc_stack.hpp:48-56 | `pop` on an empty stack returns nothing; otherwise it returns the top value and the stack holds the rest |
| LinkedStack.EmptyIff | include/lock_mpmc_stack.h:79-82 | `empty()` holds exactly when the stack holds no values |
| LinkedStack.Empty | include/lock_mpmc_stack.h:79-82 | no contract of its own: `LinkedStack.EmptyIff` shows `empty()` holds exactly when no value is held |
| LinkedStack.Drain | include/lock_mpmc_stack.h:41-46 | the destructor's loop pops exactly the held values, top first, and leaves the stack empty with no node allocated |
| LinkedStack.LifoScenario | include/lock-free_mpmc_stack.hpp:39-56 | pushing 1, 2, 3 and then popping four times gives 3, 2, 1 and then nothing |
| VectorStack.New | include/lock_stack.hpp:13 | a new stack has length 0 |
| VectorStack.Push | include/lock_stack.hpp:21-24 | `push` adds one element, and that element is the new top |
| VectorStack.Pop | include/lock_stack.hpp:27-35 | `pop` returns the top element, `nullopt` on an empty stack, which is left unchanged; pushing the returned element back restores the stack |
| VectorStack.Top | include/lock_stack.hpp:29-32 | the element `pop` takes from the back exists exactly when the stack is not empty |
| VectorStack.Length | include/lock_stack.hpp:38-41 | no contract of its own: the contracts of `New`, `Push` and `Pop` state it is 0 at first, one more after `push` and one less after a successful `pop` |
| VectorStack.PopPush | include/lock_stack.hpp:21-35 | a `pop` right after `push(v)` returns `v` and restores the stack |
| VectorStack.PopAllPushed | include/lock_stack.hpp:21-35 | pushing `vs` and then popping `|vs|` times returns `vs` reversed and restores the stack |
| LockFreeSpscQueue.New | include/lock-free_spsc_queue.h:15 | a new ring of 2^k slots holds no values |
| LockFreeSpscQueue.Enqueue | include/lock-free_spsc_queue.h:27-36 | a refused `enqueue` changes nothing; an accepted one writes the value into the tail's slot and leaves `head` alone |
| LockFreeSpscQueue.Dequeue | include/lock-free_spsc_queue.h:39-49 | an empty ring returns nothing and changes nothing; otherwise the head's slot is returned and only `head` moves |
| LockFreeSpscQueue.EnqueueRefines | include/lock-free_spsc_queue.h:27-36 | a ring of 2^k slots holding `2^k - 1` values refuses `enqueue` and is unchanged; one holding fewer accepts it and holds `vals + [v]`, across the wrap-around of the 64-bit counters |
| LockFreeSpscQueue.DequeueRefines | include/lock-free_spsc_queue.h:39-49 | `dequeue` on an empty ring returns nothing and changes nothing; otherwise it returns the first value and the ring holds the rest |
| LockFreeSpscQueue.FullAtCapacityMinusOne | include/lock-free_spsc_queue.h:27-49 | a ring of 4 slots takes three values, refuses a fourth, and gives back the first value first |
| CountedRing.Enqueue | include/lock_spsc_queue.hpp:29-39 | `enqueue` succeeds exactly when `count_` is below capacity; a refusal changes nothing, and an accepted value lands in the tail's slot with `count_` one higher |
| CountedRing.Dequeue | include/lock_spsc_queue.hpp:42-52 | `dequeue` returns nothing exactly when `count_` is 0, changing nothing; otherwise it returns the head's slot and lowers `count_` |
| CountedRing.LengthIsSize | include/lock_spsc_queue.hpp:55-58 | `length()` is the number of values held, at most the capacity |
| CountedRing.Length | include/lock_spsc_queue.hpp:55-58 | no contract of its own: `CountedRing.LengthIsSize` shows `size()` is the number of values held |
| CountedRing.EnqueueRefines | include/lock_mpsc_queue.h:43-56 | a full ring refuses `enqueue` and is unchanged; otherwise it holds `vals + [v]` |
| CountedRing.DequeueRefines | include/lock_mpsc_queue.h:59-69 | `dequeue` on an empty ring returns nothing and changes nothing; otherwise it returns the first value and the ring holds the rest |
| LockSpscQueue.New | include/lock_spsc_queue.hpp:14-20 | the constructor throws `invalid_argument` exactly for a zero capacity, and otherwise yields an empty ring of that capacity |
| LockMpscQueue.New | include/lock_mpsc_queue.h:22-31 | for a nonzero capacity the constructor yields an empty ring of that capacity with length 0 |
| PooledQueue.Take | include/mpsc_queue_v2.0.hpp:60-72 | the producer's node holds `v` with a null `next`: it is the pool's former top, whose successor becomes the top, or a fresh node when the pool is empty; the rest of the heap is unchanged |
| PooledQueue.New | include/mpsc_queue_v2.0.hpp:32 | the constructor's queue is one dummy with no value named by `head` and `tail`, an empty pool, and holds nothing |
| PooledQueue.Link | include/mpsc_queue_v2.0.hpp:74-75 | the new node becomes `tail` and the old tail's `next` names it; nothing else changes |
| PooledQueue.Enqueue | include/mpsc_queue_v2.0.hpp:59-76 | after `enqueue(v)` the tail node holds `v` with a null `next`, and `head` has not moved |
| PooledQueue.Recycle | include/mpsc_queue_v2.0.hpp:91-94 | the old dummy is pushed onto the pool: it becomes the pool's top and links to the old top |
| PooledQueue.Advance | include/mpsc_queue_v2.0.hpp:80-88 | a null `next` means empty; otherwise `head` moves to `next`, whose value is moved out and reset |
| PooledQueue.Dequeue | include/mpsc_queue_v2.0.hpp:79-97 | empty returns nothing and changes nothing; otherwise the next node's value is returned and the old dummy becomes the pool's top, with no node freed |
| PooledQueue.TakeRefines | include/mpsc_queue_v2.0.hpp:60-72 | taking a node from a consistent queue gives the pool's top (or the next fresh address) holding `v`, with the pool holding the rest |
| PooledQueue.LinkRefines | include/mpsc_queue_v2.0.hpp:74-75 | linking the taken node makes the queue hold `vals + [v]` |
| PooledQueue.EnqueueRefines | include/mpsc_queue_v2.0.hpp:59-76 | `enqueue` on a queue holding `vals` with pool `fids` gives one holding `vals + [v]`, having used the pool's top if there is one |
| PooledQueue.DequeueRefines | include/mpsc_queue_v2.0.hpp:79-97 | `dequeue` on an empty queue changes nothing; otherwise it returns the first value, holds the rest, and the old dummy joins the front of the pool |
| PooledQueue.Destroy | include/mpsc_queue_v2.0.hpp:33-49 | the destructor deletes the chain and then the pool, each in order, and those are exactly the nodes it frees |
| PooledQueue.DestroyFreesAll | include/mpsc_queue_v2.0.hpp:33-49 | on a consistent queue the chain and the pool are every allocated node, so the destructor leaves nothing allocated |
| MpscQueueV2.New | include/mpsc_queue_v2.0.hpp:32 | the constructor's queue is one dummy with an empty pool and holds no values |
| MpscQueueV2.Enqueue | include/mpsc_queue_v2.0.hpp:59-76 | after `enqueue(v)` the tail node holds `v` with a null `next` |
| MpscQueueV2.RecycleAsWritten | include/mpsc_queue_v2.0.hpp:91-94 | the loop as written repeats while the compare-and-swap succeeds: when the first one fails spuriously it ends with the pool unchanged and the node not pushed; otherwise it ends with the node pushed, unless the node was already the pool's top |
| MpscQueueV2.DequeueAsWritten | include/mpsc_queue_v2.0.hpp:79-97 | the `dequeue` as written returns nothing and changes nothing when the dummy has no successor; `MpscQueueV2.LeakAsWritten` shows how its recycling goes wrong |
| MpscQueueV2.AsWrittenWithoutSpurious | include/mpsc_queue_v2.0.hpp:79-97 | with no spurious failure, the as-written `dequeue` gives the intended result: the second compare-and-swap fails because the first already moved the pool |
| MpscQueueV2.LeakAsWritten | include/mpsc_queue_v2.0.hpp:91-94 | a spurious failure of the first compare-and-swap leaves the old dummy neither in the chain nor in the pool: after one `enqueue` and one `dequeue` of a new queue, that node leaks |
| MpscQueueV2.RecycleFixed | include/mpsc_queue_v2.0.hpp:91-94 | the loop retried while the compare-and-swap fails pushes the node onto the pool, whatever the number of spurious failures |
| MpscQueueV2.DequeueFixed | include/mpsc_queue_v2.0.hpp:79-97 | with the corrected loop, `dequeue` is `PooledQueue.Dequeue` whatever the number of spurious failures |
| MpscQueueV2.FixedKeepsRep | include/mpsc_queue_v2.0.hpp:79-97 | the corrected `dequeue` returns the first value and keeps every node in the chain or the pool |
| TaggedPtr.Encode | other/lock-free_mpsc_queue_v3.0.hpp:28-30 | `encode` fits in 64 bits and its low 48 bits are the pointer |
| TaggedPtr.Decode | other/lock-free_mpsc_queue_v3.0.hpp:31-35 | `decode` gives a 48-bit pointer and a 16-bit tag |
| TaggedPtr.EncodeDecode | other/lock-free_mpsc_queue_v3.0.hpp:28-35 | encoding a decoded word gives the word back |
| TaggedPtr.DecodeEncode | other/lock-free_mpsc_queue_v3.0.hpp:28-35 | decoding an encoded pair gives the pointer back and the tag modulo 2^16 |
| TaggedPtr.TagWraps | other/lock-free_mpsc_queue_v3.0.hpp:28-35 | a tag incremented past 2^16 - 1 is stored as 0 |
| TaggedPtr.Init | other/lock-free_mpsc_queue_v3.0.hpp:39-40 | an atomic built from a pair loads back its pointer and its tag modulo 2^16 |
| TaggedPtr.Load | other/lock-free_mpsc_queue_v3.0.hpp:42-44 | `load` gives a 48-bit pointer and a 16-bit tag whose encoding is the stored word |
| TaggedPtr.CompareExchangeStrong | other/lock-free_mpsc_queue_v3.0.hpp:46-54 | the exchange succeeds exactly when the stored pair equals the expected one after truncating its tag; on success it stores `desired`, on failure it changes nothing and hands back the stored pair |
| TaggedPtr.CasAfterLoad | other/lock-free_mpsc_queue_v3.0.hpp:42-54 | an exchange that expects what `load` just returned succeeds |
| TaggedPtr.StaleTagFails | other/lock-free_mpsc_queue_v3.0.hpp:46-54 | an exchange that expects the right pointer with a different tag fails and changes nothing |
| TaggedMpscQueue.NewRep | other/lock-free_mpsc_queue_v3.0.hpp:76-81 | the constructor's queue is one dummy with the pool word `{nullptr, 0}`, holding no values |
| TaggedMpscQueue.New | other/lock-free_mpsc_queue_v3.0.hpp:76-81 | no contract of its own: `TaggedMpscQueue.NewRep` shows the new queue is one dummy with the pool word `{nullptr, 0}`, holding nothing |
| TaggedMpscQueue.Enqueue | other/lock-free_mpsc_queue_v3.0.hpp:102-123 | `enqueue` acts on the list and pool as the pooled queue does; popping the pool adds one to the tag modulo 2^16, and an empty pool leaves the pool word alone |
| TaggedMpscQueue.LinkNode | other/lock-free_mpsc_queue_v3.0.hpp:120-121 | linking makes the node the tail and leaves the pool word and the set of allocated nodes alone |
| TaggedMpscQueue.Dequeue | other/lock-free_mpsc_queue_v3.0.hpp:126-144 | `dequeue` acts as the pooled queue's corrected `dequeue`, and recycling adds one to the pool tag |
| TaggedMpscQueue.EnqueueRefines | other/lock-free_mpsc_queue_v3.0.hpp:102-123 | `enqueue` on a queue holding `vals` gives one holding `vals + [v]`, using the pool's top when there is one |
| TaggedMpscQueue.DequeueRefines | other/lock-free_mpsc_queue_v3.0.hpp:126-144 | `dequeue` on an empty queue returns nothing and keeps it consistent; otherwise it returns the first value, holds the rest and pools the old dummy |
| ThreadLocalPool.Acquire | include/hazard_pointer.hpp:18-29 | a non-empty freelist gives its first record and keeps the rest; an empty one allocates 64 fresh records, hands one out and keeps the other 63 |
| ThreadLocalPool.New | include/hazard_pointer.hpp:42 | the thread's freelist starts empty and consistent |
| ThreadLocalPool.Release | include/hazard_pointer.hpp:31-34 | `release` pushes the record on the front of the freelist |
| ThreadLocalPool.ReleaseThenAcquire | include/hazard_pointer.hpp:18-34 | `acquire` right after `release(n)` gives `n` back and restores the pool |
| ThreadLocalPool.AcquireValid | include/hazard_pointer.hpp:18-29 | on a freelist of distinct, allocated records, `acquire` keeps that property and hands out an allocated record that is no longer on the list |
| ThreadLocalPool.ReleaseValid | include/hazard_pointer.hpp:31-34 | releasing an allocated record that is not on the freelist keeps the records distinct |
| HazardManager.RegisterThread | include/hazard_pointer.hpp:110-126 | a registered thread gets its cached index; otherwise the lowest free owner slot is claimed and its hazard slots are cleared, and with none free it throws |
| HazardManager.Init | include/hazard_pointer.hpp:45-66 | the zero-initialised arrays have `kMaxThreads` rows of `kHazardsPerThread` slots, no owner and every slot null |
| HazardManager.Protect | include/hazard_pointer.hpp:128-131 | the `assert` fails exactly for an out-of-range thread or slot; otherwise the pointer is protected and no other slot changes |
| HazardManager.Release | include/hazard_pointer.hpp:133-136 | the `assert` fails exactly for an out-of-range thread or slot; otherwise that slot is null and no other slot changes |
| HazardManager.BulkRelease | include/hazard_pointer.hpp:139-142 | an out-of-range thread index is out of bounds; otherwise every slot of that thread is null and the other rows and the owners are unchanged |
| HazardManager.ExitThread | include/hazard_pointer.hpp:80-86 | the exit cleaner clears the owner of a registered thread and changes no hazard slot |
| HazardManager.ExitThenRegister | include/hazard_pointer.hpp:80-126 | a slot freed by an exiting thread, with every lower slot taken, is the one the next registration claims, with its hazard slots cleared |
| HazardManager.CollectHazards | include/hazard_pointer.hpp:157-164 | the collected array holds exactly the non-null pointers in the hazard slots, at most `kMaxThreads * kHazardsPerThread` of them |
| HazardManager.IsHazard | include/hazard_pointer.hpp:173-176 | the inner search finds a pointer exactly when it is in the collected array |
| HazardManager.Scan | include/hazard_pointer.hpp:155-188 | `scan` keeps the protected retired nodes, in reverse order, calls the deleter of every unprotected one in list order and returns its record to the pool, and counts the kept nodes |
| HazardManager.Retire | include/hazard_pointer.hpp:144-153 | `retire` pushes a pool record for the pointer on the list; it scans once the count reaches `kScanThreshold`, and a count still at or above the threshold afterwards means every kept node is protected |
| HazardManager.ScanKeeps | include/hazard_pointer.hpp:166-187 | a retired node is kept by `scan` exactly when some slot protects it, and the kept and deleted nodes together are the retired list |
| HazardManager.ScanCalls | include/hazard_pointer.hpp:166-187 | a retired node's deleter is called exactly when no slot protects it |
| HazardPointerManager.AcquireThreadIndex | src/mpmc_queue.cpp:4-16 | the cached index when there is one; otherwise the lowest row with no owner is claimed and cached without clearing its pointers, and with every row taken it throws |
| HazardPointerManager.Protect | src/mpmc_queue.cpp:18-20 | an index outside the table is out of bounds; otherwise the pointer is protected and no other slot changes |
| HazardPointerManager.Release | src/mpmc_queue.cpp:22-24 | an index outside the table is out of bounds; otherwise that slot is null and no other slot changes |
| HazardPointerManager.CollectProtected | src/mpmc_queue.cpp:37-46 | the collected set is exactly the pointers in the table's slots |
| HazardPointerManager.Scan | src/mpmc_queue.cpp:35-68 | `scan` keeps the protected retired nodes in reverse order, calls the deleter of every unprotected one in list order, and counts the kept nodes |
| HazardPointerManager.Retire | src/mpmc_queue.cpp:26-33 | `retire` pushes the pointer on the list and scans once the count reaches the threshold |
| HazardPointerManager.ScanKeeps | src/mpmc_queue.cpp:49-67 | a retired node is kept exactly when some slot protects it, and the kept and deleted nodes together are the retired list |
| HazardPointerManager.ScanCalls | src/mpmc_queue.cpp:49-67 | a retired node's deleter is called exactly when no slot protects it |
| MemoryPool.BatchAllocate | include/memory_pool.hpp:73-92 | 64 fresh objects, in allocation order, are chained in front of the old freelist |
| MemoryPool.New | include/memory_pool.hpp:15 | the constructor's freelist is empty and consistent |
| MemoryPool.Acquire | include/memory_pool.hpp:26-54 | `acquire` fails its `assert` exactly for an out-of-range thread id; otherwise it pops the freelist's head, refilling an empty list with a batch first, and leaves hazard slot 0 of the thread null |
| MemoryPool.Release | include/memory_pool.hpp:56-64 | `release` pushes the object on the front of the freelist |
| MemoryPool.ReleaseThenAcquire | include/memory_pool.hpp:26-64 | `acquire` right after `release(obj)` gives `obj` back and restores the pool, whatever the number of spurious failures |
| MemoryPool.AcquireValid | include/memory_pool.hpp:26-54 | on a freelist of distinct, allocated objects, `acquire` keeps that property and hands out an allocated object no longer on the list |
| MemoryPool.Destroy | include/memory_pool.hpp:17-24 | the destructor deletes exactly the objects on the freelist, in order |

## Findings

| source | as written | input that shows it | evidently intended | confidence | as-written member | corrected member |
|---|---|---|---|---|---|---|
| other/lock-free_mpmc_queue.hpp:195-201 | the empty path of `dequeue` calls both `free_external_counter(old_head)` and `ptr->release_ref()`, so it gives up the consumer's one reference twice | a new queue and two calls to `dequeue`: the second deletes the dummy that `head` and `tail` still name and then calls `release_ref` on it | give the reference up once, with `release_ref` alone as the book version does, so the dummy stays allocated | not executed | GuardedQueue.EmptyDequeueFreesLiveNode | GuardedQueue.EmptyDequeuesKeepNode |
| include/mpsc_queue_v2.0.hpp:91-94 | the recycling loop is `do { ... } while (compare_exchange_weak(...))`, so it retries while the exchange SUCCEEDS | a new queue, one `enqueue`, then a `dequeue` whose first `compare_exchange_weak` fails spuriously: the loop ends without pushing the old dummy, which then belongs to neither the chain nor the pool | retry while the exchange fails, `while (!compare_exchange_weak(...))`, as the v3.0 queue does | not executed | MpscQueueV2.LeakAsWritten | MpscQueueV2.FixedKeepsRep |

## Left out

- Concurrency: interleavings of threads, memory orders, mutexes and cache-line padding are not modelled. Each operation runs alone, and every atomic step and critical section is one transition.
- The losing branches of compare-and-swap loops that only another thread can cause are left out. Examples: the `head` exchange in `dequeue` or `pop` whose expected value the thread has just read, and the `tail` exchange in `set_new_tail`. Branches that depend on the state the thread finds are modelled on arbitrary states: a taken data slot, a lagging tail, a `next` still null.
- Loops that retry are given a `fuel` bound. The lemmas show that one pass ends the loop on every consistent state, so the bound leaves nothing reachable unmodelled.
- The 32-bit `int` `external_count` is a Dafny `int`. An external count would need 2^31 concurrent readers of one node to overflow, which a single-thread model cannot reach.
- GuardedQueue.EnqueueRefines: assumes fewer than 2^64 - 1 values are held, so `size_` never wraps. `Inc` and `Dec` do model the wrap of `std::size_t`.
- LockFreeSpscQueue.New: only capacities 2^k with k < 64 are modelled. A `Capacity` of 0 passes the source's `static_assert` but makes `Capacity - 1` wrap, and is not modelled.
- LockMpscQueue.New: the `static_assert` that rejects a zero capacity at compile time is a precondition.
- TaggedPtr.Encode: the `|` of pointer and shifted tag is modelled as addition, which it equals for pointers below 2^48 (`OrIsAdd`). Pointers at or above 2^48 are not modelled.
- TaggedMpscQueue.EnqueueRefines: assumes a fresh node's address fits in 48 bits when the pool is empty.
- HazardPointerManager: `src/mpmc_queue.cpp` uses `kMaxThreads`, `kSlotsPerThread` and `kScanThreshold` without declaring them. The model takes 256 and 32 from `include/hazard_pointer.hpp` and allows any fixed row width of at least one slot.
- Retiring a null pointer and deleters that do anything but free: a deleter is an opaque id, and the model records the calls `scan` makes.
- Thread ids are abstract naturals. `std::this_thread::get_id()` is a parameter.
- `ThreadExitCleaner` does not drain the thread's retired list. The model follows the code, and the nodes it leaves are not modelled.
- The destructors of `include/mpsc_queue.hpp` (empty) and `include/mpsc_queue_v1.0.hpp` (frees only the dummy) free at most one node. They are not modelled as members.
- `length()` and `empty()` of `include/mpmc_queue_1.hpp` call `load()` on the node's `next` field, which is a plain `counted_node_ptr` (line 31), not an atomic. They are taken to mean what the book queue's versions do (`CountedQueue.Length`, `CountedQueue.EmptyIff`).
- `include/lockfree_stack.hpp`, `other/lock-free_mpmc_stack.hpp` and `other/lock_mpmc_stack.h` are copies of files already modelled. They share those files' members.
- The destructor of `other/lock-free_mpsc_queue_v3.0.hpp` is the same two list walks as the v2.0 destructor, `PooledQueue.Destroy`.
- MemoryPool: objects are bare identities. The source casts each object to a `FreeListNode*` and writes the link into its first pointer-sized word (include/memory_pool.hpp:75-81 and 57-60). So `acquire` hands out storage whose first word holds a stale link, with no new `T` constructed in it. When `sizeof(T)` is smaller than a pointer, that write runs past the end of the object. The model states neither consequence.
- Heap allocation never fails. `new` always returns the allocator's next fresh address.
- The tests, benchmarks and printing helpers are not part of this model.
