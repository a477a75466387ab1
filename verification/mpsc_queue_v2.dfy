/** include/mpsc_queue_v2.0.hpp: the pooled MPSC queue whose pool is a
    plain atomic pointer updated with `compare_exchange_weak`.

    Run by one thread, the producer's pop from the pool retries after a
    spurious failure with the same top and ends as `PooledQueue.Take`.
    The consumer's push of the old dummy does not: the loop is written
    `do { old_dummy->next = free_head; } while (CAS(free_head, old_dummy))`,
    so it repeats while the exchange SUCCEEDS. Without a spurious failure
    the first exchange succeeds and the second fails (the pool's top is now
    the old dummy, not `free_head`), which ends the loop with the right
    result. A spurious failure of the first exchange ends the loop at once
    with the old dummy on neither the chain nor the pool: it is never
    reused and the destructor never frees it. `RecycleFixed` is the loop as
    evidently intended, `while (!CAS(...))`. */
module MpscQueueV2 {
  import opened Wrappers
  import opened Linked
  import PooledQueue

  /** `MPSCQueue()`: `head(new Node())`, `tail(head)`, an empty pool. */
  function New<T>(): (q: PooledQueue.Queue<T>)
    ensures PooledQueue.Rep(q, [q.head], [], [])
  {
    PooledQueue.New()
  }

  /** `enqueue(value)`: take a node from the pool or allocate one, then
      link it at the tail. */
  function Enqueue<T>(q: PooledQueue.Queue<T>, v: T): (r: PooledQueue.Queue<T>)
    requires PooledQueue.Ready(q)
    ensures r.tail in r.heap && r.heap[r.tail] == Node(Some(v), None)
  {
    PooledQueue.Enqueue(q, v)
  }

  /** The recycling loop as written. `firstSpurious` says whether the
      first weak exchange fails spuriously; a spurious failure of a later
      one changes nothing, because that exchange fails anyway. `None` means
      the loop never ends: that happens only when `n` is already the
      pool's top, so the second exchange succeeds too, and so on. */
  function RecycleAsWritten<T>(q: PooledQueue.Queue<T>, n: NodeId, firstSpurious: bool): (r: Option<PooledQueue.Queue<T>>)
    requires n in q.heap
    ensures r.None? <==> !firstSpurious && q.free == Some(n)
    ensures r.Some? ==> r.value.heap.Keys == q.heap.Keys && r.value.heap[n].next == q.free
    ensures r.Some? && firstSpurious ==> r.value.free == q.free
    ensures r.Some? && !firstSpurious ==> r.value == PooledQueue.Recycle(q, n)
  {
    var freeHead := q.free;
    var written := q.(heap := q.heap[n := q.heap[n].(next := freeHead)]);
    if firstSpurious then Some(written)
    else if Some(n) == freeHead then None
    else Some(written.(free := Some(n)))
  }

  /** `dequeue()` as written: the value comes out, and the old dummy is
      recycled by the loop above. */
  function DequeueAsWritten<T>(q: PooledQueue.Queue<T>, firstSpurious: bool): (r: Option<(PooledQueue.Queue<T>, Option<T>)>)
    requires PooledQueue.HeadLinked(q)
    ensures q.heap[q.head].next.None? ==> r == Some((q, None))
  {
    match PooledQueue.Advance(q)
    case None => Some((q, None))
    case Some((q1, dummy, res)) =>
      match RecycleAsWritten(q1, dummy, firstSpurious)
      case None => None
      case Some(q2) => Some((q2, res))
  }

  /** The recycling loop as evidently intended,
      `do { n->next = free_head; } while (!CAS(free_head, n))`, with
      `spurious` failures of the weak exchange before it goes through. */
  function RecycleFixed<T>(q: PooledQueue.Queue<T>, n: NodeId, spurious: nat): (r: PooledQueue.Queue<T>)
    requires n in q.heap
    ensures r == PooledQueue.Recycle(q, n)
    decreases spurious
  {
    var freeHead := q.free;
    var written := q.(heap := q.heap[n := q.heap[n].(next := freeHead)]);
    if spurious > 0 then RecycleFixed(written, n, spurious - 1)
    else written.(free := Some(n))
  }

  /** `dequeue()` with the corrected loop. */
  function DequeueFixed<T>(q: PooledQueue.Queue<T>, spurious: nat): (r: (PooledQueue.Queue<T>, Option<T>))
    requires PooledQueue.HeadLinked(q)
    ensures r == PooledQueue.Dequeue(q)
  {
    match PooledQueue.Advance(q)
    case None => (q, None)
    case Some((q1, dummy, res)) => (RecycleFixed(q1, dummy, spurious), res)
  }

  /** Without a spurious failure the loop as written gives the right
      result on every queue that satisfies the representation: it works
      by luck, through the second exchange failing. */
  lemma {:induction false} AsWrittenWithoutSpurious<T>(q: PooledQueue.Queue<T>, ids: seq<NodeId>, vals: seq<T>, fids: seq<NodeId>)
    requires PooledQueue.Rep(q, ids, vals, fids)
    ensures PooledQueue.HeadLinked(q)
    ensures DequeueAsWritten(q, false) == Some(PooledQueue.Dequeue(q))
  {
    PooledQueue.RepReady(q, ids, vals, fids);
    assert q.heap[ids[0]].next == LinkAfter(ids, 0);
    if q.free.Some? {
      assert q.free.value in Elems(fids);
      assert q.head in Elems(ids);
    }
  }

  /** The leak: enqueue 1 into a fresh queue and dequeue it with the first
      weak exchange failing spuriously. The value comes out, the chain
      from `head` is just the new dummy and the pool is empty, but the old
      dummy (address 1) is still allocated, so the destructor, which
      frees the chain and the pool, leaves it behind. */
  lemma LeakAsWritten()
    ensures var q1 := Enqueue(New<int>(), 1);
            var r := DequeueAsWritten(q1, true);
            && r.Some? && r.value.1 == Some(1)
            && var q2 := r.value.0;
            && List(q2.heap, Some(q2.head), [2]) && List(q2.heap, q2.free, [])
            && 1 in q2.heap
            && q2.heap - Elems([2]) - Elems([]) != map[]
  {
    var q0 := New<int>();
    PooledQueue.EnqueueRefines(q0, [1], [], [], 1);
    var q1 := Enqueue(q0, 1);
    assert q1.heap.Keys == {1, 2};
    var q2 := DequeueAsWritten(q1, true).value.0;
    assert 1 in q2.heap - Elems([2]) - Elems([]);
  }

  /** With the corrected loop every dequeue keeps the representation, for
      any number of spurious failures: the old dummy always reaches the
      pool, so the destructor frees every node. */
  lemma {:induction false} FixedKeepsRep<T>(q: PooledQueue.Queue<T>, ids: seq<NodeId>, vals: seq<T>, fids: seq<NodeId>, spurious: nat)
    requires PooledQueue.Rep(q, ids, vals, fids)
    ensures PooledQueue.HeadLinked(q)
    ensures |vals| == 0 ==> DequeueFixed(q, spurious) == (q, None)
    ensures |vals| > 0 ==>
              && DequeueFixed(q, spurious).1 == Some(vals[0])
              && PooledQueue.Rep(DequeueFixed(q, spurious).0, ids[1..], vals[1..], [ids[0]] + fids)
  {
    PooledQueue.DequeueRefines(q, ids, vals, fids);
  }
}
