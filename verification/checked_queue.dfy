/** other/lock-free_mpmc_queue_1.hpp: the book's split-count queue with
    `assert_ptr` checks in `enqueue`, and a losing producer that, finding
    `next` still null after its compare-and-swap failed, gives back its
    reference and tries again instead of moving `tail`. Its `dequeue` is
    `BookQueue.Dequeue`, and `length` and `empty` are
    `CountedQueue.Length` and `CountedQueue.Empty`. */
module CheckedQueue {
  import opened Wrappers
  import opened SplitCount
  import opened CountedQueue
  import BookQueue

  /** `assert_ptr(p, who)`: aborts on a null pointer, otherwise nothing. */
  function AssertPtr(p: Handle): (r: Result<(), Fault>)
    ensures r.Failure? <==> p.ptr.None?
    ensures r.Failure? ==> r.error == AssertionFailure
  {
    if p.ptr.None? then Failure(AssertionFailure) else Success(())
  }

  /** One pass of `enqueue`'s loop: `None` when it breaks, `Some(h)` to go
      round again with spare `h`. */
  function EnqueueRound<T>(q: Queue<T>, v: T, newNext: Handle): (r: Result<(Queue<T>, Option<Handle>), Fault>)
    ensures r.Success? ==> r.value.0.head == q.head
  {
    var q1 := BumpTail(q);
    var oldTail := q1.tail;
    if AssertPtr(q.tail).Failure? || AssertPtr(oldTail).Failure? then Failure(AssertionFailure)
    else
    var claim :- ClaimData(q1, oldTail.ptr, v);
    if claim.1 then
      if AssertPtr(oldTail).Failure? then Failure(AssertionFailure)
      else
      var cas :- CasNext(claim.0, oldTail.ptr, NullHandle, newNext);
      var q3 :- if cas.1 then Success(cas.0) else DeleteNode(cas.0, newNext.ptr);
      var next := if cas.1 then newNext else cas.2;
      var done :- SetNewTail(q3, oldTail, next, false);
      Success((done.0, None))
    else
      var cas :- CasNext(claim.0, oldTail.ptr, NullHandle, newNext);
      if cas.1 then
        var (q3, spare) := Alloc(cas.0);
        var done :- SetNewTail(q3, oldTail, newNext, false);
        Success((done.0, Some(newNext.(ptr := spare.ptr))))
      else if cas.2.ptr.None? then
        var h :- ReleaseRef(cas.0.heap, oldTail.ptr);
        Success((cas.0.(heap := h), Some(newNext)))
      else
        var done :- SetNewTail(cas.0, oldTail, cas.2, false);
        Success((done.0, Some(newNext)))
  }

  /** `enqueue`'s loop, allowed `fuel` passes. */
  function EnqueueLoop<T>(q: Queue<T>, v: T, newNext: Handle, fuel: nat): (r: Result<Queue<T>, Fault>)
    ensures r.Success? ==> r.value.head == q.head
    ensures q.tail.ptr.None? && fuel > 0 ==> r == Failure(AssertionFailure)
    decreases fuel
  {
    if fuel == 0 then Failure(Livelock)
    else
      var round :- EnqueueRound(q, v, newNext);
      match round.1
      case None => Success(round.0)
      case Some(spare) => EnqueueLoop(round.0, v, spare, fuel - 1)
  }

  /** `enqueue(v)`. */
  function Enqueue<T>(q: Queue<T>, v: T, fuel: nat): (r: Result<Queue<T>, Fault>)
    ensures r.Success? ==> r.value.head == q.head
    ensures q.tail.ptr.None? && fuel > 0 ==> r == Failure(AssertionFailure)
  {
    var (q1, newNext) := Alloc(q);
    EnqueueLoop(q1, v, newNext, fuel)
  }

  /** A producer that claims the tail node's empty data slot passes both
      checks and takes the book version's winning path, and that pass ends
      the loop. */
  lemma WinnerRoundAsBook<T>(q: Queue<T>, v: T, newNext: Handle)
    requires q.tail.ptr.Some? && q.tail.ptr.value in q.heap
    requires q.heap[q.tail.ptr.value].data.None?
    ensures EnqueueRound(q, v, newNext) == BookQueue.EnqueueRound(q, v, newNext)
    ensures EnqueueRound(q, v, newNext).Success? ==> EnqueueRound(q, v, newNext).value.1.None?
  {
  }

  /** On a consistent queue the checked `enqueue` is the book's. */
  lemma {:induction false} EnqueueAsBook<T>(q: Queue<T>, ids: seq<NodeId>, vals: seq<T>, v: T, fuel: nat)
    requires Rep(q, ids, vals) && fuel >= 1
    ensures Enqueue(q, v, fuel) == BookQueue.Enqueue(q, v, fuel)
  {
    RepAppend(q, ids, vals, v);
    assert NodeOk(q, ids, vals, |vals|);
    assert q.nextId != ids[|vals|];
    var (q1, newNext) := Alloc(q);
    WinnerRoundAsBook(q1, v, newNext);
  }

  /** Enqueueing `v` onto a queue holding `vals` passes every check,
      completes in one pass and leaves it holding `vals + [v]`. */
  lemma {:induction false} EnqueueRefines<T>(q: Queue<T>, ids: seq<NodeId>, vals: seq<T>, v: T, fuel: nat)
    requires Rep(q, ids, vals) && fuel >= 1
    ensures q.tail.ptr.Some? && q.tail.ptr.value in q.heap
    ensures Enqueue(q, v, fuel) == Success(Appended(q, v))
    ensures Rep(Appended(q, v), ids + [q.nextId], vals + [v])
  {
    EnqueueAsBook(q, ids, vals, v, fuel);
    BookQueue.EnqueueRefines(q, ids, vals, v, fuel);
  }

  /** A losing producer whose compare-and-swap on `next` failed while
      `next` still holds a null pointer gives back the reference it took
      through `tail` and goes round again: `tail` keeps naming the same
      node and no node is linked. */
  lemma NextStillNullRetries<T>(q: Queue<T>, v: T, newNext: Handle)
    requires q.tail.ptr.Some? && q.tail.ptr.value in q.heap
    requires var n := q.heap[q.tail.ptr.value];
             n.data.Some? && n.next.ptr.None? && n.next != NullHandle
    ensures var p := q.tail.ptr.value;
            && EnqueueRound(q, v, newNext).Success?
            && EnqueueRound(q, v, newNext).value.1 == Some(newNext)
            && EnqueueRound(q, v, newNext).value.0.tail == IncreaseExternalCount(q.tail)
            && EnqueueRound(q, v, newNext).value.0.heap == Settle(q.heap, p, Released(q.heap[p].count))
  {
  }

  /** With `tail` null the first `assert_ptr` aborts the producer. */
  lemma NullTailAborts<T>(q: Queue<T>, v: T, newNext: Handle)
    requires q.tail.ptr.None?
    ensures EnqueueRound(q, v, newNext) == Failure(AssertionFailure)
  {
  }
}
