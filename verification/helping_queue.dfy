/** include/mpmc_queue.hpp: the same split-count queue, whose `push` is
    `BookQueue.Enqueue` line for line, and whose `pop` reads `tail` and the
    head node's `next` first: when the head node is the tail node but
    `next` is set, the tail is lagging behind a producer, and `pop` moves
    it on before trying again. */
module HelpingQueue {
  import opened Wrappers
  import opened SplitCount
  import opened CountedQueue
  import BookQueue

  /** `push(v)`: the code of `BookQueue.Enqueue`. */
  function Push<T>(q: Queue<T>, v: T, fuel: nat): (r: Result<Queue<T>, Fault>)
    ensures r.Success? ==> r.value.head == q.head
  {
    BookQueue.Enqueue(q, v, fuel)
  }

  /** Pushing `v` onto a queue holding `vals` completes in one pass and
      leaves it holding `vals + [v]`. */
  lemma PushRefines<T>(q: Queue<T>, ids: seq<NodeId>, vals: seq<T>, v: T, fuel: nat)
    requires Rep(q, ids, vals) && fuel >= 1
    ensures Push(q, v, fuel).Success?
    ensures Rep(Push(q, v, fuel).value, ids + [q.nextId], vals + [v])
  {
    BookQueue.EnqueueRefines(q, ids, vals, v, fuel);
  }

  /** One pass of `pop`'s loop. */
  function PopRound<T>(q: Queue<T>): (r: Result<(Queue<T>, Outcome<T>), Fault>)
    ensures r.Success? ==> r.value.0.heap.Keys <= q.heap.Keys && r.value.0.nextId == q.nextId
  {
    var q1 := BumpHead(q);
    var oldHead := q1.head;
    var ptr := oldHead.ptr;
    var oldTail := q1.tail;
    var next :- LoadNext(q1, ptr);
    if ptr == oldTail.ptr then
      if next.ptr.None? then
        match ReleaseRef(q1.heap, ptr)
        case Failure(e) => Failure(e)
        case Success(h) => Success((q1.(heap := h), Returned(None)))
      else
        match SetNewTail(q1, oldTail, next, false)
        case Failure(e) => Failure(e)
        case Success(done) => Success((done.0, Retry))
    else
      match PopHead(q1, oldHead, next, false)
      case Failure(e) => Failure(e)
      case Success(popped) => Success((popped.0, Returned(popped.1)))
  }

  /** `pop()`, allowed `fuel` passes of its loop. */
  function Pop<T>(q: Queue<T>, fuel: nat): (r: Result<(Queue<T>, Option<T>), Fault>)
    ensures r.Success? ==> r.value.0.heap.Keys <= q.heap.Keys && r.value.0.nextId == q.nextId
    decreases fuel
  {
    if fuel == 0 then Failure(Livelock)
    else
      var round :- PopRound(q);
      match round.1
      case Returned(v) => Success((round.0, v))
      case Retry => Pop(round.0, fuel - 1)
  }

  /** On a consistent queue `pop` finishes in one pass and does what the
      book version's `dequeue` does. */
  lemma {:induction false} PopRefines<T>(q: Queue<T>, ids: seq<NodeId>, vals: seq<T>, fuel: nat)
    requires Rep(q, ids, vals) && fuel >= 1
    ensures q.head.ptr.Some? && q.head.ptr.value in q.heap
    ensures Pop(q, fuel) == BookQueue.Dequeue(q)
    ensures |vals| == 0 ==> Pop(q, fuel) == Success((EmptyPopped(q), None))
    ensures |vals| > 0 ==> Pop(q, fuel) == Success((Popped(q), Some(vals[0])))
  {
    BookQueue.DequeueRefines(q, ids, vals);
    assert NodeOk(q, ids, vals, 0);
    if |vals| == 0 {
      assert q.heap[ids[0]].next.ptr.None?;
    } else {
      assert ids[0] != ids[|vals|];
    }
  }

  /** `pop` returns nothing, without moving `head`, when the head node is
      the tail node and its `next` is null. */
  lemma EmptyReturnsNothing<T>(q: Queue<T>)
    requires q.head.ptr.Some? && q.head.ptr.value in q.heap
    requires q.head.ptr == q.tail.ptr && q.heap[q.head.ptr.value].next.ptr.None?
    ensures PopRound(q).Success?
    ensures PopRound(q).value.1 == Returned(None)
    ensures PopRound(q).value.0.head == IncreaseExternalCount(q.head)
    ensures PopRound(q).value.0.tail == q.tail
  {
  }

  /** A lagging tail is helped: when the head node is the tail node but
      its `next` is set, the pass moves `tail` to that `next`, leaves
      `head` where it is, and goes round again. */
  lemma LaggingTailHelped<T>(q: Queue<T>)
    requires q.head.ptr.Some? && q.head.ptr.value in q.heap
    requires q.head.ptr == q.tail.ptr && q.heap[q.head.ptr.value].next.ptr.Some?
    ensures PopRound(q).Success?
    ensures PopRound(q).value.1 == Retry
    ensures PopRound(q).value.0.tail == q.heap[q.head.ptr.value].next
    ensures PopRound(q).value.0.head == IncreaseExternalCount(q.head)
  {
  }
}
