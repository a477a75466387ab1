/** include/mpmc_queue_1.hpp: the split-count queue without helping. A
    producer that claims the tail node's data slot stores `next` with a
    plain write and swaps `tail` to the new node with an exchange; one that
    finds the slot taken gives back its reference and tries again. `pop`
    is `BookQueue.Dequeue`. Its `length` and `empty` call `load` on the
    plain `next` field; the intended logic is `CountedQueue.Length` and
    `CountedQueue.Empty`. */
module ExchangeQueue {
  import opened Wrappers
  import opened SplitCount
  import opened CountedQueue
  import BookQueue

  /** One pass of `push`'s loop: `None` when it breaks, `Some(h)` to go
      round again with the same spare node. */
  function PushRound<T>(q: Queue<T>, v: T, newNext: Handle): (r: Result<(Queue<T>, Option<Handle>), Fault>)
    ensures r.Success? ==> r.value.0.head == q.head
  {
    var q1 := BumpTail(q);
    var oldTail := q1.tail;
    var claim :- ClaimData(q1, oldTail.ptr, v);
    if claim.1 then
      var q2 :- StoreNext(claim.0, oldTail.ptr, newNext);
      var previous := q2.tail;
      var h :- FreeExternalCounter(q2.heap, previous);
      Success((q2.(heap := h, tail := newNext), None))
    else
      var h :- ReleaseRef(claim.0.heap, oldTail.ptr);
      Success((claim.0.(heap := h), Some(newNext)))
  }

  /** `push`'s loop, allowed `fuel` passes. */
  function PushLoop<T>(q: Queue<T>, v: T, newNext: Handle, fuel: nat): (r: Result<Queue<T>, Fault>)
    ensures r.Success? ==> r.value.head == q.head
    decreases fuel
  {
    if fuel == 0 then Failure(Livelock)
    else
      var round :- PushRound(q, v, newNext);
      match round.1
      case None => Success(round.0)
      case Some(spare) => PushLoop(round.0, v, spare, fuel - 1)
  }

  /** `push(v)`: allocate the spare node, then run the loop. */
  function Push<T>(q: Queue<T>, v: T, fuel: nat): (r: Result<Queue<T>, Fault>)
    ensures r.Success? ==> r.value.head == q.head
  {
    var (q1, newNext) := Alloc(q);
    PushLoop(q1, v, newNext, fuel)
  }

  /** On a consistent queue `push` ends in its first pass with the state a
      winning producer of the book version leaves. */
  lemma {:induction false} PushRefines<T>(q: Queue<T>, ids: seq<NodeId>, vals: seq<T>, v: T, fuel: nat)
    requires Rep(q, ids, vals) && fuel >= 1
    ensures q.tail.ptr.Some? && q.tail.ptr.value in q.heap
    ensures Push(q, v, fuel) == Success(Appended(q, v))
    ensures Rep(Appended(q, v), ids + [q.nextId], vals + [v])
  {
    RepAppend(q, ids, vals, v);
    assert NodeOk(q, ids, vals, |vals|);
    var l := ids[|vals|];
    assert q.nextId != l;
    var (q1, newNext) := Alloc(q);
    var c := q.heap[l].count;
    assert c.externals == 2;
    var q2 := BumpTail(q1);
    var node := q2.heap[l];
    var q3 := q2.(heap := q2.heap[l := node.(data := Some(v))]);
    assert ClaimData(q2, q2.tail.ptr, v) == Success((q3, true));
    var q4 := q3.(heap := q3.heap[l := node.(data := Some(v), next := newNext)]);
    assert StoreNext(q3, q2.tail.ptr, newNext) == Success(q4);
    var h := q4.heap[l := CNode(Some(v), Freed(c, q.tail.ext + 1), newNext)];
    assert FreeExternalCounter(q4.heap, q4.tail) == Success(h);
    assert q4.(heap := h, tail := newNext) == Appended(q, v);
    assert PushRound(q1, v, newNext) == Success((Appended(q, v), None));
  }

  /** A producer that finds the data slot taken gives back the reference
      it took through `tail` with `release_ref`, links nothing, leaves
      `tail` naming the same node, and goes round again with its spare. */
  lemma LoserRetries<T>(q: Queue<T>, v: T, newNext: Handle)
    requires q.tail.ptr.Some? && q.tail.ptr.value in q.heap
    requires q.heap[q.tail.ptr.value].data.Some?
    ensures var p := q.tail.ptr.value;
            && PushRound(q, v, newNext).Success?
            && PushRound(q, v, newNext).value.1 == Some(newNext)
            && PushRound(q, v, newNext).value.0.tail == IncreaseExternalCount(q.tail)
            && PushRound(q, v, newNext).value.0.heap == Settle(q.heap, p, Released(q.heap[p].count))
  {
  }

  /** `pop` returns nothing exactly when the head node is the tail node;
      otherwise `head` moves to the head node's `next` and its data is
      returned. */
  lemma PopIff<T>(q: Queue<T>)
    requires q.head.ptr.Some? && q.head.ptr.value in q.heap
    ensures var p := q.head.ptr.value;
            && (q.head.ptr == q.tail.ptr ==> BookQueue.Dequeue(q).Success? && BookQueue.Dequeue(q).value.1 == None)
            && (q.head.ptr != q.tail.ptr ==> && BookQueue.Dequeue(q).Success?
                                             && BookQueue.Dequeue(q).value.1 == q.heap[p].data
                                             && BookQueue.Dequeue(q).value.0.head == q.heap[p].next)
  {
  }
}
