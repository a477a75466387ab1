/** include/lock-free_mpmc_queue.hpp: the split-count queue as the book
    writes it. `enqueue` claims the tail node's empty data slot, links a
    fresh node after it, or, when another producer holds the slot, helps
    that producer link and move `tail`; `dequeue` returns nothing when the
    head node is the tail node, and otherwise moves `head` on. */
module BookQueue {
  import opened Wrappers
  import opened Ring
  import opened SplitCount
  import opened CountedQueue
  import Linked

  /** One pass of `enqueue`'s loop with value `v` and spare node handle
      `newNext`: `None` when the loop breaks, `Some(h)` to go round again
      with spare `h`. */
  function EnqueueRound<T>(q: Queue<T>, v: T, newNext: Handle): (r: Result<(Queue<T>, Option<Handle>), Fault>)
    ensures r.Success? ==> r.value.0.head == q.head
  {
    var q1 := BumpTail(q);
    var oldTail := q1.tail;
    var claim :- ClaimData(q1, oldTail.ptr, v);
    var cas :- CasNext(claim.0, oldTail.ptr, NullHandle, newNext);
    if claim.1 then
      var q3 :- if cas.1 then Success(cas.0) else DeleteNode(cas.0, newNext.ptr);
      var next := if cas.1 then newNext else cas.2;
      var done :- SetNewTail(q3, oldTail, next, false);
      Success((done.0, None))
    else if cas.1 then
      var (q3, spare) := Alloc(cas.0);
      var done :- SetNewTail(q3, oldTail, newNext, false);
      Success((done.0, Some(newNext.(ptr := spare.ptr))))
    else
      var done :- SetNewTail(cas.0, oldTail, cas.2, false);
      Success((done.0, Some(newNext)))
  }

  /** `enqueue`'s loop, allowed `fuel` passes. */
  function EnqueueLoop<T>(q: Queue<T>, v: T, newNext: Handle, fuel: nat): (r: Result<Queue<T>, Fault>)
    ensures r.Success? ==> r.value.head == q.head
    decreases fuel
  {
    if fuel == 0 then Failure(Livelock)
    else
      var round :- EnqueueRound(q, v, newNext);
      match round.1
      case None => Success(round.0)
      case Some(spare) => EnqueueLoop(round.0, v, spare, fuel - 1)
  }

  /** `enqueue(v)`: allocate the spare node, then run the loop. */
  function Enqueue<T>(q: Queue<T>, v: T, fuel: nat): (r: Result<Queue<T>, Fault>)
    ensures r.Success? ==> r.value.head == q.head
  {
    var (q1, newNext) := Alloc(q);
    EnqueueLoop(q1, v, newNext, fuel)
  }

  /** `dequeue()`: the compare-and-swap on `head` compares against the
      handle this thread has just stored there, so it succeeds and the
      loop ends in its first pass. */
  function Dequeue<T>(q: Queue<T>): (r: Result<(Queue<T>, Option<T>), Fault>)
    ensures r.Success? ==> r.value.0.tail == q.tail && r.value.0.nextId == q.nextId
    ensures r.Success? ==> r.value.0.heap.Keys <= q.heap.Keys
    ensures r.Success? && q.head.ptr == q.tail.ptr ==>
              r.value.1.None? && r.value.0.head == IncreaseExternalCount(q.head)
    ensures r.Success? && q.head.ptr != q.tail.ptr ==>
              && q.head.ptr.Some? && q.head.ptr.value in q.heap
              && r.value.0.head == q.heap[q.head.ptr.value].next
              && r.value.1 == q.heap[q.head.ptr.value].data
  {
    var q1 := BumpHead(q);
    var oldHead := q1.head;
    var ptr := oldHead.ptr;
    if ptr == q1.tail.ptr then
      var h :- ReleaseRef(q1.heap, ptr);
      Success((q1.(heap := h), None))
    else
      var next :- LoadNext(q1, ptr);
      PopHead(q1, oldHead, next, false)
  }

  /** Enqueueing `v` onto a queue holding `vals` completes in one pass:
      `v` goes into the tail node, a fresh empty node becomes the tail, and
      the queue holds `vals + [v]`. */
  lemma {:induction false} EnqueueRefines<T>(q: Queue<T>, ids: seq<NodeId>, vals: seq<T>, v: T, fuel: nat)
    requires Rep(q, ids, vals) && fuel >= 1
    ensures q.tail.ptr.Some? && q.tail.ptr.value in q.heap
    ensures Enqueue(q, v, fuel) == Success(Appended(q, v))
    ensures Rep(Appended(q, v), ids + [q.nextId], vals + [v])
  {
    RepAppend(q, ids, vals, v);
    assert NodeOk(q, ids, vals, |vals|);
    var l := ids[|vals|];
    assert q.nextId != l;
    var (q1, newNext) := Alloc(q);
    var c := q.heap[l].count;
    assert c.externals == 2;
    var q2 := BumpTail(q1);
    var node := q2.heap[l];
    var q3 := q2.(heap := q2.heap[l := node.(data := Some(v))]);
    assert ClaimData(q2, q2.tail.ptr, v) == Success((q3, true));
    var q4 := q3.(heap := q3.heap[l := node.(data := Some(v), next := newNext)]);
    assert CasNext(q3, q2.tail.ptr, NullHandle, newNext) == Success((q4, true, NullHandle));
    var q5 := q4.(heap := q4.heap[l := CNode(Some(v), Freed(c, q.tail.ext + 1), newNext)], tail := newNext);
    assert FreeExternal(false, q4.heap, q4.tail) == Success(q5.heap);
    assert SetNewTail(q4, q2.tail, newNext, false) == Success((q5, q4.tail));
    assert q5 == Appended(q, v);
    assert EnqueueRound(q1, v, newNext) == Success((Appended(q, v), None));
  }

  /** Dequeueing from a queue holding nothing returns nothing and leaves
      it holding nothing; from a queue holding `vals` it returns `vals[0]`,
      deletes the old head node and leaves the queue holding the rest. */
  lemma {:induction false} DequeueRefines<T>(q: Queue<T>, ids: seq<NodeId>, vals: seq<T>)
    requires Rep(q, ids, vals)
    ensures q.head.ptr.Some? && q.head.ptr.value in q.heap
    ensures |vals| == 0 ==> Dequeue(q) == Success((EmptyPopped(q), None)) && Rep(EmptyPopped(q), ids, vals)
    ensures |vals| > 0 ==> && Dequeue(q) == Success((Popped(q), Some(vals[0])))
                           && Rep(Popped(q), ids[1..], vals[1..])
                           && ids[0] !in Popped(q).heap
  {
    assert NodeOk(q, ids, vals, 0);
    if |vals| == 0 {
      RepEmptyPopped(q, ids, vals);
    } else {
      RepPopped(q, ids, vals);
      assert ids[0] != ids[|vals|];
      PopRemovesHead(q, ids, vals);
    }
  }

  /** The consumer's step on a queue that is not empty removes the head
      node and returns its value. */
  lemma {:induction false} PopRemovesHead<T>(q: Queue<T>, ids: seq<NodeId>, vals: seq<T>)
    requires Rep(q, ids, vals) && |vals| > 0
    ensures q.head.ptr.Some? && q.head.ptr.value in q.heap
    ensures Dequeue(q) == Success((Popped(q), Some(vals[0])))
  {
    assert NodeOk(q, ids, vals, 0);
    assert ids[0] != ids[|vals|];
    var p := ids[0];
    var q1 := BumpHead(q);
    var node := q.heap[p];
    assert node.count == Counter(Wrap(-(q.head.ext - 1)), 1);
    ModAdd(-(q.head.ext - 1), q.head.ext + 1 - 2, InternalMod);
    assert Freed(node.count, q1.head.ext) == Counter(0, 0);
    var h0 := q.heap[p := node.(data := None)];
    assert FreeExternal(false, h0, q1.head) == Success(h0 - {p});
    assert h0 - {p} == q.heap - {p};
    assert PopHead(q1, q1.head, node.next, false) == Success((Popped(q), node.data));
  }

  /** A fresh queue is empty and `dequeue` on it returns nothing. */
  lemma NewDequeuesNothing<T>()
    ensures Empty(New<T>())
    ensures Dequeue(New<T>()).Success? && Dequeue(New<T>()).value.1 == None
  {
    NewRep<T>();
    DequeueRefines(New<T>(), [0], []);
  }

  /** First in, first out: after enqueueing `v`, a dequeue returns the
      oldest value, which is `v` only when the queue held nothing. */
  lemma {:induction false} FifoOrder<T>(q: Queue<T>, ids: seq<NodeId>, vals: seq<T>, v: T)
    requires Rep(q, ids, vals)
    ensures Enqueue(q, v, 1).Success?
    ensures var d := Dequeue(Enqueue(q, v, 1).value);
            d.Success? && d.value.1 == Some(if |vals| == 0 then v else vals[0])
  {
    EnqueueRefines(q, ids, vals, v, 1);
    DequeueRefines(Appended(q, v), ids + [q.nextId], vals + [v]);
  }

  /** `~LockFreeMPMCQueue()`: dequeue until a dequeue returns nothing, then
      delete the node `head` names. The values come out in queue order and
      nothing is left allocated. */
  method Destroy<T>(q: Queue<T>, ids: seq<NodeId>, vals: seq<T>)
    returns (popped: seq<T>, heap: CHeap<T>)
    requires Rep(q, ids, vals)
    ensures popped == vals
    ensures heap == map[]
  {
    var r := q;
    ghost var rids, rvals := ids, vals;
    popped := [];
    while true
      invariant Rep(r, rids, rvals)
      invariant vals == popped + rvals
      decreases |rvals|
    {
      DequeueRefines(r, rids, rvals);
      var step := Dequeue(r);
      var next := step.value.0;
      var got := step.value.1;
      if got.None? {
        r := next;
        break;
      }
      popped := popped + [got.value];
      rids, rvals := rids[1..], rvals[1..];
      r := next;
    }
    assert r.heap.Keys == Linked.Elems(rids) == {rids[0]};
    heap := r.heap - {r.head.ptr.value};
    assert heap.Keys == {};
  }
}
