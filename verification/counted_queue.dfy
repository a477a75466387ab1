/** The state and the shared steps of the split-count MPMC queues
    (include/lock-free_mpmc_queue.hpp, include/mpmc_queue.hpp,
    include/mpmc_queue_1.hpp, other/lock-free_mpmc_queue.hpp,
    other/lock-free_mpmc_queue_1.hpp). The queue is a chain of nodes from
    the one `head` names to the one `tail` names; every node but the last
    holds a value, and the last is an empty node waiting for the next
    value. A producer stores its value in the tail node and links a fresh
    empty node after it; a consumer takes the value out of the head node
    and moves `head` to its successor.

    Each step below is one atomic action of one thread. Run by one thread,
    a compare-and-swap whose expected value the same thread has just read
    or written succeeds, so the steps here are the ones such a run takes;
    the branches that depend on the state (a lagging tail, a slot already
    claimed) are kept and taken on whatever state is given. */
module CountedQueue {
  import opened Wrappers
  import opened Ring
  import opened SplitCount
  import Linked

  datatype Queue<T> = Queue(heap: CHeap<T>, head: Handle, tail: Handle, nextId: NodeId)

  /** How one pass of a consumer's retry loop ends: it returns (a null
      `unique_ptr` as `None`) or goes round again. */
  datatype Outcome<T> = Returned(value: Option<T>) | Retry

  /** The constructor: one fresh node, named by `head` and `tail` through
      the same handle `{1, ptr}`. */
  function New<T>(): Queue<T> {
    Queue(map[0 := FreshNode()], Handle(1, Some(0)), Handle(1, Some(0)), 1)
  }

  /** `new node`: a fresh node at the allocator's next address, and the
      handle `{1, ptr}` a producer keeps for it. */
  function Alloc<T>(q: Queue<T>): (Queue<T>, Handle) {
    (q.(heap := q.heap[q.nextId := FreshNode()], nextId := q.nextId + 1), Handle(1, Some(q.nextId)))
  }

  /** `increase_external_count(head, old_head)`. */
  function BumpHead<T>(q: Queue<T>): Queue<T> {
    q.(head := IncreaseExternalCount(q.head))
  }

  /** `increase_external_count(tail, old_tail)`. */
  function BumpTail<T>(q: Queue<T>): Queue<T> {
    q.(tail := IncreaseExternalCount(q.tail))
  }

  /** Reading `*p`: undefined on a null or deleted node. */
  function Deref<T>(q: Queue<T>, p: Option<NodeId>): Result<CNode<T>, Fault> {
    match p
    case None => Failure(NullDereference)
    case Some(n) => if n in q.heap then Success(q.heap[n]) else Failure(UseAfterFree(n))
  }

  /** `p->data.compare_exchange_strong(nullptr, v)`: claims the data slot
      when it is empty; the flag says whether it was. */
  function ClaimData<T>(q: Queue<T>, p: Option<NodeId>, v: T): Result<(Queue<T>, bool), Fault> {
    var n :- Deref(q, p);
    if n.data.None? then Success((q.(heap := q.heap[p.value := n.(data := Some(v))]), true))
    else Success((q, false))
  }

  /** `p->next.load()`. */
  function LoadNext<T>(q: Queue<T>, p: Option<NodeId>): Result<Handle, Fault> {
    var n :- Deref(q, p);
    Success(n.next)
  }

  /** `p->next = desired`, or a compare-and-swap on `next` that is known to
      succeed. */
  function StoreNext<T>(q: Queue<T>, p: Option<NodeId>, desired: Handle): Result<Queue<T>, Fault> {
    var n :- Deref(q, p);
    Success(q.(heap := q.heap[p.value := n.(next := desired)]))
  }

  /** `p->next.compare_exchange_strong(expected, desired)`: the flag says
      whether `next` equalled `expected`, and the handle is what `expected`
      holds afterwards (the value `next` had). */
  function CasNext<T>(q: Queue<T>, p: Option<NodeId>, expected: Handle, desired: Handle)
    : Result<(Queue<T>, bool, Handle), Fault>
  {
    var n :- Deref(q, p);
    if n.next == expected then Success((q.(heap := q.heap[p.value := n.(next := desired)]), true, expected))
    else Success((q, false, n.next))
  }

  /** `delete p`: nothing for null, undefined for a node already deleted. */
  function DeleteNode<T>(q: Queue<T>, p: Option<NodeId>): Result<Queue<T>, Fault> {
    match p
    case None => Success(q)
    case Some(n) => if n in q.heap then Success(q.(heap := q.heap - {n})) else Failure(UseAfterFree(n))
  }

  /** `free_external_counter`, with the null check and assertion of
      other/lock-free_mpmc_queue.hpp when `guarded`. */
  function FreeExternal<T>(guarded: bool, h: CHeap<T>, p: Handle): Result<CHeap<T>, Fault> {
    if guarded then FreeExternalCounterGuarded(h, p) else FreeExternalCounter(h, p)
  }

  /** `set_new_tail(old_tail, new_tail)`. The weak compare-and-swap is
      retried while `tail` still names the node `old_tail` named: if it
      does, the loop ends with `tail` set to `new_tail` and the external
      counter of the handle `tail` held is freed; otherwise that node gets
      `release_ref`. Either way `old_tail` ends holding the handle `tail`
      held, which is returned alongside the state; a spurious failure only
      repeats the loop. */
  function SetNewTail<T>(q: Queue<T>, oldTail: Handle, newTail: Handle, guarded: bool)
    : (r: Result<(Queue<T>, Handle), Fault>)
    ensures r.Success? ==> r.value.1 == q.tail
    ensures r.Success? && q.tail.ptr == oldTail.ptr ==>
              r.value.0.tail == newTail && FreeExternal(guarded, q.heap, q.tail) == Success(r.value.0.heap)
    ensures r.Success? && q.tail.ptr != oldTail.ptr ==>
              r.value.0.tail == q.tail && ReleaseRef(q.heap, oldTail.ptr) == Success(r.value.0.heap)
    ensures r.Success? ==> r.value.0.head == q.head && r.value.0.nextId == q.nextId
  {
    if q.tail.ptr == oldTail.ptr then
      var h :- FreeExternal(guarded, q.heap, q.tail);
      Success((q.(heap := h, tail := newTail), q.tail))
    else
      var h :- ReleaseRef(q.heap, oldTail.ptr);
      Success((q.(heap := h), q.tail))
  }

  /** The consumer's successful step, after `head` moved from `oldHead` to
      `next`: `ptr->data.exchange(nullptr)` and `free_external_counter` of
      the handle the consumer took. */
  function PopHead<T>(q: Queue<T>, oldHead: Handle, next: Handle, guarded: bool)
    : Result<(Queue<T>, Option<T>), Fault>
  {
    var n :- Deref(q, oldHead.ptr);
    var h0 := q.heap[oldHead.ptr.value := n.(data := None)];
    var h :- FreeExternal(guarded, h0, oldHead);
    Success((q.(heap := h, head := next), n.data))
  }

  /** What a winning producer leaves: `v` stored in the tail node, which
      is linked to a fresh empty node through `{1, ptr}`, that handle in
      `tail`, and the old tail's external counter freed with the count the
      producer raised it to. */
  function Appended<T>(q: Queue<T>, v: T): Queue<T>
    requires q.tail.ptr.Some? && q.tail.ptr.value in q.heap
  {
    var l := q.tail.ptr.value;
    var n := q.nextId;
    var last := q.heap[l];
    var h := q.heap[n := FreshNode()][l := CNode(Some(v), Freed(last.count, q.tail.ext + 1), Handle(1, Some(n)))];
    q.(heap := h, tail := Handle(1, Some(n)), nextId := n + 1)
  }

  /** What a successful consumer leaves: the head node deleted and `head`
      moved to its successor. */
  function Popped<T>(q: Queue<T>): Queue<T>
    requires q.head.ptr.Some? && q.head.ptr.value in q.heap
  {
    var p := q.head.ptr.value;
    q.(heap := q.heap - {p}, head := q.heap[p].next)
  }

  /** What a consumer that finds the queue empty and gives back its
      reference with `release_ref` leaves: `head` one count higher and the
      head node's internal count one lower. */
  function EmptyPopped<T>(q: Queue<T>): Queue<T>
    requires q.head.ptr.Some? && q.head.ptr.value in q.heap
  {
    var p := q.head.ptr.value;
    q.(heap := q.heap[p := q.heap[p].(count := Released(q.heap[p].count))], head := IncreaseExternalCount(q.head))
  }

  /** The counter node `k` of a chain whose last index is `last` carries:
      one handle left (`head`'s, or `tail`'s for the last node, both for a
      one-node chain), and an internal count that the references taken
      through `head` and `tail` (beyond their first) have driven below
      zero, modulo 2^30. */
  function ExpectedCount(head: Handle, tail: Handle, k: nat, last: nat): Counter {
    var fromHead := if k == 0 then head.ext - 1 else 0;
    var fromTail := if k == last then tail.ext - 1 else 0;
    Counter(Wrap(-fromHead - fromTail), if k == last then 2 else 1)
  }

  /** Node `k` of the chain `ids` holding `vals`: every node but the last
      holds its value and names its successor through `{1, ptr}`; the last
      is empty with a null `next`. */
  function ExpectedNode<T>(q: Queue<T>, ids: seq<NodeId>, vals: seq<T>, k: nat): CNode<T>
    requires |ids| == |vals| + 1 && k < |ids|
  {
    var count := ExpectedCount(q.head, q.tail, k, |vals|);
    if k < |vals| then CNode(Some(vals[k]), count, Handle(1, Some(ids[k + 1])))
    else CNode(None, count, NullHandle)
  }

  /** `q` holds `vals` through the chain `ids`: `head` names the first
      node and `tail` the last, every node is the `ExpectedNode`, and the
      allocated nodes are exactly the chain (none reachable is deleted,
      none unreachable is leaked). */
  ghost predicate Rep<T>(q: Queue<T>, ids: seq<NodeId>, vals: seq<T>) {
    && |ids| == |vals| + 1
    && Linked.Distinct(ids)
    && q.head.ptr == Some(ids[0])
    && q.tail.ptr == Some(ids[|vals|])
    && q.head.ext >= 1
    && q.tail.ext >= 1
    && q.heap.Keys == Linked.Elems(ids)
    && (forall x :: x in q.heap ==> x < q.nextId)
    && forall k :: 0 <= k < |ids| ==> NodeOk(q, ids, vals, k)
  }

  /** Node `k` of the chain is allocated and is the `ExpectedNode`. */
  ghost predicate NodeOk<T>(q: Queue<T>, ids: seq<NodeId>, vals: seq<T>, k: nat)
    requires |ids| == |vals| + 1 && k < |ids|
  {
    ids[k] in q.heap && q.heap[ids[k]] == ExpectedNode(q, ids, vals, k)
  }

  /** `empty()`: the head node's `next` is null. */
  predicate Empty<T>(q: Queue<T>)
    requires q.head.ptr.Some? && q.head.ptr.value in q.heap
  {
    q.heap[q.head.ptr.value].next.ptr.None?
  }

  /** A new queue holds nothing, through its one node. */
  lemma NewRep<T>()
    ensures Rep(New<T>(), [0], [])
    ensures Empty(New<T>())
  {
    var q := New<T>();
    assert Linked.Elems([0]) == {0};
  }

  /** `empty()` is true exactly when the queue holds nothing. */
  lemma EmptyIff<T>(q: Queue<T>, ids: seq<NodeId>, vals: seq<T>)
    requires Rep(q, ids, vals)
    ensures q.head.ptr.Some? && q.head.ptr.value in q.heap
    ensures Empty(q) <==> |vals| == 0
  {
    assert NodeOk(q, ids, vals, 0);
  }

  /** A winning producer's step on a queue holding `vals` leaves one
      holding `vals + [v]`, the fresh node appended to the chain. */
  lemma {:induction false} RepAppend<T>(q: Queue<T>, ids: seq<NodeId>, vals: seq<T>, v: T)
    requires Rep(q, ids, vals)
    ensures q.tail.ptr.Some? && q.tail.ptr.value in q.heap
    ensures Rep(Appended(q, v), ids + [q.nextId], vals + [v])
  {
    var n := q.nextId;
    var r := Appended(q, v);
    var ids', vals' := ids + [n], vals + [v];
    assert ids[|vals|] in q.heap;
    forall k | 0 <= k < |ids'|
      ensures NodeOk(r, ids', vals', k)
    {
      AppendedNode(q, ids, vals, v, k);
    }
    forall i, j | 0 <= i < j < |ids'| ensures ids'[i] != ids'[j] {
      if j == |vals| + 1 {
        assert ids'[i] == ids[i] && ids[i] in q.heap;
      }
    }
    Linked.ElemsAppend(ids, n);
  }

  /** Node `k` of the appended chain is the expected one. */
  lemma {:induction false} AppendedNode<T>(q: Queue<T>, ids: seq<NodeId>, vals: seq<T>, v: T, k: nat)
    requires Rep(q, ids, vals) && k <= |ids|
    ensures q.tail.ptr.Some? && q.tail.ptr.value in q.heap
    ensures var ids' := ids + [q.nextId];
            var r := Appended(q, v);
            NodeOk(r, ids', vals + [v], k)
  {
    var l := ids[|vals|];
    var n := q.nextId;
    assert l in q.heap;
    assert n !in q.heap;
    if k < |vals| {
      assert NodeOk(q, ids, vals, k);
      AppendedKeeps(q, ids, vals, v, k);
    } else if k == |vals| {
      assert NodeOk(q, ids, vals, k);
      TailFreed(q.heap[l].count, q.head, q.tail, |vals|);
      AppendedLast(q, ids, vals, v);
    } else {
      AppendedFresh(q, ids, vals, v);
    }
  }

  lemma AppendedKeeps<T>(q: Queue<T>, ids: seq<NodeId>, vals: seq<T>, v: T, k: nat)
    requires |ids| == |vals| + 1 && k < |vals|
    requires q.tail.ptr == Some(ids[|vals|]) && ids[|vals|] in q.heap
    requires ids[k] != ids[|vals|] && ids[k] != q.nextId
    requires ids[k] in q.heap && q.heap[ids[k]] == ExpectedNode(q, ids, vals, k)
    ensures var r := Appended(q, v);
            ids[k] in r.heap && r.heap[ids[k]] == ExpectedNode(r, ids + [q.nextId], vals + [v], k)
  {
    assert (ids + [q.nextId])[k + 1] == ids[k + 1];
  }

  lemma AppendedLast<T>(q: Queue<T>, ids: seq<NodeId>, vals: seq<T>, v: T)
    requires |ids| == |vals| + 1
    requires q.tail.ptr == Some(ids[|vals|]) && ids[|vals|] in q.heap && ids[|vals|] != q.nextId
    requires Freed(q.heap[ids[|vals|]].count, q.tail.ext + 1) == ExpectedCount(q.head, Handle(1, None), |vals|, |vals| + 1)
    ensures var r := Appended(q, v);
            ids[|vals|] in r.heap && r.heap[ids[|vals|]] == ExpectedNode(r, ids + [q.nextId], vals + [v], |vals|)
  {
  }

  lemma AppendedFresh<T>(q: Queue<T>, ids: seq<NodeId>, vals: seq<T>, v: T)
    requires |ids| == |vals| + 1
    requires q.tail.ptr == Some(ids[|vals|]) && ids[|vals|] in q.heap && ids[|vals|] != q.nextId
    ensures var r := Appended(q, v);
            q.nextId in r.heap && r.heap[q.nextId] == ExpectedNode(r, ids + [q.nextId], vals + [v], |vals| + 1)
  {
  }

  /** Freeing the tail's handle, raised once by the producer, turns the
      counter of the last node into that of a node that is no longer last. */
  lemma {:induction false} TailFreed(c: Counter, head: Handle, tail: Handle, last: nat)
    requires c == ExpectedCount(head, tail, last, last)
    ensures Freed(c, tail.ext + 1) == ExpectedCount(head, Handle(1, None), last, last + 1)
  {
    var fromHead := if last == 0 then head.ext - 1 else 0;
    ModAdd(-fromHead - (tail.ext - 1), tail.ext + 1 - 2, InternalMod);
  }

  /** A successful consumer's step on a queue holding `vals`, not empty,
      returns the first value and leaves a queue holding the rest, the
      old head node deleted. */
  lemma {:induction false} RepPopped<T>(q: Queue<T>, ids: seq<NodeId>, vals: seq<T>)
    requires Rep(q, ids, vals) && |vals| > 0
    ensures q.head.ptr.Some? && q.head.ptr.value in q.heap
    ensures q.heap[q.head.ptr.value].data == Some(vals[0])
    ensures q.heap[q.head.ptr.value].next == Handle(1, Some(ids[1]))
    ensures Rep(Popped(q), ids[1..], vals[1..])
  {
    var p := ids[0];
    assert NodeOk(q, ids, vals, 0);
    var r := Popped(q);
    var ids', vals' := ids[1..], vals[1..];
    forall k | 0 <= k < |ids'|
      ensures NodeOk(r, ids', vals', k)
    {
      assert ids'[k] == ids[k + 1] != p;
      assert NodeOk(q, ids, vals, k + 1);
    }
    Linked.DistinctSuffix(ids, 1);
    Linked.ElemsDropFirst(ids);
  }

  /** A consumer's step on an empty queue that ends with `release_ref`
      leaves it empty and consistent, the head node alive. */
  lemma {:induction false} RepEmptyPopped<T>(q: Queue<T>, ids: seq<NodeId>, vals: seq<T>)
    requires Rep(q, ids, vals) && |vals| == 0
    ensures q.head.ptr.Some? && q.head.ptr.value in q.heap
    ensures Rep(EmptyPopped(q), ids, vals)
  {
    var p := ids[0];
    assert NodeOk(q, ids, vals, 0);
    var r := EmptyPopped(q);
    ModAdd(-(q.head.ext - 1) - (q.tail.ext - 1), -1, InternalMod);
    assert NodeOk(r, ids, vals, 0);
  }

  /** `length()`: follows `next` from the head node to a null link and
      returns the number of nodes met minus one, the number of values. */
  method Length<T>(q: Queue<T>, ids: seq<NodeId>, vals: seq<T>) returns (n: nat)
    requires Rep(q, ids, vals)
    ensures n == |vals| == |ids| - 1
  {
    var count := 0;
    var p := q.head.ptr;
    while p.Some?
      invariant 0 <= count <= |ids|
      invariant p == (if count < |ids| then Some(ids[count]) else None)
      decreases |ids| - count
    {
      assert NodeOk(q, ids, vals, count);
      p := q.heap[p.value].next.ptr;
      count := count + 1;
    }
    n := count - 1;
  }
}
