/** The dummy-node MPSC queue with a node pool, shared by
    include/mpsc_queue_v2.0.hpp and other/lock-free_mpsc_queue_v3.0.hpp.
    Besides the `head`/`tail` chain there is a free stack of recycled
    nodes: a producer takes its node from the free stack when it can and
    allocates one otherwise, and the consumer pushes each old dummy onto
    the free stack instead of deleting it. The new dummy's data is reset
    when its value is moved out, so every dummy and every pooled node
    carries no value. Addresses start at 1: 0 is the null pointer. */
module PooledQueue {
  import opened Wrappers
  import opened Linked

  datatype Queue<T> = Queue(heap: Heap<T>, head: NodeId, tail: NodeId, free: Option<NodeId>, nextId: NodeId)

  /** `q` holds `vals` in the chain `ids` (dummy first, `tail` last) and
      pools the nodes `fids` (top first); the two lists are disjoint and
      together they are every allocated node, so none leaks. */
  ghost predicate Rep<T>(q: Queue<T>, ids: seq<NodeId>, vals: seq<T>, fids: seq<NodeId>) {
    && List(q.heap, Some(q.head), ids)
    && |ids| == |vals| + 1
    && q.tail == ids[|ids| - 1]
    && Holds(q.heap, ids[1..], vals)
    && List(q.heap, q.free, fids)
    && Elems(ids) !! Elems(fids)
    && q.heap.Keys == Elems(ids) + Elems(fids)
    && Below(q.heap, q.nextId)
    && 0 !in q.heap
  }

  /** The constructors: one dummy with no value at address 1, an empty
      pool. */
  function New<T>(): (q: Queue<T>)
    ensures q.head == q.tail && q.free.None?
    ensures q.heap == map[q.head := Node(None, None)]
    ensures Rep(q, [q.head], [], [])
  {
    Queue(map[1 := Node(None, None)], 1, 1, None, 2)
  }

  /** The allocator and the pool's top are usable. */
  ghost predicate Ready<T>(q: Queue<T>) {
    && q.tail in q.heap
    && (q.free.Some? ==> q.free.value in q.heap && q.free.value != q.tail)
    && Below(q.heap, q.nextId)
    && q.nextId > 0
  }

  /** The producer's node: the pool's top, popped and refilled with `v`
      and a null link, or a fresh node when the pool is empty. */
  function Take<T>(q: Queue<T>, v: T): (r: (Queue<T>, NodeId))
    requires Ready(q)
    ensures r.1 in r.0.heap && r.0.heap[r.1] == Node(Some(v), None)
    ensures q.free.Some? ==> r.1 == q.free.value && r.0.free == q.heap[r.1].next && r.0.heap.Keys == q.heap.Keys
    ensures q.free.None? ==> r.1 !in q.heap && r.0.free.None? && r.0.heap.Keys == q.heap.Keys + {r.1}
    ensures r.0.head == q.head && r.0.tail == q.tail && r.1 != q.tail
    ensures forall x :: x in q.heap && x != r.1 ==> r.0.heap[x] == q.heap[x]
    ensures Below(r.0.heap, r.0.nextId) && r.0.nextId > 0
  {
    match q.free
    case Some(n) => (q.(heap := q.heap[n := Node(Some(v), None)], free := q.heap[n].next), n)
    case None => (q.(heap := q.heap[q.nextId := Node(Some(v), None)], nextId := q.nextId + 1), q.nextId)
  }

  /** `prev = tail.exchange(node); prev->next = node`. */
  function Link<T>(q: Queue<T>, n: NodeId): (r: Queue<T>)
    requires q.tail in q.heap && n in q.heap && n != q.tail
    ensures r.tail == n && r.head == q.head && r.free == q.free && r.heap.Keys == q.heap.Keys
    ensures r.heap[q.tail] == q.heap[q.tail].(next := Some(n))
    ensures forall x :: x in q.heap && x != q.tail ==> r.heap[x] == q.heap[x]
  {
    q.(heap := q.heap[q.tail := q.heap[q.tail].(next := Some(n))], tail := n)
  }

  /** `enqueue(value)`: take a node for `value` and link it at the tail. */
  function Enqueue<T>(q: Queue<T>, v: T): (r: Queue<T>)
    requires Ready(q)
    ensures r.tail in r.heap && r.heap[r.tail] == Node(Some(v), None)
    ensures r.head == q.head
  {
    var (q1, n) := Take(q, v);
    Link(q1, n)
  }

  /** The dummy is live, and so is its successor when it has one. */
  ghost predicate HeadLinked<T>(q: Queue<T>) {
    && q.head in q.heap
    && (q.heap[q.head].next.Some? ==> q.heap[q.head].next.value in q.heap)
  }

  /** Push a node onto the pool: `node->next = free; free = node`. */
  function Recycle<T>(q: Queue<T>, n: NodeId): (r: Queue<T>)
    requires n in q.heap
    ensures r.free == Some(n) && r.heap.Keys == q.heap.Keys && r.heap[n].next == q.free
    ensures r.heap[n].data == q.heap[n].data && r.head == q.head && r.tail == q.tail
    ensures forall x :: x in q.heap && x != n ==> r.heap[x] == q.heap[x]
  {
    q.(heap := q.heap[n := q.heap[n].(next := q.free)], free := Some(n))
  }

  /** The consumer's step up to the recycling of the old dummy: the
      successor becomes the dummy and its value is moved out and reset.
      Gives the queue, the old dummy and the value, or `None` when the
      dummy has no successor. */
  function Advance<T>(q: Queue<T>): (r: Option<(Queue<T>, NodeId, Option<T>)>)
    requires HeadLinked(q)
    ensures r.None? <==> q.heap[q.head].next.None?
    ensures r.Some? ==>
              var nx := q.heap[q.head].next.value;
              && r.value.1 == q.head
              && r.value.0.head == nx && r.value.0.tail == q.tail && r.value.0.free == q.free
              && r.value.2 == q.heap[nx].data
              && r.value.0.heap == q.heap[nx := q.heap[nx].(data := None)]
  {
    match q.heap[q.head].next
    case None => None
    case Some(nx) =>
      Some((q.(heap := q.heap[nx := q.heap[nx].(data := None)], head := nx), q.head, q.heap[nx].data))
  }

  /** `dequeue()` with the old dummy pushed onto the pool: no value when
      the dummy has no successor, otherwise the successor's value. */
  function Dequeue<T>(q: Queue<T>): (r: (Queue<T>, Option<T>))
    requires HeadLinked(q)
    ensures q.heap[q.head].next.None? ==> r == (q, None)
    ensures q.heap[q.head].next.Some? ==>
              && r.1 == q.heap[q.heap[q.head].next.value].data
              && r.0.free == Some(q.head) && r.0.heap.Keys == q.heap.Keys
  {
    match Advance(q)
    case None => (q, None)
    case Some((q1, dummy, res)) => (Recycle(q1, dummy), res)
  }

  /** What taking a node leaves: the chain and its values untouched, the
      taken node `n` carrying `v` outside both lists, the rest of the pool
      in `fids`. */
  ghost predicate Taken<T>(q: Queue<T>, ids: seq<NodeId>, vals: seq<T>, fids: seq<NodeId>, n: NodeId, v: T) {
    && List(q.heap, Some(q.head), ids)
    && |ids| == |vals| + 1
    && q.tail == ids[|ids| - 1]
    && Holds(q.heap, ids[1..], vals)
    && List(q.heap, q.free, fids)
    && n in q.heap && q.heap[n] == Node(Some(v), None)
    && n !in Elems(ids) && n !in Elems(fids)
    && Elems(ids) !! Elems(fids)
    && q.heap.Keys == Elems(ids) + Elems(fids) + {n}
    && Below(q.heap, q.nextId)
    && 0 !in q.heap
  }

  /** The node a producer takes: the pool's top, or the allocator's next
      address. */
  function NextNode<T>(q: Queue<T>, fids: seq<NodeId>): NodeId {
    if |fids| > 0 then fids[0] else q.nextId
  }

  lemma {:induction false} RepReady<T>(q: Queue<T>, ids: seq<NodeId>, vals: seq<T>, fids: seq<NodeId>)
    requires Rep(q, ids, vals, fids)
    ensures Ready(q) && HeadLinked(q)
  {
    assert ids[|ids| - 1] in q.heap;
    assert q.heap[ids[0]].next == LinkAfter(ids, 0);
    if q.free.Some? {
      assert fids[0] in Elems(fids);
      assert q.tail in Elems(ids);
    }
    assert 0 !in q.heap;
    if q.nextId == 0 {
      assert ids[0] in q.heap;
    }
  }

  /** Every address a represented queue stores, in `head` or in a link,
      is a live node: non-null and below the allocator's counter. */
  lemma {:induction false} AddressesBelow<T>(q: Queue<T>, ids: seq<NodeId>, vals: seq<T>, fids: seq<NodeId>)
    requires Rep(q, ids, vals, fids)
    ensures 0 < q.head < q.nextId
    ensures q.free.Some? ==> q.free.value in q.heap
    ensures q.free.Some? && q.heap[q.free.value].next.Some? ==> 0 < q.heap[q.free.value].next.value < q.nextId
  {
    LiveLinks(q.heap, q.head, q.free, ids, fids, q.nextId);
  }

  lemma {:induction false} LiveLinks<T>(h: Heap<T>, head: NodeId, free: Option<NodeId>, ids: seq<NodeId>, fids: seq<NodeId>, nextId: NodeId)
    requires List(h, Some(head), ids) && List(h, free, fids)
    requires Below(h, nextId) && 0 !in h
    ensures 0 < head < nextId
    ensures free.Some? ==> free.value in h
    ensures free.Some? && h[free.value].next.Some? ==> 0 < h[free.value].next.value < nextId
  {
    LinkAt(h, ids, 0);
    if free.Some? {
      LinkAt(h, fids, 0);
      if h[fids[0]].next.Some? {
        LinkAt(h, fids, 1);
      }
    }
  }

  lemma {:induction false} TakeRefines<T>(q: Queue<T>, ids: seq<NodeId>, vals: seq<T>, fids: seq<NodeId>, v: T)
    requires Rep(q, ids, vals, fids)
    ensures Ready(q)
    ensures Take(q, v).1 == NextNode(q, fids)
    ensures Taken(Take(q, v).0, ids, vals, if |fids| > 0 then fids[1..] else [], NextNode(q, fids), v)
  {
    RepReady(q, ids, vals, fids);
    var (q1, n) := Take(q, v);
    var fids' := if |fids| > 0 then fids[1..] else [];
    assert n !in Elems(ids) by {
      if |fids| > 0 {
        assert n in Elems(fids);
      }
    }
    assert forall k :: 0 <= k < |ids| ==> ids[k] != n;
    ListSameLinks(q.heap, q1.heap, Some(q.head), ids);
    HoldsSameData(q.heap, q1.heap, ids[1..], vals) by {
      assert forall k :: 0 <= k < |ids[1..]| ==> ids[1..][k] == ids[k + 1];
    }
    if |fids| > 0 {
      ListTail(q.heap, fids);
      ElemsDropFirst(fids);
      assert forall k :: 0 <= k < |fids'| ==> fids'[k] == fids[k + 1] != n;
      ListSameLinks(q.heap, q1.heap, q1.free, fids');
    }
  }

  lemma {:induction false} LinkRefines<T>(q: Queue<T>, ids: seq<NodeId>, vals: seq<T>, fids: seq<NodeId>, n: NodeId, v: T)
    requires Taken(q, ids, vals, fids, n, v)
    ensures q.tail in q.heap && n in q.heap && n != q.tail
    ensures Rep(Link(q, n), ids + [n], vals + [v], fids)
  {
    assert ids[|ids| - 1] in Elems(ids);
    var r := Link(q, n);
    assert n !in ids;
    ListSnoc(q.heap, Some(q.head), ids, n);
    var ids' := ids + [n];
    assert ids'[1..] == ids[1..] + [n];
    assert forall k :: 0 <= k < |ids[1..]| ==> ids[1..][k] == ids[k + 1];
    HoldsSameData(q.heap, r.heap, ids[1..], vals);
    HoldsSnoc(r.heap, ids[1..], vals, n, v);
    assert forall k :: 0 <= k < |fids| ==> fids[k] in Elems(fids) && fids[k] != q.tail;
    ListSameLinks(q.heap, r.heap, q.free, fids);
    ElemsAppend(ids, n);
  }

  /** Enqueueing `v` onto a queue holding `vals` gives a queue holding
      `vals + [v]`; the node comes from the top of the pool when there is
      one. */
  lemma {:induction false} EnqueueRefines<T>(q: Queue<T>, ids: seq<NodeId>, vals: seq<T>, fids: seq<NodeId>, v: T)
    requires Rep(q, ids, vals, fids)
    ensures Ready(q)
    ensures Rep(Enqueue(q, v), ids + [NextNode(q, fids)], vals + [v], if |fids| > 0 then fids[1..] else [])
  {
    TakeRefines(q, ids, vals, fids, v);
    var (q1, n) := Take(q, v);
    LinkRefines(q1, ids, vals, if |fids| > 0 then fids[1..] else [], n, v);
  }

  /** Dequeueing from a queue holding `vals` returns nothing and changes
      nothing when `vals` is empty, and otherwise returns `vals[0]`, leaves
      the rest queued and moves the old dummy to the top of the pool. */
  lemma {:induction false} DequeueRefines<T>(q: Queue<T>, ids: seq<NodeId>, vals: seq<T>, fids: seq<NodeId>)
    requires Rep(q, ids, vals, fids)
    ensures HeadLinked(q)
    ensures |vals| == 0 ==> Dequeue(q) == (q, None)
    ensures |vals| > 0 ==> Dequeue(q).1 == Some(vals[0]) && Rep(Dequeue(q).0, ids[1..], vals[1..], [ids[0]] + fids)
  {
    RepReady(q, ids, vals, fids);
    assert q.heap[ids[0]].next == LinkAfter(ids, 0);
    if |vals| > 0 {
      assert ids[1..][0] == ids[1];
      AdvanceRecycle(q, ids, vals, fids);
    }
  }

  lemma {:induction false} AdvanceRecycle<T>(q: Queue<T>, ids: seq<NodeId>, vals: seq<T>, fids: seq<NodeId>)
    requires Rep(q, ids, vals, fids) && |vals| > 0 && HeadLinked(q)
    requires q.heap[q.head].next == Some(ids[1])
    ensures Dequeue(q).1 == Some(vals[0])
    ensures Rep(Dequeue(q).0, ids[1..], vals[1..], [ids[0]] + fids)
  {
    var dummy := ids[0];
    var nx := ids[1];
    assert q.heap[nx].data == Some(vals[0]) by {
      assert ids[1..][0] == nx;
    }
    var h1 := q.heap[nx := q.heap[nx].(data := None)];
    var r := Dequeue(q).0;
    assert r.heap == h1[dummy := h1[dummy].(next := q.free)];
    assert r.head == nx && r.tail == q.tail && r.free == Some(dummy) && r.nextId == q.nextId;
    RecycledLists(q.heap, r.heap, q.free, ids, vals, fids);
    ElemsDropFirst(ids);
    ElemsPush(fids, dummy);
    assert r.tail == ids[1..][|ids[1..]| - 1];
  }

  /** The lists after the consumer's step: the chain from the new dummy,
      its values shifted by one, and the pool with the old dummy on top. */
  lemma RecycledLists<T>(h: Heap<T>, h': Heap<T>, free: Option<NodeId>, ids: seq<NodeId>, vals: seq<T>, fids: seq<NodeId>)
    requires |ids| == |vals| + 1 && |vals| > 0 && List(h, Some(ids[0]), ids)
    requires Holds(h, ids[1..], vals)
    requires List(h, free, fids) && Elems(ids) !! Elems(fids)
    requires h' == h[ids[1] := h[ids[1]].(data := None)][ids[0] := h[ids[0]].(next := free)]
    ensures List(h', Some(ids[1]), ids[1..])
    ensures Holds(h', ids[1..][1..], vals[1..])
    ensures List(h', Some(ids[0]), [ids[0]] + fids)
  {
    ChainAfterAdvance(h, h', free, ids);
    ValuesAfterAdvance(h, h', free, ids, vals);
    PoolAfterRecycle(h, h', free, ids, fids);
  }

  lemma {:induction false} ChainAfterAdvance<T>(h: Heap<T>, h': Heap<T>, free: Option<NodeId>, ids: seq<NodeId>)
    requires |ids| > 1 && List(h, Some(ids[0]), ids)
    requires h' == h[ids[1] := h[ids[1]].(data := None)][ids[0] := h[ids[0]].(next := free)]
    ensures List(h', Some(ids[1]), ids[1..])
  {
    ListTail(h, ids);
    var rest := ids[1..];
    assert forall k :: 0 <= k < |rest| ==> rest[k] == ids[k + 1] != ids[0];
    ListSameLinks(h, h', Some(ids[1]), rest);
  }

  lemma {:induction false} ValuesAfterAdvance<T>(h: Heap<T>, h': Heap<T>, free: Option<NodeId>, ids: seq<NodeId>, vals: seq<T>)
    requires |ids| == |vals| + 1 && |vals| > 0 && List(h, Some(ids[0]), ids)
    requires Holds(h, ids[1..], vals)
    requires h' == h[ids[1] := h[ids[1]].(data := None)][ids[0] := h[ids[0]].(next := free)]
    ensures Holds(h', ids[1..][1..], vals[1..])
  {
    var tail := ids[1..][1..];
    assert forall k :: 0 <= k < |tail| ==> tail[k] == ids[k + 2] && ids[k + 2] != ids[1] && ids[k + 2] != ids[0];
    forall k | 0 <= k < |tail|
      ensures tail[k] in h' && h'[tail[k]].data == Some(vals[1..][k])
    {
      assert tail[k] == ids[1..][k + 1];
    }
  }

  lemma {:induction false} PoolAfterRecycle<T>(h: Heap<T>, h': Heap<T>, free: Option<NodeId>, ids: seq<NodeId>, fids: seq<NodeId>)
    requires |ids| > 1 && List(h, Some(ids[0]), ids)
    requires List(h, free, fids) && Elems(ids) !! Elems(fids)
    requires h' == h[ids[1] := h[ids[1]].(data := None)][ids[0] := h[ids[0]].(next := free)]
    ensures List(h', Some(ids[0]), [ids[0]] + fids)
  {
    var dummy := ids[0];
    assert dummy in Elems(ids) && ids[1] in Elems(ids);
    assert forall k :: 0 <= k < |fids| ==> fids[k] in Elems(fids) && fids[k] != dummy && fids[k] != ids[1];
    ListSameLinks(h, h', free, fids);
    assert dummy in h;
    ListCons(h', free, fids, dummy);
  }

  /** The destructors: delete every node of the chain from `head`, then
      every node of the pool. With the chain and the pool accounting for
      every allocated node, nothing is left. */
  method Destroy<T>(q: Queue<T>, ids: seq<NodeId>, fids: seq<NodeId>)
    returns (deleted: seq<NodeId>, h: Heap<T>)
    requires List(q.heap, Some(q.head), ids) && List(q.heap, q.free, fids)
    requires Elems(ids) !! Elems(fids)
    ensures deleted == ids + fids
    ensures h == q.heap - Elems(ids) - Elems(fids)
  {
    var d1, h1 := DeleteAll(q.heap, Some(q.head), ids);
    assert forall k :: 0 <= k < |fids| ==> fids[k] in Elems(fids) && fids[k] !in Elems(ids);
    ListSameLinks(q.heap, h1, q.free, fids);
    var d2, h2 := DeleteAll(h1, q.free, fids);
    deleted, h := d1 + d2, h2;
  }

  /** Under the representation nothing survives the destructor. */
  lemma DestroyFreesAll<T>(q: Queue<T>, ids: seq<NodeId>, vals: seq<T>, fids: seq<NodeId>)
    requires Rep(q, ids, vals, fids)
    ensures q.heap - Elems(ids) - Elems(fids) == map[]
  {
  }
}
