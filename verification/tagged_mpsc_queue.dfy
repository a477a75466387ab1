/** other/lock-free_mpsc_queue_v3.0.hpp: the pooled MPSC queue whose pool
    top is an `AtomicTaggedPtr`. Every successful exchange on the pool
    stores the tag it read plus one, so a pointer that left the pool and
    came back carries a different tag. Run by one thread, each strong
    exchange is made against the value just loaded and succeeds (see
    `TaggedPtr.CasAfterLoad`), so the retry loops run once; the queue then
    behaves as `PooledQueue` with the tag counting pool operations modulo
    2^16. */
module TaggedMpscQueue {
  import opened Wrappers
  import opened Linked
  import opened TaggedPtr
  import PooledQueue

  datatype Queue<T> = Queue(heap: Heap<T>, head: NodeId, tail: NodeId, freeStack: Atomic, nextId: NodeId)

  /** The address stored for a link: 0 for null. */
  function AddrOf(p: Option<NodeId>): nat {
    if p.Some? then p.value else 0
  }

  /** The link a stored address stands for. */
  function PtrOf(a: nat): (p: Option<NodeId>)
    ensures a > 0 ==> AddrOf(p) == a
  {
    if a == 0 then None else Some(a)
  }

  /** The queue with the pool's top read through its tag. */
  function Pool<T>(q: Queue<T>): PooledQueue.Queue<T>
    requires q.freeStack.raw < Word
  {
    PooledQueue.Queue(q.heap, q.head, q.tail, PtrOf(Load(q.freeStack).ptr), q.nextId)
  }

  /** The pool word is well formed and every address fits in 48 bits. */
  ghost predicate Valid<T>(q: Queue<T>) {
    q.freeStack.raw < Word && q.nextId <= Span
  }

  /** `q` holds `vals` in the chain `ids` and pools `fids`, as in
      `PooledQueue.Rep`. */
  ghost predicate Rep<T>(q: Queue<T>, ids: seq<NodeId>, vals: seq<T>, fids: seq<NodeId>) {
    Valid(q) && PooledQueue.Rep(Pool(q), ids, vals, fids)
  }

  /** `LockFreeMPSCQueue()`: the pool word encodes `{nullptr, 0}`, and
      `head` and `tail` name one fresh dummy with no value. */
  function New<T>(): Queue<T> {
    var base := PooledQueue.New<T>();
    Queue(base.heap, base.head, base.tail, Init(TaggedPtr(0, 0)), base.nextId)
  }

  /** The new queue holds nothing in its one dummy and pools nothing. */
  lemma NewRep<T>()
    ensures Rep(New<T>(), [New<T>().head], [], [])
    ensures Load(New<T>().freeStack) == TaggedPtr(0, 0)
  {
  }

  /** The pool's top and the tail are live, the top's successor is a
      non-null address below 2^48, and a node can be allocated below 2^48
      when the pool is empty. */
  ghost predicate Ready<T>(q: Queue<T>) {
    && Valid(q)
    && PooledQueue.Ready(Pool(q))
    && (Load(q.freeStack).ptr == 0 ==> q.nextId < Span)
    && (Load(q.freeStack).ptr != 0 ==>
          var next := q.heap[Load(q.freeStack).ptr].next;
          next.Some? ==> 0 < next.value < Span)
  }

  /** `enqueue(value)`: pop the pool's top with a strong exchange to
      `{top->next, tag + 1}` and refill it, or allocate a node when the pool
      is empty; then link the node at the tail. */
  function Enqueue<T>(q: Queue<T>, v: T): (r: Queue<T>)
    requires Ready(q)
    ensures Valid(r)
    ensures Pool(r) == PooledQueue.Enqueue(Pool(q), v)
    ensures Load(q.freeStack).ptr != 0 ==> Load(r.freeStack).tag == (Load(q.freeStack).tag + 1) % TagSpan
    ensures Load(q.freeStack).ptr == 0 ==> r.freeStack == q.freeStack
  {
    var top := Load(q.freeStack);
    if top.ptr != 0 then
      var desired := TaggedPtr(AddrOf(q.heap[top.ptr].next), top.tag + 1);
      CasAfterLoad(q.freeStack, desired);
      DecodeEncode(desired);
      var fs := CompareExchangeStrong(q.freeStack, top, desired).0;
      var n := top.ptr;
      var taken := q.(heap := q.heap[n := Node(Some(v), None)], freeStack := fs);
      LinkNode(taken, n)
    else
      var n := q.nextId;
      var taken := q.(heap := q.heap[n := Node(Some(v), None)], nextId := q.nextId + 1);
      LinkNode(taken, n)
  }

  /** `prev = tail_.exchange(node); prev->next = node`. */
  function LinkNode<T>(q: Queue<T>, n: NodeId): (r: Queue<T>)
    requires q.tail in q.heap
    ensures r.tail == n && r.freeStack == q.freeStack && r.heap.Keys == q.heap.Keys
  {
    q.(heap := q.heap[q.tail := q.heap[q.tail].(next := Some(n))], tail := n)
  }

  /** `dequeue()`: nothing when the dummy has no successor; otherwise the
      successor becomes the dummy, its value is moved out and reset, and
      the old dummy is pushed onto the pool with a strong exchange to
      `{old, tag + 1}`. */
  function Dequeue<T>(q: Queue<T>): (r: (Queue<T>, Option<T>))
    requires Valid(q) && PooledQueue.HeadLinked(Pool(q)) && 0 < q.head < Span
    ensures Valid(r.0)
    ensures Pool(r.0) == PooledQueue.Dequeue(Pool(q)).0 && r.1 == PooledQueue.Dequeue(Pool(q)).1
    ensures r.1.Some? ==> Load(r.0.freeStack).tag == (Load(q.freeStack).tag + 1) % TagSpan
  {
    match q.heap[q.head].next
    case None => (q, None)
    case Some(nx) =>
      var res := q.heap[nx].data;
      var dummy := q.head;
      var h1 := q.heap[nx := q.heap[nx].(data := None)];
      var oldFS := Load(q.freeStack);
      var desired := TaggedPtr(dummy, oldFS.tag + 1);
      var h2 := h1[dummy := h1[dummy].(next := PtrOf(oldFS.ptr))];
      CasAfterLoad(q.freeStack, desired);
      DecodeEncode(desired);
      var fs := CompareExchangeStrong(q.freeStack, oldFS, desired).0;
      (q.(heap := h2, head := nx, freeStack := fs), res)
  }

  /** Under the representation the queue is ready for both operations
      when the address space has room for a fresh node. */
  lemma {:induction false} RepReady<T>(q: Queue<T>, ids: seq<NodeId>, vals: seq<T>, fids: seq<NodeId>)
    requires Rep(q, ids, vals, fids)
    requires |fids| > 0 || q.nextId < Span
    ensures Ready(q) && PooledQueue.HeadLinked(Pool(q)) && 0 < q.head < Span
  {
    var p := Pool(q);
    PooledQueue.RepReady(p, ids, vals, fids);
    PooledQueue.AddressesBelow(p, ids, vals, fids);
    if Load(q.freeStack).ptr != 0 {
      assert p.free == Some(Load(q.freeStack).ptr);
    }
  }

  /** Enqueueing keeps the representation, as `PooledQueue.EnqueueRefines`
      describes, when a node can be found or allocated. */
  lemma {:induction false} EnqueueRefines<T>(q: Queue<T>, ids: seq<NodeId>, vals: seq<T>, fids: seq<NodeId>, v: T)
    requires Rep(q, ids, vals, fids)
    requires |fids| > 0 || q.nextId < Span
    ensures Ready(q)
    ensures Rep(Enqueue(q, v), ids + [PooledQueue.NextNode(Pool(q), fids)], vals + [v], if |fids| > 0 then fids[1..] else [])
  {
    RepReady(q, ids, vals, fids);
    PooledQueue.EnqueueRefines(Pool(q), ids, vals, fids, v);
    var r := Enqueue(q, v);
    assert Pool(r) == PooledQueue.Enqueue(Pool(q), v);
  }

  /** Dequeueing keeps the representation, as `PooledQueue.DequeueRefines`
      describes. */
  lemma {:induction false} DequeueRefines<T>(q: Queue<T>, ids: seq<NodeId>, vals: seq<T>, fids: seq<NodeId>)
    requires Rep(q, ids, vals, fids)
    ensures Valid(q) && PooledQueue.HeadLinked(Pool(q)) && 0 < q.head < Span
    ensures |vals| == 0 ==> Dequeue(q).1 == None && Rep(Dequeue(q).0, ids, vals, fids)
    ensures |vals| > 0 ==> Dequeue(q).1 == Some(vals[0]) && Rep(Dequeue(q).0, ids[1..], vals[1..], [ids[0]] + fids)
  {
    var p := Pool(q);
    PooledQueue.RepReady(p, ids, vals, fids);
    PooledQueue.AddressesBelow(p, ids, vals, fids);
    PooledQueue.DequeueRefines(p, ids, vals, fids);
  }
}
