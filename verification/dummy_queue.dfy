/** The dummy-node linked queue shared by the plain MPSC queues and the
    mutex-guarded MPMC queue: `head` names a dummy node whose successors
    hold the queued values, `tail` names the last node. A producer links a
    fresh node after `tail` and makes it the tail; the consumer reads the
    dummy's successor, makes it the new dummy and deletes the old one.
    Run by one thread, the atomic exchange on `tail` and the mutex of the
    lock-based queue have no observable effect. */
module DummyQueue {
  import opened Wrappers
  import opened Linked

  datatype Queue<T> = Queue(heap: Heap<T>, head: NodeId, tail: NodeId, nextId: NodeId)

  /** `q` holds `vals`: `ids` is the dummy followed by one node per value,
      `tail` is the last of them, and every allocated node is one of them. */
  ghost predicate Rep<T>(q: Queue<T>, ids: seq<NodeId>, vals: seq<T>) {
    && List(q.heap, Some(q.head), ids)
    && |ids| == |vals| + 1
    && q.tail == ids[|ids| - 1]
    && Holds(q.heap, ids[1..], vals)
    && q.heap.Keys == Elems(ids)
    && Below(q.heap, q.nextId)
  }

  /** A queue whose head and tail are one dummy node carrying `d`. */
  function WithDummy<T>(d: Option<T>): (q: Queue<T>)
    ensures q.head == q.tail && q.heap.Keys == {q.head}
    ensures q.heap[q.head] == Node(d, None)
    ensures Rep(q, [q.head], [])
  {
    Queue(map[0 := Node(d, None)], 0, 0, 1)
  }

  /** `new Node(v)`, `prev = tail.exchange(n)`, `prev->next = n`. */
  function Enqueue<T>(q: Queue<T>, v: T): (r: Queue<T>)
    requires q.tail in q.heap && Below(q.heap, q.nextId)
    ensures r.tail !in q.heap && r.heap.Keys == q.heap.Keys + {r.tail}
    ensures r.heap[r.tail] == Node(Some(v), None)
    ensures r.heap[q.tail].next == Some(r.tail)
    ensures r.head == q.head
    ensures forall x :: x in q.heap && x != q.tail ==> r.heap[x] == q.heap[x]
  {
    var n := q.nextId;
    var prev := q.tail;
    var h := q.heap[prev := q.heap[prev].(next := Some(n))][n := Node(Some(v), None)];
    Queue(h, q.head, n, q.nextId + 1)
  }

  /** The head node is live, and so is its successor when it has one. */
  ghost predicate HeadLinked<T>(q: Queue<T>) {
    && q.head in q.heap
    && (q.heap[q.head].next.Some? ==> q.heap[q.head].next.value in q.heap)
  }

  /** `next = head->next`; null means empty; otherwise the value is moved
      out of `next`, the old dummy is deleted and `next` becomes the dummy.
      Moving out of a `std::optional` leaves it engaged, so the new dummy
      keeps its (no longer used) data. */
  function Dequeue<T>(q: Queue<T>): (r: (Queue<T>, Option<T>))
    requires HeadLinked(q)
    ensures q.heap[q.head].next.None? ==> r == (q, None)
    ensures q.heap[q.head].next.Some? ==>
              var next := q.heap[q.head].next.value;
              && r.1 == q.heap[next].data
              && r.0.head == next
              && r.0.tail == q.tail
              && r.0.heap == q.heap - {q.head}
  {
    match q.heap[q.head].next
    case None => (q, None)
    case Some(next) => (q.(heap := q.heap - {q.head}, head := next), q.heap[next].data)
  }

  /** Enqueueing `v` onto a queue holding `vals` gives a queue holding
      `vals + [v]`, with the fresh node as its tail. */
  lemma {:induction false} EnqueueRefines<T>(q: Queue<T>, ids: seq<NodeId>, vals: seq<T>, v: T)
    requires Rep(q, ids, vals)
    ensures q.tail in q.heap && Below(q.heap, q.nextId)
    ensures Rep(Enqueue(q, v), ids + [q.nextId], vals + [v])
  {
    var n := q.nextId;
    var r := Enqueue(q, v);
    assert ids[|ids| - 1] in q.heap;
    var mid := q.heap[q.tail := q.heap[q.tail].(next := Some(n))];
    assert r.heap == mid[n := Node(Some(v), None)];
    var ids' := ids + [n];
    assert List(r.heap, Some(r.head), ids') by {
      ListAppend(q.heap, q.head, ids, n, Some(v));
    }
    assert Holds(r.heap, ids'[1..], vals + [v]) by {
      TailAppend(ids, n);
      HoldsLink(q.heap, ids[1..], vals, q.tail, n, v);
    }
    assert r.heap.Keys == Elems(ids') by {
      ElemsAppend(ids, n);
    }
    assert r.tail == ids'[|ids'| - 1];
  }

  lemma TailAppend(ids: seq<NodeId>, n: NodeId)
    requires |ids| > 0
    ensures (ids + [n])[1..] == ids[1..] + [n]
  {
  }

  /** Relinking `t` to a fresh node `n` carrying `v` keeps every held
      value and holds `v` at the end. */
  lemma {:induction false} HoldsLink<T>(h: Heap<T>, s: seq<NodeId>, vals: seq<T>, t: NodeId, n: NodeId, v: T)
    requires Holds(h, s, vals) && t in h && n !in h
    ensures Holds(h[t := h[t].(next := Some(n))][n := Node(Some(v), None)], s + [n], vals + [v])
  {
    var mid := h[t := h[t].(next := Some(n))];
    HoldsSameData(h, mid, s, vals);
    assert n !in s by {
      assert forall k :: 0 <= k < |s| ==> s[k] in h;
    }
    HoldsAppend(mid, s, vals, n, Node(Some(v), None), v);
  }

  /** Dequeueing from a queue holding `vals` returns nothing and changes
      nothing when `vals` is empty, and otherwise returns `vals[0]` and
      leaves a queue holding the rest, the old dummy deleted. */
  lemma {:induction false} DequeueRefines<T>(q: Queue<T>, ids: seq<NodeId>, vals: seq<T>)
    requires Rep(q, ids, vals)
    ensures HeadLinked(q)
    ensures |vals| == 0 ==> Dequeue(q) == (q, None)
    ensures |vals| > 0 ==> Dequeue(q).1 == Some(vals[0]) && Rep(Dequeue(q).0, ids[1..], vals[1..])
  {
    assert q.heap[ids[0]].next == LinkAfter(ids, 0);
    if |vals| > 0 {
      assert ids[1..][0] == ids[1];
      assert Dequeue(q) == (q.(heap := q.heap - {q.head}, head := ids[1]), Some(vals[0]));
      RepPop(q, ids, vals);
    }
  }

  lemma {:induction false} RepPop<T>(q: Queue<T>, ids: seq<NodeId>, vals: seq<T>)
    requires Rep(q, ids, vals) && |vals| > 0
    ensures Rep(q.(heap := q.heap - {q.head}, head := ids[1]), ids[1..], vals[1..])
  {
    var h := q.heap;
    var h' := h - {ids[0]};
    ListPop(h, ids);
    assert h[ids[0]].next == Some(ids[1]);
    assert Holds(h', ids[1..], vals) by {
      forall k | 0 <= k < |ids[1..]|
        ensures ids[1..][k] in h' && h'[ids[1..][k]].data == Some(vals[k])
      {
        assert ids[1..][k] == ids[k + 1] != ids[0];
      }
    }
    HoldsDropFirst(h', ids[1..], vals, ids[0]);
    assert (h' - {ids[0]}) == h';
    assert ids[1..][1..] == ids[2..];
    ElemsDropFirst(ids);
  }

  /** First in, first out: after enqueueing `v`, a dequeue returns the
      oldest held value, or `v` itself when the queue held nothing. */
  lemma {:induction false} FifoOrder<T>(q: Queue<T>, ids: seq<NodeId>, vals: seq<T>, v: T)
    requires Rep(q, ids, vals)
    ensures q.tail in q.heap && Below(q.heap, q.nextId)
    ensures HeadLinked(Enqueue(q, v))
    ensures Dequeue(Enqueue(q, v)).1 == Some(if |vals| == 0 then v else vals[0])
  {
    EnqueueRefines(q, ids, vals, v);
    DequeueRefines(Enqueue(q, v), ids + [q.nextId], vals + [v]);
  }

  /** The queue is empty exactly when the dummy has no successor. */
  lemma {:induction false} EmptyIff<T>(q: Queue<T>, ids: seq<NodeId>, vals: seq<T>)
    requires Rep(q, ids, vals)
    ensures q.head in q.heap
    ensures q.heap[q.head].next.None? <==> |vals| == 0
  {
    assert q.heap[ids[0]].next == LinkAfter(ids, 0);
  }
}

/** include/lock-free_mpsc_queue.h: the dummy is built with a
    value-initialised `T{}`, and the destructor deletes every node. */
module LockFreeMpscQueue {
  import opened Wrappers
  import opened Linked
  import DummyQueue

  /** `LockFreeMPSCQueue()`: head and tail name one dummy holding `zero`,
      the value `T{}` stands for. */
  function New<T>(zero: T): (q: DummyQueue.Queue<T>)
    ensures q.head == q.tail && q.heap.Keys == {q.head}
    ensures q.heap[q.head].next.None?
    ensures DummyQueue.Rep(q, [q.head], [])
  {
    DummyQueue.WithDummy(Some(zero))
  }

  /** `~LockFreeMPSCQueue()`: walks from the dummy and deletes every node,
      in list order, leaving nothing allocated. */
  method Destroy<T>(q: DummyQueue.Queue<T>, ids: seq<NodeId>)
    returns (deleted: seq<NodeId>, h: Heap<T>)
    requires List(q.heap, Some(q.head), ids) && q.heap.Keys == Elems(ids)
    ensures deleted == ids
    ensures Elems(deleted) == q.heap.Keys
    ensures h == map[]
  {
    deleted, h := DeleteAll(q.heap, Some(q.head), ids);
    assert h.Keys == {};
  }
}

/** include/mpsc_queue.hpp and include/mpsc_queue_v1.0.hpp: the dummy holds
    no value (`Node()` has `data = nullopt`). Their `enqueue` and `dequeue`
    are `DummyQueue.Enqueue` and `DummyQueue.Dequeue`. */
module MpscQueue {
  import opened Wrappers
  import opened Linked
  import DummyQueue

  /** `MPSCQueue()`: head and tail name one empty dummy. */
  function New<T>(): (q: DummyQueue.Queue<T>)
    ensures q.head == q.tail && q.heap.Keys == {q.head}
    ensures q.heap[q.head] == Node(None, None)
    ensures DummyQueue.Rep(q, [q.head], [])
  {
    DummyQueue.WithDummy(None)
  }
}

/** include/lock_mpmc_queue.hpp: the mutex-guarded dummy-node queue. Its
    `enqueue` and `dequeue` are `DummyQueue.Enqueue` and
    `DummyQueue.Dequeue`, the data a `shared_ptr` modelled as an `Option`. */
module LockMpmcQueue {
  import opened Wrappers
  import opened Linked
  import DummyQueue

  /** `LockMPMCQueue()`: `head = tail = new Node()`, a dummy with null data. */
  function New<T>(): (q: DummyQueue.Queue<T>)
    ensures q.head == q.tail && q.heap.Keys == {q.head}
    ensures Empty(q)
    ensures DummyQueue.Rep(q, [q.head], [])
  {
    DummyQueue.WithDummy(None)
  }

  /** `empty()`: the dummy has no successor. */
  predicate Empty<T>(q: DummyQueue.Queue<T>)
    requires q.head in q.heap
  {
    q.heap[q.head].next.None?
  }

  /** `~LockMPMCQueue()`: `while (dequeue()) {}` takes the values out in
      queue order until a null result, then deletes the remaining dummy,
      leaving nothing allocated. */
  method Destroy<T>(q: DummyQueue.Queue<T>, ids: seq<NodeId>, vals: seq<T>)
    returns (taken: seq<T>, h: Heap<T>)
    requires DummyQueue.Rep(q, ids, vals)
    ensures taken == vals
    ensures h == map[]
  {
    var r := q;
    taken := [];
    ghost var rids := ids;
    ghost var i := 0;
    while true
      invariant 0 <= i <= |vals|
      invariant DummyQueue.Rep(r, rids, vals[i..])
      invariant taken == vals[..i]
      decreases |vals| - i
    {
      DestroyStep(r, rids, vals, i);
      var step := DummyQueue.Dequeue(r);
      if step.1.None? {
        break;
      }
      taken := taken + [step.1.value];
      r, rids, i := step.0, rids[1..], i + 1;
    }
    assert vals[..i] == vals;
    h := r.heap - {r.head};
    assert h.Keys == {};
  }

  /** One round of `Destroy`: a dequeue from the queue holding `vals[i..]`
      returns `vals[i]` and leaves `vals[i + 1..]`, or returns nothing
      once every value is gone, the dummy then the only node allocated. */
  lemma {:induction false} DestroyStep<T>(q: DummyQueue.Queue<T>, ids: seq<NodeId>, vals: seq<T>, i: nat)
    requires i <= |vals| && DummyQueue.Rep(q, ids, vals[i..])
    ensures DummyQueue.HeadLinked(q)
    ensures DummyQueue.Dequeue(q).1.None? ==> i == |vals| && q.heap.Keys == {q.head}
    ensures DummyQueue.Dequeue(q).1.Some? ==>
              && i < |vals|
              && DummyQueue.Dequeue(q).1.value == vals[i]
              && DummyQueue.Rep(DummyQueue.Dequeue(q).0, ids[1..], vals[i + 1..])
              && vals[..i + 1] == vals[..i] + [vals[i]]
  {
    var rest := vals[i..];
    DummyQueue.DequeueRefines(q, ids, rest);
    if i < |vals| {
      assert rest[0] == vals[i];
      assert rest[1..] == vals[i + 1..];
      PrefixSnoc(vals, i);
    } else {
      assert |ids| == 1;
      assert Elems(ids) == {ids[0]};
    }
  }

  /** `empty()` answers true exactly when the queue holds no value. */
  lemma {:induction false} EmptyIff<T>(q: DummyQueue.Queue<T>, ids: seq<NodeId>, vals: seq<T>)
    requires DummyQueue.Rep(q, ids, vals)
    ensures q.head in q.heap
    ensures Empty(q) <==> |vals| == 0
  {
    DummyQueue.EmptyIff(q, ids, vals);
  }
}
