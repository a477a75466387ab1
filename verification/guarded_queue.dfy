/** other/lock-free_mpmc_queue.hpp: the split-count queue with a guarded
    `free_external_counter` (null ignored, `external_count >= 2` asserted)
    and a `size_` counter. A winning producer overwrites `next`
    unconditionally; a losing one links its spare only into a null `next`
    and moves `tail` only to a non-null one. `dequeue` returns nothing when
    the head node is the tail node with a null `next`, helps a lagging
    tail, and retries while the head node's `next` is still null.

    As written, the empty path frees the consumer's external count on the
    head node as well as calling `release_ref`, two releases for the one
    reference taken; `DequeueAsWritten` models that and
    `EmptyDequeueFreesLiveNode` shows the result. `Dequeue` is the
    corrected operation, whose empty path is `release_ref` alone as in the
    other variants. */
module GuardedQueue {
  import opened Wrappers
  import opened Ring
  import opened SplitCount
  import opened CountedQueue

  /** The queue together with `size_`. */
  datatype SizedQueue<T> = SizedQueue(q: Queue<T>, size: nat)

  /** The constructor: one dummy named by `head` and `tail` through
      `{1, ptr}`, and `size_` zero. */
  function New<T>(): SizedQueue<T> {
    SizedQueue(CountedQueue.New(), 0)
  }

  /** `size_.fetch_add(1)` and `size_.fetch_sub(1)` on a `std::size_t`. */
  function Inc(n: nat): nat {
    (n + 1) % Word
  }

  function Dec(n: nat): nat {
    (n + Word - 1) % Word
  }

  /** `length()`. */
  function Length<T>(s: SizedQueue<T>): nat {
    s.size
  }

  /** `empty()`. */
  predicate IsEmpty<T>(s: SizedQueue<T>) {
    Length(s) == 0
  }

  /** The queue holds `vals` and `size_` counts them. */
  ghost predicate SizedRep<T>(s: SizedQueue<T>, ids: seq<NodeId>, vals: seq<T>) {
    Rep(s.q, ids, vals) && s.size == |vals| < Word
  }

  /** One pass of `enqueue`'s loop: `None` when it returns, `Some(h)` to go
      round again with spare `h`. */
  function EnqueueRound<T>(s: SizedQueue<T>, v: T, newNext: Handle)
    : (r: Result<(SizedQueue<T>, Option<Handle>), Fault>)
    ensures r.Success? ==> r.value.0.q.head == s.q.head
    ensures r.Success? ==> r.value.0.size == if r.value.1.None? then Inc(s.size) else s.size
  {
    var q1 := BumpTail(s.q);
    var oldTail := q1.tail;
    var claim :- ClaimData(q1, oldTail.ptr, v);
    if claim.1 then
      var q2 :- StoreNext(claim.0, oldTail.ptr, newNext);
      var done :- SetNewTail(q2, oldTail, newNext, true);
      Success((SizedQueue(done.0, Inc(s.size)), None))
    else
      var observed :- LoadNext(claim.0, oldTail.ptr);
      if observed.ptr.None? then
        var q2 :- StoreNext(claim.0, oldTail.ptr, newNext);
        var (q3, spare) := Alloc(q2);
        if newNext.ptr.Some? then
          var done :- SetNewTail(q3, oldTail, newNext, true);
          Success((SizedQueue(done.0, s.size), Some(newNext.(ptr := spare.ptr))))
        else
          Success((SizedQueue(q3, s.size), Some(newNext.(ptr := spare.ptr))))
      else
        var done :- SetNewTail(claim.0, oldTail, observed, true);
        Success((SizedQueue(done.0, s.size), Some(newNext)))
  }

  /** `enqueue`'s loop, allowed `fuel` passes. */
  function EnqueueLoop<T>(s: SizedQueue<T>, v: T, newNext: Handle, fuel: nat): (r: Result<SizedQueue<T>, Fault>)
    ensures r.Success? ==> r.value.q.head == s.q.head && r.value.size == Inc(s.size)
    decreases fuel
  {
    if fuel == 0 then Failure(Livelock)
    else
      var round :- EnqueueRound(s, v, newNext);
      match round.1
      case None => Success(round.0)
      case Some(spare) => EnqueueLoop(round.0, v, spare, fuel - 1)
  }

  /** `enqueue(v)`. */
  function Enqueue<T>(s: SizedQueue<T>, v: T, fuel: nat): (r: Result<SizedQueue<T>, Fault>)
    ensures r.Success? ==> r.value.q.head == s.q.head && r.value.size == Inc(s.size)
  {
    var (q1, newNext) := Alloc(s.q);
    EnqueueLoop(SizedQueue(q1, s.size), v, newNext, fuel)
  }

  /** One pass of `dequeue`'s loop. With `asWritten`, the empty path frees
      the consumer's handle and calls `release_ref`, as the source does;
      without it, the empty path calls `release_ref` alone. The other
      paths are as written in both. */
  function DequeueRoundWith<T>(s: SizedQueue<T>, asWritten: bool): (r: Result<(SizedQueue<T>, Outcome<T>), Fault>)
    ensures r.Success? ==> r.value.0.q.heap.Keys <= s.q.heap.Keys && r.value.0.q.nextId == s.q.nextId
    ensures r.Success? ==> r.value.0.size == if r.value.1 == Retry || r.value.1 == Returned(None) then s.size else Dec(s.size)
  {
    var q1 := BumpHead(s.q);
    var oldHead := q1.head;
    var ptr := oldHead.ptr;
    var next :- LoadNext(q1, ptr);
    if ptr == q1.tail.ptr then
      if next.ptr.None? then
        var h1 :- if asWritten then FreeExternalCounterGuarded(q1.heap, oldHead) else Success(q1.heap);
        var h2 :- ReleaseRef(h1, ptr);
        Success((SizedQueue(q1.(heap := h2), s.size), Returned(None)))
      else
        var done :- SetNewTail(q1, oldHead, next, true);
        var h1 :- FreeExternalCounterGuarded(done.0.heap, done.1);
        var h2 :- ReleaseRef(h1, ptr);
        Success((SizedQueue(done.0.(heap := h2), s.size), Retry))
    else if next.ptr.None? then
      var h1 :- FreeExternalCounterGuarded(q1.heap, oldHead);
      var h2 :- ReleaseRef(h1, ptr);
      Success((SizedQueue(q1.(heap := h2), s.size), Retry))
    else
      var popped :- PopHead(q1, oldHead, next, true);
      var size := if popped.1.Some? then Dec(s.size) else s.size;
      Success((SizedQueue(popped.0, size), Returned(popped.1)))
  }

  /** `dequeue`'s loop, allowed `fuel` passes. */
  function DequeueLoop<T>(s: SizedQueue<T>, asWritten: bool, fuel: nat): (r: Result<(SizedQueue<T>, Option<T>), Fault>)
    ensures r.Success? ==> r.value.0.q.heap.Keys <= s.q.heap.Keys && r.value.0.q.nextId == s.q.nextId
    ensures r.Success? ==> r.value.0.size == if r.value.1.None? then s.size else Dec(s.size)
    decreases fuel
  {
    if fuel == 0 then Failure(Livelock)
    else
      var round :- DequeueRoundWith(s, asWritten);
      match round.1
      case Returned(v) => Success((round.0, v))
      case Retry => DequeueLoop(round.0, asWritten, fuel - 1)
  }

  /** `dequeue()` as the source writes it. */
  function DequeueAsWritten<T>(s: SizedQueue<T>, fuel: nat): (r: Result<(SizedQueue<T>, Option<T>), Fault>)
    ensures r.Success? ==> r.value.0.q.heap.Keys <= s.q.heap.Keys && r.value.0.q.nextId == s.q.nextId
    ensures r.Success? ==> r.value.0.size == if r.value.1.None? then s.size else Dec(s.size)
  {
    DequeueLoop(s, true, fuel)
  }

  /** `dequeue()` with the empty path corrected to `release_ref` alone. */
  function Dequeue<T>(s: SizedQueue<T>, fuel: nat): (r: Result<(SizedQueue<T>, Option<T>), Fault>)
    ensures r.Success? ==> r.value.0.q.heap.Keys <= s.q.heap.Keys && r.value.0.q.nextId == s.q.nextId
    ensures r.Success? ==> r.value.0.size == if r.value.1.None? then s.size else Dec(s.size)
  {
    DequeueLoop(s, false, fuel)
  }

  /** A new queue holds nothing, `length()` is 0 and `empty()` is true. */
  lemma NewRep<T>()
    ensures SizedRep(New<T>(), [0], [])
    ensures Length(New<T>()) == 0 && IsEmpty(New<T>())
  {
    CountedQueue.NewRep<T>();
  }

  /** `length()` is the number of values held and `empty()` says whether
      there are none. */
  lemma LengthCounts<T>(s: SizedQueue<T>, ids: seq<NodeId>, vals: seq<T>)
    requires SizedRep(s, ids, vals)
    ensures Length(s) == |vals|
    ensures IsEmpty(s) <==> |vals| == 0
  {
  }

  /** Enqueueing `v` onto a queue holding `vals` completes in one pass,
      leaves it holding `vals + [v]`, and counts one more in `size_`, for
      as long as `size_` does not wrap. */
  lemma {:induction false} EnqueueRefines<T>(s: SizedQueue<T>, ids: seq<NodeId>, vals: seq<T>, v: T, fuel: nat)
    requires SizedRep(s, ids, vals) && |vals| + 1 < Word && fuel >= 1
    ensures s.q.tail.ptr.Some? && s.q.tail.ptr.value in s.q.heap
    ensures Enqueue(s, v, fuel) == Success(SizedQueue(Appended(s.q, v), |vals| + 1))
    ensures SizedRep(SizedQueue(Appended(s.q, v), |vals| + 1), ids + [s.q.nextId], vals + [v])
  {
    var q := s.q;
    RepAppend(q, ids, vals, v);
    assert NodeOk(q, ids, vals, |vals|);
    var l := ids[|vals|];
    assert q.nextId != l;
    var (q1, newNext) := Alloc(q);
    var c := q.heap[l].count;
    assert c.externals == 2;
    var q2 := BumpTail(q1);
    var node := q2.heap[l];
    var q3 := q2.(heap := q2.heap[l := node.(data := Some(v))]);
    assert ClaimData(q2, q2.tail.ptr, v) == Success((q3, true));
    var q4 := q3.(heap := q3.heap[l := node.(data := Some(v), next := newNext)]);
    assert StoreNext(q3, q2.tail.ptr, newNext) == Success(q4);
    var q5 := q4.(heap := q4.heap[l := CNode(Some(v), Freed(c, q.tail.ext + 1), newNext)], tail := newNext);
    assert FreeExternal(true, q4.heap, q4.tail) == Success(q5.heap);
    assert SetNewTail(q4, q2.tail, newNext, true) == Success((q5, q4.tail));
    assert q5 == Appended(q, v);
    assert Inc(s.size) == |vals| + 1;
    assert EnqueueRound(SizedQueue(q1, s.size), v, newNext) == Success((SizedQueue(Appended(q, v), |vals| + 1), None));
  }

  /** The corrected `dequeue` on a queue holding nothing returns nothing
      and leaves it holding nothing; on a queue holding `vals` it returns
      `vals[0]`, deletes the old head node, leaves the rest and counts one
      fewer in `size_`. */
  lemma {:induction false} DequeueRefines<T>(s: SizedQueue<T>, ids: seq<NodeId>, vals: seq<T>, fuel: nat)
    requires SizedRep(s, ids, vals) && fuel >= 1
    ensures s.q.head.ptr.Some? && s.q.head.ptr.value in s.q.heap
    ensures |vals| == 0 ==> && Dequeue(s, fuel) == Success((SizedQueue(EmptyPopped(s.q), 0), None))
                            && SizedRep(SizedQueue(EmptyPopped(s.q), 0), ids, vals)
    ensures |vals| > 0 ==> && Dequeue(s, fuel) == Success((SizedQueue(Popped(s.q), |vals| - 1), Some(vals[0])))
                           && SizedRep(SizedQueue(Popped(s.q), |vals| - 1), ids[1..], vals[1..])
                           && ids[0] !in Popped(s.q).heap
  {
    var q := s.q;
    assert NodeOk(q, ids, vals, 0);
    if |vals| == 0 {
      RepEmptyPopped(q, ids, vals);
    } else {
      RepPopped(q, ids, vals);
      assert ids[0] != ids[|vals|];
      assert NodeOk(q, ids, vals, 1);
      PopRemovesHead(s, ids, vals);
    }
  }

  lemma {:induction false} PopRemovesHead<T>(s: SizedQueue<T>, ids: seq<NodeId>, vals: seq<T>)
    requires SizedRep(s, ids, vals) && |vals| > 0
    ensures s.q.head.ptr.Some? && s.q.head.ptr.value in s.q.heap
    ensures DequeueRoundWith(s, false) == Success((SizedQueue(Popped(s.q), |vals| - 1), Returned(Some(vals[0]))))
  {
    var q := s.q;
    assert NodeOk(q, ids, vals, 0);
    assert ids[0] != ids[|vals|];
    var p := ids[0];
    var q1 := BumpHead(q);
    var node := q.heap[p];
    assert node.count == Counter(Wrap(-(q.head.ext - 1)), 1);
    ModAdd(-(q.head.ext - 1), q.head.ext + 1 - 2, InternalMod);
    assert Freed(node.count, q1.head.ext) == Counter(0, 0);
    var h0 := q.heap[p := node.(data := None)];
    assert FreeExternal(true, h0, q1.head) == Success(h0 - {p});
    assert h0 - {p} == q.heap - {p};
    assert PopHead(q1, q1.head, node.next, true) == Success((Popped(q), node.data));
    DivModUnique(|vals| - 1 + Word, 1, |vals| - 1, Word);
    assert Dec(s.size) == |vals| - 1;
  }

  /** The source's empty path releases the consumer's one reference twice.
      From a new queue the first `dequeue` returns nothing but leaves the
      dummy with an internal count of 2^30 - 1 and one external counter;
      the second frees a handle with count 3, which brings both fields to
      zero and deletes the dummy that `head` and `tail` still name, then
      calls `release_ref` on it. */
  lemma EmptyDequeueFreesLiveNode()
    ensures var first := DequeueAsWritten(New<int>(), 1);
            && first.Success?
            && first.value.1 == None
            && first.value.0.q.head == Handle(2, Some(0))
            && first.value.0.q.tail == Handle(1, Some(0))
            && first.value.0.q.heap[0].count == Counter(InternalMod - 1, 1)
            && forall fuel: nat :: fuel >= 1 ==> DequeueAsWritten(first.value.0, fuel) == Failure(UseAfterFree(0))
  {
    var s0 := New<int>();
    var first := DequeueAsWritten(s0, 1);
    assert first == DequeueLoop(s0, true, 1);
    var q1 := BumpHead(s0.q);
    assert q1.head == Handle(2, Some(0)) && q1.heap[0] == CNode(None, Counter(0, 2), NullHandle);
    assert Freed(Counter(0, 2), 2) == Counter(0, 1);
    assert !Dead(Counter(0, 1));
    assert Settle(q1.heap, 0, Counter(0, 1)) == q1.heap[0 := q1.heap[0].(count := Counter(0, 1))];
    assert q1.heap[0 := q1.heap[0].(count := Counter(0, 1))] == map[0 := CNode(None, Counter(0, 1), NullHandle)];
    assert FreeExternalCounterGuarded(q1.heap, q1.head) == Success(map[0 := CNode(None, Counter(0, 1), NullHandle)]);
    var s1 := first.value.0;
    assert s1.q.heap == map[0 := CNode(None, Counter(InternalMod - 1, 1), NullHandle)];
    forall fuel: nat | fuel >= 1
      ensures DequeueAsWritten(s1, fuel) == Failure(UseAfterFree(0))
    {
      var q2 := BumpHead(s1.q);
      assert q2.head.ext == 3;
      assert Freed(Counter(InternalMod - 1, 1), 3) == Counter(0, 0);
      assert FreeExternalCounterGuarded(q2.heap, q2.head) == Success(map[]);
      assert DequeueRoundWith(s1, true) == Failure(UseAfterFree(0));
    }
  }

  /** The corrected `dequeue` can run on an empty queue any number of times:
      each returns nothing and the dummy stays allocated. */
  lemma EmptyDequeuesKeepNode<T>(s: SizedQueue<T>, ids: seq<NodeId>, fuel: nat)
    requires SizedRep(s, ids, []) && fuel >= 1
    ensures Dequeue(s, fuel).Success? && Dequeue(s, fuel).value.1 == None
    ensures SizedRep(Dequeue(s, fuel).value.0, ids, [])
    ensures ids[0] in Dequeue(s, fuel).value.0.q.heap
  {
    DequeueRefines(s, ids, [], fuel);
  }

  /** A consumer that finds a head node other than the tail node whose
      `next` is still null retries without moving `head`. */
  lemma UnlinkedNextRetries<T>(s: SizedQueue<T>, asWritten: bool)
    requires s.q.head.ptr.Some? && s.q.head.ptr.value in s.q.heap
    requires s.q.head.ptr != s.q.tail.ptr && s.q.heap[s.q.head.ptr.value].next.ptr.None?
    ensures DequeueRoundWith(s, asWritten).Success? ==>
              && DequeueRoundWith(s, asWritten).value.1 == Retry
              && DequeueRoundWith(s, asWritten).value.0.q.head.ptr == s.q.head.ptr
              && DequeueRoundWith(s, asWritten).value.0.size == s.size
  {
  }

  /** A winning producer sets `next` to its spare node, moves `tail` to it
      when `tail` still names the node it claimed, and counts one more. */
  lemma WinnerLinks<T>(s: SizedQueue<T>, v: T, newNext: Handle)
    requires s.q.tail.ptr.Some? && s.q.tail.ptr.value in s.q.heap
    requires s.q.heap[s.q.tail.ptr.value].data.None?
    ensures EnqueueRound(s, v, newNext).Success? ==>
              && EnqueueRound(s, v, newNext).value.1.None?
              && EnqueueRound(s, v, newNext).value.0.q.tail == newNext
              && EnqueueRound(s, v, newNext).value.0.size == Inc(s.size)
  {
  }

  /** A losing producer goes round again with `size_` unchanged; it links
      its spare only into a null `next` (taking a new spare), and moves
      `tail` to the `next` it found, or to its spare when it linked it. */
  lemma LoserHelps<T>(s: SizedQueue<T>, v: T, newNext: Handle)
    requires s.q.tail.ptr.Some? && s.q.tail.ptr.value in s.q.heap
    requires s.q.heap[s.q.tail.ptr.value].data.Some?
    requires newNext.ptr.Some?
    ensures var found := s.q.heap[s.q.tail.ptr.value].next;
            var r := EnqueueRound(s, v, newNext);
            r.Success? ==>
              && r.value.1.Some?
              && r.value.0.size == s.size
              && (found.ptr.None? ==> r.value.0.q.tail == newNext && r.value.1.value.ptr == Some(s.q.nextId))
              && (found.ptr.Some? ==> r.value.0.q.tail == found && r.value.1 == Some(newNext))
  {
  }
}
