/** other/lock-free_mpmc_stack.h: the split-count stack of "C++
    Concurrency in Action". `head` is a counted handle; each node holds a
    `shared_ptr` to its value, a signed `internal_count` and the handle of
    the node below. A consumer raises `head`'s count before touching the
    node; the one that unlinks it adds the count it raised minus two to
    `internal_count`, and whoever brings that to zero deletes the node.
    The `int` fields are modelled as unbounded integers. */
module CountedStack {
  import opened Wrappers
  import opened SplitCount
  import Linked

  datatype StackNode<T> = StackNode(data: Option<T>, internal: int, next: Handle)

  datatype Stack<T> = Stack(heap: map<NodeId, StackNode<T>>, head: Handle, nextId: NodeId)

  /** The implicit constructor: `head` value-initialised to `{0, nullptr}`
      (as C++20 initialises `std::atomic`). */
  function New<T>(): Stack<T> {
    Stack(map[], Handle(0, None), 0)
  }

  /** `push(v)`: a node with the value, `internal_count` 0 and `next` the
      current `head`, named by `{1, ptr}`. The weak compare-and-swap only
      retries with the value it reloads, which run by one thread is the
      same `head`. */
  function Push<T>(s: Stack<T>, v: T): (r: Stack<T>)
    ensures r.head == Handle(1, Some(s.nextId))
    ensures s.nextId in r.heap && r.heap[s.nextId] == StackNode(Some(v), 0, s.head)
    ensures forall x :: x in s.heap && x != s.nextId ==> x in r.heap && r.heap[x] == s.heap[x]
  {
    var n := s.nextId;
    Stack(s.heap[n := StackNode(Some(v), 0, s.head)], Handle(1, Some(n)), n + 1)
  }

  /** `increase_head_count(old_head)`. */
  function IncreaseHeadCount<T>(s: Stack<T>): (r: Stack<T>)
    ensures r.head.ptr == s.head.ptr && r.head.ext == s.head.ext + 1
    ensures r.heap == s.heap
  {
    s.(head := IncreaseExternalCount(s.head))
  }

  /** `pop()`: an empty `shared_ptr` when `head` is null (its count still
      raised); otherwise `head` moves to the node's `next` (the
      compare-and-swap expects the handle this thread has just stored), the
      value is swapped out, `external_count - 2` is added to
      `internal_count`, and the node is deleted when `fetch_add` returned
      minus that amount, that is, when the sum is zero. */
  function Pop<T>(s: Stack<T>): (r: Result<(Stack<T>, Option<T>), Fault>)
    ensures s.head.ptr.None? ==> r == Success((IncreaseHeadCount(s), None))
    ensures s.head.ptr.Some? && s.head.ptr.value !in s.heap ==> r == Failure(UseAfterFree(s.head.ptr.value))
    ensures s.head.ptr.Some? && s.head.ptr.value in s.heap ==>
              var p := s.head.ptr.value;
              var n := s.heap[p];
              && r.Success?
              && r.value.1 == n.data
              && r.value.0.head == n.next
              && (n.internal + (s.head.ext + 1 - 2) == 0 <==> p !in r.value.0.heap)
  {
    var s1 := IncreaseHeadCount(s);
    var oldHead := s1.head;
    match oldHead.ptr
    case None => Success((s1, None))
    case Some(p) =>
      if p !in s1.heap then Failure(UseAfterFree(p))
      else
        var n := s1.heap[p];
        var inc := oldHead.ext - 2;
        var before := n.internal;
        var h := if before == -inc then s1.heap - {p}
                 else s1.heap[p := n.(data := None, internal := before + inc)];
        Success((Stack(h, n.next, s1.nextId), n.data))
  }

  /** The losing consumer's release: `fetch_add(-1)` on `internal_count`,
      deleting the node when the value it returned was 1. */
  function LoserRelease<T>(h: map<NodeId, StackNode<T>>, p: NodeId): (r: Result<map<NodeId, StackNode<T>>, Fault>)
    ensures p !in h ==> r == Failure(UseAfterFree(p))
    ensures p in h ==> r.Success? && r.value.Keys <= h.Keys && (p !in r.value <==> h[p].internal == 1)
    ensures p in h && h[p].internal != 1 ==> r.value[p] == h[p].(internal := h[p].internal - 1)
    ensures r.Success? ==> forall x :: x in h && x != p ==> x in r.value && r.value[x] == h[x]
  {
    if p !in h then Failure(UseAfterFree(p))
    else if h[p].internal == 1 then Success(h - {p})
    else Success(h[p := h[p].(internal := h[p].internal - 1)])
  }

  /** `s` holds `vals`, top first, in the nodes `ids`: every node has
      `internal_count` 0 and names the node below through `{1, ptr}`; the
      bottom node's `next` is the null handle `head` held when it was
      pushed; `head` names the top through `{1, ptr}`; and the allocated
      nodes are exactly these. */
  ghost predicate Rep<T>(s: Stack<T>, ids: seq<NodeId>, vals: seq<T>) {
    && |ids| == |vals|
    && Linked.Distinct(ids)
    && s.head.ptr == Linked.First(ids)
    && (|ids| > 0 ==> s.head.ext == 1)
    && s.heap.Keys == Linked.Elems(ids)
    && (forall x :: x in s.heap ==> x < s.nextId)
    && forall k :: 0 <= k < |ids| ==> NodeOk(s, ids, vals, k)
  }

  /** Node `k` of the stack holds `vals[k]` and links to node `k + 1`. */
  ghost predicate NodeOk<T>(s: Stack<T>, ids: seq<NodeId>, vals: seq<T>, k: nat)
    requires |ids| == |vals| && k < |ids|
  {
    && ids[k] in s.heap
    && s.heap[ids[k]].data == Some(vals[k])
    && s.heap[ids[k]].internal == 0
    && (if k + 1 < |ids| then s.heap[ids[k]].next == Handle(1, Some(ids[k + 1]))
        else s.heap[ids[k]].next.ptr.None?)
  }

  /** A new stack holds nothing. */
  lemma NewRep<T>()
    ensures Rep(New<T>(), [], [])
  {
  }

  /** Pushing `v` onto a stack holding `vals` gives one holding
      `[v] + vals`. */
  lemma {:induction false} PushRefines<T>(s: Stack<T>, ids: seq<NodeId>, vals: seq<T>, v: T)
    requires Rep(s, ids, vals)
    ensures Rep(Push(s, v), [s.nextId] + ids, [v] + vals)
  {
    var n := s.nextId;
    var r := Push(s, v);
    var ids', vals' := [n] + ids, [v] + vals;
    assert n !in s.heap;
    forall k | 0 <= k < |ids'| ensures NodeOk(r, ids', vals', k) {
      if k > 0 {
        assert NodeOk(s, ids, vals, k - 1);
        assert ids'[k] == ids[k - 1] != n;
        if k + 1 < |ids'| {
          assert ids'[k + 1] == ids[k];
        }
      } else if |ids| > 0 {
        assert ids'[1] == ids[0];
      }
    }
    forall i, j | 0 <= i < j < |ids'| ensures ids'[i] != ids'[j] {
      if i == 0 {
        assert NodeOk(s, ids, vals, j - 1);
      }
    }
    Linked.ElemsPush(ids, n);
  }

  /** Popping from a stack holding nothing returns nothing; from one
      holding `vals` it returns `vals[0]`, deletes the top node and leaves
      a stack holding the rest. */
  lemma {:induction false} PopRefines<T>(s: Stack<T>, ids: seq<NodeId>, vals: seq<T>)
    requires Rep(s, ids, vals)
    ensures Pop(s).Success?
    ensures |vals| == 0 ==> Pop(s).value.1 == None && Rep(Pop(s).value.0, ids, vals)
    ensures |vals| > 0 ==> && Pop(s).value.1 == Some(vals[0])
                           && Rep(Pop(s).value.0, ids[1..], vals[1..])
                           && ids[0] !in Pop(s).value.0.heap
  {
    if |vals| > 0 {
      assert NodeOk(s, ids, vals, 0);
      var r := Pop(s).value.0;
      assert r.heap == s.heap - {ids[0]};
      var ids', vals' := ids[1..], vals[1..];
      forall k | 0 <= k < |ids'| ensures NodeOk(r, ids', vals', k) {
        assert NodeOk(s, ids, vals, k + 1);
        assert ids'[k] == ids[k + 1] != ids[0];
      }
      if |ids'| > 0 {
        assert NodeOk(s, ids, vals, 0);
      }
      Linked.DistinctSuffix(ids, 1);
      Linked.ElemsDropFirst(ids);
    }
  }

  /** A consumer that raised `head`'s count and then lost the race keeps
      the popped node alive: the winner's `external_count - 2` leaves its
      internal count at 1, and the loser's `fetch_add(-1)` deletes it,
      leaving the heap a lone consumer's `pop` leaves. */
  lemma {:induction false} LoserDeletesAfterWinner<T>(s: Stack<T>, ids: seq<NodeId>, vals: seq<T>)
    requires Rep(s, ids, vals) && |vals| > 0
    ensures var won := Pop(IncreaseHeadCount(s));
            && won.Success? && won.value.1 == Some(vals[0])
            && ids[0] in won.value.0.heap && won.value.0.heap[ids[0]].internal == 1
            && Pop(s).Success?
            && LoserRelease(won.value.0.heap, ids[0]) == Success(Pop(s).value.0.heap)
  {
    assert NodeOk(s, ids, vals, 0);
    var p := ids[0];
    var h := Pop(IncreaseHeadCount(s)).value.0.heap;
    assert h == s.heap[p := s.heap[p].(data := None, internal := 1)];
    assert h - {p} == s.heap - {p};
  }

  /** Last in, first out: a pop straight after pushing `v` returns `v`
      and leaves a stack holding what it held before. */
  lemma {:induction false} PushThenPop<T>(s: Stack<T>, ids: seq<NodeId>, vals: seq<T>, v: T)
    requires Rep(s, ids, vals)
    ensures Pop(Push(s, v)).Success?
    ensures Pop(Push(s, v)).value.1 == Some(v)
    ensures Rep(Pop(Push(s, v)).value.0, ids, vals)
  {
    PushRefines(s, ids, vals, v);
    PopRefines(Push(s, v), [s.nextId] + ids, [v] + vals);
    assert ([s.nextId] + ids)[1..] == ids;
    assert ([v] + vals)[1..] == vals;
  }

  /** `~LockFreeMPMCStack()`: pop until a pop returns nothing. The values
      come out top first and every node is deleted. */
  method Destroy<T>(s: Stack<T>, ids: seq<NodeId>, vals: seq<T>)
    returns (popped: seq<T>, r: Stack<T>)
    requires Rep(s, ids, vals)
    ensures popped == vals
    ensures r.heap == map[] && r.head.ptr.None?
  {
    r := s;
    ghost var rids, rvals := ids, vals;
    popped := [];
    while true
      invariant Rep(r, rids, rvals)
      invariant vals == popped + rvals
      decreases |rvals|
    {
      PopRefines(r, rids, rvals);
      var step := Pop(r);
      var got := step.value.1;
      if got.None? {
        r := step.value.0;
        break;
      }
      popped := popped + [got.value];
      rids, rvals := rids[1..], rvals[1..];
      r := step.value.0;
    }
  }
}
