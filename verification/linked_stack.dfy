/** The linked stacks: a `head` pointer to the top node, each node holding
    a value and a link to the node below. `push` links a fresh node in
    front of `head`; `pop` unlinks the top node, frees it and returns its
    value, or reports an empty stack when `head` is null.

    include/lock_mpmc_stack.h (identical to other/lock_mpmc_stack.h) runs
    both under a mutex and deletes the popped node by hand.
    include/lock-free_mpmc_stack.hpp (identical to
    other/lock-free_mpmc_stack.hpp, and to include/lockfree_stack.hpp but
    for the class name) swings an atomic `shared_ptr` head with
    `compare_exchange_weak`; run by one thread the head never moves between
    the load and the exchange, a spurious failure reloads the same head, and
    the unlinked node is freed when its last `shared_ptr` goes. Both return
    "no value" on an empty stack (a null `shared_ptr`, or `std::nullopt`),
    modelled as `None`. */
module LinkedStack {
  import opened Wrappers
  import opened Linked

  datatype Stack<T> = Stack(heap: Heap<T>, head: Option<NodeId>, nextId: NodeId)

  /** `s` holds `vals`, top first: `ids` are the nodes from `head` down,
      each carrying its value, and every allocated node is one of them. */
  ghost predicate Rep<T>(s: Stack<T>, ids: seq<NodeId>, vals: seq<T>) {
    && List(s.heap, s.head, ids)
    && Holds(s.heap, ids, vals)
    && s.heap.Keys == Elems(ids)
    && Below(s.heap, s.nextId)
  }

  /** The constructors: `head(nullptr)`, or a default (null) atomic
      `shared_ptr`. */
  function New<T>(): (s: Stack<T>)
    ensures Empty(s)
    ensures Rep(s, [], [])
  {
    Stack(map[], None, 0)
  }

  /** `new_node->next = head; head = new_node`: the fresh top node carries
      `v` and links to the old top; no other node changes. */
  function Push<T>(s: Stack<T>, v: T): (r: Stack<T>)
    requires Below(s.heap, s.nextId)
    ensures r.head.Some? && r.head.value !in s.heap
    ensures r.heap.Keys == s.heap.Keys + {r.head.value}
    ensures r.heap[r.head.value] == Node(Some(v), s.head)
    ensures forall x :: x in s.heap ==> r.heap[x] == s.heap[x]
    ensures Below(r.heap, r.nextId)
  {
    var n := s.nextId;
    Stack(s.heap[n := Node(Some(v), s.head)], Some(n), n + 1)
  }

  /** The top node is live when there is one. */
  ghost predicate TopLive<T>(s: Stack<T>) {
    s.head.Some? ==> s.head.value in s.heap
  }

  /** A null head gives no value and leaves the stack alone; otherwise the
      top node's successor becomes the head, the top node is freed and its
      value is returned. */
  function Pop<T>(s: Stack<T>): (r: (Stack<T>, Option<T>))
    requires TopLive(s)
    ensures s.head.None? ==> r == (s, None)
    ensures s.head.Some? ==>
              var top := s.heap[s.head.value];
              && r.1 == top.data
              && r.0.head == top.next
              && r.0.heap == s.heap - {s.head.value}
              && r.0.nextId == s.nextId
  {
    match s.head
    case None => (s, None)
    case Some(top) => (s.(heap := s.heap - {top}, head := s.heap[top].next), s.heap[top].data)
  }

  /** `empty()`: the head is null. */
  predicate Empty<T>(s: Stack<T>) {
    s.head.None?
  }

  /** Pushing `v` onto a stack holding `vals` gives one holding
      `[v] + vals`. */
  lemma {:induction false} PushRefines<T>(s: Stack<T>, ids: seq<NodeId>, vals: seq<T>, v: T)
    requires Rep(s, ids, vals)
    ensures Below(s.heap, s.nextId)
    ensures Rep(Push(s, v), [s.nextId] + ids, [v] + vals)
  {
    var n := s.nextId;
    assert n !in ids by {
      assert forall k :: 0 <= k < |ids| ==> ids[k] in s.heap;
    }
    ListPush(s.heap, s.head, ids, n, Some(v));
    HoldsPush(s.heap, ids, vals, n, Node(Some(v), s.head), v);
    ElemsPush(ids, n);
  }

  /** Popping a stack holding `vals` returns nothing and changes nothing
      when `vals` is empty, and otherwise returns `vals[0]` and leaves a
      stack holding the rest, the top node freed. */
  lemma {:induction false} PopRefines<T>(s: Stack<T>, ids: seq<NodeId>, vals: seq<T>)
    requires Rep(s, ids, vals)
    ensures TopLive(s)
    ensures |vals| == 0 ==> Pop(s) == (s, None)
    ensures |vals| > 0 ==> Pop(s).1 == Some(vals[0]) && Rep(Pop(s).0, ids[1..], vals[1..])
  {
    if |vals| > 0 {
      LinkAt(s.heap, ids, 0);
      RepPop(s, ids, vals);
    }
  }

  lemma {:induction false} RepPop<T>(s: Stack<T>, ids: seq<NodeId>, vals: seq<T>)
    requires Rep(s, ids, vals) && |vals| > 0
    ensures Rep(s.(heap := s.heap - {ids[0]}, head := s.heap[ids[0]].next), ids[1..], vals[1..])
  {
    ListPop(s.heap, ids);
    HoldsDropFirst(s.heap, ids, vals, ids[0]);
    ElemsDropFirst(ids);
  }

  /** The stack is empty exactly when it holds no value. */
  lemma EmptyIff<T>(s: Stack<T>, ids: seq<NodeId>, vals: seq<T>)
    requires Rep(s, ids, vals)
    ensures Empty(s) <==> |vals| == 0
  {
  }

  /** `~LockMPMCStack()`: `while (pop()) {}` pops until the head is null;
      the values come off top first and no node is left allocated. */
  method Drain<T>(s: Stack<T>, ids: seq<NodeId>, vals: seq<T>)
    returns (popped: seq<T>, r: Stack<T>)
    requires Rep(s, ids, vals)
    ensures popped == vals
    ensures Empty(r) && r.heap == map[]
  {
    r := s;
    popped := [];
    ghost var rids := ids;
    ghost var i := 0;
    while true
      invariant 0 <= i <= |vals|
      invariant Rep(r, rids, vals[i..])
      invariant popped == vals[..i]
      decreases |vals| - i
    {
      DrainStep(r, rids, vals, i);
      var step := Pop(r);
      if step.1.None? {
        break;
      }
      popped := popped + [step.1.value];
      r, rids, i := step.0, rids[1..], i + 1;
    }
    assert vals[..i] == vals;
  }

  /** One round of `Drain`: a pop from the stack holding `vals[i..]`
      returns `vals[i]` and leaves `vals[i + 1..]`, or returns nothing
      when all of `vals` is gone, the stack then being empty with nothing
      allocated. */
  lemma DrainStep<T>(s: Stack<T>, ids: seq<NodeId>, vals: seq<T>, i: nat)
    requires i <= |vals| && Rep(s, ids, vals[i..])
    ensures TopLive(s)
    ensures Pop(s).1.None? ==> i == |vals| && Empty(s) && s.heap == map[]
    ensures Pop(s).1.Some? ==> && i < |vals|
                               && Pop(s).1.value == vals[i]
                               && Rep(Pop(s).0, ids[1..], vals[i + 1..])
                               && vals[..i + 1] == vals[..i] + [vals[i]]
  {
    var rest := vals[i..];
    PopRefines(s, ids, rest);
    if i < |vals| {
      assert rest[0] == vals[i];
      assert rest[1..] == vals[i + 1..];
      PrefixSnoc(vals, i);
    } else {
      assert |rest| == 0;
      EmptyHeap(s, ids, rest);
    }
  }

  /** A stack holding no value has no node allocated. */
  lemma {:induction false} EmptyHeap<T>(s: Stack<T>, ids: seq<NodeId>, vals: seq<T>)
    requires Rep(s, ids, vals) && |vals| == 0
    ensures Empty(s) && s.heap == map[]
  {
    assert |ids| == 0;
    assert s.heap.Keys == {};
  }

  /** Push 1, 2, 3 and pop four times: 3, 2, 1, then nothing. */
  lemma LifoScenario()
    ensures var s3 := Push(Push(Push(New<int>(), 1), 2), 3);
            var (s4, a) := Pop(s3);
            var (s5, b) := Pop(s4);
            var (s6, c) := Pop(s5);
            var (_, d) := Pop(s6);
            a == Some(3) && b == Some(2) && c == Some(1) && d == None
  {
    var s0 := New<int>();
    PushRefines(s0, [], [], 1);
    var s1 := Push(s0, 1);
    PushRefines(s1, [s0.nextId], [1], 2);
    var s2 := Push(s1, 2);
    var ids2 := [s1.nextId, s0.nextId];
    PushRefines(s2, ids2, [2, 1], 3);
    var s3 := Push(s2, 3);
    var ids3 := [s2.nextId] + ids2;
    PopRefines(s3, ids3, [3, 2, 1]);
    var (s4, a) := Pop(s3);
    PopRefines(s4, ids3[1..], [2, 1]);
    var (s5, b) := Pop(s4);
    PopRefines(s5, ids3[1..][1..], [1]);
    var (s6, c) := Pop(s5);
    PopRefines(s6, ids3[1..][1..][1..], []);
  }
}
