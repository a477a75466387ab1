/** An arena of singly linked nodes, the common shape of every queue and
    stack built from `Node { data; next; }` records. A heap maps node
    addresses to nodes; `delete` removes the address from the map, so a
    deleted node is an address below the allocator's counter that is no
    longer a key. */
module Linked {
  import opened Wrappers

  type NodeId = nat

  datatype Node<T> = Node(data: Option<T>, next: Option<NodeId>)

  type Heap<T> = map<NodeId, Node<T>>

  function First(ids: seq<NodeId>): Option<NodeId> {
    if |ids| == 0 then None else Some(ids[0])
  }

  ghost predicate Distinct(ids: seq<NodeId>) {
    forall i, j :: 0 <= i < j < |ids| ==> ids[i] != ids[j]
  }

  /** The link that follows position `k` of a list of `ids`. */
  function LinkAfter(ids: seq<NodeId>, k: nat): Option<NodeId> {
    if k + 1 < |ids| then Some(ids[k + 1]) else None
  }

  /** `ids` are exactly the nodes met when following `next` from `first`
      until a null link: all allocated, pairwise distinct. */
  ghost predicate List<T>(h: Heap<T>, first: Option<NodeId>, ids: seq<NodeId>) {
    && first == First(ids)
    && Distinct(ids)
    && forall k :: 0 <= k < |ids| ==> ids[k] in h && h[ids[k]].next == LinkAfter(ids, k)
  }

  /** The nodes `ids` carry the values `vals`, in order. */
  ghost predicate Holds<T>(h: Heap<T>, ids: seq<NodeId>, vals: seq<T>) {
    && |ids| == |vals|
    && forall k :: 0 <= k < |ids| ==> ids[k] in h && h[ids[k]].data == Some(vals[k])
  }

  function Elems(ids: seq<NodeId>): set<NodeId> {
    set x | x in ids
  }

  /** Every allocated address is below the allocator's counter, so the
      counter is a fresh address. */
  ghost predicate Below<T>(h: Heap<T>, next: NodeId) {
    forall x :: x in h ==> x < next
  }

  lemma ListFrame<T>(h: Heap<T>, first: Option<NodeId>, ids: seq<NodeId>, x: NodeId, n: Node<T>)
    requires List(h, first, ids)
    requires x !in ids
    ensures List(h[x := n], first, ids)
    ensures List(h - {x}, first, ids)
  {
  }

  lemma HoldsFrame<T>(h: Heap<T>, ids: seq<NodeId>, vals: seq<T>, x: NodeId, n: Node<T>)
    requires Holds(h, ids, vals)
    requires x !in ids
    ensures Holds(h[x := n], ids, vals)
    ensures Holds(h - {x}, ids, vals)
  {
  }

  /** Linking a fresh node `n` after the last node of a list extends the
      list by `n`. */
  lemma {:induction false} ListAppend<T>(h: Heap<T>, first: NodeId, ids: seq<NodeId>, n: NodeId, d: Option<T>)
    requires List(h, Some(first), ids)
    requires n !in h
    ensures var last := ids[|ids| - 1];
            List(h[last := h[last].(next := Some(n))][n := Node(d, None)], Some(first), ids + [n])
  {
    var last := ids[|ids| - 1];
    var h' := h[last := h[last].(next := Some(n))][n := Node(d, None)];
    var ids' := ids + [n];
    forall k | 0 <= k < |ids'|
      ensures ids'[k] in h' && h'[ids'[k]].next == LinkAfter(ids', k)
    {
      if k < |ids| - 1 {
        assert ids'[k] == ids[k] != last;
        assert ids[k] != n;
      }
    }
    forall i, j | 0 <= i < j < |ids'|
      ensures ids'[i] != ids'[j]
    {
      if j == |ids| {
        assert ids[i] in h;
      }
    }
  }

  /** Pushing a fresh node `n` in front of a list makes `n` its first node. */
  lemma {:induction false} ListPush<T>(h: Heap<T>, first: Option<NodeId>, ids: seq<NodeId>, n: NodeId, d: Option<T>)
    requires List(h, first, ids)
    requires n !in h
    ensures List(h[n := Node(d, first)], Some(n), [n] + ids)
  {
    var h' := h[n := Node(d, first)];
    var ids' := [n] + ids;
    forall k | 0 <= k < |ids'|
      ensures ids'[k] in h' && h'[ids'[k]].next == LinkAfter(ids', k)
    {
      if k > 0 {
        assert ids'[k] == ids[k - 1];
        assert ids[k - 1] in h;
      }
    }
    forall i, j | 0 <= i < j < |ids'|
      ensures ids'[i] != ids'[j]
    {
      if i == 0 {
        assert ids[j - 1] in h;
      }
    }
  }

  /** Unlinking and deleting the first node of a list leaves the rest a
      list starting at its successor. */
  lemma {:induction false} ListPop<T>(h: Heap<T>, ids: seq<NodeId>)
    requires |ids| > 0
    requires List(h, Some(ids[0]), ids)
    ensures List(h - {ids[0]}, h[ids[0]].next, ids[1..])
  {
    var h' := h - {ids[0]};
    forall k | 0 <= k < |ids| - 1
      ensures ids[1..][k] in h' && h'[ids[1..][k]].next == LinkAfter(ids[1..], k)
    {
      assert ids[k + 1] != ids[0];
      assert h[ids[k + 1]].next == LinkAfter(ids, k + 1);
    }
  }

  /** The first `i + 1` items are the first `i` followed by item `i`. */
  lemma PrefixSnoc<T>(s: seq<T>, i: nat)
    requires i < |s|
    ensures s[..i + 1] == s[..i] + [s[i]]
  {
  }

  lemma ElemsAppend(s: seq<NodeId>, x: NodeId)
    ensures Elems(s + [x]) == Elems(s) + {x}
  {
    assert forall y :: y in s + [x] <==> y in s || y == x;
  }

  lemma {:induction false} ElemsDropFirst(s: seq<NodeId>)
    requires |s| > 0 && Distinct(s)
    ensures Elems(s[1..]) == Elems(s) - {s[0]}
  {
    forall y | y in s ensures y in s[1..] || y == s[0] {
      var j :| 0 <= j < |s| && s[j] == y;
      if j > 0 {
        assert s[1..][j - 1] == y;
      }
    }
    forall y | y in s[1..] ensures y in s && y != s[0] {
      var j :| 0 <= j < |s[1..]| && s[1..][j] == y;
      assert s[j + 1] == y;
    }
  }

  lemma DistinctSuffix(s: seq<NodeId>, k: nat)
    requires Distinct(s) && k <= |s|
    ensures Distinct(s[k..])
  {
    forall i, j | 0 <= i < j < |s[k..]| ensures s[k..][i] != s[k..][j] {
      assert s[k..][i] == s[k + i] && s[k..][j] == s[k + j];
    }
  }

  /** Values stay where they are when the first carrier is deleted and the
      deleted node is none of the remaining carriers. */
  lemma {:induction false} HoldsDropFirst<T>(h: Heap<T>, s: seq<NodeId>, vals: seq<T>, x: NodeId)
    requires Holds(h, s, vals) && |s| > 0
    requires forall k :: 1 <= k < |s| ==> s[k] != x
    ensures Holds(h - {x}, s[1..], vals[1..])
  {
    forall k | 0 <= k < |s[1..]|
      ensures s[1..][k] in h - {x} && (h - {x})[s[1..][k]].data == Some(vals[1..][k])
    {
      assert s[1..][k] == s[k + 1];
    }
  }

  /** A fresh carrier of `v` appended after the others. */
  lemma {:induction false} HoldsAppend<T>(h: Heap<T>, s: seq<NodeId>, vals: seq<T>, x: NodeId, n: Node<T>, v: T)
    requires Holds(h, s, vals)
    requires x !in s && n.data == Some(v)
    ensures Holds(h[x := n], s + [x], vals + [v])
  {
    forall k | 0 <= k < |s + [x]|
      ensures (s + [x])[k] in h[x := n] && h[x := n][(s + [x])[k]].data == Some((vals + [v])[k])
    {
      if k < |s| {
        assert (s + [x])[k] == s[k] != x;
      }
    }
  }

  /** Carriers keep their values in any heap that keeps their data. */
  lemma HoldsSameData<T>(h: Heap<T>, h': Heap<T>, s: seq<NodeId>, vals: seq<T>)
    requires Holds(h, s, vals)
    requires forall k :: 0 <= k < |s| ==> s[k] in h' && h'[s[k]].data == h[s[k]].data
    ensures Holds(h', s, vals)
  {
  }

  /** The node at position `k` of a list is live and links to position `k + 1`. */
  lemma LinkAt<T>(h: Heap<T>, ids: seq<NodeId>, k: nat)
    requires List(h, First(ids), ids) && k < |ids|
    ensures ids[k] in h && h[ids[k]].next == LinkAfter(ids, k)
  {
  }

  /** A fresh carrier of `v` pushed in front of the others. */
  lemma {:induction false} HoldsPush<T>(h: Heap<T>, s: seq<NodeId>, vals: seq<T>, x: NodeId, n: Node<T>, v: T)
    requires Holds(h, s, vals)
    requires x !in s && n.data == Some(v)
    ensures Holds(h[x := n], [x] + s, [v] + vals)
  {
    forall k | 0 <= k < |[x] + s|
      ensures ([x] + s)[k] in h[x := n] && h[x := n][([x] + s)[k]].data == Some(([v] + vals)[k])
    {
      if k > 0 {
        assert ([x] + s)[k] == s[k - 1] != x;
      }
    }
  }

  lemma ElemsPush(s: seq<NodeId>, x: NodeId)
    ensures Elems([x] + s) == {x} + Elems(s)
  {
    assert forall y :: y in [x] + s <==> y == x || y in s;
  }

  /** A list survives any heap change that keeps its nodes and their links. */
  lemma ListSameLinks<T>(h: Heap<T>, h': Heap<T>, first: Option<NodeId>, ids: seq<NodeId>)
    requires List(h, first, ids)
    requires forall k :: 0 <= k < |ids| ==> ids[k] in h' && h'[ids[k]].next == h[ids[k]].next
    ensures List(h', first, ids)
  {
  }

  /** The successor of a list's first node starts the rest of the list. */
  lemma {:induction false} ListTail<T>(h: Heap<T>, ids: seq<NodeId>)
    requires |ids| > 0 && List(h, Some(ids[0]), ids)
    ensures List(h, h[ids[0]].next, ids[1..])
  {
    assert h[ids[0]].next == LinkAfter(ids, 0);
    forall k | 0 <= k < |ids| - 1
      ensures ids[1..][k] in h && h[ids[1..][k]].next == LinkAfter(ids[1..], k)
    {
      assert h[ids[k + 1]].next == LinkAfter(ids, k + 1);
    }
    DistinctSuffix(ids, 1);
  }

  /** A live node outside a list that links to the list's first node
      starts a list one longer. */
  lemma {:induction false} ListCons<T>(h: Heap<T>, first: Option<NodeId>, ids: seq<NodeId>, n: NodeId)
    requires List(h, first, ids)
    requires n in h && h[n].next == first && n !in ids
    ensures List(h, Some(n), [n] + ids)
  {
    var ids' := [n] + ids;
    forall k | 0 <= k < |ids'|
      ensures ids'[k] in h && h[ids'[k]].next == LinkAfter(ids', k)
    {
      if k > 0 {
        assert ids'[k] == ids[k - 1];
      }
    }
    forall i, j | 0 <= i < j < |ids'|
      ensures ids'[i] != ids'[j]
    {
      assert ids'[j] == ids[j - 1];
    }
  }

  /** Linking a live, unlinked node outside a non-empty list after its
      last node extends the list by it. */
  lemma {:induction false} ListSnoc<T>(h: Heap<T>, first: Option<NodeId>, ids: seq<NodeId>, n: NodeId)
    requires |ids| > 0 && List(h, first, ids)
    requires n in h && h[n].next.None? && n !in ids
    ensures var last := ids[|ids| - 1];
            List(h[last := h[last].(next := Some(n))], first, ids + [n])
  {
    var last := ids[|ids| - 1];
    var h' := h[last := h[last].(next := Some(n))];
    var ids' := ids + [n];
    forall k | 0 <= k < |ids'|
      ensures ids'[k] in h' && h'[ids'[k]].next == LinkAfter(ids', k)
    {
      if k < |ids| - 1 {
        assert ids'[k] == ids[k] != last;
      }
    }
    forall i, j | 0 <= i < j < |ids'|
      ensures ids'[i] != ids'[j]
    {
      if j == |ids| {
        assert ids'[i] == ids[i];
      }
    }
  }

  /** A live carrier of `v` appended after the others. */
  lemma {:induction false} HoldsSnoc<T>(h: Heap<T>, s: seq<NodeId>, vals: seq<T>, x: NodeId, v: T)
    requires Holds(h, s, vals)
    requires x in h && h[x].data == Some(v)
    ensures Holds(h, s + [x], vals + [v])
  {
    forall k | 0 <= k < |s + [x]|
      ensures (s + [x])[k] in h && h[(s + [x])[k]].data == Some((vals + [v])[k])
    {
      if k < |s| {
        assert (s + [x])[k] == s[k];
      }
    }
  }

  /** `delete` every node of a list, following the links from `first`:
      the nodes go in list order and nothing else is touched. */
  method DeleteAll<T>(h: Heap<T>, first: Option<NodeId>, ids: seq<NodeId>)
    returns (deleted: seq<NodeId>, r: Heap<T>)
    requires List(h, first, ids)
    ensures deleted == ids
    ensures r == h - Elems(ids)
  {
    var p := first;
    r := h;
    deleted := [];
    while p.Some?
      invariant |deleted| <= |ids|
      invariant deleted == ids[..|deleted|]
      invariant p == (if |deleted| < |ids| then Some(ids[|deleted|]) else None)
      invariant r == h - Elems(deleted)
      decreases |ids| - |deleted|
    {
      var k := |deleted|;
      assert h[ids[k]].next == LinkAfter(ids, k);
      assert ids[k] !in Elems(deleted) by {
        assert forall j :: 0 <= j < k ==> deleted[j] == ids[j] != ids[k];
      }
      var next := r[p.value].next;
      r := r - {p.value};
      ElemsAppend(deleted, p.value);
      deleted := deleted + [p.value];
      assert deleted == ids[..k + 1];
      p := next;
    }
    assert deleted == ids;
  }
}
