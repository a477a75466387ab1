/** The split reference count shared by the lock-free MPMC queues: a
    `counted_node_ptr { external_count; ptr; }` handle, whose count grows
    each time a thread takes the handle, and a per-node
    `node_counter { internal_count : 30; external_counters : 2; }`, where
    `external_counters` is the number of handles (head and tail) that may
    still name the node and `internal_count` collects the balance of
    references taken through handles and given back. A node is deleted
    when both fields of its counter are zero.

    `internal_count` is an unsigned 30-bit bit-field: decrementing it at 0
    wraps to 2^30 - 1 and adding past 2^30 - 1 wraps to 0.
    `external_counters` is a 2-bit field and wraps modulo 4. The handle's
    `external_count` is an `int`; its 32-bit overflow is not modelled. */
module SplitCount {
  import opened Wrappers
  import opened Ring

  type NodeId = nat

  /** 2^30, the modulus of `internal_count`. */
  const InternalMod: nat := 0x4000_0000
  /** 2^2, the modulus of `external_counters`. */
  const ExternalMod: nat := 4

  /** `internal_count` after storing `x` into the 30-bit field. */
  function Wrap(x: int): (r: nat)
    ensures r < InternalMod
  {
    x % InternalMod
  }

  datatype Counter = Counter(internal: nat, externals: nat)

  /** `counted_node_ptr`: a pointer with an external count. */
  datatype Handle = Handle(ext: int, ptr: Option<NodeId>)

  /** `{0}`, `{0, nullptr}`: the null handle a fresh node's `next` holds. */
  const NullHandle: Handle := Handle(0, None)

  /** A node: `data` (a `T*`, null as `None`), its counter and `next`. */
  datatype CNode<T> = CNode(data: Option<T>, count: Counter, next: Handle)

  type CHeap<T> = map<NodeId, CNode<T>>

  /** How a step can go wrong: touching a deleted node, following a null
      pointer, a failed `assert` or `abort`, or a retry loop that makes no
      progress within the steps allowed. */
  datatype Fault = UseAfterFree(id: NodeId) | NullDereference | AssertionFailure | Livelock

  /** `node()`: null data, a null `next`, `internal_count = 0` and
      `external_counters = 2` (one for `head`, one for `tail`). */
  function FreshNode<T>(): (n: CNode<T>)
    ensures n.data.None? && n.next == NullHandle
    ensures n.count.internal == 0 && n.count.externals == 2
  {
    CNode(None, Counter(0, 2), NullHandle)
  }

  /** The deletion rule: both fields are zero. */
  predicate Dead(c: Counter) {
    c.internal == 0 && c.externals == 0
  }

  /** Store counter `c` into node `id`, deleting the node when `c` is dead. */
  function Settle<T>(h: CHeap<T>, id: NodeId, c: Counter): (r: CHeap<T>)
    requires id in h
    ensures Dead(c) ==> r == h - {id}
    ensures !Dead(c) ==> r == h[id := h[id].(count := c)]
  {
    if Dead(c) then h - {id} else h[id := h[id].(count := c)]
  }

  /** The counter `release_ref` stores: one internal reference fewer. */
  function Released(c: Counter): (r: Counter)
    ensures r.externals == c.externals
    ensures c.internal < InternalMod ==> (r.internal + 1) % InternalMod == c.internal
  {
    Counter(Wrap(c.internal - 1), c.externals)
  }

  /** The counter `free_external_counter` stores for a handle with count
      `ext`: one handle fewer, and the `ext - 2` references taken through
      the handle beyond its own and the freeing thread's turned internal. */
  function Freed(c: Counter, ext: int): (r: Counter)
    ensures r.externals < ExternalMod && (r.externals + 1) % ExternalMod == c.externals % ExternalMod
    ensures c.internal < InternalMod ==> (r.internal - (ext - 2)) % InternalMod == c.internal
  {
    Counter(Wrap(c.internal + (ext - 2)), (c.externals - 1) % ExternalMod)
  }

  /** `node::release_ref()` on node `id`: fails on a null or deleted node;
      otherwise stores `Released` and deletes the node when it is dead. */
  function ReleaseRef<T>(h: CHeap<T>, id: Option<NodeId>): (r: Result<CHeap<T>, Fault>)
    ensures id.None? ==> r == Failure(NullDereference)
    ensures id.Some? && id.value !in h ==> r == Failure(UseAfterFree(id.value))
    ensures id.Some? && id.value in h ==> r.Success? && r.value.Keys <= h.Keys
    ensures id.Some? && id.value in h ==>
              var c := h[id.value].count;
              (id.value !in r.value <==> (c.internal - 1) % InternalMod == 0 && c.externals == 0)
    ensures id.Some? && r.Success? && id.value in r.value ==>
              r.value[id.value] == h[id.value].(count := Released(h[id.value].count))
    ensures r.Success? ==> forall x :: x in h && Some(x) != id ==> x in r.value && r.value[x] == h[x]
  {
    match id
    case None => Failure(NullDereference)
    case Some(n) =>
      if n !in h then Failure(UseAfterFree(n))
      else Success(Settle(h, n, Released(h[n].count)))
  }

  /** `free_external_counter(p)` as most variants write it: no null check
      and no assertion. */
  function FreeExternalCounter<T>(h: CHeap<T>, p: Handle): (r: Result<CHeap<T>, Fault>)
    ensures p.ptr.None? ==> r == Failure(NullDereference)
    ensures p.ptr.Some? && p.ptr.value !in h ==> r == Failure(UseAfterFree(p.ptr.value))
    ensures p.ptr.Some? && p.ptr.value in h ==> r.Success? && r.value.Keys <= h.Keys
    ensures p.ptr.Some? && p.ptr.value in h ==>
              var c := h[p.ptr.value].count;
              (p.ptr.value !in r.value <==>
                 (c.internal + (p.ext - 2)) % InternalMod == 0 && (c.externals - 1) % ExternalMod == 0)
    ensures p.ptr.Some? && r.Success? && p.ptr.value in r.value ==>
              r.value[p.ptr.value] == h[p.ptr.value].(count := Freed(h[p.ptr.value].count, p.ext))
    ensures r.Success? ==> forall x :: x in h && Some(x) != p.ptr ==> x in r.value && r.value[x] == h[x]
  {
    match p.ptr
    case None => Failure(NullDereference)
    case Some(n) =>
      if n !in h then Failure(UseAfterFree(n))
      else Success(Settle(h, n, Freed(h[n].count, p.ext)))
  }

  /** `free_external_counter(p)` in other/lock-free_mpmc_queue.hpp: a null
      handle is ignored and `external_count >= 2` is asserted first. */
  function FreeExternalCounterGuarded<T>(h: CHeap<T>, p: Handle): (r: Result<CHeap<T>, Fault>)
    ensures p.ptr.None? ==> r == Success(h)
    ensures p.ptr.Some? && p.ext < 2 ==> r == Failure(AssertionFailure)
    ensures p.ptr.Some? && p.ext >= 2 ==> r == FreeExternalCounter(h, p)
  {
    if p.ptr.None? then Success(h)
    else if p.ext < 2 then Failure(AssertionFailure)
    else FreeExternalCounter(h, p)
  }

  /** `increase_external_count(counter, old_counter)`: run by one thread,
      the first exchange fails only if `old_counter` is stale, which
      reloads it, and the second succeeds; the shared handle and the
      caller's copy both end as the current handle with one more count. */
  function IncreaseExternalCount(shared: Handle): (r: Handle)
    ensures r.ptr == shared.ptr && r.ext == shared.ext + 1
  {
    shared.(ext := shared.ext + 1)
  }

  /** The wrap is harmless: giving back an internal reference before the
      handle that took it is freed leaves the same counter as the other
      order, whatever the field wrapped through on the way. */
  lemma {:induction false} ReleaseFreeCommute(c: Counter, ext: int)
    requires c.internal < InternalMod && c.externals < ExternalMod
    ensures Freed(Released(c), ext) == Released(Freed(c, ext))
  {
    ModAdd(c.internal - 1, ext - 2, InternalMod);
    ModAdd(c.internal + (ext - 2), -1, InternalMod);
  }

  /** A node whose only handle left is `p`, and whose internal count was
      driven below zero by `k` early `release_ref` calls, is deleted by
      freeing a handle whose count is `k + 2`, and not before. */
  lemma {:induction false} EarlyReleasesBalance(k: nat, ext: int)
    requires k < InternalMod
    ensures var c := Counter(Wrap(-(k as int)), 1);
            Dead(Freed(c, ext)) <==> (ext - 2 - k) % InternalMod == 0
  {
    ModAdd(-(k as int), ext - 2, InternalMod);
  }
}
