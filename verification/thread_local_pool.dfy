/** include/hazard_pointer.hpp, `ThreadLocalPool<T>`: a per-thread LIFO
    freelist of records. Records are addresses handed out by an allocator
    counter; `new T()` is the next unused address. */
module ThreadLocalPool {

  /** `kBatchAllocate`: how many records an empty pool allocates at once. */
  const BatchAllocate: nat := 64

  /** `g_freelist_` as the sequence of records it links, first at the
      front; `nextId` is the allocator's next fresh address. */
  datatype Pool = Pool(free: seq<nat>, nextId: nat)

  /** The thread's freelist starts null. */
  function New(): (p: Pool)
    ensures Valid(p) && |p.free| == 0
  {
    Pool([], 0)
  }

  /** The freelist links distinct records, all already allocated. */
  ghost predicate Valid(p: Pool) {
    && (forall i, j :: 0 <= i < j < |p.free| ==> p.free[i] != p.free[j])
    && (forall i :: 0 <= i < |p.free| ==> p.free[i] < p.nextId)
  }

  /** The freelist after `k` allocations from address `n`, each new record
      pushed on the front: the last allocated comes first. */
  function Batch(n: nat, k: nat): (r: seq<nat>)
    ensures |r| == k
    ensures forall i :: 0 <= i < k ==> n <= r[i] < n + k
    ensures forall i, j :: 0 <= i < j < k ==> r[i] > r[j]
  {
    seq(k, i requires 0 <= i < k => n + k - 1 - i)
  }

  /** `acquire()`: an empty freelist first gets `kBatchAllocate` fresh
      records; then the first record is unlinked and returned. */
  function Acquire(p: Pool): (r: (Pool, nat))
    ensures |p.free| > 0 ==> r.1 == p.free[0] && r.0 == Pool(p.free[1..], p.nextId)
    ensures |p.free| == 0 ==>
              && p.nextId <= r.1 < r.0.nextId == p.nextId + BatchAllocate
              && |r.0.free| == BatchAllocate - 1
              && forall i :: 0 <= i < |r.0.free| ==> p.nextId <= r.0.free[i] < r.1
  {
    var q := if |p.free| == 0 then Pool(Batch(p.nextId, BatchAllocate), p.nextId + BatchAllocate) else p;
    (Pool(q.free[1..], q.nextId), q.free[0])
  }

  /** `release(node)`: `node` becomes the first record. */
  function Release(p: Pool, node: nat): (r: Pool)
    ensures |r.free| == |p.free| + 1 && r.free[0] == node && r.free[1..] == p.free
    ensures r.nextId == p.nextId
  {
    Pool([node] + p.free, p.nextId)
  }

  /** The freelist is LIFO: acquiring right after releasing `node` returns
      `node` and restores the pool. */
  lemma ReleaseThenAcquire(p: Pool, node: nat)
    ensures Acquire(Release(p, node)) == (p, node)
  {
    assert ([node] + p.free)[1..] == p.free;
  }

  /** Acquiring keeps the pool valid and hands out an allocated record
      that is no longer on the freelist. */
  lemma AcquireValid(p: Pool)
    requires Valid(p)
    ensures var (q, node) := Acquire(p);
            Valid(q) && node < q.nextId && node !in q.free
  {
    var (q, node) := Acquire(p);
    if |p.free| > 0 {
      assert forall i :: 0 <= i < |q.free| ==> q.free[i] == p.free[i + 1];
    }
  }

  /** Releasing an allocated record that is not on the freelist keeps the
      pool valid. */
  lemma ReleaseValid(p: Pool, node: nat)
    requires Valid(p) && node < p.nextId && node !in p.free
    ensures Valid(Release(p, node))
  {
    var q := Release(p, node);
    assert forall i :: 0 < i < |q.free| ==> q.free[i] == p.free[i - 1];
  }
}
