/** include/memory_pool.hpp, `MemoryPool<T>`: a shared LIFO freelist of
    objects whose first word is reused as the link. Objects are modelled
    as bare identities: what the link overwrites in an object, and the
    object's contents when `acquire` hands it out, are not modelled.
    `acquire` protects the
    head it read with hazard slot 0 of the calling thread (`p_tid`) before
    unlinking it. Run by one thread, the re-read of the head always finds
    the head just read, so the only way round the loop again is a
    spurious failure of the weak compare-and-swap; `spurious` says how
    many of those happen before it succeeds. The freelist and allocator
    reuse `ThreadLocalPool.Pool`. */
module MemoryPool {
  import opened Wrappers
  import ThreadLocalPool
  import HazardManager

  type Pool = ThreadLocalPool.Pool

  /** `kBatchAllocate`. */
  const BatchSize: nat := 64

  /** `MemoryPool()`: an empty freelist. */
  function New(): (p: Pool)
    ensures ThreadLocalPool.Valid(p) && |p.free| == 0
  {
    ThreadLocalPool.Pool([], 0)
  }

  /** `batch_allocate()`: 64 fresh objects are chained in allocation order
      and the chain is pushed in front of the current freelist, which
      becomes its suffix. */
  function BatchAllocate(p: Pool): (r: Pool)
    ensures |r.free| == |p.free| + BatchSize
    ensures r.free[BatchSize..] == p.free
    ensures r.nextId == p.nextId + BatchSize
    ensures forall i :: 0 <= i < BatchSize ==> p.nextId <= r.free[i] < r.nextId
    ensures forall i, j :: 0 <= i < j < BatchSize ==> r.free[i] < r.free[j]
  {
    var chain := seq(BatchSize, i requires 0 <= i < BatchSize => p.nextId + i);
    assert (chain + p.free)[BatchSize..] == p.free;
    ThreadLocalPool.Pool(chain + p.free, p.nextId + BatchSize)
  }

  /** `acquire()`: on an empty freelist, allocate a batch and start again;
      otherwise protect the head with slot 0, unlink it, clear slot 0 and
      return it. A spurious compare-and-swap failure clears slot 0 and
      starts again. `protect` asserts that `p_tid` is a valid row. */
  function Acquire(p: Pool, g: HazardManager.Globals, tid: nat, spurious: nat)
    : (r: Result<(Pool, HazardManager.Globals, nat), HazardManager.HazardError>)
    requires HazardManager.WellFormed(g)
    ensures tid < HazardManager.MaxThreads <==> r.Success?
    ensures r.Failure? ==> r.error == HazardManager.AssertionFailure
    ensures r.Success? && |p.free| > 0 ==> r.value.2 == p.free[0] && r.value.0 == p.(free := p.free[1..])
    ensures r.Success? && |p.free| == 0 ==>
              && r.value.2 == p.nextId
              && r.value.0.nextId == p.nextId + BatchSize
              && |r.value.0.free| == BatchSize - 1
              && forall i :: 0 <= i < |r.value.0.free| ==> p.nextId < r.value.0.free[i] < r.value.0.nextId
    ensures r.Success? ==>
              var g' := r.value.1;
              && HazardManager.WellFormed(g')
              && g'.owners == g.owners
              && g'.slots[tid][0].None?
              && forall i, j :: 0 <= i < HazardManager.MaxThreads && 0 <= j < HazardManager.HazardsPerThread && (i, j) != (tid, 0) ==>
                                g'.slots[i][j] == g.slots[i][j]
    decreases spurious, if |p.free| == 0 then 1 else 0
  {
    if |p.free| == 0 then
      Acquire(BatchAllocate(p), g, tid, spurious)
    else
      var oldHead := p.free[0];
      match HazardManager.Protect(g, tid, 0, oldHead)
      case Failure(e) => Failure(e)
      case Success(g1) =>
        assert tid < HazardManager.MaxThreads;
        var released := HazardManager.Release(g1, tid, 0);
        assert released.Success?;
        var g2 := released.value;
        if spurious > 0 then
          Acquire(p, g2, tid, spurious - 1)
        else
          Success((p.(free := p.free[1..]), g2, oldHead))
  }

  /** `release(obj)`: `obj` becomes the head; a failed weak
      compare-and-swap reloads the same head and tries again, so the push
      always happens. */
  function Release(p: Pool, obj: nat): (r: Pool)
    ensures |r.free| == |p.free| + 1 && r.free[0] == obj && r.free[1..] == p.free
    ensures r.nextId == p.nextId
  {
    ThreadLocalPool.Release(p, obj)
  }

  /** The pool is LIFO: acquiring right after releasing `obj` returns
      `obj` and restores the freelist, however many spurious failures the
      acquire meets. */
  lemma {:induction false} ReleaseThenAcquire(p: Pool, g: HazardManager.Globals, tid: nat, obj: nat, spurious: nat)
    requires HazardManager.WellFormed(g)
    requires tid < HazardManager.MaxThreads
    ensures var r := Acquire(Release(p, obj), g, tid, spurious);
            r.Success? && r.value.2 == obj && r.value.0 == p
    decreases spurious
  {
    var q := Release(p, obj);
    assert q.(free := q.free[1..]) == p;
    if spurious > 0 {
      var g1 := HazardManager.Protect(g, tid, 0, obj).value;
      var g2 := HazardManager.Release(g1, tid, 0).value;
      ReleaseThenAcquire(p, g2, tid, obj, spurious - 1);
    }
  }

  /** Acquiring keeps the pool valid and hands out an allocated object
      that is no longer on the freelist. */
  lemma AcquireValid(p: Pool, g: HazardManager.Globals, tid: nat, spurious: nat)
    requires ThreadLocalPool.Valid(p)
    requires HazardManager.WellFormed(g)
    requires tid < HazardManager.MaxThreads
    ensures var r := Acquire(p, g, tid, spurious);
            && r.Success?
            && ThreadLocalPool.Valid(r.value.0)
            && r.value.2 < r.value.0.nextId
            && r.value.2 !in r.value.0.free
  {
    var r := Acquire(p, g, tid, spurious);
    if |p.free| > 0 {
      assert forall i :: 0 <= i < |r.value.0.free| ==> r.value.0.free[i] == p.free[i + 1];
    } else {
      var b := BatchAllocate(p);
      assert r.value.0.free == b.free[1..];
      assert forall i :: 0 <= i < |r.value.0.free| ==> r.value.0.free[i] == b.free[i + 1];
    }
  }

  /** `~MemoryPool()`: walks the freelist and deletes every object on it,
      in list order. */
  method Destroy(p: Pool) returns (deleted: seq<nat>)
    ensures deleted == p.free
  {
    deleted := [];
    var rest := p.free;
    while |rest| > 0
      invariant deleted + rest == p.free
    {
      deleted := deleted + [rest[0]];
      rest := rest[1..];
    }
  }
}
