/** include/hazard_pointer.hpp, `hp::HazardManager`: a global table of
    thread owners and hazard slots, and per thread a list of retired
    pointers that `scan` reclaims once no slot protects them. The global
    arrays are `Globals`; the `thread_local` variables of the calling
    thread are passed explicitly as `Local`. A deleter is a function
    pointer the model cannot look into: calling one is recorded as a
    `Call`, in order. */
module HazardManager {
  import opened Wrappers
  import VectorStack
  import Retirement
  import ThreadLocalPool

  /** A non-null user pointer. */
  type Addr = nat

  /** A `std::thread::id` other than the default (no thread). */
  type ThreadId = nat

  /** The identity of a deleter function. */
  type Deleter = nat

  /** `kMaxThreads`, `kHazardsPerThread`, `kScanThreshold`. */
  const MaxThreads: nat := 256
  const HazardsPerThread: nat := 6
  const ScanThreshold: nat := 32

  /** `g_owner` (an empty owner is the default thread id) and `g_slots`. */
  datatype Globals = Globals(owners: seq<Option<ThreadId>>, slots: seq<seq<Option<Addr>>>)

  /** A `RetiredNode`: the pool record holding it, the pointer and its
      deleter. */
  datatype Retired = Retired(rec: nat, ptr: Addr, deleter: Deleter)

  /** The calling thread's `tl_tid` (`None` for `size_t(-1)`),
      `tl_retired_head` as a list (front first), `tl_retired_count` and its
      `ThreadLocalPool<RetiredNode>` freelist. */
  datatype Local = Local(tid: Option<nat>, retired: seq<Retired>, count: nat, pool: ThreadLocalPool.Pool)

  /** One call `deleter(ptr)`. */
  datatype Call = Call(deleter: Deleter, ptr: Addr)

  datatype HazardError =
    | ExhaustedThreadSlots  // the `runtime_error` of `register_thread`
    | AssertionFailure      // the `assert` in `protect` and `release`
    | OutOfBounds           // an index past the end of `g_slots`

  /** The shape of the global arrays. */
  ghost predicate WellFormed(g: Globals) {
    && |g.owners| == MaxThreads
    && |g.slots| == MaxThreads
    && forall i :: 0 <= i < |g.slots| ==> |g.slots[i]| == HazardsPerThread
  }

  /** Zero-initialised globals: no owners and every slot null. */
  function Init(): (g: Globals)
    ensures WellFormed(g)
    ensures forall t :: 0 <= t < MaxThreads ==> g.owners[t].None?
    ensures forall t, i :: 0 <= t < MaxThreads && 0 <= i < HazardsPerThread ==> g.slots[t][i].None?
  {
    Globals(seq(MaxThreads, _ => None), seq(MaxThreads, _ => seq(HazardsPerThread, _ => None)))
  }

  /** A thread that has done nothing yet. */
  function Fresh(): Local {
    Local(None, [], 0, ThreadLocalPool.New())
  }

  /** The pointers some hazard slot holds. */
  ghost function Protected(slots: seq<seq<Option<Addr>>>): set<Addr> {
    set i, j | 0 <= i < |slots| && 0 <= j < |slots[i]| && slots[i][j].Some? :: slots[i][j].value
  }

  /** A row of null slots. */
  function NullRow(): seq<Option<Addr>> {
    seq(HazardsPerThread, _ => None)
  }

  /** The first index from `from` on whose owner is empty. */
  function FirstFree(owners: seq<Option<ThreadId>>, from: nat): (r: Option<nat>)
    ensures r.Some? ==> from <= r.value < |owners| && owners[r.value].None?
    ensures r.Some? ==> forall k :: from <= k < r.value ==> owners[k].Some?
    ensures r.None? ==> forall k :: from <= k < |owners| ==> owners[k].Some?
    decreases |owners| - from
  {
    if from >= |owners| then None
    else if owners[from].None? then Some(from)
    else FirstFree(owners, from + 1)
  }

  /** `register_thread()`: the cached index when there is one; otherwise
      the lowest index whose owner is empty is claimed for `me`, its six
      slots are cleared and the index is cached; with every owner taken it
      throws. */
  function RegisterThread(g: Globals, l: Local, me: ThreadId): (r: Result<(Globals, Local, nat), HazardError>)
    requires WellFormed(g)
    ensures l.tid.Some? ==> r == Success((g, l, l.tid.value))
    ensures l.tid.None? && (forall k :: 0 <= k < MaxThreads ==> g.owners[k].Some?) ==>
              r == Failure(ExhaustedThreadSlots)
    ensures l.tid.None? && r.Success? ==>
              var (g', l', i) := r.value;
              && i < MaxThreads
              && g.owners[i].None?
              && (forall k :: 0 <= k < i ==> g.owners[k].Some?)
              && g'.owners == g.owners[i := Some(me)]
              && g'.slots == g.slots[i := NullRow()]
              && l' == l.(tid := Some(i))
              && WellFormed(g')
  {
    if l.tid.Some? then Success((g, l, l.tid.value))
    else match FirstFree(g.owners, 0)
      case None => Failure(ExhaustedThreadSlots)
      case Some(i) =>
        Success((Globals(g.owners[i := Some(me)], g.slots[i := NullRow()]), l.(tid := Some(i)), i))
  }

  /** Stores `p` into slot `slot` of row `tid`, after the `assert` that both
      are in range. */
  function SetSlot(g: Globals, tid: nat, slot: nat, p: Option<Addr>): (r: Result<Globals, HazardError>)
    requires WellFormed(g)
    ensures tid >= MaxThreads || slot >= HazardsPerThread <==> r == Failure(AssertionFailure)
    ensures r.Success? ==>
              && WellFormed(r.value)
              && r.value.owners == g.owners
              && r.value.slots[tid][slot] == p
              && forall i, j :: 0 <= i < MaxThreads && 0 <= j < HazardsPerThread && (i, j) != (tid, slot) ==>
                                r.value.slots[i][j] == g.slots[i][j]
  {
    if tid >= MaxThreads || slot >= HazardsPerThread then Failure(AssertionFailure)
    else Success(g.(slots := g.slots[tid := g.slots[tid][slot := p]]))
  }

  /** `protect(tid, slot, p)`: exactly slot `slot` of row `tid` holds `p`
      afterwards, which protects `p`. */
  function Protect(g: Globals, tid: nat, slot: nat, p: Addr): (r: Result<Globals, HazardError>)
    requires WellFormed(g)
    ensures tid >= MaxThreads || slot >= HazardsPerThread <==> r.Failure?
    ensures r.Success? ==> WellFormed(r.value) && p in Protected(r.value.slots)
    ensures r.Success? ==> forall i, j :: 0 <= i < MaxThreads && 0 <= j < HazardsPerThread && (i, j) != (tid, slot) ==>
                                         r.value.slots[i][j] == g.slots[i][j]
  {
    var r := SetSlot(g, tid, slot, Some(p));
    if r.Success? then
      assert r.value.slots[tid][slot] == Some(p);
      r
    else r
  }

  /** `release(tid, slot)`: exactly slot `slot` of row `tid` is null
      afterwards. */
  function Release(g: Globals, tid: nat, slot: nat): (r: Result<Globals, HazardError>)
    requires WellFormed(g)
    ensures tid >= MaxThreads || slot >= HazardsPerThread <==> r.Failure?
    ensures r.Success? ==> WellFormed(r.value) && r.value.slots[tid][slot].None?
    ensures r.Success? ==> forall i, j :: 0 <= i < MaxThreads && 0 <= j < HazardsPerThread && (i, j) != (tid, slot) ==>
                                         r.value.slots[i][j] == g.slots[i][j]
  {
    SetSlot(g, tid, slot, None)
  }

  /** `bulk_release(tid)`: every slot of row `tid` is null and no other
      row changes; it checks nothing, so a row past the table is undefined
      behaviour. */
  function BulkRelease(g: Globals, tid: nat): (r: Result<Globals, HazardError>)
    requires WellFormed(g)
    ensures tid >= MaxThreads <==> r == Failure(OutOfBounds)
    ensures r.Success? ==>
              && WellFormed(r.value)
              && r.value.owners == g.owners
              && (forall j :: 0 <= j < HazardsPerThread ==> r.value.slots[tid][j].None?)
              && forall i :: 0 <= i < MaxThreads && i != tid ==> r.value.slots[i] == g.slots[i]
  {
    if tid >= MaxThreads then Failure(OutOfBounds)
    else Success(g.(slots := g.slots[tid := NullRow()]))
  }

  /** `ThreadExitCleaner`: a registered thread's owner entry goes back to
      the default id. Its hazard slots and retired list stay as they
      are. */
  function ExitThread(g: Globals, l: Local): (r: Globals)
    requires WellFormed(g)
    requires l.tid.Some? ==> l.tid.value < MaxThreads
    ensures r.slots == g.slots
    ensures l.tid.None? ==> r == g
    ensures l.tid.Some? ==> r.owners == g.owners[l.tid.value := None]
    ensures WellFormed(r)
  {
    if l.tid.Some? then g.(owners := g.owners[l.tid.value := None]) else g
  }

  /** A thread exiting hands its index back: when every lower index is
      owned, the next thread to register gets the same index, with all of
      its slots cleared. */
  lemma ExitThenRegister(g: Globals, l: Local, other: Local, me: ThreadId)
    requires WellFormed(g)
    requires l.tid.Some? && l.tid.value < MaxThreads
    requires forall k :: 0 <= k < l.tid.value ==> g.owners[k].Some?
    requires other.tid.None?
    ensures var r := RegisterThread(ExitThread(g, l), other, me);
            && r.Success?
            && r.value.2 == l.tid.value
            && forall j :: 0 <= j < HazardsPerThread ==> r.value.0.slots[l.tid.value][j].None?
  {
    var g1 := ExitThread(g, l);
    var i := l.tid.value;
    assert g1.owners[i].None?;
    var r := FirstFree(g1.owners, 0);
    assert r.Some?;
  }

  /** A scan's test on a retired entry: some slot protects its pointer. */
  function Hazardous(p: set<Addr>): Retired -> bool {
    (e: Retired) => e.ptr in p
  }

  /** The complementary test: no slot protects it. */
  function Reclaimable(p: set<Addr>): Retired -> bool {
    (e: Retired) => e.ptr !in p
  }

  /** The deleter calls for `es`, in order. */
  function CallsOf(es: seq<Retired>): (r: seq<Call>)
    ensures |r| == |es|
    ensures forall k :: 0 <= k < |es| ==> r[k] == Call(es[k].deleter, es[k].ptr)
  {
    seq(|es|, k requires 0 <= k < |es| => Call(es[k].deleter, es[k].ptr))
  }

  /** The pool records of `es`, in order. */
  function RecordsOf(es: seq<Retired>): (r: seq<nat>)
    ensures |r| == |es|
    ensures forall k :: 0 <= k < |es| ==> r[k] == es[k].rec
  {
    seq(|es|, k requires 0 <= k < |es| => es[k].rec)
  }

  /** Step 1 of `scan`: the non-null slots, row by row. */
  method CollectHazards(g: Globals) returns (hazards: seq<Addr>)
    requires WellFormed(g)
    ensures forall a :: a in hazards <==> a in Protected(g.slots)
    ensures |hazards| <= MaxThreads * HazardsPerThread
  {
    hazards := [];
    var i := 0;
    while i < MaxThreads
      invariant 0 <= i <= MaxThreads
      invariant |hazards| <= i * HazardsPerThread
      invariant forall a :: a in hazards <==>
                  exists i', j :: 0 <= i' < i && 0 <= j < HazardsPerThread && g.slots[i'][j] == Some(a)
    {
      var j := 0;
      while j < HazardsPerThread
        invariant 0 <= j <= HazardsPerThread
        invariant |hazards| <= i * HazardsPerThread + j
        invariant forall a :: a in hazards <==>
                    || (exists i', j' :: 0 <= i' < i && 0 <= j' < HazardsPerThread && g.slots[i'][j'] == Some(a))
                    || (exists j' :: 0 <= j' < j && g.slots[i][j'] == Some(a))
      {
        var p := g.slots[i][j];
        if p.Some? {
          hazards := hazards + [p.value];
        }
        j := j + 1;
      }
      i := i + 1;
    }
    forall a ensures a in hazards <==> a in Protected(g.slots) {
      if a in Protected(g.slots) {
        var i', j' :| 0 <= i' < |g.slots| && 0 <= j' < |g.slots[i']| && g.slots[i'][j'] == Some(a);
      }
    }
  }

  /** The linear search of step 2 of `scan`. */
  method IsHazard(hazards: seq<Addr>, p: Addr) returns (found: bool)
    ensures found <==> p in hazards
  {
    found := false;
    var i := 0;
    while i < |hazards|
      invariant 0 <= i <= |hazards|
      invariant !found ==> p !in hazards[..i]
      invariant found ==> p in hazards
    {
      if hazards[i] == p {
        found := true;
        break;
      }
      i := i + 1;
    }
  }

  /** `scan()`: the retired list is detached and walked front to back;
      an entry no slot protects has its deleter called and its record
      returned to the pool, any other is pushed onto the new list, which
      therefore holds the kept entries in reverse order, and the count
      becomes their number. */
  method Scan(g: Globals, l: Local) returns (r: Local, calls: seq<Call>)
    requires WellFormed(g)
    ensures r.tid == l.tid
    ensures r.retired == VectorStack.Reverse(Retirement.Filter(l.retired, Hazardous(Protected(g.slots))))
    ensures calls == CallsOf(Retirement.Filter(l.retired, Reclaimable(Protected(g.slots))))
    ensures r.pool.free == VectorStack.Reverse(RecordsOf(Retirement.Filter(l.retired, Reclaimable(Protected(g.slots))))) + l.pool.free
    ensures r.pool.nextId == l.pool.nextId
    ensures r.count == |r.retired|
  {
    ghost var prot := Protected(g.slots);
    var hazards := CollectHazards(g);
    var kept: seq<Retired> := [];
    var pool := l.pool;
    ghost var pushed: seq<nat> := [];
    calls := [];
    var i := 0;
    while i < |l.retired|
      invariant 0 <= i <= |l.retired|
      invariant Walk(l.retired[..i], prot) == (kept, calls, pushed)
      invariant pool == ThreadLocalPool.Pool(pushed + l.pool.free, l.pool.nextId)
    {
      var e := l.retired[i];
      WalkStep(l.retired, i, prot);
      var hazard := IsHazard(hazards, e.ptr);
      if !hazard {
        calls := calls + [Call(e.deleter, e.ptr)];
        pool := ThreadLocalPool.Release(pool, e.rec);
        pushed := [e.rec] + pushed;
      } else {
        kept := [e] + kept;
      }
      i := i + 1;
    }
    assert l.retired[..i] == l.retired;
    WalkFilters(l.retired, prot);
    Retirement.ReverseMultiset(Retirement.Filter(l.retired, Hazardous(prot)));
    r := Local(l.tid, kept, |kept|, pool);
  }

  /** The walk of `scan` over the retired entries `rs`, front to back:
      the kept list (each kept entry pushed on its front), the deleter
      calls (in order) and the records pushed onto the pool (last pushed
      first). */
  function Walk(rs: seq<Retired>, prot: set<Addr>): (r: (seq<Retired>, seq<Call>, seq<nat>))
    ensures |r.1| == |r.2|
    decreases |rs|
  {
    if |rs| == 0 then ([], [], [])
    else
      var w := Walk(rs[..|rs| - 1], prot);
      var e := rs[|rs| - 1];
      if e.ptr in prot then ([e] + w.0, w.1, w.2)
      else (w.0, w.1 + [Call(e.deleter, e.ptr)], [e.rec] + w.2)
  }

  /** Walking entry `i` after the first `i`. */
  lemma WalkStep(rs: seq<Retired>, i: nat, prot: set<Addr>)
    requires i < |rs|
    ensures var w := Walk(rs[..i], prot);
            var e := rs[i];
            Walk(rs[..i + 1], prot) ==
              if e.ptr in prot then ([e] + w.0, w.1, w.2)
              else (w.0, w.1 + [Call(e.deleter, e.ptr)], [e.rec] + w.2)
  {
    assert rs[..i + 1][..i] == rs[..i];
  }

  /** The walk keeps the protected entries, reversed, and reclaims the
      others in order. */
  lemma {:induction false} WalkFilters(rs: seq<Retired>, prot: set<Addr>)
    ensures Walk(rs, prot) == (VectorStack.Reverse(Retirement.Filter(rs, Hazardous(prot))),
                               CallsOf(Retirement.Filter(rs, Reclaimable(prot))),
                               VectorStack.Reverse(RecordsOf(Retirement.Filter(rs, Reclaimable(prot)))))
    decreases |rs|
  {
    if |rs| > 0 {
      var i := |rs| - 1;
      WalkFilters(rs[..i], prot);
      KeptStep(rs, i, prot);
      DroppedStep(rs, i, prot);
      assert rs[..i + 1] == rs;
      WalkStep(rs, i, prot);
      var e := rs[i];
      var w := Walk(rs[..i], prot);
      if e.ptr in prot {
        assert w.1 + [] == w.1 && [] + w.2 == w.2;
        assert Walk(rs, prot) == ([e] + w.0, w.1, w.2);
      } else {
        assert [] + w.0 == w.0;
        assert Walk(rs, prot) == (w.0, w.1 + [Call(e.deleter, e.ptr)], [e.rec] + w.2);
      }
    }
  }

  /** One entry more walked by `scan`: the kept list gains the entry in
      front exactly when it is protected. */
  lemma KeptStep(rs: seq<Retired>, i: nat, prot: set<Addr>)
    requires i < |rs|
    ensures VectorStack.Reverse(Retirement.Filter(rs[..i + 1], Hazardous(prot)))
            == (if rs[i].ptr in prot then [rs[i]] else []) + VectorStack.Reverse(Retirement.Filter(rs[..i], Hazardous(prot)))
  {
    var e := rs[i];
    var held := Retirement.Filter(rs[..i], Hazardous(prot));
    assert rs[..i + 1] == rs[..i] + [e];
    Retirement.FilterSnoc(rs[..i], e, Hazardous(prot));
    if e.ptr in prot {
      Retirement.ReverseSnoc(held, e);
    } else {
      assert held + [] == held;
    }
  }

  /** One entry more walked by `scan`: an unprotected entry adds its
      deleter call at the end and its record on top of the pool. */
  lemma DroppedStep(rs: seq<Retired>, i: nat, prot: set<Addr>)
    requires i < |rs|
    ensures var d := Retirement.Filter(rs[..i], Reclaimable(prot));
            var d' := Retirement.Filter(rs[..i + 1], Reclaimable(prot));
            var e := rs[i];
            && CallsOf(d') == CallsOf(d) + (if e.ptr !in prot then [Call(e.deleter, e.ptr)] else [])
            && VectorStack.Reverse(RecordsOf(d')) == (if e.ptr !in prot then [e.rec] else []) + VectorStack.Reverse(RecordsOf(d))
  {
    var e := rs[i];
    var d := Retirement.Filter(rs[..i], Reclaimable(prot));
    assert rs[..i + 1] == rs[..i] + [e];
    Retirement.FilterSnoc(rs[..i], e, Reclaimable(prot));
    if e.ptr !in prot {
      assert CallsOf(d + [e]) == CallsOf(d) + [Call(e.deleter, e.ptr)];
      assert RecordsOf(d + [e]) == RecordsOf(d) + [e.rec];
      Retirement.ReverseSnoc(RecordsOf(d), e.rec);
    } else {
      assert d + [] == d;
    }
  }

  /** `retire(p, deleter)`: a record from the pool is filled with `p` and
      `deleter` and put at the front of the retired list, the count goes
      up, and a scan runs when the count reaches `kScanThreshold`. */
  method Retire(g: Globals, l: Local, p: Addr, d: Deleter) returns (r: Local, calls: seq<Call>)
    requires WellFormed(g)
    ensures var (pool, rec) := ThreadLocalPool.Acquire(l.pool);
            var e := Retired(rec, p, d);
            && (l.count + 1 < ScanThreshold ==>
                  r == Local(l.tid, [e] + l.retired, l.count + 1, pool) && calls == [])
            && (l.count + 1 >= ScanThreshold ==>
                  && r.retired == VectorStack.Reverse(Retirement.Filter([e] + l.retired, Hazardous(Protected(g.slots))))
                  && calls == CallsOf(Retirement.Filter([e] + l.retired, Reclaimable(Protected(g.slots))))
                  && r.count == |r.retired|)
    ensures r.tid == l.tid
    ensures r.count >= ScanThreshold ==> forall e :: e in r.retired ==> e.ptr in Protected(g.slots)
  {
    var (pool, rec) := ThreadLocalPool.Acquire(l.pool);
    var e := Retired(rec, p, d);
    r := Local(l.tid, [e] + l.retired, l.count + 1, pool);
    calls := [];
    if r.count >= ScanThreshold {
      var before := r;
      r, calls := Scan(g, before);
      ScanKeeps(g, before.retired, r.retired);
    }
  }

  /** What a scan keeps: a retired entry stays on the list exactly when
      some slot protects its pointer, and each entry of `rs` is either kept
      or reclaimed, as often as it occurs in `rs`. */
  lemma ScanKeeps(g: Globals, rs: seq<Retired>, kept: seq<Retired>)
    requires kept == VectorStack.Reverse(Retirement.Filter(rs, Hazardous(Protected(g.slots))))
    ensures forall e :: e in rs ==> (e in kept <==> e.ptr in Protected(g.slots))
    ensures forall e :: e in kept ==> e.ptr in Protected(g.slots)
    ensures multiset(kept) + multiset(Retirement.Filter(rs, Reclaimable(Protected(g.slots)))) == multiset(rs)
  {
    var prot := Protected(g.slots);
    var keep, drop := Hazardous(prot), Reclaimable(prot);
    var k := Retirement.Filter(rs, keep);
    Retirement.FilterPartition(rs, keep, drop);
    Retirement.FilterSound(rs, keep);
    Retirement.FilterComplete(rs, keep);
    Retirement.ReverseMultiset(k);
  }

  /** What a scan reclaims: a retired entry's deleter is called exactly
      when no slot protects its pointer, and no call is on a protected
      pointer. */
  lemma ScanCalls(g: Globals, rs: seq<Retired>, calls: seq<Call>)
    requires calls == CallsOf(Retirement.Filter(rs, Reclaimable(Protected(g.slots))))
    ensures forall e :: e in rs ==> (Call(e.deleter, e.ptr) in calls <==> e.ptr !in Protected(g.slots))
    ensures forall c :: c in calls ==> c.ptr !in Protected(g.slots)
  {
    var prot := Protected(g.slots);
    var drop := Reclaimable(prot);
    var d := Retirement.Filter(rs, drop);
    Retirement.FilterSound(rs, drop);
    Retirement.FilterComplete(rs, drop);
    forall c | c in calls ensures c.ptr !in prot {
      var n :| 0 <= n < |calls| && calls[n] == c;
      assert d[n] in d;
    }
    forall e | e in rs && e.ptr !in prot ensures Call(e.deleter, e.ptr) in calls {
      assert drop(e);
      var n :| 0 <= n < |d| && d[n] == e;
      assert calls[n] == Call(e.deleter, e.ptr);
    }
  }
}
