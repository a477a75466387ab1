/** src/mpmc_queue.cpp, `HazardPointerManager`: an earlier hazard-pointer
    manager whose table `g_hazard_slots[i][j]` pairs an owner id with a
    pointer in every slot (only slot 0's id is used to claim a row), whose
    retired records are allocated with `new`, and whose `scan` gathers the
    protected pointers into a set. The file uses names it does not declare
    (`kSlotsPerThread`, `g_hazard_slots`, the class itself); here the table
    has `kMaxThreads` rows of one common width of at least one slot, and
    the thread-local variables are passed as `Local`. */
module HazardPointerManager {
  import opened Wrappers
  import VectorStack
  import Retirement
  import HazardManager

  type Addr = HazardManager.Addr

  /** One hazard slot: an owner id and a pointer. */
  datatype Slot = Slot(id: Option<HazardManager.ThreadId>, pointer: Option<Addr>)

  type Table = seq<seq<Slot>>

  /** A `RetiredNode`: the pointer and its deleter. */
  datatype Entry = Entry(ptr: Addr, deleter: HazardManager.Deleter)

  /** `g_thread_index` (`None` for -1), `retired_list` (front first) and
      `retired_count`. */
  datatype Local = Local(index: Option<nat>, retired: seq<Entry>, count: nat)

  datatype ManagerError =
    | NoAvailableSlot  // the `runtime_error` of `acquire_thread_index`
    | OutOfBounds      // an index outside the table: undefined behaviour

  /** `kMaxThreads` rows, all of the same width, at least one slot. */
  ghost predicate WellFormed(t: Table) {
    && |t| == HazardManager.MaxThreads
    && |t[0]| >= 1
    && forall i :: 0 <= i < |t| ==> |t[i]| == |t[0]|
  }

  /** `u` has the rows and widths of `t`. */
  ghost predicate SameShape(t: Table, u: Table) {
    |u| == |t| && forall i :: 0 <= i < |t| ==> |u[i]| == |t[i]|
  }

  /** The owner ids of slot 0 of every row. */
  function Owners(t: Table): (r: seq<Option<HazardManager.ThreadId>>)
    requires WellFormed(t)
    ensures |r| == |t|
    ensures forall i :: 0 <= i < |t| ==> r[i] == t[i][0].id
  {
    seq(|t|, i requires 0 <= i < |t| => t[i][0].id)
  }

  /** The pointers some slot holds. */
  ghost function Protected(t: Table): set<Addr> {
    set i, j | 0 <= i < |t| && 0 <= j < |t[i]| && t[i][j].pointer.Some? :: t[i][j].pointer.value
  }

  /** `acquire_thread_index()`: the cached index when there is one;
      otherwise the lowest row whose slot 0 has no owner is claimed for
      `me` and cached. Unlike `register_thread`, the row's pointers are
      not cleared. With every row taken it throws. */
  function AcquireThreadIndex(t: Table, l: Local, me: HazardManager.ThreadId): (r: Result<(Table, Local, nat), ManagerError>)
    requires WellFormed(t)
    ensures l.index.Some? ==> r == Success((t, l, l.index.value))
    ensures l.index.None? && (forall k :: 0 <= k < |t| ==> t[k][0].id.Some?) ==> r == Failure(NoAvailableSlot)
    ensures l.index.None? && r.Success? ==>
              var (t', l', i) := r.value;
              && i < |t|
              && t[i][0].id.None?
              && (forall k :: 0 <= k < i ==> t[k][0].id.Some?)
              && t' == t[i := t[i][0 := Slot(Some(me), t[i][0].pointer)]]
              && l' == l.(index := Some(i))
              && WellFormed(t')
  {
    if l.index.Some? then Success((t, l, l.index.value))
    else match HazardManager.FirstFree(Owners(t), 0)
      case None => Failure(NoAvailableSlot)
      case Some(i) => Success((t[i := t[i][0 := Slot(Some(me), t[i][0].pointer)]], l.(index := Some(i)), i))
  }

  /** Stores `p` into the pointer of slot `slot` of row `index`; nothing
      is checked, so an index outside the table is undefined behaviour. */
  function SetPointer(t: Table, index: int, slot: int, p: Option<Addr>): (r: Result<Table, ManagerError>)
    requires WellFormed(t)
    ensures !(0 <= index < |t| && 0 <= slot < |t[0]|) <==> r == Failure(OutOfBounds)
    ensures r.Success? ==>
              && WellFormed(r.value) && SameShape(t, r.value)
              && r.value[index][slot].pointer == p
              && (forall i, j :: 0 <= i < |t| && 0 <= j < |t[i]| ==> r.value[i][j].id == t[i][j].id)
              && forall i, j :: 0 <= i < |t| && 0 <= j < |t[i]| && (i, j) != (index, slot) ==> r.value[i][j] == t[i][j]
  {
    if !(0 <= index < |t| && 0 <= slot < |t[0]|) then Failure(OutOfBounds)
    else Success(t[index := t[index][slot := t[index][slot].(pointer := p)]])
  }

  /** `protect(thread_index, slot, ptr)`: that slot alone now protects
      `ptr`. */
  function Protect(t: Table, index: int, slot: int, p: Addr): (r: Result<Table, ManagerError>)
    requires WellFormed(t)
    ensures !(0 <= index < |t| && 0 <= slot < |t[0]|) <==> r.Failure?
    ensures r.Success? ==> WellFormed(r.value) && SameShape(t, r.value) && p in Protected(r.value)
    ensures r.Success? ==> forall i, j :: 0 <= i < |t| && 0 <= j < |t[i]| && (i, j) != (index, slot) ==> r.value[i][j] == t[i][j]
  {
    var r := SetPointer(t, index, slot, Some(p));
    if r.Success? then
      assert r.value[index][slot].pointer == Some(p);
      r
    else r
  }

  /** `release(thread_index, slot)`: that slot alone is cleared. */
  function Release(t: Table, index: int, slot: int): (r: Result<Table, ManagerError>)
    requires WellFormed(t)
    ensures !(0 <= index < |t| && 0 <= slot < |t[0]|) <==> r.Failure?
    ensures r.Success? ==> WellFormed(r.value) && SameShape(t, r.value) && r.value[index][slot].pointer.None?
    ensures r.Success? ==> forall i, j :: 0 <= i < |t| && 0 <= j < |t[i]| && (i, j) != (index, slot) ==> r.value[i][j] == t[i][j]
  {
    SetPointer(t, index, slot, None)
  }

  /** A scan's test on a retired entry: some slot protects its pointer. */
  function Hazardous(p: set<Addr>): Entry -> bool {
    (e: Entry) => e.ptr in p
  }

  /** The complementary test: no slot protects it. */
  function Reclaimable(p: set<Addr>): Entry -> bool {
    (e: Entry) => e.ptr !in p
  }

  /** The deleter calls for `es`, in order. */
  function CallsOf(es: seq<Entry>): (r: seq<HazardManager.Call>)
    ensures |r| == |es|
    ensures forall k :: 0 <= k < |es| ==> r[k] == HazardManager.Call(es[k].deleter, es[k].ptr)
  {
    seq(|es|, k requires 0 <= k < |es| => HazardManager.Call(es[k].deleter, es[k].ptr))
  }

  /** Step 1 of `scan`: the set of non-null pointers in the table. */
  method CollectProtected(t: Table) returns (prot: set<Addr>)
    requires WellFormed(t)
    ensures prot == Protected(t)
  {
    prot := {};
    var i := 0;
    while i < HazardManager.MaxThreads
      invariant 0 <= i <= HazardManager.MaxThreads
      invariant forall a :: a in prot <==>
                  exists i', j :: 0 <= i' < i && 0 <= j < |t[i']| && t[i'][j].pointer == Some(a)
    {
      var j := 0;
      while j < |t[0]|
        invariant 0 <= j <= |t[0]|
        invariant forall a :: a in prot <==>
                    || (exists i', j' :: 0 <= i' < i && 0 <= j' < |t[i']| && t[i'][j'].pointer == Some(a))
                    || (exists j' :: 0 <= j' < j && t[i][j'].pointer == Some(a))
      {
        var p := t[i][j].pointer;
        if p.Some? {
          prot := prot + {p.value};
        }
        j := j + 1;
      }
      i := i + 1;
    }
    forall a ensures a in prot <==> a in Protected(t) {
      if a in Protected(t) {
        var i', j' :| 0 <= i' < |t| && 0 <= j' < |t[i']| && t[i'][j'].pointer == Some(a);
      }
    }
  }

  /** `scan()`: the retired list is detached and walked front to back; an
      entry whose pointer is not in the protected set has its deleter
      called and its record deleted, any other is pushed onto the new
      list, and the count becomes the number kept. */
  method Scan(t: Table, l: Local) returns (r: Local, calls: seq<HazardManager.Call>)
    requires WellFormed(t)
    ensures r.index == l.index
    ensures r.retired == VectorStack.Reverse(Retirement.Filter(l.retired, Hazardous(Protected(t))))
    ensures calls == CallsOf(Retirement.Filter(l.retired, Reclaimable(Protected(t))))
    ensures r.count == |r.retired|
  {
    var prot := CollectProtected(t);
    var kept: seq<Entry> := [];
    calls := [];
    var i := 0;
    while i < |l.retired|
      invariant 0 <= i <= |l.retired|
      invariant kept == VectorStack.Reverse(Retirement.Filter(l.retired[..i], Hazardous(prot)))
      invariant calls == CallsOf(Retirement.Filter(l.retired[..i], Reclaimable(prot)))
    {
      var e := l.retired[i];
      assert l.retired[..i + 1] == l.retired[..i] + [e];
      Retirement.FilterSnoc(l.retired[..i], e, Hazardous(prot));
      Retirement.FilterSnoc(l.retired[..i], e, Reclaimable(prot));
      ghost var held := Retirement.Filter(l.retired[..i], Hazardous(prot));
      ghost var dropped := Retirement.Filter(l.retired[..i], Reclaimable(prot));
      if e.ptr !in prot {
        assert Reclaimable(prot)(e) && !Hazardous(prot)(e);
        calls := calls + [HazardManager.Call(e.deleter, e.ptr)];
        assert CallsOf(dropped + [e]) == CallsOf(dropped) + [HazardManager.Call(e.deleter, e.ptr)];
        assert held + [] == held;
        assert Retirement.Filter(l.retired[..i + 1], Hazardous(prot)) == held;
      } else {
        assert Hazardous(prot)(e) && !Reclaimable(prot)(e);
        Retirement.ReverseSnoc(held, e);
        kept := [e] + kept;
        assert dropped + [] == dropped;
        assert Retirement.Filter(l.retired[..i + 1], Reclaimable(prot)) == dropped;
      }
      i := i + 1;
    }
    assert l.retired[..i] == l.retired;
    Retirement.ReverseMultiset(Retirement.Filter(l.retired, Hazardous(prot)));
    r := Local(l.index, kept, |kept|);
  }

  /** `retire(ptr, deleter)`: a new record is put at the front of the
      retired list, the count goes up, and a scan runs once the count
      reaches `kScanThreshold`. */
  method Retire(t: Table, l: Local, p: Addr, d: HazardManager.Deleter) returns (r: Local, calls: seq<HazardManager.Call>)
    requires WellFormed(t)
    ensures var e := Entry(p, d);
            && (l.count + 1 < HazardManager.ScanThreshold ==>
                  r == Local(l.index, [e] + l.retired, l.count + 1) && calls == [])
            && (l.count + 1 >= HazardManager.ScanThreshold ==>
                  && r.retired == VectorStack.Reverse(Retirement.Filter([e] + l.retired, Hazardous(Protected(t))))
                  && calls == CallsOf(Retirement.Filter([e] + l.retired, Reclaimable(Protected(t))))
                  && r.count == |r.retired|)
    ensures r.index == l.index
    ensures r.count >= HazardManager.ScanThreshold ==> forall e :: e in r.retired ==> e.ptr in Protected(t)
  {
    r := Local(l.index, [Entry(p, d)] + l.retired, l.count + 1);
    calls := [];
    if r.count >= HazardManager.ScanThreshold {
      var before := r;
      r, calls := Scan(t, before);
      ScanKeeps(t, before.retired, r.retired);
    }
  }

  /** What a scan keeps: a retired entry stays exactly when its pointer
      is protected, and each entry is either kept or reclaimed, as often
      as it occurs. */
  lemma ScanKeeps(t: Table, rs: seq<Entry>, kept: seq<Entry>)
    requires kept == VectorStack.Reverse(Retirement.Filter(rs, Hazardous(Protected(t))))
    ensures forall e :: e in rs ==> (e in kept <==> e.ptr in Protected(t))
    ensures forall e :: e in kept ==> e.ptr in Protected(t)
    ensures multiset(kept) + multiset(Retirement.Filter(rs, Reclaimable(Protected(t)))) == multiset(rs)
  {
    var prot := Protected(t);
    var keep, drop := Hazardous(prot), Reclaimable(prot);
    var k := Retirement.Filter(rs, keep);
    Retirement.FilterPartition(rs, keep, drop);
    Retirement.FilterSound(rs, keep);
    Retirement.FilterComplete(rs, keep);
    Retirement.ReverseMultiset(k);
  }

  /** What a scan deletes: exactly the retired entries whose pointer no
      slot holds, never a protected one. */
  lemma ScanCalls(t: Table, rs: seq<Entry>, calls: seq<HazardManager.Call>)
    requires calls == CallsOf(Retirement.Filter(rs, Reclaimable(Protected(t))))
    ensures forall e :: e in rs ==> (HazardManager.Call(e.deleter, e.ptr) in calls <==> e.ptr !in Protected(t))
    ensures forall c :: c in calls ==> c.ptr !in Protected(t)
  {
    var prot := Protected(t);
    var drop := Reclaimable(prot);
    var d := Retirement.Filter(rs, drop);
    Retirement.FilterSound(rs, drop);
    Retirement.FilterComplete(rs, drop);
    forall c | c in calls ensures c.ptr !in prot {
      var n :| 0 <= n < |calls| && calls[n] == c;
      assert d[n] in d;
    }
    forall e | e in rs && e.ptr !in prot ensures HazardManager.Call(e.deleter, e.ptr) in calls {
      assert drop(e);
      var n :| 0 <= n < |d| && d[n] == e;
      assert calls[n] == HazardManager.Call(e.deleter, e.ptr);
    }
  }
}
