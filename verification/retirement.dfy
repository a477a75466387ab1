/** The list arithmetic behind a hazard-pointer `scan`: the retired list is
    walked front to back, each entry either kept (pushed onto a new list,
    so the kept entries end up reversed) or reclaimed (its deleter called,
    in walk order). */
module Retirement {
  import VectorStack

  /** The entries of `rs` that satisfy `keep`, in their order in `rs`. */
  function Filter<E>(rs: seq<E>, keep: E -> bool): (r: seq<E>)
    ensures |r| <= |rs|
    decreases |rs|
  {
    if |rs| == 0 then []
    else
      var last := rs[|rs| - 1];
      Filter(rs[..|rs| - 1], keep) + (if keep(last) then [last] else [])
  }

  /** Walking one more entry extends the filtered list by that entry
      exactly when it is kept. */
  lemma FilterSnoc<E>(rs: seq<E>, x: E, keep: E -> bool)
    ensures Filter(rs + [x], keep) == Filter(rs, keep) + (if keep(x) then [x] else [])
  {
    assert (rs + [x])[..|rs|] == rs;
  }

  /** Every entry of the filtered list passes the test and comes from
      `rs`. */
  lemma {:induction false} FilterSound<E>(rs: seq<E>, keep: E -> bool)
    ensures forall e :: e in Filter(rs, keep) ==> e in rs && keep(e)
  {
    if |rs| > 0 {
      var init, last := rs[..|rs| - 1], rs[|rs| - 1];
      FilterSound(init, keep);
      assert rs == init + [last];
      FilterSnoc(init, last, keep);
    }
  }

  /** Every entry of `rs` that passes the test is in the filtered list. */
  lemma {:induction false} FilterComplete<E>(rs: seq<E>, keep: E -> bool)
    ensures forall e :: e in rs && keep(e) ==> e in Filter(rs, keep)
  {
    if |rs| > 0 {
      var init, last := rs[..|rs| - 1], rs[|rs| - 1];
      FilterComplete(init, keep);
      assert rs == init + [last];
      FilterSnoc(init, last, keep);
    }
  }

  /** For complementary tests, the two filtered lists split `rs`: every
      entry lands in exactly one of them, as often as it occurs in `rs`. */
  lemma {:induction false} FilterPartition<E>(rs: seq<E>, keep: E -> bool, drop: E -> bool)
    requires forall e :: drop(e) <==> !keep(e)
    ensures multiset(Filter(rs, keep)) + multiset(Filter(rs, drop)) == multiset(rs)
  {
    if |rs| > 0 {
      var init, last := rs[..|rs| - 1], rs[|rs| - 1];
      FilterPartition(init, keep, drop);
      assert rs == init + [last];
      FilterSnoc(init, last, keep);
      FilterSnoc(init, last, drop);
      var a, b := Filter(init, keep), Filter(init, drop);
      if keep(last) {
        assert multiset(Filter(rs, keep)) == multiset(a) + multiset{last};
        assert Filter(rs, drop) == b;
      } else {
        assert Filter(rs, keep) == a;
        assert multiset(Filter(rs, drop)) == multiset(b) + multiset{last};
      }
    }
  }

  /** Pushing entries one by one onto a list reverses them: prepending
      `x` to the reversal of `s` reverses `s + [x]`. */
  lemma ReverseSnoc<T>(s: seq<T>, x: T)
    ensures VectorStack.Reverse(s + [x]) == [x] + VectorStack.Reverse(s)
  {
    assert (s + [x])[..|s|] == s;
  }

  /** Reversal keeps every element, as often as it occurs. */
  lemma {:induction false} ReverseMultiset<T>(s: seq<T>)
    ensures multiset(VectorStack.Reverse(s)) == multiset(s)
    ensures |VectorStack.Reverse(s)| == |s|
    ensures forall x :: x in VectorStack.Reverse(s) <==> x in s
  {
    if |s| > 0 {
      ReverseMultiset(s[..|s| - 1]);
      assert s == s[..|s| - 1] + [s[|s| - 1]];
    }
  }
}
