/** include/lock_stack.hpp: a mutex-guarded stack over a `std::vector`,
    whose back is the top. */
module VectorStack {
  import opened Wrappers

  datatype Stack<T> = Stack(data: seq<T>)

  /** `MPMCStack() = default`: an empty vector. */
  function New<T>(): (s: Stack<T>)
    ensures Length(s) == 0
  {
    Stack([])
  }

  /** `push(value)`: `push_back`. */
  function Push<T>(s: Stack<T>, v: T): (r: Stack<T>)
    ensures Length(r) == Length(s) + 1
    ensures Top(r) == Some(v)
  {
    Stack(s.data + [v])
  }

  /** The back element, the one `pop` would return. */
  function Top<T>(s: Stack<T>): (r: Option<T>)
    ensures r.None? <==> Length(s) == 0
  {
    if |s.data| == 0 then None else Some(s.data[|s.data| - 1])
  }

  /** `pop()`: `nullopt` on an empty vector, otherwise the back element,
      moved out and removed. */
  function Pop<T>(s: Stack<T>): (r: (Stack<T>, Option<T>))
    ensures r.1 == Top(s)
    ensures r.1.None? ==> r.0 == s
    ensures r.1.Some? ==> Length(r.0) == Length(s) - 1 && Push(r.0, r.1.value) == s
  {
    if |s.data| == 0 then (s, None)
    else (Stack(s.data[..|s.data| - 1]), Some(s.data[|s.data| - 1]))
  }

  /** `length()`: the vector's size. */
  function Length<T>(s: Stack<T>): nat {
    |s.data|
  }

  /** Popping right after a push returns the pushed value and restores the
      stack as it was. */
  lemma PopPush<T>(s: Stack<T>, v: T)
    ensures Pop(Push(s, v)) == (s, Some(v))
  {
    assert (s.data + [v])[..|s.data|] == s.data;
  }

  /** Pushing `vs` one by one and then popping `|vs|` times returns them in
      reverse order and restores the stack. */
  lemma {:induction false} PopAllPushed<T>(s: Stack<T>, vs: seq<T>)
    ensures PopN(PushAll(s, vs), |vs|) == (s, Reverse(vs))
    decreases |vs|
  {
    if |vs| > 0 {
      var init := vs[..|vs| - 1];
      var last := vs[|vs| - 1];
      assert vs == init + [last];
      PushAllSnoc(s, init, last);
      PopPush(PushAll(s, init), last);
      PopAllPushed(s, init);
    }
  }

  function PushAll<T>(s: Stack<T>, vs: seq<T>): Stack<T>
    decreases |vs|
  {
    if |vs| == 0 then s else PushAll(Push(s, vs[0]), vs[1..])
  }

  lemma {:induction false} PushAllSnoc<T>(s: Stack<T>, vs: seq<T>, v: T)
    ensures PushAll(s, vs + [v]) == Push(PushAll(s, vs), v)
    decreases |vs|
  {
    if |vs| > 0 {
      assert (vs + [v])[1..] == vs[1..] + [v];
      PushAllSnoc(Push(s, vs[0]), vs[1..], v);
    }
  }

  /** `n` pops, collecting the values that come back. */
  function PopN<T>(s: Stack<T>, n: nat): (Stack<T>, seq<T>)
    decreases n
  {
    if n == 0 then (s, [])
    else
      var (s', x) := Pop(s);
      var (s'', rest) := PopN(s', n - 1);
      (s'', (if x.Some? then [x.value] else []) + rest)
  }

  function Reverse<T>(vs: seq<T>): seq<T>
    decreases |vs|
  {
    if |vs| == 0 then [] else [vs[|vs| - 1]] + Reverse(vs[..|vs| - 1])
  }
}
