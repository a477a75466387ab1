/** Index arithmetic shared by the ring buffers: positions are taken modulo
    the capacity, and the lock-free queue's free-running `size_t` counters
    wrap modulo 2^64. */
module Ring {
  const Word: nat := 0x1_0000_0000_0000_0000

  function Pow2(k: nat): (r: nat)
    ensures r > 0
  {
    if k == 0 then 1 else 2 * Pow2(k - 1)
  }

  /** A power of two no larger than 2^63 (the largest one a `size_t`
      holds) divides 2^64, so wrapping a counter at 2^64 does not move its
      position in the ring. */
  lemma {:induction false} Pow2DividesWord(k: nat)
    requires k < 64
    ensures Word % Pow2(k) == 0
  {
    Pow2Split(k, 64 - k);
    assert Pow2(64) == Word by {
      Pow2Value();
    }
    MulMod(Pow2(64 - k), Pow2(k));
    assert Word == Pow2(64 - k) * Pow2(k);
  }

  lemma {:induction false} Pow2Split(a: nat, b: nat)
    ensures Pow2(a + b) == Pow2(b) * Pow2(a)
    decreases a
  {
    if a > 0 {
      Pow2Split(a - 1, b);
    }
  }

  lemma {:induction false} Pow2Value()
    ensures Pow2(64) == Word
  {
    assert Pow2(1) == 2;
    Pow2Square(1, 2);
    Pow2Square(2, 4);
    Pow2Square(4, 16);
    Pow2Square(8, 0x100);
    Pow2Square(16, 0x1_0000);
    Pow2Square(32, 0x1_0000_0000);
  }

  lemma {:induction false} Pow2Square(k: nat, v: nat)
    requires Pow2(k) == v
    ensures Pow2(k + k) == v * v
  {
    Pow2Split(k, k);
  }

  lemma {:induction false} MulAtLeast(d: int, c: nat)
    ensures d >= 1 ==> d * c >= c
  {
    if d >= 1 {
      assert d * c == (d - 1) * c + c;
      assert (d - 1) * c >= 0;
    }
  }

  /** The quotient and remainder of Euclidean division are unique. */
  lemma {:induction false} DivModUnique(x: int, q: int, r: int, c: nat)
    requires c > 0 && 0 <= r < c && x == q * c + r
    ensures x % c == r
  {
    var q' := x / c;
    assert (q - q') * c == x % c - r;
    assert (q' - q) * c == r - x % c;
    MulAtLeast(q - q', c);
    MulAtLeast(q' - q, c);
  }

  lemma {:induction false} MulMod(m: int, c: nat)
    requires c > 0
    ensures (m * c) % c == 0
  {
    DivModUnique(m * c, m, 0, c);
  }

  /** Adding a multiple of `c` does not change a residue modulo `c`. */
  lemma {:induction false} ModShift(a: int, m: int, c: nat)
    requires c > 0
    ensures (a + m * c) % c == a % c
  {
    var q := a / c;
    assert a == q * c + a % c;
    assert a + m * c == (q + m) * c + a % c;
    DivModUnique(a + m * c, q + m, a % c, c);
  }

  /** Reducing modulo a multiple of `c` first does not change the residue
      modulo `c`. */
  lemma {:induction false} ModMod(x: int, c: nat, w: nat)
    requires c > 0 && w > 0 && w % c == 0
    ensures (x % w) % c == x % c
  {
    var q := x / w;
    var m := w / c;
    assert w == m * c;
    assert x == x % w + q * w;
    assert q * w == (q * m) * c;
    ModShift(x % w, q * m, c);
  }

  /** Distinct offsets below `c` from the same start land on distinct
      positions. */
  lemma {:induction false} DistinctSlots(h: int, i: int, j: int, c: nat)
    requires c > 0 && 0 <= i < j < c
    ensures (h + i) % c != (h + j) % c
  {
    var r := (h + i) % c;
    var a := (h + i) / c;
    assert h + i == a * c + r;
    if r + (j - i) < c {
      DivModUnique(h + j, a, r + (j - i), c);
    } else {
      assert h + j == (a + 1) * c + (r + (j - i) - c);
      DivModUnique(h + j, a + 1, r + (j - i) - c, c);
    }
  }

  /** Reducing before adding an offset does not change the residue. */
  lemma {:induction false} ModAdd(x: int, i: int, c: nat)
    requires c > 0
    ensures ((x % c) + i) % c == (x + i) % c
  {
    assert x == x % c + (x / c) * c;
    ModShift(x % c + i, x / c, c);
  }

  /** A counter wrapped at 2^64 names the same slot, `i` places on, as the
      unwrapped counter. */
  lemma {:induction false} WrappedSlot(x: int, i: int, c: nat)
    requires c > 0 && Word % c == 0
    ensures ((x % Word) + i) % c == (x + i) % c
  {
    ModMod(x, c, Word);
    ModAdd(x % Word, i, c);
    ModAdd(x, i, c);
  }

  /** A capacity that divides 2^64 is at most 2^64. */
  lemma {:induction false} DivisorBound(c: nat)
    requires c > 0 && Word % c == 0
    ensures c <= Word
  {
    if c > Word {
      DivModUnique(Word, 0, Word, c);
    }
  }
}

/** include/lock-free_spsc_queue.h: a ring of `Capacity` slots with two
    free-running `size_t` counters. The producer writes at `tail` and
    publishes `tail + 1`; the consumer reads at `head` and publishes
    `head + 1`. Positions are the counters masked with `Capacity - 1`,
    which for a power of two is the counter modulo `Capacity`. One slot
    always stays unused: the ring refuses an item when `tail + 1` would
    reach the position of `head`, so it holds at most `Capacity - 1` items.
    The capacity is `Pow2(k)`, the power of two the `static_assert`
    demands. */
module LockFreeSpscQueue {
  import opened Wrappers
  import opened Ring

  datatype Queue<T> = Queue(buffer: seq<T>, head: nat, tail: nat)

  ghost predicate Valid<T>(q: Queue<T>, k: nat) {
    k < 64 && |q.buffer| == Pow2(k) && q.head < Word && q.tail < Word
  }

  /** `q` holds `vals`: as many as the counters are apart, fewer than the
      capacity, stored from the head's position on. */
  ghost predicate Rep<T>(q: Queue<T>, k: nat, vals: seq<T>) {
    && Valid(q, k)
    && (q.tail - q.head) % Word == |vals| < Pow2(k)
    && forall i :: 0 <= i < |vals| ==> q.buffer[(q.head + i) % Pow2(k)] == vals[i]
  }

  /** `LockFreeSPSCQueue()`: both counters 0; the slots hold whatever the
      array was built with, `zero` here. */
  function New<T>(k: nat, zero: T): (q: Queue<T>)
    requires k < 64
    ensures Rep(q, k, [])
  {
    Queue(seq(Pow2(k), _ => zero), 0, 0)
  }

  /** `enqueue(item)`: refuse when the slot after `tail` is `head`'s;
      otherwise write the item at `tail`'s slot and advance `tail`, which
      wraps at 2^64. */
  function Enqueue<T>(q: Queue<T>, k: nat, v: T): (r: (Queue<T>, bool))
    requires Valid(q, k)
    ensures Valid(r.0, k)
    ensures !r.1 ==> r.0 == q
    ensures r.1 ==> r.0.head == q.head && r.0.buffer[q.tail % Pow2(k)] == v
  {
    var c := Pow2(k);
    if q.head % c == ((q.tail + 1) % Word) % c then (q, false)
    else (q.(buffer := q.buffer[q.tail % c := v], tail := (q.tail + 1) % Word), true)
  }

  /** `dequeue()`: nothing when `head` and `tail` share a slot; otherwise
      the item at `head`'s slot, and `head` advances. */
  function Dequeue<T>(q: Queue<T>, k: nat): (r: (Queue<T>, Option<T>))
    requires Valid(q, k)
    ensures Valid(r.0, k)
    ensures r.1.None? ==> r.0 == q
    ensures r.1.Some? ==> r.0.tail == q.tail && r.0.buffer == q.buffer && r.1.value == q.buffer[q.head % Pow2(k)]
  {
    var c := Pow2(k);
    if q.head % c == q.tail % c then (q, None)
    else (q.(head := (q.head + 1) % Word), Some(q.buffer[q.head % c]))
  }

  /** The tail's slot is the slot just after the last held item. */
  lemma {:induction false} TailSlot<T>(q: Queue<T>, k: nat, vals: seq<T>)
    requires Rep(q, k, vals)
    ensures q.tail % Pow2(k) == (q.head + |vals|) % Pow2(k)
    ensures Word % Pow2(k) == 0
  {
    var c := Pow2(k);
    Pow2DividesWord(k);
    var m := (q.tail - q.head) / Word;
    assert q.tail - q.head == |vals| + m * Word;
    var w := Word / c;
    assert Word == w * c;
    assert m * Word == (m * w) * c;
    ModShift(q.head + |vals|, m * w, c);
  }

  /** A full ring (capacity - 1 items) refuses the item and is unchanged;
      otherwise the item joins the back. */
  lemma {:induction false} EnqueueRefines<T>(q: Queue<T>, k: nat, vals: seq<T>, v: T)
    requires Rep(q, k, vals)
    ensures Valid(q, k)
    ensures |vals| == Pow2(k) - 1 ==> Enqueue(q, k, v) == (q, false)
    ensures |vals| < Pow2(k) - 1 ==> Enqueue(q, k, v).1 && Rep(Enqueue(q, k, v).0, k, vals + [v])
  {
    var c := Pow2(k);
    var n := |vals|;
    TailSlot(q, k, vals);
    ModMod(q.tail + 1, c, Word);
    ModAdd(q.tail, 1, c);
    assert ((q.tail + 1) % Word) % c == (q.head + n + 1) % c by {
      ModAdd(q.head + n, 1, c);
    }
    if n == c - 1 {
      ModShift(q.head, 1, c);
    } else {
      DistinctSlots(q.head, 0, n + 1, c);
      var r := Enqueue(q, k, v).0;
      DivisorBound(c);
      assert r.tail == (q.tail + 1) % Word;
      assert (r.tail - q.head) % Word == n + 1 by {
        var m := (q.tail - q.head) / Word;
        var t := (q.tail + 1) / Word;
        assert q.tail - q.head == n + m * Word;
        assert r.tail - q.head == (n + 1) + (m - t) * Word;
        DivModUnique(r.tail - q.head, m - t, n + 1, Word);
      }
      forall i | 0 <= i < n + 1
        ensures r.buffer[(q.head + i) % c] == (vals + [v])[i]
      {
        if i < n {
          DistinctSlots(q.head, i, n, c);
        }
      }
    }
  }

  /** An empty ring gives nothing and is unchanged; otherwise the front
      item comes out and the rest stay. */
  lemma {:induction false} DequeueRefines<T>(q: Queue<T>, k: nat, vals: seq<T>)
    requires Rep(q, k, vals)
    ensures Valid(q, k)
    ensures |vals| == 0 ==> Dequeue(q, k) == (q, None)
    ensures |vals| > 0 ==> Dequeue(q, k).1 == Some(vals[0]) && Rep(Dequeue(q, k).0, k, vals[1..])
  {
    var c := Pow2(k);
    var n := |vals|;
    TailSlot(q, k, vals);
    if n > 0 {
      DistinctSlots(q.head, 0, n, c);
      assert q.buffer[(q.head + 0) % c] == vals[0];
      RepAdvance(q, k, vals);
    }
  }

  /** Advancing the head past the front item leaves a ring holding the
      rest. */
  lemma {:induction false} RepAdvance<T>(q: Queue<T>, k: nat, vals: seq<T>)
    requires Rep(q, k, vals) && |vals| > 0
    ensures Rep(q.(head := (q.head + 1) % Word), k, vals[1..])
  {
    var c := Pow2(k);
    var r := q.(head := (q.head + 1) % Word);
    Pow2DividesWord(k);
    DistanceAfterAdvance(q.head, q.tail, |vals|);
    forall i | 0 <= i < |vals| - 1
      ensures r.buffer[(r.head + i) % c] == vals[1..][i]
    {
      WrappedSlot(q.head + 1, i, c);
      assert (r.head + i) % c == (q.head + (i + 1)) % c;
    }
  }

  /** Moving the head on by one, with wrap-around, shortens the distance
      to the tail by one. */
  lemma {:induction false} DistanceAfterAdvance(head: nat, tail: nat, n: nat)
    requires (tail - head) % Word == n > 0
    ensures (tail - (head + 1) % Word) % Word == n - 1
  {
    var h := (head + 1) / Word;
    assert (head + 1) % Word == head + 1 - h * Word;
    var m := (tail - head) / Word;
    assert tail - head == n + m * Word;
    assert tail - (head + 1) % Word == (n - 1) + (m + h) * Word;
    DivModUnique(tail - (head + 1) % Word, m + h, n - 1, Word);
  }

  /** Fill a ring of capacity 4 (k = 2): three items go in, the fourth is
      refused, and the first comes back out first. */
  lemma FullAtCapacityMinusOne()
    ensures var q0 := New(2, 0);
            var (q1, a) := Enqueue(q0, 2, 10);
            var (q2, b) := Enqueue(q1, 2, 20);
            var (q3, c) := Enqueue(q2, 2, 30);
            var (q4, d) := Enqueue(q3, 2, 40);
            var (_, x) := Dequeue(q4, 2);
            a && b && c && !d && x == Some(10)
  {
    assert Pow2(2) == 4;
    var q0 := New(2, 0);
    EnqueueRefines(q0, 2, [], 10);
    var q1 := Enqueue(q0, 2, 10).0;
    assert Rep(q1, 2, [10]);
    EnqueueRefines(q1, 2, [10], 20);
    var q2 := Enqueue(q1, 2, 20).0;
    assert Rep(q2, 2, [10, 20]) by {
      assert [10] + [20] == [10, 20];
    }
    EnqueueRefines(q2, 2, [10, 20], 30);
    var q3 := Enqueue(q2, 2, 30).0;
    assert Rep(q3, 2, [10, 20, 30]) by {
      assert [10, 20] + [30] == [10, 20, 30];
    }
    EnqueueRefines(q3, 2, [10, 20, 30], 40);
    assert Enqueue(q3, 2, 40).0 == q3;
    DequeueRefines(q3, 2, [10, 20, 30]);
  }
}

/** include/lock_spsc_queue.hpp and include/lock_mpsc_queue.h: a
    mutex-guarded ring of `Capacity` slots with a head index, a tail index
    and an item count, all three kept below the capacity by `% Capacity`.
    The two files differ only in how they reject a zero capacity. */
module CountedRing {
  import opened Wrappers
  import opened Ring

  datatype Queue<T> = Queue(buffer: seq<T>, head: nat, tail: nat, count: nat)

  /** The ring's capacity is the length of its slot array. */
  function Capacity<T>(q: Queue<T>): nat {
    |q.buffer|
  }

  ghost predicate Valid<T>(q: Queue<T>) {
    |q.buffer| > 0 && q.head < |q.buffer| && q.tail < |q.buffer|
  }

  /** `q` holds `vals`: `count` of them, from the head's slot on, with the
      tail's slot just after the last. */
  ghost predicate Rep<T>(q: Queue<T>, vals: seq<T>) {
    && Valid(q)
    && q.count == |vals| <= |q.buffer|
    && q.tail == (q.head + q.count) % |q.buffer|
    && forall i :: 0 <= i < |vals| ==> q.buffer[(q.head + i) % |q.buffer|] == vals[i]
  }

  /** `head_(0), tail_(0), count_(0)` over `c` slots holding `zero`. */
  function Empty<T>(c: nat, zero: T): (q: Queue<T>)
    requires c > 0
    ensures Capacity(q) == c
    ensures Rep(q, [])
  {
    Queue(seq(c, _ => zero), 0, 0, 0)
  }

  /** `enqueue(value)`: refuse when `count_ == Capacity`; otherwise write
      at `tail_`, advance it modulo the capacity and count the item. */
  function Enqueue<T>(q: Queue<T>, v: T): (r: (Queue<T>, bool))
    requires Valid(q)
    ensures Valid(r.0) && Capacity(r.0) == Capacity(q)
    ensures r.1 <==> q.count != Capacity(q)
    ensures !r.1 ==> r.0 == q
    ensures r.1 ==> r.0.count == q.count + 1 && r.0.buffer[q.tail] == v
  {
    var c := |q.buffer|;
    if q.count == c then (q, false)
    else (q.(buffer := q.buffer[q.tail := v], tail := (q.tail + 1) % c, count := q.count + 1), true)
  }

  /** `dequeue()`: nothing when `count_ == 0`; otherwise the value at
      `head_`, which advances modulo the capacity, and one item fewer. */
  function Dequeue<T>(q: Queue<T>): (r: (Queue<T>, Option<T>))
    requires Valid(q)
    ensures Valid(r.0) && Capacity(r.0) == Capacity(q)
    ensures r.1.None? <==> q.count == 0
    ensures r.1.None? ==> r.0 == q
    ensures r.1.Some? ==> r.0.count == q.count - 1 && r.1.value == q.buffer[q.head]
  {
    var c := |q.buffer|;
    if q.count == 0 then (q, None)
    else (q.(head := (q.head + 1) % c, count := q.count - 1), Some(q.buffer[q.head]))
  }

  /** `length()`: the number of held items. */
  function Length<T>(q: Queue<T>): nat {
    q.count
  }

  /** The length is the number of items held, at most the capacity. */
  lemma LengthIsSize<T>(q: Queue<T>, vals: seq<T>)
    requires Rep(q, vals)
    ensures Length(q) == |vals| <= Capacity(q)
  {
  }

  /** A full ring (`Capacity` items) refuses the item and is unchanged;
      otherwise the item joins the back. */
  lemma {:induction false} EnqueueRefines<T>(q: Queue<T>, vals: seq<T>, v: T)
    requires Rep(q, vals)
    ensures Valid(q)
    ensures |vals| == Capacity(q) ==> Enqueue(q, v) == (q, false)
    ensures |vals| < Capacity(q) ==> Enqueue(q, v).1 && Rep(Enqueue(q, v).0, vals + [v])
  {
    var c := |q.buffer|;
    var n := |vals|;
    if n < c {
      var r := Enqueue(q, v).0;
      ModAdd(q.head + n, 1, c);
      forall i | 0 <= i < n + 1
        ensures r.buffer[(q.head + i) % c] == (vals + [v])[i]
      {
        if i < n {
          DistinctSlots(q.head, i, n, c);
        }
      }
    }
  }

  /** An empty ring gives nothing and is unchanged; otherwise the front
      item comes out and the rest stay. */
  lemma {:induction false} DequeueRefines<T>(q: Queue<T>, vals: seq<T>)
    requires Rep(q, vals)
    ensures Valid(q)
    ensures |vals| == 0 ==> Dequeue(q) == (q, None)
    ensures |vals| > 0 ==> Dequeue(q).1 == Some(vals[0]) && Rep(Dequeue(q).0, vals[1..])
  {
    var c := |q.buffer|;
    var n := |vals|;
    if n > 0 {
      assert (q.head + 0) % c == q.head;
      assert q.buffer[q.head] == vals[0];
      RepAdvance(q, vals);
    }
  }

  /** Advancing the head past the front item, with one item fewer, leaves
      a ring holding the rest. */
  lemma {:induction false} RepAdvance<T>(q: Queue<T>, vals: seq<T>)
    requires Rep(q, vals) && |vals| > 0
    ensures Rep(q.(head := (q.head + 1) % |q.buffer|, count := q.count - 1), vals[1..])
  {
    var c := |q.buffer|;
    var r := q.(head := (q.head + 1) % c, count := q.count - 1);
    ModAdd(q.head + 1, |vals| - 1, c);
    forall i | 0 <= i < |vals| - 1
      ensures r.buffer[(r.head + i) % c] == vals[1..][i]
    {
      ModAdd(q.head + 1, i, c);
      assert (r.head + i) % c == (q.head + (i + 1)) % c;
    }
  }
}

/** include/lock_spsc_queue.hpp: the constructor throws
    `std::invalid_argument` for a zero capacity. */
module LockSpscQueue {
  import opened Wrappers
  import CountedRing

  datatype Error = InvalidArgument

  /** `SPSCQueue()`: fails for a zero capacity, and otherwise yields an
      empty ring of `c` slots. */
  function New<T>(c: nat, zero: T): (r: Result<CountedRing.Queue<T>, Error>)
    ensures r.Failure? <==> c == 0
    ensures r.Success? ==> CountedRing.Capacity(r.value) == c && CountedRing.Rep(r.value, [])
  {
    if c == 0 then Failure(InvalidArgument) else Success(CountedRing.Empty(c, zero))
  }
}

/** include/lock_mpsc_queue.h: a zero capacity is rejected at compile time
    (`static_assert(Capacity > 0)`), so the run-time check after it never
    fires; the capacity is a precondition here. */
module LockMpscQueue {
  import CountedRing

  /** `LockMPSCQueue()`: an empty ring of `c` slots. */
  function New<T>(c: nat, zero: T): (q: CountedRing.Queue<T>)
    requires c > 0
    ensures CountedRing.Capacity(q) == c && CountedRing.Length(q) == 0
    ensures CountedRing.Rep(q, [])
  {
    CountedRing.Empty(c, zero)
  }
}
