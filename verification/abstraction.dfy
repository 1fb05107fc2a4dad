/**
 The abstraction of a queue used by one producer and one consumer that never
 overfill it and never pop it while empty: the counter is the distance from
 the read index to the write index around the ring, and the slots from the
 read index onward hold the pending values, oldest first.
 */
module Abstraction {
  import opened Wrappers
  import opened LFQueue

  /**
   The slot `k` places after `base` around a ring of `n` slots, for `k <= n`,
   written without `%` so that reasoning about it stays linear.
   */
  function RingAdd(base: nat, k: nat, n: nat): (p: nat)
    requires base < n && k <= n
    ensures p < n
  {
    if base + k < n then base + k else base + k - n
  }

  /** `RingAdd` is the source's `(base + k) % n`. */
  lemma RingAddIsMod(base: nat, k: nat, n: nat)
    requires base < n && k <= n
    ensures RingAdd(base, k, n) == (base + k) % n
  {
  }

  /**
   The cursor invariant: a nonempty store, at most a store's worth of pending
   values, and the write index `count` slots past the read index. When the
   counter equals the store length the two indices coincide.
   */
  predicate Consistent<T>(q: Queue<T>) {
    && Valid(q)
    && |q.store| > 0
    && q.count <= |q.store|
    && q.write == RingAdd(q.read, q.count, |q.store|)
  }

  /** The pending values, oldest first: `count` slots starting at the read index, wrapping around. */
  function Pending<T>(q: Queue<T>): (vs: seq<T>)
    requires Consistent(q)
  {
    seq(q.count, i requires 0 <= i < q.count => q.store[RingAdd(q.read, i, |q.store|)])
  }

  /** A freshly constructed queue with a nonempty store is consistent and holds nothing. */
  lemma CreateIsEmpty<T>(size: nat, init: T)
    requires 0 < size < SizeTModulus
    ensures Consistent(Create(size, init))
    ensures Pending(Create(size, init)) == []
    ensures NextReadable(Create(size, init)) == None
  {
  }

  /**
   The counter agrees with the cursors: it is their distance around the ring
   (`(write - read) mod N`), and the cursors coincide exactly when the queue
   is empty or full. So "nothing to read" is reported for a full queue too.
   */
  lemma CounterIsCursorDistance<T>(q: Queue<T>)
    requires Consistent(q)
    ensures q.read < q.write ==> q.count == q.write - q.read
    ensures q.write < q.read ==> q.count == q.write - q.read + |q.store|
    ensures q.read == q.write <==> q.count == 0 || q.count == |q.store|
    ensures NextReadable(q).None? <==> q.count == 0 || q.count == |q.store|
  {
  }

  /**
   What `size()` reports on a consistent queue: the number of pending values,
   at most the store length; and the read slot is null exactly when that
   number is 0 or the whole store.
   */
  lemma SizeCountsPending<T>(q: Queue<T>)
    requires Consistent(q)
    ensures Size(q) == |Pending(q)|
    ensures Size(q) <= |q.store|
    ensures NextReadable(q).None? <==> Size(q) == 0 || Size(q) == |q.store|
  {
    CounterIsCursorDistance(q);
  }

  /** The same distance written with the source's modulo: `count mod N == (write - read) mod N`. */
  lemma CounterIsCursorDistanceMod<T>(q: Queue<T>)
    requires Consistent(q)
    ensures q.count % |q.store| == (q.write - q.read) % |q.store|
  {
    var n := |q.store|;
    CounterIsCursorDistance(q);
    if q.count == n {
      ModInRange(0, n);
    } else {
      ModInRange(q.count, n);
    }
  }

  /** The remainder by `n` of any value congruent to `r` in `[-n, 2n)` is `r` itself, for `r` in `[0, n)`. */
  lemma ModInRange(r: int, n: nat)
    requires 0 <= r < n
    ensures r % n == r
    ensures (r + n) % n == r
    ensures (r - n) % n == r
  {
  }

  /** A push below capacity keeps the invariant and appends the pushed value to the pending values. */
  lemma PushAppends<T>(q: Queue<T>, x: T)
    requires Consistent(q) && q.count < |q.store|
    ensures Consistent(SetWritable(q, x))
    ensures SetWritable(q, x).count == q.count + 1
    ensures Pending(SetWritable(q, x)) == Pending(q) + [x]
  {
  }

  /**
   A pop of a nonempty queue keeps the invariant and removes the oldest
   pending value. The returned slot holds that value, unless the queue was
   full: then the cursors coincide and the slot comes back null although the
   read index still advances past the value.
   */
  lemma PopRemovesOldest<T>(q: Queue<T>)
    requires Consistent(q) && q.count > 0
    ensures Consistent(GetReadable(q).queue)
    ensures GetReadable(q).queue.count == q.count - 1
    ensures Pending(GetReadable(q).queue) == Pending(q)[1..]
    ensures GetReadable(q).slot.Some? <==> q.count < |q.store|
    ensures GetReadable(q).slot.Some? ==> q.store[GetReadable(q).slot.value] == Pending(q)[0]
  {
  }

  /** A full queue reports nothing to read although its counter is the store length. */
  lemma FullLooksEmpty<T>(q: Queue<T>)
    requires Consistent(q) && q.count == |q.store|
    ensures NextReadable(q) == None
    ensures Size(q) == |q.store| > 0
  {
  }

  /**
   A push into a full queue writes over the slot at the read index, which
   held the oldest pending value; the counter then exceeds the store length.
   With more than one slot the next read yields the new value in that slot.
   */
  lemma OverfillOverwritesOldest<T>(q: Queue<T>, x: T)
    requires Consistent(q) && q.count == |q.store|
    ensures SetWritable(q, x).read == q.read
    ensures SetWritable(q, x).store[q.read] == x
    ensures Pending(q)[0] == q.store[q.read]
    ensures |q.store| + 1 < SizeTModulus ==> SetWritable(q, x).count == |q.store| + 1
    ensures !Consistent(SetWritable(q, x))
    ensures |q.store| > 1 ==> NextReadable(SetWritable(q, x)) == Some(q.read)
  {
  }

  /**
   A pop of an empty queue returns null, yet moves the read index past the
   write index and wraps the counter to the largest `size_t` value.
   */
  lemma PopOfEmptyWraps<T>(q: Queue<T>)
    requires Consistent(q) && q.count == 0
    ensures GetReadable(q).slot == None
    ensures GetReadable(q).queue.count == SizeTModulus - 1
    ensures |q.store| > 1 ==> GetReadable(q).queue.read != GetReadable(q).queue.write
    ensures !Consistent(GetReadable(q).queue)
  {
  }
}
