/**
 A model of the ring-buffer queue `LFQueue<T>` and its two free helpers
 `set_writable` and `get_readable`.

 The queue is a fixed-length store of slots, a write index and a read index
 that each wrap around the store length, and an element counter kept apart
 from the indices. Every call is modelled as one sequential step on an
 immutable value: the atomics and the two threads that share the queue are
 not modelled. A pointer into the store is modelled as the index of the slot
 it designates, and a null pointer as `None`.
 */
module LFQueue {
  import opened Wrappers

  /** Number of values of `size_t` (64 bits): the counter wraps around modulo this. */
  const SizeTModulus: nat := 0x1_0000_0000_0000_0000

  /** Increment of a `size_t`: wraps to 0 past the largest value. */
  function CounterInc(c: nat): (r: nat)
    requires c < SizeTModulus
    ensures r < SizeTModulus
    ensures c + 1 < SizeTModulus ==> r == c + 1
    ensures c + 1 == SizeTModulus ==> r == 0
  {
    (c + 1) % SizeTModulus
  }

  /** Decrement of a `size_t`: wraps to the largest value below 0. */
  function CounterDec(c: nat): (r: nat)
    requires c < SizeTModulus
    ensures r < SizeTModulus
    ensures c > 0 ==> r == c - 1
    ensures c == 0 ==> r == SizeTModulus - 1
  {
    (c + SizeTModulus - 1) % SizeTModulus
  }

  /** One step around a ring of `n` slots: `(i + 1) % n`, which cannot overflow since `i < n`. */
  function Advance(i: nat, n: nat): (j: nat)
    requires i < n
    ensures j < n
    ensures i + 1 < n ==> j == i + 1
    ensures i + 1 == n ==> j == 0
  {
    ModOfSuccessor(i, n);
    (i + 1) % n
  }

  /** The successor of a slot index, reduced modulo the ring length. */
  lemma ModOfSuccessor(i: nat, n: nat)
    requires i < n
    ensures i + 1 < n ==> (i + 1) % n == i + 1
    ensures i + 1 == n ==> (i + 1) % n == 0
  {
  }

  /** Increment and decrement of the counter undo each other, wrap-around included. */
  lemma CounterIncDecInverse(c: nat)
    requires c < SizeTModulus
    ensures CounterDec(CounterInc(c)) == c
    ensures CounterInc(CounterDec(c)) == c
  {
  }

  /** The queue state: the store, the next slot to write, the next slot to read, and the counter. */
  datatype Queue<T> = Queue(store: seq<T>, write: nat, read: nat, count: nat)

  /**
   What every reachable state satisfies: the store length and the counter are
   `size_t` values, and each index is inside the store (or 0 while the store
   is empty, before any index update could run).
   */
  predicate Valid<T>(q: Queue<T>) {
    && |q.store| < SizeTModulus
    && (q.write < |q.store| || q.write == 0)
    && (q.read < |q.store| || q.read == 0)
    && q.count < SizeTModulus
  }

  /** The constructor: `size` copies of the default value `init`, both indices and the counter at 0. */
  function Create<T>(size: nat, init: T): (q: Queue<T>)
    requires size < SizeTModulus
    ensures Valid(q)
    ensures |q.store| == size
    ensures forall i :: 0 <= i < size ==> q.store[i] == init
    ensures q.write == 0 && q.read == 0 && q.count == 0
  {
    Queue(seq(size, _ => init), 0, 0, 0)
  }

  /** The slot the producer writes next; indexing the store needs a nonempty store. */
  function NextWritable<T>(q: Queue<T>): (slot: nat)
    requires Valid(q) && |q.store| > 0
    ensures slot < |q.store|
    ensures slot == q.write
  {
    q.write
  }

  /**
   Advances the write index by one around the store and increments the
   counter; the store length is the divisor, so it must be nonzero.
   */
  function UpdateWriteIndex<T>(q: Queue<T>): (r: Queue<T>)
    requires Valid(q) && |q.store| > 0
    ensures Valid(r)
    ensures r.store == q.store && r.read == q.read
    ensures r.write < |q.store|
    ensures q.write + 1 < |q.store| ==> r.write == q.write + 1
    ensures q.write + 1 == |q.store| ==> r.write == 0
    ensures q.count + 1 < SizeTModulus ==> r.count == q.count + 1
    ensures q.count + 1 == SizeTModulus ==> r.count == 0
  {
    q.(write := Advance(q.write, |q.store|), count := CounterInc(q.count))
  }

  /** The slot the consumer reads next, or null when the two indices coincide. */
  function NextReadable<T>(q: Queue<T>): (slot: Option<nat>)
    requires Valid(q)
    ensures slot.None? <==> q.read == q.write
    ensures slot.Some? ==> slot.value == q.read && slot.value < |q.store|
  {
    if q.read == q.write then None else Some(q.read)
  }

  /**
   Advances the read index by one around the store and decrements the
   counter, wrapping below 0; the store length must be nonzero.
   */
  function UpdateReadIndex<T>(q: Queue<T>): (r: Queue<T>)
    requires Valid(q) && |q.store| > 0
    ensures Valid(r)
    ensures r.store == q.store && r.write == q.write
    ensures r.read < |q.store|
    ensures q.read + 1 < |q.store| ==> r.read == q.read + 1
    ensures q.read + 1 == |q.store| ==> r.read == 0
    ensures q.count > 0 ==> r.count == q.count - 1
    ensures q.count == 0 ==> r.count == SizeTModulus - 1
  {
    q.(read := Advance(q.read, |q.store|), count := CounterDec(q.count))
  }

  /** The counter, read as it is. */
  function Size<T>(q: Queue<T>): (n: nat)
    ensures n == q.count
  {
    q.count
  }

  /** One write-index update followed by one read-index update leaves the counter and the store as they were. */
  lemma WriteThenReadRestoresCounter<T>(q: Queue<T>)
    requires Valid(q) && |q.store| > 0
    ensures UpdateReadIndex(UpdateWriteIndex(q)).count == q.count
    ensures UpdateReadIndex(UpdateWriteIndex(q)).store == q.store
  {
  }

  /**
   `set_writable`: stores `data` in the slot at the current write index, then
   advances the write index. Nothing checks whether that slot still holds an
   unread value.
   */
  function SetWritable<T>(q: Queue<T>, data: T): (r: Queue<T>)
    requires Valid(q) && |q.store| > 0
    ensures Valid(r)
    ensures |r.store| == |q.store|
    ensures r.store[q.write] == data
    ensures forall i :: 0 <= i < |q.store| && i != q.write ==> r.store[i] == q.store[i]
    ensures r.read == q.read
    ensures r.write == UpdateWriteIndex(q).write
    ensures r.count == UpdateWriteIndex(q).count
  {
    var slot := NextWritable(q);
    UpdateWriteIndex(q.(store := q.store[slot := data]))
  }

  /** What `get_readable` returns: the queue after the call, and the (possibly null) slot. */
  datatype Taken<T> = Taken(queue: Queue<T>, slot: Option<nat>)

  /**
   `get_readable`: takes the next readable slot, then advances the read index
   and decrements the counter whether or not that slot was null.
   */
  function GetReadable<T>(q: Queue<T>): (r: Taken<T>)
    requires Valid(q) && |q.store| > 0
    ensures r.slot == NextReadable(q)
    ensures r.slot.None? <==> q.read == q.write
    ensures r.queue == UpdateReadIndex(q)
    ensures r.queue.store == q.store && r.queue.write == q.write
  {
    var next := NextReadable(q);
    Taken(UpdateReadIndex(q), next)
  }
}
