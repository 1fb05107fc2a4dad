# LFQueue — a Dafny model of the low-latency trader's ring-buffer queue

This project models `LFQueue<T>` from `core/common/lib/LFQueue/LFQueue.h`: a
fixed-length store of `size` slots, a write index and a read index that each
advance by one modulo the store length, and a `size_t` element counter that is
kept apart from the indices. It also models the two free helpers
`set_writable` (write the slot at the write index, then advance it) and
`get_readable` (take the slot at the read index, then advance it).

The code is modelled as written. It has no full check and keeps a separate
counter. The model states these behaviours as proved facts rather than
correcting them:

- a push into a full queue overwrites the oldest unread slot;
- a full queue has `read == write`, so `get_next_readable` reports nothing to read;
- `get_readable` advances the read index and decrements the counter even when it returns null;
- the counter wraps to the largest `size_t` value when decremented at 0.

Every call is one sequential step on an immutable `Queue<T>` value. A pointer
into the store is modelled as a slot index, `Option<nat>`, and a null pointer
as `None`. The default value `T()` that fills a new store is the `init`
parameter of `Create`.

Modules:

- `Wrappers` (wrappers.dfy): `Option`.
- `LFQueue` (lfqueue.dfy): the queue state and every operation of the class and of the two helpers.
- `Abstraction` (abstraction.dfy): the cursor invariant `Consistent`, the pending values `Pending`, and the one-step facts.
  It proves the FIFO steps, overwrite on overfill, "full looks empty", and pop of an empty queue.
- `Trace` (trace.dfy): runs of pushes and pops. Under the calling discipline (push only while the counter is below the store length, pop only while it is above 0), a run is a FIFO.
- `TraceExamples` (trace.dfy): two concrete runs outside that discipline.

## Model

| member | source | states |
|---|---|---|
| LFQueue.CounterInc | core/common/lib/LFQueue/LFQueue.h:24 | `_num_elements++` on a `size_t`: one more, or 0 past the largest value |
| LFQueue.CounterDec | core/common/lib/LFQueue/LFQueue.h:31 | `_num_elements--` on a `size_t`: one less, or the largest value when decremented at 0 |
| LFQueue.CounterIncDecInverse | core/common/lib/LFQueue/LFQueue.h:22-32 | the counter increment and decrement undo each other in both orders, wrap-around included |
| LFQueue.Advance | core/common/lib/LFQueue/LFQueue.h:23 | `(i + 1) % size` stays in `[0, size)`: it is `i + 1`, or 0 from the last slot |
| LFQueue.Create | core/common/lib/LFQueue/LFQueue.h:17-19 | the constructor gives exactly `size` slots holding the default value, both indices 0 and the counter 0 (fields at lines 37-40), in a valid state |
| LFQueue.NextWritable | core/common/lib/LFQueue/LFQueue.h:21 | `get_next_writable` designates the slot at the write index, which lies inside the store |
| LFQueue.UpdateWriteIndex | core/common/lib/LFQueue/LFQueue.h:22-25 | needs a nonempty store; moves the write index one slot on, wrapping to 0, and adds one to the counter; the store and the read index are unchanged |
| LFQueue.NextReadable | core/common/lib/LFQueue/LFQueue.h:26-28 | null exactly when the read index equals the write index; otherwise the slot at the read index, inside the store |
| LFQueue.UpdateReadIndex | core/common/lib/LFQueue/LFQueue.h:29-32 | needs a nonempty store; moves the read index one slot on, wrapping to 0, and takes one from the counter, wrapping below 0; the store and the write index are unchanged |
| LFQueue.WriteThenReadRestoresCounter | core/common/lib/LFQueue/LFQueue.h:22-32 | a write-index update followed by a read-index update leaves the counter and the store as they were |
| LFQueue.SetWritable | core/common/lib/LFQueue/LFQueue.h:50-54 | `set_writable` puts `data` in the slot at the old write index; every other slot and the read index are unchanged; the write index and counter advance as in `update_write_index` |
| LFQueue.GetReadable | core/common/lib/LFQueue/LFQueue.h:56-61 | `get_readable` returns what `get_next_readable` gave before the update, and always performs `update_read_index`, also when that result is null |
| Abstraction.CreateIsEmpty | core/common/lib/LFQueue/LFQueue.h:17-19 | a new queue with a nonempty store satisfies the cursor invariant, has no pending values and reports nothing to read |
| Abstraction.RingAddIsMod | core/common/lib/LFQueue/LFQueue.h:23 | the ring position the invariant uses, `base + k` folded back once below N, is the source's `(base + k) % N` |
| Abstraction.CounterIsCursorDistance | core/common/lib/LFQueue/LFQueue.h:21-32 | under the invariant, the counter is `write - read`, plus N when the write index is behind; the indices coincide exactly when the counter is 0 or N, and then `get_next_readable` is null |
| Abstraction.SizeCountsPending | core/common/lib/LFQueue/LFQueue.h:33-35 | under the invariant, `size()` is the number of pending values, at most N, and `get_next_readable` is null exactly when it is 0 or N |
| Abstraction.CounterIsCursorDistanceMod | core/common/lib/LFQueue/LFQueue.h:21-32 | under the invariant, `count mod N == (write - read) mod N` |
| Abstraction.PushAppends | core/common/lib/LFQueue/LFQueue.h:50-54 | a push while the counter is below N keeps the invariant, adds one to the counter and appends the value to the pending values |
| Abstraction.PopRemovesOldest | core/common/lib/LFQueue/LFQueue.h:56-61 | a pop while the counter is above 0 keeps the invariant, takes one from the counter and drops the oldest pending value; the returned slot is non-null exactly when the queue was not full, and then holds that oldest value |
| Abstraction.FullLooksEmpty | core/common/lib/LFQueue/LFQueue.h:26-28 | with the counter at N > 0, `get_next_readable` reports nothing to read |
| Abstraction.OverfillOverwritesOldest | core/common/lib/LFQueue/LFQueue.h:50-54 | a push into a full queue writes over the slot at the read index, which held the oldest pending value; the counter exceeds N and the invariant is lost; with N > 1 the next read designates the overwritten slot |
| Abstraction.PopOfEmptyWraps | core/common/lib/LFQueue/LFQueue.h:56-61 | a pop of an empty queue returns null, yet wraps the counter to the largest `size_t` value and (with N > 1) moves the read index away from the write index, so the invariant is lost |
| Trace.Run | core/common/lib/LFQueue/LFQueue.h:50-61 | a sequence of `set_writable` / `get_readable` calls keeps the state valid and the store length fixed, and yields one delivered value per pop |
| Trace.RunIsFifo | core/common/lib/LFQueue/LFQueue.h:50-61 | under the calling discipline the invariant holds at the end; the counter equals initial count plus pushes minus pops; the pending values are the stream (initial pending, then pushes) without its first pops; every non-null pop delivers the next value of that stream |
| Trace.RunDeliversAll | core/common/lib/LFQueue/LFQueue.h:56-61 | if additionally no pop meets a full queue, every pop of the run returns a non-null slot |
| Trace.ConstructedQueueIsFifo | core/common/lib/LFQueue/LFQueue.h:17-61 | from construction, a disciplined run that never pops a full queue delivers exactly the first pushed values in push order, and `size()` is pushes minus pops |
| TraceExamples.OverfillDeliversNewestFirst | core/common/lib/LFQueue/LFQueue.h:50-61 | five pushes into four slots and a pop: the pop delivers the fifth value, so the first one is lost |
| TraceExamples.FullQueuePopsNull | core/common/lib/LFQueue/LFQueue.h:26-32 | two pushes into two slots and a pop: the pop returns null while the counter drops to 1 |

## Left out

- LFQueue.Create: models the store as `size` copies of `T()`, which is what `_store{size, T()}` builds when `size_t` does not convert implicitly to `T`, as for the demo record `LFQ_D_t`. With braces, `std::vector` prefers its initializer-list constructor: for an element type that `size_t` converts to without narrowing (such as `size_t` itself), the store is the two-element list `{size, T()}`; for a narrowing conversion (such as `int`) the code does not compile. Neither case is modelled.
- LFQueue.CounterDec: assumes a 64-bit `size_t`, so "the largest `size_t` value" reached by decrementing the counter at 0 is 2^64 - 1; `CounterInc`, `PopOfEmptyWraps` and `Valid` use the same width.

- The `std::atomic` fields, memory ordering and two-thread use: each call is one sequential step. Interleavings within a call are not modelled.
- `consumer_fn` and `LFQ_D_t` (lines 63-82): a demo driver built from thread sleeps and console output.
- Pointer identity: `get_next_writable` and `get_next_readable` return slot indices. Writing through the pointer is modelled only as `set_writable` does it. Reading through it is modelled as a read of the slot right after `get_readable`.
- The limit `std::vector::max_size`: the store length is bounded only by the `size_t` range. The indices are below the store length, so `(i + 1) % size` cannot overflow and needs no wrap.
- Calls on an empty store (`size == 0`): the index updates divide by zero, and `get_next_writable` indexes out of bounds. These are undefined behaviour, so those operations require a nonempty store. `get_next_readable` and `size()` accept an empty store.
- `core/common/lib/LLSocket/socket_utils.cxx`, `socket_utils.h`, `tcp_socket.h` and `tcp_socket.cxx` are not part of this model. They are system-call wrappers and a buffer-holding record, with no self-contained logic.
