/**
 Runs of the queue: a sequence of `set_writable` and `get_readable` calls
 made one after another, the consumer dereferencing each returned slot at
 once. Under the calling discipline (push only below capacity, pop only a
 nonempty queue) the queue behaves as a FIFO of the pushed values.
 */
module Trace {
  import opened Wrappers
  import opened LFQueue
  import opened Abstraction

  /** One call: `set_writable` with a value, or `get_readable`. */
  datatype Op<T> = Push(value: T) | Pop

  /** The final queue, and what each pop delivered: the value in the returned slot, or nothing for null. */
  datatype Outcome<T> = Outcome(queue: Queue<T>, popped: seq<Option<T>>)

  /** The values pushed by `ops`, in order. */
  function Pushes<T>(ops: seq<Op<T>>): seq<T>
  {
    if ops == [] then []
    else match ops[0]
      case Push(x) => [x] + Pushes(ops[1..])
      case Pop => Pushes(ops[1..])
  }

  /** The number of pops in `ops`. */
  function NumPops<T>(ops: seq<Op<T>>): nat
  {
    if ops == [] then 0
    else match ops[0]
      case Push(_) => NumPops(ops[1..])
      case Pop => 1 + NumPops(ops[1..])
  }

  /** Executes `ops` from `q`, one call at a time. */
  function Run<T>(q: Queue<T>, ops: seq<Op<T>>): (r: Outcome<T>)
    requires Valid(q) && |q.store| > 0
    ensures Valid(r.queue) && |r.queue.store| == |q.store|
    ensures |r.popped| == NumPops(ops)
    decreases |ops|
  {
    if ops == [] then Outcome(q, [])
    else match ops[0]
      case Push(x) => Run(SetWritable(q, x), ops[1..])
      case Pop =>
        var t := GetReadable(q);
        var v := if t.slot.Some? then Some(t.queue.store[t.slot.value]) else None;
        var rest := Run(t.queue, ops[1..]);
        Outcome(rest.queue, [v] + rest.popped)
  }

  /** The calling discipline: every push finds the counter below the store length, every pop finds it above 0. */
  predicate Disciplined<T>(q: Queue<T>, ops: seq<Op<T>>)
    requires Valid(q) && |q.store| > 0
    decreases |ops|
  {
    ops == [] ||
    match ops[0]
      case Push(x) => q.count < |q.store| && Disciplined(SetWritable(q, x), ops[1..])
      case Pop => q.count > 0 && Disciplined(GetReadable(q).queue, ops[1..])
  }

  /** No pop finds the counter at the store length, where the read slot comes back null. */
  predicate NeverPopsFull<T>(q: Queue<T>, ops: seq<Op<T>>)
    requires Valid(q) && |q.store| > 0
    decreases |ops|
  {
    ops == [] ||
    match ops[0]
      case Push(x) => NeverPopsFull(SetWritable(q, x), ops[1..])
      case Pop => q.count < |q.store| && NeverPopsFull(GetReadable(q).queue, ops[1..])
  }

  /**
   Under the discipline, a run from a consistent queue ends consistent; the
   counter tracks pushes minus pops; the pending values are the stream of
   values pending at the start followed by those pushed, minus the popped
   prefix; and every non-null pop delivers the next value of that stream.
   */
  lemma {:induction false} RunIsFifo<T>(q: Queue<T>, ops: seq<Op<T>>)
    requires Consistent(q) && Disciplined(q, ops)
    ensures Consistent(Run(q, ops).queue)
    ensures Run(q, ops).queue.count + NumPops(ops) == q.count + |Pushes(ops)|
    ensures NumPops(ops) <= |Pending(q) + Pushes(ops)|
    ensures Pending(Run(q, ops).queue) == (Pending(q) + Pushes(ops))[NumPops(ops)..]
    ensures forall i :: 0 <= i < |Run(q, ops).popped| && Run(q, ops).popped[i].Some? ==>
              Run(q, ops).popped[i].value == (Pending(q) + Pushes(ops))[i]
    decreases |ops|, 2
  {
    if ops != [] {
      match ops[0]
      case Push(x) => PushThenRunIsFifo(q, ops);
      case Pop => PopThenRunIsFifo(q, ops);
    }
  }

  /** The push step of `RunIsFifo`: the pushed value joins the end of the pending values. */
  lemma {:induction false} PushThenRunIsFifo<T>(q: Queue<T>, ops: seq<Op<T>>)
    requires Consistent(q) && Disciplined(q, ops) && ops != [] && ops[0].Push?
    ensures Consistent(Run(q, ops).queue)
    ensures Run(q, ops).queue.count + NumPops(ops) == q.count + |Pushes(ops)|
    ensures NumPops(ops) <= |Pending(q) + Pushes(ops)|
    ensures Pending(Run(q, ops).queue) == (Pending(q) + Pushes(ops))[NumPops(ops)..]
    ensures forall i :: 0 <= i < |Run(q, ops).popped| && Run(q, ops).popped[i].Some? ==>
              Run(q, ops).popped[i].value == (Pending(q) + Pushes(ops))[i]
    decreases |ops|, 1
  {
    var x := ops[0].value;
    var rest := ops[1..];
    var q1 := SetWritable(q, x);
    PushAppends(q, x);
    RunIsFifo(q1, rest);
    RunOfPush(q, ops);
    assert Pending(q1) + Pushes(rest) == Pending(q) + Pushes(ops);
  }

  /** How a run that starts with a push unfolds: the write, then the rest of the run. */
  lemma RunOfPush<T>(q: Queue<T>, ops: seq<Op<T>>)
    requires Valid(q) && |q.store| > 0 && ops != [] && ops[0].Push?
    ensures Run(q, ops) == Run(SetWritable(q, ops[0].value), ops[1..])
    ensures Pushes(ops) == [ops[0].value] + Pushes(ops[1..])
    ensures NumPops(ops) == NumPops(ops[1..])
  {
  }

  /** The pop step of `RunIsFifo`: the oldest pending value leaves, delivered unless the queue was full. */
  lemma {:induction false} PopThenRunIsFifo<T>(q: Queue<T>, ops: seq<Op<T>>)
    requires Consistent(q) && Disciplined(q, ops) && ops != [] && ops[0].Pop?
    ensures Consistent(Run(q, ops).queue)
    ensures Run(q, ops).queue.count + NumPops(ops) == q.count + |Pushes(ops)|
    ensures NumPops(ops) <= |Pending(q) + Pushes(ops)|
    ensures Pending(Run(q, ops).queue) == (Pending(q) + Pushes(ops))[NumPops(ops)..]
    ensures forall i :: 0 <= i < |Run(q, ops).popped| && Run(q, ops).popped[i].Some? ==>
              Run(q, ops).popped[i].value == (Pending(q) + Pushes(ops))[i]
    decreases |ops|, 1
  {
    var rest := ops[1..];
    var t := GetReadable(q);
    PopRemovesOldest(q);
    RunIsFifo(t.queue, rest);
    RunOfPop(q, ops);
    var stream := Pending(q) + Pushes(ops);
    assert Pending(t.queue) + Pushes(rest) == stream[1..];
    PopStepDelivers(Run(q, ops).popped, Run(t.queue, rest).popped, stream);
  }

  /** How a run that starts with a pop unfolds: the dereferenced slot, then the rest of the run. */
  lemma RunOfPop<T>(q: Queue<T>, ops: seq<Op<T>>)
    requires Valid(q) && |q.store| > 0 && ops != [] && ops[0].Pop?
    ensures Run(q, ops).queue == Run(GetReadable(q).queue, ops[1..]).queue
    ensures Run(q, ops).popped[1..] == Run(GetReadable(q).queue, ops[1..]).popped
    ensures GetReadable(q).slot.Some? ==>
              Run(q, ops).popped[0] == Some(q.store[GetReadable(q).slot.value])
    ensures Pushes(ops) == Pushes(ops[1..])
    ensures NumPops(ops) == 1 + NumPops(ops[1..])
  {
  }

  /** The pop step of `RunIsFifo` for the values delivered: each is the matching value of the stream. */
  lemma PopStepDelivers<T>(out: seq<Option<T>>, out1: seq<Option<T>>, stream: seq<T>)
    requires |out| > 0 && out[1..] == out1 && |stream| > 0
    requires out[0].Some? ==> out[0].value == stream[0]
    requires |out1| <= |stream| - 1
    requires forall i :: 0 <= i < |out1| && out1[i].Some? ==> out1[i].value == stream[1..][i]
    ensures |out| <= |stream|
    ensures forall i :: 0 <= i < |out| && out[i].Some? ==> out[i].value == stream[i]
  {
  }

  /** If besides no pop finds the queue full, every pop delivers a value, in push order. */
  lemma {:induction false} RunDeliversAll<T>(q: Queue<T>, ops: seq<Op<T>>)
    requires Consistent(q) && Disciplined(q, ops) && NeverPopsFull(q, ops)
    ensures forall i :: 0 <= i < |Run(q, ops).popped| ==> Run(q, ops).popped[i].Some?
    decreases |ops|
  {
    if ops != [] {
      var rest := ops[1..];
      match ops[0]
      case Push(x) =>
        PushAppends(q, x);
        RunDeliversAll(SetWritable(q, x), rest);
      case Pop =>
        var t := GetReadable(q);
        PopRemovesOldest(q);
        RunDeliversAll(t.queue, rest);
        var out := Run(q, ops).popped;
        var out1 := Run(t.queue, rest).popped;
        assert out == [out[0]] + out1;
        forall i | 0 <= i < |out|
          ensures out[i].Some?
        {
          if i > 0 {
            assert out[i] == out1[i - 1];
          }
        }
    }
  }

  /**
   From construction, a disciplined run that never pops a full queue pops
   exactly the first pushed values, in push order, and keeps the rest pending.
   */
  lemma ConstructedQueueIsFifo<T>(size: nat, init: T, ops: seq<Op<T>>)
    requires 0 < size < SizeTModulus
    requires Disciplined(Create(size, init), ops) && NeverPopsFull(Create(size, init), ops)
    ensures NumPops(ops) <= |Pushes(ops)|
    ensures Consistent(Run(Create(size, init), ops).queue)
    ensures forall i :: 0 <= i < |Run(Create(size, init), ops).popped| ==>
              Run(Create(size, init), ops).popped[i] == Some(Pushes(ops)[i])
    ensures Pending(Run(Create(size, init), ops).queue) == Pushes(ops)[NumPops(ops)..]
    ensures Size(Run(Create(size, init), ops).queue) == |Pushes(ops)| - NumPops(ops)
  {
    var q := Create(size, init);
    CreateIsEmpty(size, init);
    RunIsFifo(q, ops);
    RunDeliversAll(q, ops);
    assert Pending(q) + Pushes(ops) == Pushes(ops);
  }
}

/** Concrete runs that show the two behaviours outside the calling discipline. */
module TraceExamples {
  import opened Wrappers
  import opened LFQueue
  import opened Trace

  /**
   Five pushes into four slots, then a pop: the fifth value has overwritten
   the first, so the first pop delivers 5 instead of 1.
   */
  lemma OverfillDeliversNewestFirst()
    ensures Run(Create(4, 0), [Push(1), Push(2), Push(3), Push(4), Push(5), Pop]).popped == [Some(5)]
  {
  }

  /** Two pushes fill two slots; the pop that follows returns null although both values are pending. */
  lemma FullQueuePopsNull()
    ensures Run(Create(2, 0), [Push(1), Push(2), Pop]).popped == [None]
    ensures Size(Run(Create(2, 0), [Push(1), Push(2), Pop]).queue) == 1
  {
  }
}
