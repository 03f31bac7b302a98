/**
 The runs of ThreadQueueRuns on the bytes of the ring (src/ty_thread_queue.c:131-186): what is true of the list of
 messages in every run is true of the memory.
 */
module ThreadQueueBytes {
  import opened Bytes
  import opened ThreadQueue
  import opened ThreadQueueRing
  import opened ThreadQueueRuns

  /** The length of a message and its header is a size_t. */
  predicate Addressable(op: Op) {
    op.PutOp? ==> |op.message| + HEADER < SIZE_T
  }

  predicate AddressableThread(x: Thread) {
    !x.Idle? ==> Addressable(x.op)
  }

  ghost predicate AllAddressable(threads: seq<Thread>) {
    forall t :: 0 <= t < |threads| ==> AddressableThread(threads[t])
  }

  lemma AddressableStep(s: State, s': State, step: Step)
    requires AllAddressable(s.threads) && Next(s, s', step) && (step.Call? ==> Addressable(step.op))
    ensures AllAddressable(s'.threads)
  {}

  /** One turn at the lock, on the ring. A message got is read from the caller's buffer. */
  method Perform(ring: Ring, op: Op, stale: Stale) returns (turn: Turn, got: seq<Message>)
    requires ring.Valid() && Addressable(op)
    modifies ring, ring.buffer
    ensures ring.Valid() && (ring.View(), turn) == DoTurn(old(ring.View()), op, stale)
    ensures got == if turn.GetDone? then [turn.message] else []
  {
    got := [];
    match op
    case PutOp(message) =>
      turn := ring.Put(message);
    case GetOp(max) =>
      var out := new Byte[max];
      var len;
      turn, len := ring.Get(out, max, stale);
      if turn.GetDone? {
        got := [out[..len]];
      }
  }

  /** DoTurn tells what a step at the lock does to the messages got. */
  lemma GotBy(s: State, s': State, t: nat)
    requires LockStep(s, s', t)
    ensures var (shared, turn) := DoTurn(s.shared, s.threads[t].op, s.threads[t].stale);
            s'.shared == shared && s'.gets == s.gets + if turn.GetDone? then [turn.message] else []
  {}

  /**
   Any run, carried out on a ring: after it, the bytes of the ring parse as the queue of its last state, and the
   bytes that the calls of get returned are the messages got, which are the first of those put.
   */
  method Execute(run: seq<State>, steps: seq<Step>) returns (ring: Ring, got: seq<Message>)
    requires IsRun(run, steps) && run[0].shared.size < SIZE_T
    requires forall i :: 0 <= i < |steps| && steps[i].Call? ==> Addressable(steps[i].op)
    ensures ring.Valid() && ring.View() == run[|steps|].shared
    ensures got == run[|steps|].gets && got <= run[|steps|].puts
  {
    ring := new Ring(run[0].shared.size);
    got := [];
    for i := 0 to |steps|
      invariant ring.Valid() && fresh(ring) && fresh(ring.buffer) && ring.View() == run[i].shared
      invariant got == run[i].gets && AllAddressable(run[i].threads)
    {
      assert Next(run[i], run[i + 1], steps[i]);
      AddressableStep(run[i], run[i + 1], steps[i]);
      if steps[i].AtLock? {
        var x := run[i].threads[steps[i].t];
        GotBy(run[i], run[i + 1], steps[i].t);
        assert AddressableThread(x);
        var turn, message := Perform(ring, x.op, x.stale);
        got := got + message;
      }
    }
    FifoOverRuns(run, steps);
  }
}
