/**
 Why threads of the queue wait, and when they go on (src/ty_thread_queue.c:131-186), in every run, with buffers of
 any length. Sequence numbers wrap; with fewer than 2^64 messages got, a number names one message.
 */
module ThreadQueueWaits {
  import opened Bytes
  import opened ThreadQueue
  import opened ThreadQueueRuns

  /** The oldest message has the number of messages got, in a size_t. */
  lemma {:induction false} SequenceOverRuns(run: seq<State>, steps: seq<Step>)
    requires IsRun(run, steps)
    ensures run[|steps|].shared.headSequence == |run[|steps|].gets| % 0x1_0000_0000_0000_0000
    decreases |steps|
  {
    var n := |steps|;
    if n > 0 {
      SequenceOverRuns(run[..n], steps[..n - 1]);
      SequenceStep(run[n - 1], run[n], steps[n - 1]);
    }
  }

  lemma SequenceStep(s: State, s': State, step: Step)
    requires Next(s, s', step) && s.shared.headSequence == |s.gets| % SIZE_T
    ensures s'.shared.headSequence == |s'.gets| % SIZE_T && |s.gets| <= |s'.gets| <= |s.gets| + 1
  {}

  /** What an operation needs of the shared data. */
  predicate CanComplete(s: Shared, op: Op) {
    match op
    case PutOp(message) => Used(s.queue) + 16 + |message| <= s.size
    case GetOp(max) => s.queue != [] && |s.queue[0]| <= max
  }

  /** A get that has seen the oldest message before. */
  predicate HasSeen(x: Thread, headSequence: nat) {
    x.Ready? && x.op.GetOp? && x.stale == Saw(headSequence)
  }

  /**
   A turn completes exactly when its operation can, unless it is of a get that has seen the oldest message already.
   Otherwise it waits: a get for a message, or for the oldest one to go; a put for space.
   */
  lemma TurnCompletesExactly(s: State, s': State, t: nat)
    requires t < |s.threads| && s.threads[t].Ready? && LockStep(s, s', t)
    requires !HasSeen(s.threads[t], s.shared.headSequence) && (s.threads[t].op.PutOp? ==> s.threads[t].stale.Fresh?)
    ensures Completes(s, AtLock(t)) <==> CanComplete(s.shared, s.threads[t].op)
    ensures var op := s.threads[t].op;
            !Completes(s, AtLock(t)) ==>
              s'.threads[t] == if op.PutOp? then OnWriteable(op, Fresh)
                               else if s.shared.queue == [] then OnReadable(op)
                               else OnWriteable(op, Saw(s.shared.headSequence))
  {}

  /** A get that goes on waiting for another to take the oldest message cannot take it itself. */
  ghost predicate Reason(x: Thread, s: State) {
    match x
    case Idle => true
    case OnReadable(op) => op.GetOp?
    case Ready(op, stale) => stale.Saw? ==> op.GetOp? && TooLong(op.max, stale.number, s)
    case OnWriteable(op, stale) => if op.PutOp? then stale.Fresh? else stale.Saw? && TooLong(op.max, stale.number, s)
  }

  /** Message `number` has been got, or it is the oldest one and longer than max. */
  ghost predicate TooLong(max: nat, number: nat, s: State) {
    number < |s.gets| || (number == |s.gets| && s.shared.queue != [] && |s.shared.queue[0]| > max)
  }

  ghost predicate Reasoned(s: State) {
    s.shared.headSequence == |s.gets| && forall t :: 0 <= t < |s.threads| ==> Reason(s.threads[t], s)
  }

  /** A reason stays one while messages are put and got. */
  lemma ReasonStays(x: Thread, s: State, s': State)
    requires Reason(x, s)
    requires |s'.gets| == |s.gets| ==>
      (s.shared.queue != [] ==> s'.shared.queue != [] && s'.shared.queue[0] == s.shared.queue[0])
    requires |s.gets| <= |s'.gets|
    ensures Reason(x, s') && Reason(Woken(x), s')
  {}

  lemma ReasonedStep(s: State, s': State, step: Step)
    requires Reasoned(s) && Next(s, s', step) && |s'.gets| < SIZE_T
    ensures Reasoned(s')
  {
    forall t | 0 <= t < |s.threads| ensures Reason(s.threads[t], s') && Reason(Woken(s.threads[t]), s') {
      ReasonStays(s.threads[t], s, s');
    }
  }

  lemma {:induction false} ReasonedOverRuns(run: seq<State>, steps: seq<Step>)
    requires IsRun(run, steps) && |run[|steps|].gets| < SIZE_T
    ensures Reasoned(run[|steps|])
    decreases |steps|
  {
    var n := |steps|;
    if n > 0 {
      assert Next(run[n - 1], run[n], steps[n - 1]);
      SequenceOverRuns(run[..n], steps[..n - 1]);
      SequenceStep(run[n - 1], run[n], steps[n - 1]);
      ReasonedOverRuns(run[..n], steps[..n - 1]);
      ReasonedStep(run[n - 1], run[n], steps[n - 1]);
    }
  }

  /** In every run, a get waits for the oldest message to go only while that is too long for its buffer. */
  lemma WaitsOnlyForLonger(run: seq<State>, steps: seq<Step>, t: nat, max: nat, number: nat)
    requires IsRun(run, steps) && |run[|steps|].gets| < SIZE_T && t < |run[|steps|].threads|
    requires run[|steps|].threads[t] == OnWriteable(GetOp(max), Saw(number))
    requires number == run[|steps|].shared.headSequence
    ensures var queue := run[|steps|].shared.queue; queue != [] && |queue[0]| > max
  {
    ReasonedOverRuns(run, steps);
    assert Reason(run[|steps|].threads[t], run[|steps|]);
  }

  /** In every run, a thread that takes the lock completes its operation exactly when that can. */
  lemma CompletesExactly(run: seq<State>, steps: seq<Step>, t: nat)
    requires IsRun(run, steps) && |run[|steps|].gets| < SIZE_T
    requires t < |run[|steps|].threads| && run[|steps|].threads[t].Ready?
    ensures var s := run[|steps|]; Completes(s, AtLock(t)) <==> CanComplete(s.shared, s.threads[t].op)
  {
    ReasonedOverRuns(run, steps);
    assert Reason(run[|steps|].threads[t], run[|steps|]);
  }
}
