/**
 Every run of ty_queue_put and ty_queue_get by any number of threads. A step is one turn at the lock
 (from the moment a thread holds it until it waits or unlocks), a call, or a spurious wake-up. Both
 condition variables have a wait set; a signal wakes one member of it, and which one is left open.
 */
module ThreadQueueRuns {
  import opened ThreadQueue

  datatype Op = PutOp(message: Message) | GetOp(max: nat)

  /** A thread is outside, at the lock (called, signalled or woken), or in one of the wait sets. */
  datatype Thread =
    | Idle
    | Ready(op: Op, stale: Stale)
    | OnReadable(op: Op)
    | OnWriteable(op: Op, stale: Stale)

  /** Shared data, threads, and all messages put and got so far, in the order of the lock. */
  datatype State = State(shared: Shared, threads: seq<Thread>, puts: seq<Message>, gets: seq<Message>)

  datatype Step = Call(t: nat, op: Op) | AtLock(t: nat) | Wake(t: nat)

  function DoTurn(s: Shared, op: Op, stale: Stale): (Shared, Turn) {
    match op
    case PutOp(message) => PutTurn(s, message)
    case GetOp(max) => GetTurn(s, max, stale)
  }

  predicate Waits(t: Thread) { t.OnReadable? || t.OnWriteable? }

  /** A thread that leaves a wait set goes back to the lock and resumes where it waited. */
  function Woken(t: Thread): Thread {
    match t
    case OnReadable(op) => Ready(op, Fresh)
    case OnWriteable(op, stale) => Ready(op, stale)
    case _ => t
  }

  /** pthread_cond_signal: one waiter, if there is one. */
  ghost predicate Signals(before: seq<Thread>, after: seq<Thread>, waiter: Thread -> bool) {
    if exists w :: 0 <= w < |before| && waiter(before[w])
    then exists w :: 0 <= w < |before| && waiter(before[w]) && after == before[w := Woken(before[w])]
    else after == before
  }

  ghost predicate LockStep(s: State, s': State, t: nat) {
    t < |s.threads| && s.threads[t].Ready? &&
    var op := s.threads[t].op;
    var (shared, turn) := DoTurn(s.shared, op, s.threads[t].stale);
    s'.shared == shared &&
    match turn
    case PutDone =>
      && op.PutOp? && s'.puts == s.puts + [op.message] && s'.gets == s.gets
      && Signals(s.threads[t := Idle], s'.threads, (x: Thread) => x.OnReadable?)
    case GetDone(message) =>
      && s'.puts == s.puts && s'.gets == s.gets + [message]
      && Signals(s.threads[t := Idle], s'.threads, (x: Thread) => x.OnWriteable?)
    case AwaitReadable =>
      s' == s.(threads := s.threads[t := OnReadable(op)])
    case AwaitWriteable(seen) =>
      s' == s.(threads := s.threads[t := OnWriteable(op, if op.PutOp? then Fresh else Saw(seen))])
  }

  ghost predicate Next(s: State, s': State, step: Step) {
    match step
    case Call(t, op) =>
      t < |s.threads| && s.threads[t] == Idle && s' == s.(threads := s.threads[t := Ready(op, Fresh)])
    case AtLock(t) => LockStep(s, s', t)
    case Wake(t) =>
      t < |s.threads| && Waits(s.threads[t]) && s' == s.(threads := s.threads[t := Woken(s.threads[t])])
  }

  ghost predicate Init(s: State) {
    && 0 < s.shared.size && s.shared.queue == [] && s.shared.headSequence == 0
    && (forall t :: 0 <= t < |s.threads| ==> s.threads[t] == Idle)
    && s.puts == [] && s.gets == []
  }

  /** The states before and after each of the steps. */
  ghost predicate IsRun(run: seq<State>, steps: seq<Step>) {
    && |run| == |steps| + 1 && Init(run[0])
    && forall i :: 0 <= i < |steps| ==> Next(run[i], run[i + 1], steps[i])
  }

  // ---- First in, first out ----

  ghost predicate Fifo(s: State) {
    s.puts == s.gets + s.shared.queue && Used(s.shared.queue) <= s.shared.size
  }

  lemma {:induction false} UsedAppend(queue: seq<Message>, message: Message)
    ensures Used(queue + [message]) == Used(queue) + HEADER + |message|
  {
    var all := queue + [message];
    if queue == [] {
      assert all == [message] && all[1..] == [];
    } else {
      UsedAppend(queue[1..], message);
      assert all[1..] == queue[1..] + [message];
    }
  }

  lemma FifoStep(s: State, s': State, step: Step)
    requires Fifo(s) && Next(s, s', step)
    ensures Fifo(s') && s'.shared.size == s.shared.size
  {
    if step.AtLock? {
      var op := s.threads[step.t].op;
      var queue := s.shared.queue;
      var turn := DoTurn(s.shared, op, s.threads[step.t].stale).1;
      if turn.PutDone? {
        UsedAppend(queue, op.message);
        assert (s.gets + queue) + [op.message] == s.gets + (queue + [op.message]);
      }
      if turn.GetDone? {
        assert s.gets + queue == (s.gets + [queue[0]]) + queue[1..];
      }
    }
  }

  /** In every run the messages got are a prefix of the messages put, and the queue is the rest. */
  lemma {:induction false} FifoOverRuns(run: seq<State>, steps: seq<Step>)
    requires IsRun(run, steps)
    ensures var s := run[|steps|];
            s.gets <= s.puts && s.puts[|s.gets|..] == s.shared.queue && Fifo(s)
            && s.shared.size == run[0].shared.size
    decreases |steps|
  {
    var n := |steps|;
    if n == 0 {
      assert run[0].gets + run[0].shared.queue == [];
    } else {
      FifoOverRuns(run[..n], steps[..n - 1]);
      FifoStep(run[n - 1], run[n], steps[n - 1]);
      var s := run[n];
      assert s.puts[..|s.gets|] == s.gets;
    }
  }

  // ---- No deadlock ----

  ghost function Count(threads: seq<Thread>, p: Thread -> bool): nat {
    if threads == [] then 0 else Count(threads[1..], p) + (if p(threads[0]) then 1 else 0)
  }

  lemma {:induction false} CountUpdate(threads: seq<Thread>, t: nat, x: Thread, p: Thread -> bool)
    requires t < |threads|
    ensures Count(threads[t := x], p) + (if p(threads[t]) then 1 else 0)
         == Count(threads, p) + (if p(x) then 1 else 0)
  {
    if t == 0 {
      assert threads[0 := x][1..] == threads[1..];
    } else {
      CountUpdate(threads[1..], t - 1, x, p);
      assert threads[t := x][1..] == threads[1..][t - 1 := x];
    }
  }

  lemma {:induction false} CountPositive(threads: seq<Thread>, p: Thread -> bool)
    requires Count(threads, p) > 0
    ensures exists t :: 0 <= t < |threads| && p(threads[t])
  {
    if !p(threads[0]) {
      CountPositive(threads[1..], p);
      var t :| 0 <= t < |threads[1..]| && p(threads[1..][t]);
      assert p(threads[t + 1]);
    }
  }

  predicate ReadyGet(x: Thread) { x.Ready? && x.op.GetOp? }

  predicate ReadyPut(x: Thread) { x.Ready? && x.op.PutOp? }

  /** Messages of at most `limit` bytes, and buffers that hold them. */
  predicate Polite(op: Op, limit: nat) {
    match op
    case PutOp(message) => |message| <= limit
    case GetOp(max) => limit <= max
  }

  /** Then no get waits for another consumer: only puts wait for space. */
  predicate PoliteThread(x: Thread, limit: nat) {
    match x
    case Idle => true
    case Ready(op, stale) => Polite(op, limit) && stale.Fresh?
    case OnReadable(op) => Polite(op, limit) && op.GetOp?
    case OnWriteable(op, stale) => Polite(op, limit) && op.PutOp? && stale.Fresh?
  }

  ghost predicate Some(threads: seq<Thread>, p: Thread -> bool) {
    exists t :: 0 <= t < |threads| && p(threads[t])
  }

  /** No wake-up is lost: waiters that could go on are covered by threads on their way to the lock. */
  ghost predicate Covered(s: State, limit: nat) {
    && limit + HEADER <= s.shared.size
    && (forall t :: 0 <= t < |s.threads| ==> PoliteThread(s.threads[t], limit))
    && (forall i :: 0 <= i < |s.shared.queue| ==> |s.shared.queue[i]| <= limit)
    && (Some(s.threads, (x: Thread) => x.OnReadable?) ==> |s.shared.queue| <= Count(s.threads, ReadyGet))
    && (Some(s.threads, (x: Thread) => x.OnWriteable?) && s.shared.queue == [] ==> Some(s.threads, ReadyPut))
  }

  /** Replacing one thread: who is there after it was there before, or is the new one. */
  lemma SomeUpdate(threads: seq<Thread>, t: nat, x: Thread, p: Thread -> bool)
    requires t < |threads|
    ensures Some(threads[t := x], p) ==> Some(threads, p) || p(x)
    ensures p(x) ==> Some(threads[t := x], p)
    ensures Some(threads, p) && !p(threads[t]) ==> Some(threads[t := x], p)
  {
    var after := threads[t := x];
    if Some(after, p) {
      var w :| 0 <= w < |after| && p(after[w]);
      if w != t { assert p(threads[w]); }
    }
    if p(x) { assert p(after[t]); }
    if Some(threads, p) && !p(threads[t]) {
      var w :| 0 <= w < |threads| && p(threads[w]);
      assert p(after[w]);
    }
  }

  /** What replacing one thread does to the four facts Covered speaks of. */
  lemma Replace(threads: seq<Thread>, t: nat, x: Thread)
    requires t < |threads|
    ensures var after := threads[t := x];
      && Count(after, ReadyGet) + (if ReadyGet(threads[t]) then 1 else 0)
         == Count(threads, ReadyGet) + (if ReadyGet(x) then 1 else 0)
      && (Some(after, (y: Thread) => y.OnReadable?) ==> Some(threads, (y: Thread) => y.OnReadable?) || x.OnReadable?)
      && (Some(after, (y: Thread) => y.OnWriteable?) ==> Some(threads, (y: Thread) => y.OnWriteable?) || x.OnWriteable?)
      && (Some(threads, ReadyPut) && !ReadyPut(threads[t]) ==> Some(after, ReadyPut))
      && (ReadyPut(x) ==> Some(after, ReadyPut))
  {
    CountUpdate(threads, t, x, ReadyGet);
    SomeUpdate(threads, t, x, (y: Thread) => y.OnReadable?);
    SomeUpdate(threads, t, x, (y: Thread) => y.OnWriteable?);
    SomeUpdate(threads, t, x, ReadyPut);
  }

  /** Put's signal: a reader that is woken covers the message that has come. */
  lemma SignalReadable(before: seq<Thread>, after: seq<Thread>, limit: nat)
    requires Signals(before, after, (x: Thread) => x.OnReadable?)
    requires forall t :: 0 <= t < |before| ==> PoliteThread(before[t], limit)
    ensures forall t :: 0 <= t < |after| ==> PoliteThread(after[t], limit)
    ensures Some(after, (x: Thread) => x.OnReadable?) ==>
      Some(before, (x: Thread) => x.OnReadable?) && Count(after, ReadyGet) == Count(before, ReadyGet) + 1
  {
    var waiter := (x: Thread) => x.OnReadable?;
    if exists w :: 0 <= w < |before| && waiter(before[w]) {
      var w :| 0 <= w < |before| && waiter(before[w]) && after == before[w := Woken(before[w])];
      Replace(before, w, Woken(before[w]));
    }
  }

  /** Get's signal: while writers wait, one of them is on its way. */
  lemma SignalWriteable(before: seq<Thread>, after: seq<Thread>, limit: nat)
    requires Signals(before, after, (x: Thread) => x.OnWriteable?)
    requires forall t :: 0 <= t < |before| ==> PoliteThread(before[t], limit)
    ensures forall t :: 0 <= t < |after| ==> PoliteThread(after[t], limit)
    ensures Some(after, (x: Thread) => x.OnWriteable?) ==> Some(after, ReadyPut)
    ensures Some(after, (x: Thread) => x.OnReadable?) ==> Some(before, (x: Thread) => x.OnReadable?)
    ensures Count(after, ReadyGet) == Count(before, ReadyGet)
  {
    var waiter := (x: Thread) => x.OnWriteable?;
    if exists w :: 0 <= w < |before| && waiter(before[w]) {
      var w :| 0 <= w < |before| && waiter(before[w]) && after == before[w := Woken(before[w])];
      Replace(before, w, Woken(before[w]));
    }
  }

  lemma CoveredLockStep(s: State, s': State, t: nat, limit: nat)
    requires Covered(s, limit) && Fifo(s) && LockStep(s, s', t)
    ensures Covered(s', limit)
  {
    var op := s.threads[t].op;
    assert PoliteThread(s.threads[t], limit);
    assert s.shared.queue != [] ==> |s.shared.queue[0]| <= limit;
    var (shared, turn) := DoTurn(s.shared, op, s.threads[t].stale);
    match turn
    case PutDone =>
      var mid := s.threads[t := Idle];
      Replace(s.threads, t, Idle);
      SignalReadable(mid, s'.threads, limit);
    case GetDone(message) =>
      var mid := s.threads[t := Idle];
      Replace(s.threads, t, Idle);
      SignalWriteable(mid, s'.threads, limit);
    case AwaitReadable =>
      Replace(s.threads, t, OnReadable(op));
    case AwaitWriteable(seen) =>
      Replace(s.threads, t, OnWriteable(op, Fresh));
  }

  lemma CoveredStep(s: State, s': State, step: Step, limit: nat)
    requires Covered(s, limit) && Fifo(s) && Next(s, s', step)
    requires step.Call? ==> Polite(step.op, limit)
    ensures Covered(s', limit)
  {
    match step
    case Call(t, op) => Replace(s.threads, t, Ready(op, Fresh));
    case AtLock(t) => CoveredLockStep(s, s', t, limit);
    case Wake(t) =>
      assert PoliteThread(s.threads[t], limit);
      Replace(s.threads, t, Woken(s.threads[t]));
  }

  lemma {:induction false} CoveredOverRuns(run: seq<State>, steps: seq<Step>, limit: nat)
    requires IsRun(run, steps) && limit + HEADER <= run[0].shared.size
    requires forall i :: 0 <= i < |steps| && steps[i].Call? ==> Polite(steps[i].op, limit)
    ensures Covered(run[|steps|], limit)
    decreases |steps|
  {
    var n := |steps|;
    if n > 0 {
      CoveredOverRuns(run[..n], steps[..n - 1], limit);
      FifoOverRuns(run[..n], steps[..n - 1]);
      CoveredStep(run[n - 1], run[n], steps[n - 1], limit);
    }
  }

  predicate InPut(x: Thread) { (x.Ready? || x.OnWriteable?) && x.op.PutOp? }

  predicate InGet(x: Thread) { !x.Idle? && x.op.GetOp? }

  ghost predicate Deadlocked(s: State) {
    Some(s.threads, InPut) && Some(s.threads, InGet) && !Some(s.threads, (x: Thread) => x.Ready?)
  }

  /**
   While a producer and a consumer are both inside an operation, some thread can take the lock:
   whatever the run was, if every message fits the ring and every consumer's buffer.
   */
  lemma NoDeadlock(run: seq<State>, steps: seq<Step>, limit: nat)
    requires IsRun(run, steps) && limit + HEADER <= run[0].shared.size
    requires forall i :: 0 <= i < |steps| && steps[i].Call? ==> Polite(steps[i].op, limit)
    ensures !Deadlocked(run[|steps|])
  {
    var s := run[|steps|];
    CoveredOverRuns(run, steps, limit);
    if Some(s.threads, InPut) && Some(s.threads, InGet) {
      SomeReady(s, limit);
    }
  }

  lemma SomeReady(s: State, limit: nat)
    requires Covered(s, limit) && Some(s.threads, InPut) && Some(s.threads, InGet)
    ensures Some(s.threads, (x: Thread) => x.Ready?)
  {
    var ready := (x: Thread) => x.Ready?;
    var p :| 0 <= p < |s.threads| && InPut(s.threads[p]);
    var c :| 0 <= c < |s.threads| && InGet(s.threads[c]);
    assert PoliteThread(s.threads[p], limit) && PoliteThread(s.threads[c], limit);
    if s.threads[p].Ready? {
      assert ready(s.threads[p]);
    } else if s.threads[c].Ready? {
      assert ready(s.threads[c]);
    } else if s.shared.queue == [] {
      assert ((x: Thread) => x.OnWriteable?)(s.threads[p]);
      var t :| 0 <= t < |s.threads| && ReadyPut(s.threads[t]);
      assert ready(s.threads[t]);
    } else {
      assert ((x: Thread) => x.OnReadable?)(s.threads[c]);
      CountPositive(s.threads, ReadyGet);
      var t :| 0 <= t < |s.threads| && ReadyGet(s.threads[t]);
      assert ready(s.threads[t]);
    }
  }

  // ---- Progress ----

  predicate IsReady(x: Thread) { x.Ready? }

  /** The step ends an operation. */
  predicate Completes(s: State, step: Step) {
    step.AtLock? && step.t < |s.threads| && s.threads[step.t].Ready? &&
    var turn := DoTurn(s.shared, s.threads[step.t].op, s.threads[step.t].stale).1;
    turn.PutDone? || turn.GetDone?
  }

  /**
   Threads that take the lock without completing anything go to a wait set one after the other: there
   are no more such turns in a row than threads at the lock. With NoDeadlock: as long as a producer and
   a consumer are inside, at most that many turns pass before one of the operations completes.
   */
  lemma {:induction false} Progress(run: seq<State>, steps: seq<Step>)
    requires |run| == |steps| + 1
    requires forall i :: 0 <= i < |steps| ==>
      Next(run[i], run[i + 1], steps[i]) && steps[i].AtLock? && !Completes(run[i], steps[i])
    ensures Count(run[|steps|].threads, IsReady) + |steps| == Count(run[0].threads, IsReady)
    decreases |steps|
  {
    var n := |steps|;
    if n > 0 {
      Progress(run[..n], steps[..n - 1]);
      var s, t := run[n - 1], steps[n - 1].t;
      assert Next(s, run[n], steps[n - 1]);
      CountUpdate(s.threads, t, run[n].threads[t], IsReady);
      assert run[n].threads == s.threads[t := run[n].threads[t]];
    }
  }

  // ---- Why the buffers must hold every message ----

  /** No message is longer than `longest`, no buffer shorter than `smallest`. */
  ghost predicate Respects(steps: seq<Step>, longest: nat, smallest: nat) {
    forall i :: 0 <= i < |steps| && steps[i].Call? ==>
      match steps[i].op
      case PutOp(message) => |message| <= longest
      case GetOp(max) => smallest <= max
  }

  lemma Extend(run: seq<State>, steps: seq<Step>, s: State, step: Step)
    requires IsRun(run, steps) && Next(run[|steps|], s, step)
    ensures IsRun(run + [s], steps + [step])
  {
    forall i | 0 <= i < |steps + [step]| ensures Next((run + [s])[i], (run + [s])[i + 1], (steps + [step])[i]) {
      if i < |steps| { assert Next(run[i], run[i + 1], steps[i]); }
    }
  }

  function Copies(m: Message, k: nat): seq<Message> {
    if k == 0 then [] else [m] + Copies(m, k - 1)
  }

  lemma {:induction false} CopiesLast(m: Message, k: nat)
    ensures Copies(m, k) + [m] == Copies(m, k + 1)
  {
    if k > 0 {
      CopiesLast(m, k - 1);
      assert Copies(m, k) + [m] == [m] + (Copies(m, k - 1) + [m]);
    }
  }

  /** Thread 0 waits for room in m's way, thread 1 is outside, thread 2 is as given; k copies of m are queued. */
  ghost function Jam(size: nat, m: Message, max: nat, k: nat, q: nat, third: Thread,
                     log: (seq<Message>, seq<Message>)): State {
    State(Shared(size, Copies(m, k), q), [OnWriteable(GetOp(max), Saw(q)), Idle, third], log.0, log.1)
  }

  /** A put that finds no reader waiting. */
  lemma PutAlone(s: State, s': State, m: Message)
    requires |s.threads| == 3 && s.threads[2] == Ready(PutOp(m), Fresh)
    requires !s.threads[0].OnReadable? && !s.threads[1].OnReadable?
    requires Used(s.shared.queue) + |m| + HEADER <= s.shared.size
    requires s'.shared == s.shared.(queue := s.shared.queue + [m]) && s'.threads == s.threads[2 := Idle]
    requires s'.puts == s.puts + [m] && s'.gets == s.gets
    ensures Next(s, s', AtLock(2))
  {
    var waiter := (x: Thread) => x.OnReadable?;
    var before := s.threads[2 := Idle];
    assert forall w :: 0 <= w < |before| ==> !waiter(before[w]);
  }

  /** Fill the ring with copies of m behind a consumer that waits because m is too long for it. */
  lemma {:induction false} FillRing(size: nat, m: Message, max: nat, k: nat) returns (run: seq<State>, steps: seq<Step>)
    requires max < |m| && 0 < k && Used(Copies(m, k)) <= size
    ensures IsRun(run, steps) && run[0].shared.size == size && Respects(steps, |m|, max)
    ensures run[|steps|] == Jam(size, m, max, k, 0, Idle, (Copies(m, k), []))
    decreases k
  {
    var put := PutOp(m);
    if k == 1 {
      var s0 := State(Shared(size, [], 0), [Idle, Idle, Idle], [], []);
      var s1 := State(Shared(size, [], 0), [Idle, Idle, Ready(put, Fresh)], [], []);
      var s2 := State(Shared(size, [m], 0), [Idle, Idle, Idle], [m], []);
      var s3 := State(Shared(size, [m], 0), [Ready(GetOp(max), Fresh), Idle, Idle], [m], []);
      CopiesLast(m, 0);
      UsedAppend([], m);
      PutAlone(s1, s2, m);
      run, steps := [s0, s1, s2, s3], [Call(2, put), AtLock(2), Call(0, GetOp(max))];
      Extend(run, steps, Jam(size, m, max, 1, 0, Idle, ([m], [])), AtLock(0));
      run, steps := run + [Jam(size, m, max, 1, 0, Idle, ([m], []))], steps + [AtLock(0)];
    } else {
      CopiesLast(m, k - 1);
      UsedAppend(Copies(m, k - 1), m);
      run, steps := FillRing(size, m, max, k - 1);
      var log := (Copies(m, k - 1), []);
      var called := Jam(size, m, max, k - 1, 0, Ready(put, Fresh), log);
      var full := Jam(size, m, max, k, 0, Idle, (Copies(m, k), []));
      Extend(run, steps, called, Call(2, put));
      run, steps := run + [called], steps + [Call(2, put)];
      PutAlone(called, full, m);
      Extend(run, steps, full, AtLock(2));
      run, steps := run + [full], steps + [AtLock(2)];
    }
  }

  /** A get that frees room and wakes thread 0 of all that wait for it. */
  lemma GetWakesGet(s: State, s': State, m: Message)
    requires |s.threads| == 3 && s.threads[1] == Ready(GetOp(|m|), Fresh) && s.threads[0].OnWriteable?
    requires s.shared.queue != [] && s.shared.queue[0] == m
    requires s'.shared == s.shared.(queue := s.shared.queue[1..], headSequence := Succ(s.shared.headSequence))
    requires s'.threads == [Woken(s.threads[0]), Idle, s.threads[2]]
    requires s'.puts == s.puts && s'.gets == s.gets + [m]
    ensures Next(s, s', AtLock(1))
  {
    var waiter := (x: Thread) => x.OnWriteable?;
    var mid := s.threads[1 := Idle];
    assert waiter(mid[0]) && s'.threads == mid[0 := Woken(mid[0])];
  }

  /** Every get of thread 1 wakes thread 0; the producer sleeps on until the ring is empty. */
  lemma {:induction false} DrainRing(run: seq<State>, steps: seq<Step>, size: nat, m: Message, max: nat, k: nat, q: nat,
                  log: (seq<Message>, seq<Message>)) returns (run': seq<State>, steps': seq<Step>)
    requires IsRun(run, steps) && run[0].shared.size == size && Respects(steps, |m|, max)
    requires max < |m| && 0 < k && run[|steps|] == Jam(size, m, max, k, q, OnWriteable(PutOp(m), Fresh), log)
    ensures IsRun(run', steps') && run'[0].shared.size == size && Respects(steps', |m|, max)
    ensures Deadlocked(run'[|steps'|])
    decreases k
  {
    var get, sleeper, small := GetOp(|m|), OnWriteable(PutOp(m), Fresh), GetOp(max);
    var called := run[|steps|].(threads := [OnWriteable(small, Saw(q)), Ready(get, Fresh), sleeper]);
    Extend(run, steps, called, Call(1, get));
    run', steps' := run + [called], steps + [Call(1, get)];
    var less, log' := Shared(size, Copies(m, k - 1), Succ(q)), (log.0, log.1 + [m]);
    var got := State(less, [Ready(small, Saw(q)), Idle, sleeper], log'.0, log'.1);
    GetWakesGet(called, got, m);
    Extend(run', steps', got, AtLock(1));
    run', steps' := run' + [got], steps' + [AtLock(1)];
    if k == 1 {
      var stuck := State(less, [OnReadable(small), Idle, sleeper], log'.0, log'.1);
      Extend(run', steps', stuck, AtLock(0));
      run', steps' := run' + [stuck], steps' + [AtLock(0)];
      assert InPut(stuck.threads[2]) && InGet(stuck.threads[0]);
    } else {
      var again := Jam(size, m, max, k - 1, Succ(q), sleeper, log');
      Extend(run', steps', again, AtLock(0));
      run', steps' := DrainRing(run' + [again], steps' + [AtLock(0)], size, m, max, k - 1, Succ(q), log');
    }
  }

  /** The number of copies of m that fill the ring. */
  lemma {:induction false} Fullest(size: nat, m: Message, k: nat) returns (n: nat)
    requires Used(Copies(m, k)) <= size
    ensures k <= n && Used(Copies(m, n)) <= size < Used(Copies(m, n + 1))
    decreases size - Used(Copies(m, k))
  {
    CopiesLast(m, k);
    UsedAppend(Copies(m, k), m);
    n := k;
    if Used(Copies(m, k + 1)) <= size {
      n := Fullest(size, m, k + 1);
    }
  }

  /** A buffer shorter than some message lets a run deadlock, although every message fits the ring. */
  lemma SmallBufferDeadlocks(size: nat, longest: nat, smallest: nat) returns (run: seq<State>, steps: seq<Step>)
    requires smallest < longest && longest + HEADER <= size
    ensures IsRun(run, steps) && run[0].shared.size == size && Respects(steps, longest, smallest)
    ensures Deadlocked(run[|steps|])
  {
    var m: Message := seq(longest, _ => 0);
    CopiesLast(m, 0);
    UsedAppend([], m);
    var k := Fullest(size, m, 1);
    CopiesLast(m, k);
    UsedAppend(Copies(m, k), m);
    run, steps := FillRing(size, m, smallest, k);
    var log: (seq<Message>, seq<Message>) := (Copies(m, k), []);
    var called := Jam(size, m, smallest, k, 0, Ready(PutOp(m), Fresh), log);
    var waiting := Jam(size, m, smallest, k, 0, OnWriteable(PutOp(m), Fresh), log);
    Extend(run, steps, called, Call(2, PutOp(m)));
    run, steps := run + [called], steps + [Call(2, PutOp(m))];
    Extend(run, steps, waiting, AtLock(2));
    run, steps := run + [waiting], steps + [AtLock(2)];
    run, steps := DrainRing(run, steps, size, m, smallest, k, 0, log);
  }

  /** Messages that fit the ring never deadlock a run exactly when every buffer holds every message. */
  lemma DeadlockFreeIff(size: nat, longest: nat, smallest: nat)
    requires longest + HEADER <= size
    ensures (forall run: seq<State>, steps: seq<Step> ::
               IsRun(run, steps) && run[0].shared.size == size && Respects(steps, longest, smallest)
               ==> !Deadlocked(run[|steps|]))
      <==> longest <= smallest
  {
    if longest <= smallest {
      forall run: seq<State>, steps: seq<Step>
        | IsRun(run, steps) && run[0].shared.size == size && Respects(steps, longest, smallest)
        ensures !Deadlocked(run[|steps|])
      {
        NoDeadlock(run, steps, longest);
      }
    } else {
      var run, steps := SmallBufferDeadlocks(size, longest, smallest);
    }
  }
}
