/**
 The blocking queue of src/ty_thread_queue.c between two lock operations: what one thread does to the
 shared data from the moment it holds the lock until it waits or unlocks.
 */
module ThreadQueue {
  import opened Bytes

  /** sizeof(ty_message_t): the length and the sequence number. */
  const HEADER: nat := 16

  type Message = seq<Byte>

  /** The shared data as its users see it: capacity, queued messages, number of the oldest one. */
  datatype Shared = Shared(size: nat, queue: seq<Message>, headSequence: nat)

  /** Bytes that a list of messages takes in the ring. */
  function Used(queue: seq<Message>): nat {
    if queue == [] then 0 else HEADER + |queue[0]| + Used(queue[1..])
  }

  /** The sequence number after q; size_t wraps. */
  function Succ(q: nat): nat {
    if q + 1 < SIZE_T then q + 1 else 0
  }

  /** Where a turn at the lock ends. */
  datatype Turn =
    | PutDone
    | GetDone(message: Message)
    | AwaitReadable
    | AwaitWriteable(seen: nat)

  /** A turn of put: wait for space, or append. */
  function PutTurn(s: Shared, message: Message): (Shared, Turn) {
    if Used(s.queue) + |message| + HEADER > s.size then (s, AwaitWriteable(0))
    else (s.(queue := s.queue + [message]), PutDone)
  }

  /**
   A turn of get. A thread that found a message longer than its buffer waits, with the number it saw,
   until another message is the oldest (`stale` is that number, when it resumes there).
   */
  function GetTurn(s: Shared, max: nat, stale: Stale): (Shared, Turn) {
    if stale.Saw? && s.headSequence == stale.number then (s, AwaitWriteable(stale.number))
    else if s.queue == [] then (s, AwaitReadable)
    else if |s.queue[0]| > max then (s, AwaitWriteable(s.headSequence))
    else (s.(queue := s.queue[1..], headSequence := Succ(s.headSequence)), GetDone(s.queue[0]))
  }

  datatype Stale = Fresh | Saw(number: nat)
}
