/**
 The ring behind the queue: variable-length messages behind 16-byte headers, in a buffer of `size`
 bytes that is mapped twice in a row, so that addresses i and i + size name the same byte.
 */
module ThreadQueueRing {
  import opened Bytes
  import opened ThreadQueue

  /** w is the message with its header: length, number, body. */
  ghost predicate IsFrame(w: seq<Byte>, message: Message, number: nat) {
    && |w| == HEADER + |message|
    && UnLe(w[..8]) == |message| && UnLe(w[8..HEADER]) == number
    && w[HEADER..] == message
  }

  /** w is the queue, message by message, with consecutive numbers from q. */
  ghost predicate Parses(w: seq<Byte>, queue: seq<Message>, q: nat)
    decreases |queue|
  {
    if queue == [] then w == []
    else
      var k := HEADER + |queue[0]|;
      k <= |w| && IsFrame(w[..k], queue[0], q) && Parses(w[k..], queue[1..], Succ(q))
  }

  /** The number of the k-th message after number q. */
  function Advance(q: nat, k: nat): nat
    decreases k
  {
    if k == 0 then q else Advance(Succ(q), k - 1)
  }

  lemma {:induction false} AdvanceLast(q: nat, k: nat)
    ensures Advance(q, k + 1) == Succ(Advance(q, k))
    decreases k
  {
    if k > 0 { AdvanceLast(Succ(q), k - 1); }
  }

  lemma {:induction false} ParsesUsed(w: seq<Byte>, queue: seq<Message>, q: nat)
    requires Parses(w, queue, q)
    ensures |w| == Used(queue)
    decreases |queue|
  {
    if queue != [] { ParsesUsed(w[HEADER + |queue[0]|..], queue[1..], Succ(q)); }
  }

  /** A frame with the next number may be appended. */
  lemma {:induction false} ParsesAppend(w: seq<Byte>, queue: seq<Message>, q: nat, f: seq<Byte>, message: Message)
    requires Parses(w, queue, q) && IsFrame(f, message, Advance(q, |queue|))
    ensures Parses(w + f, queue + [message], q)
    decreases |queue|
  {
    var all := queue + [message];
    if queue == [] {
      assert w + f == f && all == [message] && all[1..] == [];
      assert f[..|f|] == f && f[|f|..] == [];
    } else {
      var k := HEADER + |queue[0]|;
      ParsesAppend(w[k..], queue[1..], Succ(q), f, message);
      assert all[0] == queue[0] && all[1..] == queue[1..] + [message];
      assert (w + f)[..k] == w[..k] && (w + f)[k..] == w[k..] + f;
    }
  }

  /** The byte of the ring behind an address of the double mapping. */
  function Mirror(i: nat, size: nat): nat {
    if i < size then i else i - size
  }

  /** The n bytes from address lo. */
  ghost function Window(buf: seq<Byte>, lo: nat, n: nat): (w: seq<Byte>)
    requires lo + n <= 2 * |buf|
    ensures |w| == n
  {
    seq(n, i requires 0 <= i < n => buf[Mirror(lo + i, |buf|)])
  }

  lemma WindowSplit(buf: seq<Byte>, lo: nat, m: nat, n: nat)
    requires lo + m + n <= 2 * |buf|
    ensures Window(buf, lo, m + n) == Window(buf, lo, m) + Window(buf, lo + m, n)
  {}

  /** Both mappings show the same bytes. */
  lemma WindowMirrored(buf: seq<Byte>, lo: nat, n: nat)
    requires |buf| <= lo && lo + n <= 2 * |buf|
    ensures Window(buf, lo, n) == Window(buf, lo - |buf|, n)
  {
    var v, w := Window(buf, lo, n), Window(buf, lo - |buf|, n);
    forall i | 0 <= i < n ensures v[i] == w[i] {
      assert Mirror(lo + i, |buf|) == Mirror(lo - |buf| + i, |buf|);
    }
  }

  /** The state of a ring that holds `queue`: its bytes from head to tail are the queue's frames. */
  ghost predicate Holds(buf: seq<Byte>, head: nat, tail: nat, hs: nat, ts: nat, queue: seq<Message>) {
    && 0 < |buf| < SIZE_T
    && head < |buf| && head <= tail <= head + |buf|
    && hs < SIZE_T && ts == Advance(hs, |queue|) < SIZE_T
    && Parses(Window(buf, head, tail - head), queue, hs)
  }

  /** The bytes from the head are the oldest message and then the rest of the queue. */
  lemma FrontFrame(buf: seq<Byte>, head: nat, tail: nat, hs: nat, ts: nat, queue: seq<Message>)
    requires Holds(buf, head, tail, hs, ts, queue) && queue != []
    ensures var k := HEADER + |queue[0]|;
      && k <= tail - head
      && IsFrame(Window(buf, head, k), queue[0], hs)
      && Parses(Window(buf, head + k, tail - head - k), queue[1..], Succ(hs))
      && Window(buf, head + HEADER, |queue[0]|) == queue[0]
  {
    var k := HEADER + |queue[0]|;
    var w := Window(buf, head, tail - head);
    assert k <= |w|;
    WindowSplit(buf, head, k, tail - head - k);
    assert w[..k] == Window(buf, head, k);
    assert w[k..] == Window(buf, head + k, tail - head - k);
    WindowSplit(buf, head, HEADER, |queue[0]|);
  }

  /** Moving the head behind the oldest message, and both ends back into the first mapping. */
  lemma Consumed(buf: seq<Byte>, head: nat, tail: nat, hs: nat, ts: nat, queue: seq<Message>)
    requires Holds(buf, head, tail, hs, ts, queue) && queue != []
    ensures var h := head + HEADER + |queue[0]|;
            && (h < |buf| ==> Holds(buf, h, tail, Succ(hs), ts, queue[1..]))
            && (h >= |buf| ==> tail >= |buf| && Holds(buf, h - |buf|, tail - |buf|, Succ(hs), ts, queue[1..]))
  {
    FrontFrame(buf, head, tail, hs, ts, queue);
    var h := head + HEADER + |queue[0]|;
    if h >= |buf| {
      WindowMirrored(buf, h, tail - h);
    }
  }

  lemma Appended(was: seq<Byte>, now: seq<Byte>, head: nat, tail: nat, hs: nat, ts: nat, queue: seq<Message>,
                 f: seq<Byte>, message: Message)
    requires Holds(was, head, tail, hs, ts, queue) && |was| == |now|
    requires IsFrame(f, message, ts) && tail + |f| <= head + |now|
    requires Window(now, head, tail - head + |f|) == Window(was, head, tail - head) + f
    ensures Holds(now, head, tail + |f|, hs, Succ(ts), queue + [message])
  {
    ParsesAppend(Window(was, head, tail - head), queue, hs, f, message);
    AdvanceLast(hs, |queue|);
    assert tail + |f| - head == tail - head + |f|;
  }

  class Ring {
    const size: nat
    const buffer: array<Byte>
    var head: nat
    var tail: nat
    var headSequence: nat
    var tailSequence: nat
    ghost var queue: seq<Message>

    ghost predicate Valid()
      reads this, buffer
    {
      size == buffer.Length && Holds(buffer[..], head, tail, headSequence, tailSequence, queue)
    }

    ghost function View(): Shared
      reads this
    {
      Shared(size, queue, headSequence)
    }

    constructor (s: nat)
      requires 0 < s < SIZE_T
      ensures Valid() && View() == Shared(s, [], 0) && fresh(buffer)
    {
      size := s;
      buffer := new Byte[s];
      head, tail := 0, 0;
      headSequence, tailSequence := 0, 0;
      queue := [];
    }

    /** memcpy into the ring. */
    method Write(at: nat, data: seq<Byte>)
      requires size == buffer.Length && |data| <= size && at + |data| <= 2 * size
      modifies buffer
      ensures Window(buffer[..], at, |data|) == data
      ensures KeptOutside(old(buffer[..]), buffer[..], at, |data|)
    {
      ghost var was := buffer[..];
      for i := 0 to |data|
        invariant forall k :: 0 <= k < i ==> buffer[Mirror(at + k, size)] == data[k]
        invariant KeptOutside(was, buffer[..], at, i)
      {
        buffer[Mirror(at + i, size)] := data[i];
      }
    }

    /** memcpy out of the ring. */
    method Read(at: nat, out: array<Byte>, n: nat)
      requires size == buffer.Length && at + n <= 2 * size && n <= out.Length && out != buffer
      modifies out
      ensures out[..n] == Window(buffer[..], at, n)
      ensures out[n..] == old(out[n..])
    {
      for i := 0 to n
        invariant forall k :: 0 <= k < i ==> out[k] == buffer[Mirror(at + k, size)]
        invariant forall k :: n <= k < out.Length ==> out[k] == old(out[k])
      {
        out[i] := buffer[Mirror(at + i, size)];
      }
    }

    /** A turn of ty_queue_put. */
    method Put(message: Message) returns (turn: Turn)
      requires Valid() && |message| + HEADER < SIZE_T
      modifies this, buffer
      ensures Valid()
      ensures (View(), turn) == PutTurn(old(View()), message)
      ensures turn.PutDone? <==> Used(old(queue)) + 16 + |message| <= size
      ensures queue == if turn.PutDone? then old(queue) + [message] else old(queue)
    {
      ghost var was := buffer[..];
      ParsesUsed(Window(was, head, tail - head), queue, headSequence);
      if size - (tail - head) < |message| + HEADER {
        return AwaitWriteable(0);
      }
      var number := tailSequence;
      ghost var f := Append(number, message);
      Appended(was, buffer[..], head, tail, headSequence, tailSequence, queue, f, message);
      tailSequence := Succ(tailSequence);
      tail := tail + |message| + HEADER;
      queue := queue + [message];
      return PutDone;
    }

    /** The two copies of put: header and body behind the tail. */
    method Append(number: nat, message: Message) returns (ghost f: seq<Byte>)
      requires size == buffer.Length && head < size && head <= tail && number < SIZE_T
      requires tail - head + HEADER + |message| <= size < SIZE_T
      modifies buffer
      ensures IsFrame(f, message, number)
      ensures Window(buffer[..], head, tail - head + HEADER + |message|) ==
          old(Window(buffer[..], head, tail - head)) + f
    {
      ghost var was := buffer[..];
      var len := SizeBytes(|message|);
      var num := SizeBytes(number);
      Write(tail, len + num);
      ghost var mid := buffer[..];
      Write(tail + HEADER, message);
      PutBytes(was, mid, buffer[..], head, tail - head, len + num, message);
      f := len + num + message;
      assert f[..8] == len && f[8..HEADER] == num && f[HEADER..] == message;
      assert f == (len + num) + message;
    }

    /** The message header at the head of the ring. */
    method Header() returns (len: nat, number: nat)
      requires Valid() && queue != []
      ensures len == |queue[0]| && number == headSequence
    {
      var m := new Byte[HEADER];
      ghost var buf := buffer[..];
      FrontFrame(buf, head, tail, headSequence, tailSequence, queue);
      Read(head, m, HEADER);
      HeaderOf(buf, head, queue[0], headSequence, m[..]);
      len := UnLe(m[..8]);
      number := UnLe(m[8..HEADER]);
    }

    /** A turn of ty_queue_get; on GetDone the message is in the caller's buffer. */
    method Get(out: array<Byte>, max: nat, stale: Stale) returns (turn: Turn, len: nat)
      requires Valid() && max <= out.Length && out != buffer
      modifies this, out
      ensures Valid()
      ensures (View(), turn) == GetTurn(old(View()), max, stale)
      ensures turn.GetDone? <==> stale != Saw(old(headSequence)) && old(queue) != [] && |old(queue)[0]| <= max
      ensures if turn.GetDone? then old(queue) == [turn.message] + queue else queue == old(queue)
      ensures turn.GetDone? ==> out[..] == turn.message + old(out[..])[|turn.message|..] && len == |turn.message|
      ensures !turn.GetDone? ==> out[..] == old(out[..])
    {
      len := 0;
      if stale.Saw? && headSequence == stale.number {
        return AwaitWriteable(stale.number), len;
      }
      ParsesUsed(Window(buffer[..], head, tail - head), queue, headSequence);
      if tail - head == 0 {
        return AwaitReadable, len;
      }
      assert queue != [];
      var number;
      len, number := Header();
      if len > max {
        return AwaitWriteable(number), 0;
      }
      FrontFrame(buffer[..], head, tail, headSequence, tailSequence, queue);
      Read(head + HEADER, out, len);
      turn := GetDone(out[..len]);
      Consume(len);
    }

    /** The end of get: move the head behind the oldest message, back into the first mapping. */
    method Consume(len: nat)
      requires Valid() && queue != [] && len == |queue[0]|
      modifies this
      ensures Valid() && View() == Shared(size, old(queue[1..]), Succ(old(headSequence)))
    {
      Consumed(buffer[..], head, tail, headSequence, tailSequence, queue);
      head := head + len + HEADER;
      headSequence := Succ(headSequence);
      queue := queue[1..];
      if head >= size {
        head := head - size;
        tail := tail - size;
      }
    }
  }

  /** Writing n bytes at `at` changes no other cell. */
  ghost predicate KeptOutside(was: seq<Byte>, now: seq<Byte>, at: nat, n: nat) {
    && |was| == |now|
    && forall p :: 0 <= p < |now| && !(at <= p < at + n) && !(at <= p + |now| < at + n) ==> now[p] == was[p]
  }

  /** A window that the written bytes do not reach, on either mapping. */
  lemma WindowKept(was: seq<Byte>, now: seq<Byte>, at: nat, n: nat, lo: nat, m: nat)
    requires KeptOutside(was, now, at, n)
    requires lo + m <= at && at + n <= lo + |now| && at + n <= 2 * |now|
    ensures Window(now, lo, m) == Window(was, lo, m)
  {
    var v, w := Window(now, lo, m), Window(was, lo, m);
    forall i | 0 <= i < m ensures v[i] == w[i] {
      assert now[Mirror(lo + i, |now|)] == was[Mirror(lo + i, |now|)];
    }
  }

  lemma PutBytes(was: seq<Byte>, mid: seq<Byte>, now: seq<Byte>, head: nat, n: nat, header: seq<Byte>, body: seq<Byte>)
    requires |header| == HEADER && head < |now|
    requires KeptOutside(was, mid, head + n, HEADER) && KeptOutside(mid, now, head + n + HEADER, |body|)
    requires n + HEADER + |body| <= |now|
    requires Window(mid, head + n, HEADER) == header
    requires Window(now, head + n + HEADER, |body|) == body
    ensures Window(now, head, n + HEADER + |body|) == Window(was, head, n) + (header + body)
  {
    WindowKept(was, mid, head + n, HEADER, head, n);
    WindowKept(mid, now, head + n + HEADER, |body|, head, n);
    WindowKept(mid, now, head + n + HEADER, |body|, head + n, HEADER);
    WindowSplit(now, head, n, HEADER + |body|);
    WindowSplit(now, head + n, HEADER, |body|);
  }

  lemma HeaderOf(buf: seq<Byte>, head: nat, message: Message, number: nat, m: seq<Byte>)
    requires head + HEADER + |message| <= 2 * |buf|
    requires IsFrame(Window(buf, head, HEADER + |message|), message, number)
    requires m == Window(buf, head, HEADER)
    ensures UnLe(m[..8]) == |message| && UnLe(m[8..HEADER]) == number
  {
    var f := Window(buf, head, HEADER + |message|);
    WindowSplit(buf, head, HEADER, |message|);
    assert m[..8] == f[..8] && m[8..HEADER] == f[8..HEADER];
  }
}
