/**
 The region allocator of src/ty_alloc.c: blocks in one byte buffer, each behind an 8-byte header that
 holds its size. A pointer into the buffer is its offset. `region_free` of includes/ty_alloc.h is the
 function that src/ty_alloc.c defines as `region_t_free`.
 */
module Region {
  import opened Bytes

  const MAX_ALIGNMENT: nat := 16
  const UINT32_RANGE: nat := 0x1_0000_0000

  datatype Ptr = Null | At(offset: nat)

  /** Bytes lost to bring an offset to a multiple of the alignment. */
  function AlignmentLoss(bytes: nat): (inc: nat)
    ensures inc < 16 && (bytes + inc) % 16 == 0
  {
    var offset := bytes % MAX_ALIGNMENT;
    if offset == 0 then 0 else MAX_ALIGNMENT - offset
  }

  /** The test of region_alloc; its sums wrap. */
  predicate Admits(capacity: nat, size: nat, n: nat)
    requires size <= capacity && n < SIZE_T
  {
    capacity - size >= Plus(Plus(n, SIZEOF_SIZE_T), AlignmentLoss(size))
  }

  /** Without a wrap, the test admits exactly the blocks that fit; with one, it admits only blocks that do not. */
  lemma AdmitsExactly(capacity: nat, size: nat, n: nat)
    requires size <= capacity < SIZE_T && n < SIZE_T
    ensures n + SIZEOF_SIZE_T + AlignmentLoss(size) < SIZE_T ==>
      (Admits(capacity, size, n) <==> size + AlignmentLoss(size) + 8 + n <= capacity)
    ensures n + SIZEOF_SIZE_T + AlignmentLoss(size) >= SIZE_T ==>
      (Admits(capacity, size, n) <==> size + AlignmentLoss(size) + 8 + n <= capacity + SIZE_T)
    ensures n + SIZEOF_SIZE_T + AlignmentLoss(size) >= SIZE_T ==> size + AlignmentLoss(size) + 8 + n > capacity
  {}

  /** The block is refused, or the sums of the test do not wrap. */
  predicate NoWrap(capacity: nat, size: nat, n: nat)
    requires size <= capacity && n < SIZE_T
  {
    Admits(capacity, size, n) ==> n + SIZEOF_SIZE_T + AlignmentLoss(size) < SIZE_T
  }

  /** Where the sum wraps, the test lets a block through that no buffer can hold. */
  lemma WrappedIsAdmitted()
    ensures Admits(64, 0, SIZE_T - SIZEOF_SIZE_T)
  {}

  /** The number in the 8 bytes before offset o. */
  function Header(data: seq<Byte>, o: nat): nat
    requires SIZEOF_SIZE_T <= o <= |data|
  {
    UnLe(data[o - SIZEOF_SIZE_T..o])
  }

  lemma SameHeader(was: seq<Byte>, now: seq<Byte>, o: nat)
    requires SIZEOF_SIZE_T <= o <= |was| && o <= |now|
    requires forall i :: o - SIZEOF_SIZE_T <= i < o ==> now[i] == was[i]
    ensures Header(now, o) == Header(was, o)
  {
    assert now[o - SIZEOF_SIZE_T..o] == was[o - SIZEOF_SIZE_T..o];
  }

  /** now is was, with the bytes at `at` replaced. */
  ghost predicate Written(was: seq<Byte>, now: seq<Byte>, at: nat, bytes: seq<Byte>) {
    && |now| == |was|
    && forall i :: 0 <= i < |now| ==> now[i] == if at <= i < at + |bytes| then bytes[i - at] else was[i]
  }

  /** All bytes but the 8 at `at` are the same. */
  ghost predicate Unwritten(was: seq<Byte>, now: seq<Byte>, at: nat) {
    && |now| == |was|
    && forall i :: 0 <= i < |now| && !(at <= i < at + SIZEOF_SIZE_T) ==> now[i] == was[i]
  }

  /** o + z is the end of the block whose payload starts at o; its header takes the 8 bytes before o. */
  ghost predicate BlockIn(data: seq<Byte>, size: nat, o: nat, z: nat) {
    && SIZEOF_SIZE_T <= o && 0 < z && o + z <= size <= |data|
    && (o - SIZEOF_SIZE_T) % MAX_ALIGNMENT == 0
    && Header(data, o) == z
  }

  /** Two blocks, headers included, have no byte in common. */
  predicate Apart(o: nat, z: nat, p: nat, y: nat) {
    o + z + SIZEOF_SIZE_T <= p || p + y + SIZEOF_SIZE_T <= o
  }

  /** The live blocks, by payload offset, lie in the buffer below `size`, apart from each other. */
  ghost predicate Blocks(data: seq<Byte>, size: nat, live: map<nat, nat>) {
    && (forall o {:trigger BlockIn(data, size, o, live[o])} :: o in live ==> BlockIn(data, size, o, live[o]))
    && (forall o, p {:trigger Apart(o, live[o], p, live[p])} :: o in live && p in live && o != p ==>
        Apart(o, live[o], p, live[p]))
  }

  /** The payload of z bytes at o is the same. */
  ghost predicate SamePayload(was: seq<Byte>, now: seq<Byte>, o: nat, z: nat) {
    o + z <= |was| == |now| && now[o..o + z] == was[o..o + z]
  }

  /** All live payloads but those of `except` are the same. */
  ghost predicate Kept(was: seq<Byte>, now: seq<Byte>, live: map<nat, nat>, except: set<nat>) {
    forall q {:trigger SamePayload(was, now, q, live[q])} :: q in live && q !in except ==>
        SamePayload(was, now, q, live[q])
  }

  class Region {
    const data: array<Byte>
    const capacity: nat
    var size: nat
    ghost var live: map<nat, nat>

    ghost predicate Valid()
      reads this, data
    {
      && size <= capacity == data.Length < SIZE_T
      && Blocks(data[..], size, live)
    }

    constructor (buf: array<Byte>)
      requires buf.Length < SIZE_T
      ensures Valid() && data == buf && size == 0 && live == map[]
    {
      data := buf;
      capacity := buf.Length;
      size := 0;
      live := map[];
    }

    /** region_is_owned */
    predicate IsOwned(buf: int) {
      0 <= buf < capacity
    }

    /** All bytes of a live block are owned. */
    lemma LiveIsOwned(o: nat, i: nat)
      requires Valid() && o in live && i < live[o]
      ensures IsOwned(o + i) && forall x: int :: IsOwned(x) <==> 0 <= x < data.Length
    {
      assert BlockIn(data[..], size, o, live[o]);
    }

    /** region_buffer_size */
    method BufferSize(o: nat) returns (z: nat)
      requires Valid() && o in live
      ensures z == live[o]
    {
      assert BlockIn(data[..], size, o, live[o]);
      assert data[o - SIZEOF_SIZE_T..o] == data[..][o - SIZEOF_SIZE_T..o];
      z := UnLe(data[o - SIZEOF_SIZE_T..o]);
    }

    /** _internal_is_last_allocated */
    method IsLast(o: nat) returns (last: bool)
      requires Valid() && o in live
      ensures last <==> o + live[o] == size
    {
      var z := BufferSize(o);
      last := size as int - z == o;
    }

    method Alloc(n: nat) returns (p: Ptr)
      requires Valid() && n < SIZE_T && NoWrap(capacity, size, n)
      modifies this, data
      ensures Valid()
      ensures p == if n > 0 && old(size) + AlignmentLoss(old(size)) + 8 + n <= capacity
                   then At(old(size) + AlignmentLoss(old(size)) + SIZEOF_SIZE_T) else Null
      ensures p.Null? ==> size == old(size) && live == old(live) && data[..] == old(data[..])
      ensures p.At? ==> size == p.offset + n && p.offset !in old(live) && live == old(live)[p.offset := n]
      ensures p.At? ==> SIZEOF_SIZE_T <= p.offset && Unwritten(old(data[..]), data[..], p.offset - SIZEOF_SIZE_T)
      ensures Kept(old(data[..]), data[..], old(live), {})
    {
      KeptSame(data[..], size, live);
      AdmitsExactly(capacity, size, n);
      if n == 0 {
        return Null;
      }
      var requested := Plus(n, SIZEOF_SIZE_T);
      var inc := AlignmentLoss(size);
      if capacity - size < Plus(requested, inc) {
        return Null;
      }
      var buffer := size + inc;
      PutHeader(buffer, n);
      size := size + requested + inc;
      live := live[buffer + SIZEOF_SIZE_T := n];
      return At(buffer + SIZEOF_SIZE_T);
    }

    /** The header of a new block at offset `buffer`, above all others. */
    method PutHeader(buffer: nat, n: nat)
      requires Valid() && size <= buffer && 0 < n < SIZE_T && buffer + SIZEOF_SIZE_T + n <= capacity
      requires buffer % MAX_ALIGNMENT == 0
      modifies data
      ensures buffer + SIZEOF_SIZE_T !in live
      ensures Blocks(data[..], buffer + SIZEOF_SIZE_T + n, live[buffer + SIZEOF_SIZE_T := n])
      ensures Unwritten(old(data[..]), data[..], buffer) && Kept(old(data[..]), data[..], live, {})
    {
      ghost var was := data[..];
      var header := SizeBytes(n);
      WriteBytes(buffer, header);
      NewBlock(was, data[..], size, live, buffer + SIZEOF_SIZE_T, n, header);
    }

    /** A store of consecutive bytes. */
    method WriteBytes(at: nat, bytes: seq<Byte>)
      requires at + |bytes| <= data.Length
      modifies data
      ensures Written(old(data[..]), data[..], at, bytes)
    {
      forall i | 0 <= i < |bytes| { data[at + i] := bytes[i]; }
    }

    /** A client's write inside the payload of a live block. */
    method Store(o: nat, at: nat, bytes: seq<Byte>)
      requires Valid() && o in live && at + |bytes| <= live[o]
      modifies data
      ensures Valid()
      ensures Written(old(data[..]), data[..], o + at, bytes)
      ensures Kept(old(data[..]), data[..], live, {o})
    {
      ghost var was := data[..];
      assert BlockIn(was, size, o, live[o]);
      WriteBytes(o + at, bytes);
      StoreKeeps(was, data[..], size, live, o, at, bytes);
    }

    /** region_t_free: only the last block gives its bytes back. */
    method Free(o: nat)
      requires Valid() && o in live
      modifies this
      ensures Valid() && live == old(live) - {o}
      ensures size == if o + old(live)[o] == old(size) then o - SIZEOF_SIZE_T else old(size)
      ensures SIZEOF_SIZE_T <= o
    {
      assert BlockIn(data[..], size, o, live[o]);
      var last := IsLast(o);
      ForgetBlock(data[..], size, live, o);
      if last {
        var bufferSize := BufferSize(o);
        size := size - (bufferSize + SIZEOF_SIZE_T);
      }
      live := live - {o};
    }

    /**
     region_remap. `bytes_left` is a uint32_t there: what is left above o, modulo 2^32. Below 2^32, the last block
     keeps its place exactly when the region has room for its new size.
     */
    method Remap(p: Ptr, n: nat) returns (q: Ptr)
      requires Valid() && n < SIZE_T && (p.At? ==> p.offset in live)
      requires p.Null? || (n > live[p.offset] && !GrowsInPlace(capacity, size, p.offset, live[p.offset], n)) ==>
        NoWrap(capacity, size, n)
      modifies this, data
      ensures Valid()
      ensures p.Null? ==>
        (q.Null? ==> live == old(live)) && (q.At? ==> q.offset !in old(live) && live == old(live)[q.offset := n])
      ensures p.Null? ==> (q.At? <==> n > 0 && old(size) + AlignmentLoss(old(size)) + 8 + n <= capacity)
      ensures p.At? && n <= old(live)[p.offset] ==> q == p && live == old(live) && data[..] == old(data[..])
      ensures p.At? && n > old(live)[p.offset] && q.At? ==>
          Moved(old(data[..]), old(live), data[..], live, p.offset, q.offset, n)
      ensures p.At? && n > old(live)[p.offset] ==>
        (q == p <==> p.offset + old(live)[p.offset] == old(size) && (capacity - p.offset) % 0x1_0000_0000 >= n)
      ensures p.At? && n > old(live)[p.offset] && capacity - p.offset < 0x1_0000_0000 ==>
        (q == p <==> p.offset + old(live)[p.offset] == old(size) && p.offset + n <= capacity)
      ensures p.At? && n > old(live)[p.offset] ==>
        (q.Null? <==> q != p && old(size) + AlignmentLoss(old(size)) + 8 + n > capacity)
      ensures p.At? && n > old(live)[p.offset] && q.At? ==> size == q.offset + n
      ensures q.Null? ==> live == old(live) && size == old(size) && data[..] == old(data[..])
      ensures Kept(old(data[..]), data[..], old(live), if p.At? then {p.offset} else {})
    {
      if p.Null? {
        q := Alloc(n);
        return;
      }
      KeptSame(data[..], size, live);
      assert BlockIn(data[..], size, p.offset, live[p.offset]);
      var oldSize := BufferSize(p.offset);
      if oldSize >= n {
        return p;
      }
      GrowsInPlaceExactly(capacity, size, p.offset, oldSize, n);
      q := Grow(p.offset, oldSize, n);
    }

    /** The rest of remap, for a block that is too small. */
    method Grow(o: nat, oldSize: nat, n: nat) returns (q: Ptr)
      requires Valid() && o in live && live[o] == oldSize < n < SIZE_T
      requires GrowsInPlace(capacity, size, o, oldSize, n) || NoWrap(capacity, size, n)
      modifies this, data
      ensures Valid()
      ensures q.At? ==> Moved(old(data[..]), old(live), data[..], live, o, q.offset, n)
      ensures q == At(o) <==> GrowsInPlace(capacity, old(size), o, oldSize, n)
      ensures q.Null? <==> q != At(o) && old(size) + AlignmentLoss(old(size)) + 8 + n > capacity
      ensures q.At? ==> size == q.offset + n
      ensures q.Null? ==> live == old(live) && size == old(size) && data[..] == old(data[..])
      ensures Kept(old(data[..]), data[..], old(live), {o})
    {
      var bytesLeft := (capacity - size + oldSize) % UINT32_RANGE;
      var last := IsLast(o);
      if last && bytesLeft >= n {
        RoomAbove(capacity, size, o, oldSize, n);
        Regrow(o, n);
        return At(o);
      }
      q := Relocate(o, oldSize, n);
    }

    /** A new block, and the old one copied into it. The old one is no longer live but gives nothing back. */
    method Relocate(o: nat, oldSize: nat, n: nat) returns (q: Ptr)
      requires Valid() && o in live && live[o] == oldSize < n < SIZE_T && NoWrap(capacity, size, n)
      modifies this, data
      ensures Valid()
      ensures q.At? ==> Moved(old(data[..]), old(live), data[..], live, o, q.offset, n)
      ensures q.Null? <==> old(size) + AlignmentLoss(old(size)) + 8 + n > capacity
      ensures q.At? ==> q != At(o) && size == q.offset + n
      ensures q.Null? ==> live == old(live) && size == old(size) && data[..] == old(data[..])
      ensures Kept(old(data[..]), data[..], old(live), {o})
    {
      ghost var was, wasLive := data[..], live;
      assert BlockIn(was, size, o, live[o]);
      q := Alloc(n);
      if q.At? {
        ghost var mid := data[..];
        CopyBytes(o, q.offset, oldSize);
        Relocated(was, wasLive, mid, data[..], size, live, o, q.offset, n);
        live := live - {o};
      }
    }

    /** The last block, freed and allocated again with more bytes. */
    method Regrow(o: nat, n: nat)
      requires Valid() && o in live && o + live[o] == size && live[o] < n && o + n <= capacity
      modifies this, data
      ensures Valid()
      ensures Moved(old(data[..]), old(live), data[..], live, o, o, n) && size == o + n
      ensures Kept(old(data[..]), data[..], old(live), {o})
    {
      ghost var was, wasLive := data[..], live;
      assert BlockIn(was, size, o, live[o]);
      Free(o);
      assert data[..] == was;
      Aligned(capacity, o - SIZEOF_SIZE_T, n);
      var q := Alloc(n);
      Regrown(was, wasLive, data[..], o, n);
    }

    /** memcpy between two places of the buffer. */
    method CopyBytes(src: nat, dst: nat, len: nat)
      requires src + len <= dst && dst + len <= data.Length
      modifies data
      ensures Written(old(data[..]), data[..], dst, old(data[..])[src..src + len])
    {
      ghost var was := data[..];
      var i := 0;
      while i < len
        invariant i <= len
        invariant Written(was, data[..], dst, was[src..src + i])
      {
        data[dst + i] := data[src + i];
        i := i + 1;
      }
    }
  }

  /** What the in-place branch tests suffices for the larger block, although bytes_left is truncated. */
  lemma RoomAbove(capacity: nat, size: nat, o: nat, z: nat, n: nat)
    requires size <= capacity && GrowsInPlace(capacity, size, o, z, n)
    ensures o + n <= capacity
  {
    var left := capacity - size + z;
    assert left % UINT32_RANGE <= left;
  }

  lemma Aligned(capacity: nat, x: nat, n: nat)
    requires x % MAX_ALIGNMENT == 0 && x + SIZEOF_SIZE_T + n <= capacity < SIZE_T
    ensures AlignmentLoss(x) == 0 && Admits(capacity, x, n) && NoWrap(capacity, x, n)
  {}

  lemma Regrown(was: seq<Byte>, wasLive: map<nat, nat>, now: seq<Byte>, o: nat, n: nat)
    requires o in wasLive && SIZEOF_SIZE_T <= o && o + wasLive[o] <= |was|
    requires Unwritten(was, now, o - SIZEOF_SIZE_T) && Kept(was, now, wasLive - {o}, {})
    ensures Moved(was, wasLive, now, (wasLive - {o})[o := n], o, o, n) && Kept(was, now, wasLive, {o})
  {
    forall p | p in wasLive && p != o ensures SamePayload(was, now, p, wasLive[p]) {
      assert SamePayload(was, now, p, (wasLive - {o})[p]);
    }
  }

  /** The new block, the copy, and the old block no longer live. */
  lemma Relocated(was: seq<Byte>, wasLive: map<nat, nat>, mid: seq<Byte>, now: seq<Byte>,
                  size: nat, live: map<nat, nat>, o: nat, q: nat, n: nat)
    requires Blocks(mid, size, live) && o in wasLive && q !in wasLive && live == wasLive[q := n]
    requires wasLive[o] < n && o + wasLive[o] + SIZEOF_SIZE_T <= q && SIZEOF_SIZE_T <= o
    requires |was| == |mid| && Unwritten(was, mid, q - SIZEOF_SIZE_T) && Kept(was, mid, wasLive, {})
    requires o + wasLive[o] <= |mid| && Written(mid, now, q, mid[o..o + wasLive[o]])
    ensures Blocks(now, size, live - {o})
    ensures Moved(was, wasLive, now, live - {o}, o, q, n) && Kept(was, now, wasLive, {o})
  {
    var bytes := mid[o..o + wasLive[o]];
    assert BlockIn(mid, size, q, n) by { assert live[q] == n; }
    StoreKeeps(mid, now, size, live, q, 0, bytes);
    ForgetBlock(now, size, live, o);
    assert live - {o} == (wasLive - {o})[q := n];
    assert now[q..q + wasLive[o]] == bytes == was[o..o + wasLive[o]] by {
      assert SamePayload(was, mid, o, wasLive[o]);
      WrittenThere(mid, now, q, bytes);
    }
    KeptTwice(was, mid, now, wasLive, live, {}, {q});
  }

  lemma WrittenThere(was: seq<Byte>, now: seq<Byte>, at: nat, bytes: seq<Byte>)
    requires Written(was, now, at, bytes) && at + |bytes| <= |now|
    ensures now[at..at + |bytes|] == bytes
  {}

  /** All blocks but those of `except` are still live, with the same size. */
  ghost predicate StillLive(wasLive: map<nat, nat>, live: map<nat, nat>, except: set<nat>) {
    forall p :: p in wasLive && p !in except ==> p in live && live[p] == wasLive[p]
  }

  lemma KeptTwice(was: seq<Byte>, mid: seq<Byte>, now: seq<Byte>, wasLive: map<nat, nat>, live: map<nat, nat>,
                  except: set<nat>, also: set<nat>)
    requires Kept(was, mid, wasLive, except) && Kept(mid, now, live, also)
    requires (forall q :: q in also && q in wasLive ==> q in except) && StillLive(wasLive, live, except)
    ensures Kept(was, now, wasLive, except)
  {
    forall p | p in wasLive && p !in except ensures SamePayload(was, now, p, wasLive[p]) {
      assert SamePayload(mid, now, p, live[p]) && SamePayload(was, mid, p, wasLive[p]);
    }
  }

  /** The in-place branch of remap. */
  predicate GrowsInPlace(capacity: nat, size: nat, o: nat, z: nat, n: nat)
    requires size <= capacity
  {
    o + z == size && z < n && (capacity - size + z) % UINT32_RANGE >= n
  }

  /** The truncated test, told from what is above o. */
  lemma GrowsInPlaceExactly(capacity: nat, size: nat, o: nat, z: nat, n: nat)
    requires size <= capacity && o + z <= size && z < n
    ensures GrowsInPlace(capacity, size, o, z, n) <==> o + z == size && (capacity - o) % 0x1_0000_0000 >= n
    ensures capacity - o < 0x1_0000_0000 ==> (capacity - o) % 0x1_0000_0000 == capacity - o
  {}

  /** Block o has become block q of n bytes, which begins with o's bytes. */
  ghost predicate Moved(was: seq<Byte>, wasLive: map<nat, nat>, now: seq<Byte>, live: map<nat, nat>, o: nat, q: nat,
                        n: nat) {
    && o in wasLive && live == (wasLive - {o})[q := n] && (q == o || q !in wasLive)
    && o + wasLive[o] <= |was| && q + wasLive[o] <= |now|
    && now[q..q + wasLive[o]] == was[o..o + wasLive[o]]
  }

  lemma KeptSame(data: seq<Byte>, size: nat, live: map<nat, nat>)
    requires Blocks(data, size, live)
    ensures Kept(data, data, live, {})
  {
    forall p | p in live ensures SamePayload(data, data, p, live[p]) { assert BlockIn(data, size, p, live[p]); }
  }

  lemma NewBlock(was: seq<Byte>, now: seq<Byte>, size: nat, live: map<nat, nat>, o: nat, n: nat, header: seq<Byte>)
    requires Blocks(was, size, live) && size + SIZEOF_SIZE_T <= o && 0 < n && o + n <= |was|
    requires (o - SIZEOF_SIZE_T) % MAX_ALIGNMENT == 0
    requires |header| == SIZEOF_SIZE_T && UnLe(header) == n && Written(was, now, o - SIZEOF_SIZE_T, header)
    ensures o !in live && Blocks(now, o + n, live[o := n])
    ensures Unwritten(was, now, o - SIZEOF_SIZE_T) && Kept(was, now, live, {})
  {
    assert now[o - SIZEOF_SIZE_T..o] == header;
    forall p | p in live
      ensures p != o && BlockIn(now, o + n, p, live[p]) && Apart(o, n, p, live[p]) && SamePayload(was, now, p, live[p])
    {
      assert BlockIn(was, size, p, live[p]);
      SameHeader(was, now, p);
    }
  }

  /** A store inside a payload leaves all headers and all other payloads as they are. */
  lemma StoreKeeps(was: seq<Byte>, now: seq<Byte>, size: nat, live: map<nat, nat>, o: nat, at: nat, bytes: seq<Byte>)
    requires Blocks(was, size, live) && o in live && at + |bytes| <= live[o]
    requires Written(was, now, o + at, bytes)
    ensures Blocks(now, size, live) && Kept(was, now, live, {o})
  {
    assert BlockIn(was, size, o, live[o]);
    forall p | p in live
      ensures BlockIn(now, size, p, live[p])
      ensures p != o ==> SamePayload(was, now, p, live[p])
    {
      assert BlockIn(was, size, p, live[p]);
      if p != o { assert Apart(o, live[o], p, live[p]); }
      SameHeader(was, now, p);
    }
  }

  /** Without block o the others are still there, and below o's header if o was the last. */
  lemma ForgetBlock(data: seq<Byte>, size: nat, live: map<nat, nat>, o: nat)
    requires Blocks(data, size, live) && o in live
    ensures Blocks(data, size, live - {o})
    ensures o + live[o] == size ==> SIZEOF_SIZE_T <= o && Blocks(data, o - SIZEOF_SIZE_T, live - {o})
  {
    assert BlockIn(data, size, o, live[o]);
    forall p | p in live && p != o ensures o + live[o] == size ==> BlockIn(data, o - SIZEOF_SIZE_T, p, live[p]) {
      assert BlockIn(data, size, p, live[p]) && Apart(o, live[o], p, live[p]);
    }
  }
}
