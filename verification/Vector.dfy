/**
 The vector of includes/ty_alloc.h, whose elements lie one after the other in a block of a region. An element
 is its `es` bytes; the capacity counts elements.
 */
module Vector {
  import opened Arith
  import opened Bytes
  import opened Region

  /** The capacity after doubling up to `needed`. */
  function Grown(capacity: nat, needed: nat): nat
    requires capacity > 0
    decreases needed - capacity
  {
    if capacity < needed then Grown(capacity * 2, needed) else capacity
  }

  /** n * es, the bytes of n elements. */
  function Total(n: nat, es: nat): nat {
    if n == 0 then 0 else es + Total(n - 1, es)
  }

  lemma {:induction false} TotalIsProduct(n: nat, es: nat)
    ensures Total(n, es) == n * es
  {
    if n > 0 {
      TotalIsProduct(n - 1, es);
      assert n * es == (n - 1) * es + es;
    }
  }

  lemma {:induction false} TotalGrows(m: nat, n: nat, es: nat)
    requires m <= n && es > 0
    ensures Total(m, es) <= Total(n, es) && (m < n ==> Total(m, es) < Total(n, es))
  {
    if m < n { TotalGrows(m, n - 1, es); }
  }

  lemma {:induction false} TotalAdds(m: nat, n: nat, es: nat)
    ensures Total(m + n, es) == Total(m, es) + Total(n, es)
  {
    if n > 0 { TotalAdds(m, n - 1, es); }
  }

  function FirstCapacity(capacity: nat): nat {
    if capacity == 0 then 16 else capacity
  }

  /** The capacity to grow to is enough, less than twice what is needed, and a power of two times the old one. */
  lemma {:induction false} GrownEnough(capacity: nat, needed: nat)
    requires capacity > 0
    ensures capacity <= Grown(capacity, needed) && needed <= Grown(capacity, needed)
    ensures capacity < needed ==> Grown(capacity, needed) < 2 * needed
    ensures exists k: nat :: Grown(capacity, needed) == capacity * Pow2(k)
    decreases needed - capacity
  {
    if capacity < needed {
      GrownEnough(capacity * 2, needed);
      var k: nat :| Grown(capacity * 2, needed) == capacity * 2 * Pow2(k);
      MulAssoc(capacity, 2, Pow2(k));
      assert Pow2(k + 1) == 2 * Pow2(k);
    } else {
      assert capacity == capacity * Pow2(0);
    }
  }

  /** The elements one after the other. */
  function Flat(elems: seq<seq<Byte>>): seq<Byte> {
    if elems == [] then [] else elems[0] + Flat(elems[1..])
  }

  ghost predicate AllSized(elems: seq<seq<Byte>>, es: nat) {
    forall i :: 0 <= i < |elems| ==> |elems[i]| == es
  }

  lemma {:induction false} FlatLength(elems: seq<seq<Byte>>, es: nat)
    requires AllSized(elems, es)
    ensures |Flat(elems)| == Total(|elems|, es)
  {
    if elems != [] {
      FlatLength(elems[1..], es);
    }
  }

  lemma {:induction false} FlatAppend(x: seq<seq<Byte>>, y: seq<seq<Byte>>)
    ensures Flat(x + y) == Flat(x) + Flat(y)
  {
    if x == [] {
      assert x + y == y;
    } else {
      assert (x + y)[1..] == x[1..] + y;
      FlatAppend(x[1..], y);
    }
  }

  /** Element i is the es bytes at i * es. */
  lemma ElementAt(elems: seq<seq<Byte>>, es: nat, i: nat)
    requires AllSized(elems, es) && i < |elems|
    ensures 0 <= i * es <= (i + 1) * es <= |Flat(elems)| && Flat(elems)[i * es..(i + 1) * es] == elems[i]
  {
    assert elems == elems[..i] + ([elems[i]] + elems[i + 1..]);
    FlatAppend(elems[..i], [elems[i]] + elems[i + 1..]);
    FlatLength(elems[..i], es);
    TotalIsProduct(i, es);
    assert ([elems[i]] + elems[i + 1..])[1..] == elems[i + 1..];
    assert (i + 1) * es == i * es + es;
  }

  ghost predicate Starts(bytes: seq<Byte>, o: nat, prefix: seq<Byte>) {
    o + |prefix| <= |bytes| && bytes[o..o + |prefix|] == prefix
  }

  lemma StartsWithPart(bytes: seq<Byte>, o: nat, x: seq<Byte>, y: seq<Byte>)
    requires Starts(bytes, o, x + y)
    ensures Starts(bytes, o, x)
  {
    assert bytes[o..o + |x|] == bytes[o..o + |x + y|][..|x|];
  }

  lemma StoredBehind(was: seq<Byte>, now: seq<Byte>, o: nat, x: seq<Byte>, y: seq<Byte>)
    requires Starts(was, o, x) && Written(was, now, o + |x|, y) && o + |x| + |y| <= |was|
    ensures Starts(now, o, x + y)
  {
    var mid, end := o + |x|, o + |x| + |y|;
    assert now[o..mid] == was[o..mid];
    assert now[mid..end] == y;
    Glue(now, o, mid, end);
    assert o + |x + y| == end;
  }

  lemma Glue(bytes: seq<Byte>, a: nat, b: nat, c: nat)
    requires a <= b <= c <= |bytes|
    ensures bytes[a..c] == bytes[a..b] + bytes[b..c]
  {
    assert bytes[a..c] == bytes[a..b] + bytes[b..c];
  }

  lemma PartOfPart(bytes: seq<Byte>, o: nat, n: nat, a: nat, b: nat)
    requires a <= b <= n && o + n <= |bytes|
    ensures bytes[o..o + n][a..b] == bytes[o + a..o + b]
  {
    var part := bytes[o..o + n];
    assert |part| == n && forall i :: 0 <= i < n ==> part[i] == bytes[o + i];
    assert |part[a..b]| == |bytes[o + a..o + b]|;
    assert forall i :: 0 <= i < b - a ==> part[a..b][i] == bytes[o + a..o + b][i];
  }

  /** The vector's block is live, of the size of its capacity, and begins with its elements. */
  ghost predicate Holds(bytes: seq<Byte>, live: map<nat, nat>, data: Ptr, capacity: nat, es: nat,
                        elems: seq<seq<Byte>>) {
    && |elems| <= capacity && AllSized(elems, es)
    && match data
       case Null => capacity == 0
       case At(o) => capacity > 0 && o in live && live[o] == Total(capacity, es) && Starts(bytes, o, Flat(elems))
  }

  function BlockOf(data: Ptr): set<nat> {
    if data.At? then {data.offset} else {}
  }

  /** Whether the region has n bytes for the block at `data`, of z bytes: in place, or in a new block. */
  ghost predicate CanGrow(capacity: nat, size: nat, data: Ptr, z: nat, n: nat) {
    || (data.At? && data.offset + z == size <= capacity && (capacity - data.offset) % 0x1_0000_0000 >= n)
    || size + AlignmentLoss(size) + 8 + n <= capacity
  }

  predicate InPlace(capacity: nat, size: nat, data: Ptr, z: nat, n: nat)
    requires size <= capacity
  {
    data.At? && GrowsInPlace(capacity, size, data.offset, z, n)
  }

  class Vector {
    const region: Region
    const es: nat
    var size: nat
    var data: Ptr
    var capacity: nat
    ghost var contents: seq<seq<Byte>>

    ghost predicate Valid()
      reads this, region, region.data
    {
      && region.Valid() && es > 0 && size == |contents|
      && Holds(region.data[..], region.live, data, capacity, es, contents)
    }

    constructor (region: Region, es: nat)
      requires region.Valid() && es > 0
      ensures Valid() && contents == [] && data == Null && this.region == region && this.es == es
    {
      this.region := region;
      this.es := es;
      size := 0;
      data := Null;
      capacity := 0;
      contents := [];
    }

    /** The bytes of the next capacity are a size_t, which the region can grow the block to or add up. */
    ghost predicate Countable(add: nat)
      requires Valid()
      reads this, region, region.data
    {
      size + add > capacity ==> Growable(Grown(FirstCapacity(capacity), size + add))
    }

    ghost predicate Growable(newCapacity: nat)
      requires Valid()
      reads this, region, region.data
    {
      var n := Total(newCapacity, es);
      n < SIZE_T && (InPlace(region.capacity, region.size, data, Total(capacity, es), n) ||
          NoWrap(region.capacity, region.size, n))
    }

    method Ensure(add: nat) returns (ok: bool)
      requires Valid() && Countable(add)
      modifies this`data, this`capacity, region, region.data
      ensures Valid() && (ok ==> size + add <= capacity)
      ensures ok <==> (size + add <= old(capacity) || CanGrow(region.capacity, old(region.size), old(data),
                         Total(old(capacity), es), Total(Grown(FirstCapacity(old(capacity)), size + add), es)))
      ensures ok && old(capacity) == 0 && 0 < size + add <= 16 ==> capacity == 16
      ensures capacity == if ok && size + add > old(capacity) then Grown(FirstCapacity(old(capacity)), size + add)
          else old(capacity)
      ensures !ok ==> data == old(data) && region.live == old(region.live)
      ensures !ok ==> region.size == old(region.size) && region.data[..] == old(region.data[..])
      ensures Kept(old(region.data[..]), region.data[..], old(region.live), BlockOf(old(data)))
      ensures StillLive(old(region.live), region.live, BlockOf(old(data)))
      ensures data == old(data) || (data.At? && data.offset !in old(region.live))
    {
      var needed := size + add;
      if needed <= capacity {
        KeptSame(region.data[..], region.size, region.live);
        return true;
      }
      var newCapacity := if capacity == 0 then 16 else capacity;
      while newCapacity < needed
        invariant newCapacity >= FirstCapacity(capacity) &&
            Grown(newCapacity, needed) == Grown(FirstCapacity(capacity), needed)
        decreases needed - newCapacity
      {
        newCapacity := newCapacity * 2;
      }
      ok := Move(newCapacity);
    }

    method BytesOf(n: nat) returns (bytes: nat)
      ensures bytes == Total(n, es)
    {
      TotalIsProduct(n, es);
      bytes := n * es;
    }

    /** The call of remap. */
    method Move(newCapacity: nat) returns (ok: bool)
      requires Valid() && newCapacity > capacity && Growable(newCapacity)
      modifies this`data, this`capacity, region, region.data
      ensures Valid()
      ensures ok <==> CanGrow(region.capacity, old(region.size), old(data), Total(old(capacity), es),
          Total(newCapacity, es))
      ensures capacity == if ok then newCapacity else old(capacity)
      ensures !ok ==> data == old(data) && region.live == old(region.live)
      ensures !ok ==> region.size == old(region.size) && region.data[..] == old(region.data[..])
      ensures Kept(old(region.data[..]), region.data[..], old(region.live), BlockOf(old(data)))
      ensures StillLive(old(region.live), region.live, BlockOf(old(data)))
      ensures data == old(data) || (data.At? && data.offset !in old(region.live))
    {
      ghost var was, wasLive := region.data[..], region.live;
      TotalGrows(capacity, newCapacity, es);
      var newSize := BytesOf(newCapacity);
      var newBuffer := region.Remap(data, newSize);
      if newBuffer.Null? {
        return false;
      }
      HoldsMoved(was, wasLive, region.data[..], region.size, region.live, data, newBuffer, capacity, newCapacity, es,
          contents);
      data := newBuffer;
      capacity := newCapacity;
      return true;
    }

    method PushN(elems: seq<seq<Byte>>) returns (ok: bool)
      requires Valid() && AllSized(elems, es) && Countable(|elems|)
      modifies this, region, region.data
      ensures Valid() && contents == if ok then old(contents) + elems else old(contents)
      ensures ok <==> (old(size) + |elems| <= old(capacity) || CanGrow(region.capacity, old(region.size), old(data),
                         Total(old(capacity), es), Total(Grown(FirstCapacity(old(capacity)), old(size) + |elems|), es)))
      ensures !ok ==> data == old(data) && capacity == old(capacity)
      ensures !ok ==> region.live == old(region.live)
      ensures !ok ==> region.size == old(region.size) && region.data[..] == old(region.data[..])
      ensures Kept(old(region.data[..]), region.data[..], old(region.live), BlockOf(old(data)))
      ensures StillLive(old(region.live), region.live, BlockOf(old(data)))
      ensures data == old(data) || (data.At? && data.offset !in old(region.live))
    {
      ok := Ensure(|elems|);
      if ok {
        ghost var mid := region.data[..];
        Append(elems);
        KeptTwice(old(region.data[..]), mid, region.data[..], old(region.live), region.live, BlockOf(old(data)),
            BlockOf(data));
      }
    }

    /** memcpy behind the last element. */
    method Append(elems: seq<seq<Byte>>)
      requires Valid() && AllSized(elems, es) && size + |elems| <= capacity
      modifies this`size, this`contents, region.data
      ensures Valid() && contents == old(contents) + elems
      ensures Kept(old(region.data[..]), region.data[..], region.live, BlockOf(data))
    {
      ghost var was := region.data[..];
      if data.At? {
        var at := BytesOf(size);
        FlatLength(contents, es);
        FlatLength(elems, es);
        TotalAdds(size, |elems|, es);
        TotalGrows(size + |elems|, capacity, es);
        assert BlockIn(was, region.size, data.offset, region.live[data.offset]);
        region.Store(data.offset, at, Flat(elems));
        HoldsStored(was, region.data[..], region.live, data, capacity, es, contents, elems);
      } else {
        assert elems == [] && contents + elems == contents;
        KeptSame(was, region.size, region.live);
      }
      size := size + |elems|;
      contents := contents + elems;
    }

    method Push(val: seq<Byte>) returns (ok: bool)
      requires Valid() && |val| == es && Countable(1)
      modifies this, region, region.data
      ensures Valid() && contents == if ok then old(contents) + [val] else old(contents)
      ensures ok <==> (old(size) < old(capacity) || CanGrow(region.capacity, old(region.size), old(data),
                         Total(old(capacity), es), Total(Grown(FirstCapacity(old(capacity)), old(size) + 1), es)))
      ensures !ok ==> data == old(data) && capacity == old(capacity)
      ensures !ok ==> region.live == old(region.live)
      ensures !ok ==> region.size == old(region.size) && region.data[..] == old(region.data[..])
      ensures Kept(old(region.data[..]), region.data[..], old(region.live), BlockOf(old(data)))
      ensures StillLive(old(region.live), region.live, BlockOf(old(data)))
      ensures data == old(data) || (data.At? && data.offset !in old(region.live))
    {
      ok := Ensure(1);
      if ok {
        ghost var mid := region.data[..];
        Append([val]);
        KeptTwice(old(region.data[..]), mid, region.data[..], old(region.live), region.live, BlockOf(old(data)),
            BlockOf(data));
      }
    }

    method Pop() returns (ok: bool)
      requires Valid()
      modifies this`size, this`contents
      ensures Valid() && (ok <==> old(contents) != [])
      ensures contents == if ok then old(contents)[..old(size) - 1] else []
    {
      if size == 0 {
        return false;
      }
      HoldsFewer(region.data[..], region.live, data, capacity, es, contents);
      size := size - 1;
      contents := contents[..size];
      return true;
    }
  }

  /** What remap keeps of a block is enough for the vector in it. */
  lemma HoldsMoved(was: seq<Byte>, wasLive: map<nat, nat>, now: seq<Byte>, size: nat, live: map<nat, nat>, data: Ptr,
                   moved: Ptr,
                   capacity: nat, newCapacity: nat, es: nat, elems: seq<seq<Byte>>)
    requires es > 0 && Holds(was, wasLive, data, capacity, es, elems) && capacity < newCapacity && moved.At?
    requires Blocks(now, size, live)
    requires data.Null? ==> live == wasLive[moved.offset := Total(newCapacity, es)] && moved.offset !in wasLive
    requires data.At? ==> Moved(was, wasLive, now, live, data.offset, moved.offset, Total(newCapacity, es))
    ensures Holds(now, live, moved, newCapacity, es, elems)
    ensures StillLive(wasLive, live, BlockOf(data))
  {
    if data.At? {
      FlatLength(elems, es);
      TotalGrows(|elems|, capacity, es);
      var z := |Flat(elems)|;
      assert now[moved.offset..moved.offset + z] == now[moved.offset..moved.offset + wasLive[data.offset]][..z];
      assert was[data.offset..data.offset + z] == was[data.offset..data.offset + wasLive[data.offset]][..z];
    } else {
      assert BlockIn(now, size, moved.offset, live[moved.offset]) && elems == [];
    }
  }

  lemma HoldsStored(was: seq<Byte>, now: seq<Byte>, live: map<nat, nat>, data: Ptr, capacity: nat, es: nat,
                    elems: seq<seq<Byte>>, more: seq<seq<Byte>>)
    requires Holds(was, live, data, capacity, es, elems) && AllSized(more, es) && |elems| + |more| <= capacity &&
        data.At?
    requires Written(was, now, data.offset + |Flat(elems)|, Flat(more))
    requires data.offset + |Flat(elems)| + |Flat(more)| <= |was|
    ensures Holds(now, live, data, capacity, es, elems + more)
  {
    StoredBehind(was, now, data.offset, Flat(elems), Flat(more));
    FlatAppend(elems, more);
  }

  lemma HoldsFewer(bytes: seq<Byte>, live: map<nat, nat>, data: Ptr, capacity: nat, es: nat, elems: seq<seq<Byte>>)
    requires Holds(bytes, live, data, capacity, es, elems) && elems != []
    ensures Holds(bytes, live, data, capacity, es, elems[..|elems| - 1])
  {
    var n := |elems| - 1;
    assert elems == elems[..n] + elems[n..];
    FlatAppend(elems[..n], elems[n..]);
    StartsWithPart(bytes, data.offset, Flat(elems[..n]), Flat(elems[n..]));
  }

  /** Element i of a vector is the es bytes at data + i * es. */
  lemma ElementInMemory(bytes: seq<Byte>, live: map<nat, nat>, data: Ptr, capacity: nat, es: nat,
                        elems: seq<seq<Byte>>, i: nat)
    requires Holds(bytes, live, data, capacity, es, elems) && i < |elems|
    ensures data.At? && 0 <= i * es <= (i + 1) * es <= |bytes| - data.offset
    ensures bytes[data.offset + i * es..data.offset + (i + 1) * es] == elems[i]
  {
    ElementAt(elems, es, i);
    var o := data.offset;
    var a, b := i * es, (i + 1) * es;
    PartOfPart(bytes, o, |Flat(elems)|, a, b);
  }

  /** What the operations promise of the blocks they do not own keeps another vector of the region as it is. */
  lemma OtherVectorKept(was: seq<Byte>, wasLive: map<nat, nat>, now: seq<Byte>, live: map<nat, nat>, size: nat,
                        except: set<nat>,
                        data: Ptr, capacity: nat, es: nat, elems: seq<seq<Byte>>)
    requires Holds(was, wasLive, data, capacity, es, elems) && es > 0 && BlockOf(data) !! except
    requires Kept(was, now, wasLive, except) && StillLive(wasLive, live, except)
    ensures Holds(now, live, data, capacity, es, elems)
  {
    if data.At? {
      var o, z := data.offset, |Flat(elems)|;
      assert SamePayload(was, now, o, wasLive[o]);
      FlatLength(elems, es);
      TotalGrows(|elems|, capacity, es);
      assert now[o..o + z] == now[o..o + wasLive[o]][..z];
      assert was[o..o + z] == was[o..o + wasLive[o]][..z];
    }
  }
}
