/**
 Runs of a client of the region (src/ty_alloc.c): it allocates, remaps, frees and stores by handle, and relies
 on its blocks holding what it stored.
 */
module RegionRuns {
  import opened Bytes
  import opened Region

  /** Handles count the allocations; a handle is NULL when its allocation failed or its block was freed. */
  datatype Op =
    | AllocOp(n: nat)
    | RemapOp(h: nat, n: nat)
    | FreeOp(h: nat)
    | StoreOp(h: nat, at: nat, bytes: seq<Byte>)

  datatype Cell = Unknown | Known(b: Byte)

  /** What a client knows of a block, without looking at the region. */
  datatype Block = NoBlock | Held(content: seq<Cell>)

  function Blank(n: nat): seq<Cell> {
    seq(n, _ => Unknown)
  }

  function Stored(content: seq<Cell>, at: nat, bytes: seq<Byte>): seq<Cell>
    requires at + |bytes| <= |content|
  {
    seq(|content|, i requires 0 <= i < |content| => if at <= i < at + |bytes| then Known(bytes[i - at]) else content[i])
  }

  /** A block that is made larger keeps its bytes; one that is large enough stays as it is. */
  function Grown(content: seq<Cell>, n: nat): seq<Cell> {
    if n <= |content| then content else content + Blank(n - |content|)
  }

  /** What an operation makes of the blocks; `ok` says whether an allocation or a remap gave a pointer. */
  function After(blocks: seq<Block>, op: Op, ok: bool): seq<Block> {
    match op
    case AllocOp(n) => blocks + [if ok then Held(Blank(n)) else NoBlock]
    case RemapOp(h, n) =>
      if h >= |blocks| || !ok then blocks
      else if blocks[h].NoBlock? then blocks[h := Held(Blank(n))]
      else blocks[h := Held(Grown(blocks[h].content, n))]
    case FreeOp(h) => if h < |blocks| then blocks[h := NoBlock] else blocks
    case StoreOp(h, at, bytes) =>
      if h < |blocks| && blocks[h].Held? && at + |bytes| <= |blocks[h].content|
      then blocks[h := Held(Stored(blocks[h].content, at, bytes))] else blocks
  }

  function AfterAll(ops: seq<Op>, oks: seq<bool>): seq<Block>
    requires |oks| == |ops|
  {
    if ops == [] then []
    else
      var n := |ops| - 1;
      After(AfterAll(ops[..n], oks[..n]), ops[n], oks[n])
  }

  ghost predicate Matches(data: seq<Byte>, o: nat, content: seq<Cell>) {
    o + |content| <= |data| && forall i :: 0 <= i < |content| && content[i].Known? ==> data[o + i] == content[i].b
  }

  /** The block of a handle is live, of its size, and holds what its client stored. */
  ghost predicate InRegion(data: seq<Byte>, live: map<nat, nat>, p: Ptr, b: Block) {
    match b
    case NoBlock => p.Null?
    case Held(content) => p.At? && p.offset in live && live[p.offset] == |content| && Matches(data, p.offset, content)
  }

  ghost predicate Consistent(data: seq<Byte>, live: map<nat, nat>, ptrs: seq<Ptr>, blocks: seq<Block>) {
    && |ptrs| == |blocks|
    && (forall h {:trigger InRegion(data, live, ptrs[h], blocks[h])} :: 0 <= h < |ptrs| ==>
        InRegion(data, live, ptrs[h], blocks[h]))
    && (forall h, g :: 0 <= h < g < |ptrs| && ptrs[h].At? ==> ptrs[h] != ptrs[g])
  }

  /** The sizes that a run asks for leave room for header and padding in a size_t. */
  predicate Sized(op: Op) {
    match op
    case AllocOp(n) => n + SIZEOF_SIZE_T + MAX_ALIGNMENT <= SIZE_T
    case RemapOp(_, n) => n + SIZEOF_SIZE_T + MAX_ALIGNMENT <= SIZE_T
    case _ => true
  }

  /**
   Every run keeps the region valid, so its live blocks lie apart below its end with their sizes in their headers,
   and every block holds what the client stored in it and never freed, through all moves.
   */
  method Replay(buf: array<Byte>, ops: seq<Op>) returns (r: Region, ptrs: seq<Ptr>, oks: seq<bool>)
    requires buf.Length < SIZE_T && forall k :: 0 <= k < |ops| ==> Sized(ops[k])
    modifies buf
    ensures r.Valid() && r.data == buf && |oks| == |ops|
    ensures Consistent(r.data[..], r.live, ptrs, AfterAll(ops, oks))
  {
    r := new Region(buf);
    ptrs, oks := [], [];
    for k := 0 to |ops|
      invariant r.Valid() && r.data == buf && fresh(r) && |oks| == k
      invariant Consistent(r.data[..], r.live, ptrs, AfterAll(ops[..k], oks))
    {
      ghost var blocks := AfterAll(ops[..k], oks);
      var ok;
      ptrs, ok := Perform(r, ops[k], ptrs, blocks);
      AfterNext(ops, oks, k, ok);
      oks := oks + [ok];
    }
    assert ops[..|ops|] == ops;
  }

  lemma AfterNext(ops: seq<Op>, oks: seq<bool>, k: nat, ok: bool)
    requires k < |ops| && |oks| == k
    ensures AfterAll(ops[..k + 1], oks + [ok]) == After(AfterAll(ops[..k], oks), ops[k], ok)
  {
    assert ops[..k + 1][..k] == ops[..k] && (oks + [ok])[..k] == oks;
  }

  method Perform(r: Region, op: Op, ptrs: seq<Ptr>, ghost blocks: seq<Block>) returns (ptrs': seq<Ptr>, ok: bool)
    requires r.Valid() && Sized(op) && Consistent(r.data[..], r.live, ptrs, blocks)
    modifies r, r.data
    ensures r.Valid() && Consistent(r.data[..], r.live, ptrs', After(blocks, op, ok))
  {
    ptrs', ok := ptrs, true;
    match op
    case AllocOp(n) =>
      var p := Make(r, n, ptrs, blocks);
      ptrs', ok := ptrs + [p], p.At?;
    case RemapOp(h, n) =>
      if h < |ptrs| {
        assert InRegion(r.data[..], r.live, ptrs[h], blocks[h]);
        ptrs', ok := Resize(r, h, n, ptrs, blocks);
      }
    case FreeOp(h) =>
      if h < |ptrs| {
        assert InRegion(r.data[..], r.live, ptrs[h], blocks[h]);
        if ptrs[h].At? { Drop(r, h, ptrs, blocks); }
        ptrs' := ptrs[h := Null];
      }
    case StoreOp(h, at, bytes) =>
      if h < |ptrs| {
        assert InRegion(r.data[..], r.live, ptrs[h], blocks[h]);
        if ptrs[h].At? { Fill(r, h, at, bytes, ptrs, blocks); }
      }
  }

  /** What every operation on one block leaves of the handles of the others. */
  lemma OthersKept(was: seq<Byte>, wasLive: map<nat, nat>, now: seq<Byte>, live: map<nat, nat>, except: set<nat>,
                   p: Ptr, b: Block)
    requires InRegion(was, wasLive, p, b) && Kept(was, now, wasLive, except) && StillLive(wasLive, live, except)
    requires p.At? ==> p.offset !in except
    ensures InRegion(now, live, p, b)
  {
    if b.Held? {
      var o := p.offset;
      assert SamePayload(was, now, o, wasLive[o]);
      assert |now| == |was|;
      forall i | 0 <= i < |b.content| && b.content[i].Known? ensures now[o + i] == b.content[i].b {
        assert now[o..o + wasLive[o]][i] == was[o..o + wasLive[o]][i];
      }
    }
  }

  lemma AllOthersKept(was: seq<Byte>, wasLive: map<nat, nat>, now: seq<Byte>, live: map<nat, nat>, ptrs: seq<Ptr>,
                      blocks: seq<Block>,
                      h: nat, p: Ptr, b: Block)
    requires Consistent(was, wasLive, ptrs, blocks) && h < |ptrs|
    requires var except := if ptrs[h].At? then {ptrs[h].offset} else {};
             Kept(was, now, wasLive, except) && StillLive(wasLive, live, except)
    requires InRegion(now, live, p, b) && (p.At? ==> p == ptrs[h] || p.offset !in wasLive)
    ensures Consistent(now, live, ptrs[h := p], blocks[h := b])
  {
    var except := if ptrs[h].At? then {ptrs[h].offset} else {};
    forall g | 0 <= g < |ptrs|
      ensures InRegion(now, live, ptrs[h := p][g], blocks[h := b][g]) && (g != h && p.At? ==> ptrs[g] != p)
    {
      assert InRegion(was, wasLive, ptrs[g], blocks[g]);
      if g != h { OthersKept(was, wasLive, now, live, except, ptrs[g], blocks[g]); }
    }
  }

  method Make(r: Region, n: nat, ptrs: seq<Ptr>, ghost blocks: seq<Block>) returns (p: Ptr)
    requires r.Valid() && n + SIZEOF_SIZE_T + MAX_ALIGNMENT <= SIZE_T && Consistent(r.data[..], r.live, ptrs, blocks)
    modifies r, r.data
    ensures r.Valid() && Consistent(r.data[..], r.live, ptrs + [p],
        blocks + [if p.At? then Held(Blank(n)) else NoBlock])
  {
    ghost var was, wasLive := r.data[..], r.live;
    p := r.Alloc(n);
    forall g | 0 <= g < |ptrs| ensures InRegion(r.data[..], r.live, ptrs[g], blocks[g]) && (p.At? ==> ptrs[g] != p) {
      assert InRegion(was, wasLive, ptrs[g], blocks[g]);
      OthersKept(was, wasLive, r.data[..], r.live, {}, ptrs[g], blocks[g]);
    }
    if p.At? { assert BlockIn(r.data[..], r.size, p.offset, r.live[p.offset]); }
  }

  method Resize(r: Region, h: nat, n: nat, ptrs: seq<Ptr>, ghost blocks: seq<Block>) returns (ptrs': seq<Ptr>, ok: bool)
    requires r.Valid() && n + SIZEOF_SIZE_T + MAX_ALIGNMENT <= SIZE_T && Consistent(r.data[..], r.live, ptrs, blocks)
    requires h < |ptrs| && InRegion(r.data[..], r.live, ptrs[h], blocks[h])
    modifies r, r.data
    ensures r.Valid() && Consistent(r.data[..], r.live, ptrs', After(blocks, RemapOp(h, n), ok))
  {
    ghost var was, wasLive := r.data[..], r.live;
    var q := r.Remap(ptrs[h], n);
    ok := q.At?;
    if !ok {
      ptrs' := ptrs;
      return;
    }
    ptrs' := ptrs[h := q];
    ghost var b := Held(if blocks[h].Held? then Grown(blocks[h].content, n) else Blank(n));
    Resized(was, wasLive, r.data[..], r.live, r.size, ptrs[h], blocks[h], q, n);
    AllOthersKept(was, wasLive, r.data[..], r.live, ptrs, blocks, h, q, b);
  }

  lemma Resized(was: seq<Byte>, wasLive: map<nat, nat>, now: seq<Byte>, live: map<nat, nat>, size: nat, p: Ptr,
                b: Block, q: Ptr, n: nat)
    requires InRegion(was, wasLive, p, b) && Blocks(now, size, live) && q.At?
    requires p.Null? ==> live == wasLive[q.offset := n]
    requires p.At? && n <= wasLive[p.offset] ==> q == p && live == wasLive && now == was
    requires p.At? && n > wasLive[p.offset] ==> Moved(was, wasLive, now, live, p.offset, q.offset, n)
    ensures InRegion(now, live, q, Held(if b.Held? then Grown(b.content, n) else Blank(n)))
  {
    assert BlockIn(now, size, q.offset, live[q.offset]);
    if p.At? && n > wasLive[p.offset] { CopyMatches(was, now, p.offset, q.offset, b.content, n); }
  }

  lemma CopyMatches(was: seq<Byte>, now: seq<Byte>, o: nat, q: nat, content: seq<Cell>, n: nat)
    requires Matches(was, o, content) && |content| <= n && q + n <= |now|
    requires now[q..q + |content|] == was[o..o + |content|]
    ensures Matches(now, q, Grown(content, n))
  {
    var z := |content|;
    forall i | 0 <= i < z && content[i].Known? ensures now[q + i] == content[i].b {
      assert now[q..q + z][i] == was[o..o + z][i];
    }
  }

  method Drop(r: Region, h: nat, ptrs: seq<Ptr>, ghost blocks: seq<Block>)
    requires r.Valid() && Consistent(r.data[..], r.live, ptrs, blocks) && h < |ptrs|
    requires ptrs[h].At? && InRegion(r.data[..], r.live, ptrs[h], blocks[h])
    modifies r
    ensures r.Valid() && Consistent(r.data[..], r.live, ptrs[h := Null], blocks[h := NoBlock])
  {
    ghost var was, wasLive := r.data[..], r.live;
    KeptSame(was, r.size, r.live);
    r.Free(ptrs[h].offset);
    KeptLess(was, r.data[..], wasLive, {ptrs[h].offset});
    AllOthersKept(was, wasLive, r.data[..], r.live, ptrs, blocks, h, Null, NoBlock);
  }

  lemma KeptLess(was: seq<Byte>, now: seq<Byte>, live: map<nat, nat>, except: set<nat>)
    requires Kept(was, now, live, {})
    ensures Kept(was, now, live, except)
  {
    forall p | p in live && p !in except ensures SamePayload(was, now, p, live[p]) {}
  }

  method Fill(r: Region, h: nat, at: nat, bytes: seq<Byte>, ptrs: seq<Ptr>, ghost blocks: seq<Block>)
    requires r.Valid() && Consistent(r.data[..], r.live, ptrs, blocks) && h < |ptrs|
    requires ptrs[h].At? && InRegion(r.data[..], r.live, ptrs[h], blocks[h])
    modifies r.data
    ensures r.Valid() && Consistent(r.data[..], r.live, ptrs, After(blocks, StoreOp(h, at, bytes), true))
  {
    ghost var was := r.data[..];
    var z := r.BufferSize(ptrs[h].offset);
    if at + |bytes| <= z {
      r.Store(ptrs[h].offset, at, bytes);
      ghost var b := Held(Stored(blocks[h].content, at, bytes));
      assert ptrs[h := ptrs[h]] == ptrs;
      AllOthersKept(was, r.live, r.data[..], r.live, ptrs, blocks, h, ptrs[h], b);
    }
  }
}
