/** Runs of push, pushN and pop on a vector (includes/ty_alloc.h:272-283), against the sequence they stand for. */
module VectorRuns {
  import opened Bytes
  import opened Region
  import opened Vector

  datatype Op = PushOp(val: seq<Byte>) | PushNOp(elems: seq<seq<Byte>>) | PopOp

  /** What an operation makes of the sequence, when it reports `ok`. */
  function After(s: seq<seq<Byte>>, op: Op, ok: bool): seq<seq<Byte>> {
    match op
    case PushOp(val) => if ok then s + [val] else s
    case PushNOp(elems) => if ok then s + elems else s
    case PopOp => if s == [] then s else s[..|s| - 1]
  }

  function AfterAll(s: seq<seq<Byte>>, ops: seq<Op>, oks: seq<bool>): seq<seq<Byte>>
    requires |oks| == |ops|
  {
    if ops == [] then s
    else
      var n := |ops| - 1;
      After(AfterAll(s, ops[..n], oks[..n]), ops[n], oks[n])
  }

  /** How many elements an operation can add. */
  function Adds(op: Op): nat {
    match op
    case PushOp(_) => 1
    case PushNOp(elems) => |elems|
    case PopOp => 0
  }

  function AddsAll(ops: seq<Op>): nat {
    if ops == [] then 0 else AddsAll(ops[..|ops| - 1]) + Adds(ops[|ops| - 1])
  }

  predicate Fits(op: Op, es: nat) {
    match op
    case PushOp(val) => |val| == es
    case PushNOp(elems) => forall i :: 0 <= i < |elems| ==> |elems[i]| == es
    case PopOp => true
  }

  /** A size_t holds the bytes of any capacity that m elements lead to. */
  predicate Holdable(m: nat, es: nat) {
    Total(16 + 2 * m, es) + SIZEOF_SIZE_T + MAX_ALIGNMENT <= SIZE_T
  }

  lemma GrowthHoldable(capacity: nat, needed: nat, m: nat, es: nat)
    requires capacity < needed <= m && es > 0 && Holdable(m, es)
    ensures Total(Grown(FirstCapacity(capacity), needed), es) + SIZEOF_SIZE_T + MAX_ALIGNMENT <= SIZE_T
  {
    GrownEnough(FirstCapacity(capacity), needed);
    TotalGrows(Grown(FirstCapacity(capacity), needed), 16 + 2 * m, es);
  }

  /** The blocks of others, from the start of a run. */
  ghost predicate Undisturbed(was: seq<Byte>, wasLive: map<nat, nat>, now: seq<Byte>, live: map<nat, nat>,
                              own: set<nat>, data: Ptr) {
    && Kept(was, now, wasLive, own) && StillLive(wasLive, live, own)
    && forall q :: q in BlockOf(data) && q in wasLive ==> q in own
  }

  lemma UndisturbedStep(was: seq<Byte>, wasLive: map<nat, nat>, own: set<nat>, mid: seq<Byte>, midLive: map<nat, nat>,
                        data: Ptr,
                        now: seq<Byte>, live: map<nat, nat>, data': Ptr)
    requires Undisturbed(was, wasLive, mid, midLive, own, data)
    requires Kept(mid, now, midLive, BlockOf(data)) && StillLive(midLive, live, BlockOf(data))
    requires data' == data || (data'.At? && data'.offset !in midLive)
    ensures Undisturbed(was, wasLive, now, live, own, data')
  {
    forall p | p in wasLive && p !in own
      ensures SamePayload(was, now, p, wasLive[p]) && p in live && live[p] == wasLive[p] && p !in BlockOf(data')
    {
      assert p !in BlockOf(data) && p in midLive && midLive[p] == wasLive[p];
      assert SamePayload(was, mid, p, wasLive[p]) && SamePayload(mid, now, p, midLive[p]);
    }
  }

  /**
   A run on a vector does what it does on a sequence, as long as its successes say: a push that fails changes
   nothing, and a pop succeeds exactly on a sequence that is not empty. All other blocks stay as they were.
   */
  method Replay(v: Vector, ops: seq<Op>) returns (oks: seq<bool>)
    requires v.Valid() && Holdable(|v.contents| + AddsAll(ops), v.es)
    requires forall k :: 0 <= k < |ops| ==> Fits(ops[k], v.es)
    modifies v, v.region, v.region.data
    ensures v.Valid() && |oks| == |ops| && v.contents == AfterAll(old(v.contents), ops, oks)
    ensures forall k :: 0 <= k < |ops| && ops[k].PopOp? ==>
        (oks[k] <==> AfterAll(old(v.contents), ops[..k], oks[..k]) != [])
    ensures Kept(old(v.region.data[..]), v.region.data[..], old(v.region.live), BlockOf(old(v.data)))
    ensures StillLive(old(v.region.live), v.region.live, BlockOf(old(v.data)))
  {
    ghost var start, m := v.contents, |v.contents| + AddsAll(ops);
    ghost var was, wasLive, own := v.region.data[..], v.region.live, BlockOf(v.data);
    KeptSame(was, v.region.size, wasLive);
    assert ops[..0] == [];
    oks := [];
    for k := 0 to |ops|
      invariant v.Valid() && |oks| == k && v.contents == AfterAll(start, ops[..k], oks)
      invariant |v.contents| <= |start| + AddsAll(ops[..k])
      invariant forall i :: 0 <= i < k && ops[i].PopOp? ==> (oks[i] <==> AfterAll(start, ops[..i], oks[..i]) != [])
      invariant Undisturbed(was, wasLive, v.region.data[..], v.region.live, own, v.data)
    {
      ghost var mid, midLive, data := v.region.data[..], v.region.live, v.data;
      AddsUpTo(ops, k);
      KeptSame(mid, v.region.size, midLive);
      var ok := Perform(v, ops[k], m);
      UndisturbedStep(was, wasLive, own, mid, midLive, data, v.region.data[..], v.region.live, v.data);
      AfterNext(start, ops, oks, k, ok);
      oks := oks + [ok];
    }
    assert ops[..|ops|] == ops;
  }

  lemma AfterNext(s: seq<seq<Byte>>, ops: seq<Op>, oks: seq<bool>, k: nat, ok: bool)
    requires k < |ops| && |oks| == k
    ensures AfterAll(s, ops[..k + 1], oks + [ok]) == After(AfterAll(s, ops[..k], oks), ops[k], ok)
    ensures forall i :: 0 <= i <= k ==> (oks + [ok])[..i] == oks[..i]
  {
    assert ops[..k + 1][..k] == ops[..k] && (oks + [ok])[..k] == oks;
  }

  lemma AddsUpTo(ops: seq<Op>, k: nat)
    requires k < |ops|
    ensures AddsAll(ops[..k + 1]) == AddsAll(ops[..k]) + Adds(ops[k]) && AddsAll(ops[..k + 1]) <= AddsAll(ops)
  {
    assert ops[..k + 1][..k] == ops[..k];
    AddsMore(ops, k + 1);
  }

  lemma {:induction false} AddsMore(ops: seq<Op>, k: nat)
    requires k <= |ops|
    ensures AddsAll(ops[..k]) <= AddsAll(ops)
    decreases |ops|
  {
    if k < |ops| {
      var n := |ops| - 1;
      AddsMore(ops[..n], k);
      assert ops[..n][..k] == ops[..k];
    } else {
      assert ops[..k] == ops;
    }
  }

  method Perform(v: Vector, op: Op, ghost m: nat) returns (ok: bool)
    requires v.Valid() && Fits(op, v.es) && |v.contents| + Adds(op) <= m && Holdable(m, v.es)
    modifies v, v.region, v.region.data
    ensures v.Valid() && v.contents == After(old(v.contents), op, ok)
    ensures op.PopOp? ==> (ok <==> old(v.contents) != [])
    ensures Kept(old(v.region.data[..]), v.region.data[..], old(v.region.live), BlockOf(old(v.data)))
    ensures StillLive(old(v.region.live), v.region.live, BlockOf(old(v.data)))
    ensures v.data == old(v.data) || (v.data.At? && v.data.offset !in old(v.region.live))
  {
    KeptSame(v.region.data[..], v.region.size, v.region.live);
    if v.size + Adds(op) > v.capacity { GrowthHoldable(v.capacity, v.size + Adds(op), m, v.es); }
    match op
    case PushOp(val) => ok := v.Push(val);
    case PushNOp(elems) => ok := v.PushN(elems);
    case PopOp => ok := v.Pop();
  }
}
