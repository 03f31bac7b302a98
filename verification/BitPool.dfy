/**
 The two-level bit pool (includes/ty_bitpool.h): one bit per slot in L0, and one bit per L0 bucket in
 L1, set when the bucket is full. N, the number of slots, is a positive multiple of 64.
 */
module BitPool {
  import opened Arith
  import opened Word64

  /** Slot i is in use. */
  predicate UsedIn(l0: seq<U64>, i: nat)
    requires i < BITS * |l0|
  {
    Has(l0[i / BITS], i % BITS)
  }

  /** The pool as its users see it: for every slot, whether it is in use. */
  ghost function View(l0: seq<U64>): (v: seq<bool>)
    ensures |v| == BITS * |l0|
  {
    FirstSlots(l0, BITS * |l0|)
  }

  ghost function FirstSlots(l0: seq<U64>, n: nat): (v: seq<bool>)
    requires n <= BITS * |l0|
    ensures |v| == n
  {
    if n == 0 then [] else FirstSlots(l0, n - 1) + [UsedIn(l0, n - 1)]
  }

  lemma {:induction false} SlotsAre(l0: seq<U64>, n: nat)
    requires n <= BITS * |l0|
    ensures forall i :: 0 <= i < n ==> FirstSlots(l0, n)[i] == UsedIn(l0, i)
  {
    if n > 0 { SlotsAre(l0, n - 1); }
  }

  lemma ViewIs(l0: seq<U64>)
    ensures forall i :: 0 <= i < BITS * |l0| ==> View(l0)[i] == UsedIn(l0, i)
  {
    SlotsAre(l0, BITS * |l0|);
  }

  lemma ViewAt(l0: seq<U64>, i: nat)
    requires i < BITS * |l0|
    ensures View(l0)[i] == UsedIn(l0, i)
  {
    ViewIs(l0);
  }

  /** L1 bit k is set exactly when bucket k exists and is full. */
  ghost predicate Agrees(l0: seq<U64>, l1: seq<U64>) {
    && |l0| <= BITS * |l1|
    && forall k :: 0 <= k < BITS * |l1| ==> UsedIn(l1, k) == (k < |l0| && l0[k] == UINT64_MAX)
  }

  lemma Place(b: nat, s: nat)
    requires s < BITS
    ensures (BITS * b + s) / BITS == b && (BITS * b + s) % BITS == s
  {
    DivModIs(BITS * b + s, b, BITS, s);
  }

  /** Changing one bit of one word changes one slot. */
  lemma OneSlot(was: seq<U64>, now: seq<U64>, i: nat, v: bool)
    requires |now| == |was| && i < BITS * |was|
    requires now == was[i / BITS := now[i / BITS]]
    requires forall k :: 0 <= k < BITS ==> Has(now[i / BITS], k) == if k == i % BITS then v else Has(was[i / BITS], k)
    ensures View(now) == View(was)[i := v]
  {
    ViewIs(was);
    ViewIs(now);
    forall j | 0 <= j < BITS * |was| ensures UsedIn(now, j) == if j == i then v else UsedIn(was, j) {
      assert j == BITS * (j / BITS) + j % BITS && i == BITS * (i / BITS) + i % BITS;
    }
  }

  lemma FullBucket(l0: seq<U64>, b: nat)
    requires b < |l0|
    ensures l0[b] == UINT64_MAX <==> forall i :: BITS * b <= i < BITS * b + BITS ==> UsedIn(l0, i)
  {
    FullWord(l0[b]);
    forall k | 0 <= k < BITS ensures UsedIn(l0, BITS * b + k) == Has(l0[b], k) { Place(b, k); }
    if forall i :: BITS * b <= i < BITS * b + BITS ==> UsedIn(l0, i) {
      forall k | 0 <= k < BITS ensures Has(l0[b], k) { assert UsedIn(l0, BITS * b + k); }
    } else {
      var i :| BITS * b <= i < BITS * b + BITS && !UsedIn(l0, i);
      assert !Has(l0[b], i - BITS * b) by { assert i == BITS * b + (i - BITS * b); }
    }
  }

  /** i is the least free slot. */
  ghost predicate LeastFree(v: seq<bool>, i: nat) {
    i < |v| && !v[i] && forall j :: 0 <= j < i ==> v[j]
  }

  ghost predicate AllUsed(v: seq<bool>) {
    forall j :: 0 <= j < |v| ==> v[j]
  }

  class Pool {
    const buckets: nat
    const l1: array<U64>
    const l0: array<U64>

    ghost predicate Valid()
      reads this, l1, l0
    {
      && buckets > 0 && l0.Length == buckets && l0 != l1
      && l1.Length == (BITS * buckets + 4095) / 4096
      && Agrees(l0[..], l1[..])
    }

    ghost function Slots(): seq<bool>
      reads this, l0
    {
      View(l0[..])
    }

    /** A zeroed pool of 64 * n slots. */
    constructor (n: nat)
      requires n > 0
      ensures Valid() && fresh(l0) && fresh(l1) && buckets == n
      ensures forall i :: 0 <= i < |Slots()| ==> !Slots()[i]
    {
      buckets := n;
      l1 := new U64[(BITS * n + 4095) / 4096](_ => 0);
      l0 := new U64[n](_ => 0);
      new;
      WordsOfL1(n);
      ZeroPool(l0[..], l1[..]);
    }

    /** BIT_POOL_CHECK_1 */
    function Check(i: nat): (used: bool)
      requires l0.Length == buckets && i < BITS * buckets
      reads l0
      ensures used == Slots()[i]
    {
      ViewAt(l0[..], i);
      UsedIn(l0[..], i)
    }

    /** BIT_POOL_FIND_0 */
    method Find() returns (index: int, ok: bool)
      requires Valid()
      ensures ok ==> 0 <= index && LeastFree(Slots(), index)
      ensures !ok ==> index == -1 && AllUsed(Slots())
    {
      var bucket := -1;
      if BITS * buckets > 64 {
        bucket := FindBucket();
      } else {
        bucket := 0;
      }
      if bucket == -1 || bucket >= buckets {
        NoBucket(l0[..]);
        return -1, false;
      }
      var slot := Ctz64(Complement(l0[bucket]));
      FreeInBucket(l0[..], bucket, slot);
      if slot != 64 {
        return bucket * 64 + slot, true;
      } else {
        return -1, false;
      }
    }

    /** The scan of L1: the first bucket that is not full; past the last one, or -1, when all are. */
    method FindBucket() returns (bucket: int)
      requires Valid()
      ensures -1 <= bucket
      ensures 0 <= bucket < buckets ==>
        l0[bucket] != UINT64_MAX && forall b :: 0 <= b < bucket ==> l0[b] == UINT64_MAX
      ensures bucket == -1 || bucket >= buckets ==> forall b :: 0 <= b < buckets ==> l0[b] == UINT64_MAX
    {
      for i := 0 to l1.Length
        invariant forall b :: 0 <= b < BITS * i && b < buckets ==> l0[b] == UINT64_MAX
      {
        var inv := Complement(l1[i]);
        var slot := Ctz64(inv);
        FirstOpen(l0[..], l1[..], i, slot);
        if slot != 64 {
          return 64 * i + slot;
        }
      }
      return -1;
    }

    /** BIT_POOL_SET_1 */
    method Set(index: nat)
      requires Valid() && index < BITS * buckets
      modifies l1, l0
      ensures Valid() && Slots() == old(Slots())[index := true]
    {
      var l0Index, l0Slot := index / 64, index % 64;
      var l1Index, l1Slot := l0Index / 64, l0Index % 64;
      ghost var was0, was1 := l0[..], l1[..];
      var bucket := SetBit(l0[l0Index], l0Slot);
      SetFacts(was0, was1, index);
      if bucket == UINT64_MAX {
        l1[l1Index] := SetBit(l1[l1Index], l1Slot);
      }
      l0[l0Index] := bucket;
      SetAgrees(was0, was1, l0[..], l1[..], index);
    }

    /** BIT_POOL_SET_0 */
    method Clear(index: nat)
      requires Valid() && index < BITS * buckets
      modifies l1, l0
      ensures Valid() && Slots() == old(Slots())[index := false]
    {
      var l0Index, l0Slot := index / 64, index % 64;
      var l1Index, l1Slot := l0Index / 64, l0Index % 64;
      ghost var was0, was1 := l0[..], l1[..];
      l1[l1Index] := ClearBit(l1[l1Index], l1Slot);
      l0[l0Index] := ClearBit(l0[l0Index], l0Slot);
      ClearAgrees(was0, was1, l0[..], l1[..], index);
    }

    /** BIT_POOL_ALLOC */
    method Alloc() returns (index: int, ok: bool)
      requires Valid()
      modifies l1, l0
      ensures Valid()
      ensures ok ==> 0 <= index && LeastFree(old(Slots()), index) && Slots() == old(Slots())[index := true]
      ensures !ok ==> index == -1 && AllUsed(old(Slots())) && Slots() == old(Slots())
    {
      index, ok := Find();
      if ok {
        Set(index);
      }
    }
  }

  // ---- Runs ----

  datatype PoolOp = SetOp(index: nat) | ClearOp(index: nat) | AllocOp

  /** A linear scan for the first free slot from place i up; |v| when there is none. */
  function Scan(v: seq<bool>, i: nat): nat
    requires i <= |v|
    decreases |v| - i
  {
    if i == |v| || !v[i] then i else Scan(v, i + 1)
  }

  lemma {:induction false} ScanFindsLeast(v: seq<bool>, i: nat, k: nat)
    requires i <= k <= |v| && (k < |v| ==> !v[k]) && forall j :: i <= j < k ==> v[j]
    ensures Scan(v, i) == k
    decreases k - i
  {
    if i < k { ScanFindsLeast(v, i + 1, k); }
  }

  /** What an operation makes of the slots; an allocation takes the least free one, if there is one. */
  ghost function After(v: seq<bool>, op: PoolOp): seq<bool> {
    match op
    case SetOp(i) => if i < |v| then v[i := true] else v
    case ClearOp(i) => if i < |v| then v[i := false] else v
    case AllocOp => var i := Scan(v, 0); if i < |v| then v[i := true] else v
  }

  ghost function AfterAll(v: seq<bool>, ops: seq<PoolOp>): seq<bool> {
    if ops == [] then v else After(AfterAll(v, ops[..|ops| - 1]), ops[|ops| - 1])
  }

  /** The index and flag of an allocation. */
  datatype Result = Result(index: int, ok: bool)

  /** What a linear scan makes of an operation; only an allocation has a result. */
  ghost function ByScan(v: seq<bool>, op: PoolOp): Result {
    var i := Scan(v, 0);
    if op.AllocOp? && i < |v| then Result(i, true) else Result(-1, false)
  }

  method Perform(p: Pool, op: PoolOp) returns (result: Result)
    requires p.Valid() && (op.AllocOp? || op.index < BITS * p.buckets)
    modifies p.l0, p.l1
    ensures p.Valid() && p.Slots() == After(old(p.Slots()), op)
    ensures result == ByScan(old(p.Slots()), op)
  {
    ghost var v := p.Slots();
    result := Result(-1, false);
    match op
    case SetOp(i) => p.Set(i);
    case ClearOp(i) => p.Clear(i);
    case AllocOp =>
      var index, ok := p.Alloc();
      ScanFindsLeast(v, 0, if ok then index else |v|);
      result := Result(index, ok);
  }

  /**
   From a zeroed pool, every run keeps both levels in agreement, and every operation in it has the result that
   a linear scan of the slots has at that point.
   */
  method Replay(n: nat, ops: seq<PoolOp>) returns (p: Pool, results: seq<Result>)
    requires n > 0
    requires forall k :: 0 <= k < |ops| ==> ops[k].AllocOp? || ops[k].index < BITS * n
    ensures p.Valid() && p.buckets == n
    ensures p.Slots() == AfterAll(seq(BITS * n, _ => false), ops)
    ensures |results| == |ops|
    ensures forall k :: 0 <= k < |ops| ==> results[k] == ByScan(AfterAll(seq(BITS * n, _ => false), ops[..k]), ops[k])
  {
    p := new Pool(n);
    results := [];
    ghost var zero := seq(BITS * n, _ => false);
    assert p.Slots() == zero;
    for k := 0 to |ops|
      invariant p.Valid() && p.buckets == n && fresh(p.l0) && fresh(p.l1)
      invariant p.Slots() == AfterAll(zero, ops[..k]) && |results| == k
      invariant forall i :: 0 <= i < k ==> results[i] == ByScan(AfterAll(zero, ops[..i]), ops[i])
    {
      assert ops[..k + 1][..k] == ops[..k];
      var result := Perform(p, ops[k]);
      results := results + [result];
    }
    assert ops[..|ops|] == ops;
  }

  lemma WordsOfL1(n: nat)
    ensures n <= BITS * ((BITS * n + 4095) / 4096)
  {
    var w := (BITS * n + 4095) / 4096;
    assert 4096 * w + 4095 >= BITS * n + 4095;
  }

  lemma ZeroPool(l0: seq<U64>, l1: seq<U64>)
    requires forall k :: 0 <= k < |l0| ==> l0[k] == 0
    requires forall k :: 0 <= k < |l1| ==> l1[k] == 0
    ensures forall i :: 0 <= i < |View(l0)| ==> !View(l0)[i]
    ensures |l0| <= BITS * |l1| ==> Agrees(l0, l1)
  {
    ViewIs(l0);
    forall i | 0 <= i < BITS * |l0| ensures !UsedIn(l0, i) { ZeroWord(l0[i / BITS]); }
    forall i | 0 <= i < BITS * |l1| ensures !UsedIn(l1, i) { ZeroWord(l1[i / BITS]); }
  }

  /** Without an open bucket no slot is free. */
  lemma NoBucket(l0: seq<U64>)
    requires forall b :: 0 <= b < |l0| ==> l0[b] == UINT64_MAX
    ensures AllUsed(View(l0))
  {
    ViewIs(l0);
    forall i | 0 <= i < BITS * |l0| ensures UsedIn(l0, i) { FullWord(l0[i / BITS]); }
  }

  /** The first free bit of the first open bucket is the least free slot. */
  lemma FreeInBucket(l0: seq<U64>, b: nat, slot: nat)
    requires b < |l0| && forall c :: 0 <= c < b ==> l0[c] == UINT64_MAX
    requires |l0| == 1 || l0[b] != UINT64_MAX
    requires var inv := Complement(l0[b]);
      && (inv == 0 ==> slot == BITS)
      && (inv != 0 ==> slot < BITS && Has(inv, slot))
      && forall k :: 0 <= k < slot ==> !Has(inv, k)
    ensures slot != BITS ==> LeastFree(View(l0), BITS * b + slot)
    ensures slot == BITS ==> AllUsed(View(l0))
  {
    forall k | 0 <= k < BITS ensures Has(Complement(l0[b]), k) == !Has(l0[b], k) { BitComplement(l0[b], k); }
    if slot == BITS {
      NoBucket(l0);
    } else {
      Place(b, slot);
      ViewIs(l0);
      forall j | 0 <= j < BITS * b + slot ensures UsedIn(l0, j) {
        if j / BITS < b {
          FullWord(l0[j / BITS]);
        } else {
          assert j / BITS == b && j % BITS < slot;
        }
      }
    }
  }

  /** The first zero of an L1 word is the first bucket of its 64 that is not full. */
  lemma FirstOpen(l0: seq<U64>, l1: seq<U64>, i: nat, slot: nat)
    requires Agrees(l0, l1) && i < |l1|
    requires var inv := Complement(l1[i]);
      && (inv == 0 ==> slot == BITS)
      && (inv != 0 ==> slot < BITS && Has(inv, slot))
      && forall k :: 0 <= k < slot ==> !Has(inv, k)
    ensures forall b :: BITS * i <= b < BITS * i + slot && b < |l0| ==> l0[b] == UINT64_MAX
    ensures slot <= BITS
    ensures slot != BITS && BITS * i + slot < |l0| ==> l0[BITS * i + slot] != UINT64_MAX
    ensures slot != BITS && BITS * i + slot >= |l0| ==> forall b :: BITS * i <= b < |l0| ==> l0[b] == UINT64_MAX
  {
    forall k | 0 <= k < BITS ensures Has(Complement(l1[i]), k) == !UsedIn(l1, BITS * i + k) {
      BitComplement(l1[i], k);
      Place(i, k);
    }
    forall b | BITS * i <= b < BITS * i + slot && b < |l0| ensures l0[b] == UINT64_MAX {
      assert !Has(Complement(l1[i]), b - BITS * i);
      assert UsedIn(l1, BITS * i + (b - BITS * i));
    }
  }

  lemma SetFacts(l0: seq<U64>, l1: seq<U64>, index: nat)
    requires Agrees(l0, l1) && index < BITS * |l0|
    ensures index / BITS < |l0| && index / BITS / BITS < |l1|
  {}

  lemma SetAgrees(was0: seq<U64>, was1: seq<U64>, l0: seq<U64>, l1: seq<U64>, index: nat)
    requires Agrees(was0, was1) && index < BITS * |was0|
    requires var b, s := index / BITS, index % BITS;
      && l0 == was0[b := SetBit(was0[b], s)]
      && l1 == if l0[b] == UINT64_MAX then was1[b / BITS := SetBit(was1[b / BITS], b % BITS)] else was1
    ensures Agrees(l0, l1) && View(l0) == View(was0)[index := true]
  {
    var b, s := index / BITS, index % BITS;
    forall k | 0 <= k < BITS ensures Has(l0[b], k) == if k == s then true else Has(was0[b], k) {
      BitSet(was0[b], s, k);
    }
    OneSlot(was0, l0, index, true);
    if was0[b] == UINT64_MAX {
      FullWord(was0[b]);
      FullWord(l0[b]);
    }
    if l0[b] == UINT64_MAX {
      forall k | 0 <= k < BITS
        ensures Has(l1[b / BITS], k) == if k == b % BITS then true else Has(was1[b / BITS], k)
      {
        BitSet(was1[b / BITS], b % BITS, k);
      }
      OneSlot(was1, l1, b, true);
      assert View(l1) == View(was1)[b := true];
    }
    forall k | 0 <= k < BITS * |l1| ensures UsedIn(l1, k) == (k < |l0| && l0[k] == UINT64_MAX) {
      assert UsedIn(was1, k) == (k < |was0| && was0[k] == UINT64_MAX);
      ViewAt(l1, k);
      ViewAt(was1, k);
    }
  }

  lemma ClearAgrees(was0: seq<U64>, was1: seq<U64>, l0: seq<U64>, l1: seq<U64>, index: nat)
    requires Agrees(was0, was1) && index < BITS * |was0|
    requires var b, s := index / BITS, index % BITS;
      && l0 == was0[b := ClearBit(was0[b], s)]
      && l1 == was1[b / BITS := ClearBit(was1[b / BITS], b % BITS)]
    ensures Agrees(l0, l1) && View(l0) == View(was0)[index := false]
  {
    var b, s := index / BITS, index % BITS;
    forall k | 0 <= k < BITS ensures Has(l0[b], k) == if k == s then false else Has(was0[b], k) {
      BitClear(was0[b], s, k);
    }
    OneSlot(was0, l0, index, false);
    FullWord(l0[b]);
    assert !Has(l0[b], s);
    forall k | 0 <= k < BITS
      ensures Has(l1[b / BITS], k) == if k == b % BITS then false else Has(was1[b / BITS], k)
    {
      BitClear(was1[b / BITS], b % BITS, k);
    }
    OneSlot(was1, l1, b, false);
    forall k | 0 <= k < BITS * |l1| ensures UsedIn(l1, k) == (k < |l0| && l0[k] == UINT64_MAX) {
      assert UsedIn(was1, k) == (k < |was0| && was0[k] == UINT64_MAX);
      ViewAt(l1, k);
      ViewAt(was1, k);
    }
  }
}
