/** The queries and helpers that tests/test_ty_bitpool.c builds on the pool. */
module BitPoolQueries {
  import opened Bits
  import opened Bytes
  import opened Word64
  import opened BitPool

  // ---- Batches ----

  /** The free slots from place i up, in order. */
  ghost function FreeFrom(v: seq<bool>, i: nat): seq<nat>
    requires i <= |v|
    decreases |v| - i
  {
    if i == |v| then [] else if v[i] then FreeFrom(v, i + 1) else [i] + FreeFrom(v, i + 1)
  }

  lemma {:induction false} FreeAbove(v: seq<bool>, w: seq<bool>, i: nat)
    requires |v| == |w| && i <= |v| && forall j :: i <= j < |v| ==> v[j] == w[j]
    ensures FreeFrom(v, i) == FreeFrom(w, i)
    decreases |v| - i
  {
    if i < |v| { FreeAbove(v, w, i + 1); }
  }

  /** Taking the least free slot takes the first of the free slots. */
  lemma {:induction false} TakeLeast(v: seq<bool>, k: nat, i: nat)
    requires i <= k && LeastFree(v, k)
    ensures FreeFrom(v, i) == [k] + FreeFrom(v[k := true], i)
    decreases k - i
  {
    if i < k {
      TakeLeast(v, k, i + 1);
    } else {
      FreeAbove(v, v[k := true], k + 1);
    }
  }

  lemma {:induction false} NoneFree(v: seq<bool>, i: nat)
    requires i <= |v| && AllUsed(v)
    ensures FreeFrom(v, i) == []
    decreases |v| - i
  {
    if i < |v| { NoneFree(v, i + 1); }
  }

  /** count, not below 0 and not above n. */
  function Clamp(count: int, n: nat): nat {
    if count < 0 then 0 else if n < count then n else count
  }

  /** pool_alloc_batch: the first `count` free slots, in order, or all of them. */
  method AllocBatch(p: Pool, count: int, out: array<int>) returns (taken: nat)
    requires p.Valid() && count <= out.Length
    modifies p.l0, p.l1, out
    ensures p.Valid()
    ensures var open := old(FreeFrom(p.Slots(), 0));
      && taken == Clamp(count, |open|)
      && (forall k :: 0 <= k < taken ==> out[k] == open[k])
      && FreeFrom(p.Slots(), 0) == open[taken..]
      && forall j :: 0 <= j < |p.Slots()| ==> p.Slots()[j] == (old(p.Slots())[j] || j in open[..taken])
  {
    taken := 0;
    ghost var v, open := p.Slots(), FreeFrom(p.Slots(), 0);
    var i := 0;
    while i < count
      invariant p.Valid() && 0 <= i && (i <= count || i == 0)
      invariant taken == i <= |open|
      invariant forall k :: 0 <= k < i ==> out[k] == open[k]
      invariant |p.Slots()| == |v| && FreeFrom(p.Slots(), 0) == open[i..]
      invariant forall j :: 0 <= j < |v| ==> p.Slots()[j] == (v[j] || j in open[..i])
    {
      ghost var before := p.Slots();
      var index, ok := p.Alloc();
      if !ok {
        NoneFree(before, 0);
        break;
      }
      TakeLeast(before, index, 0);
      assert open[i] == index && open[..i + 1] == open[..i] + [index];
      assert open[i + 1..] == open[i..][1..];
      out[taken] := index;
      taken := taken + 1;
      i := i + 1;
    }
  }

  // ---- Statistics ----

  /** How many of the first n slots are in use. */
  ghost function UsedCount(v: seq<bool>, n: nat): nat
    requires n <= |v|
  {
    if n == 0 then 0 else UsedCount(v, n - 1) + B2N(v[n - 1])
  }

  lemma {:induction false} BucketCount(l0: seq<U64>, b: nat, k: nat)
    requires b < |l0| && k <= BITS
    ensures UsedCount(View(l0), BITS * b + k) == UsedCount(View(l0), BITS * b) + Ones(l0[b], k)
  {
    if k > 0 {
      BucketCount(l0, b, k - 1);
      Place(b, k - 1);
      ViewAt(l0, BITS * b + (k - 1));
    }
  }

  /** Free slots and used slots are all slots. */
  lemma {:induction false} FreeAndUsed(v: seq<bool>, i: nat)
    requires i <= |v|
    ensures |FreeFrom(v, i)| + UsedCount(v, |v|) == |v| - i + UsedCount(v, i)
    decreases |v| - i
  {
    if i < |v| { FreeAndUsed(v, i + 1); }
  }

  /** pool_stats */
  method Stats(p: Pool) returns (unused: int, used: int)
    requires p.Valid()
    ensures used == UsedCount(p.Slots(), |p.Slots()|) && unused == |FreeFrom(p.Slots(), 0)|
  {
    used := 0;
    ghost var l0 := p.l0[..];
    for i := 0 to p.buckets
      invariant used == UsedCount(View(l0), BITS * i)
    {
      var l0Used := PopCount64(p.l0[i]);
      NextBucket(l0, i);
      used := used + l0Used;
    }
    FreeAndUsed(View(l0), 0);
    unused := BITS * p.buckets - used;
  }

  lemma NextBucket(l0: seq<U64>, b: nat)
    requires b < |l0|
    ensures UsedCount(View(l0), BITS * (b + 1)) == UsedCount(View(l0), BITS * b) + Ones(l0[b], BITS)
  {
    BucketCount(l0, b, BITS);
    assert BITS * b + BITS == BITS * (b + 1);
  }

  // ---- Runs of free slots ----

  /** Slots start .. start + count - 1 exist and are free. */
  ghost predicate FreeRun(v: seq<bool>, start: nat, count: nat) {
    start + count <= |v| && forall j :: start <= j < start + count ==> !v[j]
  }

  /** The smallest start of a free run of `count` slots, or -1 when there is none. */
  ghost predicate IsFirstRun(v: seq<bool>, count: nat, r: int) {
    && (r == -1 || (0 <= r && FreeRun(v, r, count)))
    && forall s: nat :: (r == -1 || s < r) ==> !FreeRun(v, s, count)
  }

  /** The length of a longest free run. */
  ghost predicate IsLongestRun(v: seq<bool>, m: nat) {
    && (exists s: nat :: FreeRun(v, s, m))
    && forall s: nat, count: nat :: FreeRun(v, s, count) ==> count <= m
  }

  /** What both scans know before slot i: the free run that ends there. */
  ghost predicate Streak(v: seq<bool>, i: nat, streak: nat) {
    && streak <= i <= |v|
    && (forall j :: i - streak <= j < i ==> !v[j])
    && (streak < i ==> v[i - streak - 1])
  }

  lemma NoLongerRun(v: seq<bool>, i: nat, streak: nat)
    requires Streak(v, i, streak)
    ensures forall s: nat, count: nat :: s + count == i && FreeRun(v, s, count) ==> count <= streak
  {}

  /** pool_find_contiguous. A count below 1 asks for one free slot, as far as the loop can tell. */
  method FindContiguous(p: Pool, count: int) returns (r: int)
    requires p.Valid()
    ensures IsFirstRun(p.Slots(), if count < 1 then 1 else count, r)
  {
    ghost var v, c := p.Slots(), if count < 1 then 1 else count;
    if count > BITS * p.buckets {
      return -1;
    }
    var streak := 0;
    var start := -1;
    for i := 0 to BITS * p.buckets
      invariant Streak(v, i, streak) && streak < c
      invariant start == if streak == 0 then -1 else i - streak
      invariant forall s: nat :: s + c <= i ==> !FreeRun(v, s, c)
    {
      var used := p.Check(i);
      if !used {
        if streak == 0 {
          start := i;
        }
        streak := streak + 1;
        if streak >= count {
          assert FreeRun(v, start, c);
          return start;
        }
      } else {
        streak := 0;
        start := -1;
      }
      NoLongerRun(v, i + 1, streak);
    }
    return -1;
  }

  /** pool_largest_contiguous */
  method LargestContiguous(p: Pool) returns (maxStreak: nat)
    requires p.Valid()
    ensures IsLongestRun(p.Slots(), maxStreak)
  {
    ghost var v := p.Slots();
    maxStreak := 0;
    var streak := 0;
    assert FreeRun(v, 0, 0);
    for i := 0 to BITS * p.buckets
      invariant Streak(v, i, streak)
      invariant exists s: nat :: FreeRun(v, s, maxStreak)
      invariant forall s: nat, count: nat :: s + count <= i && FreeRun(v, s, count) ==> count <= maxStreak
    {
      var used := p.Check(i);
      if !used {
        streak := streak + 1;
        if streak > maxStreak {
          maxStreak := streak;
          assert FreeRun(v, i + 1 - streak, streak);
        }
      } else {
        streak := 0;
      }
      NoLongerRun(v, i + 1, streak);
    }
  }

  /** There is a run of `count` slots exactly when the longest run has as many. */
  lemma RunsUpToLongest(v: seq<bool>, count: nat, r: int, m: nat)
    requires IsFirstRun(v, count, r) && IsLongestRun(v, m)
    ensures r == -1 <==> count > m
  {
    var s: nat :| FreeRun(v, s, m);
    if count <= m {
      assert FreeRun(v, s, count);
    }
  }

  // ---- One slot, one range ----

  /** pool_alloc_at; -1 stands for the null pointer. */
  method AllocAt(p: Pool, index: nat) returns (r: int)
    requires p.Valid()
    modifies p.l0, p.l1
    ensures p.Valid()
    ensures r == index <==> index < |old(p.Slots())| && !old(p.Slots())[index]
    ensures r == index ==> p.Slots() == old(p.Slots())[index := true]
    ensures r != index ==> r == -1 && p.Slots() == old(p.Slots())
  {
    if index >= BITS * p.buckets {
      return -1;
    }
    if p.Check(index) {
      return -1;
    }
    p.Set(index);
    return index;
  }

  /** The bits of bucket b under a mask of places lo .. hi - 1 are clear when those slots are free. */
  lemma MaskedFree(l0: seq<U64>, b: nat, mask: U64, lo: nat, hi: nat)
    requires b < |l0| && lo <= hi <= BITS
    requires forall k :: 0 <= k < BITS ==> Has(mask, k) == (lo <= k < hi)
    ensures And(l0[b], mask) == 0 <==> FreeRun(View(l0), BITS * b + lo, hi - lo)
  {
    AndIsZero(l0[b], mask);
    forall k | 0 <= k < BITS ensures View(l0)[BITS * b + k] == Has(l0[b], k) {
      Place(b, k);
      ViewAt(l0, BITS * b + k);
    }
    if And(l0[b], mask) == 0 {
      forall j | BITS * b + lo <= j < BITS * b + hi ensures !View(l0)[j] {
        assert Has(mask, j - BITS * b) && View(l0)[BITS * b + (j - BITS * b)] == Has(l0[b], j - BITS * b);
      }
    }
    if FreeRun(View(l0), BITS * b + lo, hi - lo) {
      forall k | 0 <= k < BITS && Has(mask, k) ensures !Has(l0[b], k) {
        assert !View(l0)[BITS * b + k];
      }
    }
  }

  lemma FreeRunSplit(v: seq<bool>, start: nat, m: nat, n: nat)
    ensures FreeRun(v, start, m + n) <==> FreeRun(v, start, m) && FreeRun(v, start + m, n)
  {}

  /** (1ULL << count) - 1 for a count of 64 or more, when the machine takes 1ULL << count to be `wide`. */
  function WideMask(wide: U64): U64 {
    if wide == 0 then UINT64_MAX else wide - 1
  }

  /** It is one less than `wide`, in a word of 64 bits. */
  lemma WideMaskIsOneLess(wide: U64)
    ensures (WideMask(wide) + 1) % 0x1_0000_0000_0000_0000 == wide
  {}

  /** What a query says, unless it reads a bucket that the pool does not have. */
  datatype Answer = Beyond | Says(free: bool)

  /** What the query inspects when start + count wraps to `sum`: not the slots that were asked for. */
  ghost predicate LooksFree(l0: seq<U64>, start: nat, sum: nat, wide: U64)
    requires start < BITS * |l0|
  {
    var first, last := start / 64, if sum == 0 then |l0| else (sum - 1) / 64;
    if first == last then And(l0[first], ShiftLeft(WideMask(wide), start % 64)) == 0
    else if first < last then FreeRun(View(l0), start, BITS * |l0| - start)
    else FreeRun(View(l0), start, 64 - start % 64) && FreeRun(View(l0), 64 * last, sum - 64 * last)
  }

  /** The answer for no slots at all. */
  ghost function EmptyAnswer(v: seq<bool>, start: nat): Answer {
    if start > |v| then Says(false)
    else if start % 64 != 0 then Says(true)
    else if start == |v| then Beyond
    else if start == 0 then if FreeRun(v, 0, |v|) then Beyond else Says(false)
    else Says(FreeRun(v, start - 64, 128))
  }

  /**
   pool_is_range_free, for any two size_t. The language leaves 1ULL << count undefined from 64 on; `wide` is
   what the machine makes of it. Without a wrap it is used for one kind of query only: all of one bucket.
   */
  method IsRangeFree(p: Pool, start: nat, count: nat, wide: U64) returns (r: Answer)
    requires p.Valid() && start < SIZE_T && count < SIZE_T && BITS * p.buckets < SIZE_T
    ensures start + count < SIZE_T && count >= 1 && !(count == 64 && start % 64 == 0) ==>
      r == Says(FreeRun(p.Slots(), start, count))
    ensures count == 64 && start % 64 == 0 && start + count <= |p.Slots()| ==>
      r == Says(And(p.l0[start / 64], WideMask(wide)) == 0)
    ensures start + count >= SIZE_T ==>
      (r == Says(FreeRun(p.Slots(), start, count)) <==>
         var sum := start + count - SIZE_T;
         sum > |p.Slots()| || (start < |p.Slots()| && !LooksFree(p.l0[..], start, sum, wide)))
    ensures count == 0 ==> r == EmptyAnswer(p.Slots(), start)
  {
    if count == 0 {
      EmptyRange(p.l0[..], start, wide);
    } else if start + count >= SIZE_T {
      RangeWithWrap(p.l0[..], start, count, wide);
    } else if count == 64 && start % 64 == 0 {
      WholeBucketQuery(p.l0[..], start, wide);
    } else {
      RangeWithoutWrap(p.l0[..], start, count, wide);
    }
    r := AskBuckets(p, start, count, wide);
  }

  method AskBuckets(p: Pool, start: nat, count: nat, wide: U64) returns (r: Answer)
    requires p.Valid() && start < SIZE_T && count < SIZE_T && BITS * p.buckets < SIZE_T
    ensures r == ByBuckets(p.l0[..], start, count, wide)
  {
    var sum := Plus(start, count);
    if sum > BITS * p.buckets {
      return Says(false);
    }
    var startBucket := start / 64;
    var endBucket := LastBucket(sum);
    if startBucket >= p.buckets {
      return Beyond;
    }
    if startBucket == endBucket {
      OneBucket(start, count);
      r := OneBucketFree(p, startBucket, start % 64, count, wide);
      return;
    }
    r := BucketsFree(p, startBucket, start % 64, endBucket, sum % 64);
  }

  /** (sum - 1) / 64 */
  function LastBucket(sum: nat): nat {
    (if sum == 0 then SIZE_T - 1 else sum - 1) / 64
  }

  /** The three parts of a query over more than one bucket, told from the slots. */
  ghost function ByParts(v: seq<bool>, start: nat, last: nat, end: nat): Answer
    requires start < |v| && end >= 64 * last
  {
    if 64 * last >= |v| then if FreeRun(v, start, |v| - start) then Beyond else Says(false)
    else if start < 64 * last then Says(FreeRun(v, start, end - start))
    else Says(FreeRun(v, start, 64 - start % 64) && FreeRun(v, 64 * last, end - 64 * last))
  }

  /** What the buckets say, told from the slots. */
  ghost function ByBuckets(l0: seq<U64>, start: nat, count: nat, wide: U64): Answer
    requires start < SIZE_T && count < SIZE_T
  {
    var sum := Plus(start, count);
    var first, last := start / 64, LastBucket(sum);
    if sum > BITS * |l0| then Says(false)
    else if first >= |l0| then Beyond
    else if first != last then ByParts(View(l0), start, last, 64 * last + (if sum % 64 == 0 then 64 else sum % 64))
    else if count < 64 then Says(FreeRun(View(l0), start, count))
    else Says(And(l0[first], ShiftLeft(WideMask(wide), start % 64)) == 0)
  }

  lemma OneBucket(start: nat, count: nat)
    requires start < SIZE_T && count < SIZE_T && start / 64 == LastBucket(Plus(start, count))
    ensures count < 64 ==> start % 64 + count <= 64
  {}

  lemma RangeWithoutWrap(l0: seq<U64>, start: nat, count: nat, wide: U64)
    requires start + count < SIZE_T && count >= 1 && !(count == 64 && start % 64 == 0)
    ensures ByBuckets(l0, start, count, wide) == Says(FreeRun(View(l0), start, count))
  {
    EndOf(start + count);
  }

  lemma WholeBucketQuery(l0: seq<U64>, start: nat, wide: U64)
    requires start + 64 < SIZE_T && start % 64 == 0
    ensures start + 64 > BITS * |l0| ==> ByBuckets(l0, start, 64, wide) == Says(false)
    ensures start + 64 <= BITS * |l0| ==>
      ByBuckets(l0, start, 64, wide) == Says(And(l0[start / 64], WideMask(wide)) == 0)
  {
    ShiftLeftByZero(WideMask(wide));
    assert LastBucket(start + 64) == start / 64;
  }

  lemma ShiftLeftByZero(x: U64)
    ensures ShiftLeft(x, 0) == x
  {}

  lemma EndOf(sum: nat)
    requires sum > 0
    ensures LastBucket(sum) == (sum - 1) / 64
    ensures 64 * LastBucket(sum) + (if sum % 64 == 0 then 64 else sum % 64) == sum
  {}

  lemma RangeWithWrap(l0: seq<U64>, start: nat, count: nat, wide: U64)
    requires start < SIZE_T && count < SIZE_T <= start + count && BITS * |l0| < SIZE_T
    ensures ByBuckets(l0, start, count, wide) == Says(FreeRun(View(l0), start, count)) <==>
      var sum := start + count - SIZE_T;
      sum > BITS * |l0| || (start < BITS * |l0| && !LooksFree(l0, start, sum, wide))
  {}

  lemma EmptyRange(l0: seq<U64>, start: nat, wide: U64)
    requires start < SIZE_T && BITS * |l0| < SIZE_T
    ensures ByBuckets(l0, start, 0, wide) == EmptyAnswer(View(l0), start)
  {}

  /** The query inside one bucket. */
  method OneBucketFree(p: Pool, b: nat, s: nat, count: nat, wide: U64) returns (r: Answer)
    requires p.Valid() && b < p.buckets && s < 64
    ensures count < 64 && s + count <= 64 ==> r == Says(FreeRun(p.Slots(), BITS * b + s, count))
    ensures count >= 64 ==> r == Says(And(p.l0[b], ShiftLeft(WideMask(wide), s)) == 0)
  {
    var mask := ShiftLeft(if count < 64 then LowMask(count) else WideMask(wide), s);
    if count < 64 && s + count <= 64 {
      RangeMask(s, count, mask);
      MaskedFree(p.l0[..], b, mask, s, s + count);
    }
    return Says(And(p.l0[b], mask) == 0);
  }

  /**
   The query over more than one bucket: the end of the first one, whole ones, the start of the last one. The
   last one may lie outside the pool, or before the first.
   */
  method BucketsFree(p: Pool, first: nat, s: nat, last: nat, lastBits: nat) returns (r: Answer)
    requires p.Valid() && first < p.buckets && first != last && s < BITS && lastBits < BITS
    ensures var v, start, tail := p.Slots(), BITS * first + s, if lastBits == 0 then BITS else lastBits;
            r == if last >= p.buckets then (if FreeRun(v, start, |v| - start) then Beyond else Says(false))
                 else if first < last then Says(FreeRun(v, start, BITS * last + tail - start))
                 else Says(FreeRun(v, start, BITS - s) && FreeRun(v, BITS * last, tail))
  {
    ghost var v, l0 := p.Slots(), p.l0[..];
    ghost var start, tail := BITS * first + s, if lastBits == 0 then BITS else lastBits;
    ghost var end := if last < p.buckets then last else p.buckets;
    var firstMask := ShiftLeft(UINT64_MAX, s);
    HighMask(s, firstMask);
    MaskedFree(l0, first, firstMask, s, BITS);
    if first < end {
      FreeRunSplit(v, start, BITS - s, BITS * (end - first - 1));
      FreeRunSplit(v, start, BITS * (end - first) - s, tail);
    }
    if And(p.l0[first], firstMask) != 0 {
      return Says(false);
    }
    r := MiddleFree(p, first + 1, last);
    if r != Says(true) {
      return;
    }
    if last >= p.buckets {
      return Beyond;
    }
    var lastMask := if lastBits == 0 then UINT64_MAX else LowMask(lastBits);
    LastMask(lastBits, lastMask);
    MaskedFree(l0, last, lastMask, 0, tail);
    return Says(And(p.l0[last], lastMask) == 0);
  }

  /** The loop over the whole buckets in between. */
  method MiddleFree(p: Pool, from: nat, last: nat) returns (r: Answer)
    requires p.Valid() && from <= p.buckets
    ensures r == if last <= from then Says(true)
                 else if last <= p.buckets then Says(FreeRun(p.Slots(), BITS * from, BITS * (last - from)))
                 else if FreeRun(p.Slots(), BITS * from, BITS * (p.buckets - from)) then Beyond else Says(false)
  {
    ghost var v, end := p.Slots(), if last <= p.buckets then last else p.buckets;
    var b := from;
    while b < last
      invariant from <= b <= p.buckets && (from < last ==> b <= last)
      invariant FreeRun(v, BITS * from, BITS * (b - from))
    {
      if b == p.buckets {
        return Beyond;
      }
      FreeRunSplit(v, BITS * from, BITS * (b - from), BITS);
      FreeRunSplit(v, BITS * from, BITS * (b + 1 - from), BITS * (end - b - 1));
      WholeBucket(p.l0[..], b);
      if p.l0[b] != 0 {
        return Says(false);
      }
      b := b + 1;
    }
    return Says(true);
  }

  lemma RangeMask(s: nat, count: nat, mask: U64)
    requires count < BITS && s < BITS && s + count <= BITS && mask == ShiftLeft(LowMask(count), s)
    ensures forall k :: 0 <= k < BITS ==> Has(mask, k) == (s <= k < s + count)
  {
    forall k | 0 <= k < BITS ensures Has(mask, k) == (s <= k < s + count) {
      BitShiftLeft(LowMask(count), s, k);
      if s <= k { BitLowMask(count, k - s); }
    }
  }

  lemma HighMask(s: nat, mask: U64)
    requires s < BITS && mask == ShiftLeft(UINT64_MAX, s)
    ensures forall k :: 0 <= k < BITS ==> Has(mask, k) == (s <= k)
  {
    FullWord(UINT64_MAX);
    forall k | 0 <= k < BITS ensures Has(mask, k) == (s <= k) { BitShiftLeft(UINT64_MAX, s, k); }
  }

  lemma LastMask(bits: nat, mask: U64)
    requires bits < BITS && mask == if bits == 0 then UINT64_MAX else LowMask(bits)
    ensures forall k :: 0 <= k < BITS ==> Has(mask, k) == (bits == 0 || k < bits)
  {
    FullWord(UINT64_MAX);
    forall k | 0 <= k < BITS ensures Has(mask, k) == (bits == 0 || k < bits) {
      if bits > 0 { BitLowMask(bits, k); }
    }
  }

  lemma WholeBucket(l0: seq<U64>, b: nat)
    requires b < |l0|
    ensures l0[b] == 0 <==> FreeRun(View(l0), BITS * b, BITS)
  {
    FullWord(UINT64_MAX);
    MaskedFree(l0, b, UINT64_MAX, 0, BITS);
    AndIsZero(l0[b], UINT64_MAX);
    ZeroWord(l0[b]);
  }

  /** A query whose sum wraps, and which is told "free": no pool has so many slots. */
  lemma WrappedQueryLooksFree(l0: seq<U64>, wide: U64)
    requires |l0| == 16 && forall b :: 0 <= b < 16 ==> l0[b] == 0
    ensures var start, count := 100, SIZE_T - 60;
            Plus(start, count) == 40 && LooksFree(l0, start, 40, wide) && !FreeRun(View(l0), start, count)
  {
    WholeBucket(l0, 0);
    WholeBucket(l0, 1);
  }

  /** Where shift counts are taken modulo 64, the query for a whole bucket always answers "free". */
  lemma WholeBucketAlwaysFree(x: U64)
    ensures And(x, WideMask(1)) == 0
  {
    assert WideMask(1) == 0;
    AndIsZero(x, 0);
    ZeroWord(0);
  }
}
