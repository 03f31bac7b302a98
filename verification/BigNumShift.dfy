/**
 The shifts of src/ty_bignum.c. Two loops there differ from what their callers need. Both are given
 as written, with the exact inputs on which they are right, beside the loop the callers rely on:
 - shr_one takes the incoming bit of word i from word i - 1 (line 495); halving takes it from i + 1;
 - ty_bignum_shr stops its bit loop at the size of a word in bytes (line 308), not at the word count.
 */
module BigNumShift {
  import opened Arith
  import opened Bits
  import opened Words
  import opened BigNum

  // ---- Whole words ----

  /** Shift left by words; `lost` is the part of the number that leaves at the top. */
  method ShlWord(a: array<Word>, nwords: nat) returns (ghost lost: nat)
    modifies a
    ensures forall j :: 0 <= j < a.Length ==> a[j] == if j < nwords then 0 else old(a[j - nwords])
    ensures Val(a[..]) + Up(lost, a.Length) == Up(old(Val(a[..])), nwords)
  {
    ghost var s, n := a[..], a.Length;
    var i := a.Length - 1;
    while i >= nwords
      invariant -1 <= i < n
      invariant i >= nwords - 1 || i == n - 1
      invariant forall j :: 0 <= j <= i ==> a[j] == s[j]
      invariant forall j :: i < j < n ==> j >= nwords && a[j] == s[j - nwords]
    {
      a[i] := a[i - nwords];
      i := i - 1;
    }
    while i >= 0
      invariant -1 <= i < n
      invariant i < nwords
      invariant forall j :: i < j < n ==> a[j] == if j < nwords then 0 else s[j - nwords]
    {
      a[i] := 0;
      i := i - 1;
    }
    lost := ShlWordValue(s, a[..], nwords);
  }

  lemma ShlWordValue(s: seq<Word>, t: seq<Word>, k: nat) returns (lost: nat)
    requires |s| == |t|
    requires forall j :: 0 <= j < |t| ==> t[j] == if j < k then 0 else s[j - k]
    ensures Val(t) + Up(lost, |s|) == Up(Val(s), k)
  {
    var n := |s|;
    if k >= n {
      PrefixZero(t, n);
      lost := Up(Val(s), k - n);
      UpUp(Val(s), k - n, n);
    } else {
      PrefixMoved(s, t, k, n);
      PrefixSplit(s, n - k, n);
      lost := Val(s[n - k..]);
      UpAdd(Prefix(s, n - k), Up(lost, n - k), k);
      UpUp(lost, n - k, k);
    }
  }

  lemma {:induction false} PrefixMoved(s: seq<Word>, t: seq<Word>, k: nat, m: nat)
    requires k <= m <= |t| && m - k <= |s|
    requires forall j :: 0 <= j < k ==> t[j] == 0
    requires forall j :: k <= j < m ==> t[j] == s[j - k]
    ensures Prefix(t, m) == Up(Prefix(s, m - k), k)
  {
    UpZero(0, k);
    if m == k {
      PrefixZero(t, m);
    } else {
      PrefixMoved(s, t, k, m - 1);
      UpAdd(Prefix(s, m - 1 - k), Up(s[m - 1 - k], m - 1 - k), k);
      UpUp(s[m - 1 - k], m - 1 - k, k);
    }
  }

  method ShrWord(a: array<Word>, nwords: nat)
    modifies a
    ensures forall j :: 0 <= j < a.Length ==> a[j] == if j + nwords < a.Length then old(a[j + nwords]) else 0
    ensures Val(a[..]) == old(Val(a[..])) / P(nwords)
  {
    ghost var s, n := a[..], a.Length;
    if nwords >= a.Length {
      for i := 0 to a.Length
        invariant forall j :: 0 <= j < i ==> a[j] == 0
      {
        a[i] := 0;
      }
    } else {
      var i := 0;
      while i < a.Length - nwords
        invariant i <= n - nwords
        invariant forall j :: 0 <= j < i ==> a[j] == s[j + nwords]
        invariant forall j :: i <= j < n ==> a[j] == s[j]
      {
        a[i] := a[i + nwords];
        i := i + 1;
      }
      while i < a.Length
        invariant n - nwords <= i <= n
        invariant forall j :: 0 <= j < i ==> a[j] == if j + nwords < n then s[j + nwords] else 0
      {
        a[i] := 0;
        i := i + 1;
      }
    }
    ShrWordValue(s, a[..], nwords);
  }

  lemma ShrWordValue(s: seq<Word>, t: seq<Word>, k: nat)
    requires |s| == |t|
    requires forall j :: 0 <= j < |t| ==> t[j] == if j + k < |s| then s[j + k] else 0
    ensures Val(t) == Val(s) / P(k)
  {
    var n := |s|;
    if k >= n {
      PrefixZero(t, n);
      ValBound(s);
      PowMonotone(W, n, k);
      DivModIs(Val(s), 0, P(k), Val(s));
    } else {
      PrefixIsRemainder(s, k);
      PrefixSame(t, s[k..], n - k);
      ValSplit(t, n - k);
      PrefixZero(t[n - k..], k);
    }
  }

  // ---- Bits ----

  /** x << k in a word of the word's width is Doubled(x, k) % W, and x >> k is Halved(x, k). */
  lemma WordParts(x: Word, k: nat)
    requires k <= WORD_BITS
    ensures Doubled(x, k) % W == Doubled(Low(x, WORD_BITS - k), k)
    ensures Doubled(x, k) / W == Halved(x, WORD_BITS - k) < Doubled(1, k)
    ensures Doubled(x, k) % W + Doubled(1, k) <= W
  {
    WordIsDoubled(Halved(x, WORD_BITS - k));
    WordIsDoubled(1);
    ShiftParts(x, WORD_BITS - k, k);
    HalvedBelow(x, WORD_BITS - k, k);
    DoubledBits(0, 0, k);
    DivModIs(Doubled(x, k), Halved(x, WORD_BITS - k), W, Doubled(Low(x, WORD_BITS - k), k));
  }

  lemma WordIsDoubled(x: nat)
    ensures Doubled(x, WORD_BITS) == W * x
  {
    DoubledIsMul(x, WORD_BITS);
    WIsPow2();
  }

  /** A word shifted left by k bits, with the top k bits of the word below as its low bits. */
  function ShlWordBits(x: Word, below: Word, k: nat): (r: Word)
    requires 0 < k < WORD_BITS
    ensures r == Doubled(x, k) % W + Doubled(below, k) / W
  {
    WordParts(x, k);
    WordParts(below, k);
    OrDisjoint(Low(x, WORD_BITS - k), Halved(below, WORD_BITS - k), k);
    Or(Doubled(x, k) % W, Halved(below, WORD_BITS - k))
  }

  /** Shifting every word left by k, with carries, multiplies what lies below a place by 2^k. */
  lemma {:induction false} ShlPrefix(s: seq<Word>, t: seq<Word>, k: nat, i: nat)
    requires 0 < i <= |s| == |t|
    requires t[0] == Doubled(s[0], k) % W
    requires forall j :: 0 < j < i ==> t[j] == Doubled(s[j], k) % W + Doubled(s[j - 1], k) / W
    ensures Prefix(t, i) + Up(Doubled(s[i - 1], k) / W, i) == Doubled(Prefix(s, i), k)
  {
    CarryStep(Doubled(s[i - 1], k), i - 1);
    if i > 1 {
      ShlPrefix(s, t, k, i - 1);
      UpAdd(Doubled(s[i - 1], k) % W, Doubled(s[i - 2], k) / W, i - 1);
      DoubledUp(s[i - 1], k, i - 1);
      DoubledBits(Prefix(s, i - 1), Up(s[i - 1], i - 1), k);
    }
  }

  lemma {:induction false} DoubledUp(x: nat, k: nat, i: nat)
    ensures Doubled(Up(x, i), k) == Up(Doubled(x, k), i)
  {
    if k > 0 {
      DoubledUp(x, k - 1, i);
      UpAdd(Doubled(x, k - 1), Doubled(x, k - 1), i);
    }
  }

  lemma ShlValue(s: seq<Word>, t: seq<Word>, k: nat)
    requires |s| == |t| > 0 && 0 < k < WORD_BITS
    requires t[0] == Doubled(s[0], k) % W
    requires forall j :: 0 < j < |s| ==> t[j] == ShlWordBits(s[j], s[j - 1], k)
    ensures Val(t) + Up(Doubled(s[|s| - 1], k) / W, |s|) == Doubled(Val(s), k)
  {
    ShlPrefix(s, t, k, |s|);
  }

  /** The downward loop of shl and shl_one: every word takes its low bits from the word below. */
  method ShlBits(b: array<Word>, nbits: nat) returns (ghost lost: nat)
    requires b.Length > 0 && 0 < nbits < WORD_BITS
    modifies b
    ensures Val(b[..]) + Up(lost, b.Length) == Doubled(old(Val(b[..])), nbits)
  {
    ghost var s, n := b[..], b.Length;
    var i := b.Length - 1;
    while i > 0
      invariant 0 <= i < n
      invariant forall j :: 0 <= j <= i ==> b[j] == s[j]
      invariant forall j :: i < j < n ==> b[j] == ShlWordBits(s[j], s[j - 1], nbits)
    {
      b[i] := ShlWordBits(b[i], b[i - 1], nbits);
      i := i - 1;
    }
    b[i] := Doubled(b[i], nbits) % W;
    ShlValue(s, b[..], nbits);
    lost := Doubled(s[n - 1], nbits) / W;
  }

  /** Doubling; where the double does not fit, the top bit is lost. */
  method ShlOne(a: array<Word>)
    requires a.Length > 0
    modifies a
    ensures var x := old(Val(a[..])); Val(a[..]) == if 2 * x < P(a.Length) then 2 * x else 2 * x - P(a.Length)
  {
    ghost var x, n := Val(a[..]), a.Length;
    ValBound(a[..]);
    ghost var lost := ShlBits(a, 1);
    assert Doubled(x, 1) == 2 * Doubled(x, 0) == 2 * x;
    ValBound(a[..]);
    UpZero(lost, n);
    UpOne(n);
    if lost >= 1 { UpMonotone(1, lost, n); }
    if lost >= 2 { UpMonotone(2, lost, n); UpAdd(1, 1, n); }
  }

  method Shl(a: array<Word>, b: array<Word>, nbits: nat)
    requires a.Length == b.Length > 0
    modifies b
    ensures Val(b[..]) == (old(Val(a[..])) * Pow2(nbits)) % P(b.Length)
  {
    ghost var v, n := Val(a[..]), b.Length;
    ghost var high, low := 0, 0;
    Assign(b, a);
    var nwords, rest := nbits / WORD_BITS, nbits;
    UpZero(0, n);
    if nwords != 0 {
      high := ShlWord(b, nwords);
      rest := nbits - nwords * WORD_BITS;
    }
    assert Val(b[..]) + Up(high, n) == Up(v, nwords);
    ghost var u := Val(b[..]);
    if rest != 0 {
      low := ShlBits(b, rest);
    }
    assert Val(b[..]) + Up(low, n) == Doubled(u, rest);
    ValBound(b[..]);
    ShlTogether(v, nwords, rest, high, u, low, Val(b[..]), n);
  }

  /** Both parts of the shift, and what each of them lost. */
  lemma ShlTogether(v: nat, nwords: nat, rest: nat, high: nat, u: nat, low: nat, r: nat, n: nat)
    requires u + Up(high, n) == Up(v, nwords) && r + Up(low, n) == Doubled(u, rest) && r < P(n)
    ensures r == (v * Pow2(nwords * WORD_BITS + rest)) % P(n)
  {
    var lost := ShlLost(v, nwords, rest, high, u, low, r, n);
    LostIsModulo(Doubled(Up(v, nwords), rest), lost, r, n);
    ShlScale(v, nwords, rest);
  }

  lemma ShlLost(v: nat, nwords: nat, rest: nat, high: nat, u: nat, low: nat, r: nat, n: nat) returns (lost: nat)
    requires u + Up(high, n) == Up(v, nwords) && r + Up(low, n) == Doubled(u, rest)
    ensures r + Up(lost, n) == Doubled(Up(v, nwords), rest)
  {
    lost := low + Doubled(high, rest);
    DoubledBits(u, Up(high, n), rest);
    DoubledUp(high, rest, n);
    UpAdd(low, Doubled(high, rest), n);
  }

  lemma ShlScale(v: nat, nwords: nat, rest: nat)
    ensures Doubled(Up(v, nwords), rest) == v * Pow2(nwords * WORD_BITS + rest)
  {
    UpIsMul(v, nwords);
    DoubledIsMul(Up(v, nwords), rest);
    PIsPow2(nwords);
    assert WORD_BITS * nwords == nwords * WORD_BITS;
    PowAdd(2, nwords * WORD_BITS, rest);
    MulAssoc(v, P(nwords), Pow2(rest));
  }

  /** A word shifted right by k bits, with the low k bits of the word `above` as its top bits. */
  function ShrWordBits(x: Word, above: Word, k: nat): (r: Word)
    requires 0 < k < WORD_BITS
    ensures r == Halved(x, k) + Doubled(Low(above, k), WORD_BITS - k)
  {
    WordParts(above, WORD_BITS - k);
    WordIsDoubled(1);
    HalvedBelow(x, k, WORD_BITS - k);
    OrDisjoint(Low(above, k), Halved(x, k), WORD_BITS - k);
    Or(Halved(x, k), Doubled(above, WORD_BITS - k) % W)
  }

  /** The shifted word, back in place: the bits it lost have gone and those it took have come. */
  ghost predicate ShrPlaced(x: nat, above: nat, r: nat, k: nat) {
    Doubled(r, k) + Low(x, k) == x + W * Low(above, k)
  }

  lemma ShrBack(x: Word, above: Word, k: nat)
    requires 0 < k < WORD_BITS
    ensures ShrPlaced(x, above, ShrWordBits(x, above, k), k)
  {
    var c := Low(above, k);
    HalvedLow(x, k);
    DoubledBits(Halved(x, k), Doubled(c, WORD_BITS - k), k);
    DoubledTwice(c, WORD_BITS - k, k);
    WordIsDoubled(c);
  }

  lemma {:induction false} ShrPrefix(s: seq<Word>, t: seq<Word>, k: nat, i: nat)
    requires i < |s| == |t|
    requires forall j :: 0 <= j < i ==> ShrPlaced(s[j], s[j + 1], t[j], k)
    ensures Doubled(Prefix(t, i), k) + Low(s[0], k) == Prefix(s, i) + Up(Low(s[i], k), i)
  {
    if i == 0 {
      DoubledBits(0, 0, k);
    } else {
      ShrPrefix(s, t, k, i - 1);
      ShrStep(Prefix(s, i - 1), Prefix(t, i - 1), Low(s[0], k), s[i - 1], t[i - 1], s[i], k, i - 1);
    }
  }

  lemma ShrStep(v: nat, u: nat, r: nat, x: nat, y: nat, z: nat, k: nat, i: nat)
    requires Doubled(u, k) + r == v + Up(Low(x, k), i)
    requires ShrPlaced(x, z, y, k)
    ensures Doubled(u + Up(y, i), k) + r == (v + Up(x, i)) + Up(Low(z, k), i + 1)
  {
    DoubledBits(u, Up(y, i), k);
    DoubledUp(y, k, i);
    UpAdd(Doubled(y, k), Low(x, k), i);
    UpAdd(x, W * Low(z, k), i);
    UpCarry(Low(z, k), i);
  }

  /** The bit loop of a right shift that handles the words up to `last` and leaves those above. */
  method ShrBits(b: array<Word>, nbits: nat, last: nat)
    requires last < b.Length && 0 < nbits < WORD_BITS
    modifies b
    ensures old(Prefix(b[..], last + 1)) <= old(Val(b[..]))
    ensures Val(b[..]) == Halved(old(Prefix(b[..], last + 1)), nbits)
                          + (old(Val(b[..])) - old(Prefix(b[..], last + 1)))
  {
    ghost var s, n := b[..], b.Length;
    var i := 0;
    while i < last
      invariant i <= last
      invariant forall j :: i <= j < n ==> b[j] == s[j]
      invariant forall j :: 0 <= j < i ==> b[j] == ShrWordBits(s[j], s[j + 1], nbits)
    {
      b[i] := ShrWordBits(b[i], b[i + 1], nbits);
      i := i + 1;
    }
    HalvedAtMost(b[i], nbits);
    b[i] := Halved(b[i], nbits);
    ShrPart(s, b[..], nbits, last);
  }

  lemma ShrPart(s: seq<Word>, t: seq<Word>, k: nat, last: nat)
    requires last < |s| == |t| && 0 < k < WORD_BITS
    requires forall j :: 0 <= j < last ==> t[j] == ShrWordBits(s[j], s[j + 1], k)
    requires t[last] == Halved(s[last], k)
    requires forall j :: last < j < |s| ==> t[j] == s[j]
    ensures Prefix(s, last + 1) <= Val(s)
    ensures Val(t) == Halved(Prefix(s, last + 1), k) + (Val(s) - Prefix(s, last + 1))
  {
    ShrValue(s, t, k, last);
    PrefixTail(t, s, last + 1, |s|);
    PrefixMonotone(s, last + 1, |s|);
  }

  lemma {:induction false} PrefixMonotone(s: seq<Word>, k: nat, m: nat)
    requires k <= m <= |s|
    ensures Prefix(s, k) <= Prefix(s, m)
  {
    if k < m { PrefixMonotone(s, k, m - 1); }
  }

  lemma ShrValue(s: seq<Word>, t: seq<Word>, k: nat, last: nat)
    requires last < |s| == |t| && 0 < k < WORD_BITS
    requires forall j :: 0 <= j < last ==> t[j] == ShrWordBits(s[j], s[j + 1], k)
    requires t[last] == Halved(s[last], k)
    ensures Prefix(t, last + 1) == Halved(Prefix(s, last + 1), k)
  {
    forall j | 0 <= j < last ensures ShrPlaced(s[j], s[j + 1], t[j], k) { ShrBack(s[j], s[j + 1], k); }
    ShrPrefix(s, t, k, last);
    HalvedLow(s[last], k);
    LowZero(k);
    ShrStep(Prefix(s, last), Prefix(t, last), Low(s[0], k), s[last], t[last], 0, k, last);
    UpZero(0, last + 1);
    HalvedLow(s[0], k);
    HalvedUnique(Prefix(s, last + 1), Prefix(t, last + 1), Low(s[0], k), k);
  }

  lemma {:induction false} HalvedAtMost(x: nat, k: nat)
    ensures Halved(x, k) <= x
  {
    if k > 0 { HalvedAtMost(x / 2, k - 1); }
  }

  lemma {:induction false} LowZero(k: nat)
    ensures Low(0, k) == 0
  {
    if k > 0 { LowZero(k - 1); }
  }

  lemma BelowMultiple(r: nat, q: nat, p: nat)
    requires r < q
    ensures r * p + p <= q * p
  {
    MulMonotone(p, r + 1, q);
    assert (r + 1) * p == r * p + p;
  }

  lemma DivTwice(x: nat, m: nat, k: nat)
    requires m > 0 && k > 0
    ensures m * k > 0 && (x / m) / k == x / (m * k)
  {
    MulPositive(m, k);
    var q, r := (x / m) / k, (x / m) % k;
    assert x == (q * k + r) * m + x % m;
    assert (q * k + r) * m == q * (m * k) + r * m;
    BelowMultiple(r, k, m);
    DivModIs(x, q, m * k, r * m + x % m);
  }

  /** Halving, as div, mod and isqrt need it: shr_one with the incoming bit from word i + 1. */
  method ShrOne(a: array<Word>)
    requires a.Length > 0
    modifies a
    ensures Val(a[..]) == old(Val(a[..])) / 2
  {
    ghost var v := Val(a[..]);
    ShrBits(a, 1, a.Length - 1);
    assert Halved(v, 1) == Halved(v / 2, 0) == v / 2;
  }

  /** The common part of the right shift: whole words first, then the bits of the words up to `last`. */
  method ShrUpTo(a: array<Word>, b: array<Word>, nbits: nat, last: nat)
    requires a.Length == b.Length && last < b.Length
    modifies b
    ensures var x := old(Val(a[..])) / P(nbits / WORD_BITS);
            Val(b[..]) == Halved(x % P(last + 1), nbits % WORD_BITS) + (x - x % P(last + 1))
  {
    Assign(b, a);
    var nwords, rest := nbits / WORD_BITS, nbits;
    if nwords != 0 {
      ShrWord(b, nwords);
      rest := nbits - nwords * WORD_BITS;
    }
    assert rest == nbits % WORD_BITS;
    assert Val(b[..]) == old(Val(a[..])) / P(nwords) by { assert P(0) == 1; }
    PrefixIsRemainder(b[..], last + 1);
    if rest != 0 {
      ShrBits(b, rest, last);
    }
  }

  /** b = a >> nbits, with the bit loop over all words. */
  method Shr(a: array<Word>, b: array<Word>, nbits: nat)
    requires a.Length == b.Length > 0
    modifies b
    ensures Pow2(nbits) > 0
    ensures Val(b[..]) == old(Val(a[..])) / Pow2(nbits)
  {
    ghost var v := Val(a[..]);
    ValBound(a[..]);
    ShrUpTo(a, b, nbits, b.Length - 1);
    ShrTogether(v, nbits);
    WholeQuotient(v, P(nbits / WORD_BITS), P(b.Length));
  }

  lemma WholeQuotient(v: nat, d: nat, m: nat)
    requires d > 0 && v < m
    ensures (v / d) % m == v / d && v / d - (v / d) % m == 0
  {
    assert v / d <= v by { assert v == (v / d) * d + v % d; MulMonotone(v / d, 1, d); }
    DivModIs(v / d, 0, m, v / d);
  }

  lemma ShrTogether(v: nat, nbits: nat)
    ensures Pow2(nbits) > 0
    ensures Halved(v / P(nbits / WORD_BITS), nbits % WORD_BITS) == v / Pow2(nbits)
  {
    var k, r := nbits / WORD_BITS, nbits % WORD_BITS;
    PowPositive(2, nbits);
    PIsPow2(k);
    PowAdd(2, WORD_BITS * k, r);
    HalvedIsDiv(v / P(k), r);
    DivTwice(v, P(k), Pow2(r));
  }

  // ---- The two loops as written ----

  const WORD_SIZE: nat := 4

  /** ty_bignum_shr as written: the bit loop covers the WORD_SIZE lowest words only. */
  method ShrAsWritten(a: array<Word>, b: array<Word>, nbits: nat)
    requires a.Length == b.Length >= WORD_SIZE
    modifies b
    ensures Pow2(nbits) > 0
    ensures Val(b[..]) == old(Val(a[..])) / Pow2(nbits)
      <==> nbits % WORD_BITS == 0 || old(Val(a[..])) / P(nbits / WORD_BITS) < Pow2(128)
  {
    ghost var v := Val(a[..]);
    ShrUpTo(a, b, nbits, WORD_SIZE - 1);
    ShrTogether(v, nbits);
    PIsPow2(WORD_SIZE);
    ghost var r, x := nbits % WORD_BITS, v / P(nbits / WORD_BITS);
    HalvedIsDiv(x, r);
    HalvedIsDiv(x % P(WORD_SIZE), r);
    if r == 0 {
      assert Halved(x % P(WORD_SIZE), 0) == x % P(WORD_SIZE) && Halved(x, 0) == x;
    } else {
      assert Pow2(r) == 2 * Pow2(r - 1) && Pow2(r - 1) > 0 by { PowPositive(2, r - 1); }
      ShrExact(x, P(WORD_SIZE), Pow2(r));
    }
  }

  lemma ShrExact(x: nat, q: nat, m: nat)
    requires q >= 4 && m >= 2
    ensures (x % q) / m + (x - x % q) == x / m <==> x < q
  {
    if x < q {
      DivModIs(x, 0, q, x);
    } else {
      var l, h := x % q, x - x % q;
      assert h == (x / q) * q > 0;
      MulMonotone(q, 1, x / q);
      QuotientOfSum(h, l, m);
    }
  }

  lemma QuotientOfSum(h: nat, l: nat, m: nat)
    requires h >= 4 && m >= 2
    ensures (h + l) / m < l / m + h
  {
    var d := l / m + h - (h + l) / m;
    assert h + l == ((h + l) / m) * m + (h + l) % m;
    assert l == (l / m) * m + l % m;
    assert d * m == (l / m) * m + h * m - ((h + l) / m) * m;
    assert d * m == h * m - h + (h + l) % m - l % m;
    assert h * m >= h * 2 by { MulMonotone(h, 2, m); }
    assert h * (m - 1) == h * m - h >= 4 * (m - 1) by { MulMonotone(m - 1, 4, h); }
    assert d * m > 0;
  }

  /** The bit that shr_one as written moves into the top of word i. */
  function Incoming(s: seq<Word>, below: Word, i: nat): nat
    requires i < |s|
  {
    if i == 0 then below % 2 else (s[i - 1] / 2) % 2
  }

  /** Where shr_one as written halves: the bit it moves into every word is the bit that belongs there. */
  ghost predicate ShrOneHalves(s: seq<Word>, below: Word)
    requires |s| > 0
  {
    forall i :: 0 <= i < |s| - 1 ==> Incoming(s, below, i) == s[i + 1] % 2
  }

  /** shr_one as written. Word 0 reads the word that lies below the array in memory: `below`. */
  method ShrOneAsWritten(a: array<Word>, below: Word)
    requires a.Length > 0
    modifies a
    ensures Val(a[..]) == old(Val(a[..])) / 2 <==> ShrOneHalves(old(a[..]), below)
    ensures ShiftedAsWritten(old(a[..]), a[..], below)
  {
    ghost var s, n := a[..], a.Length;
    var i := 0;
    while i < a.Length - 1
      invariant 0 <= i <= n - 1
      invariant forall j :: i <= j < n ==> a[j] == s[j]
      invariant forall j :: 0 <= j < i ==> WrittenAt(s, a[..], below, j)
    {
      ghost var before := a[..];
      a[i] := ShrWordBits(a[i], if i == 0 then below else a[i - 1], 1);
      assert forall j :: 0 <= j < i ==> WrittenAt(s, before, below, j) ==> WrittenAt(s, a[..], below, j);
      i := i + 1;
    }
    ghost var before := a[..];
    HalvedAtMost(a[a.Length - 1], 1);
    a[a.Length - 1] := Halved(a[a.Length - 1], 1);
    assert forall j :: 0 <= j < n - 1 ==> WrittenAt(s, before, below, j) ==> WrittenAt(s, a[..], below, j);
    ShrOneExact(s, a[..], below);
  }

  /** What the loop as written puts into word i, from the word before it. */
  ghost predicate WrittenAt(s: seq<Word>, t: seq<Word>, below: Word, i: nat)
    requires i < |s| == |t|
  {
    t[i] == ShrWordBits(s[i], if i == 0 then below else t[i - 1], 1)
  }

  /** t is what shr_one as written leaves of s. */
  ghost predicate ShiftedAsWritten(s: seq<Word>, t: seq<Word>, below: Word) {
    && |s| == |t| > 0 && t[|s| - 1] == Halved(s[|s| - 1], 1)
    && forall i {:trigger WrittenAt(s, t, below, i)} :: 0 <= i < |s| - 1 ==> WrittenAt(s, t, below, i)
  }

  lemma ShrOneExact(s: seq<Word>, t: seq<Word>, below: Word)
    requires |s| == |t| > 0 && t[|s| - 1] == Halved(s[|s| - 1], 1)
    requires forall i :: 0 <= i < |s| - 1 ==> WrittenAt(s, t, below, i)
    ensures Val(t) == Val(s) / 2 <==> ShrOneHalves(s, below)
  {
    var h := HalfOf(s);
    forall i | 0 <= i < |s| - 1 ensures t[i] == h[i] <==> Incoming(s, below, i) == s[i + 1] % 2 {
      assert WrittenAt(s, t, below, i);
      if i > 0 { assert WrittenAt(s, t, below, i - 1); }
      WrittenBit(s, t, below, i);
    }
    if Val(t) == Val(h) {
      ValInjective(t, h);
      forall i | 0 <= i < |s| - 1 ensures Incoming(s, below, i) == s[i + 1] % 2 { assert t[i] == h[i]; }
    }
    if ShrOneHalves(s, below) {
      forall i | 0 <= i < |s| ensures t[i] == h[i] {
        if i < |s| - 1 { assert Incoming(s, below, i) == s[i + 1] % 2; }
      }
      assert t == h;
    }
  }

  /** The words of the half of s. */
  lemma HalfOf(s: seq<Word>) returns (h: seq<Word>)
    requires |s| > 0
    ensures |h| == |s| && Val(h) == Val(s) / 2
    ensures h[|s| - 1] == Halved(s[|s| - 1], 1)
    ensures forall i :: 0 <= i < |s| - 1 ==> h[i] == ShrWordBits(s[i], s[i + 1], 1)
  {
    h := seq(|s| - 1, i requires 0 <= i < |s| - 1 => ShrWordBits(s[i], s[i + 1], 1));
    HalvedAtMost(s[|s| - 1], 1);
    h := h + [Halved(s[|s| - 1], 1)];
    ShrValue(s, h, 1, |s| - 1);
    assert Pow2(1) == 2 * Pow2(0) == 2;
  }

  lemma WrittenBit(s: seq<Word>, t: seq<Word>, below: Word, i: nat)
    requires i + 1 < |s| == |t| && WrittenAt(s, t, below, i)
    requires i > 0 ==> WrittenAt(s, t, below, i - 1)
    ensures t[i] == ShrWordBits(s[i], s[i + 1], 1) <==> Incoming(s, below, i) == s[i + 1] % 2
  {
    OneBit(s[i], s[i + 1]);
    if i == 0 {
      OneBit(s[0], below);
    } else {
      OneBit(s[i], t[i - 1]);
      OneBit(s[i - 1], if i == 1 then below else t[i - 2]);
    }
    DoubledBits(0, 0, 31);
  }

  /** A shift by one: half the word, with the incoming bit on top and its second bit at the bottom. */
  lemma OneBit(x: Word, y: Word)
    ensures ShrWordBits(x, y, 1) == x / 2 + (if y % 2 == 1 then Doubled(1, 31) else 0)
    ensures ShrWordBits(x, y, 1) % 2 == (x / 2) % 2
  {
    OneBitLow(x, y);
    DoubledBits(0, 0, 31);
    DoubledEven(y % 2, 31);
  }

  lemma OneBitLow(x: nat, y: nat)
    ensures Low(y, 1) == y % 2 && Halved(x, 1) == x / 2
  {
    assert Low(y, 1) == 2 * Low(y / 2, 0) + y % 2;
    assert Halved(x, 1) == Halved(x / 2, 0);
  }

  lemma DoubledEven(x: nat, k: nat)
    requires k > 0
    ensures Doubled(x, k) % 2 == 0
  {
    assert Doubled(x, k) == 2 * Doubled(x, k - 1);
  }

  /** An input of div's first step that shr_one as written does not halve: current = 2. */
  lemma ShrOneMissesTwo(n: nat, s: seq<Word>, below: Word)
    requires n >= 3 && |s| == n && s[0] == 2 && forall i :: 0 < i < n ==> s[i] == 0
    ensures !ShrOneHalves(s, below)
  {
    assert Incoming(s, below, 1) == 1 && s[2] == 0;
  }
}
