/**
 Fixed-width numbers (src/ty_bignum.c). A `struct ty_bn` is its one member, an array of words, so
 a `struct ty_bn*` is an `array<Word>` here: two pointers to one struct are one array, and an operand
 that may be the result as well is an operand without a disjointness precondition. The word count n
 (TY_BIGNUM_ARRAY_SIZE, 32 in the default build) is the arrays' length; arithmetic is modulo P(n).
 */
module BigNum {
  import opened Bits
  import opened Words

  const SMALLER: int := -1
  const EQUAL: int := 0
  const LARGER: int := 1

  method Init(bn: array<Word>)
    modifies bn
    ensures forall j :: 0 <= j < bn.Length ==> bn[j] == 0
    ensures Val(bn[..]) == 0
  {
    for i := 0 to bn.Length
      invariant forall j :: 0 <= j < i ==> bn[j] == 0
    {
      bn[i] := 0;
    }
    PrefixZero(bn[..], bn.Length);
  }

  method Assign(dst: array<Word>, src: array<Word>)
    requires dst.Length == src.Length
    modifies dst
    ensures dst[..] == old(src[..])
  {
    for i := 0 to dst.Length
      invariant forall j :: 0 <= j < src.Length ==> src[j] == old(src[j])
      invariant forall j :: 0 <= j < i ==> dst[j] == old(src[j])
    {
      dst[i] := src[i];
    }
  }

  /** The 64-bit integer i, spread over the two lowest words. */
  method FromInt(bn: array<Word>, i: nat)
    requires bn.Length >= 2 && i < W * W
    modifies bn
    ensures Val(bn[..]) == i
    ensures bn[0] == i % W && bn[1] == i / W && forall j :: 2 <= j < bn.Length ==> bn[j] == 0
  {
    Init(bn);
    bn[0] := i % W;
    var tmp := i / W;
    bn[1] := tmp % W;
    assert tmp < W;
    PrefixOfTwo(bn[..], bn.Length);
  }

  lemma {:induction false} PrefixOfTwo(s: seq<Word>, k: nat)
    requires 2 <= k <= |s|
    requires forall j :: 2 <= j < k ==> s[j] == 0
    ensures Prefix(s, k) == s[0] + s[1] * W
  {
    if k == 2 {
      assert Prefix(s, 1) == s[0] && Prefix(s, 2) == Prefix(s, 1) + Up(s[1], 1);
    } else {
      PrefixOfTwo(s, k - 1);
    }
  }

  /** Words at and above place k that agree leave the difference of two values to the words below. */
  lemma {:induction false} PrefixTail(s: seq<Word>, t: seq<Word>, k: nat, m: nat)
    requires k <= m <= |s| && m <= |t|
    requires forall j :: k <= j < m ==> s[j] == t[j]
    ensures Prefix(s, m) - Prefix(t, m) == Prefix(s, k) - Prefix(t, k)
  {
    if k < m { PrefixTail(s, t, k, m - 1); }
  }

  /** One step of a carry loop: what is written below i + 1 once word i of c is set. */
  lemma PrefixStep(before: seq<Word>, after: seq<Word>, i: nat)
    requires i < |before| == |after|
    requires forall j :: 0 <= j < i ==> before[j] == after[j]
    ensures Prefix(after, i + 1) == Prefix(before, i) + Up(after[i], i)
  {
    PrefixSame(before, after, i);
  }

  method Add(a: array<Word>, b: array<Word>, c: array<Word>)
    requires a.Length == b.Length == c.Length
    modifies c
    ensures var sum := old(Val(a[..])) + old(Val(b[..]));
            Val(c[..]) == if sum < P(c.Length) then sum else sum - P(c.Length)
  {
    ghost var sa, sb, n := a[..], b[..], c.Length;
    var carry: int := 0;
    var i := 0;
    UpZero(0, 0);
    while i < c.Length
      invariant i <= n && 0 <= carry <= 1
      invariant forall j :: i <= j < n ==> a[j] == sa[j] && b[j] == sb[j]
      invariant Prefix(c[..], i) + Up(carry, i) == Prefix(sa, i) + Prefix(sb, i)
    {
      ghost var before, carryIn := c[..], carry;
      var tmp: int := a[i] + b[i] + carry;
      carry := if tmp > MAX_VAL then 1 else 0;
      c[i] := tmp % W;
      PrefixStep(before, c[..], i);
      AddStep(sa[i], sb[i], carryIn, tmp, carry, i);
      i := i + 1;
    }
    ValBound(c[..]);
    ValBound(sa);
    ValBound(sb);
    UpOne(n);
    UpZero(0, n);
  }

  lemma AddStep(x: nat, y: nat, carryIn: nat, tmp: nat, carry: nat, i: nat)
    requires tmp == x + y + carryIn && carry == tmp / W
    ensures Up(tmp % W, i) + Up(carry, i + 1) == Up(x, i) + Up(y, i) + Up(carryIn, i)
  {
    CarryStep(tmp, i);
    UpAdd(x + y, carryIn, i);
    UpAdd(x, y, i);
  }

  method Sub(a: array<Word>, b: array<Word>, c: array<Word>)
    requires a.Length == b.Length == c.Length
    modifies c
    ensures var x, y := old(Val(a[..])), old(Val(b[..]));
            Val(c[..]) == if x >= y then x - y else x - y + P(c.Length)
  {
    ghost var sa, sb, n := a[..], b[..], c.Length;
    var borrow: int := 0;
    var i := 0;
    UpZero(0, 0);
    while i < c.Length
      invariant i <= n && 0 <= borrow <= 1
      invariant forall j :: i <= j < n ==> a[j] == sa[j] && b[j] == sb[j]
      invariant Prefix(c[..], i) + Prefix(sb, i) == Prefix(sa, i) + Up(borrow, i)
    {
      ghost var before, borrowIn := c[..], borrow;
      var tmp1: int := a[i] + (MAX_VAL + 1);
      var tmp2: int := b[i] + borrow;
      var res: int := tmp1 - tmp2;
      c[i] := res % W;
      borrow := if res <= MAX_VAL then 1 else 0;
      PrefixStep(before, c[..], i);
      SubStep(sa[i], sb[i], borrowIn, res, borrow, i);
      i := i + 1;
    }
    ValBound(c[..]);
    ValBound(sa);
    ValBound(sb);
    UpOne(n);
    UpZero(0, n);
  }

  lemma SubStep(x: nat, y: nat, borrowIn: nat, res: nat, borrow: nat, i: nat)
    requires res == x + W - (y + borrowIn) && borrow == 1 - res / W
    ensures Up(res % W, i) + Up(y, i) + Up(borrowIn, i) == Up(x, i) + Up(borrow, i + 1)
  {
    CarryStep(res, i);
    UpAdd(res + y, borrowIn, i);
    UpAdd(res, y, i);
    UpAdd(x, W, i);
    UpCarry(1, i);
    UpAdd(borrow, res / W, i + 1);
  }

  method Inc(bn: array<Word>)
    requires bn.Length > 0
    modifies bn
    ensures var x := old(Val(bn[..])); Val(bn[..]) == if x + 1 < P(bn.Length) then x + 1 else 0
  {
    ghost var s, n := bn[..], bn.Length;
    var i := 0;
    while i < bn.Length
      invariant i <= n
      invariant forall j :: i <= j < n ==> bn[j] == s[j]
      invariant Prefix(bn[..], i) + P(i) == Prefix(s, i) + 1
    {
      ghost var before := bn[..];
      var tmp := bn[i];
      var res := (tmp + 1) % W;
      bn[i] := res;
      PrefixStep(before, bn[..], i);
      IncStep(tmp, res, i);
      if res > tmp {
        assert Prefix(bn[..], i + 1) == Prefix(s, i + 1) + 1;
        PrefixTail(bn[..], s, i + 1, n);
        ValBound(bn[..]);
        return;
      }
      i := i + 1;
    }
    ValBound(bn[..]);
    ValBound(s);
  }

  lemma IncStep(tmp: Word, res: Word, i: nat)
    requires res == (tmp + 1) % W
    ensures res > tmp <==> tmp < W - 1
    ensures Up(tmp, i) + P(i) == Up(res, i) + (if tmp == W - 1 then P(i + 1) else 0)
  {
    UpAdd(tmp, 1, i);
    UpOne(i);
    CarryStep(tmp + 1, i);
    UpOne(i + 1);
    UpZero(0, i + 1);
  }

  method Dec(bn: array<Word>)
    requires bn.Length > 0
    modifies bn
    ensures var x := old(Val(bn[..])); Val(bn[..]) == if x > 0 then x - 1 else P(bn.Length) - 1
  {
    ghost var s, n := bn[..], bn.Length;
    var i := 0;
    while i < bn.Length
      invariant i <= n
      invariant forall j :: i <= j < n ==> bn[j] == s[j]
      invariant Prefix(bn[..], i) + 1 == Prefix(s, i) + P(i)
    {
      ghost var before := bn[..];
      var tmp := bn[i];
      var res := (tmp - 1) % W;
      bn[i] := res;
      PrefixStep(before, bn[..], i);
      DecStep(tmp, res, i);
      if !(res > tmp) {
        assert Prefix(bn[..], i + 1) == Prefix(s, i + 1) - 1;
        PrefixTail(bn[..], s, i + 1, n);
        ValBound(bn[..]);
        return;
      }
      i := i + 1;
    }
    ValBound(bn[..]);
    ValBound(s);
  }

  lemma DecStep(tmp: Word, res: Word, i: nat)
    requires res == (tmp - 1) % W
    ensures res > tmp <==> tmp == 0
    ensures Up(res, i) + P(i) == Up(tmp, i) + (if tmp == 0 then P(i + 1) else 0)
  {
    UpAdd(res, 1, i);
    UpOne(i);
    if tmp == 0 {
      UpZero(0, i);
      UpCarry(1, i);
      UpOne(i + 1);
    }
  }

  /** The order of the values, found from the top word down. */
  method Cmp(a: array<Word>, b: array<Word>) returns (r: int)
    requires a.Length == b.Length > 0
    ensures r == if Val(a[..]) < Val(b[..]) then -1 else if Val(a[..]) == Val(b[..]) then 0 else 1
  {
    var i := a.Length;
    while true
      invariant 0 < i <= a.Length
      invariant forall j :: i <= j < a.Length ==> a[j] == b[j]
      decreases i
    {
      i := i - 1;
      if a[i] > b[i] {
        PrefixOrder(b[..], a[..], i, a.Length);
        return LARGER;
      } else if a[i] < b[i] {
        PrefixOrder(a[..], b[..], i, a.Length);
        return SMALLER;
      }
      if i == 0 { break; }
    }
    assert a[..] == b[..];
    return EQUAL;
  }

  method IsZero(bn: array<Word>) returns (r: bool)
    ensures r <==> Val(bn[..]) == 0
  {
    PrefixZero(bn[..], bn.Length);
    for i := 0 to bn.Length
      invariant forall j :: 0 <= j < i ==> bn[j] == 0
    {
      if bn[i] != 0 { return false; }
    }
    return true;
  }

  method OrWords(a: array<Word>, b: array<Word>, c: array<Word>)
    requires a.Length == b.Length == c.Length
    modifies c
    ensures Val(c[..]) == Or(old(Val(a[..])), old(Val(b[..])))
    ensures forall j :: 0 <= j < c.Length ==> c[j] == Or(old(a[..])[j], old(b[..])[j])
  {
    ghost var sa, sb := a[..], b[..];
    WIsPow2();
    for i := 0 to c.Length
      invariant forall j :: i <= j < c.Length ==> a[j] == sa[j] && b[j] == sb[j]
      invariant forall j :: 0 <= j < i ==> c[j] == Or(sa[j], sb[j])
    {
      OrBelow(a[i], b[i], WORD_BITS);
      c[i] := Or(a[i], b[i]);
    }
    PrefixOr(sa, sb, c[..], c.Length);
  }
}
