/** Little-endian numbers in base 2^32: the value a ty_bn stands for (includes/ty_bignum.h). */
module Words {
  import opened Arith
  import opened Bits

  const WORD_BITS: nat := 32
  const W: nat := 0x1_0000_0000
  const MAX_VAL: nat := 0xFFFF_FFFF

  type Word = x: nat | x < W

  /** The modulus of numbers of n words. */
  ghost function P(n: nat): (r: nat)
    ensures r > 0
  {
    PowPositive(W, n);
    Pow(W, n)
  }

  /** x * W^i. */
  ghost function Up(x: nat, i: nat): nat {
    if i == 0 then x else W * Up(x, i - 1)
  }

  /** The value of the k lowest words of s. */
  ghost function Prefix(s: seq<Word>, k: nat): nat
    requires k <= |s|
  {
    if k == 0 then 0 else Prefix(s, k - 1) + Up(s[k - 1], k - 1)
  }

  /** The value of s. */
  ghost function Val(s: seq<Word>): nat {
    Prefix(s, |s|)
  }

  lemma WIsPow2()
    ensures W == Pow2(WORD_BITS) && W == 2 * Pow2(31)
  {
    assert Pow(2, 4) == 2 * Pow(2, 3) == 4 * Pow(2, 2) == 8 * Pow(2, 1) == 16;
    PowAdd(2, 4, 4);
    PowAdd(2, 8, 8);
    PowAdd(2, 16, 16);
    assert Pow(2, 32) == Pow(2, 31) * Pow(2, 1) by { PowAdd(2, 31, 1); }
  }

  lemma {:induction false} PIsPow2(n: nat)
    ensures P(n) == Pow2(WORD_BITS * n)
  {
    WIsPow2();
    PowOfPow(2, WORD_BITS, n);
  }

  lemma {:induction false} UpIsMul(x: nat, i: nat)
    ensures Up(x, i) == x * P(i)
  {
    if i > 0 {
      UpIsMul(x, i - 1);
      MulAssoc(x, W, P(i - 1));
      MulAssoc(W, x, P(i - 1));
    }
  }

  lemma {:induction false} UpAdd(x: nat, y: nat, i: nat)
    ensures Up(x + y, i) == Up(x, i) + Up(y, i)
  {
    if i > 0 { UpAdd(x, y, i - 1); }
  }

  lemma {:induction false} UpZero(x: nat, i: nat)
    ensures Up(x, i) == 0 <==> x == 0
  {
    if i > 0 { UpZero(x, i - 1); }
  }

  lemma {:induction false} UpCarry(x: nat, i: nat)
    ensures Up(W * x, i) == Up(x, i + 1)
  {
    if i > 0 { UpCarry(x, i - 1); }
  }

  lemma {:induction false} UpOne(i: nat)
    ensures Up(1, i) == P(i)
  {
    if i > 0 { UpOne(i - 1); }
  }

  /** x, carried out of one word, is x / W carried into the next. */
  lemma CarryStep(x: nat, i: nat)
    ensures Up(x, i) == Up(x % W, i) + Up(x / W, i + 1)
  {
    UpAdd(x % W, W * (x / W), i);
    UpCarry(x / W, i);
  }

  lemma {:induction false} PrefixSame(s: seq<Word>, t: seq<Word>, k: nat)
    requires k <= |s| && k <= |t|
    requires forall j :: 0 <= j < k ==> s[j] == t[j]
    ensures Prefix(s, k) == Prefix(t, k)
  {
    if k > 0 { PrefixSame(s, t, k - 1); }
  }

  lemma {:induction false} PrefixBound(s: seq<Word>, k: nat)
    requires k <= |s|
    ensures Prefix(s, k) < P(k)
  {
    if k > 0 {
      PrefixBound(s, k - 1);
      UpBelow(s[k - 1], k - 1);
    }
  }

  lemma UpBelow(x: Word, i: nat)
    ensures Up(x, i) + P(i) <= P(i + 1)
  {
    UpMonotone(x + 1, W, i);
    UpAdd(x, 1, i);
    UpOne(i);
    UpCarry(1, i);
    UpOne(i + 1);
  }

  lemma {:induction false} UpMonotone(x: nat, y: nat, i: nat)
    requires x <= y
    ensures Up(x, i) <= Up(y, i)
  {
    if i > 0 { UpMonotone(x, y, i - 1); }
  }

  lemma ValBound(s: seq<Word>)
    ensures Val(s) < P(|s|)
  {
    PrefixBound(s, |s|);
  }

  lemma {:induction false} PrefixZero(s: seq<Word>, k: nat)
    requires k <= |s|
    ensures Prefix(s, k) == 0 <==> forall j :: 0 <= j < k ==> s[j] == 0
  {
    if k > 0 {
      PrefixZero(s, k - 1);
      UpZero(s[k - 1], k - 1);
    }
  }

  /** Words at and above place i that agree leave the order of two values to the words below. */
  lemma {:induction false} PrefixOrder(s: seq<Word>, t: seq<Word>, i: nat, k: nat)
    requires i < k <= |s| && k <= |t|
    requires s[i] < t[i] && forall j :: i < j < k ==> s[j] == t[j]
    ensures Prefix(s, k) < Prefix(t, k)
  {
    if k == i + 1 {
      PrefixBound(s, i);
      UpMonotone(s[i] + 1, t[i], i);
      UpAdd(s[i], 1, i);
      UpOne(i);
    } else {
      PrefixOrder(s, t, i, k - 1);
    }
  }

  /** A number has one representation in a given count of words. */
  lemma ValInjective(s: seq<Word>, t: seq<Word>)
    requires |s| == |t| && Val(s) == Val(t)
    ensures s == t
  {
    PrefixInjective(s, t, |s|);
  }

  lemma {:induction false} PrefixInjective(s: seq<Word>, t: seq<Word>, k: nat)
    requires k <= |s| && k <= |t| && Prefix(s, k) == Prefix(t, k)
    ensures forall j :: 0 <= j < k ==> s[j] == t[j]
  {
    if k > 0 {
      if s[k - 1] < t[k - 1] { PrefixOrder(s, t, k - 1, k); }
      if t[k - 1] < s[k - 1] { PrefixOrder(t, s, k - 1, k); }
      PrefixInjective(s, t, k - 1);
    }
  }

  /** Cutting a number at place k gives its quotient and its remainder by P(k). */
  lemma {:induction false} PrefixSplit(s: seq<Word>, k: nat, m: nat)
    requires k <= m <= |s|
    ensures Prefix(s, m) == Prefix(s, k) + Up(Prefix(s[k..], m - k), k)
  {
    if m == k {
      UpZero(0, k);
    } else {
      PrefixSplit(s, k, m - 1);
      UpAdd(Prefix(s[k..], m - 1 - k), Up(s[m - 1], m - 1 - k), k);
      assert s[k..][m - 1 - k] == s[m - 1];
      UpUp(s[m - 1], m - 1 - k, k);
    }
  }

  lemma {:induction false} UpUp(x: nat, i: nat, k: nat)
    ensures Up(Up(x, i), k) == Up(x, i + k)
  {
    if k > 0 { UpUp(x, i, k - 1); }
  }

  lemma PrefixIsRemainder(s: seq<Word>, k: nat)
    requires k <= |s|
    ensures Val(s) % P(k) == Prefix(s, k)
    ensures Val(s) / P(k) == Val(s[k..])
  {
    ValSplit(s, k);
    PrefixBound(s, k);
    QuotRem(Val(s), Val(s[k..]), P(k), Prefix(s, k));
  }

  lemma ValSplit(s: seq<Word>, k: nat)
    requires k <= |s|
    ensures Val(s) == Prefix(s, k) + Val(s[k..]) * P(k)
  {
    PrefixSplit(s, k, |s|);
    UpIsMul(Val(s[k..]), k);
  }

  lemma QuotRem(x: nat, q: nat, m: nat, r: nat)
    requires r < m && x == r + q * m
    ensures x % m == r && x / m == q
  {
    DivModIs(x, q, m, r);
  }

  /** Word-wise or: the bitwise or of the values. */
  lemma {:induction false} PrefixOr(s: seq<Word>, t: seq<Word>, r: seq<Word>, k: nat)
    requires k <= |s| && k <= |t| && k <= |r|
    requires forall j :: 0 <= j < k ==> r[j] == Or(s[j], t[j])
    ensures Prefix(r, k) == Or(Prefix(s, k), Prefix(t, k))
  {
    if k > 0 {
      PrefixOr(s, t, r, k - 1);
      PrefixBound(s, k - 1);
      PrefixBound(t, k - 1);
      OrUp(Prefix(s, k - 1), s[k - 1], Prefix(t, k - 1), t[k - 1], k - 1);
    }
  }

  lemma OrUp(a: nat, x: nat, b: nat, y: nat, i: nat)
    requires a < P(i) && b < P(i)
    ensures Or(a + Up(x, i), b + Up(y, i)) == Or(a, b) + Up(Or(x, y), i)
  {
    PIsPow2(i);
    UpIsMul(x, i);
    UpIsMul(y, i);
    UpIsMul(Or(x, y), i);
    OrParts(a + Up(x, i), x, a, b + Up(y, i), y, b, WORD_BITS * i);
  }

  /** What is left of x after losing a multiple of W^n is x modulo W^n. */
  lemma LostIsModulo(x: nat, lost: nat, r: nat, n: nat)
    requires r + Up(lost, n) == x && r < P(n)
    ensures r == x % P(n)
  {
    UpIsMul(lost, n);
    QuotRem(x, lost, P(n), r);
  }
}
