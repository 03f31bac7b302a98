/** The 64-bit words of the bit pool, bit by bit. */
module Word64 {
  import opened Arith
  import opened Bits

  const BITS: nat := 64
  const UINT64_MAX: nat := 0xFFFF_FFFF_FFFF_FFFF

  type U64 = x: nat | x <= 0xFFFF_FFFF_FFFF_FFFF

  /** Bit k of a word is set. */
  predicate Has(x: U64, k: nat) {
    Bit(x, k)
  }

  lemma U64Range()
    ensures Pow2(BITS) == UINT64_MAX + 1
  {
    assert Pow(2, 4) == 2 * Pow(2, 3) == 4 * Pow(2, 2) == 8 * Pow(2, 1) == 16;
    PowAdd(2, 4, 4);
    PowAdd(2, 8, 8);
    PowAdd(2, 16, 16);
    PowAdd(2, 32, 32);
  }

  /** 1ULL << s. */
  function One(s: nat): (x: U64)
    requires s < BITS
    ensures x == Pow2(s) > 0
  {
    U64Range();
    PowAdd(2, s, BITS - s);
    PowPositive(2, BITS - s);
    PowPositive(2, s);
    OneFits(Pow2(s), Pow2(BITS - s));
    assert Pow2(BITS - s) == 2 * Pow2(BITS - s - 1);
    DoubledIsMul(1, s);
    Doubled(1, s)
  }

  lemma OneFits(p: nat, q: nat)
    requires p > 0 && q >= 2
    ensures p < p * q
  {
    MulMonotone(p, 2, q);
  }

  function Complement(x: U64): (y: U64) {
    UINT64_MAX - x
  }

  function SetBit(x: U64, s: nat): (y: U64)
    requires s < BITS
  {
    U64Range();
    OrBelow(x, One(s), BITS);
    Or(x, One(s))
  }

  function ClearBit(x: U64, s: nat): (y: U64)
    requires s < BITS
  {
    AndBelow(x, Complement(One(s)));
    And(x, Complement(One(s)))
  }

  lemma BitSet(x: U64, s: nat, k: nat)
    requires s < BITS
    ensures Has(SetBit(x, s), k) == (k == s || Has(x, k))
  {
    BitOr(x, One(s), k);
    BitPow2(s, k);
  }

  lemma BitClear(x: U64, s: nat, k: nat)
    requires s < BITS && k < BITS
    ensures Has(ClearBit(x, s), k) == (k != s && Has(x, k))
  {
    U64Range();
    BitAnd(x, Complement(One(s)), k);
    BitNot(One(s), BITS, k);
    BitPow2(s, k);
  }

  lemma BitComplement(x: U64, k: nat)
    requires k < BITS
    ensures Has(Complement(x), k) == !Has(x, k)
  {
    U64Range();
    BitNot(x, BITS, k);
  }

  lemma SameWord(x: U64, y: U64)
    requires forall k :: 0 <= k < BITS ==> Has(x, k) == Has(y, k)
    ensures x == y
  {
    U64Range();
    forall k | 0 <= k < BITS ensures Bit(x, k) == Bit(y, k) { assert Has(x, k) == Has(y, k); }
    BitsEqual(x, y, BITS);
  }

  /** The word of all ones. */
  lemma FullWord(x: U64)
    ensures x == UINT64_MAX <==> forall k :: 0 <= k < BITS ==> Has(x, k)
  {
    U64Range();
    if x == UINT64_MAX {
      forall k | 0 <= k < BITS ensures Has(x, k) { BitMask(BITS, k); }
    } else if forall k :: 0 <= k < BITS ==> Has(x, k) {
      forall k | 0 <= k < BITS ensures Has(UINT64_MAX, k) { BitMask(BITS, k); }
      SameWord(x, UINT64_MAX);
    }
  }

  lemma ZeroWord(x: U64)
    ensures x == 0 <==> forall k :: 0 <= k < BITS ==> !Has(x, k)
  {
    U64Range();
    if x == 0 {
      forall k | 0 <= k < BITS ensures !Has(x, k) { BitZero(k); }
    } else if forall k :: 0 <= k < BITS ==> !Has(x, k) {
      forall k | 0 <= k < BITS ensures !Has(0, k) { BitZero(k); }
      SameWord(x, 0);
    }
  }

  /** Two words have a common bit exactly when their and is not zero. */
  lemma AndIsZero(x: U64, mask: U64)
    ensures And(x, mask) == 0 <==> forall k :: 0 <= k < BITS && Has(mask, k) ==> !Has(x, k)
  {
    AndBelow(x, mask);
    var both: U64 := And(x, mask);
    ZeroWord(both);
    forall k | 0 <= k < BITS ensures Has(both, k) == (Has(x, k) && Has(mask, k)) { BitAnd(x, mask, k); }
    if both == 0 {
      forall k | 0 <= k < BITS && Has(mask, k) ensures !Has(x, k) { assert !Has(both, k); }
    }
  }

  /** The count of trailing zeros: the portable loop of ctz64, and 64 for zero. */
  method Ctz64(x: U64) returns (n: nat)
    ensures x == 0 ==> n == BITS
    ensures x != 0 ==> n < BITS && Has(x, n)
    ensures forall k :: 0 <= k < n ==> !Has(x, k)
  {
    ZeroWord(x);
    if x == 0 {
      return BITS;
    }
    n := 0;
    var y := x;
    while y % 2 == 0
      invariant y > 0 && y == Halved(x, n)
      invariant forall k :: 0 <= k < n ==> !Has(x, k)
      decreases y
    {
      HalvedNext(x, n);
      BitHalved(x, n, 0);
      y := y / 2;
      n := n + 1;
    }
    BitHalved(x, n, 0);
    U64Range();
    if n >= BITS { BitHigh(x, BITS, n); }
  }

  /** x << s: what leaves the word is lost. */
  function ShiftLeft(x: U64, s: nat): (y: U64)
    requires s < BITS
  {
    U64Range();
    HalvedIsDiv(Doubled(x, s), BITS);
    HalvedLow(Doubled(x, s), BITS);
    DoubledIsMul(1, BITS);
    Doubled(x, s) % (UINT64_MAX + 1)
  }

  lemma BitShiftLeft(x: U64, s: nat, k: nat)
    requires s < BITS && k < BITS
    ensures Has(ShiftLeft(x, s), k) == (s <= k && Has(x, k - s))
  {
    U64Range();
    HalvedIsDiv(Doubled(x, s), BITS);
    BitLow(Doubled(x, s), BITS, k);
    DoubledIsMul(x, s);
    BitShl(x, s, k);
  }

  /** (1ULL << c) - 1 */
  function LowMask(c: nat): (x: U64)
    requires c < BITS
  {
    One(c) - 1
  }

  lemma BitLowMask(c: nat, k: nat)
    requires c < BITS && k < BITS
    ensures Has(LowMask(c), k) == (k < c)
  {
    BitMask(c, k);
  }

  /** The number of ones below place w. */
  function Ones(x: nat, w: nat): nat {
    if w == 0 then 0 else Ones(x, w - 1) + B2N(Bit(x, w - 1))
  }

  lemma {:induction false} OnesHalf(x: nat, w: nat)
    requires w > 0
    ensures Ones(x, w) == x % 2 + Ones(x / 2, w - 1)
  {
    if w > 1 {
      OnesHalf(x, w - 1);
      assert Bit(x, w - 1) == Bit(x / 2, w - 2);
    } else {
      assert Ones(x, 1) == Ones(x, 0) + B2N(Bit(x, 0));
    }
  }

  lemma {:induction false} OnesZero(w: nat)
    ensures Ones(0, w) == 0
  {
    if w > 0 {
      OnesZero(w - 1);
      BitZero(w - 1);
    }
  }

  /** popcount64: the portable loop. */
  method PopCount64(x: U64) returns (n: nat)
    ensures n == Ones(x, BITS)
  {
    n := 0;
    var y: nat := x;
    ghost var w: nat := BITS;
    U64Range();
    DoubledIsMul(1, BITS);
    while y != 0
      invariant y < Doubled(1, w)
      invariant n + Ones(y, w) == Ones(x, BITS)
      decreases y
    {
      assert w != 0 by { assert Doubled(1, 0) == 1; }
      OnesHalf(y, w);
      n := n + y % 2;
      y := y / 2;
      w := w - 1;
    }
    OnesZero(w);
  }
}
