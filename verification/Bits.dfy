/** Unsigned words as naturals: bit tests, the bitwise operators and the shifts. */
module Bits {
  import opened Arith

  function Bit(x: nat, k: nat): bool {
    if k == 0 then x % 2 == 1 else Bit(x / 2, k - 1)
  }

  function B2N(b: bool): nat { if b then 1 else 0 }

  function Or(x: nat, y: nat): nat
    decreases x
  {
    if x == 0 then y else 2 * Or(x / 2, y / 2) + B2N(x % 2 == 1 || y % 2 == 1)
  }

  function And(x: nat, y: nat): nat {
    if x == 0 then 0 else 2 * And(x / 2, y / 2) + B2N(x % 2 == 1 && y % 2 == 1)
  }

  /** One's complement in a word of w bits. */
  function Not(x: nat, w: nat): nat
    requires x < Pow2(w)
  {
    Pow2(w) - 1 - x
  }

  lemma {:induction false} BitOr(x: nat, y: nat, k: nat)
    ensures Bit(Or(x, y), k) == (Bit(x, k) || Bit(y, k))
  {
    if x == 0 {
      BitZero(k);
    } else {
      var t := Or(x / 2, y / 2);
      var z := Or(x, y);
      assert z == 2 * t + B2N(x % 2 == 1 || y % 2 == 1);
      if k > 0 {
        BitOr(x / 2, y / 2, k - 1);
        assert z / 2 == t;
      }
    }
  }

  lemma {:induction false} BitAnd(x: nat, y: nat, k: nat)
    ensures Bit(And(x, y), k) == (Bit(x, k) && Bit(y, k))
  {
    if x == 0 {
      BitZero(k);
    } else {
      var t := And(x / 2, y / 2);
      var z := And(x, y);
      assert z == 2 * t + B2N(x % 2 == 1 && y % 2 == 1);
      if k > 0 {
        BitAnd(x / 2, y / 2, k - 1);
        assert z / 2 == t;
      }
    }
  }

  lemma {:induction false} BitZero(k: nat)
    ensures !Bit(0, k)
  {
    if k > 0 { BitZero(k - 1); }
  }

  lemma {:induction false} BitNot(x: nat, w: nat, k: nat)
    requires x < Pow2(w) && k < w
    ensures Bit(Not(x, w), k) == !Bit(x, k)
  {
    assert Pow2(w) == 2 * Pow2(w - 1);
    if k > 0 {
      BitNot(x / 2, w - 1, k - 1);
      assert Not(x, w) / 2 == Not(x / 2, w - 1);
    }
  }

  lemma {:induction false} BitHigh(x: nat, w: nat, k: nat)
    requires x < Pow2(w) && w <= k
    ensures !Bit(x, k)
  {
    if w == 0 {
      BitZero(k);
    } else {
      BitHigh(x / 2, w - 1, k - 1);
    }
  }

  /** Two words of the same width with the same bits are the same word. */
  lemma {:induction false} BitsEqual(x: nat, y: nat, w: nat)
    requires x < Pow2(w) && y < Pow2(w)
    requires forall k :: 0 <= k < w ==> Bit(x, k) == Bit(y, k)
    ensures x == y
  {
    if w > 0 {
      assert Bit(x, 0) == Bit(y, 0);
      forall k | 0 <= k < w - 1 ensures Bit(x / 2, k) == Bit(y / 2, k) {
        assert Bit(x, k + 1) == Bit(y, k + 1);
      }
      BitsEqual(x / 2, y / 2, w - 1);
    }
  }

  /** A shift to the left by s moves bit k - s to place k. */
  lemma {:induction false} BitShl(x: nat, s: nat, k: nat)
    ensures Bit(x * Pow2(s), k) == (s <= k && Bit(x, k - s))
  {
    if s == 0 {
      assert x * Pow2(s) == x;
    } else {
      var y := x * Pow2(s - 1);
      assert x * Pow2(s) == 2 * y;
      if k > 0 {
        BitShl(x, s - 1, k - 1);
        assert (2 * y) / 2 == y;
      }
    }
  }

  lemma {:induction false} BitPow2(s: nat, k: nat)
    ensures Bit(Pow2(s), k) == (k == s)
  {
    BitShl(1, s, k);
    assert 1 * Pow2(s) == Pow2(s);
    if s < k { BitHigh(1, 1, k - s); }
  }

  lemma {:induction false} BitMask(c: nat, k: nat)
    ensures Pow2(c) > 0
    ensures Bit(Pow2(c) - 1, k) == (k < c)
  {
    PowPositive(2, c);
    if c == 0 {
      BitZero(k);
    } else if k > 0 {
      BitMask(c - 1, k - 1);
      assert (Pow2(c) - 1) / 2 == Pow2(c - 1) - 1;
    } else {
      PowPositive(2, c - 1);
    }
  }

  lemma {:induction false} OrBelow(x: nat, y: nat, w: nat)
    requires x < Pow2(w) && y < Pow2(w)
    ensures Or(x, y) < Pow2(w)
  {
    if x != 0 {
      if w == 0 { assert false; } else {
        OrBelow(x / 2, y / 2, w - 1);
      }
    }
  }

  lemma {:induction false} AndBelow(x: nat, y: nat)
    ensures And(x, y) <= x
  {
    if x != 0 { AndBelow(x / 2, y / 2); }
  }

  lemma {:induction false} OrZero(x: nat)
    ensures Or(x, 0) == x
  {
    if x != 0 { OrZero(x / 2); }
  }

  /** x * 2^s by doubling. */
  function Doubled(x: nat, s: nat): nat {
    if s == 0 then x else 2 * Doubled(x, s - 1)
  }

  lemma {:induction false} DoubledIsMul(x: nat, s: nat)
    ensures Doubled(x, s) == x * Pow2(s)
  {
    if s > 0 {
      DoubledIsMul(x, s - 1);
      MulAssoc(x, 2, Pow2(s - 1));
      MulAssoc(2, x, Pow2(s - 1));
    }
  }

  /** The operator works on the halves of a number separately, wherever it is cut. */
  lemma {:induction false} OrSplit(x: nat, h1: nat, l1: nat, y: nat, h2: nat, l2: nat, s: nat)
    requires l1 < Doubled(1, s) && l2 < Doubled(1, s)
    requires x == Doubled(h1, s) + l1 && y == Doubled(h2, s) + l2
    ensures Or(x, y) == Doubled(Or(h1, h2), s) + Or(l1, l2)
    decreases s
  {
    if s == 0 {
      assert l1 == 0 && l2 == 0 && x == h1 && y == h2;
    } else {
      OrSplit(x / 2, h1, l1 / 2, y / 2, h2, l2 / 2, s - 1);
      OrStep(x, y);
      OrStep(l1, l2);
    }
  }

  lemma OrStep(x: nat, y: nat)
    ensures Or(x, y) == 2 * Or(x / 2, y / 2) + B2N(x % 2 == 1 || y % 2 == 1)
  {}

  lemma OrParts(x: nat, h1: nat, l1: nat, y: nat, h2: nat, l2: nat, s: nat)
    requires l1 < Pow2(s) && l2 < Pow2(s)
    requires x == h1 * Pow2(s) + l1 && y == h2 * Pow2(s) + l2
    ensures Or(x, y) == Or(h1, h2) * Pow2(s) + Or(l1, l2)
  {
    DoubledIsMul(h1, s);
    DoubledIsMul(h2, s);
    DoubledIsMul(1, s);
    DoubledIsMul(Or(h1, h2), s);
    OrSplit(x, h1, l1, y, h2, l2, s);
  }

  /** Or of operands without a common bit place is their sum. */
  lemma OrDisjoint(h: nat, l: nat, s: nat)
    requires l < Doubled(1, s)
    ensures Or(Doubled(h, s), l) == Doubled(h, s) + l
    ensures Or(l, Doubled(h, s)) == Doubled(h, s) + l
  {
    DoubledBits(0, 0, s);
    OrSplit(Doubled(h, s), h, 0, l, 0, l, s);
    OrSplit(l, 0, l, Doubled(h, s), h, 0, s);
    OrZero(h);
    OrZero(l);
  }

  // ---- Shifts ----

  /** x shifted right by k. */
  function Halved(x: nat, k: nat): nat {
    if k == 0 then x else Halved(x / 2, k - 1)
  }

  /** The k bits that a right shift by k drops. */
  function Low(x: nat, k: nat): nat {
    if k == 0 then 0 else 2 * Low(x / 2, k - 1) + x % 2
  }

  lemma {:induction false} HalvedLow(x: nat, k: nat)
    ensures x == Doubled(Halved(x, k), k) + Low(x, k)
    ensures Low(x, k) < Doubled(1, k)
  {
    if k > 0 { HalvedLow(x / 2, k - 1); }
  }

  lemma {:induction false} HalvedUnique(x: nat, y: nat, r: nat, k: nat)
    requires x == Doubled(y, k) + r && r < Doubled(1, k)
    ensures Halved(x, k) == y && Low(x, k) == r
  {
    if k > 0 { HalvedUnique(x / 2, y, r / 2, k - 1); }
  }

  lemma HalvedIsDiv(x: nat, k: nat)
    ensures Pow2(k) > 0 && Halved(x, k) == x / Pow2(k) && Low(x, k) == x % Pow2(k)
  {
    PowPositive(2, k);
    HalvedLow(x, k);
    DoubledIsMul(Halved(x, k), k);
    DoubledIsMul(1, k);
    DivModIs(x, Halved(x, k), Pow2(k), Low(x, k));
  }

  lemma {:induction false} DoubledBits(x: nat, y: nat, k: nat)
    ensures Doubled(x + y, k) == Doubled(x, k) + Doubled(y, k)
    ensures Doubled(0, k) == 0 && Doubled(1, k) > 0
  {
    if k > 0 { DoubledBits(x, y, k - 1); }
  }

  lemma {:induction false} DoubledMonotone(x: nat, y: nat, k: nat)
    requires x <= y
    ensures Doubled(x, k) <= Doubled(y, k)
  {
    if k > 0 { DoubledMonotone(x, y, k - 1); }
  }

  lemma {:induction false} DoubledTwice(x: nat, m: nat, k: nat)
    ensures Doubled(Doubled(x, m), k) == Doubled(x, m + k)
  {
    if k > 0 { DoubledTwice(x, m, k - 1); }
  }

  /** x shifted left by k: what lies above place m + k is what a right shift by m leaves. */
  lemma ShiftParts(x: nat, m: nat, k: nat)
    ensures Doubled(x, k) == Doubled(Halved(x, m), m + k) + Doubled(Low(x, m), k)
    ensures Doubled(Low(x, m), k) + Doubled(1, k) <= Doubled(1, m + k)
  {
    HalvedLow(x, m);
    DoubledBits(Doubled(Halved(x, m), m), Low(x, m), k);
    DoubledTwice(Halved(x, m), m, k);
    DoubledMonotone(Low(x, m) + 1, Doubled(1, m), k);
    DoubledBits(Low(x, m), 1, k);
    DoubledTwice(1, m, k);
  }

  lemma {:induction false} HalvedBelow(x: nat, m: nat, k: nat)
    requires x < Doubled(1, m + k)
    ensures Halved(x, m) < Doubled(1, k)
  {
    if m > 0 { HalvedBelow(x / 2, m - 1, k); }
  }

  lemma {:induction false} HalvedNext(x: nat, k: nat)
    ensures Halved(x, k + 1) == Halved(x, k) / 2
  {
    if k > 0 { HalvedNext(x / 2, k - 1); }
  }

  lemma {:induction false} BitHalved(x: nat, m: nat, k: nat)
    ensures Bit(Halved(x, m), k) == Bit(x, m + k)
  {
    if m > 0 { BitHalved(x / 2, m - 1, k); }
  }

  lemma {:induction false} BitLow(x: nat, w: nat, k: nat)
    requires k < w
    ensures Bit(Low(x, w), k) == Bit(x, k)
  {
    var l := Low(x / 2, w - 1);
    assert Low(x, w) == 2 * l + x % 2;
    if k > 0 {
      BitLow(x / 2, w - 1, k - 1);
      assert (2 * l + x % 2) / 2 == l;
    }
  }
}
