/**
 Multiplication, division, powers and the integer square root (src/ty_bignum.c), built on the word
 loops. Division and the square root call the halving ShrOne and the full-width Shr; what those two
 loops do as written is stated in BigNumShift.
 */
module BigNumArith {
  import opened Arith
  import opened Bits
  import opened Words
  import opened BigNum
  import opened BigNumShift

  /** The word products of one row, each at its place: x * W^i times the j lowest words of b. */
  ghost function RowSum(x: Word, i: nat, b: seq<Word>, j: nat): nat
    requires j <= |b|
  {
    if j == 0 then 0 else RowSum(x, i, b, j - 1) + Up(x * b[j - 1], i + (j - 1))
  }

  /** The i lowest rows. */
  ghost function Rows(a: seq<Word>, b: seq<Word>, i: nat): nat
    requires i <= |a|
  {
    if i == 0 then 0 else Rows(a, b, i - 1) + RowSum(a[i - 1], i - 1, b, |b|)
  }

  lemma {:induction false} RowSumIsProduct(x: Word, i: nat, b: seq<Word>, j: nat)
    requires j <= |b|
    ensures RowSum(x, i, b, j) == Up(x * Prefix(b, j), i)
  {
    if j == 0 {
      UpZero(0, i);
    } else {
      RowSumIsProduct(x, i, b, j - 1);
      UpTimes(x, b[j - 1], j - 1);
      UpUp(x * b[j - 1], j - 1, i);
      UpAdd(x * Prefix(b, j - 1), x * Up(b[j - 1], j - 1), i);
      assert x * Prefix(b, j) == x * Prefix(b, j - 1) + x * Up(b[j - 1], j - 1);
    }
  }

  lemma {:induction false} UpTimes(x: nat, y: nat, i: nat)
    ensures x * Up(y, i) == Up(x * y, i)
  {
    if i > 0 {
      UpTimes(x, y, i - 1);
      MulAssoc(x, W, Up(y, i - 1));
      MulAssoc(W, x, Up(y, i - 1));
    }
  }

  lemma {:induction false} RowsAreProduct(a: seq<Word>, b: seq<Word>, i: nat)
    requires i <= |a|
    ensures Rows(a, b, i) == Prefix(a, i) * Val(b)
  {
    if i > 0 {
      RowsAreProduct(a, b, i - 1);
      RowSumIsProduct(a[i - 1], i - 1, b, |b|);
      UpTimes(Val(b), a[i - 1], i - 1);
      assert Val(b) * a[i - 1] == a[i - 1] * Val(b);
      Factor(Prefix(a, i - 1), Up(a[i - 1], i - 1), Val(b));
    }
  }

  lemma Factor(x: nat, y: nat, z: nat)
    ensures (x + y) * z == x * z + z * y
  {}

  method Mul(a: array<Word>, b: array<Word>, c: array<Word>)
    requires a.Length == b.Length == c.Length >= 2
    requires c != a && c != b
    modifies c
    ensures Val(c[..]) == (Val(a[..]) * Val(b[..])) % P(c.Length)
  {
    ghost var lost := MulRows(a, b, c);
    RowsAreProduct(a[..], b[..], a.Length);
    ValBound(c[..]);
    LostIsModulo(Val(a[..]) * Val(b[..]), lost, Val(c[..]), c.Length);
  }

  /** The outer loop; `lost` is what the carries out of the top word amount to. */
  method MulRows(a: array<Word>, b: array<Word>, c: array<Word>) returns (ghost lost: nat)
    requires a.Length == b.Length == c.Length >= 2
    requires c != a && c != b
    modifies c
    ensures Val(c[..]) + Up(lost, c.Length) == Rows(a[..], b[..], a.Length)
  {
    ghost var n, sa, sb := c.Length, a[..], b[..];
    var row := new Word[c.Length];
    Init(c);
    lost := 0;
    UpZero(0, n);
    var i := 0;
    while i < a.Length
      invariant i <= n && a[..] == sa && b[..] == sb
      invariant Val(c[..]) + Up(lost, n) == Rows(sa, sb, i)
    {
      ghost var more := MulRow(a[i], i, b, row);
      ghost var sum := Val(c[..]) + Val(row[..]);
      Add(c, row, c);
      lost := Lose(lost, more, sum, n);
      i := i + 1;
    }
  }

  /** What an addition loses, on top of what has been lost before. */
  lemma Lose(x: nat, y: nat, sum: nat, n: nat) returns (z: nat)
    ensures Up(z, n) == Up(x, n) + Up(y, n) + (if sum < P(n) then 0 else P(n))
  {
    var carry := if sum < P(n) then 0 else 1;
    z := x + y + carry;
    UpAdd(x, y, n);
    UpAdd(x + y, carry, n);
    UpOne(n);
    UpZero(0, n);
  }

  /** The inner loop: one row of the product. Products that start above the top word are skipped. */
  method MulRow(x: Word, i: nat, b: array<Word>, row: array<Word>) returns (ghost lost: nat)
    requires b.Length == row.Length >= 2 && row != b
    modifies row
    ensures Val(row[..]) + Up(lost, row.Length) == RowSum(x, i, b[..], b.Length)
  {
    ghost var n, sb := row.Length, b[..];
    var tmp := new Word[row.Length];
    Init(row);
    lost := 0;
    UpZero(0, n);
    var j := 0;
    while j < b.Length
      invariant j <= n && b[..] == sb
      invariant Val(row[..]) + Up(lost, n) == RowSum(x, i, sb, j)
    {
      ProductFits(x, b[j]);
      if i + j < b.Length {
        Init(tmp);
        var intermediate: nat := x * b[j];
        FromInt(tmp, intermediate);
        ghost var more := ShlWord(tmp, i + j);
        ghost var sum := Val(tmp[..]) + Val(row[..]);
        Add(tmp, row, row);
        lost := Lose(lost, more, sum, n);
      } else {
        UpUp(x * sb[j], i + j - n, n);
        UpAdd(lost, Up(x * sb[j], i + j - n), n);
        lost := lost + Up(x * sb[j], i + j - n);
      }
      j := j + 1;
    }
  }

  lemma ProductFits(x: Word, y: Word)
    ensures 0 <= x * y < W * W
  {
    MulMonotone(x, y, W);
    assert x * W < W * W;
  }

  // ---- Division ----

  /** The top word of a number tells whether it can be doubled. */
  lemma TopWord(s: seq<Word>)
    requires |s| > 0
    ensures s[|s| - 1] >= 1 + MAX_VAL / 2 <==> 2 * Val(s) >= P(|s|)
  {
    var n, x, half := |s|, s[|s| - 1], 1 + MAX_VAL / 2;
    PrefixBound(s, n - 1);
    UpAdd(half, half, n - 1);
    UpCarry(1, n - 1);
    UpOne(n);
    if x >= half {
      UpMonotone(half, x, n - 1);
    } else {
      UpMonotone(x + 1, half, n - 1);
      UpAdd(x, 1, n - 1);
      UpOne(n - 1);
    }
  }

  /**
   What holds whenever division tests `current`: the quotient bits found so far and the remainder
   account for the dividend, and while bits remain, denom is the divisor moved to the next one.
   */
  ghost predicate Dividing(va: nat, vb: nat, t: nat, current: nat, denom: nat, tmp: nat, vc: nat) {
    && va == vc * vb + tmp
    && (current == 0 ==> tmp < vb)
    && (current > 0 ==>
          && current == Doubled(1, t) && denom == Doubled(vb, t) && tmp < 2 * denom
          && Low(vc, t + 1) == 0)
  }

  /** One bit of the quotient: subtract where it fits, then halve. */
  lemma DivideStep(va: nat, vb: nat, t: nat, current: nat, denom: nat, tmp: nat, vc: nat, fits: bool)
    requires vb > 0 && current > 0 && Dividing(va, vb, t, current, denom, tmp, vc)
    requires fits <==> tmp >= denom
    ensures Dividing(va, vb, if t == 0 then 0 else t - 1, current / 2, denom / 2,
                     if fits then tmp - denom else tmp, if fits then vc + current else vc)
  {
    AddBit(vc, vb, t);
    if t > 0 {
      EvenMultiple(vc, t);
    }
  }

  lemma AddBit(vc: nat, vb: nat, t: nat)
    ensures (vc + Doubled(1, t)) * vb == vc * vb + Doubled(vb, t)
  {
    DoubledIsMul(1, t);
    DoubledIsMul(vb, t);
    assert (vc + Doubled(1, t)) * vb == vc * vb + Doubled(1, t) * vb;
  }

  lemma EvenMultiple(v: nat, t: nat)
    requires Low(v, t + 1) == 0
    ensures Low(v, t) == 0 && Low(v + Doubled(1, t), t) == 0
  {
    var h := Halved(v, t + 1);
    HalvedLow(v, t + 1);
    DoubledTwice(h, 1, t);
    assert Doubled(h, 1) == 2 * Doubled(h, 0) == 2 * h;
    DoubledBits(2 * h, 1, t);
    HalvedUnique(v, 2 * h, 0, t);
    HalvedUnique(v + Doubled(1, t), 2 * h + 1, 0, t);
  }

  /** Setting bit t of a quotient that has only higher bits is an addition. */
  lemma TakeBit(vc: nat, t: nat)
    requires Low(vc, t + 1) == 0
    ensures Or(vc, Doubled(1, t)) == vc + Doubled(1, t)
  {
    HalvedLow(vc, t + 1);
    DoubledBits(0, 0, t);
    OrDisjoint(Halved(vc, t + 1), Doubled(1, t), t + 1);
  }

  /** Double divisor and bit until the divisor exceeds the dividend or fills the top word. */
  method DoubleUp(a: array<Word>, current: array<Word>, denom: array<Word>, ghost vb: nat)
    returns (overflow: bool, ghost t: nat)
    requires a.Length == current.Length == denom.Length > 0
    requires current != denom && current != a && denom != a
    requires Val(current[..]) == 1 && Val(denom[..]) == vb > 0
    modifies current, denom
    ensures Val(current[..]) == Doubled(1, t) > 0 && Val(denom[..]) == Doubled(vb, t)
    ensures if overflow then Val(denom[..]) <= Val(a[..]) && 2 * Val(denom[..]) >= P(a.Length)
            else Val(a[..]) < Val(denom[..]) && (t > 0 ==> Doubled(vb, t - 1) <= Val(a[..]))
  {
    ghost var m := P(a.Length);
    t := 0;
    ValBound(denom[..]);
    overflow := false;
    var r := Cmp(denom, a);
    while r != LARGER
      invariant a[..] == old(a[..])
      invariant r == LARGER <==> Val(denom[..]) > Val(a[..])
      invariant 0 < Val(current[..]) <= Val(denom[..]) < m
      invariant Val(current[..]) == Doubled(1, t) && Val(denom[..]) == Doubled(vb, t)
      invariant t > 0 ==> Doubled(vb, t - 1) <= Val(a[..])
      decreases m - Val(denom[..])
    {
      TopWord(denom[..]);
      if denom[denom.Length - 1] >= 1 + MAX_VAL / 2 {
        overflow := true;
        break;
      }
      ShlOne(current);
      ShlOne(denom);
      t := t + 1;
      r := Cmp(denom, a);
    }
  }

  /** The divisor at its highest place below the dividend: unless it filled the top word, halve once. */
  method AlignDivisor(a: array<Word>, current: array<Word>, denom: array<Word>, ghost vb: nat) returns (ghost t: nat)
    requires a.Length == current.Length == denom.Length > 0
    requires current != denom && current != a && denom != a
    requires Val(current[..]) == 1 && Val(denom[..]) == vb > 0
    modifies current, denom
    ensures Dividing(Val(a[..]), vb, t, Val(current[..]), Val(denom[..]), Val(a[..]), 0)
  {
    var overflow;
    overflow, t := DoubleUp(a, current, denom, vb);
    LowZero(t + 1);
    LowZero(t);
    if !overflow {
      ShrOne(denom);
      ShrOne(current);
      t := if t == 0 then 0 else t - 1;
    }
    ValBound(a[..]);
  }

  method Div(a: array<Word>, b: array<Word>, c: array<Word>)
    requires a.Length == b.Length == c.Length >= 2
    requires Val(b[..]) > 0
    modifies c
    ensures Val(c[..]) == old(Val(a[..])) / old(Val(b[..]))
  {
    ghost var n, va, vb := c.Length, Val(a[..]), Val(b[..]);
    var current := new Word[c.Length];
    var denom := new Word[c.Length];
    var tmp := new Word[c.Length];
    FromInt(current, 1);
    Assign(denom, b);
    Assign(tmp, a);
    ghost var t := AlignDivisor(a, current, denom, vb);
    Init(c);
    var done := IsZero(current);
    while !done
      invariant fresh(current) && fresh(denom) && fresh(tmp) && current != denom && current != tmp && denom != tmp
      invariant c != current && c != denom && c != tmp
      invariant done <==> Val(current[..]) == 0
      invariant Dividing(va, vb, t, Val(current[..]), Val(denom[..]), Val(tmp[..]), Val(c[..]))
      decreases Val(current[..])
    {
      DivideBit(tmp, denom, current, c, va, vb, t);
      t := if t == 0 then 0 else t - 1;
      done := IsZero(current);
    }
    DivModIs(va, Val(c[..]), vb, Val(tmp[..]));
  }

  /** The body of the second loop. */
  method DivideBit(tmp: array<Word>, denom: array<Word>, current: array<Word>, c: array<Word>,
                   ghost va: nat, ghost vb: nat, ghost t: nat)
    requires tmp.Length == denom.Length == current.Length == c.Length > 0
    requires tmp != denom && tmp != current && tmp != c && denom != current && denom != c && current != c
    requires vb > 0 && Val(current[..]) > 0
    requires Dividing(va, vb, t, Val(current[..]), Val(denom[..]), Val(tmp[..]), Val(c[..]))
    modifies tmp, denom, current, c
    ensures Val(current[..]) == old(Val(current[..])) / 2
    ensures Dividing(va, vb, if t == 0 then 0 else t - 1, Val(current[..]), Val(denom[..]), Val(tmp[..]), Val(c[..]))
  {
    var r := Cmp(tmp, denom);
    DivideStep(va, vb, t, Val(current[..]), Val(denom[..]), Val(tmp[..]), Val(c[..]), r != SMALLER);
    TakeBit(Val(c[..]), t);
    if r != SMALLER {
      Sub(tmp, denom, tmp);
      OrWords(c, current, c);
    }
    ShrOne(current);
    ShrOne(denom);
  }

  /** With a zero divisor the doubling loop never ends: its two exits stay closed, whatever a is. */
  lemma DivByZeroSpins(denom: seq<Word>, va: nat)
    requires |denom| > 0 && Val(denom) == 0
    ensures Val(denom) <= va && denom[|denom| - 1] < 1 + MAX_VAL / 2
    ensures 2 * Val(denom) == Val(denom)
  {
    PrefixZero(denom, |denom|);
  }

  /** Quotient into c and remainder into d; d may be an operand, c may not. */
  method DivMod(a: array<Word>, b: array<Word>, c: array<Word>, d: array<Word>)
    requires a.Length == b.Length == c.Length == d.Length >= 2
    requires c != a && c != b && c != d
    requires Val(b[..]) > 0
    modifies c, d
    ensures old(Val(a[..])) == Val(c[..]) * old(Val(b[..])) + Val(d[..])
    ensures Val(d[..]) < old(Val(b[..]))
  {
    ghost var va, vb, m := Val(a[..]), Val(b[..]), P(c.Length);
    var tmp := new Word[c.Length];
    Div(a, b, c);
    ghost var q := Val(c[..]);
    Mul(c, b, tmp);
    ValBound(a[..]);
    DivisionFits(va, vb, m);
    Sub(a, tmp, d);
  }

  /** The product of quotient and divisor does not wrap, and leaves the remainder. */
  lemma DivisionFits(va: nat, vb: nat, m: nat)
    requires vb > 0 && va < m
    ensures ((va / vb) * vb) % m == (va / vb) * vb
    ensures va - (va / vb) * vb == va % vb
  {
    var q := va / vb;
    assert va == q * vb + va % vb;
    assert q * vb >= 0;
    DivModIs(q * vb, 0, m, q * vb);
  }

  method Mod(a: array<Word>, b: array<Word>, c: array<Word>)
    requires a.Length == b.Length == c.Length >= 2
    requires Val(b[..]) > 0
    modifies c
    ensures Val(c[..]) == old(Val(a[..])) % old(Val(b[..]))
  {
    ghost var va, vb := Val(a[..]), Val(b[..]);
    var tmp := new Word[c.Length];
    DivMod(a, b, tmp, c);
    DivModIs(va, Val(tmp[..]), vb, Val(c[..]));
  }

  // ---- Powers ----

  method PowInto(a: array<Word>, b: array<Word>, c: array<Word>)
    requires a.Length == b.Length == c.Length >= 2
    requires c != a && c != b
    modifies c
    ensures Val(c[..]) == Pow(Val(a[..]), Val(b[..])) % P(c.Length)
  {
    ghost var va, vb, m := Val(a[..]), Val(b[..]), P(c.Length);
    assert m >= W by { PowMonotone(W, 1, c.Length); assert Pow(W, 1) == W * Pow(W, 0); }
    var tmp := new Word[c.Length];
    Init(c);
    var r := Cmp(b, c);
    if r == EQUAL {
      Inc(c);
      DivModIs(1, 0, m, 1);
    } else {
      var bcopy := new Word[c.Length];
      Assign(bcopy, b);
      Assign(tmp, a);
      ValBound(a[..]);
      Dec(bcopy);
      PowOne(va, m);
      var done := IsZero(bcopy);
      while !done
        invariant fresh(tmp) && fresh(bcopy) && tmp != bcopy
        invariant a[..] == old(a[..])
        invariant done <==> Val(bcopy[..]) == 0
        invariant Val(bcopy[..]) < vb
        invariant Val(tmp[..]) == Pow(va, vb - Val(bcopy[..])) % m
        decreases Val(bcopy[..])
      {
        PowRound(a, tmp, bcopy, c, vb - Val(bcopy[..]));
        done := IsZero(bcopy);
      }
      Assign(c, tmp);
    }
  }

  /** The loop body: one more factor. */
  method PowRound(a: array<Word>, tmp: array<Word>, bcopy: array<Word>, c: array<Word>, ghost e: nat)
    requires a.Length == tmp.Length == bcopy.Length == c.Length >= 2
    requires a != tmp && a != bcopy && a != c && tmp != bcopy && tmp != c && bcopy != c
    requires Val(bcopy[..]) > 0 && Val(tmp[..]) == Pow(Val(a[..]), e) % P(a.Length)
    modifies tmp, bcopy, c
    ensures Val(bcopy[..]) == old(Val(bcopy[..])) - 1
    ensures Val(tmp[..]) == Pow(Val(a[..]), e + 1) % P(a.Length)
  {
    PowStep(Val(a[..]), e, P(a.Length));
    Mul(tmp, a, c);
    Dec(bcopy);
    Assign(tmp, c);
  }

  lemma PowOne(v: nat, m: nat)
    requires v < m
    ensures Pow(v, 1) % m == v
  {
    assert Pow(v, 1) == v * Pow(v, 0) == v;
    DivModIs(v, 0, m, v);
  }

  lemma PowStep(v: nat, e: nat, m: nat)
    requires m > 0
    ensures ((Pow(v, e) % m) * v) % m == Pow(v, e + 1) % m
  {
    ModMulLeft(Pow(v, e), v, m);
    assert Pow(v, e + 1) == v * Pow(v, e);
  }

  // ---- Integer square root ----

  /** r is the integer part of the square root of v. */
  predicate IsRoot(r: nat, v: nat) {
    r * r <= v < (r + 1) * (r + 1)
  }

  /** The probe of the binary search between low and high. */
  function Probe(low: nat, high: nat): nat
    requires low <= high
  {
    low + (high - low) / 2 + 1
  }

  /** What the loop computes from [low, high], for a given test of its probes. */
  ghost function Search(low: nat, high: nat, over: nat -> bool): nat
    requires low <= high
    decreases high - low
  {
    if low == high then low
    else if over(Probe(low, high)) then Search(low, Probe(low, high) - 1, over)
    else Search(Probe(low, high), high, over)
  }

  /** Every probe of the search is told right: the test `over` says of it what `above` says. */
  ghost predicate ProbesTold(low: nat, high: nat, over: nat -> bool, above: nat -> bool)
    requires low <= high
    decreases high - low
  {
    low < high ==>
      && over(Probe(low, high)) == above(Probe(low, high))
      && (if over(Probe(low, high)) then ProbesTold(low, Probe(low, high) - 1, over, above)
          else ProbesTold(Probe(low, high), high, over, above))
  }

  ghost predicate Monotone(above: nat -> bool) {
    forall x: nat, y: nat :: x <= y && above(x) ==> above(y)
  }

  /** The end of the search never leaves its start. */
  lemma {:induction false} SearchWithin(low: nat, high: nat, over: nat -> bool)
    requires low <= high
    ensures low <= Search(low, high, over) <= high
    decreases high - low
  {
    if low < high {
      var mid := Probe(low, high);
      if over(mid) {
        SearchWithin(low, mid - 1, over);
      } else {
        SearchWithin(mid, high, over);
      }
    }
  }

  /** A search that brackets the edge of `above` ends there exactly when every probe is told right. */
  lemma SearchFindsEdge(low: nat, high: nat, over: nat -> bool, above: nat -> bool)
    requires low <= high && Monotone(above) && !above(low) && above(high + 1)
    ensures var r := Search(low, high, over);
            !above(r) && above(r + 1) <==> ProbesTold(low, high, over, above)
  {
    if ProbesTold(low, high, over, above) {
      ToldFindsEdge(low, high, over, above);
    } else {
      UntoldMissesEdge(low, high, over, above);
    }
  }

  lemma {:induction false} ToldFindsEdge(low: nat, high: nat, over: nat -> bool, above: nat -> bool)
    requires low <= high && !above(low) && above(high + 1)
    requires ProbesTold(low, high, over, above)
    ensures var r := Search(low, high, over); !above(r) && above(r + 1)
    decreases high - low
  {
    if low < high {
      var mid := Probe(low, high);
      if over(mid) {
        ToldFindsEdge(low, mid - 1, over, above);
      } else {
        ToldFindsEdge(mid, high, over, above);
      }
    }
  }

  lemma {:induction false} UntoldMissesEdge(low: nat, high: nat, over: nat -> bool, above: nat -> bool)
    requires low <= high && Monotone(above) && !ProbesTold(low, high, over, above)
    ensures var r := Search(low, high, over); above(r) || !above(r + 1)
    decreases high - low
  {
    var mid := Probe(low, high);
    if over(mid) {
      SearchWithin(low, mid - 1, over);
      if above(mid) { UntoldMissesEdge(low, mid - 1, over, above); }
    } else {
      SearchWithin(mid, high, over);
      if !above(mid) { UntoldMissesEdge(mid, high, over, above); }
    }
  }

  // ---- ... of squares reduced modulo m ----

  /** x * x, as the sum of the odd numbers below 2x. */
  function Square(x: nat): nat {
    if x == 0 then 0 else Square(x - 1) + (2 * x - 1)
  }

  lemma {:induction false} SquareIs(x: nat)
    ensures Square(x) == x * x
  {
    if x > 0 {
      SquareIs(x - 1);
      assert x * x == (x - 1) * (x - 1) + (2 * x - 1);
    }
  }

  lemma {:induction false} SquareMonotone(x: nat, y: nat)
    requires x <= y
    ensures Square(x) <= Square(y)
    decreases y
  {
    if x < y { SquareMonotone(x, y - 1); }
  }

  /** The square of a probe exceeds v. */
  function Above(v: nat): nat -> bool {
    (mid: nat) => Square(mid) > v
  }

  /** The square of a probe, as the words hold it, exceeds v. */
  function Over(v: nat, m: nat): nat -> bool
    requires m > 0
  {
    (mid: nat) => Square(mid) % m > v
  }

  lemma AboveIsMonotone(v: nat)
    ensures Monotone(Above(v))
  {
    forall x: nat, y: nat | x <= y ensures Above(v)(x) ==> Above(v)(y) { SquareMonotone(x, y); }
  }

  /**
   The integer square root, exactly where the search can tell its probes. With 2k words that is so for every a
   with a / 2 + 1 < P(k); where a / 2 + 1 == P(k), it is not (IsqrtEdge).
   */
  method Isqrt(a: array<Word>, b: array<Word>)
    requires a.Length == b.Length >= 2
    modifies b
    ensures a.Length % 2 == 0 && old(Val(a[..])) / 2 + 1 < P(a.Length / 2) ==> IsRoot(Val(b[..]), old(Val(a[..])))
    ensures IsRoot(Val(b[..]), old(Val(a[..])))
      <==> var v := old(Val(a[..])); ProbesTold(0, v, Over(v, P(a.Length)), Above(v))
  {
    ghost var va := Val(a[..]);
    SqrtLoop(a, b);
    RootIsEdge(va, P(a.Length));
    if a.Length % 2 == 0 && va / 2 + 1 < P(a.Length / 2) { IsqrtDomain(va, a.Length / 2); }
  }

  lemma RootIsEdge(v: nat, m: nat)
    requires m > 0
    ensures IsRoot(Search(0, v, Over(v, m)), v) <==> ProbesTold(0, v, Over(v, m), Above(v))
  {
    var r := Search(0, v, Over(v, m));
    AboveIsMonotone(v);
    SquareAbove(v);
    assert !Above(v)(0) && Above(v)(v + 1);
    SearchFindsEdge(0, v, Over(v, m), Above(v));
    SquareIs(r);
    SquareIs(r + 1);
    assert Above(v)(r) == (Square(r) > v) && Above(v)(r + 1) == (Square(r + 1) > v);
  }

  lemma {:induction false} SquareAbove(x: nat)
    ensures x < Square(x + 1)
  {
    if x > 0 { SquareAbove(x - 1); }
  }

  /** The text of isqrt. */
  method SqrtLoop(a: array<Word>, b: array<Word>)
    requires a.Length == b.Length >= 2
    modifies b
    ensures var v := old(Val(a[..])); Val(b[..]) == Search(0, v, Over(v, P(a.Length)))
  {
    ghost var va := Val(a[..]);
    ghost var over := Over(va, P(a.Length));
    var low, high := new Word[a.Length], new Word[a.Length];
    var mid := new Word[a.Length];
    Init(low);
    Assign(high, a);
    FirstProbe(high, mid);
    var r := Cmp(high, low);
    while r > 0
      invariant fresh(low) && fresh(high) && fresh(mid) && low != high && low != mid && high != mid
      invariant a[..] == old(a[..])
      invariant Val(low[..]) <= Val(high[..])
      invariant Search(Val(low[..]), Val(high[..]), over) == Search(0, va, over)
      invariant r > 0 <==> Val(low[..]) < Val(high[..])
      invariant r > 0 ==> Val(mid[..]) == Probe(Val(low[..]), Val(high[..]))
      decreases Val(high[..]) - Val(low[..])
    {
      SqrtRound(a, low, high, mid, over);
      r := Cmp(high, low);
    }
    Assign(b, low);
  }

  /** The loop body: it takes one step of the search. */
  method SqrtRound(a: array<Word>, low: array<Word>, high: array<Word>, mid: array<Word>, ghost over: nat -> bool)
    requires a.Length == low.Length == high.Length == mid.Length >= 2
    requires low != high && low != mid && high != mid && a != low && a != high && a != mid
    requires over == Over(Val(a[..]), P(a.Length))
    requires Val(low[..]) < Val(high[..]) && Val(mid[..]) == Probe(Val(low[..]), Val(high[..]))
    modifies low, high, mid
    ensures Val(low[..]) <= Val(high[..])
    ensures Val(high[..]) - Val(low[..]) < old(Val(high[..]) - Val(low[..]))
    ensures Search(Val(low[..]), Val(high[..]), over) == old(Search(Val(low[..]), Val(high[..]), over))
    ensures Val(low[..]) < Val(high[..]) ==> Val(mid[..]) == Probe(Val(low[..]), Val(high[..]))
  {
    Narrow(a, low, high, mid, over);
    NextProbe(low, high, mid);
  }

  /** The probe before the loop. */
  method FirstProbe(high: array<Word>, mid: array<Word>)
    requires high.Length == mid.Length > 0 && mid != high
    modifies mid
    ensures Val(high[..]) > 0 ==> Val(mid[..]) == Probe(0, Val(high[..]))
  {
    ValBound(high[..]);
    Shr(high, mid, 1);
    assert Pow2(1) == 2 * Pow2(0) == 2;
    Inc(mid);
  }

  /** The comparison of the loop body, which moves one end of the search to the probe. */
  method Narrow(a: array<Word>, low: array<Word>, high: array<Word>, mid: array<Word>, ghost over: nat -> bool)
    requires a.Length == low.Length == high.Length == mid.Length >= 2
    requires low != high && low != mid && high != mid && a != low && a != high
    requires Val(mid[..]) > 0 && over == Over(Val(a[..]), P(a.Length))
    modifies low, high
    ensures if over(Val(mid[..]))
            then Val(high[..]) == Val(mid[..]) - 1 && Val(low[..]) == old(Val(low[..]))
            else Val(low[..]) == Val(mid[..]) && Val(high[..]) == old(Val(high[..]))
  {
    var tmp := new Word[a.Length];
    SquareIs(Val(mid[..]));
    Mul(mid, mid, tmp);
    var r := Cmp(tmp, a);
    if r > 0 {
      Assign(high, mid);
      Dec(high);
    } else {
      Assign(low, mid);
    }
  }

  /** The end of the loop body: the probe between low and high. */
  method NextProbe(low: array<Word>, high: array<Word>, mid: array<Word>)
    requires low.Length == high.Length == mid.Length > 0
    requires mid != low && mid != high && Val(low[..]) <= Val(high[..])
    modifies mid
    ensures Val(low[..]) < Val(high[..]) ==> Val(mid[..]) == Probe(Val(low[..]), Val(high[..]))
  {
    ValBound(high[..]);
    Sub(high, low, mid);
    ShrOne(mid);
    Add(low, mid, mid);
    Inc(mid);
  }

  /** A search whose upper end has a square below the modulus tells every probe. */
  lemma {:induction false} SmallProbesTold(low: nat, high: nat, v: nat, m: nat)
    requires low <= high && Square(high) < m
    ensures ProbesTold(low, high, Over(v, m), Above(v))
    decreases high - low
  {
    if low < high {
      var mid := Probe(low, high);
      SquareMonotone(mid, high);
      SquareMonotone(mid - 1, high);
      OverSmall(mid, v, m);
      if Above(v)(mid) {
        SmallProbesTold(low, mid - 1, v, m);
      } else {
        SmallProbesTold(mid, high, v, m);
      }
    }
  }

  lemma OverSmall(mid: nat, v: nat, m: nat)
    requires Square(mid) < m
    ensures Over(v, m)(mid) == Above(v)(mid)
  {
    DivModIs(Square(mid), 0, m, Square(mid));
  }

  /** For 2k words isqrt is right on every v whose first probe lies below P(k). */
  lemma IsqrtDomain(v: nat, k: nat)
    requires v / 2 + 1 < P(k)
    ensures ProbesTold(0, v, Over(v, P(2 * k)), Above(v))
  {
    HalfModulus(k);
    FirstProbeTold(v, P(k), P(2 * k));
  }

  lemma FirstProbeTold(v: nat, r: nat, m: nat)
    requires v / 2 + 1 < r && Square(r) <= m
    ensures ProbesTold(0, v, Over(v, m), Above(v))
  {
    var mid := v / 2 + 1;
    SquareMonotone(mid, r - 1);
    assert Square(r) > Square(r - 1);
    OverSmall(mid, v, m);
    if v >= 2 {
      SquareAtLeastDouble(mid);
      SquareMonotone(mid - 1, mid);
      SmallProbesTold(0, mid - 1, v, m);
    } else if v == 1 {
      assert Probe(0, 1) == 1 && Square(1) == 1;
    }
  }

  lemma {:induction false} SquareAtLeastDouble(x: nat)
    requires x >= 2
    ensures Square(x) >= 2 * x
  {
    if x > 2 {
      SquareAtLeastDouble(x - 1);
    } else {
      assert Square(2) == Square(1) + 3 && Square(1) == 1;
    }
  }

  lemma HalfModulus(k: nat)
    ensures P(2 * k) == Square(P(k))
    ensures k > 0 ==> P(k) >= W && P(2 * k) > 2 * P(k) + 1
  {
    PowAdd(W, k, k);
    SquareIs(P(k));
    if k > 0 {
      PowMonotone(W, 1, k);
      assert Pow(W, 1) == W * Pow(W, 0);
      MulMonotone(P(k), W, P(k));
    }
  }

  /** That domain ends where isqrt first fails: the square of the first probe is reduced to zero. */
  lemma IsqrtEdge(v: nat, k: nat)
    requires k > 0 && v / 2 + 1 == P(k)
    ensures !ProbesTold(0, v, Over(v, P(2 * k)), Above(v))
  {
    HalfModulus(k);
    EdgeUntold(v, P(k), P(2 * k));
  }

  lemma EdgeUntold(v: nat, r: nat, m: nat)
    requires v / 2 + 1 == r > 1 && m == Square(r) > v
    ensures !ProbesTold(0, v, Over(v, m), Above(v))
  {
    assert Probe(0, v) == r;
    OneOver(m, 0);
    assert !Over(v, m)(r) && Above(v)(r);
  }

  /** Beyond that domain it can fail: the square of the first probe is reduced to v itself. */
  lemma IsqrtFails(k: nat)
    requires k > 0
    ensures var v := 2 * P(k) + 1; !ProbesTold(0, v, Over(v, P(2 * k)), Above(v))
  {
    HalfModulus(k);
    FirstProbeUntold(P(k), P(2 * k));
  }

  lemma FirstProbeUntold(r: nat, m: nat)
    requires m == Square(r) && 2 * r + 1 < m
    ensures var v := 2 * r + 1; !ProbesTold(0, v, Over(v, m), Above(v))
  {
    assert Probe(0, 2 * r + 1) == r + 1;
    assert Square(r + 1) == m + (2 * r + 1);
    OneOver(m, 2 * r + 1);
    assert !Over(2 * r + 1, m)(r + 1) && Above(2 * r + 1)(r + 1);
  }

  lemma OneOver(m: nat, x: nat)
    requires x < m
    ensures (m + x) % m == x
  {
    DivModIs(m + x, 1, m, x);
  }
}
