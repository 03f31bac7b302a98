/** Powers and remainders: the arithmetic every fixed-width component rests on. */
module Arith {

  function Pow(b: nat, e: nat): nat {
    if e == 0 then 1 else b * Pow(b, e - 1)
  }

  function Pow2(e: nat): nat {
    Pow(2, e)
  }

  lemma {:induction false} PowPositive(b: nat, e: nat)
    requires b > 0
    ensures Pow(b, e) > 0
  {
    if e > 0 {
      PowPositive(b, e - 1);
      MulPositive(b, Pow(b, e - 1));
    }
  }

  lemma MulPositive(x: nat, y: nat)
    requires x > 0 && y > 0
    ensures x * y > 0
  {}

  lemma {:induction false} PowAdd(b: nat, m: nat, n: nat)
    ensures Pow(b, m + n) == Pow(b, m) * Pow(b, n)
  {
    if m > 0 {
      PowAdd(b, m - 1, n);
      MulAssoc(b, Pow(b, m - 1), Pow(b, n));
    }
  }

  lemma {:induction false} PowMonotone(b: nat, m: nat, n: nat)
    requires b > 0 && m <= n
    ensures Pow(b, m) <= Pow(b, n)
  {
    PowAdd(b, m, n - m);
    PowPositive(b, n - m);
    PowPositive(b, m);
    MulMonotone(Pow(b, m), 1, Pow(b, n - m));
  }

  lemma MulAssoc(x: int, y: int, z: int)
    ensures (x * y) * z == x * (y * z)
  {}

  lemma MulMonotone(x: nat, y: nat, z: nat)
    requires y <= z
    ensures x * y <= x * z
  {}

  /** Only the zero multiple of m lies strictly between -m and m. */
  lemma SmallMultiple(d: int, m: int)
    requires -m < d * m < m
    ensures d == 0
  {}

  /** A quotient and a remainder in range are the quotient and the remainder. */
  lemma DivModIs(x: int, q: int, m: int, r: int)
    requires 0 <= r < m && x == q * m + r
    ensures x / m == q && x % m == r
  {
    var d := q - x / m;
    assert d * m == x % m - r by {
      assert x == (x / m) * m + x % m;
      assert d * m == q * m - (x / m) * m;
    }
    assert -m < d * m < m;
    SmallMultiple(d, m);
  }

  /** Adding a multiple of the modulus changes nothing. */
  lemma ModShift(x: int, k: int, m: int)
    requires m > 0
    ensures (x + k * m) % m == x % m
  {
    assert x + k * m == (x / m + k) * m + x % m;
    DivModIs(x + k * m, x / m + k, m, x % m);
  }

  lemma ModMulLeft(x: int, y: int, m: int)
    requires m > 0
    ensures ((x % m) * y) % m == (x * y) % m
  {
    var q := x / m;
    calc {
      x * y;
      (q * m + x % m) * y;
      (q * m) * y + (x % m) * y;
      { assert (q * m) * y == (q * y) * m; }
      (x % m) * y + (q * y) * m;
    }
    ModShift((x % m) * y, q * y, m);
  }

  lemma {:induction false} PowOfPow(b: nat, m: nat, n: nat)
    ensures Pow(Pow(b, m), n) == Pow(b, m * n)
  {
    if n == 0 {
      assert m * n == 0;
    } else {
      PowOfPow(b, m, n - 1);
      assert m * n == m + m * (n - 1);
      PowAdd(b, m, m * (n - 1));
    }
  }
}
