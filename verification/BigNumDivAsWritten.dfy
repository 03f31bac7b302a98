/**
 Division (src/ty_bignum.c:225-265) with shr_one as it is written at line 495. Reading the word below an
 array is undefined in C; here it gives a value that stays the same for each of the two numbers shifted.
 With an odd word below `current` the second loop never ends (OddBelowSpins), so it is even below.
 */
module BigNumDivAsWritten {
  import opened Arith
  import opened Bits
  import opened Words
  import opened BigNum
  import opened BigNumShift
  import opened BigNumArith
  import opened BigNumStray

  lemma {:induction false} OrAtLeast(x: nat, y: nat)
    ensures Or(x, y) >= x && Or(x, y) >= y
  {
    if x != 0 { OrAtLeast(x / 2, y / 2); }
  }

  lemma OrEven(x: nat, y: nat)
    requires x % 2 == 0 && y % 2 == 0
    ensures Or(x, y) % 2 == 0
  {}

  /** `current` is one bit of the lowest word, or has left it; what sets bit 0 of c sets a stray bit, too. */
  ghost predicate Astray(current: seq<Word>, c: seq<Word>) {
    && |current| == |c| >= 3
    && (current[0] == 0 || (c[0] % 2 == 0 && (Alone(current) || (current[0] == 1 && current[1] >= STRAY))))
    && (c[0] % 2 == 1 ==> c[1] >= STRAY)
  }

  ghost predicate Alone(current: seq<Word>)
    requires |current| > 0
  {
    OneHot(current[0]) && current[0] % 2 == 0 && forall j :: 0 < j < |current| ==> current[j] == 0
  }

  lemma AstrayStart(current: seq<Word>, c: seq<Word>, t: nat)
    requires |current| == |c| >= 3 && 0 < t <= 31 && Val(current) == Doubled(1, t) && Val(c) == 0
    ensures Astray(current, c)
  {
    StrayIs();
    PowersGrow(t, 31);
    OneWord(current, Doubled(1, t));
    DoubledOneHot(t);
    OneWord(c, 0);
  }

  /** A round: c may take the bits of current, and current is shifted. */
  lemma AstrayStep(current: seq<Word>, c: seq<Word>, current': seq<Word>, c': seq<Word>, below: Word)
    requires Astray(current, c) && ShiftedAsWritten(current, current', below) && below % 2 == 0 && |c'| == |c|
    requires c' == c || forall j :: 0 <= j < |c| ==> c'[j] == Or(c[j], current[j])
    ensures Astray(current', c')
  {
    ShiftedLow(current, current', below);
    StrayIs();
    OrAtLeast(c[1], current[1]);
    OrZero(c[0]);
    if current[0] != 0 && Alone(current) {
      OrEven(c[0], current[0]);
      assert OneHot(current[0] / 2) && c'[0] % 2 == 0;
      if current'[0] % 2 == 0 {
        RestZero(current, current', below, |current| - 1);
      }
    }
  }

  lemma AstrayEnds(c: seq<Word>, current: seq<Word>, q: nat)
    requires Astray(current, c) && q % 2 == 1 && q < STRAY
    ensures Val(c) != q
  {
    if Val(c) == q { OneWord(c, q); }
  }

  lemma QuotientAtLeast(va: nat, vb: nat, k: nat)
    requires vb > 0 && vb * k <= va
    ensures k <= va / vb
  {
    var q := va / vb;
    assert va == q * vb + va % vb;
    assert vb * (q + 1) == q * vb + vb;
    if k > q { MulMonotone(vb, q + 1, k); }
  }

  /** How often the divisor was doubled, against the quotient. */
  lemma DoublingsBelow(va: nat, vb: nat, t: nat)
    requires vb > 0 && Doubled(vb, t) <= va && va / vb < STRAY
    ensures t < 31
  {
    DoubledIsMul(1, t);
    DoubledIsMul(vb, t);
    QuotientAtLeast(va, vb, Pow2(t));
    StrayIs();
    if t >= 31 { PowersGrow(31, t); }
  }

  // ---- Dividends below 2^31 ----

  /** The odd part of x. */
  function OddPart(x: nat): (m: nat)
    requires x > 0
    ensures 0 < m <= x
  {
    if x % 2 == 1 then x else OddPart(x / 2)
  }

  /**
   Where a division with an even quotient is, before a round:
   - Exact(j): both numbers are still in their lowest words, and division goes as intended, down to bit j;
   - Clean: the quotient is complete and `current` has strayed, but `denom` is still the divisor shifted down;
   - Strayed(k): the quotient is complete, and a stray bit of `denom` outlives those of `current`;
   - Spoiled: a stray bit got into the quotient.
   */
  datatype Phase = Exact(j: nat) | Clean | Strayed(k: nat) | Spoiled

  ghost predicate InLowest(s: seq<Word>, x: nat) {
    |s| >= 3 && s[0] == x && forall i :: 0 < i < |s| ==> s[i] == 0
  }

  ghost predicate Course(va: nat, vb: nat, ph: Phase, current: seq<Word>, denom: seq<Word>, tmp: nat, vc: nat)
    requires vb > 0
  {
    |current| == |denom| >= 3 &&
    match ph
    case Exact(j) =>
      && j > 0 && InLowest(current, Doubled(1, j)) && InLowest(denom, Doubled(vb, j))
      && Dividing(va, vb, j, Doubled(1, j), Doubled(vb, j), tmp, vc)
    case Clean =>
      var x: nat := denom[0];
      && vc == va / vb && tmp == va % vb && Aged(current, 0) && OneHot(current[1])
      && InLowest(denom, x) && x % 2 == 0 && 0 < x < current[1] && OddPart(x) == OddPart(vb) && tmp < 2 * x
    case Strayed(k) =>
      && vc == va / vb && tmp == va % vb && Aged(current, k) && (current[0] == 1 ==> k == 0)
      && (k <= LastRound(|denom|) ==> Carries(denom, k)) && tmp < 2 * OddPart(vb)
    case Spoiled => vc >= W && va % vb >= 2 * OddPart(vb)
  }

  lemma InLowestVal(s: seq<Word>, x: nat)
    requires InLowest(s, x)
    ensures Val(s) == x
  {
    PrefixZero(s[1..], |s| - 1);
    PrefixIsRemainder(s, 1);
    ValSplit(s, 1);
    UpZero(0, 1);
  }

  /** A number in its lowest word, shifted: an odd half leaves a stray bit. */
  lemma LowestShifted(s: seq<Word>, t: seq<Word>, below: Word, x: nat)
    requires InLowest(s, 2 * x) && ShiftedAsWritten(s, t, below) && below % 2 == 0
    ensures t[0] == x && t[|t| - 1] == 0
    ensures if x % 2 == 0 then InLowest(t, x) else t[1] == STRAY && Carries(t, 0)
  {
    ShiftedLow(s, t, below);
    StrayIs();
    OneBitLow(s[|s| - 1], 0);
    if x % 2 == 0 {
      RestZero(s, t, below, |s| - 1);
    } else {
      TopBit(0, 31, 31);
      assert HasBit(t, 1, 31);
    }
  }

  /** With both bits tested, an even quotient is complete before its lowest bit is. */
  lemma QuotientComplete(va: nat, vb: nat, tmp: nat, vc: nat)
    requires vb > 0 && va == vc * vb + tmp && tmp < 2 * vb && vc % 2 == 0 && (va / vb) % 2 == 0
    ensures vc == va / vb && tmp == va % vb
  {
    if tmp < vb {
      DivModIs(va, vc, vb, tmp);
    } else {
      assert va == (vc + 1) * vb + (tmp - vb);
      DivModIs(va, vc + 1, vb, tmp - vb);
    }
  }

  /** Both numbers are shifted within their lowest words, or the bit of `current` is the last. */
  lemma ShiftExact(va: nat, vb: nat, j: nat, current: seq<Word>, denom: seq<Word>, tmp: nat, vc: nat,
                   current': seq<Word>, denom': seq<Word>, belowCurrent: Word, belowDenom: Word) returns (ph: Phase)
    requires 0 < vb <= va < STRAY && (va / vb) % 2 == 0 && j > 0 && |current| == |denom|
    requires InLowest(current, Doubled(1, j)) && InLowest(denom, Doubled(vb, j))
    requires Dividing(va, vb, j - 1, Doubled(1, j - 1), Doubled(vb, j - 1), tmp, vc)
    requires ShiftedAsWritten(current, current', belowCurrent) && ShiftedAsWritten(denom, denom', belowDenom)
    requires belowCurrent % 2 == 0 && belowDenom % 2 == 0
    ensures Course(va, vb, ph, current', denom', tmp, vc)
  {
    var p, d := Doubled(1, j - 1), Doubled(vb, j - 1);
    assert Doubled(1, j) == 2 * p && Doubled(vb, j) == 2 * d;
    LowestShifted(current, current', belowCurrent, p);
    LowestShifted(denom, denom', belowDenom, d);
    if j > 1 {
      DoubledEven(1, j - 1);
      DoubledEven(vb, j - 1);
      ph := Exact(j - 1);
    } else {
      assert p == 1 && d == vb;
      ph := LastExact(va, vb, current', denom', tmp, vc);
    }
  }

  /** With the last bit of the quotient before it, `current` has a stray bit and `denom` is the divisor. */
  lemma LastExact(va: nat, vb: nat, current: seq<Word>, denom: seq<Word>, tmp: nat, vc: nat) returns (ph: Phase)
    requires 0 < vb <= va < STRAY && (va / vb) % 2 == 0 && |current| == |denom| >= 3
    requires Dividing(va, vb, 0, 1, vb, tmp, vc)
    requires current[0] == 1 && current[1] == STRAY && current[|current| - 1] == 0 && denom[0] == vb
    requires if vb % 2 == 0 then InLowest(denom, vb) else Carries(denom, 0)
    ensures Course(va, vb, ph, current, denom, tmp, vc)
  {
    assert Low(vc, 1) == vc % 2;
    QuotientComplete(va, vb, tmp, vc);
    AgedStart(current);
    StrayIs();
    DoubledOneHot(31);
    ph := if vb % 2 == 0 then Clean else Strayed(0);
  }

  lemma AgedStart(s: seq<Word>)
    requires |s| >= 3 && s[0] <= 1 && s[|s| - 1] == 0
    ensures Aged(s, 0)
  {}

  lemma CleanStep(va: nat, vb: nat, current: seq<Word>, denom: seq<Word>, tmp: nat, vc: nat,
                  current': seq<Word>, denom': seq<Word>, belowCurrent: Word, belowDenom: Word) returns (ph: Phase)
    requires vb > 0 && Course(va, vb, Clean, current, denom, tmp, vc) && tmp < denom[0]
    requires ShiftedAsWritten(current, current', belowCurrent) && ShiftedAsWritten(denom, denom', belowDenom)
    requires belowCurrent % 2 == 0 && belowDenom % 2 == 0
    ensures Course(va, vb, ph, current', denom', tmp, vc)
  {
    var x := denom[0] / 2;
    LowestShifted(denom, denom', belowDenom, x);
    AgedStep(current, current', belowCurrent, 0);
    AgedStart(current');
    ShiftedLow(current, current', belowCurrent);
    assert current[1] % 2 == 0 && OneHot(current[1] / 2);
    ph := if x % 2 == 0 then Clean else Strayed(0);
  }

  lemma {:induction false} EvenOddPart(x: nat)
    requires x > 0 && x % 2 == 0
    ensures 2 * OddPart(x) <= x
  {
    assert OddPart(x) == OddPart(x / 2) <= x / 2;
  }

  /** The first test after the divisor has left its place. */
  lemma CleanSpoils(va: nat, vb: nat, current: seq<Word>, denom: seq<Word>, tmp: nat, vc: nat)
    requires vb > 0 && Course(va, vb, Clean, current, denom, tmp, vc) && tmp >= denom[0]
    ensures Or(vc, Val(current)) >= W && va % vb >= 2 * OddPart(vb)
  {
    EvenOddPart(denom[0]);
    ValAtLeast(current, 1);
    OrAtLeast(vc, Val(current));
  }

  lemma StrayedStep(va: nat, vb: nat, k: nat, current: seq<Word>, denom: seq<Word>, tmp: nat, vc: nat,
                    current': seq<Word>, denom': seq<Word>, belowCurrent: Word, belowDenom: Word)
    requires 0 < vb <= va < STRAY && Course(va, vb, Strayed(k), current, denom, tmp, vc) && Val(current) > 0
    requires ShiftedAsWritten(current, current', belowCurrent) && ShiftedAsWritten(denom, denom', belowDenom)
    requires belowCurrent % 2 == 0 && belowDenom % 2 == 0
    ensures Val(denom) > tmp && Course(va, vb, Strayed(k + 1), current', denom', tmp, vc)
  {
    if current[0] == 0 { AliveBefore(current, k); }
    CarriesValue(denom, k);
    AgedStep(current, current', belowCurrent, k);
    if k < LastRound(|denom|) { CarriesStep(denom, denom', belowDenom, k); }
  }

  /** A round: `fits` is its test. */
  lemma CourseStep(va: nat, vb: nat, ph: Phase, current: seq<Word>, denom: seq<Word>, tmp: nat, vc: nat,
                   current': seq<Word>, denom': seq<Word>, tmp': nat, vc': nat, belowCurrent: Word, belowDenom: Word)
    returns (ph': Phase)
    requires 0 < vb <= va < STRAY && (va / vb) % 2 == 0
    requires Course(va, vb, ph, current, denom, tmp, vc) && Val(current) > 0
    requires ShiftedAsWritten(current, current', belowCurrent) && ShiftedAsWritten(denom, denom', belowDenom)
    requires belowCurrent % 2 == 0 && belowDenom % 2 == 0
    requires if tmp >= Val(denom) then tmp' == tmp - Val(denom) && vc' == Or(vc, Val(current))
        else tmp' == tmp && vc' == vc
    ensures Course(va, vb, ph', current', denom', tmp', vc')
  {
    match ph
    case Exact(j) =>
      InLowestVal(current, Doubled(1, j));
      InLowestVal(denom, Doubled(vb, j));
      DoubledBits(0, 0, j);
      TakeBit(vc, j);
      DivideStep(va, vb, j, Doubled(1, j), Doubled(vb, j), tmp, vc, tmp >= Val(denom));
      ph' := ShiftExact(va, vb, j, current, denom, tmp', vc', current', denom', belowCurrent, belowDenom);
    case Clean =>
      InLowestVal(denom, denom[0]);
      if tmp >= denom[0] {
        CleanSpoils(va, vb, current, denom, tmp, vc);
        ph' := Spoiled;
      } else {
        ph' := CleanStep(va, vb, current, denom, tmp, vc, current', denom', belowCurrent, belowDenom);
      }
    case Strayed(k) =>
      StrayedStep(va, vb, k, current, denom, tmp, vc, current', denom', belowCurrent, belowDenom);
      ph' := Strayed(k + 1);
    case Spoiled =>
      OrAtLeast(vc, Val(current));
      ph' := Spoiled;
  }

  lemma CourseEnds(va: nat, vb: nat, ph: Phase, current: seq<Word>, denom: seq<Word>, tmp: nat, vc: nat)
    requires 0 < vb <= va < STRAY && Course(va, vb, ph, current, denom, tmp, vc) && Val(current) == 0
    ensures vc == va / vb <==> va % vb < 2 * OddPart(vb)
  {
    PrefixZero(current, |current|);
    if ph.Exact? { DoubledBits(0, 0, ph.j); }
    QuotientAtMost(va, vb);
  }

  lemma QuotientAtMost(va: nat, vb: nat)
    requires vb > 0
    ensures va / vb <= va
  {
    var q := va / vb;
    assert va == q * vb + va % vb;
    MulMonotone(q, 1, vb);
  }

  // ---- The method ----

  /** The inputs for which a stray bit spoils every result. */
  ghost predicate OddQuotient(va: nat, vb: nat, n: nat)
    requires vb > 0
  {
    2 * vb < P(n) && (va / vb) % 2 == 1 && va / vb < STRAY
  }

  /** What every round keeps. */
  ghost predicate Underway(va: nat, vb: nat, belowDenom: Word, ph: Phase,
                           current: seq<Word>, denom: seq<Word>, tmp: nat, c: seq<Word>)
    requires vb > 0
  {
    && |current| == |denom| == |c| >= 3
    && (va < vb ==> Val(current) == 0 && Val(c) == 0)
    && (OddQuotient(va, vb, |c|) ==> Astray(current, c))
    && (vb <= va < STRAY && belowDenom % 2 == 1 ==> denom[0] >= STRAY && tmp == va && Val(c) == 0)
    && (vb <= va < STRAY && belowDenom % 2 == 0 && (va / vb) % 2 == 0 ==>
          Course(va, vb, ph, current, denom, tmp, Val(c)))
  }

  lemma LowestAtMost(s: seq<Word>)
    requires |s| > 0
    ensures s[0] <= Val(s)
  {
    if Val(s) < W { OneWord(s, Val(s)); }
  }

  /** An odd word below `denom` keeps it above every dividend below 2^31. */
  lemma OddBelowDenom(s: seq<Word>, t: seq<Word>, below: Word)
    requires ShiftedAsWritten(s, t, below) && |s| >= 3 && below % 2 == 1
    ensures t[0] >= STRAY
  {
    assert WrittenAt(s, t, below, 0);
    OneBit(s[0], below);
    StrayIs();
  }

  lemma UnderwayStep(va: nat, vb: nat, ph: Phase, current: seq<Word>, denom: seq<Word>, tmp: nat, c: seq<Word>,
                     current': seq<Word>, denom': seq<Word>, tmp': nat, c': seq<Word>, belowCurrent: Word,
                         belowDenom: Word)
    returns (ph': Phase)
    requires vb > 0 && Underway(va, vb, belowDenom, ph, current, denom, tmp, c) && Val(current) > 0 && |c'| == |c|
    requires ShiftedAsWritten(current, current', belowCurrent) && ShiftedAsWritten(denom, denom', belowDenom)
    requires belowCurrent % 2 == 0
    requires if tmp >= Val(denom)
             then tmp' == tmp - Val(denom) && Val(c') == Or(Val(c), Val(current)) && forall j :: 0 <= j < |c| ==>
                 c'[j] == Or(c[j], current[j])
             else tmp' == tmp && c' == c
    ensures Underway(va, vb, belowDenom, ph', current', denom', tmp', c')
  {
    ph' := ph;
    if OddQuotient(va, vb, |c|) {
      AstrayStep(current, c, current', c', belowCurrent);
    }
    if vb <= va < STRAY && belowDenom % 2 == 1 {
      LowestAtMost(denom);
      OddBelowDenom(denom, denom', belowDenom);
    } else if vb <= va < STRAY && (va / vb) % 2 == 0 {
      ph' := CourseStep(va, vb, ph, current, denom, tmp, Val(c), current', denom', tmp', Val(c'), belowCurrent,
          belowDenom);
    }
  }

  lemma UnderwayEnds(va: nat, vb: nat, belowDenom: Word, ph: Phase, current: seq<Word>, denom: seq<Word>, tmp: nat,
                     c: seq<Word>)
    requires vb > 0 && Underway(va, vb, belowDenom, ph, current, denom, tmp, c) && Val(current) == 0
    ensures va < vb ==> Val(c) == va / vb
    ensures OddQuotient(va, vb, |c|) ==> Val(c) != va / vb
    ensures vb <= va < STRAY ==>
      (Val(c) == va / vb <==> belowDenom % 2 == 0 && (va / vb) % 2 == 0 && va % vb < 2 * OddPart(vb))
  {
    if va < vb { QuotientOfLess(va, vb); }
    if OddQuotient(va, vb, |c|) { AstrayEnds(c, current, va / vb); }
    if vb <= va < STRAY {
      SmallQuotient(va, vb, |c|);
      if belowDenom % 2 == 0 && (va / vb) % 2 == 0 { CourseEnds(va, vb, ph, current, denom, tmp, Val(c)); }
    }
  }

  lemma SmallQuotient(va: nat, vb: nat, n: nat)
    requires 0 < vb <= va < STRAY && n >= 1
    ensures 0 < va / vb && ((va / vb) % 2 == 1 ==> OddQuotient(va, vb, n))
  {
    QuotientAtLeast(va, vb, 1);
    QuotientAtMost(va, vb);
    WordFits(n);
  }

  lemma WordFits(n: nat)
    requires n >= 1
    ensures P(n) >= W
  {
    assert P(1) == W;
    PowMonotone(W, 1, n);
  }

  /**
   Division as written. It ends. A dividend below the divisor gives 0. For a dividend below 2^31 and not below
   the divisor, the result is right exactly when the word below `denom` is even, the quotient is even, and the
   remainder is below twice the odd part of the divisor. For larger dividends, no odd quotient below 2^31
   comes out, of any divisor that can be doubled at all: not even that of a number by itself.
   */
  method DivAsWritten(a: array<Word>, b: array<Word>, c: array<Word>, belowCurrent: Word, belowDenom: Word)
    requires a.Length == b.Length == c.Length >= 3
    requires Val(b[..]) > 0 && belowCurrent % 2 == 0
    modifies c
    ensures var va, vb := old(Val(a[..])), old(Val(b[..]));
            va < STRAY ==>
              (Val(c[..]) == va / vb <==>
                 va < vb || (belowDenom % 2 == 0 && (va / vb) % 2 == 0 && va % vb < 2 * OddPart(vb)))
    ensures old(Val(a[..])) < old(Val(b[..])) ==> Val(c[..]) == 0
    ensures var va, vb := old(Val(a[..])), old(Val(b[..])); OddQuotient(va, vb, c.Length) ==> Val(c[..]) != va / vb
  {
    ghost var va, vb := Val(a[..]), Val(b[..]);
    var current, denom, tmp := new Word[c.Length], new Word[c.Length], new Word[c.Length];
    FromInt(current, 1);
    Assign(denom, b);
    Assign(tmp, a);
    ghost var ph := Align(a, current, denom, belowCurrent, belowDenom, vb);
    Init(c);
    ZeroWords(c[..]);
    var done := IsZero(current);
    while !done
      invariant fresh(current) && fresh(denom) && fresh(tmp) && current != denom && current != tmp && denom != tmp
      invariant c != current && c != denom && c != tmp
      invariant done <==> Val(current[..]) == 0
      invariant Underway(va, vb, belowDenom, ph, current[..], denom[..], Val(tmp[..]), c[..])
      decreases Val(Reversed(current[..]))
    {
      ph := Round(tmp, denom, current, c, belowCurrent, belowDenom, va, vb, ph);
      done := IsZero(current);
    }
    UnderwayEnds(va, vb, belowDenom, ph, current[..], denom[..], Val(tmp[..]), c[..]);
  }

  lemma ZeroWords(c: seq<Word>)
    requires Val(c) == 0
    ensures c == seq(|c|, _ => 0)
  {
    PrefixZero(c, |c|);
  }

  /** The doubling loop, and the shift that takes back its last round. */
  method Align(a: array<Word>, current: array<Word>, denom: array<Word>, belowCurrent: Word, belowDenom: Word,
               ghost vb: nat)
    returns (ghost ph: Phase)
    requires a.Length == current.Length == denom.Length >= 3
    requires current != denom && current != a && denom != a
    requires Val(current[..]) == 1 && Val(denom[..]) == vb > 0 && belowCurrent % 2 == 0
    modifies current, denom
    ensures Underway(Val(a[..]), vb, belowDenom, ph, current[..], denom[..], Val(a[..]), seq(a.Length, _ => 0))
  {
    ghost var va, n := Val(a[..]), a.Length;
    ghost var t;
    var overflow;
    overflow, t := DoubleUp(a, current, denom, vb);
    ghost var s, d := current[..], denom[..];
    if overflow {
      ph := Spoiled;
      StartedAtTop(va, vb, t, belowDenom, s, d);
    } else {
      ShrOneAsWritten(denom, belowDenom);
      ShrOneAsWritten(current, belowCurrent);
      ph := Started(va, vb, t, s, d, current[..], denom[..], belowCurrent, belowDenom);
    }
  }

  lemma StartedAtTop(va: nat, vb: nat, t: nat, belowDenom: Word, current: seq<Word>, denom: seq<Word>)
    requires |current| == |denom| >= 3 && vb > 0 && Val(current) == Doubled(1, t)
    requires Doubled(vb, t) <= va && 2 * Doubled(vb, t) >= P(|current|)
    ensures Underway(va, vb, belowDenom, Spoiled, current, denom, va, seq(|current|, _ => 0))
  {
    var n := |current|;
    DoubledAtLeast(vb, t);
    AboveStray(n);
    PrefixZero(seq(n, _ => 0), n);
    if OddQuotient(va, vb, n) {
      DoublingsBelow(va, vb, t);
      AstrayStart(current, seq(n, _ => 0), t);
    }
  }

  lemma AboveStray(n: nat)
    requires n >= 2
    ensures P(n) >= 2 * STRAY * W
  {
    assert P(2) == W * P(1) == W * W;
    PowMonotone(W, 2, n);
  }

  lemma Started(va: nat, vb: nat, t: nat, current: seq<Word>, denom: seq<Word>, current': seq<Word>, denom': seq<Word>,
                belowCurrent: Word, belowDenom: Word) returns (ph: Phase)
    requires |current| == |denom| >= 3 && vb > 0 && Val(current) == Doubled(1, t) && Val(denom) == Doubled(vb, t)
    requires va < Doubled(vb, t) && (t > 0 ==> Doubled(vb, t - 1) <= va)
    requires ShiftedAsWritten(current, current', belowCurrent) && ShiftedAsWritten(denom, denom', belowDenom)
    requires belowCurrent % 2 == 0
    ensures Underway(va, vb, belowDenom, ph, current', denom', va, seq(|current|, _ => 0))
  {
    var n := |current|;
    var zero: seq<Word> := seq(n, _ => 0);
    ph := Spoiled;
    PrefixZero(zero, n);
    if t == 0 {
      OneGone(current, current', belowCurrent);
      QuotientOfLess(va, vb);
    } else {
      DoubledAtLeast(vb, t - 1);
      if OddQuotient(va, vb, n) {
        DoublingsBelow(va, vb, t - 1);
        AstrayStart(current, zero, t);
        AstrayStep(current, zero, current', zero, belowCurrent);
      }
      if va < STRAY && belowDenom % 2 == 1 {
        OddBelowDenom(denom, denom', belowDenom);
      } else if va < STRAY && (va / vb) % 2 == 0 {
        ph := StartedExact(va, vb, t, current, denom, current', denom', belowCurrent, belowDenom);
      }
    }
  }

  lemma QuotientOfLess(va: nat, vb: nat)
    requires va < vb
    ensures va / vb == 0
  {
    DivModIs(va, 0, vb, va);
  }

  lemma StartedExact(va: nat, vb: nat, t: nat, current: seq<Word>, denom: seq<Word>, current': seq<Word>,
                     denom': seq<Word>,
                     belowCurrent: Word, belowDenom: Word) returns (ph: Phase)
    requires |current| == |denom| >= 3 && 0 < vb <= va < STRAY && (va / vb) % 2 == 0 && t > 0
    requires Val(current) == Doubled(1, t) && Val(denom) == Doubled(vb, t)
    requires Doubled(vb, t - 1) <= va < Doubled(vb, t)
    requires ShiftedAsWritten(current, current', belowCurrent) && ShiftedAsWritten(denom, denom', belowDenom)
    requires belowCurrent % 2 == 0 && belowDenom % 2 == 0
    ensures Course(va, vb, ph, current', denom', va, 0)
  {
    DoubledMonotone(1, vb, t);
    DoubledBits(0, 0, t - 1);
    OneWord(current, Doubled(1, t));
    OneWord(denom, Doubled(vb, t));
    LowZero(t);
    assert Dividing(va, vb, t - 1, Doubled(1, t - 1), Doubled(vb, t - 1), va, 0);
    ph := ShiftExact(va, vb, t, current, denom, va, 0, current', denom', belowCurrent, belowDenom);
  }

  lemma OneGone(s: seq<Word>, t: seq<Word>, below: Word)
    requires ShiftedAsWritten(s, t, below) && |s| >= 3 && below % 2 == 0 && Val(s) == 1
    ensures Val(t) == 0
  {
    OneWord(s, 1);
    ShiftedLow(s, t, below);
    RestZero(s, t, below, |s| - 1);
    PrefixZero(t, |t|);
  }

  lemma {:induction false} DoubledAtLeast(x: nat, t: nat)
    ensures Doubled(x, t) >= x
  {
    if t > 0 { DoubledAtLeast(x, t - 1); }
  }

  /** The body of the second loop. */
  method Round(tmp: array<Word>, denom: array<Word>, current: array<Word>, c: array<Word>,
               belowCurrent: Word, belowDenom: Word, ghost va: nat, ghost vb: nat,
                   ghost ph: Phase) returns (ghost ph': Phase)
    requires tmp.Length == denom.Length == current.Length == c.Length >= 3
    requires tmp != denom && tmp != current && tmp != c && denom != current && denom != c && current != c
    requires Val(current[..]) > 0 && belowCurrent % 2 == 0 && vb > 0
    requires Underway(va, vb, belowDenom, ph, current[..], denom[..], Val(tmp[..]), c[..])
    modifies tmp, denom, current, c
    ensures Val(Reversed(current[..])) < old(Val(Reversed(current[..])))
    ensures Underway(va, vb, belowDenom, ph', current[..], denom[..], Val(tmp[..]), c[..])
  {
    ghost var s, d, v, u := current[..], denom[..], Val(tmp[..]), c[..];
    var r := Cmp(tmp, denom);
    if r != SMALLER {
      Sub(tmp, denom, tmp);
      OrWords(c, current, c);
    }
    ShrOneAsWritten(current, belowCurrent);
    ShrOneAsWritten(denom, belowDenom);
    ShiftedDescends(s, current[..], belowCurrent);
    ph' := UnderwayStep(va, vb, ph, s, d, v, u, current[..], denom[..], Val(tmp[..]), c[..], belowCurrent, belowDenom);
  }
}
