/**
 What shr_one as written (src/ty_bignum.c:488-498) does to a number over many rounds. Reading the word below
 the array is undefined in C; here it gives a value that stays the same.
 */
module BigNumStray {
  import opened Arith
  import opened Bits
  import opened Words
  import opened BigNumShift

  /** A power of two. */
  predicate OneHot(x: nat) {
    x == 1 || (x > 0 && x % 2 == 0 && OneHot(x / 2))
  }

  lemma {:induction false} DoubledOneHot(t: nat)
    ensures OneHot(Doubled(1, t)) && (t > 0 ==> Doubled(1, t) % 2 == 0)
  {
    if t > 0 {
      DoubledOneHot(t - 1);
      assert Doubled(1, t) / 2 == Doubled(1, t - 1);
    }
  }

  /** What shr_one as written does to the two lowest words and to words with zeros below them. */
  lemma ShiftedLow(s: seq<Word>, t: seq<Word>, below: Word)
    requires ShiftedAsWritten(s, t, below) && |s| >= 3 && below % 2 == 0
    ensures t[0] == s[0] / 2
    ensures t[1] == s[1] / 2 + (if t[0] % 2 == 1 then Doubled(1, 31) else 0)
  {
    assert WrittenAt(s, t, below, 0) && WrittenAt(s, t, below, 1);
    OneBit(s[0], below);
    OneBit(s[1], t[0]);
  }

  lemma ShiftedWord(s: seq<Word>, t: seq<Word>, below: Word, i: nat)
    requires ShiftedAsWritten(s, t, below) && i < |s| && below % 2 == 0
    requires i > 0 ==> t[i - 1] % 2 == 0
    ensures t[i] == s[i] / 2
  {
    if i < |s| - 1 {
      assert WrittenAt(s, t, below, i);
      OneBit(s[i], if i == 0 then below else t[i - 1]);
    } else {
      OneBitLow(0, s[i]);
      OneBitLow(s[i], 0);
    }
  }

  /** Zeros at the low end stay, and the first other word is halved. */
  lemma {:induction false} ShiftedZeros(s: seq<Word>, t: seq<Word>, below: Word, i: nat)
    requires ShiftedAsWritten(s, t, below) && i < |s| && below % 2 == 0
    requires forall j :: 0 <= j < i ==> s[j] == 0
    ensures t[i] == s[i] / 2 && forall j :: 0 <= j < i ==> t[j] == 0
  {
    if i > 0 { ShiftedZeros(s, t, below, i - 1); }
    ShiftedWord(s, t, below, i);
  }

  /** The words in the other order. */
  function Reversed(s: seq<Word>): (r: seq<Word>)
    ensures |r| == |s|
  {
    seq(|s|, i requires 0 <= i < |s| => s[|s| - 1 - i])
  }

  /** Read from its lowest word down, a number that is not zero gets smaller: the loop ends. */
  lemma ShiftedDescends(s: seq<Word>, t: seq<Word>, below: Word)
    requires ShiftedAsWritten(s, t, below) && below % 2 == 0 && Val(s) > 0
    ensures Val(Reversed(t)) < Val(Reversed(s))
  {
    var n := |s|;
    var i := FirstNonZero(s);
    ShiftedZeros(s, t, below, i);
    PrefixOrder(Reversed(t), Reversed(s), n - 1 - i, n);
  }

  lemma FirstNonZero(s: seq<Word>) returns (i: nat)
    requires Val(s) > 0
    ensures i < |s| && s[i] != 0 && forall j :: 0 <= j < i ==> s[j] == 0
  {
    i := 0;
    while i < |s| && s[i] == 0
      invariant i <= |s| && forall j :: 0 <= j < i ==> s[j] == 0
    {
      i := i + 1;
    }
    PrefixZero(s, |s|);
  }

  /** With an odd word below, no round of any number of rounds leaves zero. */
  lemma OddBelowSpins(rounds: seq<seq<Word>>, below: Word, i: nat)
    requires forall k :: 0 < k < |rounds| ==> ShiftedAsWritten(rounds[k - 1], rounds[k], below)
    requires 0 < i < |rounds| && |rounds[0]| >= 2 && below % 2 == 1
    ensures Val(rounds[i]) > 0
  {
    SameLength(rounds, below, i);
    assert ShiftedAsWritten(rounds[i - 1], rounds[i], below);
    assert WrittenAt(rounds[i - 1], rounds[i], below, 0);
    OneBit(rounds[i - 1][0], below);
    DoubledBits(0, 0, 31);
    PrefixZero(rounds[i], |rounds[i]|);
  }

  lemma {:induction false} SameLength(rounds: seq<seq<Word>>, below: Word, i: nat)
    requires forall k :: 0 < k < |rounds| ==> ShiftedAsWritten(rounds[k - 1], rounds[k], below)
    requires i < |rounds|
    ensures |rounds[i]| == |rounds[0]|
  {
    if i > 0 {
      SameLength(rounds, below, i - 1);
      assert ShiftedAsWritten(rounds[i - 1], rounds[i], below);
    }
  }

  /** Words above the lowest that are zero stay so, unless the lowest word leaves an odd one behind. */
  lemma {:induction false} RestZero(s: seq<Word>, t: seq<Word>, below: Word, i: nat)
    requires ShiftedAsWritten(s, t, below) && below % 2 == 0 && t[0] % 2 == 0
    requires i < |s| && forall j :: 0 < j <= i ==> s[j] == 0
    ensures forall j :: 0 < j <= i ==> t[j] == 0
  {
    if i > 0 {
      RestZero(s, t, below, i - 1);
      ShiftedWord(s, t, below, i);
    }
  }

  /** A value below W is the lowest word. */
  lemma OneWord(s: seq<Word>, x: nat)
    requires |s| > 0 && Val(s) == x < W
    ensures s[0] == x && forall j :: 0 < j < |s| ==> s[j] == 0
  {
    PrefixIsRemainder(s, 1);
    UpZero(0, 1);
    assert P(1) == W && Prefix(s, 1) == s[0];
    DivModIs(x, 0, W, x);
    PrefixZero(s[1..], |s| - 1);
    forall j | 0 < j < |s| ensures s[j] == 0 { assert s[j] == s[1..][j - 1]; }
  }

  /** The top bit of a word: where the lowest bit of the word below turns up when it is shifted out. */
  const STRAY: nat := 0x8000_0000

  lemma StrayIs()
    ensures Doubled(1, 31) == STRAY
  {
    assert Doubled(1, 7) == 128;
    DoubledTwice(1, 7, 8);
    assert Doubled(128, 8) == 32768;
    DoubledTwice(1, 15, 8);
    assert Doubled(32768, 8) == 8388608;
    DoubledTwice(1, 23, 8);
    assert Doubled(8388608, 8) == STRAY;
  }

  lemma {:induction false} PowersGrow(s: nat, t: nat)
    requires s <= t
    ensures 0 < Doubled(1, s) <= Doubled(1, t)
  {
    if s < t { PowersGrow(s, t - 1); }
    else if s > 0 { PowersGrow(s - 1, t - 1); }
  }

  // ---- Bits on their way out ----

  lemma {:induction false} TopBit(y: nat, w: nat, p: nat)
    requires y < Doubled(1, w) && p <= w
    ensures Bit(y + Doubled(1, w), p) == (p == w || Bit(y, p))
    ensures !Bit(y, w)
  {
    if w > 0 {
      assert Doubled(1, w) == 2 * Doubled(1, w - 1);
      assert (y + Doubled(1, w)) / 2 == y / 2 + Doubled(1, w - 1);
      TopBit(y / 2, w - 1, if p > 0 then p - 1 else 0);
    }
  }

  /** A shift by one moves every bit down by one, and the incoming one to the top. */
  lemma BitShifted(x: Word, y: Word, p: nat)
    requires p < WORD_BITS
    ensures Bit(ShrWordBits(x, y, 1), p) == if p == 31 then y % 2 == 1 else Bit(x, p + 1)
  {
    OneBit(x, y);
    StrayIs();
    TopBit(x / 2, 31, p);
  }

  lemma {:induction false} SomeBit(x: nat, w: nat) returns (p: nat)
    requires 0 < x < Doubled(1, w)
    ensures p < w && Bit(x, p)
  {
    p := 0;
    if x % 2 == 0 {
      var q := SomeBit(x / 2, w - 1);
      p := q + 1;
    }
  }

  ghost predicate HasBit(s: seq<Word>, i: nat, p: nat) {
    i < |s| && p < WORD_BITS && Bit(s[i], p)
  }

  /**
   Bit p of word i, for i >= 1, has gone through 31 * i - p rounds since it strayed from the lowest word into
   the top of word 1; when it reaches the bottom of a word, it is also at the top of the next. The last word
   takes in no bits. Aged: every bit has gone through k rounds at least.
   */
  ghost predicate Aged(s: seq<Word>, k: nat) {
    && |s| >= 3 && s[0] <= 1 && s[|s| - 1] == 0
    && forall i: nat, p: nat :: 1 <= i && HasBit(s, i, p) ==> 31 * i - p >= k
  }

  /** A bit has gone through k rounds and, at the bottom of its word, has no copy in the next one. */
  ghost predicate Carries(s: seq<Word>, k: nat) {
    exists i: nat, p: nat :: 1 <= i < |s| - 1 && HasBit(s, i, p) && 31 * i - p == k && (p > 0 || i == |s| - 2)
  }

  /** When the last stray bit drops out. */
  function LastRound(n: nat): nat
    requires n >= 3
  {
    31 * (n - 2)
  }

  lemma AgedStep(s: seq<Word>, t: seq<Word>, below: Word, k: nat)
    requires Aged(s, k) && ShiftedAsWritten(s, t, below) && below % 2 == 0
    ensures Aged(t, k + 1) && t[0] == 0
  {
    ShiftedLow(s, t, below);
    OneBitLow(s[|s| - 1], 0);
    forall i: nat, p: nat | 1 <= i && HasBit(t, i, p) ensures 31 * i - p >= k + 1 {
      if i == |s| - 1 {
        BitZero(p);
      } else {
        assert WrittenAt(s, t, below, i);
        BitShifted(s[i], t[i - 1], p);
        if p < 31 {
          assert HasBit(s, i, p + 1);
        } else {
          assert WrittenAt(s, t, below, i - 1);
          BitShifted(s[i - 1], if i == 1 then below else t[i - 2], 0);
          assert HasBit(s, i - 1, 1);
        }
      }
    }
  }

  lemma CarriesStep(s: seq<Word>, t: seq<Word>, below: Word, k: nat)
    requires Carries(s, k) && ShiftedAsWritten(s, t, below) && |s| >= 3 && k < LastRound(|s|)
    ensures Carries(t, k + 1)
  {
    var i: nat, p: nat :| 1 <= i < |s| - 1 && HasBit(s, i, p) && 31 * i - p == k && (p > 0 || i == |s| - 2);
    assert WrittenAt(s, t, below, i);
    BitShifted(s[i], t[i - 1], p - 1);
    assert HasBit(t, i, p - 1);
    if p == 1 && i < |s| - 2 {
      assert WrittenAt(s, t, below, i + 1);
      BitShifted(s[i + 1], t[i], 31);
      assert HasBit(t, i + 1, 31);
    }
  }

  /** While anything is left above the lowest word, the last round has not passed. */
  lemma AliveBefore(s: seq<Word>, k: nat)
    requires Aged(s, k) && s[0] == 0 && Val(s) > 0
    ensures k <= LastRound(|s|)
  {
    var i := FirstNonZero(s);
    WordIsDoubled(1);
    var p := SomeBit(s[i], WORD_BITS);
    assert HasBit(s, i, p);
  }

  lemma ValAtLeast(s: seq<Word>, i: nat)
    requires 1 <= i < |s| && s[i] > 0
    ensures Val(s) >= W
  {
    if Val(s) < W { OneWord(s, Val(s)); }
  }

  lemma CarriesValue(s: seq<Word>, k: nat)
    requires Carries(s, k)
    ensures Val(s) >= W
  {
    var i: nat, p: nat :| 1 <= i < |s| - 1 && HasBit(s, i, p) && 31 * i - p == k && (p > 0 || i == |s| - 2);
    BitZero(p);
    ValAtLeast(s, i);
  }
}
