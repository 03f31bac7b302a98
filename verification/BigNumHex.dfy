/** The hexadecimal printer and parser of src/ty_bignum.c. Text is a char array ended by a NUL. */
module BigNumHex {
  import opened Arith
  import opened Words
  import opened BigNum

  const WORD_DIGITS: nat := 8

  function Digit(d: nat): char
    requires d < 16
  {
    if d < 10 then '0' + d as char else 'a' + (d - 10) as char
  }

  predicate IsHexDigit(c: char) {
    '0' <= c <= '9' || 'a' <= c <= 'f' || 'A' <= c <= 'F'
  }

  predicate IsLowerDigit(c: char) {
    '0' <= c <= '9' || 'a' <= c <= 'f'
  }

  predicate AllLower(t: string) {
    forall k :: 0 <= k < |t| ==> IsLowerDigit(t[k])
  }

  function DigitVal(c: char): (d: nat)
    ensures d < 16
  {
    if '0' <= c <= '9' then (c - '0') as int
    else if 'a' <= c <= 'f' then 10 + (c - 'a') as int
    else if 'A' <= c <= 'F' then 10 + (c - 'A') as int
    else 0
  }

  const LOWER_DIGITS: string := "0123456789abcdef"
  const UPPER_DIGITS: string := "0123456789ABCDEF"

  /** The digits in order, in either case, and no other characters. */
  lemma DigitsInOrder(d: nat)
    requires d < 16
    ensures Digit(d) == LOWER_DIGITS[d] && DigitVal(LOWER_DIGITS[d]) == d && DigitVal(UPPER_DIGITS[d]) == d
    ensures IsLowerDigit(LOWER_DIGITS[d]) && IsHexDigit(UPPER_DIGITS[d]) &&
        UpperChar(LOWER_DIGITS[d]) == UPPER_DIGITS[d]
  {}

  lemma HexDigitIs(c: char)
    requires IsHexDigit(c)
    ensures c == LOWER_DIGITS[DigitVal(c)] || c == UPPER_DIGITS[DigitVal(c)]
  {}

  function UpperChar(c: char): char {
    if 'a' <= c <= 'z' then (c as int - 32) as char else c
  }

  function Upper(t: string): string {
    seq(|t|, i requires 0 <= i < |t| => UpperChar(t[i]))
  }

  /** A text denotes the same number in upper case. */
  lemma {:induction false} SameInUpperCase(t: string)
    requires forall k :: 0 <= k < |t| ==> IsHexDigit(t[k])
    ensures HexVal(Upper(t)) == HexVal(t)
    ensures forall k :: 0 <= k < |t| ==> IsHexDigit(Upper(t)[k])
  {
    if t != [] {
      var n := |t| - 1;
      SameInUpperCase(t[..n]);
      assert Upper(t)[..n] == Upper(t[..n]);
      assert Upper(t) == Upper(t[..n]) + [UpperChar(t[n])];
    }
  }

  /** The number a string of hex digits denotes. */
  ghost function HexVal(t: string): nat {
    if t == [] then 0 else HexVal(t[..|t| - 1]) * 16 + DigitVal(t[|t| - 1])
  }

  /** The lowest k hex digits of v, most significant first. */
  function Hex(v: nat, k: nat): (t: string)
    ensures |t| == k && AllLower(t)
  {
    if k == 0 then [] else Hex(v / 16, k - 1) + [Digit(v % 16)]
  }

  /** The string up to the first NUL. */
  function CString(s: seq<char>): string {
    if s == [] || s[0] == '\0' then [] else [s[0]] + CString(s[1..])
  }

  /** A lowercase numeral without leading zeros; zero is the empty one. */
  ghost predicate IsNumeral(t: string, v: nat) {
    && AllLower(t)
    && (t != [] ==> t[0] != '0')
    && HexVal(t) == v
  }

  /** x * 16^k: x with k zero digits after it. */
  ghost function Hexed(x: nat, k: nat): nat {
    if k == 0 then x else 16 * Hexed(x, k - 1)
  }

  lemma {:induction false} HexedTwice(x: nat, m: nat, k: nat)
    ensures Hexed(Hexed(x, m), k) == Hexed(x, m + k)
  {
    if k > 0 { HexedTwice(x, m, k - 1); }
  }

  lemma {:induction false} HexedZero(k: nat)
    ensures Hexed(0, k) == 0
  {
    if k > 0 { HexedZero(k - 1); }
  }

  /** A word is eight digits. */
  lemma HexedWord(x: nat)
    ensures Hexed(x, WORD_DIGITS) == W * x
  {
    assert forall y: nat :: Hexed(y, 2) == 16 * Hexed(y, 1) == 256 * Hexed(y, 0) == 256 * y;
    HexedTwice(x, 2, 2);
    HexedTwice(x, 4, 2);
    HexedTwice(x, 6, 2);
  }

  lemma {:induction false} HexedUp(x: nat, i: nat)
    ensures Hexed(x, WORD_DIGITS * i) == Up(x, i)
  {
    if i > 0 {
      HexedUp(x, i - 1);
      HexedTwice(x, WORD_DIGITS * (i - 1), WORD_DIGITS);
      HexedWord(Up(x, i - 1));
    }
  }

  lemma DigitRoundTrip(d: nat)
    requires d < 16
    ensures IsLowerDigit(Digit(d)) && DigitVal(Digit(d)) == d
  {}

  lemma {:induction false} HexValHex(v: nat, k: nat)
    requires v < Hexed(1, k)
    ensures HexVal(Hex(v, k)) == v
  {
    if k > 0 {
      var t := Hex(v, k);
      assert t[..k - 1] == Hex(v / 16, k - 1);
      HexValHex(v / 16, k - 1);
      DigitRoundTrip(v % 16);
    }
  }

  lemma {:induction false} HexValAppend(s: string, t: string)
    ensures HexVal(s + t) == Hexed(HexVal(s), |t|) + HexVal(t)
  {
    if t == [] {
      assert s + t == s;
    } else {
      var u := t[..|t| - 1];
      assert (s + t)[..|s + t| - 1] == s + u;
      HexValAppend(s, u);
    }
  }

  lemma {:induction false} HexValZeros(t: string, z: string)
    requires forall k :: 0 <= k < |z| ==> z[k] == '0'
    ensures HexVal(z + t) == HexVal(t)
  {
    HexValAppend(z, t);
    AllZeros(z);
    HexedZero(|t|);
  }

  lemma {:induction false} AllZeros(z: string)
    requires forall k :: 0 <= k < |z| ==> z[k] == '0'
    ensures HexVal(z) == 0
  {
    if z != [] { AllZeros(z[..|z| - 1]); }
  }

  lemma {:induction false} NumeralBound(t: string)
    requires t != [] && AllLower(t) && t[0] != '0'
    ensures HexVal(t) > 0
  {
    if |t| == 1 {
      assert t[..0] == [];
    } else {
      NumeralBound(t[..|t| - 1]);
    }
  }

  /** Every number has one numeral. */
  lemma {:induction false} NumeralUnique(t: string, u: string, v: nat)
    requires IsNumeral(t, v) && IsNumeral(u, v)
    ensures t == u
    decreases v
  {
    if t == [] {
      if u != [] { NumeralBound(u); }
    } else if u == [] {
      NumeralBound(t);
    } else {
      var t', u' := t[..|t| - 1], u[..|u| - 1];
      var x, y := t[|t| - 1], u[|u| - 1];
      assert HexVal(t') == v / 16 == HexVal(u') && DigitVal(x) == v % 16 == DigitVal(y);
      LowerDigitInjective(x, y);
      NumeralBound(t);
      NumeralUnique(t', u', v / 16);
      assert t == t' + [x] && u == u' + [y];
    }
  }

  lemma LowerDigitInjective(x: char, y: char)
    requires IsLowerDigit(x) && IsLowerDigit(y) && DigitVal(x) == DigitVal(y)
    ensures x == y
  {}

  /** The digits of a word below the digits of the words above it. */
  lemma {:induction false} HexAppend(v: nat, hi: nat, lo: nat, m: nat, k: nat)
    requires v == Hexed(hi, k) + lo && lo < Hexed(1, k)
    ensures Hex(v, m + k) == Hex(hi, m) + Hex(lo, k)
  {
    if k == 0 {
      assert Hex(lo, 0) == [];
    } else {
      HexAppend(v / 16, hi, lo / 16, m, k - 1);
    }
  }

  /** sprintf with "%.08x" at place `at`. */
  method PrintWord(str: array<char>, at: nat, w: Word)
    requires at + WORD_DIGITS < str.Length
    modifies str
    ensures str[..at + WORD_DIGITS] == old(str[..at]) + Hex(w, WORD_DIGITS)
    ensures str[at + WORD_DIGITS] == '\0'
    ensures forall k :: 0 <= k < at || at + WORD_DIGITS < k < str.Length ==> str[k] == old(str[k])
  {
    var text := Hex(w, WORD_DIGITS);
    forall k | 0 <= k < WORD_DIGITS { str[at + k] := text[k]; }
    str[at + WORD_DIGITS] := '\0';
  }

  /** The value of the words from place j up, one word further down. */
  lemma ValDown(s: seq<Word>, j: nat)
    requires j < |s|
    ensures Val(s[j..]) == Val(s[j + 1..]) * W + s[j]
  {
    var u := s[j..];
    PrefixSplit(u, 1, |u|);
    assert u[1..] == s[j + 1..];
    assert Prefix(u, 1) == u[0];
  }

  /** The text of the words from place j up, the top one first. */
  ghost function TopDigits(s: seq<Word>, j: nat): string
    requires j <= |s|
    decreases |s| - j
  {
    if j == |s| then [] else TopDigits(s, j + 1) + Hex(s[j], WORD_DIGITS)
  }

  lemma {:induction false} TopDigitsAreDigits(s: seq<Word>, j: nat)
    requires j <= |s|
    ensures TopDigits(s, j) == Hex(Val(s[j..]), WORD_DIGITS * (|s| - j))
    decreases |s| - j
  {
    if j < |s| {
      TopDigitsAreDigits(s, j + 1);
      WordBelow(s, j, WORD_DIGITS * (|s| - j - 1), WORD_DIGITS);
    }
  }

  lemma WordBelow(s: seq<Word>, j: nat, m: nat, k: nat)
    requires j < |s| && k == WORD_DIGITS
    ensures Hex(Val(s[j..]), m + k) == Hex(Val(s[j + 1..]), m) + Hex(s[j], k)
  {
    ValDown(s, j);
    HexedWord(1);
    HexedWord(Val(s[j + 1..]));
    HexAppend(Val(s[j..]), Val(s[j + 1..]), s[j], m, k);
  }

  /** The text of the upper words starts the text of all. */
  lemma {:induction false} TopDigitsFirst(s: seq<Word>, i: nat, j: nat)
    requires i <= j <= |s|
    ensures |TopDigits(s, j)| == WORD_DIGITS * (|s| - j) <= |TopDigits(s, i)|
    ensures TopDigits(s, i)[..|TopDigits(s, j)|] == TopDigits(s, j)
    decreases |s| - i
  {
    TopDigitsAreDigits(s, j);
    if i < j { TopDigitsFirst(s, i + 1, j); }
  }

  /** The characters that the first loop prints: the words that nbytes reaches into, but no more than there are. */
  function PrintedLength(n: nat, nbytes: nat): nat {
    if n == 0 || nbytes == 0 then 0
    else WORD_DIGITS + PrintedLength(n - 1, if nbytes < WORD_DIGITS then 0 else nbytes - WORD_DIGITS)
  }

  /** The first loop of to_str: the words, the top one first, as far as nbytes goes. */
  method PrintWords(bn: array<Word>, str: array<char>, nbytes: nat)
    requires bn.Length > 0 && nbytes > 0 && nbytes % 2 == 0 && str.Length > PrintedLength(bn.Length, nbytes)
    modifies str
    ensures var total := PrintedLength(bn.Length, nbytes);
            total <= |TopDigits(bn[..], 0)| && str[..total] == TopDigits(bn[..], 0)[..total] && str[total] == '\0'
  {
    ghost var s, n := bn[..], bn.Length;
    ghost var left: nat := nbytes;
    var j := bn.Length - 1;
    var i := 0;
    while j >= 0 && nbytes > i + 1
      invariant -1 <= j < n && i == WORD_DIGITS * (n - 1 - j)
      invariant i + PrintedLength(j + 1, left) == PrintedLength(n, nbytes)
      invariant left == if nbytes < i then 0 else nbytes - i
      invariant str[..i] == TopDigits(s, j + 1)
      invariant j < n - 1 ==> str[i] == '\0'
    {
      PrintWord(str, i, bn[j]);
      left := if left < WORD_DIGITS then 0 else left - WORD_DIGITS;
      i := i + WORD_DIGITS;
      j := j - 1;
    }
    TopDigitsFirst(s, 0, j + 1);
  }

  method CountZeros(str: array<char>, ghost total: nat) returns (j: nat)
    requires total < str.Length && str[total] == '\0'
    ensures j <= total && (forall k :: 0 <= k < j ==> str[k] == '0') && str[j] != '0'
  {
    j := 0;
    while str[j] == '0'
      invariant j <= total && forall k :: 0 <= k < j ==> str[k] == '0'
      decreases total - j
    {
      j := j + 1;
    }
  }

  /** The rest of to_str: move the text left over its leading zeros. */
  method SkipZeros(str: array<char>, nbytes: nat, ghost total: nat) returns (ghost skipped: nat)
    requires total < str.Length && nbytes < str.Length
    requires AllLower(str[..total]) && str[total] == '\0'
    modifies str
    ensures var cut := if nbytes < total then nbytes else total;
            && skipped <= cut && (forall k :: 0 <= k < skipped ==> old(str[k]) == '0')
            && (skipped < cut ==> old(str[skipped]) != '0')
            && CString(str[..]) == old(str[skipped..cut])
  {
    ghost var before := str[..];
    var j := CountZeros(str, total);
    ghost var cut := if nbytes < total then nbytes else total;
    skipped := if j < cut then j else cut;
    var i := 0;
    while i < nbytes - j
      invariant 0 <= i && (i <= nbytes - j || i == 0)
      invariant forall k :: 0 <= k < i ==> str[k] == before[k + j]
      invariant forall k :: i <= k < str.Length ==> str[k] == before[k]
    {
      str[i] := str[i + j];
      i := i + 1;
    }
    str[i] := '\0';
    MovedText(before, str[..], nbytes, total, j);
  }

  lemma MovedText(before: string, after: string, nbytes: nat, total: nat, j: nat)
    requires |after| == |before| && total < |before| && nbytes < |before| && j <= total
    requires AllLower(before[..total]) && before[total] == '\0'
    requires var end := if j < nbytes then nbytes - j else 0;
             after[end] == '\0' && forall k :: 0 <= k < end ==> after[k] == before[k + j]
    ensures var cut := if nbytes < total then nbytes else total;
            CString(after) == before[if j < cut then j else cut..cut]
  {
    var cut := if nbytes < total then nbytes else total;
    var text := before[if j < cut then j else cut..cut];
    forall k | 0 <= k < |text| ensures after[k] == text[k] && IsLowerDigit(text[k]) {
      assert text[k] == before[..total][k + j];
    }
    assert after[..|text|] == text;
    CStringIs(after, text);
  }

  /** The text is the numeral of the first nbytes digits; with nbytes of at least 8 for each word, of the number. */
  method ToStr(bn: array<Word>, str: array<char>, nbytes: nat)
    requires bn.Length > 0 && nbytes > 0 && nbytes % 2 == 0
    requires str.Length > nbytes && str.Length > PrintedLength(bn.Length, nbytes)
    modifies str
    ensures IsNumeral(CString(str[..]), Shown(Val(bn[..]), WORD_DIGITS * bn.Length, nbytes))
    ensures |CString(str[..])| <= WORD_DIGITS * bn.Length
  {
    ghost var total := PrintedLength(bn.Length, nbytes);
    PrintWords(bn, str, nbytes);
    ghost var text := str[..total];
    ghost var cut := if nbytes < total then nbytes else total;
    ShownDigits(bn[..], nbytes, text);
    ghost var j := SkipZeros(str, nbytes, total);
    assert CString(str[..]) == text[..cut][j..];
    NumeralTail(text[..cut], j);
  }

  /** What nbytes digits show of a number of `all` digits: all of it, or the number without its other digits. */
  ghost function Shown(v: nat, all: nat, nbytes: nat): nat {
    PowPositive(16, if nbytes < all then all - nbytes else 0);
    if nbytes < all then v / Pow(16, all - nbytes) else v
  }

  lemma {:induction false} PrintedEnough(n: nat, nbytes: nat)
    ensures PrintedLength(n, nbytes) <= WORD_DIGITS * n
    ensures PrintedLength(n, nbytes) == WORD_DIGITS * n || nbytes <= PrintedLength(n, nbytes)
    ensures nbytes >= WORD_DIGITS * n ==> PrintedLength(n, nbytes) == WORD_DIGITS * n
  {
    if n > 0 && nbytes > 0 {
      PrintedEnough(n - 1, if nbytes < WORD_DIGITS then 0 else nbytes - WORD_DIGITS);
    }
  }

  lemma ShownDigits(s: seq<Word>, nbytes: nat, text: string)
    requires |s| > 0 && nbytes % 2 == 0
    requires var total := PrintedLength(|s|, nbytes); total <= |TopDigits(s, 0)| && text == TopDigits(s, 0)[..total]
    ensures AllLower(text) && |text| <= WORD_DIGITS * |s|
    ensures HexVal(text[..if nbytes < |text| then nbytes else |text|]) == Shown(Val(s), WORD_DIGITS * |s|, nbytes)
  {
    PrintedEnough(|s|, nbytes);
    var digits := Hex(Val(s), WORD_DIGITS * |s|);
    TopDigitsAreDigits(s, 0);
    assert s[0..] == s && text == digits[..|text|];
    AllDigits(s);
    var cut := if nbytes < |text| then nbytes else |text|;
    FirstShown(Val(s), digits, text, cut);
    SixteenthIsQuotient(Val(s), |digits| - cut);
  }

  lemma FirstShown(v: nat, digits: string, text: string, cut: nat)
    requires digits == Hex(v, |digits|) && v < Hexed(1, |digits|) && cut <= |text| <= |digits| &&
        text == digits[..|text|]
    ensures AllLower(text) && HexVal(text[..cut]) == Sixteenth(v, |digits| - cut)
  {
    FirstDigits(v, cut, |digits| - cut);
    assert text[..cut] == digits[..cut];
  }

  lemma AllDigits(s: seq<Word>)
    ensures Val(s) < Hexed(1, WORD_DIGITS * |s|)
  {
    ValBound(s);
    UpOne(|s|);
    HexedUp(1, |s|);
  }

  /** Dropping k digits divides by 16^k. */
  lemma {:induction false} FirstDigits(v: nat, m: nat, k: nat)
    requires v < Hexed(1, m + k)
    ensures HexVal(Hex(v, m + k)[..m]) == Sixteenth(v, k)
  {
    if k == 0 {
      HexValHex(v, m);
      assert Hex(v, m)[..m] == Hex(v, m);
    } else {
      FirstDigits(v / 16, m, k - 1);
      assert Hex(v, m + k)[..m] == Hex(v / 16, m + k - 1)[..m];
    }
  }

  lemma {:induction false} SixteenthIsQuotient(v: nat, k: nat)
    ensures Pow(16, k) > 0 && Sixteenth(v, k) == v / Pow(16, k)
  {
    PowPositive(16, k);
    if k > 0 {
      SixteenthIsQuotient(v / 16, k - 1);
      DivDiv(v, 16, Pow(16, k - 1));
    }
  }

  lemma DivDiv(v: nat, d: nat, m: nat)
    requires d > 0 && m > 0
    ensures d * m > 0 && (v / d) / m == v / (d * m)
  {
    MulPositive(d, m);
    var q := v / d;
    var x, r := q / m, q % m;
    MulAssoc(x, m, d);
    MulMonotone(d, r + 1, m);
    assert v == q * d + v % d && q == x * m + r;
    assert q * d == x * (m * d) + r * d;
    DivModIs(v, x, d * m, r * d + v % d);
  }

  /** v / 16^k */
  ghost function Sixteenth(v: nat, k: nat): nat {
    if k == 0 then v else Sixteenth(v / 16, k - 1)
  }

  lemma NumeralTail(digits: string, j: nat)
    requires AllLower(digits) && j <= |digits|
    requires forall k :: 0 <= k < j ==> digits[k] == '0'
    requires j < |digits| ==> digits[j] != '0'
    ensures IsNumeral(digits[j..], HexVal(digits))
  {
    var z, t := digits[..j], digits[j..];
    assert digits == z + t;
    assert AllLower(t) by { assert forall k :: 0 <= k < |t| ==> t[k] == digits[j + k]; }
    HexValZeros(t, z);
  }

  lemma {:induction false} CStringIs(s: seq<char>, t: string)
    requires |t| < |s| && s[..|t|] == t && s[|t|] == '\0'
    requires AllLower(t)
    ensures CString(s) == t
  {
    if t != [] {
      assert s[0] == t[0];
      CStringIs(s[1..], t[1..]);
    }
  }

  /** Words of eight digits, read from the end of the text; sscanf with "%8x" reads one of them. */
  method FromStr(bn: array<Word>, str: array<char>, nbytes: nat)
    requires 0 < nbytes <= str.Length && nbytes % WORD_DIGITS == 0
    requires nbytes <= WORD_DIGITS * bn.Length
    requires forall k :: 0 <= k < nbytes ==> IsHexDigit(str[k])
    modifies bn
    ensures Val(bn[..]) == HexVal(str[..nbytes])
  {
    Init(bn);
    ReadWords(bn, str, nbytes, nbytes / WORD_DIGITS);
  }

  /** The loop of from_str: the last eight digits into the lowest word, and so on. */
  method ReadWords(bn: array<Word>, str: array<char>, nbytes: nat, ghost words: nat)
    requires nbytes == WORD_DIGITS * words && nbytes <= str.Length && words <= bn.Length
    requires forall k :: 0 <= k < nbytes ==> IsHexDigit(str[k])
    requires forall k :: 0 <= k < bn.Length ==> bn[k] == 0
    modifies bn
    ensures Val(bn[..]) == HexVal(str[..nbytes])
  {
    ghost var text, n := str[..nbytes], bn.Length;
    var i: int := nbytes - WORD_DIGITS;
    var j := 0;
    assert text[nbytes..] == [];
    while i >= 0
      invariant 0 <= j <= words && i == WORD_DIGITS * (words - 1 - j)
      invariant forall k :: 0 <= k < nbytes ==> str[k] == text[k]
      invariant forall k :: j <= k < n ==> bn[k] == 0
      invariant Prefix(bn[..], j) == HexVal(text[i + WORD_DIGITS..])
    {
      ReadWord(bn, str, i, j, text);
      i := i - WORD_DIGITS;
      j := j + 1;
    }
    ZerosAbove(bn[..], j, n);
    assert text[0..] == text;
  }

  /** One step of from_str: eight digits into word j. */
  method ReadWord(bn: array<Word>, str: array<char>, i: nat, j: nat, ghost text: string)
    requires j < bn.Length && |text| <= str.Length && forall k :: 0 <= k < |text| ==> str[k] == text[k]
    requires i + WORD_DIGITS * (j + 1) == |text|
    requires forall k :: 0 <= k < |text| ==> IsHexDigit(text[k])
    requires Prefix(bn[..], j) == HexVal(text[i + WORD_DIGITS..])
    modifies bn
    ensures forall k :: 0 <= k < bn.Length && k != j ==> bn[k] == old(bn[k])
    ensures Prefix(bn[..], j + 1) == HexVal(text[i..])
  {
    ghost var before := bn[..];
    assert str[i..i + WORD_DIGITS] == text[i..i + WORD_DIGITS];
    var tmp := ScanWord(str, i);
    bn[j] := tmp;
    PrefixStep(before, bn[..], j);
    WordAbove(text, i, j, WORD_DIGITS);
  }

  lemma {:induction false} ZerosAbove(s: seq<Word>, j: nat, m: nat)
    requires j <= m <= |s| && forall k :: j <= k < m ==> s[k] == 0
    ensures Prefix(s, m) == Prefix(s, j)
  {
    if j < m {
      ZerosAbove(s, j, m - 1);
      UpZero(0, m - 1);
    }
  }

  method ScanWord(str: array<char>, at: nat) returns (w: Word)
    requires at + WORD_DIGITS <= str.Length
    requires forall k :: at <= k < at + WORD_DIGITS ==> IsHexDigit(str[k])
    ensures w == HexVal(str[at..at + WORD_DIGITS])
  {
    var v := 0;
    for k := 0 to WORD_DIGITS
      invariant v == HexVal(str[at..at + k]) < Hexed(1, k)
    {
      assert str[at..at + k + 1][..k] == str[at..at + k];
      v := v * 16 + DigitVal(str[at + k]);
    }
    HexedWord(1);
    w := v;
  }

  lemma WordAbove(text: string, i: nat, j: nat, k: nat)
    requires k == WORD_DIGITS && i + k * (j + 1) == |text|
    ensures HexVal(text[i..]) == Up(HexVal(text[i..i + k]), j) + HexVal(text[i + k..])
  {
    var x, y := text[i..i + k], text[i + k..];
    assert text[i..] == x + y;
    HexValAppend(x, y);
    HexedUp(HexVal(x), j);
  }

  /** The text padded with zeros on the left. */
  function Padded(text: string, total: nat): string
    requires |text| <= total
  {
    seq(total - |text|, _ => '0') + text
  }

  lemma PaddedValue(text: string, total: nat, v: nat)
    requires |text| <= total && IsNumeral(text, v)
    ensures |Padded(text, total)| == total && HexVal(Padded(text, total)) == v
    ensures forall k :: 0 <= k < total ==> IsHexDigit(Padded(text, total)[k])
  {
    var z := seq(total - |text|, _ => '0');
    HexValZeros(text, z);
    assert Padded(text, total) == z + text;
  }

  method WriteText(str: array<char>, text: string)
    requires |text| <= str.Length
    modifies str
    ensures str[..|text|] == text
    ensures forall k :: 0 <= k < |text| ==> str[k] == text[k]
  {
    forall k | 0 <= k < |text| { str[k] := text[k]; }
  }

  lemma WholeWords(n: nat)
    ensures (WORD_DIGITS * n) % WORD_DIGITS == 0 && (WORD_DIGITS * n) % 2 == 0
  {
    DivModIs(WORD_DIGITS * n, n, WORD_DIGITS, 0);
    DivModIs(WORD_DIGITS * n, 4 * n, 2, 0);
  }

  /** Printing a number, padding the text with zeros and parsing it restores the number, in upper case as well. */
  method PrintAndParse(bn: array<Word>, out: array<Word>, str: array<char>, upper: bool)
    requires bn.Length == out.Length > 0 && bn != out
    requires str.Length == WORD_DIGITS * bn.Length + 1
    modifies out, str
    ensures out[..] == bn[..]
  {
    ghost var s := bn[..];
    var total := WORD_DIGITS * bn.Length;
    WholeWords(bn.Length);
    PrintedEnough(bn.Length, total);
    ToStr(bn, str, total);
    var text := CString(str[..]);
    assert bn[..] == s;
    PaddedValue(text, total, Val(s));
    var padded := Padded(text, total);
    SameInUpperCase(padded);
    WriteText(str, if upper then Upper(padded) else padded);
    FromStr(out, str, total);
    assert bn[..] == s;
    ValInjective(out[..], s);
  }
}
