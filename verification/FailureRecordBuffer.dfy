/**
 The buffers of src/ty_test.c: the writer that appends to one, and the reader that splits and unescapes one
 in place. A char* is an offset into its buffer.
 */
module FailureRecordBuffer {
  import opened FailureRecord

  datatype Kind = Pass | Fail | FailAssert | FailString | FailNumber | FailMemory | FailTimeout | Error | Skip

  /** The text that goes into the record for the expression; other kinds are not written at all. */
  function ExpressionText(kind: Kind, expression: CString): CString {
    match kind
    case FailAssert => if expression.Text? then expression else Text("")
    case FailString => if expression.Text? then expression else Text("-")
    case FailNumber => if expression.Text? then expression else Text("-")
    case FailMemory => Text("Memory compare failed.")
    case FailTimeout => Text("Timeout exceeded")
    case _ => Null
  }

  function KindNumber(kind: Kind): string {
    match kind
    case Pass => "0"
    case Fail => "1"
    case FailAssert => "2"
    case FailString => "3"
    case FailNumber => "4"
    case FailMemory => "5"
    case FailTimeout => "6"
    case Error => "7"
    case Skip => "8"
  }

  /** The kinds, each at its place in the enum. */
  const KINDS: seq<Kind> := [Pass, Fail, FailAssert, FailString, FailNumber, FailMemory, FailTimeout, Error, Skip]

  /** The number of a kind is its place, so that it tells the kinds apart. */
  lemma KindNumberIsPlace(kind: Kind)
    ensures AllDigits(KindNumber(kind)) && DecVal(KindNumber(kind)) < |KINDS| && KINDS[DecVal(KindNumber(kind))] == kind
  {
    var t := KindNumber(kind);
    assert t[..0] == [];
  }

  /** Asserts, strings and numbers keep the expression they are given; memory and timeouts have texts of their own. */
  lemma ExpressionKept(kind: Kind, expression: CString)
    requires expression.Text?
    ensures kind.FailAssert? || kind.FailString? || kind.FailNumber? ==> ExpressionText(kind, expression) == expression
    ensures kind.FailMemory? || kind.FailTimeout? ==> ExpressionText(kind, expression) == ExpressionText(kind, Null)
    ensures ExpressionText(kind, expression).Null? <==> kind.Pass? || kind.Fail? || kind.Error? || kind.Skip?
    ensures ExpressionText(FailMemory, Null) != ExpressionText(FailTimeout, Null)
  {
    assert "Memory compare failed."[0] != "Timeout exceeded"[0];
  }

  lemma ExpressionMissing()
    ensures ExpressionText(FailAssert, Null) == Text("")
    ensures ExpressionText(FailString, Null) == ExpressionText(FailNumber, Null) == Text("-")
    ensures ExpressionText(FailMemory, Null) == Text("Memory compare failed.")
    ensures ExpressionText(FailTimeout, Null) == Text("Timeout exceeded")
  {}

  // ---- Numbers ----

  predicate IsDigit(c: char) {
    '0' <= c <= '9'
  }

  predicate AllDigits(t: string) {
    t != [] && forall i :: 0 <= i < |t| ==> IsDigit(t[i])
  }

  /** The number that decimal digits denote. */
  ghost function DecVal(t: string): nat {
    if t == [] || !IsDigit(t[|t| - 1]) then 0 else DecVal(t[..|t| - 1]) * 10 + (t[|t| - 1] - '0') as int
  }

  /** The ten digits in order, and no other characters. */
  lemma DecimalDigits(d: nat, c: char)
    requires d < 10
    ensures IsDigit("0123456789"[d]) && DecVal(["0123456789"[d]]) == d
    ensures IsDigit(c) <==> c in "0123456789"
  {
    assert IsDigit(c) ==> c == "0123456789"[(c - '0') as int];
  }

  predicate IsSpace(c: char) {
    c == ' ' || '\t' <= c <= '\r'
  }

  function SpaceEnd(t: string, i: nat): nat
    decreases |t| - i
  {
    if i < |t| && IsSpace(t[i]) then SpaceEnd(t, i + 1) else i
  }

  /** v, and the digits from i on behind it. */
  function Leading(v: nat, t: string, i: nat): nat
    decreases |t| - i
  {
    if i < |t| && IsDigit(t[i]) then Leading(v * 10 + (t[i] - '0') as int, t, i + 1) else v
  }

  /** What atoi makes of a text: blanks, a sign, and the digits up to the first other character. */
  function AtoiVal(t: string): int {
    var i := SpaceEnd(t, 0);
    if i < |t| && t[i] == '-' then 0 - Leading(0, t, i + 1)
    else if i < |t| && t[i] == '+' then Leading(0, t, i + 1)
    else Leading(0, t, i)
  }

  lemma {:induction false} LeadingIsDecimal(t: string, i: nat)
    requires i <= |t| && forall j :: 0 <= j < |t| ==> IsDigit(t[j])
    ensures Leading(DecVal(t[..i]), t, i) == DecVal(t)
    decreases |t| - i
  {
    if i < |t| {
      assert t[..i + 1][..i] == t[..i];
      LeadingIsDecimal(t, i + 1);
    } else {
      assert t[..i] == t;
    }
  }

  lemma AtoiOfDigits(t: string)
    requires AllDigits(t)
    ensures AtoiVal(t) == DecVal(t)
  {
    assert t[..0] == [];
    LeadingIsDecimal(t, 0);
  }

  lemma {:induction false} LeadingBehind(v: nat, c: char, t: string, i: nat)
    ensures Leading(v, [c] + t, i + 1) == Leading(v, t, i)
    decreases |t| - i
  {
    if i < |t| && IsDigit(t[i]) { LeadingBehind(v * 10 + (t[i] - '0') as int, c, t, i + 1); }
  }

  lemma {:induction false} SpaceBehind(c: char, t: string, i: nat)
    ensures SpaceEnd([c] + t, i + 1) == SpaceEnd(t, i) + 1
    decreases |t| - i
  {
    if i < |t| && IsSpace(t[i]) { SpaceBehind(c, t, i + 1); }
  }

  /** A sign before the digits, and blanks before anything. */
  lemma AtoiOfSigned(t: string, c: char)
    ensures AllDigits(t) ==> AtoiVal("-" + t) == -(DecVal(t) as int) && AtoiVal("+" + t) == DecVal(t)
    ensures c in " \t\n\r" || c as int == 11 || c as int == 12 ==> AtoiVal([c] + t) == AtoiVal(t)
  {
    if AllDigits(t) {
      AtoiOfDigits(t);
      LeadingBehind(0, '-', t, 0);
      LeadingBehind(0, '+', t, 0);
    }
    SpaceBehind(c, t, 0);
    var i := SpaceEnd(t, 0);
    LeadingBehind(0, c, t, i);
    LeadingBehind(0, c, t, i + 1);
  }

  /** atoi, for numbers of any length. */
  method Atoi(buf: array<char>, o: nat, ghost text: string) returns (v: int)
    requires TextAt(buf[..], o, text)
    ensures v == AtoiVal(text)
  {
    var p := o;
    while IsSpace(buf[p])
      invariant o <= p <= o + |text| && SpaceEnd(text, p - o) == SpaceEnd(text, 0)
      decreases o + |text| - p
    {
      InText(buf[..], o, text, p);
      p := p + 1;
    }
    InText(buf[..], o, text, p);
    var negative := buf[p] == '-';
    if negative || buf[p] == '+' {
      p := p + 1;
    }
    var n: int := Digits(buf, o, p, text);
    v := if negative then -n else n;
  }

  method Digits(buf: array<char>, o: nat, from: nat, ghost text: string) returns (n: nat)
    requires TextAt(buf[..], o, text) && o <= from <= o + |text|
    ensures n == Leading(0, text, from - o)
  {
    n := 0;
    var p := from;
    while IsDigit(buf[p])
      invariant from <= p <= o + |text| && Leading(n, text, p - o) == Leading(0, text, from - o)
      decreases o + |text| - p
    {
      InText(buf[..], o, text, p);
      n := n * 10 + (buf[p] - '0') as int;
      p := p + 1;
    }
    InText(buf[..], o, text, p);
  }

  /* ---- The writer ---- */

  method AppendEscaped(buf: array<char>, p: nat, end: nat, s: CString) returns (q: nat)
    requires p <= end <= buf.Length
    modifies buf
    ensures p <= q <= end
    ensures buf[..q] == old(buf[..p]) + EscapedIn(Chars(s), end - p)
    ensures forall k :: end <= k < buf.Length ==> buf[k] == old(buf[k])
  {
    q := p;
    if s.Null? {
      return;
    }
    var i := 0;
    while i < |s.chars| && q < end
      invariant i <= |s.chars| && p <= q <= end
      invariant buf[..q] + EscapedIn(s.chars[i..], end - q) == old(buf[..p]) + EscapedIn(s.chars, end - p)
      invariant forall k :: end <= k < buf.Length ==> buf[k] == old(buf[k])
    {
      EscapedStep(buf[..q], s.chars[i..], end - q);
      assert s.chars[i..][1..] == s.chars[i + 1..];
      q := AppendChar(buf, q, end, s.chars[i]);
      i := i + 1;
    }
    assert EscapedIn(s.chars[i..], end - q) == [];
  }

  /** The characters for c where there is room for `room` more. */
  function CharIn(c: char, room: nat): string {
    if Special(c) && room > 1 then ['\\', c] else [c]
  }

  method AppendChar(buf: array<char>, p: nat, end: nat, c: char) returns (q: nat)
    requires p < end <= buf.Length
    modifies buf
    ensures q == p + |CharIn(c, end - p)| <= end && buf[..q] == old(buf[..p]) + CharIn(c, end - p)
    ensures forall k :: end <= k < buf.Length ==> buf[k] == old(buf[k])
  {
    q := p;
    if Special(c) && q + 1 < end {
      buf[q] := '\\';
      q := q + 1;
    }
    buf[q] := c;
    q := q + 1;
  }

  lemma EscapedStep(front: string, s: string, room: nat)
    requires s != [] && room > 0
    ensures var head := CharIn(s[0], room);
            front + EscapedIn(s, room) == (front + head) + EscapedIn(s[1..], room - |head|)
  {
    var head := CharIn(s[0], room);
    Regroup(front, head, EscapedIn(s[1..], room - |head|));
  }

  method AppendLiteral(buf: array<char>, p: nat, end: nat, s: CString) returns (q: nat)
    requires p <= end <= buf.Length
    modifies buf
    ensures p <= q <= end
    ensures buf[..q] == old(buf[..p]) + LiteralIn(Chars(s), end - p)
    ensures forall k :: end <= k < buf.Length ==> buf[k] == old(buf[k])
  {
    q := p;
    var i := 0;
    while s.Text? && i < |s.chars| && q < end
      invariant i <= |Chars(s)| && q == p + i <= end
      invariant buf[..q] == old(buf[..p]) + Chars(s)[..i]
      invariant forall k :: end <= k < buf.Length ==> buf[k] == old(buf[k])
    {
      buf[q] := s.chars[i];
      q := q + 1;
      i := i + 1;
    }
  }

  /** `front`, and the texts from i on behind it, written into `room` characters. */
  ghost function RecordOnto(front: string, texts: seq<string>, i: nat, room: nat): string
    decreases |texts| - i
  {
    if i >= |texts| then front
    else
      var f := FieldIn(texts[i], room);
      RecordOnto(front + f, texts, i + 1, if |f| <= room then room - |f| else 0)
  }

  lemma {:induction false} RecordOntoIs(front: string, texts: seq<string>, i: nat, room: nat)
    requires i <= |texts|
    ensures RecordOnto(front, texts, i, room) == front + RecordIn(texts[i..], room)
    decreases |texts| - i
  {
    if i < |texts| {
      var f := FieldIn(texts[i], room);
      var left := if |f| <= room then room - |f| else 0;
      RecordOntoIs(front + f, texts, i + 1, left);
      assert texts[i..][1..] == texts[i + 1..];
      Regroup(front, f, RecordIn(texts[i + 1..], left));
    }
  }

  lemma RecordOntoStep(front: string, texts: seq<string>, i: nat, room: nat)
    requires i < |texts|
    ensures var f := FieldIn(texts[i], room);
            |f| <= room && RecordOnto(front + f, texts, i + 1, room - |f|) == RecordOnto(front, texts, i, room)
  {
    FieldInIsCut(texts[i], room);
  }

  /** A text and the bar behind it. */
  method AppendText(buf: array<char>, p: nat, end: nat, s: CString) returns (q: nat)
    requires p <= end <= buf.Length
    modifies buf
    ensures q == p + |FieldIn(Chars(s), end - p)| <= end && buf[..q] == old(buf[..p]) + FieldIn(Chars(s), end - p)
  {
    q := AppendEscaped(buf, p, end, s);
    q := AppendLiteral(buf, q, end, Text("|"));
  }

  /** A number and the bar behind it. */
  method AppendPlain(buf: array<char>, p: nat, end: nat, digits: string) returns (q: nat)
    requires p <= end <= buf.Length && Plain(digits)
    modifies buf
    ensures q == p + |FieldIn(digits, end - p)| <= end && buf[..q] == old(buf[..p]) + FieldIn(digits, end - p)
  {
    PlainIn(digits, end - p);
    q := AppendLiteral(buf, p, end, Text(digits));
    q := AppendLiteral(buf, q, end, Text("|"));
  }

  /** Text i and the bar behind it. */
  method AppendField(buf: array<char>, p: nat, end: nat, s: CString, ghost texts: seq<string>,
                     ghost i: nat) returns (q: nat)
    requires p <= end <= buf.Length && i < |texts| && texts[i] == Chars(s)
    modifies buf
    ensures p <= q <= end
    ensures RecordOnto(buf[..q], texts, i + 1, end - q) == RecordOnto(old(buf[..p]), texts, i, end - p)
  {
    RecordOntoStep(buf[..p], texts, i, end - p);
    q := AppendText(buf, p, end, s);
  }

  /** Number i and the bar behind it. */
  method AppendNumber(buf: array<char>, p: nat, end: nat, digits: string, ghost texts: seq<string>,
                      ghost i: nat) returns (q: nat)
    requires p <= end <= buf.Length && Plain(digits) && i < |texts| && texts[i] == digits
    modifies buf
    ensures p <= q <= end
    ensures RecordOnto(buf[..q], texts, i + 1, end - q) == RecordOnto(old(buf[..p]), texts, i, end - p)
  {
    RecordOntoStep(buf[..p], texts, i, end - p);
    q := AppendPlain(buf, p, end, digits);
  }

  /** What _ty_test_write_failure_to_pipe writes, and nothing for other kinds than failures. */
  method WriteFailure(kind: Kind, expression: CString, expected: CString, got: CString, file: CString, line: string)
    returns (record: string)
    requires Plain(line)
    ensures var text := ExpressionText(kind, expression);
            record == if text.Null? then [] else RecordIn([KindNumber(kind), Chars(file), text.chars, Chars(expected),
                Chars(got), line], BUFFER_SIZE - 1)
  {
    var text := ExpressionText(kind, expression);
    if text.Null? {
      return [];
    }
    ghost var texts := [KindNumber(kind), Chars(file), text.chars, Chars(expected), Chars(got), line];
    record := WriteFields(KindNumber(kind), file, text, expected, got, line, texts);
  }

  method WriteFields(kind: string, file: CString, expression: CString, expected: CString, got: CString, line: string,
                     ghost texts: seq<string>) returns (record: string)
    requires |texts| == 6 && Plain(kind) && Plain(line) && texts[0] == kind && texts[5] == line
    requires texts[1] == Chars(file) && texts[2] == Chars(expression) && texts[3] == Chars(expected) &&
        texts[4] == Chars(got)
    ensures record == RecordIn(texts, BUFFER_SIZE - 1)
  {
    var buf := new char[BUFFER_SIZE];
    ghost var whole := RecordOnto("", texts, 0, BUFFER_SIZE - 1);
    RecordOntoIs("", texts, 0, BUFFER_SIZE - 1);
    assert texts[0..] == texts;
    assert buf[..0] == "";
    var p := AppendStart(buf, 0, BUFFER_SIZE - 1, kind, file, texts);
    p := AppendMost(buf, p, BUFFER_SIZE - 1, expression, expected, got, line, texts, whole);
    buf[p] := NUL;
    record := buf[..p];
  }

  method AppendMost(buf: array<char>, p: nat, end: nat, expression: CString, expected: CString, got: CString,
                    line: string, ghost texts: seq<string>, ghost whole: string) returns (q: nat)
    requires p <= end <= buf.Length && |texts| == 6 && Plain(line)
    requires texts[2] == Chars(expression) && texts[3] == Chars(expected) && texts[4] == Chars(got) && texts[5] == line
    requires RecordOnto(buf[..p], texts, 2, end - p) == whole
    modifies buf
    ensures p <= q <= end && buf[..q] == whole
  {
    q := AppendField(buf, p, end, expression, texts, 2);
    q := AppendRest(buf, q, end, expected, got, line, texts);
  }

  method AppendStart(buf: array<char>, p: nat, end: nat, kind: string, file: CString, ghost texts: seq<string>)
    returns (q: nat)
    requires p <= end <= buf.Length && |texts| > 1 && Plain(kind)
    requires texts[0] == kind && texts[1] == Chars(file)
    modifies buf
    ensures p <= q <= end
    ensures RecordOnto(buf[..q], texts, 2, end - q) == RecordOnto(old(buf[..p]), texts, 0, end - p)
  {
    q := AppendNumber(buf, p, end, kind, texts, 0);
    q := AppendField(buf, q, end, file, texts, 1);
  }

  method AppendRest(buf: array<char>, p: nat, end: nat, expected: CString, got: CString, line: string,
                    ghost texts: seq<string>)
    returns (q: nat)
    requires p <= end <= buf.Length && |texts| == 6 && Plain(line)
    requires texts[3] == Chars(expected) && texts[4] == Chars(got) && texts[5] == line
    modifies buf
    ensures p <= q <= end
    ensures RecordOnto(buf[..q], texts, 6, end - q) == RecordOnto(old(buf[..p]), texts, 3, end - p)
  {
    q := AppendField(buf, p, end, expected, texts, 3);
    q := AppendField(buf, q, end, got, texts, 4);
    q := AppendNumber(buf, q, end, line, texts, 5);
  }

  /* ---- The reader ---- */

  /** s and its terminator are at offset o. */
  ghost predicate TextAt(b: string, o: nat, s: string) {
    o + |s| < |b| && b[o + |s|] == NUL && NulFree(s) && forall k {:trigger s[k]} :: 0 <= k < |s| ==> b[o + k] == s[k]
  }

  ghost predicate SameWithin(was: string, now: string, lo: nat, hi: nat) {
    |now| == |was| && forall k {:trigger now[k]} :: 0 <= k < |was| && lo <= k < hi ==> now[k] == was[k]
  }

  /** The texts fs are at the offsets offs, one behind the other, all before `end`. */
  ghost predicate Laid(b: string, offs: seq<nat>, fs: seq<string>, end: nat) {
    && |offs| == |fs|
    && (forall i {:trigger TextAt(b, offs[i], fs[i])} :: 0 <= i < |offs| ==>
        TextAt(b, offs[i], fs[i]) && offs[i] + |fs[i]| < end)
    && (forall i, j :: 0 <= i < j < |offs| ==> offs[i] + |fs[i]| < offs[j])
  }

  lemma TextKept(was: string, now: string, o: nat, s: string)
    requires TextAt(was, o, s) && SameWithin(was, now, o, o + |s| + 1)
    ensures TextAt(now, o, s)
  {
  }

  /** _ty_test_unescape: the write cursor never passes the read cursor. */
  method Unescape(buf: array<char>, s: nat, ghost text: string)
    requires TextAt(buf[..], s, text)
    modifies buf
    ensures |UnescapedOnto("", text, 0)| <= |text| && TextAt(buf[..], s, UnescapedOnto("", text, 0))
    ensures SameWithin(old(buf[..]), buf[..], 0, s) && SameWithin(old(buf[..]), buf[..], s + |text|, buf.Length)
  {
    ghost var was := buf[..];
    var w, r := s, s;
    ghost var done := "";
    while buf[r] != NUL
      invariant s <= w <= r <= s + |text| && w == s + |done|
      invariant UnescapedOnto(done, text, r - s) == UnescapedOnto("", text, 0)
      invariant NulFree(done)
      invariant Halfway(was, buf[..], s, done, r)
      decreases s + |text| - r
    {
      InText(was, s, text, r);
      if buf[r] == '\\' && Special(buf[r + 1]) {
        r := r + 1;
      }
      HalfwayStep(was, buf[..], s, done, r, text);
      buf[w] := buf[r];
      done := done + [text[r - s]];
      w, r := w + 1, r + 1;
    }
    InText(was, s, text, r);
    HalfwayEnds(was, buf[..], s, done, text);
    buf[w] := NUL;
  }

  /** `done` is written from s on, and what is at r or behind it is not written yet. */
  ghost predicate Halfway(was: string, now: string, s: nat, done: string, r: nat) {
    && |now| == |was| && s + |done| <= r <= |was| &&
        (forall k {:trigger done[k]} :: 0 <= k < |done| ==> now[s + k] == done[k])
    && SameWithin(was, now, 0, s) && SameWithin(was, now, r, |was|)
  }

  lemma HalfwayStep(was: string, now: string, s: nat, done: string, r: nat, text: string)
    requires TextAt(was, s, text) && s <= r < s + |text| && s + |done| <= r
    requires Halfway(was, now, s, done, r) || (s + |done| < r && Halfway(was, now, s, done, r - 1))
    ensures Halfway(was, now[s + |done| := now[r]], s, done + [text[r - s]], r + 1)
  {
    assert now[r] == was[r] == text[r - s];
  }

  lemma HalfwayEnds(was: string, now: string, s: nat, done: string, text: string)
    requires TextAt(was, s, text) && Halfway(was, now, s, done, s + |text|) && NulFree(done)
    ensures TextAt(now[s + |done| := NUL], s, done)
    ensures SameWithin(was, now[s + |done| := NUL], 0, s) && SameWithin(was, now[s + |done| := NUL], s + |text|, |was|)
  {}

  /** The characters at r and behind it, while r runs over the text at s. */
  lemma InText(b: string, s: nat, text: string, r: nat)
    requires TextAt(b, s, text) && s <= r <= s + |text|
    ensures b[r] == NUL <==> r == s + |text|
    ensures r < s + |text| ==> b[r] == text[r - s]
    ensures r + 1 < s + |text| ==> b[r + 1] == text[r + 1 - s]
    ensures r + 1 == s + |text| ==> b[r + 1] == NUL
  {
    if r < s + |text| { assert b[r] == text[r - s]; }
  }

  /** `done`, and the text from character i on unescaped behind it. */
  ghost function UnescapedOnto(done: string, text: string, i: nat): string
    decreases |text| - i
  {
    if i >= |text| then done
    else if text[i] == '\\' && i + 1 < |text| && Special(text[i + 1])
        then UnescapedOnto(done + [text[i + 1]], text, i + 2)
    else UnescapedOnto(done + [text[i]], text, i + 1)
  }

  lemma {:induction false} UnescapedOntoIs(done: string, text: string, i: nat)
    requires i <= |text|
    ensures UnescapedOnto(done, text, i) == done + Unescaped(text[i..])
    decreases |text| - i
  {
    if i < |text| {
      var rest := text[i..];
      var escape := text[i] == '\\' && i + 1 < |text| && Special(text[i + 1]);
      var c, j := if escape then text[i + 1] else text[i], if escape then i + 2 else i + 1;
      assert rest[1..] == text[i + 1..] && (|rest| > 1 ==> rest[2..] == text[i + 2..]);
      UnescapedOntoIs(done + [c], text, j);
      Regroup(done, [c], Unescaped(text[j..]));
    }
  }

  /**
   The inner loop of _ty_split_fields: a bar becomes the terminator of its field. `field` and `more` are the
   texts before and behind the bar; `fs` and `max` are what the outer loop has and may still take.
   */
  method ScanField(buf: array<char>, s: nat, ghost text: string, ghost fs: seq<string>, ghost max: nat)
    returns (p: nat, split: bool, ghost field: string, ghost more: string)
    requires TextAt(buf[..], s, text) && max > 0
    modifies buf
    ensures s <= p && TextAt(buf[..], s, field) && (split ==> TextAt(buf[..], p, more))
    ensures if split then p == s + |field| + 1 && p + |more| == s + |text| else p == s + |field| == s + |text|
    ensures FieldsOnto(fs, text, max) == if split then FieldsOnto(fs + [field], more, max - 1) else fs + [field]
    ensures SameWithin(old(buf[..]), buf[..], 0, s) && SameWithin(old(buf[..]), buf[..], p, buf.Length)
  {
    ghost var was := buf[..];
    p := FindBar(buf, s, text);
    InText(was, s, text, p);
    split := buf[p] == '|';
    if split {
      buf[p] := NUL;
      field, more := text[..p - s], text[p - s + 1..];
      FieldCut(was, buf[..], s, text, p - s, field, more);
      p := p + 1;
    } else {
      field, more := text, "";
    }
  }

  method FindBar(buf: array<char>, s: nat, ghost text: string) returns (p: nat)
    requires TextAt(buf[..], s, text)
    ensures p == s + FieldEndFrom(text, 0) && (p < s + |text| ==> buf[p] == '|')
  {
    p := s;
    while buf[p] != NUL && buf[p] != '|'
      invariant s <= p <= s + |text|
      invariant FieldEndFrom(text, p - s) == FieldEndFrom(text, 0)
      decreases s + |text| - p
    {
      InText(buf[..], s, text, p);
      if buf[p] == '\\' && buf[p + 1] != NUL {
        InText(buf[..], s, text, p + 1);
        p := p + 2;
      } else {
        p := p + 1;
      }
    }
    InText(buf[..], s, text, p);
  }

  /** The end of a field whose characters from i on are still to be scanned. */
  ghost function FieldEndFrom(text: string, i: nat): (e: nat)
    ensures i <= |text| ==> i <= e <= |text|
    decreases |text| - i
  {
    if i >= |text| then i
    else if text[i] == '\\' && i + 1 < |text| then FieldEndFrom(text, i + 2)
    else if text[i] == '|' then i
    else FieldEndFrom(text, i + 1)
  }

  lemma {:induction false} FieldEndFromIs(text: string, i: nat)
    requires i <= |text|
    ensures FieldEndFrom(text, i) == i + FieldEnd(text[i..]) && (i == 0 ==> text[i..] == text)
    decreases |text| - i
  {
    if i < |text| && text[i] != '|' {
      var rest := text[i..];
      assert rest[1..] == text[i + 1..] && (|rest| > 1 ==> rest[2..] == text[i + 2..]);
      FieldEndFromIs(text, if text[i] == '\\' && i + 1 < |text| then i + 2 else i + 1);
    }
  }

  lemma FieldCut(was: string, now: string, s: nat, text: string, e: nat, field: string, more: string)
    requires TextAt(was, s, text) && e < |text| && field == text[..e] && more == text[e + 1..] &&
        now == was[s + e := NUL]
    ensures TextAt(now, s, field) && TextAt(now, s + e + 1, more)
    ensures SameWithin(was, now, 0, s) && SameWithin(was, now, s + e + 1, |was|)
  {}

  /** _ty_split_fields on the text at the start of the buffer. */
  method SplitFields(buf: array<char>, max: nat, ghost text: string) returns (fields: seq<nat>)
    requires TextAt(buf[..], 0, text)
    modifies buf
    ensures Laid(buf[..], fields, Fields(text, max), |text| + 1)
    ensures SameWithin(old(buf[..]), buf[..], |text|, buf.Length)
  {
    ghost var was := buf[..];
    FieldsOntoIs([], text, max);
    assert [] + Fields(text, max) == Fields(text, max);
    ghost var all := FieldsOnto([], text, max);
    var p: nat := 0;
    fields := [];
    ghost var done: seq<string> := [];
    ghost var rest := text;
    while |fields| < max
      invariant |fields| <= max && p + |rest| == |text|
      invariant SplitSoFar(buf[..], fields, done, p, rest) && FieldsOnto(done, rest, max - |fields|) == all
      invariant SameWithin(was, buf[..], p, buf.Length)
      decreases max - |fields|
    {
      ghost var before := buf[..];
      var q, split, field, more := ScanField(buf, p, rest, done, max - |fields|);
      LaidNext(before, buf[..], fields, done, p, field);
      fields := fields + [p];
      done := done + [field];
      p := q;
      if !split {
        return;
      }
      rest := more;
    }
  }

  /** The fields so far, and the rest of the text still to be split. */
  ghost predicate SplitSoFar(b: string, offs: seq<nat>, fs: seq<string>, p: nat, rest: string) {
    Laid(b, offs, fs, p) && TextAt(b, p, rest)
  }

  /** `fs`, and the fields of the rest behind them. */
  ghost function FieldsOnto(fs: seq<string>, rest: string, max: nat): seq<string>
    decreases max
  {
    if max == 0 then fs
    else
      var e := FieldEndFrom(rest, 0);
      if e >= |rest| then fs + [rest] else FieldsOnto(fs + [rest[..e]], rest[e + 1..], max - 1)
  }

  lemma {:induction false} FieldsOntoIs(fs: seq<string>, rest: string, max: nat)
    ensures FieldsOnto(fs, rest, max) == fs + Fields(rest, max)
    decreases max
  {
    FieldEndFromIs(rest, 0);
    if max > 0 {
      FieldsStep(fs, rest, max, FieldEnd(rest));
      if FieldEnd(rest) < |rest| {
        FieldsOntoIs(fs + [rest[..FieldEnd(rest)]], rest[FieldEnd(rest) + 1..], max - 1);
      }
    }
  }

  lemma FieldsStep(fs: seq<string>, rest: string, max: nat, e: nat)
    requires max > 0 && e == FieldEnd(rest)
    ensures fs + Fields(rest, max) == if e == |rest| then fs + [rest]
        else (fs + [rest[..e]]) + Fields(rest[e + 1..], max - 1)
  {
    if e == |rest| {
      assert rest[..e] == rest;
    } else {
      Regroup(fs, [rest[..e]], Fields(rest[e + 1..], max - 1));
    }
  }

  lemma LaidNext(was: string, now: string, offs: seq<nat>, fs: seq<string>, p: nat, field: string)
    requires Laid(was, offs, fs, p) && SameWithin(was, now, 0, p) && TextAt(now, p, field)
    ensures Laid(now, offs + [p], fs + [field], p + |field| + 1)
  {
    forall i | 0 <= i < |offs| ensures TextAt(now, offs[i], fs[i]) && offs[i] + |fs[i]| < p {
      assert TextAt(was, offs[i], fs[i]);
      TextKept(was, now, offs[i], fs[i]);
    }
  }

  /** Unescaping one field leaves the others as they are. */
  method UnescapeField(buf: array<char>, fields: seq<nat>, i: nat, ghost fs: seq<string>, ghost end: nat)
    requires Laid(buf[..], fields, fs, end) && i < |fields|
    modifies buf
    ensures Laid(buf[..], fields, fs[i := Unescaped(fs[i])], end)
  {
    ghost var was := buf[..];
    assert TextAt(was, fields[i], fs[i]);
    Unescape(buf, fields[i], fs[i]);
    UnescapedOntoIs("", fs[i], 0);
    assert fs[i][0..] == fs[i] && "" + Unescaped(fs[i]) == Unescaped(fs[i]);
    LaidUnescaped(was, buf[..], fields, fs, end, i);
  }

  lemma LaidUnescaped(was: string, now: string, offs: seq<nat>, fs: seq<string>, end: nat, i: nat)
    requires Laid(was, offs, fs, end) && i < |offs| && |Unescaped(fs[i])| <= |fs[i]|
    requires SameWithin(was, now, 0, offs[i]) && SameWithin(was, now, offs[i] + |fs[i]|, |was|)
    requires TextAt(now, offs[i], Unescaped(fs[i]))
    ensures Laid(now, offs, fs[i := Unescaped(fs[i])], end)
  {
    assert TextAt(was, offs[i], fs[i]);
    forall j | 0 <= j < |offs| && j != i ensures TextAt(now, offs[j], fs[j]) && offs[j] + |fs[j]| < end {
      assert TextAt(was, offs[j], fs[j]);
      TextKept(was, now, offs[j], fs[j]);
    }
  }

  /** The characters before the first NUL. */
  ghost function UpToNul(s: string): (t: string)
    ensures NulFree(t) && |t| <= |s| && t == s[..|t|] && (|t| < |s| ==> s[|t|] == NUL)
  {
    if s == [] || s[0] == NUL then [] else [s[0]] + UpToNul(s[1..])
  }

  /** The buffer of _ty_read_failure_from_pipe, given what it reads from the pipe, and where its fields are in it. */
  method ReadFailure(bytes: string) returns (ok: bool, buf: array<char>, fields: seq<nat>)
    requires |bytes| < BUFFER_SIZE
    ensures ok <==> ReadBack(UpToNul(bytes)).Report?
    ensures ok ==> Laid(buf[..], fields, ReadBack(UpToNul(bytes)).fields, buf.Length)
  {
    buf := new char[BUFFER_SIZE];
    fields := [];
    ghost var text := UpToNul(bytes);
    if |bytes| == 0 {
      assert FieldEnd(text) == 0 && |Fields(text, 6)| == 1;
      return false, buf, fields;
    }
    forall i | 0 <= i < |bytes| { buf[i] := bytes[i]; }
    buf[|bytes|] := NUL;
    assert TextAt(buf[..], 0, text);
    fields := SplitFields(buf, 6, text);
    if |fields| < 2 {
      return false, buf, fields;
    }
    UnescapeTexts(buf, fields, Fields(text, 6));
    return true, buf, fields;
  }

  method UnescapeTexts(buf: array<char>, fields: seq<nat>, ghost fs: seq<string>)
    requires Laid(buf[..], fields, fs, buf.Length) && |fields| >= 2
    modifies buf
    ensures Laid(buf[..], fields, UnescapedTexts(fs), buf.Length)
  {
    ghost var gs := fs;
    UnescapeField(buf, fields, 1, gs, buf.Length);
    gs := gs[1 := Unescaped(gs[1])];
    if |fields| > 2 {
      UnescapeField(buf, fields, 2, gs, buf.Length);
      gs := gs[2 := Unescaped(gs[2])];
    }
    if |fields| > 3 {
      UnescapeField(buf, fields, 3, gs, buf.Length);
      gs := gs[3 := Unescaped(gs[3])];
    }
    if |fields| > 4 {
      UnescapeField(buf, fields, 4, gs, buf.Length);
      gs := gs[4 := Unescaped(gs[4])];
    }
    assert gs == UnescapedTexts(fs);
  }

  lemma {:induction false} UpToNulWhole(s: string)
    requires NulFree(s)
    ensures UpToNul(s) == s
  {
    if s != [] { UpToNulWhole(s[1..]); }
  }

  lemma {:induction false} EscapedInNulFree(s: string, room: nat)
    requires NulFree(s)
    ensures NulFree(EscapedIn(s, room))
  {
    if s != [] && room > 0 {
      EscapedInNulFree(s[1..], if Special(s[0]) && room > 1 then room - 2 else room - 1);
    }
  }

  lemma {:induction false} RecordNulFree(texts: seq<string>, room: nat)
    requires forall i :: 0 <= i < |texts| ==> NulFree(texts[i])
    ensures NulFree(RecordIn(texts, room))
  {
    if texts != [] {
      var f := FieldIn(texts[0], room);
      EscapedInNulFree(texts[0], room);
      RecordNulFree(texts[1..], if |f| <= room then room - |f| else 0);
    }
  }

  /** What the runner reads of a failure is what the test wrote of it, exactly when the record fits. */
  lemma FailureArrives(kind: string, file: string, expression: string, expected: string, got: string, line: string)
    requires Plain(kind) && Plain(line) && line != []
    requires NulFree(kind) && NulFree(file) && NulFree(expression) && NulFree(expected) && NulFree(got) && NulFree(line)
    ensures var texts := [kind, file, expression, expected, got, line];
            var record := RecordIn(texts, BUFFER_SIZE - 1);
            |record| < 4096 && (ReadBack(UpToNul(record)) == Report(texts) <==> |Encoded(texts)| <= 4096)
  {
    var texts := [kind, file, expression, expected, got, line];
    RecordNulFree(texts, BUFFER_SIZE - 1);
    UpToNulWhole(RecordIn(texts, BUFFER_SIZE - 1));
    RecordIsCut(texts, BUFFER_SIZE - 1);
    RecordRecovered(kind, file, expression, expected, got, line);
  }

  /** There is one text at an offset. */
  lemma TextAtUnique(b: string, o: nat, s: string, t: string)
    requires TextAt(b, o, s) && TextAt(b, o, t)
    ensures s == t
  {
    if |t| < |s| { InsideText(b, o, s, |t|); }
    if |s| < |t| { InsideText(b, o, t, |s|); }
    assert forall k :: 0 <= k < |s| && k < |t| ==> s[k] == b[o + k] == t[k];
  }

  lemma InsideText(b: string, o: nat, s: string, k: nat)
    requires TextAt(b, o, s) && k < |s|
    ensures b[o + k] != NUL
  {
    assert b[o + k] == s[k];
  }

  lemma LaidUnique(b: string, offs: seq<nat>, fs: seq<string>, gs: seq<string>, end: nat)
    requires Laid(b, offs, fs, end) && Laid(b, offs, gs, end)
    ensures fs == gs
  {
    forall i | 0 <= i < |offs| ensures fs[i] == gs[i] {
      assert TextAt(b, offs[i], fs[i]) && TextAt(b, offs[i], gs[i]);
      TextAtUnique(b, offs[i], fs[i], gs[i]);
    }
  }

  /**
   A failure, written and read: the reader has the six texts in its buffer exactly when the record fits. Then the
   numbers it reads are the place of the kind in the enum and the line.
   */
  method WriteAndRead(kind: Kind, expression: CString, expected: CString, got: CString, file: CString, line: string)
    returns (ok: bool, buf: array<char>, fields: seq<nat>, kindRead: int, lineRead: int)
    requires ExpressionText(kind, expression).Text? && Plain(line) && line != [] && NulFree(line)
    requires NulFree(Chars(expression)) && NulFree(Chars(expected)) && NulFree(Chars(got)) && NulFree(Chars(file))
    ensures var text := ExpressionText(kind, expression).chars;
            var texts := [KindNumber(kind), Chars(file), text, Chars(expected), Chars(got), line];
            && ((ok && Laid(buf[..], fields, texts, buf.Length)) <==> |Encoded(texts)| <= 4096)
            && (|Encoded(texts)| <= 4096 ==>
                  && 0 <= kindRead < |KINDS| && KINDS[kindRead] == kind
                  && (AllDigits(line) ==> lineRead == DecVal(line)))
  {
    var record := WriteFailure(kind, expression, expected, got, file, line);
    ghost var text := ExpressionText(kind, expression).chars;
    TextsNulFree(kind, expression);
    FailureArrives(KindNumber(kind), Chars(file), text, Chars(expected), Chars(got), line);
    ok, buf, fields := ReadFailure(record);
    ghost var texts := [KindNumber(kind), Chars(file), text, Chars(expected), Chars(got), line];
    kindRead, lineRead := 0, 0;
    if ok {
      ghost var read := ReadBack(UpToNul(record)).fields;
      kindRead, lineRead := ReadNumbers(buf, fields, read);
      if Laid(buf[..], fields, texts, buf.Length) { LaidUnique(buf[..], fields, texts, read, buf.Length); }
      KindNumberIsPlace(kind);
      AtoiOfDigits(KindNumber(kind));
      if AllDigits(line) { AtoiOfDigits(line); }
    }
  }

  /** The two calls of atoi; the line stays 0 when its field is missing. */
  method ReadNumbers(buf: array<char>, fields: seq<nat>, ghost texts: seq<string>) returns (kind: int, line: int)
    requires |fields| > 0 && Laid(buf[..], fields, texts, buf.Length)
    ensures kind == AtoiVal(texts[0]) && line == if |texts| > 5 then AtoiVal(texts[5]) else 0
  {
    line := 0;
    assert TextAt(buf[..], fields[0], texts[0]);
    kind := Atoi(buf, fields[0], texts[0]);
    if |fields| > 5 {
      assert TextAt(buf[..], fields[5], texts[5]);
      line := Atoi(buf, fields[5], texts[5]);
    }
  }

  lemma TextsNulFree(kind: Kind, expression: CString)
    requires NulFree(Chars(expression)) && ExpressionText(kind, expression).Text?
    ensures Plain(KindNumber(kind)) && NulFree(KindNumber(kind)) && NulFree(ExpressionText(kind, expression).chars)
  {
    if kind.FailMemory? { FixedNulFree("Memory compare failed."); }
    if kind.FailTimeout? { FixedNulFree("Timeout exceeded"); }
  }

  lemma FixedNulFree(s: string)
    requires s == "Memory compare failed." || s == "Timeout exceeded"
    ensures NulFree(s)
  {}
}
