/**
 The failure record that a test process of src/ty_test.c sends to the runner: six texts in one buffer,
 separated by bars, with backslashes before the bars and backslashes inside them.
 */
module FailureRecord {

  const NUL: char := '\0'
  const BUFFER_SIZE: nat := 4096

  /** A char*: NULL, or the characters before the terminator. */
  datatype CString = Null | Text(chars: string)

  function Chars(s: CString): string {
    if s.Null? then "" else s.chars
  }

  ghost predicate NulFree(s: string) {
    forall i :: 0 <= i < |s| ==> s[i] != NUL
  }

  predicate Special(c: char) {
    c == '\\' || c == '|'
  }

  /** Without backslashes and bars, as numbers are. */
  ghost predicate Plain(s: string) {
    forall i :: 0 <= i < |s| ==> s[i] != '\\' && s[i] != '|'
  }

  /* ---- Texts ---- */

  function Escaped(s: string): string {
    if s == [] then [] else (if Special(s[0]) then ['\\', s[0]] else [s[0]]) + Escaped(s[1..])
  }

  function Unescaped(s: string): string {
    if s == [] then []
    else if s[0] == '\\' && |s| > 1 && Special(s[1]) then [s[1]] + Unescaped(s[2..])
    else [s[0]] + Unescaped(s[1..])
  }

  /** What the escaping append writes into `room` characters. */
  function EscapedIn(s: string, room: nat): string {
    if s == [] || room == 0 then []
    else if Special(s[0]) && room > 1 then ['\\', s[0]] + EscapedIn(s[1..], room - 2)
    else [s[0]] + EscapedIn(s[1..], room - 1)
  }

  function LiteralIn(s: string, room: nat): string {
    if |s| <= room then s else s[..room]
  }

  lemma {:induction false} UnescapeEscaped(s: string)
    ensures Unescaped(Escaped(s)) == s
  {
    if s != [] {
      var e := Escaped(s);
      UnescapeEscaped(s[1..]);
      if Special(s[0]) {
        assert e[2..] == Escaped(s[1..]);
      } else {
        assert e[1..] == Escaped(s[1..]);
      }
    }
  }

  /** Only a backslash before a backslash or a bar is taken away: without one, a text stays as it is. */
  lemma {:induction false} UnescapedSame(s: string)
    ensures |Unescaped(s)| <= |s|
    ensures Unescaped(s) == s <==> forall i :: 0 <= i < |s| - 1 ==>
        !(s[i] == '\\' && (s[i + 1] == '\\' || s[i + 1] == '|'))
  {
    if s != [] {
      if s[0] == '\\' && |s| > 1 && Special(s[1]) {
        UnescapedSame(s[2..]);
      } else {
        UnescapedSame(s[1..]);
        assert forall i :: 0 <= i < |s| - 1 ==> s[i + 1] == s[1..][i];
      }
    }
  }

  /** A report needs a bar that is no part of an escape. */
  lemma ReportNeedsBar(s: string)
    ensures ReadBack(s).Report? <==> FieldEnd(s) < |s|
  {
    TwoFields(s, 6);
  }

  lemma TwoFields(s: string, max: nat)
    requires max >= 2
    ensures |Fields(s, max)| >= 2 <==> FieldEnd(s) < |s|
  {
    var e := FieldEnd(s);
    if e < |s| { assert |Fields(s[e + 1..], max - 1)| >= 1; }
  }

  lemma {:induction false} EscapedPlain(s: string)
    requires Plain(s)
    ensures Escaped(s) == s
  {
    if s != [] {
      EscapedPlain(s[1..]);
    }
  }

  /** `cut` is `whole` as far as it goes, but for a last character that may have lost its escape. */
  ghost predicate CutAt(cut: string, whole: string, room: nat) {
    if |whole| <= room then cut == whole
    else cut == whole[..room] || (room > 0 && cut == whole[..room - 1] + "|")
  }

  lemma {:induction false} EscapedInIsCut(s: string, room: nat)
    ensures CutAt(EscapedIn(s, room), Escaped(s), room)
  {
    if s != [] && room > 0 {
      var head := if Special(s[0]) then ['\\', s[0]] else [s[0]];
      if |head| <= room {
        EscapedInIsCut(s[1..], room - |head|);
        CutBehind(head, EscapedIn(s[1..], room - |head|), Escaped(s[1..]), room);
      }
    }
  }

  lemma CutBehind(head: string, cut: string, whole: string, room: nat)
    requires |head| <= room && CutAt(cut, whole, room - |head|)
    ensures CutAt(head + cut, head + whole, room)
  {
    if |whole| > room - |head| {
      assert (head + whole)[..room] == head + whole[..room - |head|];
      if room > |head| {
        assert (head + whole)[..room - 1] == head + whole[..room - |head| - 1];
        assert head + (whole[..room - |head| - 1] + "|") == (head + whole[..room - |head| - 1]) + "|";
      }
    }
  }

  lemma {:induction false} PlainIn(s: string, room: nat)
    requires Plain(s)
    ensures EscapedIn(s, room) == LiteralIn(s, room)
  {
    if s != [] && room > 0 {
      PlainIn(s[1..], room - 1);
      if |s| > room {
        assert s[..room] == [s[0]] + s[1..][..room - 1];
      }
    }
  }

  /* ---- Records ---- */

  /** A text and its bar, written into `room` characters. */
  function FieldIn(s: string, room: nat): string {
    var e := EscapedIn(s, room);
    if |e| < room then e + "|" else e
  }

  /** All texts, each with its bar, written into `room` characters. */
  function RecordIn(texts: seq<string>, room: nat): string {
    if texts == [] then []
    else
      var f := FieldIn(texts[0], room);
      f + RecordIn(texts[1..], if |f| <= room then room - |f| else 0)
  }

  /** All texts, each with its bar. */
  function Encoded(texts: seq<string>): string {
    if texts == [] then [] else Escaped(texts[0]) + "|" + Encoded(texts[1..])
  }

  lemma FieldInIsCut(s: string, room: nat)
    ensures CutAt(FieldIn(s, room), Escaped(s) + "|", room)
  {
    EscapedInIsCut(s, room);
    var e := Escaped(s);
    if |e| >= room {
      assert (e + "|")[..room] == e[..room];
      if room > 0 { assert (e + "|")[..room - 1] == e[..room - 1]; }
    }
  }

  /** A record that fits is the encoding; a longer one is cut where the room ends. */
  lemma {:induction false} RecordIsCut(texts: seq<string>, room: nat)
    ensures CutAt(RecordIn(texts, room), Encoded(texts), room)
  {
    if texts != [] {
      var head, f, rest := Escaped(texts[0]) + "|", FieldIn(texts[0], room), Encoded(texts[1..]);
      FieldInIsCut(texts[0], room);
      RecordIsCut(texts[1..], room - |f|);
      if |head| <= room {
        CutBehind(head, RecordIn(texts[1..], room - |f|), rest, room);
      } else {
        assert RecordIn(texts[1..], 0) == [];
        assert (head + rest)[..room] == head[..room];
        if room > 0 { assert (head + rest)[..room - 1] == head[..room - 1]; }
      }
    }
  }

  /* ---- Reading ---- */

  /** Where the first bar without a backslash is, or the end. */
  function FieldEnd(s: string): (e: nat)
    ensures e <= |s|
  {
    if s == [] then 0
    else if s[0] == '\\' && |s| > 1 then 2 + FieldEnd(s[2..])
    else if s[0] == '|' then 0
    else 1 + FieldEnd(s[1..])
  }

  function Fields(s: string, max: nat): seq<string> {
    if max == 0 then []
    else
      var e := FieldEnd(s);
      [s[..e]] + if e == |s| then [] else Fields(s[e + 1..], max - 1)
  }

  datatype Report = NoReport | Report(fields: seq<string>)

  /** The fields as the reader leaves them: 1 to 4 are texts, 0 and 5 numbers. */
  function ReadBack(s: string): Report {
    var f := Fields(s, 6);
    if |f| < 2 then NoReport else Report(UnescapedTexts(f))
  }

  function UnescapedTexts(f: seq<string>): (t: seq<string>)
    ensures |t| == |f|
  {
    seq(|f|, i requires 0 <= i < |f| => if 1 <= i <= 4 then Unescaped(f[i]) else f[i])
  }

  lemma {:induction false} FieldEndEscaped(s: string, tail: string)
    requires tail != [] ==> tail[0] == '|'
    ensures FieldEnd(Escaped(s) + tail) == |Escaped(s)|
  {
    if s == [] {
      assert Escaped(s) + tail == tail;
    } else {
      FieldEndEscaped(s[1..], tail);
      var more := Escaped(s[1..]) + tail;
      if Special(s[0]) {
        assert Escaped(s) + tail == ['\\', s[0]] + more;
        assert (['\\', s[0]] + more)[2..] == more;
      } else {
        assert Escaped(s) + tail == [s[0]] + more;
        assert ([s[0]] + more)[1..] == more;
      }
    }
  }

  lemma Regroup<T>(x: seq<T>, y: seq<T>, z: seq<T>)
    ensures (x + y) + z == x + (y + z)
  {}

  /** The first field of an escaped text, a bar, and the rest. */
  lemma FieldsSplit(t: string, more: string, n: nat)
    requires n > 0
    ensures Fields((Escaped(t) + "|") + more, n) == [Escaped(t)] + Fields(more, n - 1)
  {
    var e := Escaped(t);
    FieldEndEscaped(t, "|" + more);
    Regroup(e, "|", more);
    FieldsAt((e + "|") + more, e, more, n);
  }

  lemma FieldsAt(r: string, e: string, more: string, n: nat)
    requires n > 0 && r == (e + "|") + more && FieldEnd(r) == |e|
    ensures Fields(r, n) == [e] + Fields(more, n - 1)
  {
    assert r[..|e|] == e && r[|e| + 1..] == more;
  }

  lemma RecordFirst(texts: seq<string>, room: nat)
    requires texts != [] && |Escaped(texts[0])| < room
    ensures RecordIn(texts, room) == (Escaped(texts[0]) + "|") + RecordIn(texts[1..], room - |Escaped(texts[0])| - 1)
  {
    EscapedInIsCut(texts[0], room);
  }

  lemma RecordStops(texts: seq<string>, room: nat)
    requires texts != [] && |Escaped(texts[0])| >= room
    ensures RecordIn(texts, room) == EscapedIn(texts[0], room) && |EscapedIn(texts[0], room)| == room
  {
    EscapedInIsCut(texts[0], room);
    NoRoom(texts[1..]);
  }

  /** In a text that is cut, only the last character can be a bar without a backslash. */
  lemma {:induction false} FieldEndCut(s: string, room: nat)
    requires room < |Escaped(s)|
    ensures |EscapedIn(s, room)| == room <= FieldEnd(EscapedIn(s, room)) + 1
  {
    if room > 0 {
      var e := EscapedIn(s, room);
      if Special(s[0]) && room > 1 {
        FieldEndCut(s[1..], room - 2);
        assert e[2..] == EscapedIn(s[1..], room - 2);
      } else if Special(s[0]) {
        assert EscapedIn(s[1..], 0) == [];
      } else {
        FieldEndCut(s[1..], room - 1);
        assert e[1..] == EscapedIn(s[1..], room - 1);
      }
    }
  }

  /** f are the escaped texts. */
  ghost predicate Come(f: seq<string>, texts: seq<string>) {
    |f| == |texts| && forall i :: 0 <= i < |f| ==> f[i] == Escaped(texts[i])
  }

  /** The length of the encoding. */
  function EncodedSize(texts: seq<string>): nat {
    if texts == [] then 0 else |Escaped(texts[0])| + 1 + EncodedSize(texts[1..])
  }

  lemma {:induction false} SizeOfEncoded(texts: seq<string>)
    ensures EncodedSize(texts) == |Encoded(texts)|
  {
    if texts != [] { SizeOfEncoded(texts[1..]); }
  }

  lemma {:induction false} FieldsOfEncoded(texts: seq<string>, room: nat, r: string)
    requires texts != [] && EncodedSize(texts) <= room + 1 && r == RecordIn(texts, room)
    ensures Come(Fields(r, |texts|), texts)
  {
    var e, rest := |Escaped(texts[0])|, texts[1..];
    if rest == [] {
      OneField(texts, room);
    } else {
      var more := RecordIn(rest, room - e - 1);
      RecordFirst(texts, room);
      FieldsOfEncoded(rest, room - e - 1, more);
      ComeBehind(texts, more);
    }
  }

  lemma ComeBehind(texts: seq<string>, more: string)
    requires texts != [] && Come(Fields(more, |texts| - 1), texts[1..])
    ensures Come(Fields((Escaped(texts[0]) + "|") + more, |texts|), texts)
  {
    FieldsSplit(texts[0], more, |texts|);
  }

  lemma OneField(texts: seq<string>, room: nat)
    requires |texts| == 1 && |Escaped(texts[0])| <= room
    ensures Fields(RecordIn(texts, room), 1) == [Escaped(texts[0])]
  {
    var e := Escaped(texts[0]);
    if |e| < room {
      RecordFirst(texts, room);
      FieldsSplit(texts[0], RecordIn(texts[1..], room - |e| - 1), 1);
    } else {
      RecordStops(texts, room);
      EscapedInIsCut(texts[0], room);
      LastOfCut(texts[0], room, 1);
    }
  }

  /** n fields did not come back, or the last one has less than k characters. */
  ghost predicate Lost(f: seq<string>, n: nat, k: nat) {
    |f| < n || (|f| == n > 0 && |f[n - 1]| < k)
  }

  /** Once more than the last bar is cut off, the last field does not come back. */
  lemma {:induction false} LastFieldLost(texts: seq<string>, room: nat, k: nat, r: string)
    requires texts != [] && |Escaped(texts[|texts| - 1])| == k > 0
    requires EncodedSize(texts) > room + 1 && r == RecordIn(texts, room)
    ensures Lost(Fields(r, |texts|), |texts|, k)
  {
    var e, rest := |Escaped(texts[0])|, texts[1..];
    if e >= room {
      RecordStops(texts, room);
      LastOfCut(texts[0], room, |texts|);
    } else if rest != [] {
      assert rest[|rest| - 1] == texts[|texts| - 1];
      var more := RecordIn(rest, room - e - 1);
      RecordFirst(texts, room);
      LastFieldLost(rest, room - e - 1, k, more);
      LostBehind(texts[0], more, |texts|, k);
    }
  }

  lemma LostBehind(t: string, more: string, n: nat, k: nat)
    requires n > 1 && Lost(Fields(more, n - 1), n - 1, k)
    ensures Lost(Fields((Escaped(t) + "|") + more, n), n, k)
  {
    FieldsSplit(t, more, n);
  }

  lemma NoRoom(texts: seq<string>)
    ensures RecordIn(texts, 0) == []
  {
    RecordIsCut(texts, 0);
  }

  lemma LastOfCut(t: string, room: nat, n: nat)
    requires room <= |Escaped(t)| && n > 0
    ensures var r := EscapedIn(t, room);
            Fields(r, n) == [r] || (0 < room == |r| < |Escaped(t)| &&
                Fields(r, n) == [r[..room - 1]] + (if n > 1 then [""] else []))
  {
    var r := EscapedIn(t, room);
    EscapedInIsCut(t, room);
    if room < |Escaped(t)| {
      FieldEndCut(t, room);
    } else {
      FieldEndEscaped(t, "");
      assert Escaped(t) + "" == r;
    }
    if FieldEnd(r) < |r| {
      assert r[room..] == "";
    } else {
      assert r[..|r|] == r;
    }
  }

  /** The texts come back exactly when the record fits, not counting the bar at its end. */
  lemma RecordRecovered(kind: string, file: string, expression: string, expected: string, got: string, line: string)
    requires Plain(kind) && Plain(line) && line != []
    ensures var texts := [kind, file, expression, expected, got, line];
            ReadBack(RecordIn(texts, BUFFER_SIZE - 1)) == Report(texts) <==> |Encoded(texts)| <= 4096
  {
    var texts := [kind, file, expression, expected, got, line];
    var r := RecordIn(texts, BUFFER_SIZE - 1);
    EscapedPlain(line);
    assert |texts| == 6;
    SizeOfEncoded(texts);
    if |Encoded(texts)| <= BUFFER_SIZE {
      FieldsOfEncoded(texts, BUFFER_SIZE - 1, r);
      EscapedPlain(kind);
      forall i: nat | i < 6 ensures Unescaped(Escaped(texts[i])) == texts[i] { UnescapeEscaped(texts[i]); }
      assert UnescapedTexts(Fields(r, 6)) == texts;
    } else {
      LastFieldLost(texts, BUFFER_SIZE - 1, |line|, r);
    }
  }
}
