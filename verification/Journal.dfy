/** code/lib/tut_restartable.h: test results written to a journal and read back. */
module Journals {
  import opened Words
  import opened Wrappers

  const NEWLINE: byte := 10
  const SPACE: byte := 32
  const MINUS: byte := 45
  const ZERO: byte := 48
  const BACKSLASH: byte := 92
  const LETTER_A: byte := 97

  predicate Alphanumeric(c: byte) {
    97 <= c <= 122 || 65 <= c <= 90 || 48 <= c <= 57
  }

  /** The upper half of a character; a negative `char` is sign-extended before the shift. */
  function HighPart(c: byte): byte {
    if c < 0x80 then c / 16 else 0xf0 + c / 16
  }

  function EscapeByte(c: byte): text {
    if Alphanumeric(c) then [c] else [BACKSLASH, (LETTER_A + HighPart(c)) % 0x100, LETTER_A + c % 16]
  }

  function Escaped(s: text): text {
    if s == [] then [] else Escaped(s[..|s| - 1]) + EscapeByte(s[|s| - 1])
  }

  function UnescapePair(c1: byte, c2: byte): byte {
    ((c1 - LETTER_A) * 16 + (c2 - LETTER_A)) % 0x100
  }

  /** `None` is the exception for a text that ends inside an escape. */
  function Unescaped(s: text): Option<text> {
    if s == [] then Some([])
    else if s[0] != BACKSLASH then Prepended(s[0], Unescaped(s[1..]))
    else if |s| < 3 then None
    else Prepended(UnescapePair(s[1], s[2]), Unescaped(s[3..]))
  }

  function Prepended(c: byte, o: Option<text>): Option<text> {
    if o.Some? then Some([c] + o.value) else None
  }

  function Onto(out: text, o: Option<text>): Option<text> {
    if o.Some? then Some(out + o.value) else None
  }

  lemma OntoNothing(out: text, o: Option<text>)
    ensures Onto([], o) == o && Onto(out, Some([])) == Some(out)
  {
    if o.Some? { assert [] + o.value == o.value; }
    assert out + [] == out;
  }

  lemma OntoPrepended(out: text, c: byte, o: Option<text>)
    ensures Onto(out, Prepended(c, o)) == Onto(out + [c], o)
  {
    if o.Some? { assert out + ([c] + o.value) == out + [c] + o.value; }
  }

  method Escape(orig: text) returns (rc: text)
    ensures rc == Escaped(orig)
  {
    rc := [];
    var i := 0;
    while i != |orig|
      invariant 0 <= i <= |orig| && rc == Escaped(orig[..i])
      decreases |orig| - i
    {
      var c := orig[i];
      if Alphanumeric(c) {
        rc := rc + [c];
      } else {
        rc := rc + [BACKSLASH];
        rc := rc + [(LETTER_A + HighPart(c)) % 0x100];
        rc := rc + [LETTER_A + c % 16];
      }
      assert orig[..i + 1][..i] == orig[..i];
      i := i + 1;
    }
    assert orig[..i] == orig;
  }

  method Unescape(orig: text) returns (rc: Option<text>)
    ensures rc == Unescaped(orig)
  {
    hide Prepended;
    var out: text := [];
    var i := 0;
    assert orig[0..] == orig;
    OntoNothing([], Unescaped(orig));
    while i != |orig|
      invariant 0 <= i <= |orig|
      invariant Unescaped(orig) == Onto(out, Unescaped(orig[i..]))
      decreases |orig| - i
    {
      UnescapeStep(orig, i);
      if orig[i] != BACKSLASH {
        OntoPrepended(out, orig[i], Unescaped(orig[i + 1..]));
        out := out + [orig[i]];
      } else {
        i := i + 1;
        if i == |orig| {
          return None;
        }
        var c1 := orig[i];
        i := i + 1;
        if i == |orig| {
          return None;
        }
        var c2 := orig[i];
        OntoPrepended(out, UnescapePair(c1, c2), Unescaped(orig[i + 1..]));
        out := out + [UnescapePair(c1, c2)];
      }
      i := i + 1;
    }
    OntoNothing(out, None);
    return Some(out);
  }

  lemma UnescapeStep(s: text, i: nat)
    requires i < |s|
    ensures Unescaped(s[i..]) ==
            if s[i] != BACKSLASH then Prepended(s[i], Unescaped(s[i + 1..]))
            else if i + 2 >= |s| then None
            else Prepended(UnescapePair(s[i + 1], s[i + 2]), Unescaped(s[i + 3..]))
  {
    assert s[i..][1..] == s[i + 1..];
    if i + 2 < |s| {
      assert s[i..][3..] == s[i + 3..];
    }
  }

  lemma {:induction false} EscapedFront(c: byte, s: text)
    ensures Escaped([c] + s) == EscapeByte(c) + Escaped(s)
  {
    if s == [] {
      assert [c] + s == [c];
      assert Escaped([c]) == Escaped([]) + EscapeByte(c);
    } else {
      var n := |s| - 1;
      assert ([c] + s)[..n + 1] == [c] + s[..n];
      EscapedFront(c, s[..n]);
    }
  }

  lemma UnescapeFront(c: byte, e: text)
    ensures Unescaped(EscapeByte(c) + e) == Prepended(c, Unescaped(e))
  {
    hide Prepended;
    var all := EscapeByte(c) + e;
    if Alphanumeric(c) {
      assert all[1..] == e;
    } else {
      assert all[3..] == e;
      PairRestored(c);
    }
  }

  lemma PairRestored(c: byte)
    ensures UnescapePair((LETTER_A + HighPart(c)) % 0x100, LETTER_A + c % 16) == c
  {
    var h, l := c / 16, c % 16;
    assert c == 16 * h + l;
    if c < 0x80 {
      assert (LETTER_A + HighPart(c)) % 0x100 == LETTER_A + h;
    } else {
      assert (LETTER_A + HighPart(c)) % 0x100 == LETTER_A + h - 16;
    }
  }

  /** `unescape(escape(s))` is `s`, for every string of bytes. */
  lemma {:induction false} UnescapeEscape(s: text)
    ensures Unescaped(Escaped(s)) == Some(s)
  {
    if s != [] {
      var c, rest := s[0], s[1..];
      assert s == [c] + rest;
      EscapedFront(c, rest);
      UnescapeEscape(rest);
      UnescapeFront(c, Escaped(rest));
    }
  }

  /** Escaped text never holds a line break. */
  lemma {:induction false} NoNewline(s: text)
    ensures NEWLINE !in Escaped(s)
  {
    if s != [] {
      NoNewline(s[..|s| - 1]);
    }
  }

  /**
   * Letters and digits stand for themselves; any other character becomes a backslash and two more, `a` plus its upper and
   * `a` plus its lower half, where the upper half of a negative `char` is negative.
   */
  lemma EscapeOf(c: byte)
    ensures 97 <= c <= 122 || 65 <= c <= 90 || 48 <= c <= 57 ==> Escaped([c]) == [c]
    ensures !(97 <= c <= 122 || 65 <= c <= 90 || 48 <= c <= 57) ==>
              |Escaped([c])| == 3 && Escaped([c])[0] == 92 && Escaped([c])[2] == 97 + c % 16 &&
              Escaped([c])[1] == 97 + c / 16 - if c < 0x80 then 0 else 16
  {
    assert Escaped([c]) == Escaped([]) + EscapeByte(c);
  }

  /** Escaping goes character by character. */
  lemma {:induction false} EscapeSplits(s: text, t: text)
    ensures Escaped(s + t) == Escaped(s) + Escaped(t)
  {
    if t == [] {
      assert s + t == s;
    } else {
      var n := |t| - 1;
      assert (s + t)[..|s| + n] == s + t[..n];
      EscapeSplits(s, t[..n]);
    }
  }

  lemma {:induction false} PlainStays(plain: text, rest: text)
    requires BACKSLASH !in plain
    ensures Unescaped(plain + rest) == Onto(plain, Unescaped(rest))
  {
    if plain == [] {
      assert plain + rest == rest;
      OntoNothing([], Unescaped(rest));
    } else {
      var last := |plain| - 1;
      assert plain + rest == plain[..last] + ([plain[last]] + rest) && plain == plain[..last] + [plain[last]];
      PlainStays(plain[..last], [plain[last]] + rest);
      assert plain[last] in plain && ([plain[last]] + rest)[1..] == rest;
      OntoPrepended(plain[..last], plain[last], Unescaped(rest));
    }
  }

  /** Any text: plain characters stay, and a backslash takes the next two characters with it, whatever they are. */
  lemma UnescapeIs(plain: text, rest: text)
    requires BACKSLASH !in plain
    ensures rest == [] ==> Unescaped(plain + rest) == Some(plain)
    ensures rest != [] && rest[0] == BACKSLASH && |rest| < 3 ==> Unescaped(plain + rest) == None
    ensures rest != [] && rest[0] == BACKSLASH && |rest| >= 3 ==>
              (Unescaped(plain + rest).None? <==> Unescaped(rest[3..]).None?) &&
              (Unescaped(rest[3..]).Some? ==>
                 var c: byte := (16 * (rest[1] as int - 97) + (rest[2] as int - 97)) % 0x100;
                 Unescaped(plain + rest) == Some(plain + ([c] + Unescaped(rest[3..]).value)))
  {
    PlainStays(plain, rest);
    OntoNothing(plain, Some([]));
  }

  // The stream of results.

  datatype Kind = Ok | Fail | Ex | Warn | Term

  datatype TestResult = TestResult(group: text, test: int, result: Kind, message: text)

  function Code(k: Kind): nat {
    match k
    case Ok => 0
    case Fail => 1
    case Ex => 2
    case Warn => 3
    case Term => 4
  }

  function Digits(n: nat): text {
    if n < 10 then [ZERO + n] else Digits(n / 10) + [ZERO + n % 10]
  }

  function Decimal(n: int): text {
    if n < 0 then [MINUS] + Digits(-n) else Digits(n)
  }

  function Serialized(r: TestResult): text {
    Escaped(r.group) + [NEWLINE] + Decimal(r.test) + [SPACE] + [ZERO + Code(r.result)] + [SPACE] + Escaped(r.message) + [NEWLINE]
  }

  /** The record of failed test 12 of group `a`, with a blank for its message: `a`, then `12 1 \ca`. */
  lemma RecordExample()
    ensures Serialized(TestResult([97], 12, Fail, [32])) == [97, 10, 49, 50, 32, 49, 32, 92, 99, 97, 10]
  {
    EscapeOf(97);
    EscapeOf(32);
    assert Escaped([32]) == [92, 99, 97];
    assert Digits(12) == Digits(1) + [50];
  }

  /** A line, whether its end was found, and what follows it. */
  datatype Line = Line(line: text, ended: bool, rest: text)

  function GetLine(s: text): Line {
    if s == [] then Line([], false, [])
    else if s[0] == NEWLINE then Line([], true, s[1..])
    else var l := GetLine(s[1..]); l.(line := [s[0]] + l.line)
  }

  predicate IsSpace(c: byte) {
    c == SPACE || 9 <= c <= 13
  }

  predicate IsDigit(c: byte) {
    ZERO <= c < ZERO + 10
  }

  function SkipSpace(s: text): text {
    if s != [] && IsSpace(s[0]) then SkipSpace(s[1..]) else s
  }

  /** Reads digits behind the value `acc`; returns the number and the rest. */
  function TakeDigits(s: text, acc: nat): (nat, text) {
    if s != [] && IsDigit(s[0]) then TakeDigits(s[1..], 10 * acc + (s[0] - ZERO)) else (acc, s)
  }

  /** `is >> n` for an `int`: `None` if there is no number, or one that does not fit. */
  function ReadInt(s: text): Option<(int, text)> {
    var t := SkipSpace(s);
    var negative := t != [] && t[0] == MINUS;
    var u := if negative || (t != [] && t[0] == 43) then t[1..] else t;
    if u == [] || !IsDigit(u[0]) then None
    else
      var (n, rest) := TakeDigits(u, 0);
      var m: int := n;
      if negative then (if n <= 0x8000_0000 then Some((-m, rest)) else None)
      else (if n < 0x8000_0000 then Some((n, rest)) else None)
  }

  datatype Outcome = NoMoreTests | Malformed | Parsed(result: TestResult, rest: text)

  function KindOf(n: int): Option<Kind> {
    if n == 0 then Some(Ok) else if n == 1 then Some(Fail) else if n == 2 then Some(Ex)
    else if n == 3 then Some(Warn) else if n == 4 then Some(Term) else None
  }

  /** One record off the front of the stream. */
  function Deserialized(s: text): Outcome {
    var first := GetLine(s);
    if !first.ended then NoMoreTests
    else
      var group := Unescaped(first.line);
      var test := ReadInt(first.rest);
      if group.None? || test.None? || test.value.0 < 0 then Malformed
      else
        var code := ReadInt(test.value.1);
        if code.None? || KindOf(code.value.0).None? then Malformed
        else
          var after := code.value.1;
          var second := GetLine(if after == [] then [] else after[1..]);
          var message := Unescaped(second.line);
          if message.None? || !second.ended then Malformed
          else Parsed(TestResult(group.value, test.value.0, KindOf(code.value.0).value, message.value), second.rest)
  }

  lemma {:induction false} GetLineOf(line: text, rest: text)
    requires NEWLINE !in line
    ensures GetLine(line + [NEWLINE] + rest) == Line(line, true, rest)
  {
    var s := line + [NEWLINE] + rest;
    if line == [] {
      assert s[1..] == rest;
    } else {
      assert s[1..] == line[1..] + [NEWLINE] + rest;
      GetLineOf(line[1..], rest);
      assert line == [line[0]] + line[1..];
    }
  }

  function Value(ds: text, acc: nat): nat {
    if ds == [] || ds[0] < ZERO then acc else Value(ds[1..], 10 * acc + (ds[0] - ZERO))
  }

  lemma {:induction false} TakeAll(ds: text, acc: nat, rest: text)
    requires (forall d <- ds :: IsDigit(d)) && (rest == [] || !IsDigit(rest[0]))
    ensures TakeDigits(ds + rest, acc) == (Value(ds, acc), rest)
  {
    if ds == [] {
      assert ds + rest == rest;
    } else {
      assert ds[0] in ds && (ds + rest)[1..] == ds[1..] + rest;
      TakeAll(ds[1..], 10 * acc + (ds[0] - ZERO), rest);
    }
  }

  lemma {:induction false} ValueSnoc(ds: text, d: byte, acc: nat)
    requires IsDigit(d) && forall e <- ds :: IsDigit(e)
    ensures Value(ds + [d], acc) == 10 * Value(ds, acc) + (d - ZERO)
  {
    if ds == [] {
      assert ds + [d] == [d];
      assert Value([d], acc) == Value([], 10 * acc + (d - ZERO));
    } else {
      assert ds[0] in ds && (ds + [d])[1..] == ds[1..] + [d];
      ValueSnoc(ds[1..], d, 10 * acc + (ds[0] - ZERO));
    }
  }

  lemma {:induction false} DigitsValue(n: nat)
    ensures |Digits(n)| > 0 && (forall d <- Digits(n) :: IsDigit(d)) && Value(Digits(n), 0) == n
  {
    if n >= 10 {
      DigitsValue(n / 10);
      ValueSnoc(Digits(n / 10), ZERO + n % 10, 0);
    } else {
      assert Value([ZERO + n], 0) == Value([], n);
    }
  }

  /** Reading a number that was written, up to the character behind it. */
  lemma ReadDecimal(n: int, rest: text, lead: text)
    requires -0x8000_0000 <= n < 0x8000_0000 && (rest == [] || !IsDigit(rest[0])) && (lead == [] || lead == [SPACE])
    ensures ReadInt(lead + Decimal(n) + rest) == Some((n, rest))
  {
    hide Digits, Value, TakeDigits, SkipSpace, IsDigit;
    var ds := Digits(if n < 0 then -n else n);
    DigitsValue(if n < 0 then -n else n);
    assert ds[0] in ds;
    var t := Decimal(n) + rest;
    assert lead + Decimal(n) + rest == lead + t;
    DigitIsNoSign(ds[0]);
    SkipLead(lead, t);
    assert n < 0 ==> t[1..] == ds + rest;
    TakeAll(ds, 0, rest);
  }

  lemma DigitIsNoSign(d: byte)
    requires IsDigit(d)
    ensures d != MINUS && d != 43 && !IsSpace(d) && !IsSpace(MINUS)
  {
  }

  lemma SkipLead(lead: text, t: text)
    requires t != [] && !IsSpace(t[0]) && (lead == [] || lead == [SPACE])
    ensures SkipSpace(lead + t) == t
  {
    if lead == [] {
      assert lead + t == t;
    } else {
      assert (lead + t)[1..] == t;
    }
  }

  /** Reading back one written record gives it back, and leaves the rest of the stream. */
  lemma ReadBack(r: TestResult, rest: text)
    requires 0 <= r.test < 0x8000_0000
    ensures Deserialized(Serialized(r) + rest) == Parsed(r, rest)
  {
    hide Escaped, Unescaped, GetLine, ReadInt, Decimal;
    var m := Escaped(r.message) + [NEWLINE] + rest;
    var c := [SPACE] + m;
    var k := Decimal(Code(r.result)) + c;
    var t := Decimal(r.test) + ([SPACE] + k);
    NoNewline(r.group);
    NoNewline(r.message);
    UnescapeEscape(r.group);
    UnescapeEscape(r.message);
    OneDigit(Code(r.result));
    assert Serialized(r) + rest == Escaped(r.group) + [NEWLINE] + t;
    GetLineOf(Escaped(r.group), t);
    ReadDecimal(r.test, [SPACE] + k, []);
    assert [] + Decimal(r.test) + ([SPACE] + k) == t;
    ReadDecimal(Code(r.result), c, [SPACE]);
    assert [SPACE] + Decimal(Code(r.result)) + c == [SPACE] + k;
    assert c[1..] == m;
    GetLineOf(Escaped(r.message), rest);
  }

  lemma OneDigit(n: nat)
    requires n < 10
    ensures Decimal(n) == [ZERO + n]
  {
  }

  lemma NegativeRefused(r: TestResult, rest: text)
    requires -0x8000_0000 <= r.test < 0
    ensures Deserialized(Serialized(r) + rest) == Malformed
  {
    hide Escaped, Unescaped, GetLine, ReadInt, Decimal, KindOf;
    var t := [SPACE] + [ZERO + Code(r.result)] + [SPACE] + Escaped(r.message) + [NEWLINE] + rest;
    NoNewline(r.group);
    assert Serialized(r) + rest == Escaped(r.group) + [NEWLINE] + (Decimal(r.test) + t);
    GetLineOf(Escaped(r.group), Decimal(r.test) + t);
    ReadDecimal(r.test, t, []);
    assert [] + Decimal(r.test) + t == Decimal(r.test) + t;
  }

  /** A record is read back as it was written if its test number is not negative, and refused otherwise. */
  lemma ReadBackIff(r: TestResult, rest: text)
    requires -0x8000_0000 <= r.test < 0x8000_0000
    ensures Deserialized(Serialized(r) + rest) == if r.test >= 0 then Parsed(r, rest) else Malformed
  {
    hide Deserialized, Serialized;
    if r.test >= 0 {
      ReadBack(r, rest);
    } else {
      NegativeRefused(r, rest);
    }
  }

  function Journal(rs: seq<TestResult>): text {
    if rs == [] then [] else Serialized(rs[0]) + Journal(rs[1..])
  }

  lemma EndOfJournal()
    ensures Deserialized([]) == NoMoreTests
  {
  }

  /** The loop that shows the journal reads back exactly the results that were written, in order, and stops. */
  method ReadJournal(s: text, ghost written: seq<TestResult>) returns (rs: seq<TestResult>, ok: bool)
    requires s == Journal(written) && forall r <- written :: 0 <= r.test < 0x8000_0000
    ensures ok && rs == written
  {
    hide Deserialized, Serialized;
    rs, ok := [], true;
    var stream := s;
    assert written[0..] == written;
    while true
      invariant ok && |rs| <= |written| && rs == written[..|rs|] && stream == Journal(written[|rs|..])
      decreases |written| - |rs|
    {
      if |rs| < |written| {
        assert written[|rs|..][1..] == written[|rs| + 1..] && written[|rs|] in written;
        ReadBack(written[|rs|], Journal(written[|rs| + 1..]));
      } else {
        EndOfJournal();
      }
      match Deserialized(stream)
      case NoMoreTests => break;
      case Malformed =>
        ok := false;
        return;
      case Parsed(r, rest) =>
        rs := rs + [r];
        stream := rest;
    }
  }
}
