/** Incremental edits in the language server (lib/languageserver/lib.rs): positions count UTF-16 code
    units, the document is stored as characters. A line ends with a line feed. */
module Utf16 {
  import opened Wrappers

  type Unit = x: nat | x < 0x1_0000

  datatype Position = Position(line: nat, character: nat)

  datatype Change = Replace(start: Position, end: Position, text: string) | ReplaceAll(text: string)

  // Encoding

  function Code(c: char): nat { c as nat }

  /** One code unit, or a surrogate pair for a character beyond the basic plane. */
  function Units(c: char): (u: seq<Unit>)
    ensures |u| == 1 || |u| == 2
    ensures |u| == 1 ==> !IsLow(u[0]) && (IsBreak(u[0]) <==> c == '\n')
    ensures |u| == 2 ==> !IsLow(u[0]) && IsLow(u[1]) && !IsBreak(u[0]) && !IsBreak(u[1]) && c != '\n'
  {
    if Code(c) < 0x1_0000 then [Code(c)]
    else
      var v := Code(c) - 0x1_0000;
      [0xD800 + v / 0x400, 0xDC00 + v % 0x400]
  }

  /** The code point that some code units stand for: each half of a pair carries ten bits of what it exceeds
      the basic plane by. */
  function CodePoint(u: seq<Unit>): Option<int> {
    if |u| == 1 && !(0xD800 <= u[0] < 0xE000) then Some(u[0] as int)
    else if |u| == 2 && 0xD800 <= u[0] < 0xDC00 && 0xDC00 <= u[1] < 0xE000 then
      Some(0x1_0000 + 0x400 * (u[0] as int - 0xD800) + (u[1] as int - 0xDC00))
    else None
  }

  /** Encoding a character loses nothing. */
  lemma UnitsDecode(c: char)
    ensures CodePoint(Units(c)) == Some(Code(c))
    ensures |Units(c)| == if Code(c) <= 0xFFFF then 1 else 2
  {
  }

  predicate IsLow(u: Unit) { 0xDC00 <= u < 0xE000 }

  predicate IsBreak(u: Unit) { u == 10 }

  predicate IsNewline(c: char) { c == '\n' }

  function Encode(text: string): seq<Unit> {
    if text == "" then [] else Units(text[0]) + Encode(text[1..])
  }

  lemma {:induction false} EncodeConcat(a: string, b: string)
    ensures Encode(a + b) == Encode(a) + Encode(b)
  {
    hide Units;
    if a == "" {
      assert a + b == b;
    } else {
      var first := Units(a[0]);
      EncodeConcat(a[1..], b);
      assert (a + b)[0] == a[0] && (a + b)[1..] == a[1..] + b;
      assert Encode(a + b) == first + Encode(a[1..] + b) && Encode(a) == first + Encode(a[1..]);
      hide Encode;
      Associates(first, Encode(a[1..]), Encode(b));
    }
  }

  lemma Associates(a: seq<Unit>, b: seq<Unit>, c: seq<Unit>)
    ensures a + (b + c) == (a + b) + c
  {
  }

  /** The code unit offset of a character offset. */
  function UnitsBefore(text: string, k: nat): nat
    requires k <= |text|
  {
    |Encode(text[..k])|
  }

  lemma EncodeSplit(text: string, k: nat)
    requires k <= |text|
    ensures var u := UnitsBefore(text, k);
      u <= |Encode(text)| && Encode(text)[..u] == Encode(text[..k]) && Encode(text)[u..] == Encode(text[k..])
  {
    EncodeConcat(text[..k], text[k..]);
    assert text[..k] + text[k..] == text;
  }

  lemma EncodeOne(c: char)
    ensures Encode([c]) == Units(c)
  {
    assert [c][1..] == "" && Units(c) + [] == Units(c);
  }

  lemma UnitsStep(text: string, k: nat)
    requires k < |text|
    ensures UnitsBefore(text, k + 1) == UnitsBefore(text, k) + |Units(text[k])|
  {
    EncodeConcat(text[..k], [text[k]]);
    assert text[..k + 1] == text[..k] + [text[k]];
    EncodeOne(text[k]);
  }

  lemma {:induction false} UnitsGrow(text: string, j: nat, k: nat)
    requires j <= k <= |text|
    ensures UnitsBefore(text, j) + (k - j) <= UnitsBefore(text, k)
    decreases k - j
  {
    if j < k {
      UnitsGrow(text, j, k - 1);
      UnitsStep(text, k - 1);
    }
  }

  lemma UnitsZero(text: string)
    ensures UnitsBefore(text, 0) == 0
  {
    assert text[..0] == "";
  }

  /** Offsets after a prefix. */
  lemma UnitsAfter(text: string, start: nat, k: nat)
    requires start <= |text| && k <= |text| - start
    ensures UnitsBefore(text, start + k) == UnitsBefore(text, start) + UnitsBefore(text[start..], k)
  {
    EncodeConcat(text[..start], text[start..][..k]);
    assert text[..start + k] == text[..start] + text[start..][..k];
  }

  // Lines, over characters and over code units

  function LineLength<T>(s: seq<T>, isBreak: T -> bool): (n: nat)
    ensures n <= |s| && (forall i :: 0 <= i < n ==> !isBreak(s[i])) && (n < |s| ==> isBreak(s[n]))
  {
    if s == [] || isBreak(s[0]) then 0 else 1 + LineLength(s[1..], isBreak)
  }

  /** Where a line starts, if there is one. */
  function LineStart<T>(s: seq<T>, isBreak: T -> bool, line: nat): (r: Option<nat>)
    ensures r.Some? ==> r.value <= |s|
    decreases line
  {
    if line == 0 then Some(0)
    else
      var n := LineLength(s, isBreak);
      if n == |s| then None
      else
        match LineStart(s[n + 1..], isBreak, line - 1)
        case None => None
        case Some(k) => Some(n + 1 + k)
  }

  lemma {:induction false} LineLengthEncoded(text: string)
    ensures LineLength(Encode(text), IsBreak) == UnitsBefore(text, LineLength(text, IsNewline))
    ensures LineLength(text, IsNewline) < |text| ==>
      UnitsBefore(text, LineLength(text, IsNewline) + 1) == LineLength(Encode(text), IsBreak) + 1
  {
    var n := LineLength(text, IsNewline);
    if n < |text| {
      UnitsStep(text, n);
    }
    if text != "" {
      var u, rest := Units(text[0]), text[1..];
      EncodeOne(text[0]);
      if text[0] == '\n' {
        UnitsZero(text);
        assert Encode(text)[0] == u[0];
      } else {
        LineLengthEncoded(rest);
        LineLengthAfter(u, Encode(rest));
        UnitsAfter(text, 1, n - 1);
        assert text[..1] == [text[0]];
      }
    } else {
      UnitsZero(text);
    }
  }

  lemma {:induction false} LineLengthAfter(u: seq<Unit>, rest: seq<Unit>)
    requires forall i :: 0 <= i < |u| ==> !IsBreak(u[i])
    ensures LineLength(u + rest, IsBreak) == |u| + LineLength(rest, IsBreak)
  {
    if u == [] {
      assert u + rest == rest;
    } else {
      LineLengthAfter(u[1..], rest);
      assert (u + rest)[1..] == u[1..] + rest;
    }
  }

  lemma NextLineEncoded(text: string)
    ensures var n, u := LineLength(text, IsNewline), Encode(text);
      && (n == |text| <==> LineLength(u, IsBreak) == |u|)
      && (n < |text| ==>
            && LineLength(u, IsBreak) + 1 == UnitsBefore(text, n + 1)
            && u[UnitsBefore(text, n + 1)..] == Encode(text[n + 1..]))
  {
    var n := LineLength(text, IsNewline);
    LineLengthEncoded(text);
    hide Encode, LineLength;
    if n == |text| {
      assert text[..n] == text;
    } else {
      EncodeSplit(text, n + 1);
    }
  }

  lemma LineStartZero<T>(s: seq<T>, isBreak: T -> bool)
    ensures LineStart(s, isBreak, 0) == Some(0)
  {
  }

  lemma LineStartStep<T>(s: seq<T>, isBreak: T -> bool, line: nat)
    requires line > 0
    ensures var n := LineLength(s, isBreak);
      LineStart(s, isBreak, line) ==
        if n == |s| then None
        else
          match LineStart(s[n + 1..], isBreak, line - 1)
          case None => None
          case Some(k) => Some(n + 1 + k)
  {
  }

  /** Lines start at the same places in both. */
  lemma {:induction false} LineStartEncoded(text: string, line: nat)
    ensures LineStart(Encode(text), IsBreak, line).Some? <==> LineStart(text, IsNewline, line).Some?
    ensures var k := LineStart(text, IsNewline, line);
      k.Some? ==> LineStart(Encode(text), IsBreak, line) == Some(UnitsBefore(text, k.value))
    decreases line
  {
    hide Encode, LineLength, UnitsBefore, LineStart;
    if line == 0 {
      LineStartZero(text, IsNewline);
      LineStartZero(Encode(text), IsBreak);
      UnitsZero(text);
    } else {
      var n, u := LineLength(text, IsNewline), Encode(text);
      NextLineEncoded(text);
      LineStartStep(text, IsNewline, line);
      LineStartStep(u, IsBreak, line);
      if n < |text| {
        var rest := text[n + 1..];
        assert u[LineLength(u, IsBreak) + 1..] == Encode(rest);
        LineStartEncoded(rest, line - 1);
        var k := LineStart(rest, IsNewline, line - 1);
        if k.Some? {
          UnitsAfter(text, n + 1, k.value);
        }
      }
    }
  }

  // Positions in code units, as the protocol defines them

  /** The position is within its line and not inside a surrogate pair. */
  predicate ValidPosition(units: seq<Unit>, p: Position) {
    var start := LineStart(units, IsBreak, p.line);
    && start.Some?
    && p.character <= LineLength(units[start.value..], IsBreak)
    && (start.value + p.character < |units| ==> !IsLow(units[start.value + p.character]))
  }

  function UnitOffset(units: seq<Unit>, p: Position): (k: nat)
    requires ValidPosition(units, p)
    ensures k <= |units|
  {
    LineStart(units, IsBreak, p.line).value + p.character
  }

  predicate ValidChange(units: seq<Unit>, change: Change) {
    change.Replace? ==>
      && ValidPosition(units, change.start) && ValidPosition(units, change.end)
      && UnitOffset(units, change.start) <= UnitOffset(units, change.end)
  }

  /** What a change does to a document made of code units. */
  function ApplyUnits(units: seq<Unit>, change: Change): seq<Unit>
    requires ValidChange(units, change)
  {
    match change
    case ReplaceAll(text) => Encode(text)
    case Replace(start, end, text) =>
      units[..UnitOffset(units, start)] + Encode(text) + units[UnitOffset(units, end)..]
  }

  predicate ValidChanges(units: seq<Unit>, changes: seq<Change>)
    decreases |changes|
  {
    changes == [] || (ValidChange(units, changes[0]) && ValidChanges(ApplyUnits(units, changes[0]), changes[1..]))
  }

  function ApplyAllUnits(units: seq<Unit>, changes: seq<Change>): seq<Unit>
    requires ValidChanges(units, changes)
    decreases |changes|
  {
    if changes == [] then units else ApplyAllUnits(ApplyUnits(units, changes[0]), changes[1..])
  }

  // Positions in characters, as the server computes them

  /** Characters of `line` before code unit `character`; none if the position is found to be inside a
      pair. A position past the end is the end. */
  function CharsBefore(line: string, character: nat, units: nat): (r: Option<nat>)
    ensures r.Some? ==> r.value <= |line|
  {
    if line == "" || units == character then Some(0)
    else if units > character then None
    else
      match CharsBefore(line[1..], character, units + |Units(line[0])|)
      case None => None
      case Some(n) => Some(n + 1)
  }

  /** A line with its line feed. */
  function Line(text: string, start: nat): string
    requires start <= |text|
  {
    var n := LineLength(text[start..], IsNewline);
    if start + n < |text| then text[start..start + n + 1] else text[start..]
  }

  function CharOffset(text: string, p: Position): (r: Option<nat>)
    requires LineStart(text, IsNewline, p.line).Some?
    ensures r.Some? ==> r.value <= |text|
  {
    var start := LineStart(text, IsNewline, p.line).value;
    match CharsBefore(Line(text, start), p.character, 0)
    case None => None
    case Some(n) => Some(start + n)
  }

  /** The document, as the server's rope. */
  class Rope {
    var text: string

    constructor (text: string)
      ensures this.text == text
    {
      this.text := text;
    }

    method Remove(start: nat, end: nat)
      requires start <= end <= |text|
      modifies this
      ensures text == old(text)[..start] + old(text)[end..]
    {
      text := text[..start] + text[end..];
    }

    method Insert(at: nat, added: string)
      requires at <= |text|
      modifies this
      ensures text == old(text)[..at] + added + old(text)[at..]
    {
      text := text[..at] + added + text[at..];
    }
  }

  predicate SameOffset(all: Option<nat>, n: nat, rest: Option<nat>) {
    (all.Some? <==> rest.Some?) && (all.Some? ==> all.value == n + rest.value)
  }

  /** Walks the line, counting code units and characters. */
  method TranslateRopePosition(rope: Rope, position: Position) returns (r: Option<nat>)
    requires LineStart(rope.text, IsNewline, position.line).Some?
    ensures r == CharOffset(rope.text, position)
  {
    hide LineStart, Line, Units;
    var start := LineStart(rope.text, IsNewline, position.line).value;
    var line := Line(rope.text, start);
    assert line[0..] == line;
    var utf16Offset, charOffset := 0, 0;
    while charOffset < |line|
      invariant 0 <= charOffset <= |line| && utf16Offset >= 0
      invariant SameOffset(
        CharsBefore(line, position.character, 0), charOffset,
        CharsBefore(line[charOffset..], position.character, utf16Offset))
    {
      if utf16Offset == position.character {
        break;
      }
      if utf16Offset > position.character {
        return None;
      }
      assert line[charOffset..][1..] == line[charOffset + 1..];
      utf16Offset := utf16Offset + |Units(line[charOffset])|;
      charOffset := charOffset + 1;
    }
    return Some(start + charOffset);
  }

  /** A code unit offset within the line that is not inside a pair is found. */
  lemma {:induction false} CharsFound(line: string, j: nat, units: nat)
    requires j <= |line|
    ensures CharsBefore(line, units + UnitsBefore(line, j), units) == Some(j)
    decreases j
  {
    if j > 0 {
      var u := |Units(line[0])|;
      UnitsStep(line, 0);
      UnitsGrow(line, 1, j);
      assert line[..0] == "";
      assert line[..j] == [line[0]] + line[1..][..j - 1];
      EncodeConcat([line[0]], line[1..][..j - 1]);
      EncodeOne(line[0]);
      CharsFound(line[1..], j - 1, units + u);
    } else {
      assert line[..0] == "";
    }
  }

  /** Every offset that is not inside a pair is the offset of a character. */
  lemma {:induction false} BoundaryIsChar(text: string, k: nat) returns (j: nat)
    requires k <= |Encode(text)| && (k < |Encode(text)| ==> !IsLow(Encode(text)[k]))
    ensures j <= |text| && UnitsBefore(text, j) == k
  {
    if k == 0 {
      j := 0;
      assert text[..0] == "";
    } else {
      var u := |Units(text[0])|;
      assert k >= u;
      assert Encode(text)[u..] == Encode(text[1..]);
      var i := BoundaryIsChar(text[1..], k - u);
      j := i + 1;
      assert text[..j] == [text[0]] + text[1..][..i];
      EncodeConcat([text[0]], text[1..][..i]);
      EncodeOne(text[0]);
    }
  }

  /** A valid position is translated to the character at that code unit. */
  lemma PositionTranslates(text: string, p: Position)
    requires ValidPosition(Encode(text), p)
    ensures LineStart(text, IsNewline, p.line).Some? && CharOffset(text, p).Some?
    ensures UnitsBefore(text, CharOffset(text, p).value) == UnitOffset(Encode(text), p)
  {
    hide LineStart, Encode, UnitsBefore, LineLength;
    LineStartEncoded(text, p.line);
    var start := LineStart(text, IsNewline, p.line).value;
    EncodeSplit(text, start);
    var rest, u := text[start..], UnitsBefore(text, start);
    assert Encode(text)[u..] == Encode(rest);
    assert p.character < |Encode(rest)| ==> Encode(rest)[p.character] == Encode(text)[u + p.character];
    var j := CharInLine(text, start, p.character);
    UnitsAfter(text, start, j);
  }

  lemma CharInLine(text: string, start: nat, character: nat) returns (j: nat)
    requires start <= |text|
    requires var rest := Encode(text[start..]);
      character <= LineLength(rest, IsBreak) && (character < |rest| ==> !IsLow(rest[character]))
    ensures j <= |text| - start && UnitsBefore(text[start..], j) == character
    ensures CharsBefore(Line(text, start), character, 0) == Some(j)
  {
    var rest, line := text[start..], Line(text, start);
    var n := LineLength(rest, IsNewline);
    LineLengthEncoded(rest);
    j := BoundaryIsChar(rest, character);
    hide Encode, Units, CharsBefore;
    if j > n {
      UnitsGrow(rest, n, j);
    }
    assert line[..j] == rest[..j];
    CharsFound(line, j, 0);
  }

  // Edits

  /** What the server makes of one change: the new document, or none if a position is in a pair. */
  function ApplyChars(text: string, change: Change): Option<string>
    requires Resolvable(text, change)
  {
    match change
    case ReplaceAll(added) => Some(added)
    case Replace(start, end, added) =>
      var a, b := CharOffset(text, start), CharOffset(text, end);
      if a.None? || b.None? then None else Some(text[..a.value] + added + text[b.value..])
  }

  /** The lines exist, and the offsets are in order: otherwise the rope panics. */
  predicate Resolvable(text: string, change: Change) {
    change.Replace? ==>
      && LineStart(text, IsNewline, change.start.line).Some? && LineStart(text, IsNewline, change.end.line).Some?
      && (CharOffset(text, change.start).Some? && CharOffset(text, change.end).Some? ==>
            CharOffset(text, change.start).value <= CharOffset(text, change.end).value)
  }

  predicate AllResolvable(text: string, changes: seq<Change>)
    decreases |changes|
  {
    changes == [] ||
    (Resolvable(text, changes[0]) &&
     (ApplyChars(text, changes[0]).Some? ==> AllResolvable(ApplyChars(text, changes[0]).value, changes[1..])))
  }

  function ApplyAllChars(text: string, changes: seq<Change>): Option<string>
    requires AllResolvable(text, changes)
    decreases |changes|
  {
    if changes == [] then Some(text)
    else if ApplyChars(text, changes[0]).None? then None
    else ApplyAllChars(ApplyChars(text, changes[0]).value, changes[1..])
  }

  method ApplyContentChanges(rope: Rope, changes: seq<Change>) returns (ok: bool)
    requires AllResolvable(rope.text, changes)
    modifies rope
    ensures ok <==> ApplyAllChars(old(rope.text), changes).Some?
    ensures ok ==> rope.text == ApplyAllChars(old(rope.text), changes).value
  {
    hide CharOffset, LineStart;
    for i := 0 to |changes|
      invariant AllResolvable(rope.text, changes[i..])
      invariant ApplyAllChars(rope.text, changes[i..]) == ApplyAllChars(old(rope.text), changes)
    {
      var change := changes[i];
      assert changes[i..][0] == change && changes[i..][1..] == changes[i + 1..];
      ghost var before := rope.text;
      var at := 0;
      match change {
        case Replace(first, last, _) =>
          var start := TranslateRopePosition(rope, first);
          if start.None? {
            return false;
          }
          var end := TranslateRopePosition(rope, last);
          if end.None? {
            return false;
          }
          rope.Remove(start.value, end.value);
          at := start.value;
          assert rope.text[..at] == before[..at] && rope.text[at..] == before[end.value..];
        case ReplaceAll(_) =>
          rope.Remove(0, |rope.text|);
          assert rope.text == "";
      }
      if change.text != "" {
        rope.Insert(at, change.text);
      }
      assert rope.text == ApplyChars(before, change).value;
    }
    return true;
  }

  lemma ChangeCommutes(text: string, change: Change)
    requires ValidChange(Encode(text), change)
    ensures Resolvable(text, change) && ApplyChars(text, change).Some?
    ensures Encode(ApplyChars(text, change).value) == ApplyUnits(Encode(text), change)
  {
    if change.Replace? {
      PositionTranslates(text, change.start);
      PositionTranslates(text, change.end);
      var a, b := CharOffset(text, change.start).value, CharOffset(text, change.end).value;
      hide CharOffset, ValidPosition, UnitOffset, LineStart;
      if b < a {
        UnitsGrow(text, b, a);
      }
      EncodeSplit(text, a);
      EncodeSplit(text, b);
      EncodeConcat(text[..a], change.text);
      EncodeConcat(text[..a] + change.text, text[b..]);
    }
  }

  /** Editing the document by characters and splicing its UTF-16 encoding directly give the same
      document, for any list of changes with valid positions. */
  lemma {:induction false} EditsCommute(text: string, changes: seq<Change>)
    requires ValidChanges(Encode(text), changes)
    ensures AllResolvable(text, changes) && ApplyAllChars(text, changes).Some?
    ensures Encode(ApplyAllChars(text, changes).value) == ApplyAllUnits(Encode(text), changes)
    decreases |changes|
  {
    if changes != [] {
      ChangeCommutes(text, changes[0]);
      hide ApplyChars, ApplyUnits, ValidChange, Resolvable, Encode;
      EditsCommute(ApplyChars(text, changes[0]).value, changes[1..]);
    }
  }

  // Any position on a line that exists

  /** The code unit offset that the protocol means: a position past the end of its line, which does not
      include the line feed, is the end of the line. */
  function ClampedOffset(units: seq<Unit>, p: Position): (k: nat)
    requires LineStart(units, IsBreak, p.line).Some?
    ensures k <= |units|
  {
    var start := LineStart(units, IsBreak, p.line).value;
    var n := LineLength(units[start..], IsBreak);
    start + if p.character <= n then p.character else n
  }

  predicate PastLine(units: seq<Unit>, p: Position)
    requires LineStart(units, IsBreak, p.line).Some?
  {
    p.character > LineLength(units[LineStart(units, IsBreak, p.line).value..], IsBreak)
  }

  /** Only the last line can end without a line feed. */
  predicate HasLineFeed(units: seq<Unit>, line: nat)
    requires LineStart(units, IsBreak, line).Some?
  {
    var start := LineStart(units, IsBreak, line).value;
    start + LineLength(units[start..], IsBreak) < |units|
  }

  lemma {:induction false} CharsPastEnd(line: string, character: nat, units: nat)
    requires character >= units + |Encode(line)|
    ensures CharsBefore(line, character, units) == Some(|line|)
  {
    if line != "" {
      CharsPastEnd(line[1..], character, units + |Units(line[0])|);
    }
  }

  /** A line in both encodings: the end of its content, and the line feed after it. */
  lemma LineUnits(text: string, start: nat)
    requires start <= |text|
    ensures var n, units := LineLength(Encode(text[start..]), IsBreak), |Encode(text[start..])|;
      && start + |Line(text, start)| <= |text|
      && UnitsBefore(text[start..], |Line(text, start)|) == |Encode(Line(text, start))|
      && |Encode(Line(text, start))| == if n < units then n + 1 else n
  {
    var rest, line := text[start..], Line(text, start);
    LineLengthEncoded(rest);
    NextLineEncoded(rest);
    assert rest[..|line|] == line;
    if LineLength(rest, IsNewline) == |rest| {
      assert rest[..|rest|] == rest;
    }
  }

  /** A position past the end of its line lands behind the whole line: at its end if there is no line feed,
      and otherwise one code unit later, at the start of the next line. */
  lemma PastTheEnd(text: string, p: Position)
    requires LineStart(Encode(text), IsBreak, p.line).Some? && PastLine(Encode(text), p)
    ensures LineStart(text, IsNewline, p.line).Some? && CharOffset(text, p).Some?
    ensures UnitsBefore(text, CharOffset(text, p).value) ==
      ClampedOffset(Encode(text), p) + if HasLineFeed(Encode(text), p.line) then 1 else 0
  {
    hide LineStart, Encode, LineLength, Line, CharsBefore;
    LineStartEncoded(text, p.line);
    var start := LineStart(text, IsNewline, p.line).value;
    EncodeSplit(text, start);
    LineUnits(text, start);
    var line := Line(text, start);
    CharsPastEnd(line, p.character, 0);
    UnitsAfter(text, start, |line|);
  }

  /** The unit at the offset of a character never continues a pair. */
  lemma BoundaryNotLow(text: string, k: nat)
    requires k <= |text|
    ensures var u := UnitsBefore(text, k);
      u <= |Encode(text)| && (u < |Encode(text)| ==> !IsLow(Encode(text)[u]))
  {
    EncodeSplit(text, k);
    var u := UnitsBefore(text, k);
    if u < |Encode(text)| {
      assert Encode(text)[u] == Encode(text[k..])[0];
      assert text[k..] != "";
    }
  }

  /** The server finds the character at the offset that the protocol means. */
  predicate Corresponds(text: string, p: Position)
    requires LineStart(text, IsNewline, p.line).Some? && LineStart(Encode(text), IsBreak, p.line).Some?
  {
    var found := CharOffset(text, p);
    found.Some? && UnitsBefore(text, found.value) == ClampedOffset(Encode(text), p)
  }

  /** On a line that exists, the server does what the protocol says exactly if the position is within the
      line and not inside a pair, or is past the end of a line without a line feed. */
  lemma ClampedIff(text: string, p: Position)
    requires LineStart(Encode(text), IsBreak, p.line).Some?
    ensures LineStart(text, IsNewline, p.line).Some?
    ensures Corresponds(text, p) <==>
      || ValidPosition(Encode(text), p)
      || (PastLine(Encode(text), p) && !HasLineFeed(Encode(text), p.line))
  {
    hide LineStart, Encode, LineLength, CharOffset, UnitsBefore, IsLow;
    LineStartEncoded(text, p.line);
    if ValidPosition(Encode(text), p) {
      PositionTranslates(text, p);
    } else if PastLine(Encode(text), p) {
      PastTheEnd(text, p);
    } else if CharOffset(text, p).Some? {
      BoundaryNotLow(text, CharOffset(text, p).value);
    }
  }

  /** A position inside a surrogate pair is refused exactly if the pair is not at the end of the line. */
  lemma InsidePair(before: string, c: char, after: string)
    requires |Units(c)| == 2
    ensures var position := |Encode(before)| + 1;
      CharsBefore(before + [c] + after, position, 0) == if after == "" then Some(|before| + 1) else None
  {
    InsidePairFrom(before, c, after, 0);
  }

  lemma {:induction false} InsidePairFrom(before: string, c: char, after: string, units: nat)
    requires |Units(c)| == 2
    ensures CharsBefore(before + [c] + after, units + |Encode(before)| + 1, units) ==
      if after == "" then Some(|before| + 1) else None
  {
    var line := before + [c] + after;
    if before == "" {
      assert line[0] == c && line[1..] == after;
    } else {
      assert line[0] == before[0] && line[1..] == before[1..] + [c] + after;
      InsidePairFrom(before[1..], c, after, units + |Units(before[0])|);
    }
  }
}
