/**
 The three line scanners of the mail core: `physical_lines` (flowed.rs), and
 `for_each_line` and `outer_header_len` (mime_budget.rs).

 Text and raw bytes are both modelled as `string`.  The scanners only ever compare an
 element with an ASCII constant, so a raw message is the string of its bytes and a Rust
 `&str` is the string of its characters.

 `Faithful` says what a correct split into lines is, without saying how to find it; it
 determines the split (`FaithfulIsUnique`), and all three scanners agree with it.
 */
module PhysicalLines {

  /** A line's text and the characters that ended it ("" for an unterminated last line). */
  datatype PhysicalLine = PhysicalLine(text: string, ending: string)

  predicate IsBreak(c: char) {
    c == '\n' || c == '\r'
  }

  predicate BreakFree(s: string) {
    forall i :: 0 <= i < |s| ==> !IsBreak(s[i])
  }

  predicate StartsWithLf(s: string) {
    s != "" && s[0] == '\n'
  }

  /** LF, CR or CRLF. */
  predicate IsEnding(e: string) {
    || (|e| == 1 && IsBreak(e[0]))
    || (|e| == 2 && e[0] == '\r' && e[1] == '\n')
  }

  /** `line` may stand before `rest`: a CR ending must not be half of a CRLF, and only the
      last line may lack an ending. */
  predicate GoodLine(line: PhysicalLine, rest: string) {
    && BreakFree(line.text)
    && (if line.ending == "" then line.text != "" && rest == ""
        else IsEnding(line.ending) && !(|line.ending| == 1 && line.ending[0] == '\r' && StartsWithLf(rest)))
  }

  function Concat(lines: seq<PhysicalLine>): string {
    if lines == [] then "" else lines[0].text + lines[0].ending + Concat(lines[1..])
  }

  function Texts(lines: seq<PhysicalLine>): seq<string> {
    if lines == [] then [] else [lines[0].text] + Texts(lines[1..])
  }

  predicate WellFormed(lines: seq<PhysicalLine>) {
    lines == [] || (GoodLine(lines[0], Concat(lines[1..])) && WellFormed(lines[1..]))
  }

  /** A correct split of `s`: nothing lost or added, and every line as long as it can be. */
  predicate Faithful(lines: seq<PhysicalLine>, s: string) {
    Concat(lines) == s && WellFormed(lines)
  }

  /** How many characters of a line ending start `s`; 0 when it starts with ordinary text. */
  function EndingLength(s: string): (n: nat)
    ensures n <= |s|
  {
    if s == "" then 0
    else if s[0] == '\n' then 1
    else if s[0] == '\r' then (if StartsWithLf(s[1..]) then 2 else 1)
    else 0
  }

  /** The index of the first CR or LF, or the length when there is none. */
  function TextLength(s: string): (n: nat)
    ensures n <= |s|
  {
    if s == "" || IsBreak(s[0]) then 0 else 1 + TextLength(s[1..])
  }

  function FirstLine(s: string): (line: PhysicalLine)
    ensures |line.text| + |line.ending| <= |s|
  {
    var n := TextLength(s);
    PhysicalLine(s[..n], s[n..n + EndingLength(s[n..])])
  }

  function AfterFirstLine(s: string): (rest: string) {
    var n := TextLength(s);
    s[n + EndingLength(s[n..])..]
  }

  lemma {:induction false} TextLengthIsFirstBreak(s: string)
    ensures BreakFree(s[..TextLength(s)])
    ensures TextLength(s) < |s| ==> IsBreak(s[TextLength(s)])
  {
    if s != "" && !IsBreak(s[0]) {
      TextLengthIsFirstBreak(s[1..]);
      var n := TextLength(s[1..]);
      assert s[..n + 1] == [s[0]] + s[1..][..n];
    }
  }

  lemma {:induction false} TextLengthOf(text: string, rest: string)
    requires BreakFree(text)
    requires rest != "" ==> IsBreak(rest[0])
    ensures TextLength(text + rest) == |text|
  {
    if text == "" {
      assert text + rest == rest;
    } else {
      assert (text + rest)[1..] == text[1..] + rest;
      TextLengthOf(text[1..], rest);
    }
  }

  /** The lines of `s`, as a function: the specification of all the scanners below. */
  function Lines(s: string): (lines: seq<PhysicalLine>)
    decreases |s|
  {
    if s == "" then []
    else
      TextLengthIsFirstBreak(s);
      [FirstLine(s)] + Lines(AfterFirstLine(s))
  }

  /** Peeling off one good line, in the form every proof below uses. */
  lemma LinesOfLine(line: PhysicalLine, rest: string)
    requires GoodLine(line, rest)
    requires line.ending != "" || line.text != ""
    ensures Lines(line.text + line.ending + rest) == [line] + Lines(rest)
  {
    var s := line.text + line.ending + rest;
    var n := |line.text|;
    TextLengthOf(line.text, line.ending + rest);
    assert s == line.text + (line.ending + rest);
    assert s[n..] == line.ending + rest;
    assert EndingLength(line.ending + rest) == |line.ending| by {
      if line.ending == "" {
      } else {
        assert (line.ending + rest)[1..] == line.ending[1..] + rest;
      }
    }
    assert s[..n] == line.text && s[n..n + |line.ending|] == line.ending && s[n + |line.ending|..] == rest;
  }

  lemma FirstLineIsGood(s: string)
    requires s != ""
    ensures GoodLine(FirstLine(s), AfterFirstLine(s))
    ensures s == FirstLine(s).text + FirstLine(s).ending + AfterFirstLine(s)
  {
    TextLengthIsFirstBreak(s);
    var n := TextLength(s);
    var t := s[n..];
    var e := EndingLength(t);
    assert s[n..n + e] == t[..e];
    assert s[n + e..] == t[e..];
    if n < |s| {
      assert t[0] == s[n];
      if e == 1 && t[0] == '\r' {
        assert t[1..] == t[e..];
      }
    }
  }

  lemma {:induction false} LinesAreFaithful(s: string)
    ensures Faithful(Lines(s), s)
    decreases |s|
  {
    if s == "" {
    } else {
      FirstLineIsGood(s);
      TextLengthIsFirstBreak(s);
      LinesAreFaithful(AfterFirstLine(s));
      var lines := Lines(s);
      assert lines[1..] == Lines(AfterFirstLine(s));
    }
  }

  /** Any well-formed sequence of lines is what the scanners find in its concatenation. */
  lemma {:induction false} LinesOfConcat(lines: seq<PhysicalLine>)
    requires WellFormed(lines)
    ensures Lines(Concat(lines)) == lines
  {
    if lines == [] {
    } else {
      LinesOfConcat(lines[1..]);
      LinesOfLine(lines[0], Concat(lines[1..]));
    }
  }

  /** `Faithful` pins the split down completely. */
  lemma FaithfulIsUnique(lines: seq<PhysicalLine>, s: string)
    ensures Faithful(lines, s) <==> lines == Lines(s)
  {
    LinesAreFaithful(s);
    if Faithful(lines, s) {
      LinesOfConcat(lines);
    }
  }

  /** The next line of `s[start..]` when the first CR or LF from `start` on is at `cursor`. */
  lemma LineAt(s: string, start: nat, cursor: nat)
    requires start <= cursor < |s|
    requires BreakFree(s[start..cursor]) && IsBreak(s[cursor])
    ensures var next := cursor + EndingLength(s[cursor..]);
            Lines(s[start..]) == [PhysicalLine(s[start..cursor], s[cursor..next])] + Lines(s[next..])
  {
    hide Lines, TextLength, FirstLine, AfterFirstLine, EndingLength;
    var next := cursor + EndingLength(s[cursor..]);
    EndingSplits(s[cursor..]);
    assert s[cursor..][..next - cursor] == s[cursor..next];
    assert s[cursor..][next - cursor..] == s[next..];
    LinesOfLine(PhysicalLine(s[start..cursor], s[cursor..next]), s[next..]);
    assert s[start..] == s[start..cursor] + s[cursor..next] + s[next..];
  }

  lemma EndingSplits(t: string)
    requires t != "" && IsBreak(t[0])
    ensures var e := EndingLength(t);
            e > 0 && forall text :: BreakFree(text) ==> GoodLine(PhysicalLine(text, t[..e]), t[e..])
  {
  }

  /** The last line of `s[start..]` when it holds no CR or LF. */
  lemma LastLineAt(s: string, start: nat)
    requires start <= |s| && BreakFree(s[start..])
    ensures Lines(s[start..]) == if start == |s| then [] else [PhysicalLine(s[start..], "")]
  {
    if start < |s| {
      LinesOfLine(PhysicalLine(s[start..], ""), "");
      assert s[start..] + "" + "" == s[start..];
    }
  }

  /** `physical_lines`: a cursor over the text. */
  method SplitPhysicalLines(input: string) returns (lines: seq<PhysicalLine>)
    ensures Faithful(lines, input)
    ensures lines == Lines(input)
  {
    hide Lines, TextLength;
    lines := [];
    var start, cursor := 0, 0;
    while cursor < |input|
      invariant 0 <= start <= cursor <= |input|
      invariant BreakFree(input[start..cursor])
      invariant Lines(input) == lines + Lines(input[start..])
    {
      var endingLen := EndingLength(input[cursor..]);
      if endingLen == 0 {
        assert input[start..cursor + 1] == input[start..cursor] + [input[cursor..][0]];
        cursor := cursor + 1;
        continue;
      }
      LineAt(input, start, cursor);
      lines := lines + [PhysicalLine(input[start..cursor], input[cursor..cursor + endingLen])];
      cursor := cursor + endingLen;
      start := cursor;
    }
    assert input[start..cursor] == input[start..];
    LastLineAt(input, start);
    LinesAreFaithful(input);
    if start < |input| {
      lines := lines + [PhysicalLine(input[start..], "")];
    } else {
      assert lines + [] == lines;
    }
  }

  lemma {:induction false} TextsOfAppend(a: seq<PhysicalLine>, b: seq<PhysicalLine>)
    ensures Texts(a + b) == Texts(a) + Texts(b)
  {
    if a == [] {
      assert a + b == b;
    } else {
      assert (a + b)[1..] == a[1..] + b;
      TextsOfAppend(a[1..], b);
    }
  }

  /** A CR at `index - 1` that the LF at `index` will complete. */
  predicate HalfCrLf(raw: string, start: nat, index: nat) {
    start < index < |raw| && raw[index - 1] == '\r' && raw[index] == '\n'
  }

  /** How far the text of the line under the scanners is known to reach. */
  function Scanned(raw: string, start: nat, index: nat): (text: string)
    requires start <= index <= |raw|
  {
    if HalfCrLf(raw, start, index) then raw[start..index - 1] else raw[start..index]
  }

  lemma ScannedGrows(raw: string, start: nat, index: nat)
    requires start <= index < |raw| && BreakFree(Scanned(raw, start, index))
    requires raw[index] != '\n'
    requires raw[index] == '\r' ==> index + 1 < |raw| && raw[index + 1] == '\n'
    ensures BreakFree(Scanned(raw, start, index + 1))
  {
    assert Scanned(raw, start, index) == raw[start..index];
    if raw[index] != '\r' {
      assert raw[start..index + 1] == raw[start..index] + [raw[index]];
    }
  }

  lemma NothingScannedAt(raw: string, start: nat)
    requires start <= |raw|
    ensures BreakFree(Scanned(raw, start, start))
  {
    assert Scanned(raw, start, start) == "";
  }

  lemma EndingAt(raw: string, at: nat)
    requires at < |raw|
    ensures raw[at] == '\n' ==> EndingLength(raw[at..]) == 1
    ensures at + 1 < |raw| && raw[at] == '\r' && raw[at + 1] == '\n' ==> EndingLength(raw[at..]) == 2
    ensures raw[at] == '\r' && !(at + 1 < |raw| && raw[at + 1] == '\n') ==> EndingLength(raw[at..]) == 1
  {
  }

  /** The line under the scanners ends with the LF at `index`, or the CRLF around it. */
  lemma EndsAtLf(raw: string, start: nat, index: nat, end: nat)
    requires start <= index < |raw| && BreakFree(Scanned(raw, start, index)) && raw[index] == '\n'
    requires end == if index > start && raw[index - 1] == '\r' then index - 1 else index
    ensures start <= end && BreakFree(raw[start..end]) && IsBreak(raw[end])
    ensures index + 1 == end + EndingLength(raw[end..])
  {
    hide EndingLength, BreakFree;
    EndingAt(raw, end);
  }

  /** It ends with a CR that no LF follows. */
  lemma EndsAtCr(raw: string, start: nat, index: nat)
    requires start <= index < |raw| && BreakFree(Scanned(raw, start, index))
    requires raw[index] == '\r' && !(index + 1 < |raw| && raw[index + 1] == '\n')
    ensures BreakFree(raw[start..index]) && IsBreak(raw[index]) && index + 1 == index + EndingLength(raw[index..])
  {
    hide EndingLength, BreakFree;
    EndingAt(raw, index);
  }

  lemma EndsUnended(raw: string, start: nat)
    requires start <= |raw| && BreakFree(Scanned(raw, start, |raw|))
    ensures BreakFree(raw[start..])
  {
    hide BreakFree;
    assert raw[start..|raw|] == raw[start..];
  }

  /** One call of the visitor, for the line `raw[start..end]` that ends at `next`. */
  lemma VisitedLine(raw: string, seen: seq<PhysicalLine>, start: nat, end: nat, next: nat)
    requires start <= end < next <= |raw|
    requires BreakFree(raw[start..end]) && IsBreak(raw[end])
    requires next == end + EndingLength(raw[end..])
    requires Lines(raw) == seen + Lines(raw[start..])
    ensures var more := seen + [PhysicalLine(raw[start..end], raw[end..next])];
            Lines(raw) == more + Lines(raw[next..]) && Texts(more) == Texts(seen) + [raw[start..end]]
  {
    hide Lines, Texts, TextLength, EndingLength;
    LineAt(raw, start, end);
    var line := PhysicalLine(raw[start..end], raw[end..next]);
    TextsOfAppend(seen, [line]);
    assert Texts([line]) == [line.text] by {
      TextsOfOne(line);
    }
  }

  lemma TextsOfOne(line: PhysicalLine)
    ensures Texts([line]) == [line.text]
  {
    assert [line][1..] == [];
  }

  lemma NoTexts()
    ensures Texts([]) == []
  {
  }

  /** The last call of the visitor, when text is left after the last line ending. */
  lemma LastVisited(raw: string, seen: seq<PhysicalLine>, start: nat)
    requires start <= |raw| && BreakFree(raw[start..])
    requires Lines(raw) == seen + Lines(raw[start..])
    ensures Texts(Lines(raw)) == if start < |raw| then Texts(seen) + [raw[start..]] else Texts(seen)
  {
    hide Lines, Texts, TextLength, EndingLength, BreakFree;
    LastLineAt(raw, start);
    if start < |raw| {
      TextsOfAppend(seen, [PhysicalLine(raw[start..], "")]);
      TextsOfOne(PhysicalLine(raw[start..], ""));
    } else {
      assert seen + [] == seen;
    }
  }

  /** `for_each_line`: the texts handed to the visitor, in the order of the calls. */
  method ForEachLine(raw: string) returns (visited: seq<string>)
    ensures visited == Texts(Lines(raw))
  {
    hide Lines, Texts, TextLength, EndingLength, BreakFree, Scanned, HalfCrLf;
    NoTexts();
    visited := [];
    assert raw[0..] == raw;
    NothingScannedAt(raw, 0);
    var start, index := 0, 0;
    ghost var seen: seq<PhysicalLine> := [];
    while index < |raw|
      invariant 0 <= start <= index <= |raw|
      invariant BreakFree(Scanned(raw, start, index))
      invariant Lines(raw) == seen + Lines(raw[start..])
      invariant visited == Texts(seen)
    {
      if raw[index] == '\n' {
        var end := if index > start && raw[index - 1] == '\r' then index - 1 else index;
        EndsAtLf(raw, start, index, end);
        VisitedLine(raw, seen, start, end, index + 1);
        seen := seen + [PhysicalLine(raw[start..end], raw[end..index + 1])];
        visited := visited + [raw[start..end]];
        start := index + 1;
        NothingScannedAt(raw, start);
      } else if raw[index] == '\r' && !(index + 1 < |raw| && raw[index + 1] == '\n') {
        EndsAtCr(raw, start, index);
        VisitedLine(raw, seen, start, index, index + 1);
        seen := seen + [PhysicalLine(raw[start..index], raw[index..index + 1])];
        visited := visited + [raw[start..index]];
        start := index + 1;
        NothingScannedAt(raw, start);
      } else {
        ScannedGrows(raw, start, index);
      }
      index := index + 1;
    }
    EndsUnended(raw, start);
    LastVisited(raw, seen, start);
    if start < |raw| {
      visited := visited + [raw[start..]];
    }
  }

  /** Where the first line with an empty text starts; the total length when there is none. */
  function FirstEmptyLine(lines: seq<PhysicalLine>): (offset: nat) {
    if lines == [] || lines[0].text == "" then 0
    else |lines[0].text| + |lines[0].ending| + FirstEmptyLine(lines[1..])
  }

  /** `outer_header_len`: the bytes before the blank line that ends the outer header. */
  method OuterHeaderLen(raw: string) returns (length: nat)
    ensures length == FirstEmptyLine(Lines(raw))
  {
    hide Lines, TextLength, EndingLength, BreakFree, FirstEmptyLine, Scanned, HalfCrLf;
    var lineStart := 0;
    assert raw[0..] == raw;
    NothingScannedAt(raw, 0);
    for index := 0 to |raw|
      invariant 0 <= lineStart <= index
      invariant BreakFree(Scanned(raw, lineStart, index))
      invariant FirstEmptyLine(Lines(raw)) == lineStart + FirstEmptyLine(Lines(raw[lineStart..]))
    {
      if raw[index] == '\n' {
        var contentEnd := if index > lineStart && raw[index - 1] == '\r' then index - 1 else index;
        EndsAtLf(raw, lineStart, index, contentEnd);
        FirstEmptyAt(raw, lineStart, contentEnd, index + 1);
        if contentEnd == lineStart {
          return lineStart;
        }
        lineStart := index + 1;
        NothingScannedAt(raw, lineStart);
      } else if raw[index] == '\r' && !(index + 1 < |raw| && raw[index + 1] == '\n') {
        EndsAtCr(raw, lineStart, index);
        FirstEmptyAt(raw, lineStart, index, index + 1);
        if index == lineStart {
          return lineStart;
        }
        lineStart := index + 1;
        NothingScannedAt(raw, lineStart);
      } else {
        ScannedGrows(raw, lineStart, index);
      }
    }
    FirstEmptyAtEnd(raw, lineStart);
    return |raw|;
  }

  lemma FirstEmptyAt(raw: string, start: nat, end: nat, next: nat)
    requires start <= end < next <= |raw|
    requires BreakFree(raw[start..end]) && IsBreak(raw[end])
    requires next == end + EndingLength(raw[end..])
    ensures FirstEmptyLine(Lines(raw[start..]))
         == if start == end then 0 else next - start + FirstEmptyLine(Lines(raw[next..]))
  {
    hide Lines, TextLength, EndingLength;
    LineAt(raw, start, end);
    var line := PhysicalLine(raw[start..end], raw[end..next]);
    assert ([line] + Lines(raw[next..]))[1..] == Lines(raw[next..]);
  }

  lemma FirstEmptyAtEnd(raw: string, start: nat)
    requires start <= |raw| && BreakFree(Scanned(raw, start, |raw|))
    ensures FirstEmptyLine(Lines(raw[start..])) == |raw| - start
  {
    hide Lines, TextLength, EndingLength;
    assert raw[start..|raw|] == raw[start..];
    LastLineAt(raw, start);
  }

  lemma LinesOfNonEmpty(s: string)
    requires s != ""
    ensures Lines(s) == [FirstLine(s)] + Lines(AfterFirstLine(s))
  {
    TextLengthIsFirstBreak(s);
  }

  /** The header section is a whole number of lines, none of them empty, and what follows
      it is nothing or starts with an empty line. */
  lemma {:induction false} HeaderSectionIsWholeLines(raw: string)
    ensures var h := FirstEmptyLine(Lines(raw));
            && h <= |raw|
            && "" !in Texts(Lines(raw[..h]))
            && Lines(raw) == Lines(raw[..h]) + Lines(raw[h..])
            && (h < |raw| ==> FirstLine(raw[h..]).text == "")
    decreases |raw|
  {
    hide Lines, TextLength, FirstLine, AfterFirstLine;
    var h := FirstEmptyLine(Lines(raw));
    assert Lines("") == [] by {
      LastLineAt("", 0);
    }
    if raw == "" {
    } else {
      LinesOfNonEmpty(raw);
      FirstLineIsGood(raw);
      var first, rest := FirstLine(raw), AfterFirstLine(raw);
      assert Lines(raw)[1..] == Lines(rest);
      if first.text == "" {
        assert raw[..h] == "" && raw[h..] == raw;
      } else {
        assert |rest| < |raw|;
        HeaderSectionIsWholeLines(rest);
        var r := FirstEmptyLine(Lines(rest));
        HeaderSectionGrows(raw, first, rest, r);
      }
    }
  }

  lemma HeaderSectionGrows(raw: string, first: PhysicalLine, rest: string, r: nat)
    requires raw == first.text + first.ending + rest && GoodLine(first, rest) && first.text != ""
    requires r <= |rest|
    ensures var h := |first.text| + |first.ending| + r;
            raw[h..] == rest[r..] && Lines(raw[..h]) == [first] + Lines(rest[..r])
    ensures Texts([first] + Lines(rest[..r])) == [first.text] + Texts(Lines(rest[..r]))
  {
    hide Lines, TextLength, FirstLine, AfterFirstLine;
    var h := |first.text| + |first.ending| + r;
    assert raw[h..] == rest[r..];
    assert raw[..h] == first.text + first.ending + rest[..r];
    LinesOfLine(first, rest[..r]);
    assert ([first] + Lines(rest[..r]))[1..] == Lines(rest[..r]);
  }
}
