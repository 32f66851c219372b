/**
 The format=flowed decoder of flowed.rs (sections 4.1 to 4.6 of RFC 3676).

 `Decode` is what the code does, appending to and popping from one growing string.
 `Intended` is what the code's comments claim: each joined line contributes its own text
 without its own flowed space.  The two agree exactly when no joined continuation is a
 stuffed-empty quoted line (`DecodeIsIntendedIff`), and decoding inverts the encoder of
 section 4.2 (`DecodeInvertsEncode`).
 */
module Flowed {
  import opened Basics
  import opened PhysicalLines

  datatype FlowedLine = FlowedLine(display: string, content: string, quoteDepth: nat, isFlowed: bool,
                                   lineEnding: string)

  function StripOne(s: string, c: char): (t: string) {
    if s != "" && s[0] == c then s[1..] else s
  }

  predicate EndsWithSpace(s: string) {
    s != "" && s[|s| - 1] == ' '
  }

  function QuoteDepth(s: string): (n: nat)
    ensures n <= |s|
  {
    if s != "" && s[0] == '>' then 1 + QuoteDepth(s[1..]) else 0
  }

  /** `parse_line`: unstuffing comes first, then the quote marks, then one space after them. */
  function ParseLine(line: PhysicalLine): (r: FlowedLine) {
    var display := StripOne(line.text, ' ');
    var depth := QuoteDepth(display);
    var content := if depth > 0 then StripOne(display[depth..], ' ') else display;
    FlowedLine(display, content, depth, EndsWithSpace(display) && content != "-- ", line.ending)
  }

  method ParsePhysicalLine(line: PhysicalLine) returns (r: FlowedLine)
    ensures r == ParseLine(line)
  {
    var display := StripOne(line.text, ' ');
    var content := display;
    var quoteDepth := 0;
    while content != "" && content[0] == '>'
      invariant quoteDepth <= |display| && content == display[quoteDepth..]
      invariant QuoteDepth(display) == quoteDepth + QuoteDepth(content)
      decreases |content|
    {
      quoteDepth := quoteDepth + 1;
      content := content[1..];
    }
    if quoteDepth > 0 {
      content := StripOne(content, ' ');
    }
    return FlowedLine(display, content, quoteDepth, EndsWithSpace(display) && content != "-- ", line.ending);
  }

  function ParseAll(lines: seq<PhysicalLine>): (r: seq<FlowedLine>)
    ensures |r| == |lines|
  {
    if lines == [] then [] else [ParseLine(lines[0])] + ParseAll(lines[1..])
  }

  // ---------------------------------------------------------------- what the code does

  /** The first line is continued by the second. */
  predicate Joins(lines: seq<FlowedLine>) {
    |lines| > 1 && lines[0].isFlowed && lines[1].quoteDepth == lines[0].quoteDepth
  }

  /** `String::pop`. */
  function Pop(s: string): (t: string) {
    if s == "" then "" else s[..|s| - 1]
  }

  /** Decode `lines` onto what is already decoded. */
  function Decode(lines: seq<FlowedLine>, delsp: bool, decoded: string): (r: string)
    decreases |lines|, 1
  {
    if lines == [] then decoded else DecodeRest(lines, delsp, decoded + lines[0].display)
  }

  /** The inner loop: the current line, `lines[0]`, has just been appended. */
  function DecodeRest(lines: seq<FlowedLine>, delsp: bool, decoded: string): (r: string)
    requires lines != []
    decreases |lines|, 0
  {
    if Joins(lines)
    then DecodeRest(lines[1..], delsp, (if delsp then Pop(decoded) else decoded) + lines[1].content)
    else Decode(lines[1..], delsp, decoded + lines[0].lineEnding)
  }

  function Decoded(input: string, delsp: bool): string {
    Decode(ParseAll(Lines(input)), delsp, "")
  }

  method ParsePhysicalLines(input: string) returns (lines: seq<FlowedLine>)
    ensures lines == ParseAll(Lines(input))
  {
    hide Lines, ParseLine;
    var physical := SplitPhysicalLines(input);
    lines := [];
    for i := 0 to |physical|
      invariant |lines| == i
      invariant ParseAll(physical) == lines + ParseAll(physical[i..])
    {
      var line := ParsePhysicalLine(physical[i]);
      assert physical[i..][1..] == physical[i + 1..];
      lines := lines + [line];
    }
  }

  method DecodeFormatFlowed(input: string, delsp: bool) returns (decoded: string)
    ensures decoded == Decoded(input, delsp)
  {
    hide Lines, ParseLine, ParseAll;
    var lines := ParsePhysicalLines(input);
    decoded := "";
    var index := 0;
    assert lines[0..] == lines;
    while index < |lines|
      invariant 0 <= index <= |lines|
      invariant Decode(lines, delsp, "") == Decode(lines[index..], delsp, decoded)
    {
      var current := lines[index];
      decoded := decoded + current.display;
      while current.isFlowed && index + 1 < |lines| && lines[index + 1].quoteDepth == current.quoteDepth
        invariant 0 <= index < |lines| && current == lines[index]
        invariant Decode(lines, delsp, "") == DecodeRest(lines[index..], delsp, decoded)
        decreases |lines| - index
      {
        assert lines[index..][1..] == lines[index + 1..];
        if delsp {
          decoded := Pop(decoded);
        }
        index := index + 1;
        current := lines[index];
        decoded := decoded + current.content;
      }
      assert lines[index..][1..] == lines[index + 1..];
      decoded := decoded + current.lineEnding;
      index := index + 1;
    }
  }

  // ---------------------------------------------------------------- what is intended

  function DropSpace(text: string): (t: string) {
    if EndsWithSpace(text) then text[..|text| - 1] else text
  }

  function Intended(lines: seq<FlowedLine>, delsp: bool): (r: string)
    decreases |lines|, 1
  {
    if lines == [] then "" else IntendedRest(lines, delsp, lines[0].display)
  }

  /** `text` is what the first line contributes: its display, or its content when joined. */
  function IntendedRest(lines: seq<FlowedLine>, delsp: bool, text: string): (r: string)
    requires lines != []
    decreases |lines|, 0
  {
    if Joins(lines)
    then (if delsp then DropSpace(text) else text) + IntendedRest(lines[1..], delsp, lines[1].content)
    else text + (lines[0].lineEnding + Intended(lines[1..], delsp))
  }

  /** Some continuation line is itself continued although its content is empty, which happens
      for a quoted line with nothing but a stuffing space after its quote marks. */
  predicate JoinsStuffedEmpty(lines: seq<FlowedLine>, continuation: bool)
    decreases |lines|
  {
    && lines != []
    && ((continuation && Joins(lines) && lines[0].content == "") || JoinsStuffedEmpty(lines[1..], Joins(lines)))
  }

  /** What `parse_line` guarantees about its result. */
  predicate Parsed(line: FlowedLine) {
    && (line.isFlowed ==> EndsWithSpace(line.display))
    && (line.isFlowed && line.content != "" ==> EndsWithSpace(line.content))
    && (line.isFlowed && line.content == "" ==> line.quoteDepth > 0)
    && (line.quoteDepth > 0 ==> line.display != "" && line.display[0] == '>')
  }

  predicate AllParsed(lines: seq<FlowedLine>) {
    forall i :: 0 <= i < |lines| ==> Parsed(lines[i])
  }

  lemma ParseLineIsParsed(line: PhysicalLine)
    ensures Parsed(ParseLine(line))
  {
    var r := ParseLine(line);
    if r.quoteDepth > 0 && r.isFlowed && r.content != "" {
      QuotesThenSpace(r.display);
    }
  }

  lemma {:induction false} QuotesThenSpace(s: string)
    requires StripOne(s[QuoteDepth(s)..], ' ') != ""
    ensures EndsWithSpace(s) <==> EndsWithSpace(StripOne(s[QuoteDepth(s)..], ' '))
  {
  }

  lemma {:induction false} ParseAllIsParsed(lines: seq<PhysicalLine>)
    ensures AllParsed(ParseAll(lines))
  {
    hide ParseLine;
    if lines != [] {
      ParseLineIsParsed(lines[0]);
      ParseAllIsParsed(lines[1..]);
    }
  }

  /** While nothing stuffed-empty is joined, every pop removes the current line's own space. */
  lemma {:induction false} RestIsIntended(lines: seq<FlowedLine>, delsp: bool, pre: string, text: string,
                                          continuation: bool)
    requires lines != [] && AllParsed(lines)
    requires text == if continuation then lines[0].content else lines[0].display
    requires delsp ==> !JoinsStuffedEmpty(lines, continuation)
    ensures DecodeRest(lines, delsp, pre + text) == pre + IntendedRest(lines, delsp, text)
    decreases |lines|, 0
  {
    if Joins(lines) {
      var kept := if delsp then DropSpace(text) else text;
      assert Parsed(lines[0]);
      if delsp {
        PopsOwnSpace(pre, text);
      }
      RestIsIntended(lines[1..], delsp, pre + kept, lines[1].content, true);
      Regroup(pre, kept, IntendedRest(lines[1..], delsp, lines[1].content));
    } else {
      AllIsIntended(lines[1..], delsp, pre + text + lines[0].lineEnding);
      Regroup(pre + text, lines[0].lineEnding, Intended(lines[1..], delsp));
      Regroup(pre, text, lines[0].lineEnding + Intended(lines[1..], delsp));
    }
  }

  lemma PopsOwnSpace(pre: string, text: string)
    requires EndsWithSpace(text)
    ensures Pop(pre + text) == pre + DropSpace(text)
  {
  }

  lemma {:induction false} AllIsIntended(lines: seq<FlowedLine>, delsp: bool, pre: string)
    requires AllParsed(lines)
    requires delsp ==> !JoinsStuffedEmpty(lines, false)
    ensures Decode(lines, delsp, pre) == pre + Intended(lines, delsp)
    decreases |lines|, 1
  {
    if lines == [] {
      assert pre + "" == pre;
    } else {
      RestIsIntended(lines, delsp, pre, lines[0].display, false);
    }
  }

  /** Decoding with delsp never produces more text than intended. */
  lemma {:induction false} RestIsShorter(lines: seq<FlowedLine>, decoded: string, text: string)
    requires lines != [] && |text| <= |decoded|
    ensures |DecodeRest(lines, true, decoded)| <= |decoded| - |text| + |IntendedRest(lines, true, text)|
    decreases |lines|, 0
  {
    if Joins(lines) {
      RestIsShorter(lines[1..], Pop(decoded) + lines[1].content, lines[1].content);
    } else {
      AllIsShorter(lines[1..], decoded + lines[0].lineEnding);
    }
  }

  lemma {:induction false} AllIsShorter(lines: seq<FlowedLine>, decoded: string)
    ensures |Decode(lines, true, decoded)| <= |decoded| + |Intended(lines, true)|
    decreases |lines|, 1
  {
    if lines != [] {
      RestIsShorter(lines, decoded + lines[0].display, lines[0].display);
    }
  }

  /** Once a stuffed-empty line is joined, a character of the text before it is lost. */
  lemma {:induction false} RestLosesText(lines: seq<FlowedLine>, pre: string, text: string, continuation: bool)
    requires lines != [] && AllParsed(lines)
    requires text == if continuation then lines[0].content else lines[0].display
    requires continuation && lines[0].quoteDepth > 0 ==> pre != ""
    requires JoinsStuffedEmpty(lines, continuation)
    ensures |DecodeRest(lines, true, pre + text)| < |pre| + |IntendedRest(lines, true, text)|
    decreases |lines|, 0
  {
    assert Parsed(lines[0]);
    if continuation && Joins(lines) && lines[0].content == "" {
      assert pre + text == pre;
      RestIsShorter(lines[1..], Pop(pre) + lines[1].content, lines[1].content);
    } else if Joins(lines) {
      assert EndsWithSpace(text);
      assert Pop(pre + text) == pre + DropSpace(text);
      RestLosesText(lines[1..], pre + DropSpace(text), lines[1].content, true);
    } else {
      AllLosesText(lines[1..], pre + text + lines[0].lineEnding);
    }
  }

  lemma {:induction false} AllLosesText(lines: seq<FlowedLine>, pre: string)
    requires AllParsed(lines) && JoinsStuffedEmpty(lines, false)
    ensures |Decode(lines, true, pre)| < |pre| + |Intended(lines, true)|
    decreases |lines|, 1
  {
    RestLosesText(lines, pre, lines[0].display, false);
  }

  /** For every input: without delsp the decoder does what is intended; with delsp it does so
      if and only if no joined continuation is a stuffed-empty quoted line.  (The comment in
      the loop claims the popped character is always the line's own flowed space.) */
  lemma DecodeIsIntendedIff(input: string, delsp: bool)
    ensures var lines := ParseAll(Lines(input));
            Decoded(input, delsp) == Intended(lines, delsp) <==> !(delsp && JoinsStuffedEmpty(lines, false))
  {
    hide Lines, Decode, Intended, JoinsStuffedEmpty, ParseAll;
    var lines := ParseAll(Lines(input));
    ParseAllIsParsed(Lines(input));
    if delsp && JoinsStuffedEmpty(lines, false) {
      AllLosesText(lines, "");
    } else {
      AllIsIntended(lines, delsp, "");
      assert "" + Intended(lines, delsp) == Intended(lines, delsp);
    }
  }

  // ---------------------------------------------------------------- the encoder

  /** One physical line of a paragraph: the text it carries, whether it is space-stuffed, and
      its line ending.  All but the last piece of a paragraph are flowed. */
  datatype Piece = Piece(text: string, stuffed: bool, ending: string)

  datatype Paragraph = Paragraph(depth: nat, pieces: seq<Piece>)

  function Quotes(depth: nat): (s: string)
    ensures |s| == depth
  {
    if depth == 0 then "" else ">" + Quotes(depth - 1)
  }

  /** What follows the stuffing: the text, and the flowed space of a soft line. */
  function Carried(p: Piece, soft: bool): string {
    if soft then p.text + " " else p.text
  }

  function Stuffing(p: Piece): string {
    if p.stuffed then " " else ""
  }

  function EncodePiece(depth: nat, p: Piece, soft: bool): PhysicalLine {
    PhysicalLine(Quotes(depth) + (Stuffing(p) + Carried(p, soft)), p.ending)
  }

  function EncodePieces(depth: nat, pieces: seq<Piece>): seq<PhysicalLine> {
    if pieces == [] then []
    else [EncodePiece(depth, pieces[0], |pieces| > 1)] + EncodePieces(depth, pieces[1..])
  }

  function EncodeAll(ps: seq<Paragraph>): seq<PhysicalLine> {
    if ps == [] then [] else EncodePieces(ps[0].depth, ps[0].pieces) + EncodeAll(ps[1..])
  }

  /** The original text of a paragraph: with delsp the flowed spaces were added by the
      encoder, without it they were there before and are where the text was broken. */
  function Original(pieces: seq<Piece>, delsp: bool): string
    requires pieces != []
  {
    if |pieces| == 1 then pieces[0].text + pieces[0].ending
    else (pieces[0].text + (if delsp then "" else " ")) + Original(pieces[1..], delsp)
  }

  /** What a reader sees before the text of a quoted paragraph. */
  function Prefix(p: Paragraph): string
    requires p.pieces != []
  {
    if p.depth == 0 then "" else Quotes(p.depth) + Stuffing(p.pieces[0])
  }

  function OriginalAll(ps: seq<Paragraph>, delsp: bool): string
    requires forall i :: 0 <= i < |ps| ==> ps[i].pieces != []
  {
    if ps == [] then "" else (Prefix(ps[0]) + Original(ps[0].pieces, delsp)) + OriginalAll(ps[1..], delsp)
  }

  /** A line the encoder may produce: stuffed where section 4.4 demands it, and at depth 0 not
      starting with a quote mark (the decoder unstuffs before it looks for quote marks).  A
      soft line must not look like a signature delimiter. */
  predicate GoodPiece(depth: nat, p: Piece, soft: bool) {
    var c := Carried(p, soft);
    && (p.stuffed || c == "" || c[0] != ' ')
    && (c != "" && c[0] == '>' ==> depth > 0 && p.stuffed)
    && (soft ==> c != "-- ")
  }

  /** The decoder will take this last line for a flowed one. */
  predicate LooksFlowed(depth: nat, p: Piece) {
    p.text != "-- " && (EndsWithSpace(p.text) || (depth > 0 && p.stuffed && p.text == ""))
  }

  predicate GoodParagraph(p: Paragraph) {
    && p.pieces != []
    && forall i :: 0 <= i < |p.pieces| ==> GoodPiece(p.depth, p.pieces[i], i < |p.pieces| - 1)
  }

  /** A paragraph must end in a fixed line unless the next one has another quote depth. */
  predicate GoodText(ps: seq<Paragraph>) {
    ps != [] ==>
      && GoodParagraph(ps[0])
      && GoodText(ps[1..])
      && (|ps| > 1 && ps[1].depth == ps[0].depth ==> !LooksFlowed(ps[0].depth, ps[0].pieces[|ps[0].pieces| - 1]))
  }

  lemma {:induction false} QuoteDepthOf(depth: nat, s: string)
    requires s == "" || s[0] != '>'
    ensures QuoteDepth(Quotes(depth) + s) == depth
    ensures (Quotes(depth) + s)[depth..] == s
  {
    if depth == 0 {
      assert "" + s == s;
    } else {
      assert (Quotes(depth) + s)[1..] == Quotes(depth - 1) + s;
      QuoteDepthOf(depth - 1, s);
    }
  }

  /** How an encoded line is read back. */
  lemma ParseOfPiece(depth: nat, p: Piece, soft: bool)
    requires GoodPiece(depth, p, soft)
    ensures var c := Carried(p, soft);
            var display := if depth == 0 then c else Quotes(depth) + (Stuffing(p) + c);
            ParseLine(EncodePiece(depth, p, soft))
            == FlowedLine(display, c, depth, if soft then true else LooksFlowed(depth, p), p.ending)
  {
    hide QuoteDepth, EncodePiece;
    var c := Carried(p, soft);
    var text := Quotes(depth) + (Stuffing(p) + c);
    UnstuffedPiece(depth, p, soft);
    ContentOfPiece(depth, p, soft);
    LastOfPiece(depth, p, soft);
    assert EncodePiece(depth, p, soft) == PhysicalLine(text, p.ending) by {
      EncodedText(depth, p, soft);
    }
    if !soft && c == "-- " {
      assert c[|c| - 1] == ' ';
    }
  }

  lemma EncodedText(depth: nat, p: Piece, soft: bool)
    ensures EncodePiece(depth, p, soft) == PhysicalLine(Quotes(depth) + (Stuffing(p) + Carried(p, soft)), p.ending)
  {
  }

  function DisplayOf(depth: nat, p: Piece, soft: bool): string {
    if depth == 0 then Carried(p, soft) else Quotes(depth) + (Stuffing(p) + Carried(p, soft))
  }

  lemma UnstuffedPiece(depth: nat, p: Piece, soft: bool)
    requires GoodPiece(depth, p, soft)
    ensures StripOne(Quotes(depth) + (Stuffing(p) + Carried(p, soft)), ' ') == DisplayOf(depth, p, soft)
  {
    var c := Carried(p, soft);
    var text := Quotes(depth) + (Stuffing(p) + c);
    if depth == 0 {
      if p.stuffed {
        assert text[1..] == c;
      } else {
        assert text == c;
      }
    } else {
      assert text[0] == '>';
    }
  }

  lemma ContentOfPiece(depth: nat, p: Piece, soft: bool)
    requires GoodPiece(depth, p, soft)
    ensures QuoteDepth(DisplayOf(depth, p, soft)) == depth
    ensures depth > 0 ==> StripOne(DisplayOf(depth, p, soft)[depth..], ' ') == Carried(p, soft)
  {
    hide QuoteDepth;
    var c := Carried(p, soft);
    if depth == 0 {
      QuoteDepthOf(0, c);
      assert Quotes(0) + c == c;
    } else {
      QuoteDepthOf(depth, Stuffing(p) + c);
      if p.stuffed {
        assert (Stuffing(p) + c)[1..] == c;
      } else {
        assert Stuffing(p) + c == c;
      }
    }
  }

  lemma LastOfPiece(depth: nat, p: Piece, soft: bool)
    requires GoodPiece(depth, p, soft)
    ensures var c := Carried(p, soft);
            EndsWithSpace(DisplayOf(depth, p, soft)) <==> EndsWithSpace(c) || (depth > 0 && p.stuffed && c == "")
  {
    var c := Carried(p, soft);
    QuotesAreQuotes(depth);
    if c != "" {
      assert DisplayOf(depth, p, soft)[|DisplayOf(depth, p, soft)| - 1] == c[|c| - 1];
    } else if depth > 0 && !p.stuffed {
      assert DisplayOf(depth, p, soft) == Quotes(depth);
    }
  }

  lemma {:induction false} QuotesAreQuotes(depth: nat)
    ensures forall i :: 0 <= i < depth ==> Quotes(depth)[i] == '>'
  {
    if depth > 0 {
      QuotesAreQuotes(depth - 1);
    }
  }

  lemma {:induction false} ParseAllOfAppend(a: seq<PhysicalLine>, b: seq<PhysicalLine>)
    ensures ParseAll(a + b) == ParseAll(a) + ParseAll(b)
  {
    hide ParseLine;
    if a == [] {
      assert a + b == b;
    } else {
      assert (a + b)[1..] == a[1..] + b;
      ParseAllOfAppend(a[1..], b);
    }
  }

  /** The parsed lines of a paragraph, up to how its first line is displayed. */
  function ParsedPieces(depth: nat, pieces: seq<Piece>): seq<FlowedLine> {
    ParseAll(EncodePieces(depth, pieces))
  }

  lemma ParsedPiecesStep(depth: nat, pieces: seq<Piece>)
    requires pieces != []
    ensures ParsedPieces(depth, pieces)
         == [ParseLine(EncodePiece(depth, pieces[0], |pieces| > 1))] + ParsedPieces(depth, pieces[1..])
  {
    hide ParseLine, EncodePiece;
    var lines := EncodePieces(depth, pieces);
    assert lines[1..] == EncodePieces(depth, pieces[1..]);
  }

  predicate GoodPieces(depth: nat, pieces: seq<Piece>) {
    forall i :: 0 <= i < |pieces| ==> GoodPiece(depth, pieces[i], i < |pieces| - 1)
  }

  /** The next paragraph does not continue the last of `pieces`. */
  predicate Separated(depth: nat, pieces: seq<Piece>, after: seq<FlowedLine>)
    requires pieces != []
  {
    after == [] || after[0].quoteDepth != depth || !LooksFlowed(depth, pieces[|pieces| - 1])
  }

  lemma IntendedStep(first: FlowedLine, tail: seq<FlowedLine>, delsp: bool, text: string, continuation: bool)
    ensures var lines := [first] + tail;
            if Joins(lines) then
              && IntendedRest(lines, delsp, text)
                 == (if delsp then DropSpace(text) else text) + IntendedRest(tail, delsp, tail[0].content)
              && JoinsStuffedEmpty(lines, continuation)
                 == ((continuation && first.content == "") || JoinsStuffedEmpty(tail, true))
            else
              && IntendedRest(lines, delsp, text) == text + (first.lineEnding + Intended(tail, delsp))
              && JoinsStuffedEmpty(lines, continuation) == JoinsStuffedEmpty(tail, false)
  {
    assert ([first] + tail)[1..] == tail;
  }

  /** One paragraph, from any of its lines on: `lead` is what the first line shows before the
      text it carries. */
  lemma {:induction false} ParagraphIsOriginal(depth: nat, pieces: seq<Piece>, after: seq<FlowedLine>, delsp: bool,
                                               lead: string, continuation: bool)
    requires pieces != [] && GoodPieces(depth, pieces) && Separated(depth, pieces, after)
    ensures ParsedPieces(depth, pieces) != []
    ensures var lines := ParsedPieces(depth, pieces) + after;
            && IntendedRest(lines, delsp, lead + Carried(pieces[0], |pieces| > 1))
               == lead + (Original(pieces, delsp) + Intended(after, delsp))
            && JoinsStuffedEmpty(lines, continuation) == JoinsStuffedEmpty(after, false)
    decreases |pieces|
  {
    hide ParseLine, EncodePiece, LooksFlowed, GoodPiece, Intended, IntendedRest, JoinsStuffedEmpty, ParsedPieces;
    hide DropSpace, Carried, Quotes, Stuffing;
    var p := pieces[0];
    ParsedPiecesStep(depth, pieces);
    ParsedPiece(depth, p, |pieces| > 1);
    var first := ParseLine(EncodePiece(depth, p, |pieces| > 1));
    var text := lead + Carried(p, |pieces| > 1);
    if |pieces| == 1 {
      assert ParsedPieces(depth, pieces[1..]) == [] by {
        NoPieces(depth, pieces[1..]);
      }
      assert [first] + [] + after == [first] + after;
      IntendedStep(first, after, delsp, text, continuation);
      assert lead + p.text + (p.ending + Intended(after, delsp)) == lead + (p.text + p.ending + Intended(after, delsp));
    } else {
      var rest := pieces[1..];
      ParsedPiecesStep(depth, rest);
      assert GoodPiece(depth, rest[0], 0 < |rest| - 1) by {
        assert GoodPiece(depth, pieces[1], 1 < |pieces| - 1);
      }
      ParsedPiece(depth, rest[0], |rest| > 1);
      var tail := ParsedPieces(depth, rest) + after;
      assert [first] + ParsedPieces(depth, rest) + after == [first] + tail;
      assert tail[0] == ParseLine(EncodePiece(depth, rest[0], |rest| > 1));
      IntendedStep(first, tail, delsp, text, continuation);
      ParagraphIsOriginal(depth, rest, after, delsp, "", true);
      assert "" + Carried(rest[0], |rest| > 1) == Carried(rest[0], |rest| > 1);
      JoinedPiece(lead, p.text, Original(rest, delsp), Intended(after, delsp), delsp);
    }
  }

  lemma NoPieces(depth: nat, pieces: seq<Piece>)
    requires pieces == []
    ensures ParsedPieces(depth, pieces) == []
  {
  }

  /** The facts about an encoded line that joining depends on. */
  lemma ParsedPiece(depth: nat, p: Piece, soft: bool)
    requires GoodPiece(depth, p, soft)
    ensures var line := ParseLine(EncodePiece(depth, p, soft));
            && line.content == Carried(p, soft) && line.quoteDepth == depth && line.lineEnding == p.ending
            && line.isFlowed == (soft || LooksFlowed(depth, p))
    ensures Carried(p, soft) == if soft then p.text + " " else p.text
    ensures soft ==> Carried(p, soft) != ""
  {
    hide ParseLine, EncodePiece, GoodPiece, Quotes;
    ParseOfPiece(depth, p, soft);
  }

  lemma JoinedPiece(lead: string, text: string, rest: string, after: string, delsp: bool)
    ensures (if delsp then DropSpace(lead + (text + " ")) else lead + (text + " ")) + ("" + (rest + after))
         == lead + (((text + (if delsp then "" else " ")) + rest) + after)
  {
    if delsp {
      assert DropSpace(lead + (text + " ")) == lead + text;
    }
  }

  lemma {:induction false} TextIsOriginal(ps: seq<Paragraph>, delsp: bool)
    requires GoodText(ps)
    ensures forall i :: 0 <= i < |ps| ==> ps[i].pieces != []
    ensures Intended(ParseAll(EncodeAll(ps)), delsp) == OriginalAll(ps, delsp)
    ensures !JoinsStuffedEmpty(ParseAll(EncodeAll(ps)), false)
  {
    hide ParseLine, EncodePiece, LooksFlowed, GoodPiece, EncodePieces, IntendedRest, Quotes, Stuffing, ParseAll;
    FirstLineOf(ps);
    if ps == [] {
    } else {
      TextIsOriginal(ps[1..], delsp);
      var after := ParseAll(EncodeAll(ps[1..]));
      var depth, pieces := ps[0].depth, ps[0].pieces;
      EncodeAllStep(ps);
      FirstLineOf(ps[1..]);
      ParagraphIsOriginal(depth, pieces, after, delsp, Prefix(ps[0]), false);
      IntendedFromFirst(ParseAll(EncodeAll(ps)), delsp);
      assert Prefix(ps[0]) + (Original(pieces, delsp) + Intended(after, delsp))
          == (Prefix(ps[0]) + Original(pieces, delsp)) + Intended(after, delsp);
      OriginalAllStep(ps, delsp);
    }
  }

  lemma EncodeAllStep(ps: seq<Paragraph>)
    requires ps != []
    ensures ParseAll(EncodeAll(ps)) == ParsedPieces(ps[0].depth, ps[0].pieces) + ParseAll(EncodeAll(ps[1..]))
  {
    hide ParseAll, EncodePieces;
    ParseAllOfAppend(EncodePieces(ps[0].depth, ps[0].pieces), EncodeAll(ps[1..]));
  }

  lemma IntendedFromFirst(lines: seq<FlowedLine>, delsp: bool)
    requires lines != []
    ensures Intended(lines, delsp) == IntendedRest(lines, delsp, lines[0].display)
  {
  }

  lemma OriginalAllStep(ps: seq<Paragraph>, delsp: bool)
    requires ps != [] && forall i :: 0 <= i < |ps| ==> ps[i].pieces != []
    ensures OriginalAll(ps, delsp) == (Prefix(ps[0]) + Original(ps[0].pieces, delsp)) + OriginalAll(ps[1..], delsp)
  {
  }

  lemma FirstLineOf(ps: seq<Paragraph>)
    requires GoodText(ps)
    ensures ps == [] ==> ParseAll(EncodeAll(ps)) == []
    ensures ps != [] ==>
      var lines := ParseAll(EncodeAll(ps));
      && lines != [] && lines[0].quoteDepth == ps[0].depth
      && lines[0].display == Prefix(ps[0]) + Carried(ps[0].pieces[0], |ps[0].pieces| > 1)
  {
    hide ParseLine, EncodePiece, LooksFlowed, ParsedPieces;
    if ps != [] {
      var depth, pieces := ps[0].depth, ps[0].pieces;
      EncodeAllStep(ps);
      ParsedPiecesStep(depth, pieces);
      assert GoodPiece(depth, pieces[0], 0 < |pieces| - 1);
      ParseOfPiece(depth, pieces[0], |pieces| > 1);
    }
  }

  /** Decoding inverts encoding, for delsp on and off: each paragraph comes back as one quote
      prefix, its original text and its hard line ending, and no line is joined to one of
      another quote depth. */
  lemma DecodeInvertsEncode(ps: seq<Paragraph>, delsp: bool)
    requires GoodText(ps)
    requires WellFormed(EncodeAll(ps))
    ensures forall i :: 0 <= i < |ps| ==> ps[i].pieces != []
    ensures Decoded(Concat(EncodeAll(ps)), delsp) == OriginalAll(ps, delsp)
  {
    hide Decode, Intended, JoinsStuffedEmpty, ParseAll, OriginalAll, EncodeAll, GoodText, WellFormed;
    LinesOfConcat(EncodeAll(ps));
    TextIsOriginal(ps, delsp);
    DecodeIsIntendedIff(Concat(EncodeAll(ps)), delsp);
  }

  // ---------------------------------------------------------------- the exact condition, by example

  function ParsedText(text: string): FlowedLine {
    ParseLine(PhysicalLine(text, "\n"))
  }

  /** Three quoted lines, the middle one stuffed-empty: the letter before it is eaten. */
  lemma StuffedEmptyEatsText()
    ensures Decode([ParsedText("> a "), ParsedText("> "), ParsedText("> b")], true, "") == "> b\n"
    ensures Intended([ParsedText("> a "), ParsedText("> "), ParsedText("> b")], true) == "> ab\n"
  {
    hide ParseLine, Decode, Intended;
    ParseExample("a", true, "> a ");
    ParseExample("", false, "> ");
    ParseExample("b", false, "> b");
    StuffedEmptyTrace(ParsedText("> a "), ParsedText("> "), ParsedText("> b"));
  }

  lemma ParseExample(text: string, soft: bool, line: string)
    requires GoodPiece(1, Piece(text, true, "\n"), soft)
    requires line == "> " + Carried(Piece(text, true, "\n"), soft)
    ensures ParseLine(PhysicalLine(line, "\n"))
         == FlowedLine(line, Carried(Piece(text, true, "\n"), soft), 1,
                       soft || LooksFlowed(1, Piece(text, true, "\n")), "\n")
  {
    hide ParseLine;
    var p := Piece(text, true, "\n");
    ParseOfPiece(1, p, soft);
    assert Quotes(1) == ">";
    assert Quotes(1) + (Stuffing(p) + Carried(p, soft)) == line;
  }

  lemma StuffedEmptyTrace(a: FlowedLine, e: FlowedLine, b: FlowedLine)
    requires a == FlowedLine("> a ", "a ", 1, true, "\n")
    requires e == FlowedLine("> ", "", 1, true, "\n")
    requires b == FlowedLine("> b", "b", 1, false, "\n")
    ensures Decode([a, e, b], true, "") == "> b\n"
    ensures Intended([a, e, b], true) == "> ab\n"
  {
    assert [a, e, b][1..] == [e, b] && [e, b][1..] == [b] && [b][1..] == [];
    assert "" + "> a " == "> a " && Pop("> a ") + "" == "> a" && Pop("> a") + "b" == "> b";
    assert DecodeRest([b], true, "> b") == "> b\n";
    assert DecodeRest([e, b], true, "> a") == "> b\n";
    assert IntendedRest([b], true, "b") == "b\n" by {
      assert "b" + ("\n" + "") == "b\n";
    }
    assert IntendedRest([e, b], true, "") == "b\n";
    assert "> a" + "b\n" == "> ab\n";
  }
}
