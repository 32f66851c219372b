/**
 The Content-Type parameter scanner of mime_budget.rs, and the theorem that it inverts a
 printer of parameter lists (section 5.1 of RFC 2045) whatever the preceding parameters hold.
 */
module MimeParameters {

  import opened AsciiText
  import opened Basics
  import opened Options

  // ---------------------------------------------------------------- byte classes and trimming

  /** `u8::is_ascii_whitespace`: no vertical tab. */
  predicate IsAsciiWhitespace(c: char) {
    c == ' ' || c == '\t' || c == '\n' || c == '\r' || c == '\U{0C}'
  }

  predicate IsBlank(c: char) {
    c == ' ' || c == '\t'
  }

  function TrimStart(s: string): (t: string) {
    if s != "" && IsAsciiWhitespace(s[0]) then TrimStart(s[1..]) else s
  }

  function TrimEnd(s: string): (t: string) {
    if s != "" && IsAsciiWhitespace(s[|s| - 1]) then TrimEnd(s[..|s| - 1]) else s
  }

  /** `trim_ascii_whitespace`. */
  function Trim(s: string): string {
    TrimEnd(TrimStart(s))
  }

  /** `trim_ascii_end`: only spaces and tabs. */
  function TrimBlankEnd(s: string): (t: string) {
    if s != "" && IsBlank(s[|s| - 1]) then TrimBlankEnd(s[..|s| - 1]) else s
  }

  predicate EqualsIgnoreCase(a: string, b: string) {
    Lower(a) == Lower(b)
  }

  predicate StartsWith(s: string, prefix: string) {
    |prefix| <= |s| && s[..|prefix|] == prefix
  }

  /** `starts_ascii_case_insensitive`. */
  predicate StartsWithIgnoreCase(s: string, prefix: string) {
    |prefix| <= |s| && EqualsIgnoreCase(s[..|prefix|], prefix)
  }

  // ---------------------------------------------------------------- the scanner

  predicate IsTokenEnd(c: char) {
    c == ' ' || c == '\t' || c == '/' || c == ';' || c == '='
  }

  /** `ascii_token`: how long the leading token is. */
  function TokenLength(s: string): (n: nat)
    ensures n <= |s|
  {
    if s == "" || IsTokenEnd(s[0]) then 0 else 1 + TokenLength(s[1..])
  }

  /** `multipart_parameter_section`: what follows "multipart/subtype" in a header line. */
  function MultipartParameterSection(line: string): (section: Option<string>) {
    var colon := IndexOf(line, ':');
    if colon == |line| then None
    else
      var value := Trim(line[colon + 1..]);
      var n := TokenLength(value);
      if !EqualsIgnoreCase(value[..n], "multipart") then None
      else
        var afterType := Trim(value[n..]);
        if !StartsWith(afterType, "/") then None
        else
          var rest := Trim(afterType[1..]);
          var k := TokenLength(rest);
          if k == 0 then None else Some(rest[k..])
  }

  /** Where the parameter at the front of `s` ends: the first semicolon outside quotes. */
  function ParameterLength(s: string, quoted: bool, escaped: bool): (n: nat)
    ensures n <= |s|
  {
    if s == "" then 0
    else if s[0] == '\\' && quoted then 1 + ParameterLength(s[1..], quoted, !escaped)
    else if s[0] == '"' && !escaped then 1 + ParameterLength(s[1..], !quoted, escaped)
    else if s[0] == ';' && !quoted then 0
    else 1 + ParameterLength(s[1..], quoted, false)
  }

  /** `next_parameter`: skip to the first semicolon, then split at the next unquoted one. */
  function NextParameterOf(s: string): (r: Option<(string, string)>)
    ensures r.Some? ==> |r.value.1| < |s|
  {
    var start := IndexOf(s, ';');
    if start == |s| then None
    else
      var value := s[start + 1..];
      var n := ParameterLength(value, false, false);
      Some((value[..n], value[n..]))
  }

  method NextParameter(s: string) returns (r: Option<(string, string)>)
    ensures r == NextParameterOf(s)
  {
    hide IndexOf;
    var start := IndexOf(s, ';');
    if start == |s| {
      return None;
    }
    var value := s[start + 1..];
    var quoted, escaped := false, false;
    for index := 0 to |value|
      invariant ParameterLength(value, false, false) == index + ParameterLength(value[index..], quoted, escaped)
    {
      var byte := value[index];
      assert value[index..][0] == byte && value[index..][1..] == value[index + 1..];
      if byte == '\\' && quoted {
        escaped := !escaped;
      } else if byte == '"' && !escaped {
        quoted := !quoted;
      } else if byte == ';' && !quoted {
        return Some((value[..index], value[index..]));
      } else {
        escaped := false;
      }
    }
    assert value[..|value|] == value && value[|value|..] == "";
    return Some((value, ""));
  }

  /** The text of a quoted value whose opening quote has been removed; None if never closed. */
  function Unquoted(s: string, escaped: bool): (r: Option<string>) {
    if s == "" then None
    else if escaped then Prepend(s[0], Unquoted(s[1..], false))
    else if s[0] == '\\' then Unquoted(s[1..], true)
    else if s[0] == '"' then Some("")
    else Prepend(s[0], Unquoted(s[1..], false))
  }

  function Prepend(c: char, r: Option<string>): Option<string> {
    if r.None? then None else Some([c] + r.value)
  }

  function PrependAll(prefix: string, r: Option<string>): Option<string> {
    if r.None? then None else Some(prefix + r.value)
  }

  lemma PrependNothing(r: Option<string>)
    ensures PrependAll("", r) == r
  {
    if r.Some? {
      assert "" + r.value == r.value;
    }
  }

  lemma PrependAllStep(prefix: string, c: char, r: Option<string>)
    ensures PrependAll(prefix, Prepend(c, r)) == PrependAll(prefix + [c], r)
  {
    if r.Some? {
      assert prefix + ([c] + r.value) == prefix + [c] + r.value;
    }
  }

  method UnquoteBoundary(value: string) returns (r: Option<string>)
    ensures r == Unquoted(value, false)
  {
    var boundary := "";
    var escaped := false;
    assert value[0..] == value;
    PrependNothing(Unquoted(value, false));
    for index := 0 to |value|
      invariant Unquoted(value, false) == PrependAll(boundary, Unquoted(value[index..], escaped))
    {
      var byte := value[index];
      assert value[index..][0] == byte && value[index..][1..] == value[index + 1..];
      PrependAllStep(boundary, byte, Unquoted(value[index + 1..], false));
      if escaped {
        boundary := boundary + [byte];
        escaped := false;
      } else if byte == '\\' {
        escaped := true;
      } else if byte == '"' {
        assert boundary + "" == boundary;
        return Some(boundary);
      } else {
        boundary := boundary + [byte];
      }
    }
    return None;
  }

  function WordLength(s: string): (n: nat)
    ensures n <= |s|
  {
    if s == "" || IsAsciiWhitespace(s[0]) then 0 else 1 + WordLength(s[1..])
  }

  /** `boundary_parameter_value`. */
  function BoundaryParameterValue(parameter: string): (r: Option<string>) {
    var p := Trim(parameter);
    var n := TokenLength(p);
    if !EqualsIgnoreCase(p[..n], "boundary") then None
    else
      var afterName := Trim(p[n..]);
      if !StartsWith(afterName, "=") then None
      else
        var value := Trim(afterName[1..]);
        if StartsWith(value, "\"") then Unquoted(value[1..], false)
        else Some(value[..WordLength(value)])
  }

  /** The loop of `mime_boundary_parameter` over the parameter section. */
  function FirstBoundary(section: string): (r: Option<string>)
    decreases |section|
  {
    match NextParameterOf(section)
    case None => None
    case Some((parameter, rest)) =>
      if BoundaryParameterValue(parameter).Some? then BoundaryParameterValue(parameter) else FirstBoundary(rest)
  }

  function BoundaryOf(line: string): (r: Option<string>) {
    match MultipartParameterSection(line)
    case None => None
    case Some(section) => FirstBoundary(section)
  }

  method MimeBoundaryParameter(line: string) returns (r: Option<string>)
    ensures r == BoundaryOf(line)
  {
    var parameters := MultipartParameterSection(line);
    if parameters.None? {
      return None;
    }
    var remaining := parameters.value;
    while true
      invariant FirstBoundary(parameters.value) == FirstBoundary(remaining)
      decreases |remaining|
    {
      var next := NextParameter(remaining);
      if next.None? {
        return None;
      }
      var boundary := BoundaryParameterValue(next.value.0);
      if boundary.Some? {
        return boundary;
      }
      remaining := next.value.1;
    }
  }

  // ---------------------------------------------------------------- the printer

  datatype Value = Token(text: string) | Quoted(text: string)

  /** One parameter with the optional blanks a tolerant reader accepts around it. */
  datatype Parameter = Parameter(lead: string, name: string, beforeEq: string, afterEq: string,
                                 value: Value, trail: string)

  /** "field : multipart / subtype", with blanks. */
  datatype Head = Head(field: string, lead: string, mediaType: string, beforeSlash: string, afterSlash: string,
                       subtype: string, trail: string)

  /** Quoted pairs for the quote and the backslash; everything else is literal. */
  function Escape(s: string): string {
    if s == "" then ""
    else if s[0] == '"' || s[0] == '\\' then "\\" + [s[0]] + Escape(s[1..])
    else [s[0]] + Escape(s[1..])
  }

  function PrintValue(v: Value): string {
    match v
    case Token(text) => text
    case Quoted(text) => "\"" + (Escape(text) + "\"")
  }

  function PrintBody(p: Parameter): string {
    p.lead + (p.name + (p.beforeEq + ("=" + (p.afterEq + (PrintValue(p.value) + p.trail)))))
  }

  function PrintAll(ps: seq<Parameter>): string {
    if ps == [] then "" else ";" + (PrintBody(ps[0]) + PrintAll(ps[1..]))
  }

  function PrintHead(h: Head): string {
    h.field + (":" + (h.lead + (h.mediaType + (h.beforeSlash + ("/" + (h.afterSlash + (h.subtype + h.trail)))))))
  }

  predicate AllBlank(s: string) {
    forall i :: 0 <= i < |s| ==> s[i] == ' ' || s[i] == '\t'
  }

  const WHITE := " \t\n\r\U{0C}"

  predicate AllWhite(s: string) {
    forall i :: 0 <= i < |s| ==> s[i] in WHITE
  }

  /** Characters that may stand outside quotes inside a name. */
  predicate IsPlain(c: char) {
    c !in WHITE && c !in "/;=\""
  }

  predicate AllPlain(s: string) {
    forall i :: 0 <= i < |s| ==> IsPlain(s[i])
  }

  /** An unquoted value may hold '/' and '=' (sloppy, but harmless), never ';', '"' or blanks. */
  predicate GoodValue(v: Value) {
    v.Token? ==> forall i :: 0 <= i < |v.text| ==> v.text[i] !in WHITE && v.text[i] !in ";\""
  }

  predicate GoodParameter(p: Parameter) {
    && AllWhite(p.lead) && AllBlank(p.beforeEq) && AllWhite(p.afterEq) && AllWhite(p.trail)
    && AllPlain(p.name)
    && GoodValue(p.value)
  }

  predicate GoodParameters(ps: seq<Parameter>) {
    forall i :: 0 <= i < |ps| ==> GoodParameter(ps[i])
  }

  /** A header line of the right shape, whatever its media type. */
  predicate GoodShape(h: Head) {
    && ':' !in h.field
    && AllWhite(h.lead) && AllBlank(h.beforeSlash) && AllWhite(h.afterSlash) && AllBlank(h.trail)
    && AllPlain(h.mediaType) && AllPlain(h.subtype)
  }

  /** The media type is multipart, in letters of either case, with some subtype. */
  predicate IsMultipart(h: Head) {
    InEitherCase(h.mediaType, "multipart", "MULTIPART") && h.subtype != ""
  }

  predicate NamesBoundary(name: string) {
    InEitherCase(name, "boundary", "BOUNDARY")
  }

  /** What a reader of the parameters is meant to find: the first one named "boundary". */
  function DeclaredBoundary(ps: seq<Parameter>): (r: Option<string>) {
    if ps == [] then None
    else if NamesBoundary(ps[0].name) then Some(ps[0].value.text)
    else DeclaredBoundary(ps[1..])
  }

  // ---------------------------------------------------------------- letter case

  /** `capital` is `small` in capitals, character by character. */
  predicate Capitals(small: string, capital: string) {
    |small| == |capital| && forall i :: 0 <= i < |small| ==> LetterPair(small[i], capital[i])
  }

  predicate LetterPair(c: char, d: char) {
    ('a' <= c <= 'z' && d == c - 'a' + 'A') || (c == d && LowerChar(c) == c && !('a' <= c <= 'z'))
  }

  lemma LetterPairIff(c: char, d: char, e: char)
    requires LetterPair(c, d)
    ensures LowerChar(e) == LowerChar(c) <==> e == c || e == d
  {
  }

  lemma EitherCaseIff(s: string, small: string, capital: string)
    requires Capitals(small, capital)
    ensures EqualsIgnoreCase(s, small) <==> InEitherCase(s, small, capital)
  {
    hide LowerChar, LetterPair;
    if |s| == |small| {
      forall i | 0 <= i < |s|
        ensures Lower(s)[i] == Lower(small)[i] <==> s[i] == small[i] || s[i] == capital[i]
      {
        LetterPairIff(small[i], capital[i], s[i]);
      }
      if !InEitherCase(s, small, capital) {
        var i :| 0 <= i < |s| && !(s[i] == small[i] || s[i] == capital[i]);
        assert Lower(s)[i] != Lower(small)[i];
      } else {
        assert forall i :: 0 <= i < |s| ==> Lower(s)[i] == Lower(small)[i];
      }
    } else {
      assert |Lower(s)| != |Lower(small)|;
    }
  }

  /** The two words the scanner looks for are recognised in letters of either case, and nothing
      else is. */
  lemma WordsAreRecognised(s: string)
    ensures EqualsIgnoreCase(s, "multipart") <==> InEitherCase(s, "multipart", "MULTIPART")
    ensures EqualsIgnoreCase(s, "boundary") <==> InEitherCase(s, "boundary", "BOUNDARY")
  {
    EitherCaseIff(s, "multipart", "MULTIPART");
    EitherCaseIff(s, "boundary", "BOUNDARY");
  }

  // ---------------------------------------------------------------- trimming lemmas

  lemma {:induction false} TrimStartBlank(a: string, b: string)
    requires AllWhite(a)
    ensures TrimStart(a + b) == TrimStart(b)
  {
    if a == "" {
      assert a + b == b;
    } else {
      assert (a + b)[1..] == a[1..] + b;
      TrimStartBlank(a[1..], b);
    }
  }

  lemma {:induction false} TrimEndBlank(a: string, b: string)
    requires forall i :: 0 <= i < |b| ==> IsAsciiWhitespace(b[i])
    ensures TrimEnd(a + b) == TrimEnd(a)
  {
    if b == "" {
      assert a + b == a;
    } else {
      assert (a + b)[..|a + b| - 1] == a + b[..|b| - 1];
      TrimEndBlank(a, b[..|b| - 1]);
    }
  }

  lemma TrimStartSolid(s: string)
    requires s == "" || !IsAsciiWhitespace(s[0])
    ensures TrimStart(s) == s
  {
  }

  /** Everything up to and including a solid character survives trimming the end. */
  lemma {:induction false} TrimEndKeeps(a: string, c: char, b: string)
    requires !IsAsciiWhitespace(c)
    ensures TrimEnd(a + ([c] + b)) == a + ([c] + TrimEnd(b))
  {
    var s := a + ([c] + b);
    if b == "" {
      assert s == a + [c];
    } else if IsAsciiWhitespace(b[|b| - 1]) {
      assert s[..|s| - 1] == a + ([c] + b[..|b| - 1]);
      TrimEndKeeps(a, c, b[..|b| - 1]);
    } else {
      assert s[|s| - 1] == b[|b| - 1];
    }
  }

  lemma TrimEndKeepsWord(a: string, word: string, b: string)
    requires word != "" && !IsAsciiWhitespace(word[|word| - 1])
    ensures TrimEnd(a + (word + b)) == a + (word + TrimEnd(b))
  {
    var k := |word| - 1;
    assert word == word[..k] + [word[k]];
    assert a + (word + b) == (a + word[..k]) + ([word[k]] + b);
    TrimEndKeeps(a + word[..k], word[k], b);
    assert (a + word[..k]) + ([word[k]] + TrimEnd(b)) == a + (word + TrimEnd(b));
  }

  /** Trimming a solid word with blanks around it gives the word. */
  lemma TrimAround(lead: string, word: string, trail: string)
    requires AllWhite(lead) && AllWhite(trail)
    requires word != "" ==> !IsAsciiWhitespace(word[0]) && !IsAsciiWhitespace(word[|word| - 1])
    ensures Trim(TrimEnd(lead + (word + trail))) == word
  {
    TrimEndBlank("", trail);
    assert "" + trail == trail;
    if word == "" {
      assert lead + (word + trail) == lead + trail;
      TrimEndBlank(lead, trail);
      TrimEndBlank("", lead);
      assert "" + lead == lead;
    } else {
      TrimEndKeepsWord(lead, word, trail);
      assert word + "" == word;
      TrimStartBlank(lead, word);
    }
  }

  lemma {:induction false} TrimEndIsPrefix(s: string)
    ensures |TrimEnd(s)| <= |s| && TrimEnd(s) == s[..|TrimEnd(s)|]
    ensures forall i :: |TrimEnd(s)| <= i < |s| ==> IsAsciiWhitespace(s[i])
  {
    if s != "" && IsAsciiWhitespace(s[|s| - 1]) {
      TrimEndIsPrefix(s[..|s| - 1]);
    } else {
      assert s == s[..|s|];
    }
  }

  lemma {:induction false} TrimEndIdempotent(s: string)
    ensures TrimEnd(TrimEnd(s)) == TrimEnd(s)
  {
    if s != "" && IsAsciiWhitespace(s[|s| - 1]) {
      TrimEndIdempotent(s[..|s| - 1]);
    }
  }

  // ---------------------------------------------------------------- scanning lemmas

  lemma {:induction false} TokenLengthOf(a: string, b: string)
    requires forall i :: 0 <= i < |a| ==> !IsTokenEnd(a[i])
    requires b == "" || IsTokenEnd(b[0])
    ensures TokenLength(a + b) == |a|
  {
    if a == "" {
      assert a + b == b;
    } else {
      assert (a + b)[1..] == a[1..] + b;
      TokenLengthOf(a[1..], b);
    }
  }

  lemma {:induction false} WordLengthOf(a: string, b: string)
    requires forall i :: 0 <= i < |a| ==> !IsAsciiWhitespace(a[i])
    requires b == "" || IsAsciiWhitespace(b[0])
    ensures WordLength(a + b) == |a|
  {
    if a == "" {
      assert a + b == b;
    } else {
      assert (a + b)[1..] == a[1..] + b;
      WordLengthOf(a[1..], b);
    }
  }

  /** Outside quotes, text without quotes or semicolons is passed over unchanged. */
  lemma {:induction false} ParameterLengthPlain(a: string, b: string)
    requires ';' !in a && '"' !in a
    ensures ParameterLength(a + b, false, false) == |a| + ParameterLength(b, false, false)
  {
    if a == "" {
      assert a + b == b;
    } else {
      assert (a + b)[1..] == a[1..] + b;
      ParameterLengthPlain(a[1..], b);
    }
  }

  /** Inside quotes, an escaped text is passed over up to its closing quote. */
  lemma {:induction false} ParameterLengthQuoted(t: string, b: string)
    ensures ParameterLength(Escape(t) + ("\"" + b), true, false)
         == |Escape(t)| + 1 + ParameterLength(b, false, false)
  {
    var s := Escape(t) + ("\"" + b);
    if t == "" {
      assert s == "\"" + b;
      assert s[1..] == b;
    } else {
      ParameterLengthQuoted(t[1..], b);
      var u := Escape(t[1..]) + ("\"" + b);
      if t[0] == '"' || t[0] == '\\' {
        assert s[1..][1..] == u;
      } else {
        assert s[1..] == u;
      }
    }
  }

  lemma {:induction false} UnquotedEscape(t: string, b: string)
    ensures Unquoted(Escape(t) + ("\"" + b), false) == Some(t)
  {
    var s := Escape(t) + ("\"" + b);
    if t == "" {
      assert s == "\"" + b;
    } else {
      UnquotedEscape(t[1..], b);
      var u := Escape(t[1..]) + ("\"" + b);
      if t[0] == '"' || t[0] == '\\' {
        assert s[1..][1..] == u;
      } else {
        assert s[1..] == u;
      }
      assert t == [t[0]] + t[1..];
    }
  }

  /** Trailing blanks never change which boundary is found. */
  lemma {:induction false} ParameterLengthTrailing(s: string, ws: string, quoted: bool, escaped: bool)
    requires forall i :: 0 <= i < |ws| ==> IsAsciiWhitespace(ws[i])
    ensures ParameterLength(s + ws, quoted, escaped)
         == if ParameterLength(s, quoted, escaped) < |s| then ParameterLength(s, quoted, escaped) else |s + ws|
  {
    if s == "" {
      assert s + ws == ws;
      ParameterLengthOfBlank(ws, quoted, escaped);
    } else {
      assert (s + ws)[1..] == s[1..] + ws;
      if s[0] == '\\' && quoted {
        ParameterLengthTrailing(s[1..], ws, quoted, !escaped);
      } else if s[0] == '"' && !escaped {
        ParameterLengthTrailing(s[1..], ws, !quoted, escaped);
      } else if s[0] == ';' && !quoted {
      } else {
        ParameterLengthTrailing(s[1..], ws, quoted, false);
      }
    }
  }

  lemma {:induction false} ParameterLengthOfBlank(ws: string, quoted: bool, escaped: bool)
    requires forall i :: 0 <= i < |ws| ==> IsAsciiWhitespace(ws[i])
    ensures ParameterLength(ws, quoted, escaped) == |ws|
  {
    if ws != "" {
      ParameterLengthOfBlank(ws[1..], quoted, false);
    }
  }

  /** The parameter scan gives the same answer on a section with trailing whitespace. */
  lemma {:induction false} FirstBoundaryTrailing(s: string, ws: string)
    requires forall i :: 0 <= i < |ws| ==> IsAsciiWhitespace(ws[i])
    ensures FirstBoundary(s + ws) == FirstBoundary(s)
    decreases |s|
  {
    hide ParameterLength, IndexOf, BoundaryParameterValue, IsAsciiWhitespace;
    IndexOfTrailing(s, ws);
    var start := IndexOf(s, ';');
    if start < |s| {
      var v := s[start + 1..];
      assert (s + ws)[start + 1..] == v + ws;
      ParameterLengthTrailing(v, ws, false, false);
      var n := ParameterLength(v, false, false);
      if n < |v| {
        assert (v + ws)[..n] == v[..n] && (v + ws)[n..] == v[n..] + ws;
        FirstBoundaryTrailing(v[n..], ws);
      } else {
        assert (v + ws)[..|v + ws|] == v + ws && v[..n] == v && v[n..] == "" && (v + ws)[|v + ws|..] == "";
        SameBoundaryValue(v, ws);
      }
    }
  }

  lemma SameBoundaryValue(v: string, ws: string)
    requires forall i :: 0 <= i < |ws| ==> IsAsciiWhitespace(ws[i])
    ensures BoundaryParameterValue(v + ws) == BoundaryParameterValue(v)
  {
    TrimOfTrailing(v, ws);
  }

  lemma {:induction false} TrimOfTrailing(v: string, ws: string)
    requires forall i :: 0 <= i < |ws| ==> IsAsciiWhitespace(ws[i])
    ensures Trim(v + ws) == Trim(v)
  {
    if v == "" {
      assert v + ws == ws;
      TrimStartOfWhitespace(ws);
    } else if IsAsciiWhitespace(v[0]) {
      assert (v + ws)[1..] == v[1..] + ws;
      TrimOfTrailing(v[1..], ws);
    } else {
      TrimEndBlank(v, ws);
    }
  }

  lemma {:induction false} TrimStartOfWhitespace(ws: string)
    requires forall i :: 0 <= i < |ws| ==> IsAsciiWhitespace(ws[i])
    ensures TrimStart(ws) == ""
  {
    if ws != "" {
      TrimStartOfWhitespace(ws[1..]);
    }
  }

  lemma {:induction false} IndexOfTrailing(s: string, ws: string)
    requires forall i :: 0 <= i < |ws| ==> IsAsciiWhitespace(ws[i])
    ensures IndexOf(s + ws, ';') == if IndexOf(s, ';') < |s| then IndexOf(s, ';') else |s + ws|
  {
    if s == "" {
      assert s + ws == ws;
      var i := IndexOf(ws, ';');
    } else {
      assert (s + ws)[1..] == s[1..] + ws;
      if s[0] != ';' {
        IndexOfTrailing(s[1..], ws);
      }
    }
  }

  lemma {:induction false} IndexOfAfter(a: string, c: char, b: string)
    requires c !in a
    ensures IndexOf(a + ([c] + b), c) == |a|
    ensures (a + ([c] + b))[|a| + 1..] == b
  {
    var s := a + ([c] + b);
    if a != "" {
      assert s[1..] == a[1..] + ([c] + b);
      IndexOfAfter(a[1..], c, b);
    }
  }

  // ---------------------------------------------------------------- one printed parameter

  lemma BodyIsOneParameter(p: Parameter, rest: string)
    requires GoodParameter(p)
    requires rest == "" || rest[0] == ';'
    ensures ParameterLength(PrintBody(p) + rest, false, false) == |PrintBody(p)|
  {
    hide ParameterLength;
    var prefix := p.lead + (p.name + (p.beforeEq + ("=" + p.afterEq)));
    var after := PrintValue(p.value) + (p.trail + rest);
    assert PrintBody(p) + rest == prefix + after;
    PrefixIsPlain(p);
    ParameterLengthPlain(prefix, after);
    assert ';' !in p.trail && '"' !in p.trail;
    ParameterLengthPlain(p.trail, rest);
    assert ParameterLength(rest, false, false) == 0 by {
      ParameterLengthEnds(rest);
    }
    match p.value {
      case Token(text) =>
        ParameterLengthPlain(text, p.trail + rest);
      case Quoted(text) =>
        var inner := Escape(text) + ("\"" + (p.trail + rest));
        assert after == "\"" + inner;
        ParameterLengthQuoted(text, p.trail + rest);
        ParameterLengthOpens(inner);
    }
  }

  lemma PrefixIsPlain(p: Parameter)
    requires GoodParameter(p)
    ensures var prefix := p.lead + (p.name + (p.beforeEq + ("=" + p.afterEq))); ';' !in prefix && '"' !in prefix
  {
  }

  lemma ParameterLengthEnds(rest: string)
    requires rest == "" || rest[0] == ';'
    ensures ParameterLength(rest, false, false) == 0
  {
  }

  lemma ParameterLengthOpens(inner: string)
    ensures ParameterLength("\"" + inner, false, false) == 1 + ParameterLength(inner, true, false)
  {
    assert ("\"" + inner)[1..] == inner;
  }

  /** Reading one printed parameter gives its value exactly when it is named "boundary". */
  lemma BodyValue(p: Parameter)
    requires GoodParameter(p)
    ensures BoundaryParameterValue(PrintBody(p))
         == if NamesBoundary(p.name) then Some(p.value.text) else None
  {
    var y := p.afterEq + (PrintValue(p.value) + p.trail);
    WordsAreRecognised(p.name);
    TrimmedBody(p, y);
    if p.name != "" {
      var q := p.name + (p.beforeEq + ("=" + TrimEnd(y)));
      assert (p.beforeEq + ("=" + TrimEnd(y)))[0] == if p.beforeEq == "" then '=' else p.beforeEq[0];
      TokenLengthOf(p.name, p.beforeEq + ("=" + TrimEnd(y)));
      assert q[..|p.name|] == p.name && q[|p.name|..] == p.beforeEq + ("=" + TrimEnd(y));
      if NamesBoundary(p.name) {
        AfterName(p, y);
      }
    } else {
      TokenLengthOf("", "=" + TrimEnd(y));
      assert "" + ("=" + TrimEnd(y)) == "=" + TrimEnd(y);
    }
  }

  lemma TrimmedBody(p: Parameter, y: string)
    requires GoodParameter(p)
    requires y == p.afterEq + (PrintValue(p.value) + p.trail)
    ensures Trim(PrintBody(p)) == if p.name == "" then "=" + TrimEnd(y) else p.name + (p.beforeEq + ("=" + TrimEnd(y)))
  {
    hide TrimEnd, TrimStart;
    var x := p.name + (p.beforeEq + ("=" + y));
    TrimStartBlank(p.lead, x);
    if p.name == "" {
      assert x == p.beforeEq + ("=" + y);
      TrimStartBlank(p.beforeEq, "=" + y);
      TrimStartSolid("=" + y);
      TrimEndKeeps("", '=', y);
      assert "" + ("=" + y) == "=" + y && "" + ("=" + TrimEnd(y)) == "=" + TrimEnd(y);
    } else {
      TrimStartSolid(x);
      assert x == (p.name + p.beforeEq) + ("=" + y);
      TrimEndKeeps(p.name + p.beforeEq, '=', y);
      assert (p.name + p.beforeEq) + ("=" + TrimEnd(y)) == p.name + (p.beforeEq + ("=" + TrimEnd(y)));
    }
  }

  lemma AfterName(p: Parameter, y: string)
    requires GoodParameter(p)
    requires y == p.afterEq + (PrintValue(p.value) + p.trail)
    ensures var afterName := Trim(p.beforeEq + ("=" + TrimEnd(y)));
            && StartsWith(afterName, "=")
            && Trim(afterName[1..]) == PrintValue(p.value)
    ensures ReadsBack(p.value)
  {
    hide TrimEnd, TrimStart;
    TrimStartBlank(p.beforeEq, "=" + TrimEnd(y));
    TrimStartSolid("=" + TrimEnd(y));
    TrimEndIdempotent(y);
    TrimEndKeeps("", '=', TrimEnd(y));
    assert "" + ("=" + TrimEnd(y)) == "=" + TrimEnd(y);
    assert ("=" + TrimEnd(y))[1..] == TrimEnd(y);
    TrimAround(p.afterEq, PrintValue(p.value), p.trail);
    ValueReadsBack(p.value);
  }

  /** The last step of `boundary_parameter_value`, on the printed value. */
  predicate ReadsBack(v: Value) {
    var value := PrintValue(v);
    if StartsWith(value, "\"") then Unquoted(value[1..], false) == Some(v.text)
    else v.text == value[..WordLength(value)]
  }

  lemma ValueReadsBack(v: Value)
    requires GoodValue(v)
    ensures ReadsBack(v)
  {
    match v {
      case Token(text) =>
        WordLengthOf(text, "");
        assert text + "" == text;
        if text != "" {
          assert text[..1][0] == text[0];
        }
      case Quoted(text) =>
        UnquotedEscape(text, "");
        assert PrintValue(v)[1..] == Escape(text) + ("\"" + "");
    }
  }

  // ---------------------------------------------------------------- the theorem

  lemma {:induction false} FirstBoundaryOfPrinted(ps: seq<Parameter>, tail: string)
    requires GoodParameters(ps)
    requires tail == "" || tail[0] == ';'
    ensures FirstBoundary(PrintAll(ps) + tail)
         == if DeclaredBoundary(ps).Some? then DeclaredBoundary(ps) else FirstBoundary(tail)
  {
    if ps == [] {
      assert PrintAll(ps) + tail == tail;
    } else {
      FirstBoundaryOfPrinted(ps[1..], tail);
      FirstBoundaryStep(ps[0], PrintAll(ps[1..]) + tail);
      PrintAllStep(ps, tail);
    }
  }

  lemma PrintAllStep(ps: seq<Parameter>, tail: string)
    requires ps != []
    ensures PrintAll(ps) + tail == ";" + (PrintBody(ps[0]) + (PrintAll(ps[1..]) + tail))
  {
    hide PrintBody;
  }

  lemma FirstBoundaryStep(p: Parameter, rest: string)
    requires GoodParameter(p)
    requires rest == "" || rest[0] == ';'
    ensures FirstBoundary(";" + (PrintBody(p) + rest))
         == if NamesBoundary(p.name) then Some(p.value.text) else FirstBoundary(rest)
  {
    hide PrintBody, NextParameterOf, BoundaryParameterValue;
    NextOfPrinted(p, rest);
    BodyValue(p);
  }

  lemma NextOfPrinted(p: Parameter, rest: string)
    requires GoodParameter(p)
    requires rest == "" || rest[0] == ';'
    ensures NextParameterOf(";" + (PrintBody(p) + rest)) == Some((PrintBody(p), rest))
  {
    BodyIsOneParameter(p, rest);
    var value := PrintBody(p) + rest;
    IndexOfAfter("", ';', value);
    assert "" + (";" + value) == ";" + value;
    assert value[..|PrintBody(p)|] == PrintBody(p) && value[|PrintBody(p)|..] == rest;
  }

  lemma IndexOfSkips(a: string, x: string)
    requires ';' !in a && (x == "" || x[0] == ';')
    ensures FirstBoundary(a + x) == FirstBoundary(x)
  {
    hide ParameterLength, IndexOf, BoundaryParameterValue;
    if x == "" {
      assert a + x == a;
    } else {
      IndexOfAfter(a, ';', x[1..]);
      IndexOfAfter("", ';', x[1..]);
      assert a + x == a + (";" + x[1..]) && x == "" + (";" + x[1..]);
    }
  }

  /** The section found for a printed header, up to trailing whitespace: none unless it is
      multipart. */
  lemma SectionOfPrinted(h: Head, x: string)
    requires GoodShape(h)
    requires x == "" || x[0] == ';'
    ensures MultipartParameterSection(PrintHead(h) + x) == if IsMultipart(h) then Some(TrimEnd(h.trail + x)) else None
  {
    hide TrimEnd, TrimStart, TokenLength, IndexOf, InEitherCase, EqualsIgnoreCase;
    var w := h.trail + x;
    var z := h.afterSlash + (h.subtype + w);
    var y := h.lead + (h.mediaType + (h.beforeSlash + ("/" + z)));
    assert PrintHead(h) + x == h.field + (":" + y);
    IndexOfAfter(h.field, ':', y);
    ValueOfPrinted(h, w);
    WordsAreRecognised(h.mediaType);
    if h.mediaType == "" {
      NoMediaType(z);
    } else {
      var value := h.mediaType + (h.beforeSlash + ("/" + TrimEnd(z)));
      TokenLengthOf(h.mediaType, h.beforeSlash + ("/" + TrimEnd(z)));
      assert value[..|h.mediaType|] == h.mediaType;
      assert value[|h.mediaType|..] == h.beforeSlash + ("/" + TrimEnd(z));
      SubtypeOfPrinted(h, w);
      assert ("/" + TrimEnd(z))[1..] == TrimEnd(z);
      if h.subtype == "" {
        NoSubtype(h, x);
      } else {
        TrimEndIsPrefix(w);
        TokenLengthOf(h.subtype, TrimEnd(w));
        assert (h.subtype + TrimEnd(w))[|h.subtype|..] == TrimEnd(w);
      }
    }
  }

  /** A value that starts with its slash has an empty media type. */
  lemma NoMediaType(z: string)
    ensures TokenLength("/" + TrimEnd(z)) == 0 && !EqualsIgnoreCase("", "multipart")
    ensures ("/" + TrimEnd(z))[..0] == ""
  {
    assert |Lower("")| != |Lower("multipart")|;
  }

  lemma NoSubtype(h: Head, x: string)
    requires GoodShape(h) && h.subtype == "" && (x == "" || x[0] == ';')
    ensures TokenLength(Trim(TrimEnd(h.afterSlash + (h.subtype + (h.trail + x))))) == 0
  {
    hide TrimEnd, TrimStart;
    var y := h.trail + x;
    assert h.afterSlash + (h.subtype + y) == h.afterSlash + y;
    TrimOfTrimEnd(h.afterSlash + y);
    TrimStartBlank(h.afterSlash, y);
    TrimStartBlank(h.trail, x);
    TrimStartSolid(x);
    TrimEndIsPrefix(x);
  }

  lemma TrimOfTrimEnd(s: string)
    ensures Trim(TrimEnd(s)) == Trim(s)
  {
    hide TrimStart, IsAsciiWhitespace;
    TrimEndIsPrefix(s);
    var n := |TrimEnd(s)|;
    assert s == TrimEnd(s) + s[n..];
    TrimOfTrailing(TrimEnd(s), s[n..]);
  }

  lemma ValueOfPrinted(h: Head, w: string)
    requires GoodShape(h)
    ensures var z := h.afterSlash + (h.subtype + w);
            Trim(h.lead + (h.mediaType + (h.beforeSlash + ("/" + z))))
            == if h.mediaType == "" then "/" + TrimEnd(z) else h.mediaType + (h.beforeSlash + ("/" + TrimEnd(z)))
  {
    hide TrimEnd, TrimStart;
    var z := h.afterSlash + (h.subtype + w);
    var v := h.mediaType + (h.beforeSlash + ("/" + z));
    TrimStartBlank(h.lead, v);
    if h.mediaType == "" {
      assert v == h.beforeSlash + ("/" + z);
      TrimStartBlank(h.beforeSlash, "/" + z);
      TrimStartSolid("/" + z);
      TrimEndKeeps("", '/', z);
      assert "" + ("/" + z) == "/" + z && "" + ("/" + TrimEnd(z)) == "/" + TrimEnd(z);
    } else {
      assert IsPlain(v[0]);
      TrimStartSolid(v);
      assert v == (h.mediaType + h.beforeSlash) + ("/" + z);
      TrimEndKeeps(h.mediaType + h.beforeSlash, '/', z);
      assert (h.mediaType + h.beforeSlash) + ("/" + TrimEnd(z)) == h.mediaType + (h.beforeSlash + ("/" + TrimEnd(z)));
    }
  }

  lemma SubtypeOfPrinted(h: Head, w: string)
    requires GoodShape(h)
    ensures var z := h.afterSlash + (h.subtype + w);
            && Trim(h.beforeSlash + ("/" + TrimEnd(z))) == "/" + TrimEnd(z)
            && (h.subtype != "" ==> Trim(TrimEnd(z)) == h.subtype + TrimEnd(w))
  {
    hide TrimEnd, TrimStart;
    var z := h.afterSlash + (h.subtype + w);
    TrimStartBlank(h.beforeSlash, "/" + TrimEnd(z));
    TrimStartSolid("/" + TrimEnd(z));
    TrimEndIdempotent(z);
    TrimEndKeeps("", '/', TrimEnd(z));
    assert "" + ("/" + TrimEnd(z)) == "/" + TrimEnd(z);
    if h.subtype != "" {
      assert IsPlain(h.subtype[0]) && IsPlain(h.subtype[|h.subtype| - 1]);
      TrimEndKeepsWord(h.afterSlash, h.subtype, w);
      var t := h.subtype + TrimEnd(w);
      TrimStartBlank(h.afterSlash, t);
      TrimStartSolid(t);
      TrimEndIdempotent(w);
      TrimEndKeepsWord("", h.subtype, TrimEnd(w));
      assert "" + t == t;
    }
  }

  lemma PrintedStart(ps: seq<Parameter>, tail: string)
    requires tail == "" || tail[0] == ';'
    ensures var x := PrintAll(ps) + tail; x == "" || x[0] == ';'
  {
  }

  lemma NothingToScan()
    ensures FirstBoundary("") == None
  {
  }

  /** The scanner inverts the printer: whatever the other parameters hold inside their quotes
      (semicolons, escaped quotes, text that looks like "boundary="), it returns the value of
      the first parameter named "boundary", and None when there is none or the media type is not
      multipart. */
  lemma BoundaryOfPrinted(h: Head, ps: seq<Parameter>, tail: string)
    requires GoodShape(h) && GoodParameters(ps)
    requires tail == "" || tail[0] == ';'
    ensures IsMultipart(h) && DeclaredBoundary(ps).Some? ==>
              BoundaryOf(PrintHead(h) + (PrintAll(ps) + tail)) == DeclaredBoundary(ps)
    ensures IsMultipart(h) && tail == "" ==> BoundaryOf(PrintHead(h) + (PrintAll(ps) + tail)) == DeclaredBoundary(ps)
    ensures !IsMultipart(h) ==> BoundaryOf(PrintHead(h) + (PrintAll(ps) + tail)) == None
  {
    hide MultipartParameterSection, FirstBoundary, PrintHead, PrintAll, TrimEnd, DeclaredBoundary, IsMultipart;
    var x := PrintAll(ps) + tail;
    assert x == "" || x[0] == ';' by {
      PrintedStart(ps, tail);
    }
    var w := h.trail + x;
    SectionOfPrinted(h, x);
    TrimEndIsPrefix(w);
    var n := |TrimEnd(w)|;
    assert w == TrimEnd(w) + w[n..];
    FirstBoundaryTrailing(TrimEnd(w), w[n..]);
    IndexOfSkips(h.trail, x);
    FirstBoundaryOfPrinted(ps, tail);
    NothingToScan();
  }
}
