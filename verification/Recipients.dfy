/**
 Address lists of recipients.ts: the splitter, the parser and the printer the composer uses.

 Printing a list, joining it with commas and splitting it yields the printed addresses if and
 only if no name is taken for that of a group and every name closes what it opens
 (`SplitInvertsJoin`), as quoted names without a colon or a backslash do, whatever commas, semicolons,
 quotes and brackets they hold; then parsing yields the list, except for names that end in a comment
 (`PrintedListReadsBack`).
 */
module Recipients {
  import opened AsciiText
  import opened Basics
  import opened JavaScriptText
  import opened Options

  datatype MailAddress = MailAddress(name: Option<string>, address: string)

  predicate IsLineTerminator(c: char) {
    c == '\n' || c == '\r' || c == '\U{2028}' || c == '\U{2029}'
  }

  predicate HasLineTerminator(s: string) {
    exists i :: 0 <= i < |s| && IsLineTerminator(s[i])
  }

  function LastIndexOf(s: string, c: char): (i: Option<nat>)
    ensures i.Some? ==> i.value < |s| && s[i.value] == c && c !in s[i.value + 1..]
    ensures i.None? ==> c !in s
  {
    if s == "" then None
    else if s[|s| - 1] == c then Some(|s| - 1)
    else LastIndexOf(s[..|s| - 1], c)
  }

  // ---------------------------------------------------------------- the splitter

  /** The local variables of `splitHeaderList`. */
  datatype SplitState = SplitState(parts: seq<string>, current: string, quoted: bool, escaped: bool,
                                   angleDepth: nat, commentDepth: nat)

  function StripGroupPrefix(value: string): string {
    var colon := IndexOf(value, ':');
    if colon < |value| && '@' !in value[..colon] then Trim(value[colon + 1..]) else Trim(value)
  }

  function Flush(parts: seq<string>, current: string): seq<string> {
    if Trim(current) != "" then parts + [StripGroupPrefix(current)] else parts
  }

  function Down(depth: nat): nat {
    if depth > 0 then depth - 1 else 0
  }

  /** One round of its loop. */
  function Take(st: SplitState, c: char): SplitState {
    if st.escaped then st.(current := st.current + [c], escaped := false)
    else if c == '\\' && st.quoted then st.(current := st.current + [c], escaped := true)
    else
      var quoted := if c == '"' then !st.quoted else st.quoted;
      var angleDepth := if quoted then st.angleDepth
                        else if c == '<' then st.angleDepth + 1
                        else if c == '>' then Down(st.angleDepth)
                        else st.angleDepth;
      var commentDepth := if quoted then st.commentDepth
                          else if c == '(' then st.commentDepth + 1
                          else if c == ')' then Down(st.commentDepth)
                          else st.commentDepth;
      if (c == ',' || c == ';') && !quoted && angleDepth == 0 && commentDepth == 0 then
        SplitState(Flush(st.parts, st.current), "", quoted, false, angleDepth, commentDepth)
      else
        SplitState(st.parts, st.current + [c], quoted, false, angleDepth, commentDepth)
  }

  function Scan(st: SplitState, s: string): SplitState
    decreases |s|
  {
    if s == "" then st else Scan(Take(st, s[0]), s[1..])
  }

  const START := SplitState([], "", false, false, 0, 0)

  function SplitHeaderList(value: string): seq<string> {
    var st := Scan(START, value);
    Flush(st.parts, st.current)
  }

  lemma ScanRound(st: SplitState, s: string, i: nat)
    requires i < |s|
    ensures Scan(st, s[i..]) == Scan(Take(st, s[i]), s[i + 1..])
  {
    hide Take;
    assert s[i..][1..] == s[i + 1..];
  }

  lemma ScanNothing(st: SplitState)
    ensures Scan(st, "") == st
  {
  }

  method SplitAddressValues(value: string) returns (parts: seq<string>)
    ensures parts == SplitHeaderList(value)
  {
    hide Scan, Trim, StripGroupPrefix;
    parts := [];
    var current, quoted, escaped := "", false, false;
    var angleDepth: nat, commentDepth: nat := 0, 0;
    for i := 0 to |value|
      invariant Scan(START, value)
             == Scan(SplitState(parts, current, quoted, escaped, angleDepth, commentDepth), value[i..])
    {
      var character := value[i];
      ghost var before := SplitState(parts, current, quoted, escaped, angleDepth, commentDepth);
      ScanRound(before, value, i);
      if escaped {
        current := current + [character];
        escaped := false;
        continue;
      }
      if character == '\\' && quoted {
        current := current + [character];
        escaped := true;
        continue;
      }
      if character == '"' {
        quoted := !quoted;
      }
      if !quoted {
        if character == '<' {
          angleDepth := angleDepth + 1;
        }
        if character == '>' {
          angleDepth := Down(angleDepth);
        }
        if character == '(' {
          commentDepth := commentDepth + 1;
        }
        if character == ')' {
          commentDepth := Down(commentDepth);
        }
      }
      if (character == ',' || character == ';') && !quoted && angleDepth == 0 && commentDepth == 0 {
        if Trim(current) != "" {
          parts := parts + [StripGroupPrefix(current)];
        }
        current := "";
        continue;
      }
      current := current + [character];
    }
    assert value[|value|..] == "";
    ScanNothing(SplitState(parts, current, quoted, escaped, angleDepth, commentDepth));
    if Trim(current) != "" {
      parts := parts + [StripGroupPrefix(current)];
    }
  }

  // ---------------------------------------------------------------- the parser

  /** `^(.*?)<\s*([^<>]+)\s*>\s*$`: the text before the last `<`, and what stands between it and
      the one `>` that ends the value. */
  function AngleForm(value: string): Option<(string, string)> {
    var v := TrimEnd(value);
    if v == "" || v[|v| - 1] != '>' then None
    else
      var body := v[..|v| - 1];
      var open := LastIndexOf(body, '<');
      if open.None? then None
      else
        var inner := body[open.value + 1..];
        if inner == "" || '>' in inner || HasLineTerminator(body[..open.value]) then None
        else Some((body[..open.value], inner))
  }

  /** The characters `[^\s<>(),;]` leaves out. */
  predicate EndsToken(c: char) {
    IsSpace(c) || c == '<' || c == '>' || c == '(' || c == ')' || c == ',' || c == ';'
  }

  function AtomLength(s: string): (n: nat)
    ensures n <= |s| && (n < |s| ==> EndsToken(s[n])) && forall i :: 0 <= i < n ==> !EndsToken(s[i])
  {
    if s == "" || EndsToken(s[0]) then 0 else 1 + AtomLength(s[1..])
  }

  /** `^([^\s<>(),;]+@[^\s<>(),;]+)\s*(?:\(([^()]*)\))?\s*$` */
  function CommentForm(value: string): Option<(string, Option<string>)> {
    var n := AtomLength(value);
    var rest := Trim(value[n..]);
    if !(exists k :: 0 < k < n - 1 && value[k] == '@') then None
    else if rest == "" then Some((value[..n], None))
    else if |rest| >= 2 && rest[0] == '(' && rest[|rest| - 1] == ')'
            && '(' !in rest[1..|rest| - 1] && ')' !in rest[1..|rest| - 1]
    then Some((value[..n], Some(rest[1..|rest| - 1])))
    else None
  }

  predicate DotDomain(d: string) {
    && (forall i :: 0 <= i < |d| ==> !IsSpace(d[i]) && d[i] != '@' && d[i] != '<' && d[i] != '>')
    && exists j :: 0 < j < |d| - 1 && d[j] == '.'
  }

  predicate LiteralDomain(d: string) {
    && |d| >= 3 && d[0] == '[' && d[|d| - 1] == ']'
    && forall i :: 0 < i < |d| - 1 ==> d[i] != ']' && !IsSpace(d[i])
  }

  predicate IsUsableAddress(value: string) {
    var t := Trim(value);
    var at := IndexOf(t, '@');
    && 0 < at < |t|
    && (forall i :: 0 <= i < at ==> !IsSpace(t[i]) && t[i] != '<' && t[i] != '>')
    && (DotDomain(t[at + 1..]) || LiteralDomain(t[at + 1..]))
  }

  /** The first place from `p` on with a `(` whose comment ends where `v` does. */
  function CommentStart(v: string, p: nat): (start: nat)
    requires p <= |v|
    ensures p <= start <= |v|
    decreases |v| - p
  {
    if p == |v| then p
    else if v[p] == '(' && p < |v| - 1 && ')' !in v[p + 1..|v| - 1] then p
    else CommentStart(v, p + 1)
  }

  /** `.replace(/\([^)]*\)\s*$/, "")` */
  function RemoveTrailingComment(s: string): string {
    var v := TrimEnd(s);
    if v == "" || v[|v| - 1] != ')' || CommentStart(v, 0) == |v| then s else s[..CommentStart(v, 0)]
  }

  /** `.replace(/^"(.*)"$/, "$1")` */
  function Unquote(s: string): string {
    if |s| >= 2 && s[0] == '"' && s[|s| - 1] == '"' && !HasLineTerminator(s[1..|s| - 1]) then s[1..|s| - 1] else s
  }

  /** `.replaceAll('\\"', '"')` */
  function Unescape(s: string): string {
    if s == "" then ""
    else if |s| >= 2 && s[0] == '\\' && s[1] == '"' then "\"" + Unescape(s[2..])
    else [s[0]] + Unescape(s[1..])
  }

  function NonEmpty(s: string): Option<string> {
    if s == "" then None else Some(s)
  }

  function ParseAddress(value: string): Option<MailAddress> {
    var angle := AngleForm(value);
    var commentForm := if angle.None? then CommentForm(value) else None;
    var address := Trim(if angle.Some? then angle.value.1
                        else if commentForm.Some? then commentForm.value.0 else value);
    if !IsUsableAddress(address) then None
    else
      var rawName := if angle.Some? then Trim(RemoveTrailingComment(Trim(angle.value.0))) else "";
      var comment := if commentForm.Some? && commentForm.value.1.Some? then Trim(commentForm.value.1.value) else "";
      var nameSource := if rawName != "" then rawName else comment;
      Some(MailAddress(NonEmpty(Unescape(Unquote(nameSource))), address))
  }

  function ParseAll(parts: seq<string>): seq<MailAddress>
    decreases |parts|
  {
    if parts == [] then []
    else
      var first := ParseAddress(parts[0]);
      (if first.Some? then [first.value] else []) + ParseAll(parts[1..])
  }

  function ParseAddressList(value: Option<string>): seq<MailAddress> {
    if value.None? || Trim(value.value) == "" then [] else ParseAll(SplitHeaderList(value.value))
  }

  // ---------------------------------------------------------------- the printer

  function CleanName(a: MailAddress): string {
    if a.name.Some? then Trim(a.name.value) else ""
  }

  predicate NeedsQuotes(name: string) {
    '"' in name || ',' in name || ';' in name
  }

  /** `.replaceAll('"', '\\"')` */
  function Escape(s: string): string {
    if s == "" then "" else (if s[0] == '"' then "\\\"" else [s[0]]) + Escape(s[1..])
  }

  function QuotedName(name: string): string {
    if NeedsQuotes(name) then "\"" + (Escape(name) + "\"") else name
  }

  function FormatAddress(a: MailAddress): string {
    if CleanName(a) == "" then Trim(a.address)
    else QuotedName(CleanName(a)) + (" <" + (Trim(a.address) + ">"))
  }

  function FormatEach(list: seq<MailAddress>): (r: seq<string>)
    ensures |r| == |list| && forall i :: 0 <= i < |r| ==> r[i] == FormatAddress(list[i])
  {
    seq(|list|, i requires 0 <= i < |list| => FormatAddress(list[i]))
  }

  /** `.join(", ")` */
  function Join(items: seq<string>): string {
    if items == [] then "" else items[0] + JoinRest(items[1..])
  }

  function JoinRest(items: seq<string>): string {
    if items == [] then "" else ", " + (items[0] + JoinRest(items[1..]))
  }

  function FormatList(list: seq<MailAddress>): string {
    Join(FormatEach(list))
  }

  // ---------------------------------------------------------------- what survives the trip

  /** How the splitter reads a name.  Every quote of a quoted name is printed with a backslash before
      it, and a backslash that came with the name turns that pair around: the quote then closes, and
      what follows is read as if it stood outside. */
  datatype Reading = Reading(quoted: bool, escaped: bool, angleDepth: nat, commentDepth: nat)

  function After(r: Reading, c: char): Reading {
    if c == '"' then r.(quoted := !r.escaped, escaped := false)
    else if r.escaped then r.(escaped := false)
    else if r.quoted then r.(escaped := c == '\\')
    else if c == '<' then r.(angleDepth := r.angleDepth + 1)
    else if c == '>' then r.(angleDepth := Down(r.angleDepth))
    else if c == '(' then r.(commentDepth := r.commentDepth + 1)
    else if c == ')' then r.(commentDepth := Down(r.commentDepth))
    else r
  }

  predicate Separates(r: Reading, c: char) {
    (c == ',' || c == ';') && !r.quoted && !r.escaped && r.angleDepth == 0 && r.commentDepth == 0
  }

  const OPENED := Reading(true, false, 0, 0)

  /** No character of the name is taken for a separator. */
  predicate Unbroken(name: string, r: Reading) {
    name == "" || (!Separates(r, name[0]) && Unbroken(name[1..], After(r, name[0])))
  }

  function ReadingAfter(name: string, r: Reading): Reading {
    if name == "" then r else ReadingAfter(name[1..], After(r, name[0]))
  }

  const OUTSIDE := Reading(false, false, 0, 0)

  function StartOf(name: string): Reading {
    if NeedsQuotes(name) then OPENED else OUTSIDE
  }

  /** The name does not break the printed address. */
  predicate StaysWhole(a: MailAddress) {
    Unbroken(CleanName(a), StartOf(CleanName(a)))
  }

  /** Moreover what it opens it closes, so that the separator after the address separates. */
  predicate Closes(a: MailAddress) {
    StaysWhole(a) && ReadingAfter(CleanName(a), StartOf(CleanName(a))) == StartOf(CleanName(a))
  }

  /** No colon comes before the first at-sign. */
  predicate NoGroupPrefix(s: string) {
    s == "" || s[0] == '@' || (s[0] != ':' && NoGroupPrefix(s[1..]))
  }

  /** The splitter does not take the beginning of the name for that of a group. */
  predicate Ungrouped(a: MailAddress) {
    NoGroupPrefix(CleanName(a) + Trim(a.address))
  }

  /** The exact condition of the round trip: no address is taken for a group, every one but the last
      closes, and the last one stays whole. */
  predicate Survives(list: seq<MailAddress>) {
    forall i :: 0 <= i < |list| ==>
                  Ungrouped(list[i]) && if i < |list| - 1 then Closes(list[i]) else StaysWhole(list[i])
  }

  /** The simple case: every run of backslashes before a quote or at the end has even length. */
  predicate BackslashesPaired(name: string, escaped: bool) {
    if name == "" then !escaped
    else if escaped then name[0] != '"' && BackslashesPaired(name[1..], false)
    else BackslashesPaired(name[1..], name[0] == '\\')
  }

  predicate PlainChar(c: char) {
    c != '"' && c != '<' && c != '>' && c != '(' && c != ')' && c != ',' && c != ';'
  }

  predicate Plain(s: string) {
    forall i :: 0 <= i < |s| ==> PlainChar(s[i])
  }

  predicate Printable(a: MailAddress) {
    var name, address := CleanName(a), Trim(a.address);
    && IsUsableAddress(address) && Plain(address)
    && !HasLineTerminator(name)
  }

  /** `s` ends in what the parser takes for a comment. */
  predicate EndsInComment(s: string) {
    s != "" && s[|s| - 1] == ')' && exists p :: 0 <= p < |s| - 1 && s[p] == '(' && ')' !in s[p + 1..|s| - 1]
  }

  /** The exact condition for one address: the parser takes no part of the name for a comment. */
  predicate KeepsName(a: MailAddress) {
    NeedsQuotes(CleanName(a)) || !EndsInComment(CleanName(a))
  }

  function Clean(a: MailAddress): MailAddress {
    MailAddress(NonEmpty(CleanName(a)), Trim(a.address))
  }

  function CleanAll(list: seq<MailAddress>): (r: seq<MailAddress>)
    ensures |r| == |list| && forall i :: 0 <= i < |r| ==> r[i] == Clean(list[i])
  {
    seq(|list|, i requires 0 <= i < |list| => Clean(list[i]))
  }

  // ---------------------------------------------------------------- trimming

  lemma TrimIsTrimmed(s: string)
    ensures Trim(s) != "" ==> Trimmed(Trim(s))
  {
  }

  lemma TrimSpaceBefore(s: string)
    requires Trimmed(s)
    ensures Trim(" " + s) == s
  {
    hide TrimEnd, TrimStart, IsSpace;
    TrimOfTrimmed(s);
    TrimStartOfSpace(s);
  }

  lemma TrimStartOfSpace(s: string)
    ensures TrimStart(" " + s) == TrimStart(s)
  {
    hide TrimEnd;
    assert (" " + s)[1..] == s;
  }

  lemma TrimSpaceAfter(s: string)
    requires Trimmed(s)
    ensures Trim(s + " ") == s
  {
    hide TrimEnd, TrimStart, IsSpace;
    TrimOfTrimmed(s);
    TrimStartKeeps(s + " ");
    TrimEndOfSpace(s);
  }

  lemma TrimStartKeeps(s: string)
    requires s != "" && !IsSpace(s[0])
    ensures TrimStart(s) == s
  {
    hide IsSpace;
  }

  lemma TrimEndOfSpace(s: string)
    ensures TrimEnd(s + " ") == TrimEnd(s)
  {
    hide TrimStart;
    assert (s + " ")[..|s|] == s;
  }

  // ---------------------------------------------------------------- splitting a printed list

  lemma ScanStep(st: SplitState, c: char, s: string)
    ensures Scan(st, [c] + s) == Scan(Take(st, c), s)
  {
    assert ([c] + s)[1..] == s;
  }

  lemma {:induction false} ScanConcat(st: SplitState, a: string, b: string)
    ensures Scan(st, a + b) == Scan(Scan(st, a), b)
    decreases |a|
  {
    hide Take;
    if a == "" {
      assert a + b == b;
    } else {
      assert (a + b)[1..] == a[1..] + b;
      ScanConcat(Take(st, a[0]), a[1..], b);
    }
  }

  lemma {:induction false} ScanPlain(st: SplitState, s: string)
    requires !st.quoted && !st.escaped && Plain(s)
    ensures Scan(st, s) == st.(current := st.current + s)
    decreases |s|
  {
    if s == "" {
      assert st.current + s == st.current;
    } else {
      var next := st.(current := st.current + [s[0]]);
      assert PlainChar(s[0]);
      assert Take(st, s[0]) == next;
      PlainTail(s);
      ScanPlain(next, s[1..]);
      Regroup(st.current, [s[0]], s[1..]);
      assert [s[0]] + s[1..] == s;
    }
  }

  lemma PlainTail(s: string)
    requires Plain(s) && s != ""
    ensures Plain(s[1..])
  {
  }

  lemma EscapeNothing()
    ensures Escape("") == ""
  {
  }

  function EscapeChar(c: char): string {
    if c == '"' then "\\\"" else [c]
  }

  lemma EscapeStep(name: string)
    requires name != ""
    ensures Escape(name) == EscapeChar(name[0]) + Escape(name[1..])
  {
  }

  predicate Idle(st: SplitState) {
    !st.quoted && !st.escaped && st.angleDepth == 0 && st.commentDepth == 0
  }

  // -- where the first part ends

  predicate IsSeparator(c: char) {
    c == ',' || c == ';'
  }

  /** How much of `s` is read before a separator is found. */
  function Cut(st: SplitState, s: string): (n: nat)
    ensures n <= |s|
    decreases |s|
  {
    if s == "" || (Idle(st) && IsSeparator(s[0])) then 0 else 1 + Cut(Take(st, s[0]), s[1..])
  }

  lemma CutStep(st: SplitState, c: char, s: string)
    ensures Cut(st, [c] + s) == if Idle(st) && IsSeparator(c) then 0 else 1 + Cut(Take(st, c), s)
  {
    hide Take;
    assert ([c] + s)[1..] == s;
  }

  lemma TakeText(st: SplitState, c: char)
    requires !(Idle(st) && IsSeparator(c))
    ensures Take(st, c).parts == st.parts && Take(st, c).current == st.current + [c]
  {
  }

  lemma TakeSeparator(st: SplitState, c: char)
    requires Idle(st) && IsSeparator(c)
    ensures Take(st, c) == SplitState(Finish(st), "", false, false, 0, 0)
  {
  }

  lemma {:induction false} CutConcat(st: SplitState, a: string, b: string)
    ensures Cut(st, a + b) == if Cut(st, a) < |a| then Cut(st, a) else |a| + Cut(Scan(st, a), b)
    decreases |a|
  {
    hide Take;
    if a == "" {
      assert a + b == b;
    } else {
      assert (a + b)[1..] == a[1..] + b;
      if !(Idle(st) && IsSeparator(a[0])) {
        CutConcat(Take(st, a[0]), a[1..], b);
      }
    }
  }

  /** Up to the cut everything goes into the current part. */
  lemma {:induction false} ScanToCut(st: SplitState, s: string)
    ensures Scan(st, s[..Cut(st, s)]).parts == st.parts
    ensures Scan(st, s[..Cut(st, s)]).current == st.current + s[..Cut(st, s)]
    ensures Cut(st, s) < |s| ==> Idle(Scan(st, s[..Cut(st, s)])) && IsSeparator(s[Cut(st, s)])
    decreases |s|
  {
    hide Take;
    var n := Cut(st, s);
    if n == 0 {
      assert s[..n] == "";
      ScanNothing(st);
    } else {
      var t := Take(st, s[0]);
      TakeText(st, s[0]);
      ScanToCut(t, s[1..]);
      assert s[..n] == [s[0]] + s[1..][..n - 1];
      ScanStep(st, s[0], s[1..][..n - 1]);
      Regroup(st.current, [s[0]], s[1..][..n - 1]);
    }
  }

  lemma {:induction false} ScanKeepsParts(st: SplitState, s: string)
    ensures st.parts <= Scan(st, s).parts
    decreases |s|
  {
    if s != "" {
      ScanKeepsParts(Take(st, s[0]), s[1..]);
    }
  }

  function Finish(st: SplitState): seq<string> {
    Flush(st.parts, st.current)
  }

  /** The first part is what stands before the cut. */
  lemma FirstPart(st: SplitState, s: string)
    requires var n := Cut(st, s); Trim(st.current + s[..n]) != ""
    ensures var n := Cut(st, s);
            var parts := Finish(Scan(st, s));
            |parts| > |st.parts| && parts[|st.parts|] == StripGroupPrefix(st.current + s[..n])
  {
    hide Scan, Trim, StripGroupPrefix, Cut;
    var n := Cut(st, s);
    ScanToCut(st, s);
    var t := Scan(st, s[..n]);
    assert s == s[..n] + s[n..];
    ScanConcat(st, s[..n], s[n..]);
    if n < |s| {
      assert s[n..] == [s[n]] + s[n + 1..];
      ScanStep(t, s[n], s[n + 1..]);
      TakeSeparator(t, s[n]);
      var u := SplitState(Finish(t), "", false, false, 0, 0);
      ScanKeepsParts(u, s[n + 1..]);
      assert Finish(t) == st.parts + [StripGroupPrefix(st.current + s[..n])];
      FinishKeepsParts(Scan(u, s[n + 1..]));
    } else {
      assert s[n..] == "";
      ScanNothing(t);
    }
  }

  lemma FinishKeepsParts(st: SplitState)
    ensures st.parts <= Finish(st)
  {
  }

  // -- names and addresses

  function ReadingOf(st: SplitState): Reading {
    Reading(st.quoted, st.escaped, st.angleDepth, st.commentDepth)
  }

  /** Reading a name in quotes follows its walk, as long as nothing separates. */
  lemma {:induction false} ScanNameText(st: SplitState, name: string)
    requires st.escaped ==> st.quoted
    ensures Cut(st, Escape(name)) == |Escape(name)| <==> Unbroken(name, ReadingOf(st))
    ensures Unbroken(name, ReadingOf(st)) ==>
              var t := Scan(st, Escape(name));
              && t.parts == st.parts && t.current == st.current + Escape(name)
              && ReadingOf(t) == ReadingAfter(name, ReadingOf(st)) && (t.escaped ==> t.quoted)
    decreases |name|
  {
    hide Scan, Take, Escape, Cut;
    if name == "" {
      EscapeNothing();
      ScanNothing(st);
      assert st.current + "" == st.current;
    } else {
      EscapeStep(name);
      var head, rest := EscapeChar(name[0]), Escape(name[1..]);
      CutConcat(st, head, rest);
      ReadChar(st, name[0]);
      if !Separates(ReadingOf(st), name[0]) {
        var next := Scan(st, head);
        ScanConcat(st, head, rest);
        ScanNameText(next, name[1..]);
        Regroup(st.current, head, rest);
      }
    }
  }

  lemma ReadChar(st: SplitState, c: char)
    requires st.escaped ==> st.quoted
    ensures Cut(st, EscapeChar(c)) == |EscapeChar(c)| <==> !Separates(ReadingOf(st), c)
    ensures !Separates(ReadingOf(st), c) ==>
              var t := Scan(st, EscapeChar(c));
              && t.parts == st.parts && t.current == st.current + EscapeChar(c)
              && ReadingOf(t) == After(ReadingOf(st), c) && (t.escaped ==> t.quoted)
  {
    if c == '"' {
      ReadQuote(st);
    } else {
      ReadOther(st, c);
    }
  }

  lemma ReadQuote(st: SplitState)
    requires st.escaped ==> st.quoted
    ensures Cut(st, "\\\"") == 2
    ensures var t := Scan(st, "\\\"");
            && t.parts == st.parts && t.current == st.current + "\\\""
            && ReadingOf(t) == After(ReadingOf(st), '"') && (t.escaped ==> t.quoted)
  {
    hide Scan, Cut, Flush;
    var mid := Take(st, '\\');
    assert "\"" == ['"'] + "" && "\\\"" == ['\\'] + "\"";
    ScanStep(st, '\\', "\"");
    ScanStep(mid, '"', "");
    ScanNothing(Take(mid, '"'));
    CutStep(st, '\\', "\"");
    CutStep(mid, '"', "");
    assert (st.current + ['\\']) + ['"'] == st.current + "\\\"";
  }

  lemma ReadOther(st: SplitState, c: char)
    requires (st.escaped ==> st.quoted) && c != '"'
    ensures Cut(st, [c]) == 1 <==> !Separates(ReadingOf(st), c)
    ensures !Separates(ReadingOf(st), c) ==>
              var t := Scan(st, [c]);
              && t.parts == st.parts && t.current == st.current + [c]
              && ReadingOf(t) == After(ReadingOf(st), c) && (t.escaped ==> t.quoted)
  {
    hide Scan, Cut, Flush;
    assert [c] == [c] + "";
    ScanStep(st, c, "");
    ScanNothing(Take(st, c));
    CutStep(st, c, "");
  }

  predicate NoSeparators(s: string) {
    forall i :: 0 <= i < |s| ==> !IsSeparator(s[i])
  }

  lemma {:induction false} CutOfText(st: SplitState, s: string)
    requires NoSeparators(s)
    ensures Cut(st, s) == |s|
    ensures Scan(st, s).parts == st.parts && Scan(st, s).current == st.current + s
    decreases |s|
  {
    hide Take, Scan;
    if s != "" {
      CutOfText(Take(st, s[0]), s[1..]);
    }
    ScanToCut(st, s);
    assert s[..|s|] == s;
  }

  /** In quotes, text without quotes stays in quotes. */
  lemma {:induction false} StaysQuoted(st: SplitState, s: string)
    requires st.quoted && '"' !in s
    ensures Scan(st, s).quoted
    decreases |s|
  {
    if s != "" {
      StaysQuoted(Take(st, s[0]), s[1..]);
    }
  }

  lemma ScanAngle(st: SplitState, address: string)
    requires !st.quoted && !st.escaped && Plain(address)
    ensures Scan(st, " <" + (address + ">")) == st.(current := st.current + (" <" + (address + ">")))
  {
    hide Scan, Plain;
    var open := st.(current := st.current + " <", angleDepth := st.angleDepth + 1);
    assert " <" + (address + ">") == [' '] + (['<'] + (address + ">"));
    ScanStep(st, ' ', ['<'] + (address + ">"));
    ScanStep(Take(st, ' '), '<', address + ">");
    assert Take(Take(st, ' '), '<') == open by {
      assert (st.current + [' ']) + ['<'] == st.current + " <";
    }
    ScanConcat(open, address, ">");
    ScanPlain(open, address);
    var inner := open.(current := open.current + address);
    ScanStep(inner, '>', "");
    ScanNothing(Take(inner, '>'));
    assert ">" == ['>'] + "";
    assert Take(inner, '>') == st.(current := inner.current + ">");
    Regroup(st.current + " <", address, ">");
    Regroup(st.current, " <", address + ">");
  }

  function AngleText(address: string): string {
    " <" + (address + ">")
  }

  lemma AngleTextIsText(address: string)
    requires Plain(address)
    ensures NoSeparators(AngleText(address)) && '"' !in AngleText(address)
    ensures NoSeparators("\"" + AngleText(address))
  {
    var t := AngleText(address);
    forall i | 0 <= i < |t|
      ensures !IsSeparator(t[i]) && t[i] != '"'
    {
      if 2 <= i < |t| - 1 {
        assert PlainChar(address[i - 2]) && t[i] == address[i - 2];
      }
    }
  }

  /** After a quoted name: only when the name was read as printed is the address followed by a
      separator that separates. */
  lemma ScanTail(st: SplitState, address: string)
    requires (st.escaped ==> st.quoted) && Plain(address)
    ensures Idle(Scan(st, "\"" + AngleText(address))) <==> ReadingOf(st) == OPENED
  {
    hide Scan, Plain, AngleText;
    var next := Take(st, '"');
    assert "\"" + AngleText(address) == ['"'] + AngleText(address);
    ScanStep(st, '"', AngleText(address));
    AngleTextIsText(address);
    if next.quoted {
      StaysQuoted(next, AngleText(address));
    } else {
      AfterAngle(next, address);
    }
  }

  lemma AfterAngle(st: SplitState, address: string)
    requires !st.quoted && !st.escaped && Plain(address)
    ensures Idle(Scan(st, AngleText(address))) <==> Idle(st)
  {
    hide Scan, Plain;
    ScanAngle(st, address);
  }

  /** The printed address is read as one piece exactly when it stays whole, and leaves the
      splitter ready for a separator exactly when it closes. */
  lemma ScanItem(st: SplitState, a: MailAddress)
    requires Idle(st) && Printable(a)
    ensures Cut(st, FormatAddress(a)) == |FormatAddress(a)| <==> StaysWhole(a)
    ensures StaysWhole(a) ==>
              var t := Scan(st, FormatAddress(a));
              && t.parts == st.parts && t.current == st.current + FormatAddress(a)
              && (Idle(t) <==> Closes(a))
  {
    hide Scan, Cut, Escape, Plain, IsUsableAddress, Trim, NeedsQuotes, HasLineTerminator, Unbroken,
      ReadingAfter, AngleText, Idle;
    var name, address := CleanName(a), Trim(a.address);
    if name == "" {
      NothingToQuote();
      NothingToRead();
      PlainIsText(address);
      CutOfText(st, address);
      ScanPlainIdle(st, address);
    } else if NeedsQuotes(name) {
      FormatIsQuoted(a);
      ScanQuotedItem(st, name, address);
    } else {
      assert FormatAddress(a) == name + AngleText(address) by {
        AngleTextUnfolds(address);
      }
      ScanBareName(st, name, address);
    }
  }

  lemma NothingToRead()
    ensures Unbroken("", OUTSIDE) && ReadingAfter("", OUTSIDE) == OUTSIDE
  {
  }

  /** A name without quotes around it holds no separators and no quotes; only its brackets count. */
  lemma ScanBareName(st: SplitState, name: string, address: string)
    requires Idle(st) && !NeedsQuotes(name) && Plain(address)
    ensures var text := name + AngleText(address);
            && Cut(st, text) == |text| && Unbroken(name, OUTSIDE)
            && var t := Scan(st, text);
            && t.parts == st.parts && t.current == st.current + text
            && (Idle(t) <==> ReadingAfter(name, OUTSIDE) == OUTSIDE)
  {
    hide Scan, Cut, Escape, Plain, Unbroken, ReadingAfter, AngleText;
    EscapeWithoutQuotes(name);
    ScanNameText(st, name);
    CutOfText(st, name);
    AngleTextIsText(address);
    var named := Scan(st, name);
    CutConcat(st, name, AngleText(address));
    CutOfText(named, AngleText(address));
    ScanConcat(st, name, AngleText(address));
    Regroup(st.current, name, AngleText(address));
    StaysUnquoted(name, OUTSIDE);
    AfterAngle(named, address);
  }

  lemma {:induction false} StaysUnquoted(name: string, r: Reading)
    requires '"' !in name && !r.quoted && !r.escaped
    ensures !ReadingAfter(name, r).quoted && !ReadingAfter(name, r).escaped
  {
    if name != "" {
      StaysUnquoted(name[1..], After(r, name[0]));
    }
  }

  lemma AngleTextUnfolds(address: string)
    ensures AngleText(address) == " <" + (address + ">")
  {
  }

  lemma NothingToQuote()
    ensures !NeedsQuotes("")
  {
  }

  lemma PlainIsText(s: string)
    requires Plain(s)
    ensures NoSeparators(s)
  {
    forall i | 0 <= i < |s|
      ensures !IsSeparator(s[i])
    {
      assert PlainChar(s[i]);
    }
  }

  lemma ScanPlainIdle(st: SplitState, s: string)
    requires Idle(st) && Plain(s)
    ensures Idle(Scan(st, s))
  {
    ScanPlain(st, s);
  }

  lemma FormatIsQuoted(a: MailAddress)
    requires CleanName(a) != "" && NeedsQuotes(CleanName(a))
    ensures FormatAddress(a) == "\"" + (Escape(CleanName(a)) + ("\"" + AngleText(Trim(a.address))))
  {
    hide Escape, Trim, NeedsQuotes, CleanName;
    Regroup("\"", Escape(CleanName(a)) + "\"", AngleText(Trim(a.address)));
    Regroup(Escape(CleanName(a)), "\"", AngleText(Trim(a.address)));
  }

  lemma ScanQuotedItem(st: SplitState, name: string, address: string)
    requires Idle(st) && Plain(address)
    ensures var text := "\"" + (Escape(name) + ("\"" + AngleText(address)));
            && (Cut(st, text) == |text| <==> Unbroken(name, OPENED))
            && (Unbroken(name, OPENED) ==>
                  var t := Scan(st, text);
                  && t.parts == st.parts && t.current == st.current + text
                  && (Idle(t) <==> ReadingAfter(name, OPENED) == OPENED))
  {
    hide Scan, Cut, Escape, Plain, Unbroken, ReadingAfter, AngleText;
    var tail, rest := "\"" + AngleText(address), Escape(name) + ("\"" + AngleText(address));
    var inside := st.(quoted := true, current := st.current + "\"");
    assert Take(st, '"') == inside;
    assert "\"" + rest == ['"'] + rest;
    CutStep(st, '"', rest);
    ScanStep(st, '"', rest);
    CutConcat(inside, Escape(name), tail);
    ScanConcat(inside, Escape(name), tail);
    ScanNameText(inside, name);
    AngleTextIsText(address);
    var named := Scan(inside, Escape(name));
    CutOfText(named, tail);
    if Unbroken(name, OPENED) {
      ScanTail(named, address);
      Regroup(st.current, "\"", Escape(name));
      Regroup(st.current, "\"" + Escape(name), tail);
      Regroup("\"", Escape(name), tail);
    }
  }

  // ---------------------------------------------------------------- group prefixes

  lemma {:induction false} NoPrefixIsStripped(s: string)
    requires NoGroupPrefix(s)
    ensures StripGroupPrefix(s) == Trim(s)
  {
    hide Trim;
    if '@' !in s[..IndexOf(s, ':')] {
      NoColonAtAll(s);
    }
  }

  lemma {:induction false} NoColonAtAll(s: string)
    requires NoGroupPrefix(s) && '@' !in s[..IndexOf(s, ':')]
    ensures IndexOf(s, ':') == |s|
  {
    if s != "" && s[0] != ':' {
      var i := IndexOf(s[1..], ':');
      assert s[..1 + i] == [s[0]] + s[1..][..i];
      assert s[0] in s[..1 + i];
      assert forall c :: c in s[1..][..i] ==> c in s[..1 + i];
      NoColonAtAll(s[1..]);
    }
  }

  lemma {:induction false} PrefixHasColon(s: string)
    requires !NoGroupPrefix(s)
    ensures IndexOf(s, ':') < |s| && '@' !in s[..IndexOf(s, ':')]
  {
    if s[0] != ':' {
      PrefixHasColon(s[1..]);
      assert s[..IndexOf(s, ':')] == [s[0]] + s[1..][..IndexOf(s[1..], ':')];
    }
  }

  lemma NoPrefixStep(c: char, s: string)
    requires c != ':' && c != '@'
    ensures NoGroupPrefix([c] + s) <==> NoGroupPrefix(s)
  {
    assert ([c] + s)[1..] == s;
  }

  lemma {:induction false} NoPrefixAppend(s: string, t: string)
    requires '@' in s
    ensures NoGroupPrefix(s + t) <==> NoGroupPrefix(s)
  {
    assert (s + t)[0] == s[0];
    if s[0] != '@' {
      assert (s + t)[1..] == s[1..] + t;
      NoPrefixAppend(s[1..], t);
    }
  }

  /** Escaping the name and putting text between it and the address change nothing for the colons. */
  lemma {:induction false} NoPrefixEscaped(name: string, address: string, tail: string)
    requires NoGroupPrefix(address) <==> NoGroupPrefix(tail)
    ensures NoGroupPrefix(Escape(name) + tail) <==> NoGroupPrefix(name + address)
  {
    if name == "" {
      assert name + address == address;
      assert Escape(name) + tail == tail;
    } else {
      EscapeStep(name);
      assert (name + address)[0] == name[0] && (name + address)[1..] == name[1..] + address;
      var rest := Escape(name[1..]) + tail;
      Regroup(EscapeChar(name[0]), Escape(name[1..]), tail);
      NoPrefixEscaped(name[1..], address, tail);
      assert ([name[0]] + rest)[1..] == rest;
      if name[0] == '"' {
        NoPrefixStep('\\', [name[0]] + rest);
        assert ['\\'] + ([name[0]] + rest) == "\\\"" + rest;
      }
    }
  }

  lemma NoPrefixAngle(address: string)
    requires '@' in address
    ensures NoGroupPrefix(" <" + (address + ">")) <==> NoGroupPrefix(address)
    ensures NoGroupPrefix("\" <" + (address + ">")) <==> NoGroupPrefix(address)
  {
    NoPrefixAppend(address, ">");
    var inner := address + ">";
    NoPrefixStep('<', inner);
    NoPrefixStep(' ', ['<'] + inner);
    NoPrefixStep('"', [' '] + (['<'] + inner));
    assert [' '] + (['<'] + inner) == " <" + inner;
    assert ['"'] + (" <" + inner) == "\" <" + inner;
  }

  lemma {:induction false} EscapeWithoutQuotes(name: string)
    requires '"' !in name
    ensures Escape(name) == name && Unescape(name) == name
  {
    if name != "" {
      EscapeWithoutQuotes(name[1..]);
    }
  }

  /** Printing neither makes nor removes a group prefix. */
  lemma NoPrefixPrinted(a: MailAddress)
    requires '@' in Trim(a.address)
    ensures NoGroupPrefix(FormatAddress(a)) <==> Ungrouped(a)
  {
    hide Trim, NoGroupPrefix, Escape, CleanName;
    var name, address := CleanName(a), Trim(a.address);
    NoPrefixAngle(address);
    if name == "" {
      assert name + address == address;
    } else if NeedsQuotes(name) {
      var tail := "\" <" + (address + ">");
      NoPrefixEscaped(name, address, tail);
      NoPrefixStep('"', Escape(name) + tail);
      assert FormatAddress(a) == ['"'] + (Escape(name) + tail) by {
        QuotedText(Escape(name), address);
      }
    } else {
      EscapeWithoutQuotes(name);
      NoPrefixEscaped(name, address, " <" + (address + ">"));
    }
  }

  lemma QuotedText(escaped: string, address: string)
    ensures ("\"" + (escaped + "\"")) + (" <" + (address + ">")) == ['"'] + (escaped + ("\" <" + (address + ">")))
  {
    var tail := " <" + (address + ">");
    assert "\"" + tail == "\" <" + (address + ">");
    Regroup("\"", escaped + "\"", tail);
    Regroup(escaped, "\"", tail);
  }

  // ---------------------------------------------------------------- the split

  lemma UsableFacts(address: string)
    requires IsUsableAddress(address) && Trim(address) == address
    ensures Trimmed(address) && '@' in address
    ensures exists k :: 0 < k < |address| - 1 && address[k] == '@'
    ensures forall i :: 0 <= i < |address| ==> !IsSpace(address[i])
  {
    hide Trim, IsSpace;
    var at := IndexOf(address, '@');
    var domain := address[at + 1..];
    NoSpaceInDomain(domain);
    assert address[at] == '@' && at < |address| - 1;
    forall i | 0 <= i < |address|
      ensures !IsSpace(address[i])
    {
      if i == at {
        AtSignIsText();
      } else if i > at {
        assert address[i] == domain[i - at - 1];
      }
    }
  }

  lemma AtSignIsText()
    ensures !IsSpace('@') && !IsSpace('[') && !IsSpace(']')
  {
  }

  lemma NoSpaceInDomain(domain: string)
    requires DotDomain(domain) || LiteralDomain(domain)
    ensures domain != "" && forall i :: 0 <= i < |domain| ==> !IsSpace(domain[i])
  {
    hide IsSpace;
    AtSignIsText();
  }

  lemma TrimTwice(s: string)
    ensures Trim(Trim(s)) == Trim(s)
  {
    hide TrimStart, TrimEnd, IsSpace;
    TrimIsTrimmed(s);
    if Trim(s) == "" {
      TrimNothing();
    } else {
      TrimOfTrimmed(Trim(s));
    }
  }

  lemma TrimNothing()
    ensures Trim("") == ""
  {
  }

  lemma QuotedNameIsTrimmed(name: string)
    requires Trimmed(name)
    ensures Trimmed(QuotedName(name))
  {
    hide Escape;
    assert !IsSpace('"');
  }

  lemma PrintedIsTrimmed(a: MailAddress)
    requires Printable(a)
    ensures Trimmed(FormatAddress(a))
  {
    hide Trim, IsUsableAddress, Plain, HasLineTerminator, NoGroupPrefix, QuotedName, NeedsQuotes;
    if CleanName(a) == "" {
      TrimTwice(a.address);
      UsableFacts(Trim(a.address));
    } else {
      CleanNameIsTrimmed(a);
      QuotedNameIsTrimmed(CleanName(a));
      assert !IsSpace('>');
      var f := FormatAddress(a);
      assert f[0] == QuotedName(CleanName(a))[0] && f[|f| - 1] == '>';
    }
  }

  lemma CleanNameIsTrimmed(a: MailAddress)
    requires CleanName(a) != ""
    ensures Trimmed(CleanName(a))
  {
    hide Trim, IsSpace;
    TrimIsTrimmed(a.name.value);
  }

  /** A printed address, with or without the space before it, is one part as it stands. */
  lemma PrintedIsOnePart(a: MailAddress)
    requires Printable(a) && Ungrouped(a)
    ensures var f := FormatAddress(a);
            && Trim(f) == f != "" && Trim(" " + f) == f
            && StripGroupPrefix(f) == f && StripGroupPrefix(" " + f) == f
  {
    hide Trim, IsUsableAddress, Plain, HasLineTerminator, NoGroupPrefix, Ungrouped, QuotedName, NeedsQuotes,
      FormatAddress, IsSpace, StripGroupPrefix;
    var f := FormatAddress(a);
    TrimTwice(a.address);
    UsableFacts(Trim(a.address));
    NoPrefixPrinted(a);
    PrintedIsTrimmed(a);
    TrimOfTrimmed(f);
    TrimSpaceBefore(f);
    NoPrefixStep(' ', f);
    assert [' '] + f == " " + f;
    NoPrefixIsStripped(f);
    NoPrefixIsStripped(" " + f);
  }

  lemma ScanComma(st: SplitState, s: string)
    requires Idle(st)
    ensures Scan(st, ", " + s) == Scan(SplitState(Finish(st), " ", false, false, 0, 0), s)
  {
    hide Scan, Flush;
    ScanStep(st, ',', [' '] + s);
    assert ", " + s == [','] + ([' '] + s);
    var next := Take(st, ',');
    ScanStep(next, ' ', s);
    assert "" + [' '] == " ";
  }

  lemma FormatEachStep(list: seq<MailAddress>)
    requires list != []
    ensures FormatEach(list) == [FormatAddress(list[0])] + FormatEach(list[1..])
    ensures JoinRest(FormatEach(list)) == ", " + (FormatAddress(list[0]) + JoinRest(FormatEach(list[1..])))
  {
    hide FormatAddress;
    assert FormatEach(list)[1..] == FormatEach(list[1..]);
  }

  lemma FinishHeld(st: SplitState, item: string)
    requires Trim(st.current) == item != "" && StripGroupPrefix(st.current) == item
    ensures Finish(st) == st.parts + [item]
  {
  }

  lemma TrimIsShort(x: string)
    ensures |Trim(x)| <= |x| && |Trim(" " + x)| <= |x|
  {
    hide TrimStart, TrimEnd, IsSpace;
    TrimStartOfSpace(x);
  }

  lemma StripIsShort(x: string)
    ensures |StripGroupPrefix(x)| <= |x| && |StripGroupPrefix(" " + x)| <= |x|
  {
    hide Trim, IndexOf;
    var spaced := " " + x;
    TrimIsShort(x);
    TrimIsShort(x[if IndexOf(x, ':') < |x| then IndexOf(x, ':') + 1 else 0..]);
    TrimIsShort(spaced[if IndexOf(spaced, ':') < |spaced| then IndexOf(spaced, ':') + 1 else 0..]);
  }

  predicate IsLead(lead: string) {
    lead == "" || lead == " "
  }

  /** A part that ends before the printed address does, or after the separator that follows it, is
      not the printed address; nor is what is left of one that is taken for a group. */
  lemma NotTheItem(lead: string, item: string, x: string)
    requires IsLead(lead) && Trimmed(item) && '@' in item
    requires || (x != "" && |x| < |item| && x == item[..|x|])
             || (x == item && !NoGroupPrefix(item))
             || (|x| > |item| && x[..|item|] == item && x[|item|] == ',')
    ensures Trim(lead + x) != "" && StripGroupPrefix(lead + x) != item
  {
    hide Trim, TrimStart, TrimEnd, IsSpace, NoGroupPrefix, StripGroupPrefix;
    assert x[0] == item[0];
    TrimOfLead(lead, x);
    TrimEndKeepsText(x);
    if |x| < |item| {
      StripIsShort(x);
      assert "" + x == x;
    } else if NoGroupPrefix(item) {
      var y := x[|item| + 1..];
      assert x == item + ("," + y);
      LongPart(lead, item, y);
    } else {
      assert x == item + x[|item|..];
      GroupedPart(lead, item, x[|item|..]);
    }
  }

  lemma {:induction false} TrimStartKeepsAt(s: string, i: nat)
    requires i < |s| && s[i] == '@'
    ensures |s| - |TrimStart(s)| <= i
  {
    hide IsSpace;
    AtSignIsText();
    if IsSpace(s[0]) {
      TrimStartKeepsAt(s[1..], i - 1);
    }
  }

  lemma {:induction false} AtSignWithin(s: string, i: nat)
    requires i < |s| && s[i] == '@'
    ensures '@' in s && IndexOf(s, '@') <= i
  {
    if s[0] != '@' {
      AtSignWithin(s[1..], i - 1);
    }
  }

  lemma {:induction false} TrimEndKeepsAt(s: string, i: nat)
    requires i < |s| && s[i] == '@'
    ensures i < |TrimEnd(s)| && TrimEnd(s)[i] == '@'
  {
    hide IsSpace;
    AtSignIsText();
    if IsSpace(s[|s| - 1]) {
      TrimEndKeepsAt(s[..|s| - 1], i);
    }
  }

  /** Trimming keeps the first at-sign, and brings it no further from the beginning. */
  lemma TrimKeepsAt(s: string, i: nat)
    requires i < |s| && s[i] == '@'
    ensures '@' in Trim(s) && IndexOf(Trim(s), '@') <= i
  {
    hide TrimStart, TrimEnd, IndexOf;
    TrimStartKeepsAt(s, i);
    var t := TrimStart(s);
    TrimEndKeepsAt(t, i - (|s| - |t|));
    AtSignWithin(TrimEnd(t), i - (|s| - |t|));
  }

  /** What is left when a group prefix is stripped has its first at-sign earlier. */
  lemma GroupIsStripped(v: string, i: nat)
    requires !NoGroupPrefix(v) && i < |v| && v[i] == '@'
    ensures var c, r := IndexOf(v, ':'), StripGroupPrefix(v);
            c < i && v[c] == ':' && '@' in r && IndexOf(r, '@') < i - c
  {
    hide Trim, NoGroupPrefix, IndexOf;
    PrefixHasColon(v);
    var c := IndexOf(v, ':');
    forall j | 0 <= j < c
      ensures v[j] != '@'
    {
      assert v[..c][j] in v[..c];
    }
    TrimKeepsAt(v[c + 1..], i - (c + 1));
  }

  lemma GroupedPart(lead: string, item: string, y: string)
    requires IsLead(lead) && !NoGroupPrefix(item) && '@' in item
    ensures StripGroupPrefix(lead + (item + y)) != item
  {
    hide Trim, NoGroupPrefix, IndexOf, StripGroupPrefix;
    var x, i := item + y, IndexOf(item, '@');
    AtSignIsFound(item);
    NoPrefixAppend(item, y);
    NoPrefixStep(' ', x);
    assert x[i] == '@';
    if lead == "" {
      assert "" + x == x;
      GroupIsStripped(x, i);
    } else {
      assert [' '] + x == " " + x;
      assert (" " + x)[i + 1] == '@' && (" " + x)[0] == ' ';
      GroupIsStripped(" " + x, i + 1);
    }
  }

  lemma AtSignIsFound(s: string)
    requires '@' in s
    ensures IndexOf(s, '@') < |s|
  {
    hide IndexOf;
    assert s[..|s|] == s;
  }

  lemma TrimOfLead(lead: string, x: string)
    requires IsLead(lead) && x != "" && !IsSpace(x[0])
    ensures Trim(lead + x) == TrimEnd(x)
  {
    hide TrimEnd, TrimStart, IsSpace;
    TrimStartKeeps(x);
    TrimStartOfSpace(x);
    assert "" + x == x;
  }

  lemma LongPart(lead: string, item: string, y: string)
    requires IsLead(lead) && Trimmed(item) && NoGroupPrefix(item) && '@' in item
    ensures |StripGroupPrefix(lead + (item + ("," + y)))| > |item|
  {
    hide Trim, TrimStart, TrimEnd, IsSpace, NoGroupPrefix, StripGroupPrefix;
    var x := item + ("," + y);
    NoPrefixAppend(item, "," + y);
    NoPrefixStep(' ', x);
    assert [' '] + x == " " + x && "" + x == x;
    NoPrefixIsStripped(lead + x);
    assert x[0] == item[0];
    TrimOfLead(lead, x);
    CommaIsText();
    TrimEndStops(item, ',', y);
  }

  lemma CommaIsText()
    ensures !IsSpace(',')
  {
  }

  lemma {:induction false} TrimEndStops(a: string, c: char, b: string)
    requires !IsSpace(c)
    ensures |TrimEnd(a + ([c] + b))| > |a|
    decreases |b|
  {
    hide IsSpace;
    var s := a + ([c] + b);
    if b == "" {
      assert s[|s| - 1] == c;
    } else {
      assert s[|s| - 1] == b[|b| - 1];
      assert s[..|s| - 1] == a + ([c] + b[..|b| - 1]);
      TrimEndStops(a, c, b[..|b| - 1]);
    }
  }

  lemma PrintedStartsAsText(a: MailAddress)
    requires Printable(a)
    ensures FormatAddress(a) != "" && !IsSeparator(FormatAddress(a)[0])
  {
    hide Trim, IsUsableAddress, HasLineTerminator, NoGroupPrefix, Escape;
    PrintedIsTrimmed(a);
    if CleanName(a) == "" {
      assert PlainChar(Trim(a.address)[0]);
    } else if !NeedsQuotes(CleanName(a)) {
      assert CleanName(a)[0] in CleanName(a);
    }
  }

  lemma PrintedHasAt(a: MailAddress)
    requires Printable(a)
    ensures '@' in FormatAddress(a) && (NoGroupPrefix(FormatAddress(a)) <==> Ungrouped(a))
  {
    hide Trim, IsUsableAddress, HasLineTerminator, NoGroupPrefix, Ungrouped, Plain, QuotedName, NeedsQuotes;
    TrimTwice(a.address);
    UsableFacts(Trim(a.address));
    NoPrefixPrinted(a);
  }

  /** What follows a printed address in the joined list. */
  predicate IsFollower(rest: string) {
    rest == "" || rest[0] == ','
  }

  /** When an address is broken or taken for a group, or its separator is not taken for one, the next
      part is not the printed address. */
  lemma BrokenPart(st: SplitState, a: MailAddress, rest: string)
    requires Idle(st) && IsLead(st.current) && Printable(a) && IsFollower(rest)
    requires !Ungrouped(a) || if rest == "" then !StaysWhole(a) else !Closes(a)
    ensures var parts := Finish(Scan(st, FormatAddress(a) + rest));
            |parts| > |st.parts| && parts[|st.parts|] != FormatAddress(a)
  {
    hide Scan, Cut, Printable, FormatAddress, Trim, StripGroupPrefix, NoGroupPrefix, Ungrouped, Flush, Idle, IsSpace,
      StaysWhole, Closes;
    var item := FormatAddress(a);
    var text := item + rest;
    var n := Cut(st, text);
    ScanItem(st, a);
    CutConcat(st, item, rest);
    PrintedStartsAsText(a);
    FirstIsText(st, item, rest);
    if StaysWhole(a) && !Closes(a) && rest != "" {
      NotIdleReadsOn(Scan(st, item), rest);
    }
    ClosesIsWhole(a);
    assert n > 0 && (n == |item| ==> !Ungrouped(a));
    if n <= |item| {
      assert text[..n] == item[..n];
    } else {
      assert text[..n][..|item|] == item && text[..n][|item|] == rest[0];
    }
    PrintedHasAt(a);
    PrintedIsTrimmed(a);
    NotTheItem(st.current, item, text[..n]);
    FirstPart(st, text);
  }

  lemma ClosesIsWhole(a: MailAddress)
    ensures Closes(a) ==> StaysWhole(a)
  {
  }

  lemma FirstIsText(st: SplitState, item: string, rest: string)
    requires item != "" && !IsSeparator(item[0])
    ensures Cut(st, item + rest) > 0
  {
    assert (item + rest)[0] == item[0];
  }

  lemma NotIdleReadsOn(st: SplitState, s: string)
    requires s != "" && !Idle(st)
    ensures Cut(st, s) > 0
  {
  }

  lemma SurvivesCons(list: seq<MailAddress>)
    requires |list| > 1
    ensures Survives(list) <==> Ungrouped(list[0]) && Closes(list[0]) && Survives(list[1..])
  {
    hide Closes, StaysWhole, Ungrouped;
    var rest := list[1..];
    assert forall i :: 0 <= i < |rest| ==> rest[i] == list[i + 1];
    if Ungrouped(list[0]) && Closes(list[0]) && Survives(rest) {
      forall i | 0 <= i < |list|
        ensures Ungrouped(list[i]) && if i < |list| - 1 then Closes(list[i]) else StaysWhole(list[i])
      {
        if i > 0 {
          assert rest[i - 1] == list[i];
        }
      }
    }
  }

  lemma DiffersAt(a: seq<string>, parts: seq<string>, b: seq<string>)
    requires b != [] && |a| > |parts| && a[|parts|] != b[0]
    ensures a != parts + b
  {
    assert (parts + b)[|parts|] == b[0];
  }

  lemma {:induction false} ScanJoined(st: SplitState, list: seq<MailAddress>)
    requires Idle(st) && IsLead(st.current) && list != [] && forall a :: a in list ==> Printable(a)
    ensures Finish(Scan(st, FormatList(list))) == st.parts + FormatEach(list) <==> Survives(list)
    decreases |list|
  {
    hide Scan, FormatAddress, FormatEach, Join, JoinRest, Printable, Finish, Trim, StripGroupPrefix, Closes,
      StaysWhole, Cut, Idle, Survives, Ungrouped;
    var a, rest := list[0], list[1..];
    assert Printable(a);
    var item := FormatAddress(a);
    FormatEachStep(list);
    if Ungrouped(a) {
      LedIsOnePart(st.current, a);
    }
    ScanItem(st, a);
    if rest == [] {
      JoinedOne(list);
      SurvivesOne(list);
      if StaysWhole(a) && Ungrouped(a) {
        FinishHeld(Scan(st, item), item);
      } else {
        assert item + "" == item;
        BrokenPart(st, a, "");
        DiffersAt(Finish(Scan(st, item)), st.parts, FormatEach(list));
      }
    } else {
      JoinedMore(list);
      SurvivesCons(list);
      var follower := ", " + FormatList(rest);
      if Closes(a) && Ungrouped(a) {
        ClosesIsWhole(a);
        var held := Scan(st, item);
        ScanConcat(st, item, follower);
        ScanComma(held, FormatList(rest));
        FinishHeld(held, item);
        var next := SplitState(st.parts + [item], " ", false, false, 0, 0);
        NewPartIsIdle(st.parts + [item]);
        ScanJoined(next, rest);
        Regroup(st.parts, [item], FormatEach(rest));
      } else {
        assert follower[0] == ',';
        BrokenPart(st, a, follower);
        DiffersAt(Finish(Scan(st, item + follower)), st.parts, FormatEach(list));
      }
    }
  }

  lemma LedIsOnePart(lead: string, a: MailAddress)
    requires IsLead(lead) && Printable(a) && Ungrouped(a)
    ensures var f := FormatAddress(a);
            f != "" && Trim(lead + f) == f && StripGroupPrefix(lead + f) == f
  {
    hide FormatAddress, Trim, StripGroupPrefix, Printable, Ungrouped;
    PrintedIsOnePart(a);
    assert "" + FormatAddress(a) == FormatAddress(a);
  }

  lemma NewPartIsIdle(parts: seq<string>)
    ensures Idle(SplitState(parts, " ", false, false, 0, 0))
  {
  }

  lemma SurvivesOne(list: seq<MailAddress>)
    requires |list| == 1
    ensures Survives(list) <==> Ungrouped(list[0]) && StaysWhole(list[0])
  {
    hide StaysWhole, Ungrouped;
  }

  lemma JoinedOne(list: seq<MailAddress>)
    requires |list| == 1
    ensures FormatList(list) == FormatAddress(list[0]) && FormatEach(list[1..]) == []
  {
    hide FormatAddress;
    var each := FormatEach(list);
    assert each[1..] == [];
    assert each[0] + "" == each[0];
  }

  lemma JoinedMore(list: seq<MailAddress>)
    requires |list| > 1
    ensures FormatList(list) == FormatAddress(list[0]) + (", " + FormatList(list[1..]))
  {
    hide FormatAddress;
    var each := FormatEach(list);
    assert each[1..] == FormatEach(list[1..]);
  }

  /** The exact condition of the split: joining printed addresses with commas and splitting the
      result gives them back if and only if none is taken for a group, every address but the last
      closes and the last one stays whole. */
  lemma SplitInvertsJoin(list: seq<MailAddress>)
    requires forall a :: a in list ==> Printable(a)
    ensures SplitHeaderList(FormatList(list)) == FormatEach(list) <==> Survives(list)
  {
    hide Scan, FormatAddress, Printable, Flush, Trim, StripGroupPrefix, JoinRest, Closes, StaysWhole, Ungrouped;
    if list == [] {
      ScanNothing(START);
      FlushNothing();
    } else {
      ScanJoined(START, list);
      assert [] + FormatEach(list) == FormatEach(list);
    }
  }

  lemma {:induction false} PairedCloses(name: string, r: Reading)
    requires r.quoted && r.angleDepth == 0 && r.commentDepth == 0 && BackslashesPaired(name, r.escaped)
    ensures Unbroken(name, r) && ReadingAfter(name, r) == OPENED
  {
    if name != "" {
      PairedCloses(name[1..], After(r, name[0]));
    }
  }

  lemma {:induction false} PlainCloses(name: string)
    requires Plain(name)
    ensures Unbroken(name, OUTSIDE) && ReadingAfter(name, OUTSIDE) == OUTSIDE
  {
    if name != "" {
      assert PlainChar(name[0]);
      PlainTail(name);
      PlainCloses(name[1..]);
    }
  }

  /** Quoted names whose backslashes are paired, and so all without one, and other names without
      brackets survive unless they are taken for a group. */
  lemma PairedBackslashesSurvive(list: seq<MailAddress>)
    requires forall a :: a in list ==>
               if NeedsQuotes(CleanName(a)) then BackslashesPaired(CleanName(a), false) else Plain(CleanName(a))
    ensures Survives(list) <==> forall a :: a in list ==> Ungrouped(a)
  {
    hide Unbroken, ReadingAfter, NeedsQuotes, CleanName, Ungrouped, Plain;
    forall i | 0 <= i < |list|
      ensures Closes(list[i])
    {
      assert list[i] in list;
      if NeedsQuotes(CleanName(list[i])) {
        PairedCloses(CleanName(list[i]), OPENED);
      } else {
        PlainCloses(CleanName(list[i]));
      }
    }
  }

  lemma FlushNothing()
    ensures Flush([], "") == []
  {
    TrimNothing();
  }

  // ---------------------------------------------------------------- the parse

  lemma AngleOfPrinted(name: string, address: string)
    requires !HasLineTerminator(name) && Plain(address) && address != ""
    ensures AngleForm(name + (" <" + (address + ">"))) == Some((name + " ", address))
  {
    hide AngleForm, HasLineTerminator, LastIndexOf;
    var body := name + (" <" + address);
    assert name + (" <" + (address + ">")) == body + ">";
    BodyParts(name, address);
    LastIndexAt(body, |name| + 1, '<');
    SpaceKeepsLines(name);
    NoAngles(address);
    AngleOfBody(body, |name| + 1);
  }

  lemma AngleOfBody(body: string, open: nat)
    requires LastIndexOf(body, '<') == Some(open) && !HasLineTerminator(body[..open])
    requires body[open + 1..] != "" && '>' !in body[open + 1..]
    ensures AngleForm(body + ">") == Some((body[..open], body[open + 1..]))
  {
    hide TrimEnd, TrimStart, IsSpace, LastIndexOf, HasLineTerminator;
    EndsInAngle(body);
    assert (body + ">")[..|body|] == body;
  }

  lemma BodyParts(name: string, address: string)
    requires Plain(address)
    ensures var body := name + (" <" + address);
            && body[|name| + 1] == '<' && body[..|name| + 1] == name + " "
            && body[|name| + 2..] == address && '<' !in address
  {
    NoAngles(address);
  }

  lemma NoAngles(address: string)
    requires Plain(address)
    ensures '<' !in address && '>' !in address
  {
  }

  lemma SpaceKeepsLines(name: string)
    requires !HasLineTerminator(name)
    ensures !HasLineTerminator(name + " ")
  {
    assert forall i :: 0 <= i < |name| ==> (name + " ")[i] == name[i];
  }

  lemma {:induction false} LastIndexAt(s: string, i: nat, c: char)
    requires i < |s| && s[i] == c && c !in s[i + 1..]
    ensures LastIndexOf(s, c) == Some(i)
  {
    if i < |s| - 1 {
      assert s[i + 1..][|s| - i - 2] == s[|s| - 1];
      assert s[..|s| - 1][i + 1..] == s[i + 1..][..|s| - i - 2];
      LastIndexAt(s[..|s| - 1], i, c);
    }
  }

  lemma EndsInAngle(body: string)
    ensures TrimEnd(body + ">") == body + ">"
  {
  }

  lemma {:induction false} EscapeKeepsLines(name: string)
    requires !HasLineTerminator(name)
    ensures !HasLineTerminator(Escape(name))
  {
    if name != "" {
      assert forall i :: 0 <= i < |name[1..]| ==> name[1..][i] == name[i + 1];
      EscapeKeepsLines(name[1..]);
      EscapeStep(name);
    }
  }

  lemma {:induction false} UnescapeInvertsEscape(name: string)
    ensures Unescape(Escape(name)) == name
  {
    if name != "" {
      UnescapeInvertsEscape(name[1..]);
      EscapedHead(name[1..]);
      UnescapeChar(name[0], Escape(name[1..]));
      EscapeStep(name);
    }
  }

  lemma EscapedHead(name: string)
    ensures Escape(name) != "" ==> Escape(name)[0] != '"'
  {
  }

  lemma UnescapeChar(c: char, rest: string)
    requires rest != "" ==> rest[0] != '"'
    ensures Unescape(EscapeChar(c) + rest) == [c] + Unescape(rest)
  {
    if c == '"' {
      assert (EscapeChar(c) + rest)[2..] == rest;
    } else {
      assert ([c] + rest)[1..] == rest;
    }
  }

  /** The quoting of a name is undone by the parser's unquoting. */
  lemma NameReadsBack(name: string)
    requires name != "" && !HasLineTerminator(name)
    ensures Unescape(Unquote(QuotedName(name))) == name
  {
    hide Escape, Unescape;
    if NeedsQuotes(name) {
      var quoted := QuotedName(name);
      assert quoted[1..|quoted| - 1] == Escape(name);
      EscapeKeepsLines(name);
      UnescapeInvertsEscape(name);
    } else {
      EscapeWithoutQuotes(name);
    }
  }

  lemma QuotedNameKeepsLines(name: string)
    requires !HasLineTerminator(name)
    ensures !HasLineTerminator(QuotedName(name))
  {
    hide Escape;
    EscapeKeepsLines(name);
  }

  lemma NoTrailingComment(s: string)
    requires Trimmed(s) && s[|s| - 1] != ')'
    ensures RemoveTrailingComment(s) == s
  {
    hide TrimEnd, TrimStart, IsSpace, CommentStart;
    TrimOfTrimmed(s);
  }

  lemma {:induction false} CommentStartIff(v: string, p: nat)
    requires p <= |v|
    ensures CommentStart(v, p) < |v| <==> exists q :: p <= q < |v| - 1 && v[q] == '(' && ')' !in v[q + 1..|v| - 1]
    decreases |v| - p
  {
    if p < |v| {
      CommentStartIff(v, p + 1);
    }
  }

  lemma CommentIsRemovedIff(s: string)
    requires Trimmed(s)
    ensures RemoveTrailingComment(s) == (if EndsInComment(s) then s[..CommentStart(s, 0)] else s)
    ensures EndsInComment(s) ==> CommentStart(s, 0) < |s|
  {
    hide TrimEnd, TrimStart, IsSpace, CommentStart;
    TrimOfTrimmed(s);
    CommentStartIff(s, 0);
  }

  lemma QuotedIsNoComment(name: string)
    requires NeedsQuotes(name)
    ensures !EndsInComment(QuotedName(name))
  {
    hide Escape;
  }

  /** What the parser makes of the text before the angle bracket. */
  function NameOf(text: string): string {
    Unescape(Unquote(Trim(RemoveTrailingComment(Trim(text)))))
  }

  lemma {:induction false} UnescapeIsShort(s: string)
    ensures |Unescape(s)| <= |s|
  {
    if |s| >= 2 && s[0] == '\\' && s[1] == '"' {
      UnescapeIsShort(s[2..]);
    } else if s != "" {
      UnescapeIsShort(s[1..]);
    }
  }

  lemma NameOfPrinted(name: string)
    requires Trimmed(name) && !HasLineTerminator(name)
    ensures Trim(RemoveTrailingComment(Trim(QuotedName(name) + " "))) == "" ==>
              !NeedsQuotes(name) && EndsInComment(name)
    ensures NameOf(QuotedName(name) + " ") == name <==> NeedsQuotes(name) || !EndsInComment(name)
  {
    hide Trim, IsSpace, QuotedName, NeedsQuotes, RemoveTrailingComment, EndsInComment, CommentStart, Unescape, Unquote,
      HasLineTerminator;
    var quoted := QuotedName(name);
    QuotedNameIsTrimmed(name);
    TrimSpaceAfter(quoted);
    CommentIsRemovedIff(quoted);
    if NeedsQuotes(name) {
      QuotedIsNoComment(name);
    } else {
      BareIsItself(name);
    }
    if EndsInComment(quoted) {
      TrimIsShort(quoted[..CommentStart(quoted, 0)]);
      UnquoteIsShort(Trim(quoted[..CommentStart(quoted, 0)]));
      UnescapeIsShort(Unquote(Trim(quoted[..CommentStart(quoted, 0)])));
    } else {
      TrimOfTrimmed(quoted);
      NameReadsBack(name);
    }
  }

  lemma BareIsItself(name: string)
    requires !NeedsQuotes(name)
    ensures QuotedName(name) == name
  {
  }

  lemma UnquoteIsShort(s: string)
    ensures |Unquote(s)| <= |s|
  {
  }

  lemma BareForms(address: string)
    requires IsUsableAddress(address) && Trim(address) == address && Plain(address)
    ensures AngleForm(address) == None && CommentForm(address) == Some((address, None))
  {
    hide Trim, TrimStart, TrimEnd, IsSpace, IsUsableAddress;
    UsableFacts(address);
    TrimOfTrimmed(address);
    assert PlainChar(address[|address| - 1]);
    forall i | 0 <= i < |address|
      ensures !EndsToken(address[i])
    {
      assert PlainChar(address[i]);
    }
    assert address[|address|..] == "" && address[..|address|] == address;
    TrimNothing();
  }

  /** Parsing a printed address gives it back, its name and address trimmed, if and only if no part
      of its name is taken for a comment; otherwise it gives another address. */
  lemma ParseInvertsFormat(a: MailAddress)
    requires Printable(a)
    ensures ParseAddress(FormatAddress(a)) == Some(Clean(a)) <==> KeepsName(a)
    ensures ParseAddress(FormatAddress(a)).Some?
  {
    hide Trim, IsSpace, IsUsableAddress, Plain, HasLineTerminator, NeedsQuotes, EndsInComment,
      QuotedName, Unescape, Unquote, RemoveTrailingComment, AngleForm, CommentForm;
    var name, address := CleanName(a), Trim(a.address);
    TrimTwice(a.address);
    UsableFacts(address);
    if name == "" {
      BareForms(address);
      EmptyNameReadsBack();
      NothingIsNoComment();
    } else {
      CleanNameIsTrimmed(a);
      QuotedNameKeepsLines(name);
      AngleOfPrinted(QuotedName(name), address);
      NameOfPrinted(name);
      EmptyNameReadsBack();
    }
  }

  lemma NothingIsNoComment()
    ensures !EndsInComment("")
  {
  }

  lemma EmptyNameReadsBack()
    ensures Unescape(Unquote("")) == ""
  {
  }

  lemma {:induction false} ParseEach(list: seq<MailAddress>)
    requires forall a :: a in list ==> Printable(a) && KeepsName(a)
    ensures ParseAll(FormatEach(list)) == CleanAll(list)
  {
    hide FormatAddress, Printable, KeepsName, ParseAddress, Clean;
    if list != [] {
      assert Printable(list[0]);
      ParseInvertsFormat(list[0]);
      assert FormatEach(list)[1..] == FormatEach(list[1..]);
      ParseEach(list[1..]);
      assert CleanAll(list) == [Clean(list[0])] + CleanAll(list[1..]);
    }
  }

  lemma JoinNothing()
    ensures Join([]) == ""
  {
  }

  lemma {:induction false} TrimEndKeepsText(s: string)
    requires s != "" && !IsSpace(s[0])
    ensures TrimEnd(s) != ""
  {
    hide IsSpace, TrimStart;
    if |s| > 1 && IsSpace(s[|s| - 1]) {
      TrimEndKeepsText(s[..|s| - 1]);
    }
  }

  lemma PrintedListIsNotBlank(list: seq<MailAddress>)
    requires list != [] && forall a :: a in list ==> Printable(a)
    ensures Trim(FormatList(list)) != ""
  {
    hide FormatAddress, Printable, TrimStart, TrimEnd, IsSpace, JoinRest;
    assert Printable(list[0]);
    PrintedIsTrimmed(list[0]);
    var text := FormatList(list);
    assert text[0] == FormatAddress(list[0])[0];
    TrimStartKeeps(text);
    TrimEndKeepsText(text);
  }

  /** Printing a list of addresses, joining it and reading it back gives the list. */
  lemma PrintedListReadsBack(list: seq<MailAddress>)
    requires (forall a :: a in list ==> Printable(a) && KeepsName(a)) && Survives(list)
    ensures SplitHeaderList(FormatList(list)) == FormatEach(list)
    ensures ParseAddressList(Some(FormatList(list))) == CleanAll(list)
  {
    hide FormatAddress, Printable, KeepsName, ParseAll, Clean, Trim, Scan, Join, Survives;
    SplitInvertsJoin(list);
    ParseEach(list);
    if list == [] {
      TrimNothing();
      JoinNothing();
    } else {
      PrintedListIsNotBlank(list);
    }
  }

  // ---------------------------------------------------------------- what does not survive

  lemma {:induction false} ScanInQuotes(st: SplitState, s: string)
    requires st.quoted && !st.escaped && '"' !in s && '\\' !in s
    ensures Scan(st, s) == st.(current := st.current + s)
    decreases |s|
  {
    hide Scan;
    if s == "" {
      ScanNothing(st);
      assert st.current + s == st.current;
    } else {
      ScanStep(st, s[0], s[1..]);
      assert [s[0]] + s[1..] == s;
      ScanInQuotes(Take(st, s[0]), s[1..]);
      Regroup(st.current, [s[0]], s[1..]);
    }
  }

  const GROUPED := MailAddress(Some("Sales: Bob"), "a@b.cc")

  /** A name with a colon: the splitter takes what stands before it for the name of a group. */
  lemma GroupPrefixIsLost()
    ensures FormatAddress(GROUPED) == "Sales: Bob <a@b.cc>"
    ensures StripGroupPrefix("Sales: Bob <a@b.cc>") == Trim(" Bob <a@b.cc>")
    ensures Printable(GROUPED) && SplitHeaderList(FormatList([GROUPED])) != FormatEach([GROUPED])
  {
    hide Trim, FormatAddress, SplitHeaderList, FormatList, StripGroupPrefix, Printable, Ungrouped, Survives;
    GroupedText();
    GroupedPrefix();
    GroupedIsPrintable();
    SplitInvertsJoin([GROUPED]);
    SurvivesOne([GROUPED]);
  }

  lemma GroupedNames()
    ensures CleanName(GROUPED) == "Sales: Bob" && Trim(GROUPED.address) == "a@b.cc"
  {
    hide TrimStart, TrimEnd;
    assert Trimmed("Sales: Bob") && Trimmed("a@b.cc");
    hide Trim, IsSpace;
    TrimOfTrimmed("Sales: Bob");
    TrimOfTrimmed("a@b.cc");
  }

  lemma GroupedText()
    ensures FormatAddress(GROUPED) == "Sales: Bob <a@b.cc>"
  {
    hide Trim, CleanName, Escape;
    GroupedNames();
    assert "a@b.cc" + ">" == "a@b.cc>";
    assert " <" + "a@b.cc>" == " <a@b.cc>";
  }

  lemma GroupedPrefix()
    ensures StripGroupPrefix("Sales: Bob <a@b.cc>") == Trim(" Bob <a@b.cc>")
  {
    hide Trim, IndexOf;
    var text := "Sales: Bob <a@b.cc>";
    assert text[5] == ':' && text[..5] == "Sales" && text[6..] == " Bob <a@b.cc>";
    ColonAt(text, 5);
  }

  lemma {:induction false} ColonAt(s: string, i: nat)
    requires i < |s| && s[i] == ':' && forall j :: 0 <= j < i ==> s[j] != ':'
    ensures IndexOf(s, ':') == i
  {
    if i > 0 {
      ColonAt(s[1..], i - 1);
    }
  }

  lemma {:induction false} PrefixIsFound(s: string, i: nat)
    requires i < |s| && s[i] == ':' && forall j :: 0 <= j < i ==> s[j] != '@'
    ensures !NoGroupPrefix(s)
  {
    if i > 0 {
      PrefixIsFound(s[1..], i - 1);
    }
  }

  lemma GroupedIsPrintable()
    ensures Printable(GROUPED) && !Ungrouped(GROUPED)
  {
    hide Trim, CleanName, IsUsableAddress, NoGroupPrefix;
    GroupedNames();
    GroupedIsUsable();
    PrefixIsFound("Sales: Bob" + "a@b.cc", 5);
  }

  lemma GroupedIsUsable()
    ensures IsUsableAddress("a@b.cc")
  {
    hide Trim, IndexOf, IsSpace, DotDomain, LiteralDomain;
    var t := "a@b.cc";
    PlainLetters();
    TrimOfTrimmed(t);
    AtSignWithin(t, 1);
    assert IndexOf(t, '@') == 1 by {
      assert t[0] != '@';
    }
    assert t[2..] == "b.cc";
    DottedDomain();
  }

  lemma DottedDomain()
    ensures DotDomain("b.cc")
  {
    hide IsSpace;
    PlainLetters();
    assert "b.cc"[1] == '.';
  }

  lemma PlainLetters()
    ensures !IsSpace('a') && !IsSpace('b') && !IsSpace('c') && !IsSpace('.')
  {
  }

  const COMMENTED := MailAddress(Some("Bob (work)"), "a@b.cc")

  /** A name that ends in brackets: the parser drops them as a comment. */
  lemma CommentIsLost()
    ensures Printable(COMMENTED) && ParseAddress(FormatAddress(COMMENTED)) != Some(Clean(COMMENTED))
  {
    hide Trim, ParseAddress, FormatAddress, Clean, IsUsableAddress;
    CommentedName();
    GroupedNames();
    GroupedIsUsable();
    assert "Bob (work)"[4] == '(' && ')' !in "Bob (work)"[5..9];
    ParseInvertsFormat(COMMENTED);
  }

  lemma CommentedName()
    ensures CleanName(COMMENTED) == "Bob (work)"
  {
    hide TrimStart, TrimEnd;
    assert Trimmed("Bob (work)");
    hide Trim, IsSpace;
    TrimOfTrimmed("Bob (work)");
  }

  const BACKSLASHED := MailAddress(Some("a,\\"), "x@y.zz")
  const BYSTANDER := MailAddress(None, "b@c.dd")

  /** A name that needs quotes and ends in a backslash: the printed backslash escapes the closing
      quote, the separator is read as part of the name, and both recipients are lost. */
  lemma TrailingBackslashLosesTheList()
    ensures FormatList([BACKSLASHED, BYSTANDER]) == "\"a,\\\" <x@y.zz>, b@c.dd"
    ensures SplitHeaderList(FormatList([BACKSLASHED, BYSTANDER])) == [FormatList([BACKSLASHED, BYSTANDER])]
    ensures ParseAddressList(Some(FormatList([BACKSLASHED, BYSTANDER]))) == []
  {
    hide Scan, Trim, FormatAddress, StripGroupPrefix, ParseAddress, FormatList, SplitHeaderList;
    var text := FormatList([BACKSLASHED, BYSTANDER]);
    BackslashedText();
    BackslashedList();
    BackslashedSplit(text);
    BackslashedParse(text);
    TextIsTrimmed(text);
    TrimOfTrimmed(text);
    assert [text][1..] == [];
    assert ParseAll([text][1..]) == [];
  }

  lemma BackslashedList()
    requires FormatAddress(BACKSLASHED) == "\"a,\\\" <x@y.zz>"
    requires FormatAddress(BYSTANDER) == "b@c.dd"
    ensures FormatList([BACKSLASHED, BYSTANDER]) == "\"a,\\\" <x@y.zz>, b@c.dd"
  {
    hide FormatAddress, JoinRest;
    var each := FormatEach([BACKSLASHED, BYSTANDER]);
    assert each == [FormatAddress(BACKSLASHED), FormatAddress(BYSTANDER)];
    assert each[1..] == [FormatAddress(BYSTANDER)];
    JoinOne(FormatAddress(BYSTANDER));
    assert ", " + "b@c.dd" == ", b@c.dd";
  }

  lemma JoinOne(item: string)
    ensures JoinRest([item]) == ", " + item
  {
    assert [item][1..] == [];
    assert JoinRest([item][1..]) == "";
    assert item + "" == item;
  }

  lemma SomeTextChars()
    ensures !IsSpace('a') && !IsSpace('\\') && !IsSpace('x') && !IsSpace('z') && !IsSpace('b') && !IsSpace('d')
    ensures IsSpace(' ')
  {
  }

  lemma BackslashedText()
    ensures FormatAddress(BACKSLASHED) == "\"a,\\\" <x@y.zz>"
    ensures FormatAddress(BYSTANDER) == "b@c.dd"
  {
    hide Trim, QuotedName, IsSpace, TrimStart, TrimEnd;
    TextPartsAreTrimmed();
    BackslashedName();
    BackslashedJoin();
  }

  lemma TextPartsAreTrimmed()
    ensures Trim("a,\\") == "a,\\" && Trim("x@y.zz") == "x@y.zz" && Trim("b@c.dd") == "b@c.dd"
  {
    hide Trim, IsSpace, TrimStart, TrimEnd;
    SomeTextChars();
    TrimOfTrimmed("a,\\");
    TrimOfTrimmed("x@y.zz");
    TrimOfTrimmed("b@c.dd");
  }

  lemma BackslashedName()
    ensures QuotedName("a,\\") == "\"a,\\\""
  {
    hide Escape;
    var name := "a,\\";
    assert name[1] == ',' && NeedsQuotes(name);
    EscapeWithoutQuotes(name);
  }

  lemma BackslashedJoin()
    ensures "\"a,\\\"" + (" <" + ("x@y.zz" + ">")) == "\"a,\\\" <x@y.zz>"
  {
    assert "x@y.zz" + ">" == "x@y.zz>";
    assert " <" + "x@y.zz>" == " <x@y.zz>";
  }

  lemma TextIsTrimmed(text: string)
    requires text == "\"a,\\\" <x@y.zz>, b@c.dd"
    ensures Trimmed(text)
  {
  }

  lemma BackslashedSplit(text: string)
    requires text == "\"a,\\\" <x@y.zz>, b@c.dd"
    ensures SplitHeaderList(text) == [text]
  {
    hide Scan, Trim, StripGroupPrefix, TrimStart, TrimEnd, IsSpace;
    var rest := " <x@y.zz>, b@c.dd";
    var quoting := SplitState([], "\"a,", true, false, 0, 0);
    var held := SplitState([], "\"a,\\\"", true, false, 0, 0);
    OpenedQuote("\\\"" + rest);
    EscapedQuote(quoting, rest);
    assert quoting.current + "\\\"" == held.current;
    ScanInQuotes(held, rest);
    TextTogether(text);
    TextIsTrimmed(text);
    TrimOfTrimmed(text);
    NoPrefixHere(text);
  }

  lemma TextTogether(text: string)
    requires text == "\"a,\\\" <x@y.zz>, b@c.dd"
    ensures text == "\"a," + ("\\\"" + " <x@y.zz>, b@c.dd") == "\"a,\\\"" + " <x@y.zz>, b@c.dd"
  {
  }

  lemma OpenedQuote(rest: string)
    ensures Scan(START, "\"a," + rest) == Scan(SplitState([], "\"a,", true, false, 0, 0), rest)
  {
    hide Scan, Trim, StripGroupPrefix;
    var begun := SplitState([], "\"", true, false, 0, 0);
    ScanStep(START, '"', "a," + rest);
    assert Take(START, '"') == begun;
    assert ['"'] + ("a," + rest) == "\"a," + rest;
    ScanConcat(begun, "a,", rest);
    ScanInQuotes(begun, "a,");
    assert "\"" + "a," == "\"a,";
  }

  lemma EscapedQuote(st: SplitState, rest: string)
    requires st.quoted && !st.escaped
    ensures Scan(st, "\\\"" + rest) == Scan(st.(current := st.current + "\\\""), rest)
  {
    hide Scan, Trim, StripGroupPrefix;
    ScanStep(st, '\\', ['"'] + rest);
    assert ['\\'] + (['"'] + rest) == "\\\"" + rest;
    ScanStep(Take(st, '\\'), '"', rest);
    assert (st.current + ['\\']) + ['"'] == st.current + "\\\"";
  }

  lemma NoPrefixHere(text: string)
    requires text == "\"a,\\\" <x@y.zz>, b@c.dd"
    ensures StripGroupPrefix(text) == Trim(text)
  {
    hide Trim;
    assert ':' !in text;
  }

  lemma BackslashedParse(text: string)
    requires text == "\"a,\\\" <x@y.zz>, b@c.dd"
    ensures ParseAddress(text) == None
  {
    hide TrimStart, TrimEnd, Trim, IsSpace, CommentForm, AngleForm, IsUsableAddress;
    TextIsTrimmed(text);
    TrimOfTrimmed(text);
    NotAngled(text);
    NoToken(text);
    BlankIsUnusable(text);
  }

  lemma NotAngled(text: string)
    requires Trimmed(text) && text[|text| - 1] != '>'
    ensures AngleForm(text) == None
  {
    hide TrimStart, IsSpace, TrimEnd;
    TrimOfTrimmed(text);
  }

  lemma NoToken(text: string)
    requires |text| > 2 && text[0] != '@' && text[1] != '@' && text[2] == ','
    ensures CommentForm(text) == None
  {
    hide Trim, IsSpace;
    assert EndsToken(text[2]);
    assert AtomLength(text) <= 2;
  }

  lemma BlankIsUnusable(text: string)
    requires Trimmed(text) && |text| > 6 && text[5] == ' ' && '@' !in text[..6]
    ensures !IsUsableAddress(text) && Trim(text) == text
  {
    hide IsSpace, Trim, DotDomain, LiteralDomain;
    TrimOfTrimmed(text);
    SomeTextChars();
    var at := IndexOf(text, '@');
    assert at < |text| ==> at > 5;
  }

  // ---------------------------------------------------------------- reply to all

  /** The lists `messageRecipients` parses out of the headers. */
  datatype MessageRecipients = MessageRecipients(from: seq<MailAddress>, to: seq<MailAddress>, cc: seq<MailAddress>,
                                                 replyTo: seq<MailAddress>)

  function NormalizeAddress(value: string): string {
    Lower(Trim(value))
  }

  function Normalized(list: seq<MailAddress>): set<string> {
    set a | a in list && NormalizeAddress(a.address) != "" :: NormalizeAddress(a.address)
  }

  /** The recipients a `seen` loop keeps. */
  function Unseen(list: seq<MailAddress>, seen: set<string>): seq<MailAddress> {
    if list == [] then []
    else
      var front, last := list[..|list| - 1], list[|list| - 1];
      var normalized := NormalizeAddress(last.address);
      if normalized == "" || normalized in seen + Normalized(front) then Unseen(front, seen)
      else Unseen(front, seen) + [last]
  }

  method KeepUnseen(list: seq<MailAddress>, seen: set<string>) returns (kept: seq<MailAddress>, now: set<string>)
    ensures kept == Unseen(list, seen) && now == seen + Normalized(list)
  {
    hide NormalizeAddress;
    kept, now := [], seen;
    for i := 0 to |list|
      invariant kept == Unseen(list[..i], seen) && now == seen + Normalized(list[..i])
    {
      var normalized := NormalizeAddress(list[i].address);
      NormalizedPrefix(list, i);
      assert list[..i + 1][..i] == list[..i];
      if normalized == "" || normalized in now {
        continue;
      }
      now := now + {normalized};
      kept := kept + [list[i]];
    }
    assert list[..|list|] == list;
  }

  lemma NormalizedPrefix(list: seq<MailAddress>, i: nat)
    requires i < |list|
    ensures var n := NormalizeAddress(list[i].address);
            Normalized(list[..i + 1]) == Normalized(list[..i]) + if n == "" then {} else {n}
  {
    hide NormalizeAddress;
    assert list[..i + 1] == list[..i] + [list[i]];
  }

  function ReplyTargets(r: MessageRecipients): seq<MailAddress> {
    if r.replyTo != [] then r.replyTo else if r.from != [] then r.from[..1] else []
  }

  function Excluded(r: MessageRecipients, accountEmail: Option<string>): set<string> {
    Normalized(ReplyTargets(r))
    + if accountEmail.Some? && accountEmail.value != "" then {NormalizeAddress(accountEmail.value)} else {}
  }

  method ReplyRecipients(r: MessageRecipients, accountEmail: Option<string>, replyAll: bool)
    returns (reply: Option<(string, string)>)
    ensures ReplyTargets(r) == [] <==> reply == None
    ensures reply.Some? && !replyAll ==> reply.value == (FormatList(ReplyTargets(r)), "")
    ensures reply.Some? && replyAll ==>
              var seen := Excluded(r, accountEmail);
              reply.value == (FormatList(ReplyTargets(r) + Unseen(r.to, seen)),
                              FormatList(Unseen(r.cc, seen + Normalized(r.to))))
  {
    var replyTargets := ReplyTargets(r);
    if replyTargets == [] {
      return None;
    }
    if !replyAll {
      return Some((FormatList(replyTargets), ""));
    }
    var additionalTo, seen := KeepUnseen(r.to, Excluded(r, accountEmail));
    var copies, _ := KeepUnseen(r.cc, seen);
    return Some((FormatList(replyTargets + additionalTo), FormatList(copies)));
  }

  /** The kept recipients are new, different, and stand for every recipient of the list. */
  lemma {:induction false} UnseenLaws(list: seq<MailAddress>, seen: set<string>)
    ensures var kept := Unseen(list, seen);
            && (forall a :: a in kept ==> a in list && NormalizeAddress(a.address) != ""
                                          && NormalizeAddress(a.address) !in seen)
            && (forall i, j :: 0 <= i < j < |kept| ==>
                                 NormalizeAddress(kept[i].address) != NormalizeAddress(kept[j].address))
            && Normalized(kept) == Normalized(list) - seen
  {
    hide NormalizeAddress;
    if list != [] {
      var front, last := list[..|list| - 1], list[|list| - 1];
      UnseenLaws(front, seen);
      NormalizedPrefix(list, |list| - 1);
      assert list[..|list| - 1 + 1] == list;
      var n := NormalizeAddress(last.address);
      if n != "" && n !in seen + Normalized(front) {
        UnseenStep(front, last, seen);
      }
    }
  }

  lemma UnseenStep(front: seq<MailAddress>, last: MailAddress, seen: set<string>)
    requires var kept := Unseen(front, seen);
             && (forall i, j :: 0 <= i < j < |kept| ==>
                                  NormalizeAddress(kept[i].address) != NormalizeAddress(kept[j].address))
             && (forall a :: a in kept ==> NormalizeAddress(a.address) != "")
             && Normalized(kept) == Normalized(front) - seen
    requires NormalizeAddress(last.address) != "" && NormalizeAddress(last.address) !in seen + Normalized(front)
    ensures var kept := Unseen(front, seen) + [last];
            && (forall i, j :: 0 <= i < j < |kept| ==>
                                 NormalizeAddress(kept[i].address) != NormalizeAddress(kept[j].address))
            && Normalized(kept) == Normalized(front) - seen + {NormalizeAddress(last.address)}
  {
    hide NormalizeAddress, Unseen;
    var earlier := Unseen(front, seen);
    forall i | 0 <= i < |earlier|
      ensures NormalizeAddress(earlier[i].address) != NormalizeAddress(last.address)
    {
      assert earlier[i] in earlier;
      assert NormalizeAddress(earlier[i].address) in Normalized(earlier);
    }
    assert (earlier + [last])[..|earlier|] == earlier;
    NormalizedPrefix(earlier + [last], |earlier|);
    assert (earlier + [last])[..|earlier| + 1] == earlier + [last];
  }

  /** No two addresses are the same but for case and white space around them. */
  ghost predicate AllDifferent(list: seq<MailAddress>) {
    forall i, j :: 0 <= i < j < |list| ==> !SameAddress(list[i].address, list[j].address)
  }

  /** The list has the address, in whatever case and with whatever white space around it. */
  ghost predicate Reaches(list: seq<MailAddress>, address: string) {
    exists a :: a in list && SameAddress(a.address, address)
  }

  lemma AddressesFold()
    ensures forall x, y :: SameAddress(x, y) <==> NormalizeAddress(x) == NormalizeAddress(y)
  {
    hide Trim, Lower, SameAddress;
    forall x, y
      ensures SameAddress(x, y) <==> NormalizeAddress(x) == NormalizeAddress(y)
    {
      SameAddressIff(x, y);
    }
  }

  lemma NewAndDifferent(before: seq<MailAddress>, list: seq<MailAddress>, seen: set<string>)
    requires forall n :: n in Normalized(before) ==> n in seen
    requires forall a :: a in list ==> NormalizeAddress(a.address) != "" && NormalizeAddress(a.address) !in seen
    requires AllDifferent(list)
    ensures AllDifferent(before + list) <==> AllDifferent(before)
  {
    hide NormalizeAddress, SameAddress;
    AddressesFold();
    var all := before + list;
    if AllDifferent(before) {
      forall i, j | 0 <= i < j < |all|
        ensures NormalizeAddress(all[i].address) != NormalizeAddress(all[j].address)
      {
        if i < |before| <= j {
          assert all[j] == list[j - |before|] && list[j - |before|] in list && before[i] in before;
          assert NormalizeAddress(before[i].address) == "" || NormalizeAddress(before[i].address) in Normalized(before);
        }
      }
    } else {
      var i, j :| 0 <= i < j < |before| && NormalizeAddress(before[i].address) == NormalizeAddress(before[j].address);
      assert all[i] == before[i] && all[j] == before[j];
    }
  }

  lemma NormalizedOfBoth(a: seq<MailAddress>, b: seq<MailAddress>)
    ensures Normalized(a + b) == Normalized(a) + Normalized(b)
  {
    hide NormalizeAddress;
  }

  lemma NotReached(list: seq<MailAddress>, seen: set<string>, address: string)
    requires forall a :: a in list ==> NormalizeAddress(a.address) != "" && NormalizeAddress(a.address) !in seen
    requires NormalizeAddress(address) == "" || NormalizeAddress(address) in seen
    ensures !Reaches(list, address)
  {
    hide NormalizeAddress, SameAddress;
    AddressesFold();
  }

  lemma NothingNormalizes()
    ensures NormalizeAddress("") == ""
  {
  }

  /** A reply to all reaches everyone who is not excluded, in To or else in Cc.  It names nobody
      twice exactly when the reply targets do not, and names the account exactly when it is one
      of them: the targets themselves are never filtered. */
  lemma ReplyReachesEveryoneOnce(r: MessageRecipients, accountEmail: Option<string>)
    ensures var seen := Excluded(r, accountEmail);
            var targets, to, cc := ReplyTargets(r), Unseen(r.to, seen), Unseen(r.cc, seen + Normalized(r.to));
            && Normalized(to) == Normalized(r.to) - seen
            && Normalized(cc) == Normalized(r.cc) - Normalized(r.to) - seen
            && (AllDifferent((targets + to) + cc) <==> AllDifferent(targets))
            && (accountEmail.Some? ==>
                  (Reaches((targets + to) + cc, accountEmail.value) <==> Reaches(targets, accountEmail.value)))
  {
    hide NormalizeAddress, Unseen, AllDifferent, Reaches, ReplyTargets;
    var seen := Excluded(r, accountEmail);
    var targets, to, cc := ReplyTargets(r), Unseen(r.to, seen), Unseen(r.cc, seen + Normalized(r.to));
    UnseenLaws(r.to, seen);
    UnseenLaws(r.cc, seen + Normalized(r.to));
    UnseenDiffer(r.to, seen);
    UnseenDiffer(r.cc, seen + Normalized(r.to));
    NewAndDifferent(targets, to, seen);
    NormalizedOfBoth(targets, to);
    NewAndDifferent(targets + to, cc, seen + Normalized(r.to));
    if accountEmail.Some? {
      NothingNormalizes();
      NotReached(to, seen, accountEmail.value);
      NotReached(cc, seen + Normalized(r.to), accountEmail.value);
      ReachesOne(targets, to, accountEmail.value);
      ReachesOne(targets + to, cc, accountEmail.value);
    }
  }

  lemma UnseenDiffer(list: seq<MailAddress>, seen: set<string>)
    ensures AllDifferent(Unseen(list, seen))
  {
    hide NormalizeAddress, SameAddress, Unseen;
    AddressesFold();
    UnseenLaws(list, seen);
  }

  lemma ReachesOne(a: seq<MailAddress>, b: seq<MailAddress>, address: string)
    ensures Reaches(a + b, address) <==> Reaches(a, address) || Reaches(b, address)
  {
    hide NormalizeAddress, SameAddress;
    AddressesFold();
    if x :| x in a && NormalizeAddress(x.address) == NormalizeAddress(address) {
      assert x in a + b;
    }
    if x :| x in b && NormalizeAddress(x.address) == NormalizeAddress(address) {
      assert x in a + b;
    }
  }

  /** A Reply-To header that names an address twice: both stay in the reply. */
  lemma RepeatedReplyTarget(a: MailAddress)
    requires Printable(a) && KeepsName(a) && Ungrouped(a) && Closes(a)
    ensures ParseAddressList(Some(FormatList([a, a]))) == [Clean(a), Clean(a)]
    ensures forall r: MessageRecipients | r.replyTo == [Clean(a), Clean(a)] :: !AllDifferent(ReplyTargets(r))
  {
    hide Printable, KeepsName, Ungrouped, Closes, StaysWhole, FormatList, ParseAddressList, Clean, AllDifferent;
    TwiceSurvives(a);
    PrintedListReadsBack([a, a]);
    assert CleanAll([a, a]) == [Clean(a), Clean(a)];
    SameTwice(Clean(a));
  }

  lemma TwiceSurvives(a: MailAddress)
    requires Ungrouped(a) && Closes(a)
    ensures Survives([a, a])
  {
    hide Ungrouped, Closes, StaysWhole;
    ClosesIsWhole(a);
  }

  lemma SameTwice(a: MailAddress)
    ensures !AllDifferent([a, a])
  {
    hide NormalizeAddress, SameAddress;
    AddressesFold();
    assert [a, a][0] == [a, a][1];
  }

  /** A reply to all to one's own message, without a Reply-To, goes to the account itself. */
  lemma ReplyToOneself(r: MessageRecipients, accountEmail: Option<string>)
    requires r.replyTo == [] && r.from != [] && accountEmail == Some(r.from[0].address)
    ensures var seen := Excluded(r, accountEmail);
            var targets, to, cc := ReplyTargets(r), Unseen(r.to, seen), Unseen(r.cc, seen + Normalized(r.to));
            Reaches((targets + to) + cc, accountEmail.value)
  {
    hide NormalizeAddress, SameAddress, Unseen;
    AddressesFold();
    var seen := Excluded(r, accountEmail);
    assert r.from[0] in ReplyTargets(r);
    assert r.from[0] in (ReplyTargets(r) + Unseen(r.to, seen)) + Unseen(r.cc, seen + Normalized(r.to));
  }
}
