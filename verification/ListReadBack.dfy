/**
 Reading a printed address list back, as a whole: splitting and parsing together give the list if and
 only if every printed address comes out of the split as it stands and parses to itself
 (`ListReadsBackIff`).

 A part that is not a whole printed address might still parse to the right name and address, or a part
 made of two might make up for it.  Neither happens: a piece of a printed address is too short for its
 name, and a reader that is behind stays behind, because it always starts inside or beyond the address
 it has to yield next.
 */
module ListReadBack {
  import opened AsciiText
  import opened Basics
  import opened JavaScriptText
  import opened Options
  import opened Recipients

  // ---------------------------------------------------------------- one part after the other

  function Fresh(lead: string): SplitState {
    SplitState([], lead, false, false, 0, 0)
  }

  /** The parts of `s`, read after `lead`. */
  function PartsOf(lead: string, s: string): seq<string> {
    Finish(Scan(Fresh(lead), s))
  }

  lemma TakeAfterParts(parts: seq<string>, st: SplitState, c: char)
    ensures Take(st.(parts := parts + st.parts), c) == Take(st, c).(parts := parts + Take(st, c).parts)
  {
    hide Trim, StripGroupPrefix;
    if Trim(st.current) != "" {
      Regroup(parts, st.parts, [StripGroupPrefix(st.current)]);
    }
  }

  lemma {:induction false} ScanAfterParts(parts: seq<string>, st: SplitState, s: string)
    ensures Scan(st.(parts := parts + st.parts), s) == Scan(st, s).(parts := parts + Scan(st, s).parts)
    decreases |s|
  {
    hide Take;
    if s != "" {
      TakeAfterParts(parts, st, s[0]);
      ScanAfterParts(parts, Take(st, s[0]), s[1..]);
    }
  }

  lemma FinishAfterParts(parts: seq<string>, st: SplitState)
    ensures Finish(st.(parts := parts + st.parts)) == parts + Finish(st)
  {
    hide Trim, StripGroupPrefix;
    if Trim(st.current) != "" {
      Regroup(parts, st.parts, [StripGroupPrefix(st.current)]);
    }
  }

  lemma PartsAfter(parts: seq<string>, lead: string, s: string)
    ensures Finish(Scan(SplitState(parts, lead, false, false, 0, 0), s)) == parts + PartsOf(lead, s)
  {
    hide Scan, Finish;
    ScanAfterParts(parts, Fresh(lead), s);
    FinishAfterParts(parts, Scan(Fresh(lead), s));
    assert parts + [] == parts;
  }

  lemma ScanPast(st: SplitState, a: string, c: char, b: string)
    requires Idle(Scan(st, a)) && IsSeparator(c)
    ensures Scan(st, a + ([c] + b)) == Scan(SplitState(Finish(Scan(st, a)), "", false, false, 0, 0), b)
  {
    hide Scan, Finish, Idle, IsSeparator, Take;
    ScanConcat(st, a, [c] + b);
    ScanStep(Scan(st, a), c, b);
    TakeSeparator(Scan(st, a), c);
  }

  lemma ScanPastCut(st: SplitState, s: string)
    requires Cut(st, s) < |s|
    ensures var n := Cut(st, s);
            && IsSeparator(s[n])
            && Scan(st, s) == Scan(SplitState(Flush(st.parts, st.current + s[..n]), "", false, false, 0, 0), s[n + 1..])
  {
    hide Scan, Cut, Flush, Idle, IsSeparator;
    var n := Cut(st, s);
    ScanToCut(st, s);
    assert s == s[..n] + ([s[n]] + s[n + 1..]);
    ScanPast(st, s[..n], s[n], s[n + 1..]);
  }

  lemma ScanWithoutCut(st: SplitState, s: string)
    requires Cut(st, s) == |s|
    ensures Finish(Scan(st, s)) == Flush(st.parts, st.current + s)
  {
    hide Scan, Trim, StripGroupPrefix, Cut, Flush, Take, Idle;
    ScanToCut(st, s);
    assert s[..|s|] == s;
  }

  /** The first part and the rest. */
  lemma PartsSplit(lead: string, s: string)
    ensures var n := Cut(Fresh(lead), s);
            && (n == |s| ==> PartsOf(lead, s) == Flush([], lead + s))
            && (n < |s| ==> IsSeparator(s[n]) && PartsOf(lead, s) == Flush([], lead + s[..n]) + PartsOf("", s[n + 1..]))
  {
    hide Scan, Cut, Flush, Finish, IsSeparator;
    var n := Cut(Fresh(lead), s);
    if n < |s| {
      ScanPastCut(Fresh(lead), s);
      PartsAfter(Flush([], lead + s[..n]), "", s[n + 1..]);
    } else {
      ScanWithoutCut(Fresh(lead), s);
    }
  }

  // ---------------------------------------------------------------- what one part parses to

  /** The address a part of the text yields, if any. */
  function Yield(part: string): seq<MailAddress> {
    if Trim(part) == "" then []
    else
      var parsed := ParseAddress(StripGroupPrefix(part));
      if parsed.Some? then [parsed.value] else []
  }

  lemma YieldOfFlush(part: string)
    ensures ParseAll(Flush([], part)) == Yield(part) && |Yield(part)| <= 1
  {
    hide Trim, StripGroupPrefix, ParseAddress;
    var x := StripGroupPrefix(part);
    assert [] + [x] == [x] && [x][1..] == [];
  }

  lemma {:induction false} ParseConcat(a: seq<string>, b: seq<string>)
    ensures ParseAll(a + b) == ParseAll(a) + ParseAll(b)
  {
    hide ParseAll, OneParsed;
    if a == [] {
      assert a + b == b;
      NothingParses();
      assert [] + ParseAll(b) == ParseAll(b);
    } else {
      ParseConcat(a[1..], b);
      ParseFirst(a);
      ParseFirst(a + b);
      TailOfBoth(a, b);
      Regroup(OneParsed(a[0]), ParseAll(a[1..]), ParseAll(b));
    }
  }

  lemma TailOfBoth(a: seq<string>, b: seq<string>)
    requires a != []
    ensures (a + b)[1..] == a[1..] + b && (a + b)[0] == a[0]
  {
  }

  function OneParsed(part: string): seq<MailAddress> {
    if ParseAddress(part).Some? then [ParseAddress(part).value] else []
  }

  lemma ParseFirst(parts: seq<string>)
    requires parts != []
    ensures ParseAll(parts) == OneParsed(parts[0]) + ParseAll(parts[1..])
  {
    hide ParseAddress;
  }

  lemma NothingParses()
    ensures ParseAll([]) == []
  {
  }

  lemma TrimOfSpaced(x: string)
    ensures Trim(" " + x) == Trim(x)
  {
    hide TrimStart, TrimEnd;
    TrimStartOfSpace(x);
  }

  lemma StripOfSpaced(x: string)
    ensures StripGroupPrefix(" " + x) == StripGroupPrefix(x)
  {
    hide Trim, IndexOf;
    TrimOfSpaced(x);
    ColonAfterSpace(x);
    var c := IndexOf(x, ':');
    assert (" " + x)[..c + 1] == [' '] + x[..c];
    if c < |x| {
      assert (" " + x)[c + 2..] == x[c + 1..];
    }
  }

  /** The space after a comma makes no difference. */
  lemma LeadIsStripped(lead: string, x: string)
    requires IsLead(lead)
    ensures Yield(lead + x) == Yield(x)
  {
    hide Trim, StripGroupPrefix, ParseAddress;
    if lead == "" {
      assert "" + x == x;
    } else {
      TrimOfSpaced(x);
      StripOfSpaced(x);
    }
  }

  lemma ColonAfterSpace(x: string)
    ensures IndexOf(" " + x, ':') == 1 + IndexOf(x, ':')
  {
    assert (" " + x)[1..] == x;
  }

  /** What a text parses to: what its first part yields, and then the rest. */
  lemma ParsedStep(lead: string, s: string)
    requires IsLead(lead)
    ensures var n := Cut(Fresh(lead), s);
            && (n == |s| ==> ParseAll(PartsOf(lead, s)) == Yield(s))
            && (n < |s| ==> IsSeparator(s[n])
                            && ParseAll(PartsOf(lead, s)) == Yield(s[..n]) + ParseAll(PartsOf("", s[n + 1..])))
  {
    hide PartsOf, ParseAll, Cut, Yield, Flush, IsSeparator, IsLead, Fresh;
    var n := Cut(Fresh(lead), s);
    PartsSplit(lead, s);
    YieldOfFlush(lead + s[..n]);
    LeadIsStripped(lead, s[..n]);
    if n < |s| {
      ParseConcat(Flush([], lead + s[..n]), PartsOf("", s[n + 1..]));
    } else {
      assert s[..n] == s;
    }
  }

  lemma YieldIsShort(part: string)
    ensures |Yield(part)| <= 1
  {
    hide Trim, ParseAddress, StripGroupPrefix;
  }

  // ---------------------------------------------------------------- sizes

  /** How long `s` is when its escaped quotes count once. */
  function Size(s: string): nat {
    |Unescape(s)|
  }

  lemma {:induction false} SizeOfBoth(a: string, b: string)
    ensures Size(a) + Size(b) - 1 <= Size(a + b) <= Size(a) + Size(b)
    ensures b == "" || b[0] != '"' ==> Size(a + b) == Size(a) + Size(b)
    ensures Size(a + b) >= Size(a)
  {
    if a == "" {
      assert a + b == b;
    } else if |a| >= 2 && a[0] == '\\' && a[1] == '"' {
      assert (a + b)[2..] == a[2..] + b;
      SizeOfBoth(a[2..], b);
    } else {
      assert (a + b)[1..] == a[1..] + b;
      SizeOfBoth(a[1..], b);
    }
  }

  lemma SizeOfOne(c: char, s: string)
    requires c != '\\'
    ensures Size([c] + s) == 1 + Size(s)
  {
    assert ([c] + s)[1..] == s;
  }

  lemma SizeOfTail(s: string, i: nat)
    requires i <= |s|
    ensures Size(s[i..]) <= Size(s)
    decreases i
  {
    if i > 0 {
      SizeOfTail(s, i - 1);
      DropOne(s[i - 1..]);
      assert s[i - 1..][1..] == s[i..];
    } else {
      assert s[0..] == s;
    }
  }

  lemma DropOne(s: string)
    requires s != ""
    ensures Size(s[1..]) <= Size(s)
  {
    if |s| >= 2 && s[0] == '\\' && s[1] == '"' {
      assert s[1..][1..] == s[2..];
    }
  }

  lemma SizeOfSlice(s: string, i: nat, j: nat)
    requires i <= j <= |s|
    ensures Size(s[i..j]) <= Size(s)
  {
    hide Size;
    SizeOfTail(s, i);
    SizeOfBoth(s[i..j], s[j..]);
    assert s[i..] == s[i..j] + s[j..];
  }

  lemma TrimIsSlice(s: string)
    ensures exists i, j :: 0 <= i <= j <= |s| && Trim(s) == s[i..j]
  {
    var t := TrimStart(s);
    var i := |s| - |t|;
    assert TrimEnd(t) == s[i..i + |TrimEnd(t)|];
  }

  lemma SizeOfTrim(s: string)
    ensures Size(Trim(s)) <= Size(s)
  {
    hide Size, Trim;
    TrimIsSlice(s);
    var i, j :| 0 <= i <= j <= |s| && Trim(s) == s[i..j];
    SizeOfSlice(s, i, j);
  }

  lemma SizeOfUnquote(s: string)
    ensures Size(Unquote(s)) <= Size(s)
  {
    hide Size, HasLineTerminator;
    if |s| >= 2 {
      SizeOfSlice(s, 1, |s| - 1);
    }
  }

  lemma SizeOfUncommented(s: string)
    ensures Size(RemoveTrailingComment(s)) <= Size(s)
  {
    hide Size, TrimEnd, CommentStart;
    var v := TrimEnd(s);
    var n := CommentStart(v, 0);
    if n < |v| {
      SizeOfSlice(s, 0, n);
    }
  }

  /** The name the parser makes of a text is no longer than the text. */
  lemma NameIsShort(text: string)
    ensures |NameOf(text)| <= Size(Trim(text)) <= Size(text)
  {
    hide Trim, RemoveTrailingComment, Unquote, Unescape;
    var t := Trim(text);
    SizeOfTrim(text);
    SizeOfUncommented(t);
    SizeOfTrim(RemoveTrailingComment(t));
    SizeOfUnquote(Trim(RemoveTrailingComment(t)));
  }

  lemma {:induction false} SizeOfEscaped(s: string)
    ensures Size(Escape(s)) == |s|
  {
    UnescapeInvertsEscape(s);
  }

  // ---------------------------------------------------------------- names need room

  lemma AngleIsPrefix(v: string)
    requires AngleForm(v).Some?
    ensures var r := AngleForm(v).value.0;
            |r| + 2 <= |v| && v[..|r|] == r && v[|r|] == '<' && |AngleForm(v).value.1| <= |v|
  {
    hide HasLineTerminator;
    var t := TrimEnd(v);
    var body := t[..|t| - 1];
    var open := LastIndexOf(body, '<').value;
    assert v[..open] == body[..open];
  }

  lemma CommentIsSlice(v: string)
    requires CommentForm(v).Some? && CommentForm(v).value.1.Some?
    ensures var c := CommentForm(v).value.1.value;
            Size(c) + 2 <= Size(v) && '(' in v
  {
    hide TrimStart, TrimEnd, Trim, Size;
    var n, c := AtomLength(v), CommentForm(v).value.1.value;
    var rest := Trim(v[n..]);
    TrimIsSlice(v[n..]);
    var i, j :| 0 <= i <= j <= |v[n..]| && rest == v[n..][i..j];
    assert v[n + i] == '(';
    SizeOfTail(v, n);
    SizeOfSlice(v[n..], i, j);
    assert rest == ['('] + (c + [')']);
    SizeOfBracketed(c);
  }

  lemma SizeOfBracketed(c: string)
    ensures Size(['('] + (c + [')'])) == Size(c) + 2
  {
    hide Size;
    SizeOfOne('(', c + [')']);
    SizeOfBoth(c, [')']);
    SizeOfOne(')', "");
    NothingIsSmall();
    assert [')'] + "" == [')'];
  }

  lemma NothingIsSmall()
    ensures Size("") == 0
  {
  }

  /** Where the name of a parsed address comes from. */
  lemma ParsedName(v: string)
    requires ParseAddress(v).Some?
    ensures ParseAddress(v).value.name
         == if AngleForm(v).Some? then NonEmpty(NameOf(AngleForm(v).value.0))
            else if CommentForm(v).Some? && CommentForm(v).value.1.Some?
            then NonEmpty(Unescape(Unquote(Trim(CommentForm(v).value.1.value))))
            else None
  {
    hide Trim, AngleForm, CommentForm, IsUsableAddress, RemoveTrailingComment, Unescape, Unquote;
    EmptyNameReadsBack();
  }

  /** A name leaves out at least the two brackets around it or around the address. */
  lemma NameNeedsBrackets(v: string)
    requires ParseAddress(v).Some? && ParseAddress(v).value.name.Some?
    ensures |ParseAddress(v).value.name.value| + 2 <= Size(v)
    ensures '<' in v || '(' in v
  {
    hide Trim, AngleForm, CommentForm, ParseAddress, Unescape, Unquote, NameOf, Size;
    ParsedName(v);
    if AngleForm(v).Some? {
      AngleIsPrefix(v);
      var r := AngleForm(v).value.0;
      NameIsShort(r);
      assert v == r + (['<'] + v[|r| + 1..]);
      SizeOfAngled(r, v[|r| + 1..]);
    } else {
      var c := CommentForm(v).value.1.value;
      CommentIsSlice(v);
      SizeOfTrim(c);
      SizeOfUnquote(Trim(c));
      SizeIsLength(Unquote(Trim(c)));
    }
  }

  lemma SizeIsLength(s: string)
    ensures Size(s) == |Unescape(s)|
  {
  }

  lemma SizeOfAngled(r: string, rest: string)
    requires rest != ""
    ensures Size(r + (['<'] + rest)) >= Size(r) + 2
  {
    hide Size;
    SizeOfBoth(r, ['<'] + rest);
    SizeOfOne('<', rest);
    SomethingIsBig(rest);
  }

  lemma SomethingIsBig(s: string)
    requires s != ""
    ensures Size(s) >= 1
  {
  }

  lemma AddressIsShort(v: string)
    requires ParseAddress(v).Some?
    ensures |ParseAddress(v).value.address| <= |v|
  {
    hide Trim, AngleForm, CommentForm, IsUsableAddress, RemoveTrailingComment, Unescape, Unquote;
    TrimIsShort(v);
    if AngleForm(v).Some? {
      AngleIsPrefix(v);
      TrimIsShort(AngleForm(v).value.1);
    } else if CommentForm(v).Some? {
      CommentIsPrefix(v);
      TrimIsShort(CommentForm(v).value.0);
    }
  }

  lemma CommentIsPrefix(v: string)
    requires CommentForm(v).Some?
    ensures |CommentForm(v).value.0| <= |v|
  {
  }

  // ---------------------------------------------------------------- pieces of a printed address

  /** A character of an escaped name that is neither quote nor backslash stands for itself. */
  lemma {:induction false} EscapedAt(name: string, k: nat) returns (i: nat)
    requires k < |Escape(name)| && Escape(name)[k] != '"' && Escape(name)[k] != '\\'
    ensures i < |name| && name[i] == Escape(name)[k]
    ensures Escape(name)[..k] == Escape(name[..i]) && Escape(name)[k + 1..] == Escape(name[i + 1..])
  {
    var head, rest := EscapeChar(name[0]), Escape(name[1..]);
    EscapeStep(name);
    if k < |head| {
      i := 0;
      assert name[..0] == "" && name[1..] == name[0 + 1..];
      assert Escape(name)[..k] == "";
      assert Escape(name)[k + 1..] == rest;
    } else {
      var j := EscapedAt(name[1..], k - |head|);
      i := j + 1;
      assert name[..i][1..] == name[1..][..j];
      EscapeStep(name[..i]);
      assert name[i + 1..] == name[1..][j + 1..];
      assert Escape(name)[..k] == head + rest[..k - |head|];
      assert Escape(name)[k + 1..] == rest[k - |head| + 1..];
    }
  }

  /** Only a quoted name holds separators. */
  lemma SeparatorIsInName(a: MailAddress, e: nat) returns (i: nat)
    requires Printable(a) && e < |FormatAddress(a)| && IsSeparator(FormatAddress(a)[e])
    ensures CleanName(a) != "" && i < |CleanName(a)|
    ensures FormatAddress(a)[..e] == "\"" + Escape(CleanName(a)[..i])
  {
    hide Trim, IsUsableAddress, HasLineTerminator, Escape, CleanName, Plain, AngleText;
    var name, address, item := CleanName(a), Trim(a.address), FormatAddress(a);
    PlainIsText(address);
    AngleTextIsText(address);
    AngleTextUnfolds(address);
    BareHasNoSeparators(name, address);
    assert NeedsQuotes(name);
    FormatIsQuoted(a);
    i := QuotedAt(name, "\"" + AngleText(address), e);
  }

  lemma BareHasNoSeparators(name: string, address: string)
    requires Plain(address)
    ensures !NeedsQuotes(name) ==> NoSeparators(name + AngleText(address))
  {
    hide AngleText, Plain;
    AngleTextIsText(address);
    var text := name + AngleText(address);
    forall i | 0 <= i < |text| && !NeedsQuotes(name)
      ensures !IsSeparator(text[i])
    {
      if i < |name| {
        assert text[i] in name;
      } else {
        assert text[i] == AngleText(address)[i - |name|];
      }
    }
  }

  lemma QuotedAt(name: string, tail: string, e: nat) returns (i: nat)
    requires NoSeparators(tail) && e < |"\"" + (Escape(name) + tail)|
    requires IsSeparator(("\"" + (Escape(name) + tail))[e])
    ensures i < |name| && ("\"" + (Escape(name) + tail))[..e] == "\"" + Escape(name[..i])
  {
    hide Escape;
    var text := "\"" + (Escape(name) + tail);
    forall m | 1 + |Escape(name)| <= m < |text|
      ensures !IsSeparator(text[m])
    {
      assert text[m] == tail[m - 1 - |Escape(name)|];
    }
    assert 0 < e < 1 + |Escape(name)|;
    assert text[e] == Escape(name)[e - 1];
    i := EscapedAt(name, e - 1);
    assert text[..e] == "\"" + Escape(name)[..e - 1];
  }

  /** A piece that ends where a separator of the name stands is too short for the name. */
  lemma HeadIsNotIt(a: MailAddress, j: nat, e: nat)
    requires Printable(a) && j <= e < |FormatAddress(a)| && IsSeparator(FormatAddress(a)[e])
    ensures Yield(FormatAddress(a)[j..e]) != [Clean(a)]
  {
    hide Trim, Printable, FormatAddress, CleanName, ParseAddress, StripGroupPrefix, Escape, Size, IsSeparator;
    var item := FormatAddress(a);
    var i := SeparatorIsInName(a, e);
    var v := StripGroupPrefix(item[j..e]);
    SizeOfStripped(item[j..e]);
    SizeOfTail(item[..e], j);
    assert item[..e][j..] == item[j..e];
    SizeOfOpened(CleanName(a)[..i]);
    if ParseAddress(v).Some? && ParseAddress(v).value.name.Some? {
      NameNeedsBrackets(v);
    }
  }

  lemma SizeOfStripped(x: string)
    ensures Size(StripGroupPrefix(x)) <= Size(x)
  {
    hide Trim, Size, IndexOf;
    var c := IndexOf(x, ':');
    SizeOfTrim(x);
    if c < |x| {
      SizeOfTail(x, c + 1);
      SizeOfTrim(x[c + 1..]);
    }
  }

  lemma SizeOfOpened(name: string)
    ensures Size("\"" + Escape(name)) == 1 + |name|
  {
    hide Size;
    SizeOfOne('"', Escape(name));
    SizeOfEscaped(name);
    assert ['"'] + Escape(name) == "\"" + Escape(name);
  }

  // -- what is left behind a separator or a colon

  predicate EndsHead(c: char) {
    IsSeparator(c) || c == ':'
  }

  lemma {:induction false} TrimStartOfBoth(t: string, rest: string)
    ensures TrimStart(t + rest) == if TrimStart(t) == "" then TrimStart(rest) else TrimStart(t) + rest
  {
    hide IsSpace;
    if t == "" {
      assert t + rest == rest;
    } else if IsSpace(t[0]) {
      assert (t + rest)[1..] == t[1..] + rest;
      TrimStartOfBoth(t[1..], rest);
    } else {
      assert (t + rest)[0] == t[0];
    }
  }

  /** The angle bracket of the address survives trimming; before it stands what is left of `t`. */
  lemma AngleOfTail(t: string, address: string)
    requires !HasLineTerminator(t) && Plain(address) && address != ""
    ensures var v := Trim(t + AngleText(address));
            AngleForm(v) == Some((if TrimStart(t) == "" then "" else TrimStart(t) + " ", address))
  {
    hide TrimStart, TrimEnd, IsSpace, AngleForm, HasLineTerminator, Plain;
    var kept := TrimStart(t);
    AngleTextUnfolds(address);
    TrimStartOfBoth(t, AngleText(address));
    if kept == "" {
      NothingBefore(address);
    } else {
      EndsInBracket(kept, address);
      TailKeepsLines(t, |t| - |kept|);
      AngleOfPrinted(kept, address);
    }
  }

  lemma TailKeepsLines(t: string, i: nat)
    requires i <= |t| && !HasLineTerminator(t)
    ensures !HasLineTerminator(t[i..])
  {
    assert forall k :: 0 <= k < |t[i..]| ==> t[i..][k] == t[i + k];
  }

  lemma EndsInBracket(kept: string, address: string)
    ensures TrimEnd(kept + AngleText(address)) == kept + AngleText(address)
  {
    assert kept + (" <" + (address + ">")) == (kept + (" <" + address)) + ">";
    EndsInAngle(kept + (" <" + address));
  }

  lemma NothingBefore(address: string)
    requires Plain(address) && address != ""
    ensures TrimEnd(TrimStart(AngleText(address))) == "<" + (address + ">")
    ensures AngleForm("<" + (address + ">")) == Some(("", address))
  {
    hide LastIndexOf, TrimEnd, TrimStart, Plain, IsSpace;
    var body := "<" + address;
    NoAngles(address);
    assert body[0] == '<' && body[1..] == address && body[..0] == "";
    LastIndexAt(body, 0, '<');
    AngleOfBody(body, 0);
    assert body + ">" == "<" + (address + ">");
    EndsInAngle(body);
    assert AngleText(address) == " " + (body + ">");
    TrimStartOfSpace(body + ">");
    BracketIsText();
    TrimStartKeeps(body + ">");
  }

  lemma BracketIsText()
    ensures !IsSpace('<') && !IsSpace('"')
  {
  }

  /** No text repeats itself one place on and ends in something else. */
  lemma {:induction false} ShiftedDiffers(s: string, c: char, d: char)
    requires c != d
    ensures [c] + s != s + [d]
  {
    if s == "" {
      assert ([c] + s)[0] != (s + [d])[0];
    } else if s[0] != c {
      assert ([c] + s)[0] != (s + [d])[0];
    } else {
      ShiftedDiffers(s[1..], c, d);
      assert s == [c] + s[1..];
      assert ([c] + s)[1..] == s && (s + [d])[1..] == s[1..] + [d];
    }
  }

  /** Unescaping the rest of a quoted name with its closing quote. */
  lemma {:induction false} UnescapedTail(s: string)
    ensures Unescape(Escape(s) + "\"") == s + "\"" || |Unescape(Escape(s) + "\"")| <= |s|
  {
    if |s| == 1 && s[0] == '\\' {
      assert Escape(s) + "\"" == "\\\"";
    } else if s != "" {
      EscapeStep(s);
      UnescapedTail(s[1..]);
      var rest := Escape(s[1..]) + "\"";
      Regroup(EscapeChar(s[0]), Escape(s[1..]), "\"");
      EscapedHead(s[1..]);
      if s[0] == '"' || |s| > 1 {
        TailStep(s[0], rest, |s| > 1);
      }
    }
  }

  lemma TailStep(c: char, rest: string, more: bool)
    requires rest != "" && (rest[0] != '"' || c != '\\')
    ensures Unescape(EscapeChar(c) + rest) == [c] + Unescape(rest)
  {
    if c == '"' {
      assert (EscapeChar(c) + rest)[2..] == rest;
    } else {
      assert ([c] + rest)[1..] == rest;
    }
  }

  lemma QuoteIsKept(s: string)
    ensures TrimStart(s + "\"") != "" && Trimmed(TrimStart(s + "\""))
  {
    hide IsSpace;
    BracketIsText();
    TrimStartOfBoth(s, "\"");
    var kept := TrimStart(s + "\"");
    assert kept[|kept| - 1] == '"';
  }

  lemma DroppedIsSpace(t: string)
    requires |TrimStart(t)| < |t|
    ensures IsSpace(t[0]) && t[0] != '\\'
  {
    BackslashIsText();
  }

  lemma BackslashIsText()
    ensures !IsSpace('\\')
  {
  }

  lemma SizeOfTrimmedTail(t: string)
    requires |TrimStart(t)| < |t|
    ensures Size(TrimStart(t)) < Size(t)
  {
    hide TrimStart, IsSpace, Size;
    DroppedIsSpace(t);
    var d := |t| - |TrimStart(t)|;
    SizeOfOne(t[0], t[1..]);
    assert t == [t[0]] + t[1..];
    SizeOfTail(t[1..], d - 1);
    assert t[1..][d - 1..] == TrimStart(t);
  }

  lemma SizeOfQuote()
    ensures Size("\"") == 1
  {
  }

  /** The name left of a quoted name behind a separator or colon of it is another name. */
  lemma QuotedTailDiffers(name: string, i: nat)
    requires i < |name| && EndsHead(name[i])
    ensures var kept := TrimStart(Escape(name[i + 1..]) + "\"");
            kept != "" && NameOf(kept + " ") != name
  {
    hide TrimStart, TrimEnd, Trim, IsSpace, Escape, NameOf, Size;
    var rest := name[i + 1..];
    var t := Escape(rest) + "\"";
    var kept := TrimStart(t);
    QuoteIsKept(Escape(rest));
    NameIsShort(kept + " ");
    SizeOfBoth(Escape(rest), "\"");
    SizeOfEscaped(rest);
    SizeOfQuote();
    TrimSpaceAfter(kept);
    if |kept| < |t| {
      SizeOfTrimmedTail(t);
    } else if i == 0 {
      assert kept == t;
      NameOfTail(rest);
      UnescapedTail(rest);
      ShiftedDiffers(rest, name[0], '"');
      assert name == [name[0]] + rest;
    }
  }

  /** Unquoting does nothing to a text without an opening quote. */
  lemma NameOfTail(rest: string)
    requires Trimmed(Escape(rest) + "\"")
    ensures NameOf((Escape(rest) + "\"") + " ") == Unescape(Escape(rest) + "\"")
  {
    hide TrimStart, TrimEnd, Trim, IsSpace, Escape, Unescape, CommentStart;
    var t := Escape(rest) + "\"";
    TrimSpaceAfter(t);
    CommentIsRemovedIff(t);
    TrimOfTrimmed(t);
    EscapedHead(rest);
    assert t[|t| - 1] == '"';
    if Escape(rest) != "" {
      assert t[0] == Escape(rest)[0];
    }
  }

  /** So does the rest of a name without quotes. */
  lemma BareTailDiffers(name: string, i: nat)
    requires i < |name|
    ensures var kept := TrimStart(name[i + 1..]);
            NameOf(kept + " ") != name
  {
    hide TrimStart, TrimEnd, Trim, IsSpace, NameOf;
    var kept := TrimStart(name[i + 1..]);
    NameIsShort(kept + " ");
    TrimOfSpace(kept);
    TrimIsShort(kept);
    UnescapeIsShort(Trim(kept + " "));
  }

  lemma TrimOfSpace(kept: string)
    ensures |Trim(kept + " ")| <= |kept|
  {
    hide Trim, IsSpace;
    var s := kept + " ";
    TrimIsSlice(s);
    TrimIsTrimmed(s);
    SpaceIsSpace();
    assert s[0..|s|] == s && s[|s| - 1] == ' ';
    var i, j :| 0 <= i <= j <= |s| && Trim(s) == s[i..j];
  }

  lemma SpaceIsSpace()
    ensures IsSpace(' ')
  {
  }

  lemma NothingHasNoName()
    ensures NameOf("") == ""
  {
  }

  /** What is left of a printed address behind a separator or colon does not parse to it. */
  lemma TailParse(a: MailAddress, e: nat)
    requires Printable(a) && e < |FormatAddress(a)| && EndsHead(FormatAddress(a)[e])
    ensures ParseAddress(Trim(FormatAddress(a)[e + 1..])) != Some(Clean(a))
  {
    hide Trim, IsUsableAddress, HasLineTerminator, QuotedName, Plain, ParseAddress, EndsHead;
    var name, address, item := CleanName(a), Trim(a.address), FormatAddress(a);
    var v := Trim(item[e + 1..]);
    TrimIsShort(item[e + 1..]);
    if name == "" {
      if ParseAddress(v).Some? {
        AddressIsShort(v);
      }
    } else if e < |QuotedName(name)| {
      NameTailParse(a, e);
    } else {
      AddressTailParse(a, e);
    }
  }

  /** The colon was in the address: no angle bracket is left for a name to stand before. */
  lemma AddressTailParse(a: MailAddress, e: nat)
    requires Printable(a) && CleanName(a) != "" && |QuotedName(CleanName(a))| <= e < |FormatAddress(a)|
    requires EndsHead(FormatAddress(a)[e])
    ensures ParseAddress(Trim(FormatAddress(a)[e + 1..])) != Some(Clean(a))
  {
    hide Trim, IsUsableAddress, HasLineTerminator, QuotedName, Plain, ParseAddress, CleanName;
    var quoted, address := QuotedName(CleanName(a)), Trim(a.address);
    var tail := " <" + (address + ">");
    var x := FormatAddress(a)[e + 1..];
    assert FormatAddress(a)[e] == tail[e - |quoted|] && e - |quoted| >= 2;
    assert x == tail[e - |quoted| + 1..];
    NoBrackets(address, e - |quoted| + 1);
    TrimIsSlice(x);
    var i, j :| 0 <= i <= j <= |x| && Trim(x) == x[i..j];
    assert forall c :: c in x[i..j] ==> c in x;
    if ParseAddress(Trim(x)).Some? && ParseAddress(Trim(x)).value.name.Some? {
      NameNeedsBrackets(Trim(x));
    }
  }

  lemma NoBrackets(address: string, k: nat)
    requires Plain(address) && 2 <= k <= |address| + 3
    ensures '<' !in (" <" + (address + ">"))[k..] && '(' !in (" <" + (address + ">"))[k..]
  {
    hide PlainChar;
    var x := (" <" + (address + ">"))[k..];
    forall i | 0 <= i < |x|
      ensures x[i] != '<' && x[i] != '('
    {
      if k - 2 + i < |address| {
        assert x[i] == address[k - 2 + i] && PlainChar(address[k - 2 + i]);
        PlainIsNoBracket(x[i]);
      }
    }
  }

  lemma PlainIsNoBracket(c: char)
    requires PlainChar(c)
    ensures c != '<' && c != '('
  {
  }

  /** The separator or colon was in the name. */
  lemma NameTailParse(a: MailAddress, e: nat)
    requires Printable(a) && CleanName(a) != "" && e < |QuotedName(CleanName(a))| && EndsHead(FormatAddress(a)[e])
    ensures ParseAddress(Trim(FormatAddress(a)[e + 1..])) != Some(Clean(a))
  {
    hide Trim, IsUsableAddress, HasLineTerminator, QuotedName, Plain, ParseAddress, CleanName, AngleForm, NameOf,
      EndsHead;
    var name, quoted, address := CleanName(a), QuotedName(CleanName(a)), Trim(a.address);
    var t := quoted[e + 1..];
    AngleTextUnfolds(address);
    assert FormatAddress(a)[e + 1..] == t + AngleText(address);
    TrimTwice(a.address);
    UsableFacts(address);
    QuotedNameKeepsLines(name);
    TailKeepsLines(quoted, e + 1);
    AngleOfTail(t, address);
    NothingHasNoName();
    assert quoted[e] == FormatAddress(a)[e];
    NameTailDiffers(name, e);
    var v := Trim(t + AngleText(address));
    if ParseAddress(v).Some? {
      ParsedName(v);
    }
  }

  lemma NameTailDiffers(name: string, e: nat)
    requires name != "" && e < |QuotedName(name)| && EndsHead(QuotedName(name)[e])
    ensures var kept := TrimStart(QuotedName(name)[e + 1..]);
            NameOf(if kept == "" then "" else kept + " ") != name
  {
    hide TrimStart, NameOf, Escape, NeedsQuotes;
    NothingHasNoName();
    if NeedsQuotes(name) {
      var quoted := QuotedName(name);
      assert 0 < e < |quoted| - 1 && quoted[e] == Escape(name)[e - 1];
      var i := EscapedAt(name, e - 1);
      assert quoted[e + 1..] == Escape(name)[e..] + "\"";
      QuotedTailDiffers(name, i);
    } else {
      BareTailDiffers(name, e);
    }
  }

  /** A piece behind a separator yields another address, whether or not it is taken for a group. */
  lemma TailIsNotIt(a: MailAddress, e: nat)
    requires Printable(a) && e < |FormatAddress(a)| && IsSeparator(FormatAddress(a)[e])
    ensures Yield(FormatAddress(a)[e + 1..]) != [Clean(a)]
  {
    hide Trim, Printable, FormatAddress, CleanName, ParseAddress, Clean, IndexOf;
    var item, x := FormatAddress(a), FormatAddress(a)[e + 1..];
    var c := IndexOf(x, ':');
    TailParse(a, e);
    if c < |x| {
      assert item[e + 1 + c] == ':' && x[c + 1..] == item[(e + 1 + c) + 1..];
      TailParse(a, e + 1 + c);
    }
  }

  /** So does a printed address that is taken for a group. */
  lemma GroupedIsNotIt(a: MailAddress)
    requires Printable(a) && !Ungrouped(a)
    ensures Yield(FormatAddress(a)) != [Clean(a)]
  {
    hide Trim, Printable, FormatAddress, CleanName, ParseAddress, Clean, IndexOf, Ungrouped, NoGroupPrefix;
    PrintedHasAt(a);
    PrefixHasColon(FormatAddress(a));
    TailParse(a, IndexOf(FormatAddress(a), ':'));
  }

  // ---------------------------------------------------------------- the list

  lemma ListTail(list: seq<MailAddress>, k: nat)
    requires list != [] && k <= |FormatList(list)| && k > |FormatAddress(list[0])|
    requires k == |FormatList(list)| || IsSeparator(FormatList(list)[k])
    ensures |list| > 1 && k >= |FormatAddress(list[0])| + 2
    ensures var rest := FormatList(list[1..]);
            |rest| == |FormatList(list)| - |FormatAddress(list[0])| - 2
            && forall j :: |FormatAddress(list[0])| + 2 <= j <= |FormatList(list)| ==>
                 FormatList(list)[j..] == rest[j - |FormatAddress(list[0])| - 2..]
  {
    hide FormatList, FormatAddress;
    if |list| == 1 {
      JoinedOne(list);
    } else {
      JoinedMore(list);
    }
  }

  /** A part that is a piece of the first address does not yield it. */
  lemma PieceIsNotIt(list: seq<MailAddress>, k: nat, end: nat)
    requires list != [] && Printable(list[0]) && k < end <= |FormatAddress(list[0])| && end <= |FormatList(list)|
    requires IsSeparator(FormatList(list)[k]) && (end == |FormatList(list)| || IsSeparator(FormatList(list)[end]))
    ensures Yield(FormatList(list)[k + 1..end]) != [Clean(list[0])]
  {
    hide FormatList, FormatAddress, Printable, Clean, Yield, IsSeparator;
    var item := FormatAddress(list[0]);
    StartsWithItem(list);
    assert FormatList(list)[k + 1..end] == item[k + 1..end] && item[k] == FormatList(list)[k];
    if end < |item| {
      HeadIsNotIt(list[0], k + 1, end);
    } else {
      TailIsNotIt(list[0], k);
      assert item[k + 1..end] == item[k + 1..];
    }
  }

  lemma StartsWithItem(list: seq<MailAddress>)
    requires list != []
    ensures FormatAddress(list[0]) <= FormatList(list)
  {
    hide FormatList, FormatAddress;
    if |list| == 1 {
      JoinedOne(list);
    } else {
      JoinedMore(list);
    }
  }

  lemma CleanAllStep(list: seq<MailAddress>)
    requires list != []
    ensures CleanAll(list) == [Clean(list[0])] + CleanAll(list[1..]) && |CleanAll(list)| == |list|
  {
    hide Clean;
  }

  lemma Differ(first: seq<MailAddress>, later: seq<MailAddress>, head: MailAddress, rest: seq<MailAddress>)
    requires |first| == 1 && (first != [head] || later != rest)
    ensures first + later != [head] + rest
  {
    assert (first + later)[0] == first[0] && (first + later)[1..] == later;
    assert ([head] + rest)[0] == head && ([head] + rest)[1..] == rest;
  }

  /** The reader has yielded `y` up to the separator at `end`: if that lies within the first address
      and is not that address, the rest does not make up for it; if it lies beyond, the reader is
      behind with the rest of the list. */
  lemma {:induction false} StaysBehind(list: seq<MailAddress>, end: nat, y: seq<MailAddress>)
    requires list != [] && (forall a :: a in list ==> Printable(a)) && |y| <= 1
    requires end < |FormatList(list)| && IsSeparator(FormatList(list)[end])
    requires end <= |FormatAddress(list[0])| ==> y != [Clean(list[0])]
    ensures y + ParseAll(PartsOf("", FormatList(list)[end + 1..])) != CleanAll(list)
    decreases |FormatList(list)| - end, 1
  {
    hide FormatList, FormatAddress, Printable, PartsOf, ParseAll, Clean, CleanAll, IsSeparator;
    var all, later := FormatList(list), ParseAll(PartsOf("", FormatList(list)[end + 1..]));
    if y == [] {
      NeverCatchesUp(list, end);
      assert [] + later == later;
    } else {
      CleanAllStep(list);
      if end > |FormatAddress(list[0])| && y == [Clean(list[0])] {
        ListTail(list, end);
        var at := end - |FormatAddress(list[0])| - 2;
        var rest := FormatList(list[1..]);
        assert all[end..] == rest[at..] && all[end + 1..] == rest[at + 1..];
        assert all[end..][0] == all[end] && rest[at..][0] == rest[at];
        NeverCatchesUp(list[1..], at);
      }
      Differ(y, later, Clean(list[0]), CleanAll(list[1..]));
    }
  }

  /** Whoever is behind stays behind: from a separator on, the rest of a printed list never parses to
      the whole list. */
  lemma {:induction false} NeverCatchesUp(list: seq<MailAddress>, k: nat)
    requires list != [] && (forall a :: a in list ==> Printable(a))
    requires k < |FormatList(list)| && IsSeparator(FormatList(list)[k])
    ensures ParseAll(PartsOf("", FormatList(list)[k + 1..])) != CleanAll(list)
    decreases |FormatList(list)| - k, 0
  {
    hide FormatList, FormatAddress, Printable, PartsOf, ParseAll, Clean, CleanAll, Cut, Yield, Flush, IsSeparator;
    var all := FormatList(list);
    var z := all[k + 1..];
    var n := Cut(Fresh(""), z);
    var end := k + 1 + n;
    assert Printable(list[0]);
    ParsedStep("", z);
    YieldIsShort(z[..n]);
    if n < |z| {
      assert z[..n] == all[k + 1..end] && z[n] == all[end] && z[n + 1..] == all[end + 1..];
      if end <= |FormatAddress(list[0])| {
        PieceIsNotIt(list, k, end);
      }
      StaysBehind(list, end, Yield(z[..n]));
    } else {
      OnePartLeft(list, k);
    }
  }

  lemma OnePartLeft(list: seq<MailAddress>, k: nat)
    requires list != [] && Printable(list[0]) && k < |FormatList(list)| && IsSeparator(FormatList(list)[k])
    ensures Yield(FormatList(list)[k + 1..]) != CleanAll(list)
  {
    hide FormatList, FormatAddress, Printable, Clean, CleanAll, Yield, IsSeparator;
    CleanAllStep(list);
    if |list| == 1 {
      JoinedOne(list);
      PieceIsNotIt(list, k, |FormatList(list)|);
      NoneToClean();
      assert FormatList(list)[k + 1..|FormatList(list)|] == FormatList(list)[k + 1..];
      assert list[1..] == [] && [Clean(list[0])] + [] == [Clean(list[0])];
    } else {
      YieldIsShort(FormatList(list)[k + 1..]);
    }
  }

  lemma NoneToClean()
    ensures CleanAll([]) == []
  {
  }

  /** The first address does not come through the split. */
  predicate Fails(list: seq<MailAddress>)
    requires list != []
  {
    !Ungrouped(list[0]) || if |list| == 1 then !StaysWhole(list[0]) else !Closes(list[0])
  }

  lemma FirstCut(lead: string, list: seq<MailAddress>)
    requires IsLead(lead) && list != [] && Printable(list[0]) && Fails(list)
    ensures Cut(Fresh(lead), FormatList(list)) == |FormatAddress(list[0])| ==> !Ungrouped(list[0])
  {
    hide Scan, Cut, FormatList, FormatAddress, Printable, Ungrouped, StaysWhole, Closes, Idle;
    var item, st := FormatAddress(list[0]), Fresh(lead);
    FreshIsIdle(lead);
    ScanItem(st, list[0]);
    ClosesIsWhole(list[0]);
    if |list| == 1 {
      JoinedOne(list);
    } else {
      JoinedMore(list);
      var follower := ", " + FormatList(list[1..]);
      CutConcat(st, item, follower);
      if StaysWhole(list[0]) && !Closes(list[0]) {
        NotIdleReadsOn(Scan(st, item), follower);
      }
    }
  }

  lemma FreshIsIdle(lead: string)
    ensures Idle(Fresh(lead))
  {
  }

  /** A list whose first address does not come through the split does not read back. */
  lemma FirstFails(lead: string, list: seq<MailAddress>)
    requires IsLead(lead) && list != [] && (forall a :: a in list ==> Printable(a)) && Fails(list)
    ensures ParseAll(PartsOf(lead, FormatList(list))) != CleanAll(list)
  {
    hide FormatList, FormatAddress, Printable, PartsOf, ParseAll, Clean, CleanAll, Cut, Yield, Flush, IsSeparator,
      Fails, Ungrouped;
    var all, item := FormatList(list), FormatAddress(list[0]);
    var n := Cut(Fresh(lead), all);
    assert Printable(list[0]);
    FirstCut(lead, list);
    ParsedStep(lead, all);
    YieldIsShort(all[..n]);
    if n <= |item| && (n == |item| || n < |all|) {
      FirstPieceIsNotIt(list, n);
    }
    if n < |all| {
      StaysBehind(list, n, Yield(all[..n]));
    } else {
      assert all[..n] == all;
      if |list| == 1 {
        JoinedOne(list);
      }
      OnePartInAll(list);
    }
  }

  lemma FirstPieceIsNotIt(list: seq<MailAddress>, n: nat)
    requires list != [] && Printable(list[0]) && n <= |FormatAddress(list[0])| && n <= |FormatList(list)|
    requires if n == |FormatAddress(list[0])| then !Ungrouped(list[0])
             else n < |FormatList(list)| && IsSeparator(FormatList(list)[n])
    ensures Yield(FormatList(list)[..n]) != [Clean(list[0])]
  {
    hide FormatList, FormatAddress, Printable, Clean, Yield, IsSeparator, Ungrouped;
    var item := FormatAddress(list[0]);
    StartsWithItem(list);
    assert FormatList(list)[..n] == item[..n];
    if n < |item| {
      HeadIsNotIt(list[0], 0, n);
      assert item[0..n] == item[..n];
    } else {
      GroupedIsNotIt(list[0]);
      assert item[..n] == item;
    }
  }

  lemma OnePartInAll(list: seq<MailAddress>)
    requires list != []
    requires |list| == 1 ==> Yield(FormatList(list)) != [Clean(list[0])]
    ensures Yield(FormatList(list)) != CleanAll(list)
  {
    hide FormatList, Clean, CleanAll, Yield;
    CleanAllStep(list);
    YieldIsShort(FormatList(list));
    if |list| == 1 {
      NoneToClean();
      assert list[1..] == [] && [Clean(list[0])] + [] == [Clean(list[0])];
    }
  }

  // ---------------------------------------------------------------- the theorem

  /** A first address that comes through the split, and what follows it. */
  lemma FirstComesThrough(lead: string, list: seq<MailAddress>)
    requires IsLead(lead) && list != [] && Printable(list[0]) && !Fails(list)
    ensures PartsOf(lead, FormatList(list))
         == [FormatAddress(list[0])] + if |list| == 1 then [] else PartsOf(" ", FormatList(list[1..]))
  {
    hide Scan, FormatList, FormatAddress, Printable, Finish, Trim, StripGroupPrefix, StaysWhole, Closes, Ungrouped,
      Idle, Cut;
    var item, st := FormatAddress(list[0]), Fresh(lead);
    FreshIsIdle(lead);
    LedIsOnePart(lead, list[0]);
    ScanItem(st, list[0]);
    ClosesIsWhole(list[0]);
    var held := Scan(st, item);
    FinishHeld(held, item);
    assert [] + [item] == [item];
    if |list| == 1 {
      JoinedOne(list);
    } else {
      JoinedMore(list);
      ScanConcat(st, item, ", " + FormatList(list[1..]));
      ScanComma(held, FormatList(list[1..]));
      PartsAfter([item], " ", FormatList(list[1..]));
    }
  }

  lemma {:induction false} PartsReadBackIff(lead: string, list: seq<MailAddress>)
    requires IsLead(lead) && list != [] && forall a :: a in list ==> Printable(a)
    ensures ParseAll(PartsOf(lead, FormatList(list))) == CleanAll(list)
       <==> Survives(list) && forall a :: a in list ==> KeepsName(a)
    decreases |list|
  {
    hide FormatList, FormatAddress, Printable, PartsOf, ParseAddress, Clean, CleanAll, Survives, KeepsName, StaysWhole,
      Closes, Ungrouped;
    assert Printable(list[0]);
    assert forall a :: a in list <==> a == list[0] || a in list[1..];
    CleanAllStep(list);
    NoneToClean();
    FirstSurvivesIff(list);
    if Fails(list) {
      FirstFails(lead, list);
    } else {
      FirstComesThrough(lead, list);
      ParseInvertsFormat(list[0]);
      var item, first := FormatAddress(list[0]), ParseAddress(FormatAddress(list[0])).value;
      var rest := if |list| == 1 then [] else PartsOf(" ", FormatList(list[1..]));
      assert ([item] + rest)[1..] == rest;
      if |list| > 1 {
        PartsReadBackIff(" ", list[1..]);
      }
      if first != Clean(list[0]) || ParseAll(rest) != CleanAll(list[1..]) {
        Differ([first], ParseAll(rest), Clean(list[0]), CleanAll(list[1..]));
      }
    }
  }

  lemma FirstSurvivesIff(list: seq<MailAddress>)
    requires list != []
    ensures Survives(list) <==> !Fails(list) && (|list| == 1 || Survives(list[1..]))
  {
    hide StaysWhole, Closes, Ungrouped, Survives;
    if |list| == 1 {
      SurvivesOne(list);
    } else {
      SurvivesCons(list);
    }
  }

  /** The exact condition for a whole list: printed, joined, split and parsed it comes back, names and
      addresses trimmed, if and only if every printed address comes out of the split as it stands and
      no part of a name is taken for a comment. */
  lemma ListReadsBackIff(list: seq<MailAddress>)
    requires forall a :: a in list ==> Printable(a)
    ensures ParseAddressList(Some(FormatList(list))) == CleanAll(list)
       <==> Survives(list) && forall a :: a in list ==> KeepsName(a)
  {
    hide FormatList, Printable, ParseAll, Clean, Trim, Scan, Flush, Survives, KeepsName;
    if list == [] {
      NoneToRead();
    } else {
      PrintedListIsNotBlank(list);
      PartsReadBackIff("", list);
    }
  }

  lemma NoneToRead()
    ensures ParseAddressList(Some(FormatList([]))) == CleanAll([]) && Survives([])
  {
    TrimNothing();
    JoinNothing();
    NoneToClean();
    assert FormatEach([]) == [];
  }
}
