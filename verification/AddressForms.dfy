/**
 The forms of an address that `parseAddress` accepts, as the regular expressions of recipients.ts say
 them: what the index arithmetic of the parser computes is a match of the expression, and there is no
 match where it computes none.
 */
module AddressForms {
  import opened Basics
  import opened JavaScriptText
  import opened Options
  import opened Recipients

  /** `[^\s@<>]+` */
  predicate Word(s: string) {
    s != "" && forall i :: 0 <= i < |s| ==> !IsWhiteSpace(s[i]) && s[i] != '@' && s[i] != '<' && s[i] != '>'
  }

  /** `[^\s@<>]+\.[^\s@<>]+` */
  ghost predicate Dotted(d: string) {
    exists x, y :: DottedAs(d, x, y)
  }

  predicate DottedAs(d: string, x: string, y: string) {
    d == x + ("." + y) && Word(x) && Word(y)
  }

  /** `\[[^\]\s]+\]` */
  ghost predicate Bracketed(d: string) {
    exists x :: BracketedAs(d, x)
  }

  predicate BracketedAs(d: string, x: string) {
    d == "[" + (x + "]") && x != "" && forall i :: 0 <= i < |x| ==> x[i] != ']' && !IsWhiteSpace(x[i])
  }

  /** `^[^\s@<>]+@(?:[^\s@<>]+\.[^\s@<>]+|\[[^\]\s]+\])$` */
  ghost predicate Usable(t: string) {
    exists local, domain :: UsableAs(t, local, domain)
  }

  ghost predicate UsableAs(t: string, local: string, domain: string) {
    t == local + ("@" + domain) && Word(local) && (Dotted(domain) || Bracketed(domain))
  }

  /** `^(.*?)<\s*([^<>]+)\s*>\s*$`, where `.` is no line terminator. */
  ghost predicate InAngles(value: string, name: string, inner: string) {
    exists rest :: InAnglesBefore(value, name, inner, rest)
  }

  predicate InAnglesBefore(value: string, name: string, inner: string, rest: string) {
    && value == name + ("<" + (inner + (">" + rest))) && AllSpaces(rest)
    && inner != "" && '<' !in inner && '>' !in inner
    && '\n' !in name && '\r' !in name && '\U{2028}' !in name && '\U{2029}' !in name
  }

  /** `[^\s<>(),;]+@[^\s<>(),;]+` */
  predicate Token(s: string) {
    && (forall i :: 0 <= i < |s| ==> !IsWhiteSpace(s[i]) && s[i] !in "<>(),;")
    && exists k :: 0 < k < |s| - 1 && s[k] == '@'
  }

  /** `^([^\s<>(),;]+@[^\s<>(),;]+)\s*(?:\(([^()]*)\))?\s*$` */
  ghost predicate WithComment(value: string, address: string, comment: Option<string>) {
    exists p, q :: WithCommentBetween(value, address, comment, p, q)
  }

  predicate WithCommentBetween(value: string, address: string, comment: Option<string>, p: string, q: string) {
    && value == address + (p + ((if comment.Some? then "(" + (comment.value + ")") else "") + q))
    && Token(address) && AllSpaces(p) && AllSpaces(q)
    && (comment.Some? ==> '(' !in comment.value && ')' !in comment.value)
  }

  // ---------------------------------------------------------------- usable addresses

  lemma NoSpacesIff(s: string)
    ensures (forall i :: 0 <= i < |s| ==> !IsSpace(s[i])) <==> forall i :: 0 <= i < |s| ==> !IsWhiteSpace(s[i])
  {
    hide IsSpace, IsWhiteSpace;
    forall i | 0 <= i < |s|
      ensures IsSpace(s[i]) <==> IsWhiteSpace(s[i])
    {
      IsSpaceIff(s[i]);
    }
  }

  lemma DotDomainIff(d: string)
    ensures DotDomain(d) <==> Dotted(d)
  {
    hide IsSpace, IsWhiteSpace;
    NoSpacesIff(d);
    if DotDomain(d) {
      var j :| 0 < j < |d| - 1 && d[j] == '.';
      assert DottedAs(d, d[..j], d[j + 1..]);
    }
    if x, y :| DottedAs(d, x, y) {
      assert 0 < |x| < |d| - 1 && d[|x|] == '.' && !IsWhiteSpace('.') by {
        DotIsNoSpace();
      }
      assert forall i :: 0 <= i < |d| ==> d[i] == if i < |x| then x[i] else if i == |x| then '.' else y[i - |x| - 1];
    }
  }

  lemma DotIsNoSpace()
    ensures !IsWhiteSpace('.')
  {
  }

  lemma LiteralDomainIff(d: string)
    ensures LiteralDomain(d) <==> Bracketed(d)
  {
    hide IsSpace, IsWhiteSpace;
    if LiteralDomain(d) {
      var x := d[1..|d| - 1];
      NoSpacesIff(x);
      assert d == "[" + (x + "]");
      assert forall i :: 0 <= i < |x| ==> x[i] == d[i + 1];
      assert BracketedAs(d, x);
    }
    if x :| BracketedAs(d, x) {
      NoSpacesIff(x);
      assert forall i :: 0 < i < |d| - 1 ==> d[i] == x[i - 1];
    }
  }

  lemma WordBeforeAt(t: string)
    requires Usable(t)
    ensures var at := IndexOf(t, '@'); at < |t| && Word(t[..at]) && (Dotted(t[at + 1..]) || Bracketed(t[at + 1..]))
  {
    hide IsWhiteSpace, Dotted, Bracketed, IndexOf;
    var local, domain :| UsableAs(t, local, domain);
    var at := IndexOf(t, '@');
    assert t[|local|] == '@';
    assert forall i :: 0 <= i < |local| ==> t[i] == local[i];
    assert at == |local|;
    assert t[..at] == local && t[at + 1..] == domain;
  }

  lemma UsableTextIff(t: string)
    requires Trim(t) == t
    ensures IsUsableAddress(t) <==> Usable(t)
  {
    hide IsSpace, IsWhiteSpace, DotDomain, LiteralDomain, Dotted, Bracketed, IndexOf, Trim, Usable;
    var at := IndexOf(t, '@');
    if at < |t| {
      DotDomainIff(t[at + 1..]);
      LiteralDomainIff(t[at + 1..]);
      NoSpacesIff(t[..at]);
      assert t == t[..at] + ("@" + t[at + 1..]);
      if IsUsableAddress(t) {
        UsableHere(t, t[..at], t[at + 1..]);
      }
    }
    if Usable(t) {
      WordBeforeAt(t);
    }
  }

  lemma UsableHere(t: string, local: string, domain: string)
    requires UsableAs(t, local, domain)
    ensures Usable(t)
  {
  }

  /** An address is usable exactly when the expression matches it once it is trimmed. */
  lemma UsableIff(value: string)
    ensures IsUsableAddress(value) <==> exists t :: IsTrimOf(value, t) && Usable(t)
  {
    hide Usable, IsTrimOf, Trim;
    var t := Trim(value);
    TrimIff(value, t);
    TrimTwice(value);
    UsableTextIff(t);
    SameWhenTrimmed(value);
    forall u | IsTrimOf(value, u)
      ensures u == t
    {
      TrimIff(value, u);
    }
  }

  lemma TrimTwice(value: string)
    ensures Trim(Trim(value)) == Trim(value)
  {
    hide TrimStart, TrimEnd, IsSpace;
    TrimIsTrimmed(value);
    if Trim(value) != "" {
      TrimOfTrimmed(Trim(value));
    }
  }

  lemma SameWhenTrimmed(value: string)
    ensures IsUsableAddress(value) <==> IsUsableAddress(Trim(value))
  {
    hide Trim, DotDomain, LiteralDomain, IsSpace;
    TrimTwice(value);
  }

  // ---------------------------------------------------------------- the two forms

  lemma TerminatorsIff(s: string)
    ensures !HasLineTerminator(s) <==> '\n' !in s && '\r' !in s && '\U{2028}' !in s && '\U{2029}' !in s
  {
  }

  lemma AngleFormMatches(value: string)
    requires AngleForm(value).Some?
    ensures InAngles(value, AngleForm(value).value.0, AngleForm(value).value.1)
  {
    hide HasLineTerminator, LastIndexOf, IsSpace, AllSpaces;
    var v := TrimEnd(value);
    var body := v[..|v| - 1];
    var open := LastIndexOf(body, '<').value;
    TrimEndTakesSpaces(value);
    TerminatorsIff(body[..open]);
    assert body == body[..open] + ("<" + body[open + 1..]);
    assert value == v + value[|v|..];
    assert v == body + ">";
    assert value == body[..open] + ("<" + (body[open + 1..] + (">" + value[|v|..])));
    assert InAnglesBefore(value, body[..open], body[open + 1..], value[|v|..]);
  }

  lemma MatchIsAngleForm(value: string, name: string, inner: string, rest: string)
    requires InAnglesBefore(value, name, inner, rest)
    ensures AngleForm(value) == Some((name, inner))
  {
    hide HasLineTerminator, IsSpace, AllSpaces, IsWhiteSpace, LastIndexOf;
    var v := name + ("<" + (inner + ">"));
    assert value == v + rest;
    assert v[|v| - 1] == '>';
    GreaterIsNoSpace();
    TrimEndSkips(v, rest);
    var body := v[..|v| - 1];
    assert body == name + ("<" + inner);
    TerminatorsIff(name);
    LastOpen(name, inner);
    assert body[..|name|] == name && body[|name| + 1..] == inner;
  }

  lemma GreaterIsNoSpace()
    ensures !IsWhiteSpace('>')
  {
  }

  lemma LastOpen(name: string, inner: string)
    requires '<' !in inner
    ensures LastIndexOf(name + ("<" + inner), '<') == Some(|name|)
  {
    hide LastIndexOf;
    var s := name + ("<" + inner);
    assert s[|name| + 1..] == inner;
    LastIndexAt(s, |name|, '<');
  }

  /** The angle form is the match of its expression. */
  lemma AngleFormIff(value: string, name: string, inner: string)
    ensures AngleForm(value) == Some((name, inner)) <==> InAngles(value, name, inner)
  {
    hide AngleForm, InAnglesBefore;
    if AngleForm(value).Some? {
      AngleFormMatches(value);
    }
    if rest :| InAnglesBefore(value, name, inner, rest) {
      MatchIsAngleForm(value, name, inner, rest);
    }
  }

  lemma EndsTokenIff(c: char)
    ensures EndsToken(c) <==> IsWhiteSpace(c) || c in "<>(),;"
  {
    hide IsSpace, IsWhiteSpace;
    IsSpaceIff(c);
  }

  lemma {:induction false} AtomLengthIs(a: string, b: string)
    requires forall i :: 0 <= i < |a| ==> !EndsToken(a[i])
    requires b == "" || EndsToken(b[0])
    ensures AtomLength(a + b) == |a|
  {
    hide EndsToken;
    if a != "" {
      assert (a + b)[1..] == a[1..] + b;
      AtomLengthIs(a[1..], b);
    } else {
      assert a + b == b;
    }
  }

  lemma TokenIff(s: string)
    ensures Token(s) <==> (forall i :: 0 <= i < |s| ==> !EndsToken(s[i])) && exists k :: 0 < k < |s| - 1 && s[k] == '@'
  {
    hide EndsToken, IsWhiteSpace;
    forall i | 0 <= i < |s|
      ensures EndsToken(s[i]) <==> IsWhiteSpace(s[i]) || s[i] in "<>(),;"
    {
      EndsTokenIff(s[i]);
    }
  }

  lemma CommentFormMatches(value: string)
    requires CommentForm(value).Some?
    ensures WithComment(value, CommentForm(value).value.0, CommentForm(value).value.1)
  {
    hide EndsToken, IsSpace, AllSpaces, IsTrimOf, Trim, AtomLength, Token;
    var n := AtomLength(value);
    var address, behind := value[..n], value[n..];
    var rest, comment := Trim(behind), CommentForm(value).value.1;
    TokenIff(address);
    assert exists k :: 0 < k < |address| - 1 && address[k] == '@' by {
      var k :| 0 < k < n - 1 && value[k] == '@';
      assert address[k] == '@';
    }
    TrimIff(behind, rest);
    var i, j := TrimPlaces(behind, rest);
    var middle := if comment.Some? then "(" + (comment.value + ")") else "";
    assert middle == rest;
    assert behind == behind[..i] + (rest + behind[j..]);
    assert value == address + behind;
    assert WithCommentBetween(value, address, comment, behind[..i], behind[j..]);
  }

  lemma TrimPlaces(s: string, t: string) returns (i: int, j: int)
    requires IsTrimOf(s, t)
    ensures TrimmedAt(s, t, i, j)
  {
    i, j :| TrimmedAt(s, t, i, j);
  }

  lemma BracketsAreNoSpace()
    ensures !IsWhiteSpace('(') && !IsWhiteSpace(')') && EndsToken('(')
  {
  }

  lemma SpacesEndToken(s: string)
    requires AllSpaces(s) && s != ""
    ensures EndsToken(s[0])
  {
    EndsTokenIff(s[0]);
  }

  lemma BracketedIsTrim(p: string, c: string, q: string)
    requires AllSpaces(p) && AllSpaces(q)
    ensures Trim(p + (("(" + (c + ")")) + q)) == "(" + (c + ")")
  {
    hide IsWhiteSpace, IsSpace, Trim, AllSpaces;
    var t := "(" + (c + ")");
    var s := p + (t + q);
    BracketsAreNoSpace();
    assert t[0] == '(' && t[|t| - 1] == ')';
    assert s[..|p|] == p && s[|p| + |t|..] == q && s[|p|..|p| + |t|] == t;
    assert TrimmedAt(s, t, |p|, |p| + |t|);
    TrimIff(s, t);
  }

  lemma SpacesTrim(p: string, q: string)
    requires AllSpaces(p) && AllSpaces(q)
    ensures Trim(p + q) == ""
  {
    hide IsWhiteSpace, IsSpace, Trim;
    assert TrimmedAt(p + q, "", |p + q|, |p + q|) by {
      assert (p + q)[..|p + q|] == p + q && (p + q)[|p + q|..] == "";
    }
    TrimIff(p + q, "");
  }

  /** The token is the whole beginning, whatever ends it. */
  lemma TokenInFront(address: string, behind: string)
    requires Token(address) && (behind == "" || EndsToken(behind[0]))
    ensures AtomLength(address + behind) == |address|
    ensures exists k :: 0 < k < |address| - 1 && (address + behind)[k] == '@'
  {
    hide EndsToken, IsSpace, IsWhiteSpace, AtomLength, Token;
    TokenIff(address);
    AtomLengthIs(address, behind);
    var k :| 0 < k < |address| - 1 && address[k] == '@';
    assert (address + behind)[k] == '@';
  }

  lemma CommentFormOf(address: string, behind: string, comment: Option<string>)
    requires Token(address) && (behind == "" || EndsToken(behind[0]))
    requires Trim(behind) == if comment.Some? then "(" + (comment.value + ")") else ""
    requires comment.Some? ==> '(' !in comment.value && ')' !in comment.value
    ensures CommentForm(address + behind) == Some((address, comment))
  {
    hide EndsToken, IsSpace, IsWhiteSpace, Trim, AtomLength, Token;
    TokenInFront(address, behind);
    assert (address + behind)[..|address|] == address && (address + behind)[|address|..] == behind;
    var rest := Trim(behind);
    if comment.Some? {
      assert rest[1..|rest| - 1] == comment.value;
    }
  }

  lemma MatchIsCommentForm(value: string, address: string, comment: Option<string>, p: string, q: string)
    requires WithCommentBetween(value, address, comment, p, q)
    ensures CommentForm(value) == Some((address, comment))
  {
    hide EndsToken, IsSpace, IsWhiteSpace, AllSpaces, Trim, CommentForm, Token;
    var middle := if comment.Some? then "(" + (comment.value + ")") else "";
    var behind := p + (middle + q);
    FirstEndsToken(p, middle, q);
    if comment.Some? {
      BracketedIsTrim(p, comment.value, q);
    } else {
      assert behind == p + q;
      SpacesTrim(p, q);
    }
    CommentFormOf(address, behind, comment);
  }

  lemma FirstEndsToken(p: string, middle: string, q: string)
    requires AllSpaces(p) && AllSpaces(q) && (middle == "" || middle[0] == '(')
    ensures var behind := p + (middle + q); behind == "" || EndsToken(behind[0])
  {
    hide EndsToken, AllSpaces, IsWhiteSpace;
    BracketsAreNoSpace();
    if p != "" {
      SpacesEndToken(p);
    } else if middle == "" && q != "" {
      SpacesEndToken(q);
    }
  }

  /** So is the comment form. */
  lemma CommentFormIff(value: string, address: string, comment: Option<string>)
    ensures CommentForm(value) == Some((address, comment)) <==> WithComment(value, address, comment)
  {
    hide CommentForm, WithCommentBetween;
    if CommentForm(value).Some? {
      CommentFormMatches(value);
    }
    if p, q :| WithCommentBetween(value, address, comment, p, q) {
      MatchIsCommentForm(value, address, comment, p, q);
    }
  }

  /** The text the address is taken from: what the angles enclose, else what stands before a comment, else all. */
  ghost predicate AddressSource(value: string, source: string) {
    if exists n, x :: InAngles(value, n, x) then exists n :: InAngles(value, n, source)
    else if exists a, c :: WithComment(value, a, c) then exists c :: WithComment(value, source, c)
    else source == value
  }

  function SourceOf(value: string): string {
    var angle := AngleForm(value);
    var commentForm := if angle.None? then CommentForm(value) else None;
    if angle.Some? then angle.value.1 else if commentForm.Some? then commentForm.value.0 else value
  }

  lemma SourceIff(value: string, source: string)
    ensures AddressSource(value, source) <==> source == SourceOf(value)
  {
    hide AngleForm, CommentForm, InAngles, WithComment;
    forall n, x
      ensures InAngles(value, n, x) <==> AngleForm(value) == Some((n, x))
    {
      AngleFormIff(value, n, x);
    }
    forall a, c
      ensures WithComment(value, a, c) <==> CommentForm(value) == Some((a, c))
    {
      CommentFormIff(value, a, c);
    }
    if AngleForm(value).Some? {
      assert InAngles(value, AngleForm(value).value.0, AngleForm(value).value.1);
    } else if CommentForm(value).Some? {
      assert WithComment(value, CommentForm(value).value.0, CommentForm(value).value.1);
    }
  }

  /** `parseAddress` yields `address` exactly when it is the trimmed source of the value and usable; for every
      other value it yields nothing. */
  lemma ParsedAddressIff(value: string, address: string)
    ensures (ParseAddress(value).Some? && ParseAddress(value).value.address == address)
       <==> exists source :: AddressSource(value, source) && IsTrimOf(source, address) && Usable(address)
  {
    hide AngleForm, CommentForm, Trim, IsUsableAddress, Usable, IsTrimOf, AddressSource, RemoveTrailingComment, Unquote,
      Unescape;
    var source := SourceOf(value);
    SourceIff(value, source);
    TrimIff(source, address);
    TrimTwice(source);
    UsableTextIff(Trim(source));
    forall other | AddressSource(value, other)
      ensures other == source
    {
      SourceIff(value, other);
    }
  }
}
