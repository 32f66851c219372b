/** `String.prototype.trim` and the whitespace it removes, shared by the mail list modules. */
module JavaScriptText {
  import opened AsciiText

  predicate IsSpace(c: char) {
    || '\t' <= c <= '\r' || c == ' ' || c == '\U{A0}' || c == '\U{1680}' || '\U{2000}' <= c <= '\U{200A}'
    || c == '\U{2028}' || c == '\U{2029}' || c == '\U{202F}' || c == '\U{205F}' || c == '\U{3000}' || c == '\U{FEFF}'
  }

  function TrimStart(s: string): (t: string)
    ensures t == "" || !IsSpace(t[0])
    ensures |t| <= |s| && t == s[|s| - |t|..]
  {
    if s != "" && IsSpace(s[0]) then TrimStart(s[1..]) else s
  }

  function TrimEnd(s: string): (t: string)
    ensures t == "" || !IsSpace(t[|t| - 1])
    ensures |t| <= |s| && t == s[..|t|]
  {
    if s != "" && IsSpace(s[|s| - 1]) then TrimEnd(s[..|s| - 1]) else s
  }

  function Trim(s: string): string {
    TrimEnd(TrimStart(s))
  }

  predicate Trimmed(s: string) {
    s != "" && !IsSpace(s[0]) && !IsSpace(s[|s| - 1])
  }

  lemma TrimOfTrimmed(s: string)
    requires Trimmed(s)
    ensures TrimStart(s) == s && TrimEnd(s) == s && Trim(s) == s
  {
    hide IsSpace, IsWhiteSpace;
  }

  // ---------------------------------------------------------------- trimming, spelled out

  /** Tab, line feed, vertical tab, form feed, carriage return and the byte order mark; the spaces of
      Unicode's category Zs; and its line and paragraph separators. */
  predicate IsWhiteSpace(c: char) {
    || c == '\t' || c == '\n' || c == '\U{0B}' || c == '\U{0C}' || c == '\r' || c == '\U{FEFF}'
    || c == ' ' || c == '\U{A0}' || c == '\U{1680}'
    || c == '\U{2000}' || c == '\U{2001}' || c == '\U{2002}' || c == '\U{2003}' || c == '\U{2004}' || c == '\U{2005}'
    || c == '\U{2006}' || c == '\U{2007}' || c == '\U{2008}' || c == '\U{2009}' || c == '\U{200A}'
    || c == '\U{202F}' || c == '\U{205F}' || c == '\U{3000}'
    || c == '\U{2028}' || c == '\U{2029}'
  }

  predicate AllSpaces(s: string) {
    forall i :: 0 <= i < |s| ==> IsWhiteSpace(s[i])
  }

  /** `t` is what `i..j` leaves of `s`, and only white space is left out. */
  predicate TrimmedAt(s: string, t: string, i: int, j: int) {
    && 0 <= i <= j <= |s| && t == s[i..j]
    && AllSpaces(s[..i]) && AllSpaces(s[j..])
    && !SpaceAround(t)
  }

  predicate SpaceAround(t: string) {
    t != "" && (IsWhiteSpace(t[0]) || IsWhiteSpace(t[|t| - 1]))
  }

  ghost predicate IsTrimOf(s: string, t: string) {
    exists i, j :: TrimmedAt(s, t, i, j)
  }

  /** Two texts that are the same but for the case of their letters and white space around them. */
  ghost predicate SameAddress(x: string, y: string) {
    exists a, b :: IsTrimOf(x, a) && IsTrimOf(y, b) && SameButForCase(a, b)
  }

  lemma IsSpaceIff(c: char)
    ensures IsSpace(c) <==> IsWhiteSpace(c)
  {
    if '\U{2000}' <= c <= '\U{200A}' {
      var k := (c - '\U{2000}') as int;
      assert k in {0, 1, 2, 3, 4, 5, 6, 7, 8, 9, 10};
    }
  }

  lemma {:induction false} TrimStartTakesSpaces(s: string)
    ensures AllSpaces(s[..|s| - |TrimStart(s)|])
  {
    hide IsSpace, IsWhiteSpace;
    if s != "" && IsSpace(s[0]) {
      TrimStartTakesSpaces(s[1..]);
      IsSpaceIff(s[0]);
      SpaceInFront(s, |s| - |TrimStart(s[1..])|);
    }
  }

  lemma SpaceInFront(s: string, n: nat)
    requires 0 < n <= |s| && IsWhiteSpace(s[0]) && AllSpaces(s[1..][..n - 1])
    ensures AllSpaces(s[..n])
  {
    assert s[..n] == [s[0]] + s[1..][..n - 1];
  }

  lemma {:induction false} TrimEndTakesSpaces(s: string)
    ensures AllSpaces(s[|TrimEnd(s)|..])
  {
    hide IsSpace, IsWhiteSpace;
    if s != "" && IsSpace(s[|s| - 1]) {
      var front := s[..|s| - 1];
      TrimEndTakesSpaces(front);
      IsSpaceIff(s[|s| - 1]);
      SpaceAtEnd(s, |TrimEnd(front)|);
    }
  }

  lemma SpaceAtEnd(s: string, n: nat)
    requires n < |s| && IsWhiteSpace(s[|s| - 1]) && AllSpaces(s[..|s| - 1][n..])
    ensures AllSpaces(s[n..])
  {
    assert s[n..] == s[..|s| - 1][n..] + [s[|s| - 1]];
  }

  lemma {:induction false} TrimStartSkips(a: string, b: string)
    requires AllSpaces(a) && (b == "" || !IsWhiteSpace(b[0]))
    ensures TrimStart(a + b) == b
  {
    hide IsSpace, IsWhiteSpace;
    if a == "" {
      assert a + b == b;
      if b != "" {
        IsSpaceIff(b[0]);
      }
    } else {
      IsSpaceIff(a[0]);
      assert (a + b)[1..] == a[1..] + b;
      TrimStartSkips(a[1..], b);
    }
  }

  lemma {:induction false} TrimEndSkips(a: string, b: string)
    requires AllSpaces(b) && (a == "" || !IsWhiteSpace(a[|a| - 1]))
    ensures TrimEnd(a + b) == a
  {
    hide IsSpace, IsWhiteSpace;
    if b == "" {
      assert a + b == a;
      if a != "" {
        IsSpaceIff(a[|a| - 1]);
      }
    } else {
      IsSpaceIff(b[|b| - 1]);
      assert (a + b)[..|a + b| - 1] == a + b[..|b| - 1];
      TrimEndSkips(a, b[..|b| - 1]);
    }
  }

  lemma TrimIsTrim(s: string)
    ensures IsTrimOf(s, Trim(s))
  {
    hide IsSpace, IsWhiteSpace, AllSpaces, SpaceAround;
    var u := TrimStart(s);
    TrimStartTakesSpaces(s);
    TrimEndTakesSpaces(u);
    SliceOfSlice(s, |s| - |u|, |TrimEnd(u)|);
    NoSpaceAround(s);
    assert TrimmedAt(s, TrimEnd(u), |s| - |u|, |s| - |u| + |TrimEnd(u)|);
  }

  lemma NoSpaceAround(s: string)
    ensures !SpaceAround(Trim(s))
  {
    hide IsSpace, IsWhiteSpace;
    var t := Trim(s);
    if t != "" {
      IsSpaceIff(t[0]);
      IsSpaceIff(t[|t| - 1]);
    }
  }

  lemma SliceOfSlice(s: string, i: nat, n: nat)
    requires i + n <= |s|
    ensures s[i..][..n] == s[i..i + n] && s[i..][n..] == s[i + n..]
  {
  }

  lemma TrimAt(s: string, t: string, i: int, j: int)
    requires TrimmedAt(s, t, i, j)
    ensures t == Trim(s)
  {
    hide IsSpace, IsWhiteSpace;
    if t == "" {
      assert AllSpaces(s) by {
        assert s == s[..i] + s[j..];
      }
      TrimStartSkips(s, "");
      assert s + "" == s;
    } else {
      assert s == s[..i] + (t + s[j..]);
      TrimStartSkips(s[..i], t + s[j..]);
      TrimEndSkips(t, s[j..]);
    }
  }

  /** Trimming takes the white space at both ends and nothing else. */
  lemma TrimIff(s: string, t: string)
    ensures IsTrimOf(s, t) <==> t == Trim(s)
  {
    hide Trim, TrimmedAt;
    TrimIsTrim(s);
    if i, j :| TrimmedAt(s, t, i, j) {
      TrimAt(s, t, i, j);
    }
  }

  /** The normalized forms of two addresses are equal exactly when the addresses are the same but for case and
      white space around them. */
  lemma SameAddressIff(x: string, y: string)
    ensures Lower(Trim(x)) == Lower(Trim(y)) <==> SameAddress(x, y)
  {
    hide Trim, IsTrimOf, SameButForCase, Lower;
    TrimIff(x, Trim(x));
    TrimIff(y, Trim(y));
    LowerIff(Trim(x), Trim(y));
    if a, b :| IsTrimOf(x, a) && IsTrimOf(y, b) && SameButForCase(a, b) {
      TrimIff(x, a);
      TrimIff(y, b);
    }
  }
}
