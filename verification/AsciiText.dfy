/** ASCII case folding, shared by the MIME scanner, the conversation grouping and the recipients. */
module AsciiText {

  function LowerChar(c: char): char {
    if 'A' <= c <= 'Z' then c - 'A' + 'a' else c
  }

  function Lower(s: string): (t: string)
    ensures |t| == |s| && forall i :: 0 <= i < |s| ==> t[i] == LowerChar(s[i])
  {
    seq(|s|, i requires 0 <= i < |s| => LowerChar(s[i]))
  }

  const SMALL := "abcdefghijklmnopqrstuvwxyz"
  const CAPITAL := "ABCDEFGHIJKLMNOPQRSTUVWXYZ"

  /** The same character, or the two forms of one letter. */
  predicate SameLetter(c: char, d: char) {
    c == d || exists i :: 0 <= i < 26 && ((c == SMALL[i] && d == CAPITAL[i]) || (c == CAPITAL[i] && d == SMALL[i]))
  }

  /** Two texts that differ at most in the case of their letters. */
  predicate SameButForCase(a: string, b: string) {
    |a| == |b| && forall i :: 0 <= i < |a| ==> SameLetter(a[i], b[i])
  }

  /** `word`, given in small letters and in capitals, spelled with either at every place. */
  predicate InEitherCase(s: string, small: string, capital: string)
    requires |small| == |capital|
  {
    |s| == |small| && forall i :: 0 <= i < |s| ==> s[i] == small[i] || s[i] == capital[i]
  }

  lemma AlphabetIsInOrder()
    ensures forall i :: 0 <= i < 26 ==> SMALL[i] == 'a' + i as char && CAPITAL[i] == 'A' + i as char
  {
    assert forall i :: 0 <= i < 9 ==> SMALL[i] == 'a' + i as char && CAPITAL[i] == 'A' + i as char;
    assert forall i :: 9 <= i < 18 ==> SMALL[i] == 'a' + i as char && CAPITAL[i] == 'A' + i as char;
  }

  lemma LowerCharIff(c: char, d: char)
    ensures LowerChar(c) == LowerChar(d) <==> SameLetter(c, d)
  {
    AlphabetIsInOrder();
    if LowerChar(c) == LowerChar(d) && c != d {
      var i := (LowerChar(c) - 'a') as nat;
      assert (c == SMALL[i] && d == CAPITAL[i]) || (c == CAPITAL[i] && d == SMALL[i]);
    }
  }

  /** Folding to small letters tells two texts apart exactly when they differ in more than case. */
  lemma LowerIff(a: string, b: string)
    ensures Lower(a) == Lower(b) <==> SameButForCase(a, b)
  {
    hide LowerChar, SameLetter;
    if |a| == |b| {
      forall i | 0 <= i < |a|
        ensures Lower(a)[i] == Lower(b)[i] <==> SameLetter(a[i], b[i])
      {
        LowerCharIff(a[i], b[i]);
      }
      if SameButForCase(a, b) {
        assert forall i :: 0 <= i < |a| ==> Lower(a)[i] == Lower(b)[i];
      } else {
        var i :| 0 <= i < |a| && !SameLetter(a[i], b[i]);
        assert Lower(a)[i] != Lower(b)[i];
      }
    }
  }

  predicate NoCapitals(s: string) {
    forall i, k :: 0 <= i < |s| && 0 <= k < 26 ==> s[i] != CAPITAL[k]
  }

  /** What folding returns is the one spelling of the text without capitals. */
  lemma LowerIsSmallSpelling(s: string, t: string)
    ensures t == Lower(s) <==> SameButForCase(s, t) && NoCapitals(t)
  {
    LowerHasNoCapitals(s);
    LowerIff(s, t);
    LowerIff(s, Lower(s));
    LowerOfLower(s);
    if NoCapitals(t) {
      LowerOfSmall(t);
    }
  }

  lemma LowerHasNoCapitals(s: string)
    ensures NoCapitals(Lower(s))
  {
    AlphabetIsInOrder();
  }

  lemma LowerOfLower(s: string)
    ensures Lower(Lower(s)) == Lower(s)
  {
  }

  lemma CapitalIsListed(c: char)
    ensures 'A' <= c <= 'Z' ==> exists k :: 0 <= k < 26 && c == CAPITAL[k]
  {
    AlphabetIsInOrder();
    if 'A' <= c <= 'Z' {
      assert c == CAPITAL[(c - 'A') as int];
    }
  }

  lemma LowerOfSmall(t: string)
    requires NoCapitals(t)
    ensures Lower(t) == t
  {
    AlphabetIsInOrder();
    forall i | 0 <= i < |t|
      ensures LowerChar(t[i]) == t[i]
    {
      CapitalIsListed(t[i]);
    }
  }
}
