/**
 Sorting with a comparator, as `Array.prototype.sort` does it, and the fact the grouping
 theorems rest on: a strictly sorted list is determined by its elements.
 */
module Ordering {

  ghost predicate StrictOrder<T(!new)>(before: (T, T) -> bool) {
    && (forall a, b :: !(before(a, b) && before(b, a)))
    && (forall a, b, c :: before(a, b) && before(b, c) ==> before(a, c))
  }

  /** The order decides between any two different elements of `s`. */
  predicate TotalOn<T(==)>(before: (T, T) -> bool, s: seq<T>) {
    forall x, y :: x in s && y in s && x != y ==> before(x, y) || before(y, x)
  }

  predicate Distinct<T(==)>(s: seq<T>) {
    forall i, j :: 0 <= i < j < |s| ==> s[i] != s[j]
  }

  predicate Sorted<T>(s: seq<T>, before: (T, T) -> bool) {
    forall i, j :: 0 <= i < j < |s| ==> before(s[i], s[j])
  }

  predicate SameElements<T(==)>(a: seq<T>, b: seq<T>) {
    && (forall x :: x in a ==> x in b)
    && (forall x :: x in b ==> x in a)
  }

  /** Stable insertion: `x` goes before the elements that are not before it. */
  function InsertBy<T>(x: T, s: seq<T>, before: (T, T) -> bool): (r: seq<T>) {
    if s == [] || !before(s[0], x) then [x] + s else [s[0]] + InsertBy(x, s[1..], before)
  }

  function SortBy<T>(s: seq<T>, before: (T, T) -> bool): (r: seq<T>) {
    if s == [] then [] else InsertBy(s[0], SortBy(s[1..], before), before)
  }

  lemma {:induction false} InsertByElements<T(!new)>(x: T, s: seq<T>, before: (T, T) -> bool)
    ensures |InsertBy(x, s, before)| == |s| + 1
    ensures SameElements(InsertBy(x, s, before), [x] + s)
  {
    if s != [] && before(s[0], x) {
      InsertByElements(x, s[1..], before);
    }
  }

  lemma {:induction false} SortByElements<T(!new)>(s: seq<T>, before: (T, T) -> bool)
    ensures |SortBy(s, before)| == |s|
    ensures SameElements(SortBy(s, before), s)
  {
    if s != [] {
      SortByElements(s[1..], before);
      InsertByElements(s[0], SortBy(s[1..], before), before);
    }
  }

  lemma {:induction false} InsertByIsSorted<T(!new)>(x: T, s: seq<T>, before: (T, T) -> bool)
    requires StrictOrder(before) && Sorted(s, before)
    requires forall y :: y in s ==> before(x, y) || before(y, x)
    ensures Sorted(InsertBy(x, s, before), before)
  {
    if s == [] {
    } else if before(s[0], x) {
      InsertByIsSorted(x, s[1..], before);
      InsertByElements(x, s[1..], before);
      var rest := InsertBy(x, s[1..], before);
      forall i | 0 <= i < |rest|
        ensures before(s[0], rest[i])
      {
        assert rest[i] in [x] + s[1..];
      }
      PrependSorted(s[0], rest, before);
    } else {
      forall y | y in s
        ensures before(x, y)
      {
        if y != s[0] {
          assert before(s[0], y);
        }
      }
      PrependSorted(x, s, before);
    }
  }

  lemma PrependSorted<T>(x: T, s: seq<T>, before: (T, T) -> bool)
    requires Sorted(s, before) && forall i :: 0 <= i < |s| ==> before(x, s[i])
    ensures Sorted([x] + s, before)
  {
  }

  lemma {:induction false} SortByIsSorted<T(!new)>(s: seq<T>, before: (T, T) -> bool)
    requires StrictOrder(before) && Distinct(s) && TotalOn(before, s)
    ensures Sorted(SortBy(s, before), before)
  {
    if s != [] {
      SortByIsSorted(s[1..], before);
      SortByElements(s[1..], before);
      InsertByIsSorted(s[0], SortBy(s[1..], before), before);
    }
  }

  /** Two strictly sorted lists with the same elements are the same list. */
  lemma {:induction false} SortedIsUnique<T(!new)>(a: seq<T>, b: seq<T>, before: (T, T) -> bool)
    requires StrictOrder(before) && Sorted(a, before) && Sorted(b, before) && SameElements(a, b)
    ensures a == b
  {
    if a == [] {
      NoElements(b);
    } else {
      assert a[0] in b && b != [];
      assert b[0] in a;
      assert a[0] == b[0];
      TailElements(a, b, before);
      SortedIsUnique(a[1..], b[1..], before);
    }
  }

  lemma NoElements<T(!new)>(b: seq<T>)
    ensures (forall x :: x !in b) <==> b == []
  {
    if b != [] {
      assert b[0] in b;
    }
  }

  lemma TailElements<T(!new)>(a: seq<T>, b: seq<T>, before: (T, T) -> bool)
    requires StrictOrder(before) && Sorted(a, before) && Sorted(b, before) && SameElements(a, b)
    requires a != [] && b != [] && a[0] == b[0]
    ensures SameElements(a[1..], b[1..])
  {
    forall x | x in a[1..]
      ensures x in b[1..]
    {
      assert x in b;
      assert before(a[0], x);
    }
    forall x | x in b[1..]
      ensures x in a[1..]
    {
      assert x in a;
      assert before(b[0], x);
    }
  }

  // ---------------------------------------------------------------- strings

  /** `compareStrings`: code unit by code unit. */
  function CompareStrings(a: string, b: string): (r: int)
    ensures -1 <= r <= 1
  {
    if a == "" || b == "" then (if a == b then 0 else if a == "" then -1 else 1)
    else if a[0] < b[0] then -1
    else if a[0] > b[0] then 1
    else CompareStrings(a[1..], b[1..])
  }

  /** Behind a common beginning, `a` ends or has the smaller code unit. */
  ghost predicate TextBefore(a: string, b: string) {
    exists k :: BranchesBefore(a, b, k)
  }

  predicate BranchesBefore(a: string, b: string, k: int) {
    0 <= k <= |a| && k < |b| && a[..k] == b[..k] && (k == |a| || a[k] < b[k])
  }

  /** `compareStrings` is the lexicographic order. */
  lemma {:induction false} CompareStringsIff(a: string, b: string)
    ensures CompareStrings(a, b) < 0 <==> TextBefore(a, b)
  {
    if a != "" && b != "" && a[0] == b[0] {
      CompareStringsIff(a[1..], b[1..]);
      if k :| BranchesBefore(a, b, k) {
        BranchInTail(a, b, k);
      }
      if k :| BranchesBefore(a[1..], b[1..], k) {
        BranchBehindHead(a, b, k);
      }
    } else {
      assert a[..0] == b[..0];
      if a != "" && (b == "" || b[0] < a[0]) {
        NoBranch(a, b);
      } else if b != "" {
        assert BranchesBefore(a, b, 0);
      }
    }
  }

  lemma BranchInTail(a: string, b: string, k: int)
    requires a != "" && b != "" && a[0] == b[0] && BranchesBefore(a, b, k)
    ensures BranchesBefore(a[1..], b[1..], k - 1)
  {
    assert a[1..][..k - 1] == a[..k][1..] && b[1..][..k - 1] == b[..k][1..];
  }

  lemma BranchBehindHead(a: string, b: string, k: int)
    requires a != "" && b != "" && a[0] == b[0] && BranchesBefore(a[1..], b[1..], k)
    ensures BranchesBefore(a, b, k + 1)
  {
    assert a[..k + 1] == [a[0]] + a[1..][..k] && b[..k + 1] == [b[0]] + b[1..][..k];
  }

  lemma NoBranch(a: string, b: string)
    requires a != "" && (b == "" || b[0] < a[0])
    ensures !TextBefore(a, b)
  {
    forall k | 0 < k <= |a| && k < |b|
      ensures a[..k] != b[..k]
    {
      assert a[..k][0] == a[0] && b[..k][0] == b[0];
    }
  }

  predicate StringBefore(a: string, b: string) {
    CompareStrings(a, b) < 0
  }

  lemma {:induction false} CompareStringsLaws(a: string, b: string)
    ensures CompareStrings(a, b) == -CompareStrings(b, a)
    ensures CompareStrings(a, b) == 0 <==> a == b
  {
    if a != "" && b != "" && a[0] == b[0] {
      CompareStringsLaws(a[1..], b[1..]);
      assert a == [a[0]] + a[1..] && b == [b[0]] + b[1..];
    }
  }

  lemma {:induction false} CompareStringsTransitive(a: string, b: string, c: string)
    requires CompareStrings(a, b) < 0 && CompareStrings(b, c) < 0
    ensures CompareStrings(a, c) < 0
  {
    if a != "" && b != "" && c != "" && a[0] == b[0] == c[0] {
      CompareStringsTransitive(a[1..], b[1..], c[1..]);
    }
  }

  lemma StringBeforeIsOrder(s: seq<string>)
    ensures StrictOrder(StringBefore) && TotalOn(StringBefore, s)
  {
    forall a, b
      ensures !(StringBefore(a, b) && StringBefore(b, a))
      ensures a != b ==> StringBefore(a, b) || StringBefore(b, a)
    {
      CompareStringsLaws(a, b);
    }
    forall a, b, c | StringBefore(a, b) && StringBefore(b, c)
      ensures StringBefore(a, c)
    {
      CompareStringsTransitive(a, b, c);
    }
  }
}
