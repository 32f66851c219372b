/**
 Undoing a failed action with the list of another view.

 `applyAction` of App.tsx captures the list on display and restores `threads` with it.  In the smart
 inbox the list on display is the sections one after the other: `threads` may be another list, and a
 starred conversation that is read stands in two sections, maybe loaded at different times.
 `ContentsIff` says when the right threads come back, `UndoIsExactIff` when they also come back to
 their places, whatever the display repeats.
 */
module UndoAcrossViews {
  import opened Options
  import opened Ordering
  import opened OverlappingUndo
  import opened RestoreThreads
  import opened Threads

  // ---------------------------------------------------------------- what comes back

  /** `t` is the last of its copies among the first `n` threads on display. */
  predicate LastShown(shown: seq<MailThread>, n: nat, t: MailThread)
    requires n <= |shown|
  {
    exists i :: 0 <= i < n && shown[i] == t && forall j :: i < j < n ==> shown[j].id != t.id
  }

  /** The threads with these ids are, in their last copy on display, those of the list. */
  ghost predicate AgreeOn(threads: seq<MailThread>, shown: seq<MailThread>, ids: set<string>) {
    forall t: MailThread | t.id in ids :: LastShown(shown, |shown|, t) <==> t in threads
  }

  lemma LastShownStep(shown: seq<MailThread>, n: nat, t: MailThread)
    requires 0 < n <= |shown|
    ensures LastShown(shown, n, t) <==> t == shown[n - 1] || (t.id != shown[n - 1].id && LastShown(shown, n - 1, t))
  {
    if t != shown[n - 1] && LastShown(shown, n, t) {
      var i :| 0 <= i < n && shown[i] == t && forall j :: i < j < n ==> shown[j].id != t.id;
      assert i < n - 1;
    }
  }

  lemma {:induction false} LastCopyExists(shown: seq<MailThread>, n: nat, k: nat) returns (t: MailThread)
    requires k < n <= |shown|
    ensures t.id == shown[k].id && LastShown(shown, n, t)
  {
    hide LastShown;
    if shown[n - 1].id == shown[k].id {
      t := shown[n - 1];
    } else {
      t := LastCopyExists(shown, n - 1, k);
    }
    LastShownStep(shown, n, t);
  }

  /** A display whose copies are all alike agrees with the list just when both hold the same
      threads. */
  lemma AlikeAgreeIff(threads: seq<MailThread>, shown: seq<MailThread>, ids: set<string>)
    requires forall s, t :: s in shown && t in shown && s.id == t.id ==> s == t
    ensures AgreeOn(threads, shown, ids) <==> forall t: MailThread | t.id in ids :: t in shown <==> t in threads
  {
    hide LastShown;
    forall t: MailThread
      ensures LastShown(shown, |shown|, t) <==> t in shown
    {
      AlikeIsLast(shown, t);
    }
  }

  lemma AlikeIsLast(shown: seq<MailThread>, t: MailThread)
    requires forall s, t :: s in shown && t in shown && s.id == t.id ==> s == t
    ensures LastShown(shown, |shown|, t) <==> t in shown
  {
    if t in shown {
      var k :| 0 <= k < |shown| && shown[k] == t;
      var last := LastCopyExists(shown, |shown|, k);
      assert last in shown;
    }
  }

  /** Which threads the first `n` rounds leave: the last copies of the restored ones, and the others
      as they were. */
  ghost predicate HoldsLast(r: seq<MailThread>, current: seq<MailThread>, shown: seq<MailThread>,
                            failed: set<string>, n: nat)
    requires n <= |shown|
  {
    forall t :: t in r <==>
      if t.id in failed && exists i :: 0 <= i < n && shown[i].id == t.id then LastShown(shown, n, t) else t in current
  }

  lemma {:induction false} RestoreHoldsLast(current: seq<MailThread>, shown: seq<MailThread>, failed: set<string>,
                                            n: nat)
    requires n <= |shown| && DistinctThreads(current)
    ensures var r := RestoreFirst(current, shown, failed, n);
            DistinctThreads(r) && HoldsLast(r, current, shown, failed, n)
  {
    hide RestoreOne, DistinctThreads, LastShown;
    if n > 0 {
      RestoreHoldsLast(current, shown, failed, n - 1);
      var next := RestoreFirst(current, shown, failed, n - 1);
      if shown[n - 1].id in failed {
        RestoreOneElements(next, shown, n - 1);
      }
      forall t: MailThread
        ensures LastShown(shown, n, t) <==>
                  t == shown[n - 1] || (t.id != shown[n - 1].id && LastShown(shown, n - 1, t))
      {
        LastShownStep(shown, n, t);
      }
    }
  }

  lemma WhatIsLeft(threads: seq<MailThread>, shown: seq<MailThread>, targets: set<string>, failed: set<string>,
                   t: MailThread)
    requires DistinctThreads(threads) && failed <= targets
    ensures t in RestoreFirst(Without(threads, targets), shown, failed, |shown|)
       <==> if t.id in failed then LastShown(shown, |shown|, t) else t in threads && t.id !in targets
  {
    hide RestoreFirst, Without, DistinctThreads, LastShown;
    WithoutElements(threads, targets);
    WithoutKeepsDistinct(threads, targets);
    RestoreHoldsLast(Without(threads, targets), shown, failed, |shown|);
    if forall i :: 0 <= i < |shown| ==> shown[i].id != t.id {
      NeverShown(shown, t);
    }
  }

  /** The list is left with all but the successes if and only if the failed threads on display, in
      their last copy, were those of the list. */
  lemma ContentsIff(threads: seq<MailThread>, shown: seq<MailThread>, targets: set<string>, failed: set<string>)
    requires DistinctThreads(threads) && failed <= targets
    ensures SameElements(RestoreFirst(Without(threads, targets), shown, failed, |shown|),
                         Without(threads, targets - failed))
       <==> AgreeOn(threads, shown, failed)
  {
    hide RestoreFirst, Without, DistinctThreads, LastShown;
    var r, kept := RestoreFirst(Without(threads, targets), shown, failed, |shown|), Without(threads, targets - failed);
    WithoutElements(threads, targets - failed);
    forall t: MailThread
      ensures t in r <==> if t.id in failed then LastShown(shown, |shown|, t) else t in threads && t.id !in targets
    {
      WhatIsLeft(threads, shown, targets, failed, t);
    }
    if SameElements(r, kept) {
      forall t: MailThread | t.id in failed
        ensures LastShown(shown, |shown|, t) <==> t in threads
      {
        assert t in r <==> t in kept;
      }
    }
  }

  lemma NeverShown(shown: seq<MailThread>, t: MailThread)
    requires forall i :: 0 <= i < |shown| ==> shown[i].id != t.id
    ensures !LastShown(shown, |shown|, t)
  {
  }

  /** An action on a thread of a smart section is rejected; the list, which did not hold the
      thread, gets it. */
  lemma RejectedThreadAppears(x: MailThread)
    ensures Without([], {x.id}) == []
    ensures RestoreFirst([], [x], {x.id}, 1) == [x]
  {
    var none: seq<MailThread> := [];
    assert FindIndex(none, x.id) == 0 && FindIndex([x], x.id) == 0;
    assert Successor(none, [x], 1) == None && Predecessor(none, [x], 0) == None;
    assert RestoreOne(none, [x], 0) == [x];
  }

  /** Sections that show two threads the other way round put the rejected one back that way. */
  lemma RejectedThreadMoves(a: MailThread, b: MailThread)
    requires a.id != b.id
    ensures Without([a, b], {a.id}) == [b]
    ensures RestoreFirst([b], [b, a], {a.id}, 2) == [b, a]
  {
    assert [a, b][1..] == [b] && [b][1..] == [];
    assert Without([b], {a.id}) == [b];
    assert FindIndex([b], b.id) == 0 && FindIndex([b], a.id) == 1 && FindIndex([b, a], a.id) == 1;
    assert RestoreFirst([b], [b, a], {a.id}, 1) == [b];
    assert Successor([b], [b, a], 2) == None && Predecessor([b], [b, a], 1) == Some(0);
    assert RestoreOne([b], [b, a], 1) == [b, a];
  }

  /** A thread in two sections comes back once, where the first copy stands and as the last copy has
      it. */
  lemma DoubledThreadReturnsOnce(x: MailThread, again: MailThread, y: MailThread)
    requires again.id == x.id && x.id != y.id
    ensures Without([x, y], {x.id}) == [y]
    ensures RestoreFirst([y], [x, y, again], {x.id}, 3) == [again, y]
  {
    var shown := [x, y, again];
    assert [x, y][1..] == [y] && [y][1..] == [];
    assert Without([y], {x.id}) == [y];
    assert FindIndex([y], y.id) == 0 && FindIndex([y], x.id) == 1 && FindIndex(shown, x.id) == 0;
    assert Successor([y], shown, 1) == Some(0);
    assert RestoreFirst([y], shown, {x.id}, 1) == RestoreOne([y], shown, 0) == [x, y];
    assert RestoreFirst([y], shown, {x.id}, 2) == [x, y];
    assert FindIndex([x, y], again.id) == 0;
    assert RestoreOne([x, y], shown, 2) == [again, y];
  }

  // ---------------------------------------------------------------- where it comes back

  /** The failed threads among the first `k` on display. */
  function BroughtBack(shown: seq<MailThread>, failed: set<string>, k: nat): set<string>
    requires k <= |shown|
  {
    set i | 0 <= i < k && shown[i].id in failed :: shown[i].id
  }

  /** Every thread of the list strictly between two places is gone. */
  predicate NoneBetween(threads: seq<MailThread>, gone: set<string>, i: nat, j: nat) {
    forall m | i < m < j && m < |threads| :: threads[m].id in gone
  }

  /** Thread `k` on display is, in the list, right before the next one on display that is there;
      without such a thread, right after the last one that is; without either, at the end. */
  predicate Fits(threads: seq<MailThread>, shown: seq<MailThread>, gone: set<string>, k: nat)
    requires k < |shown|
  {
    var list, x := Without(threads, gone), FindIndex(threads, shown[k].id);
    var p, q := FirstIn(list, shown, k + 1), LastIn(list, shown, k);
    if p < |shown| then
      x < FindIndex(threads, shown[p].id) && NoneBetween(threads, gone, x, FindIndex(threads, shown[p].id))
    else if q > 0 then
      FindIndex(threads, shown[q - 1].id) < x && NoneBetween(threads, gone, FindIndex(threads, shown[q - 1].id), x)
    else NoneBetween(threads, gone, x, |threads|)
  }

  /** Every failed thread fits when its first copy has its turn. */
  predicate AllFit(threads: seq<MailThread>, shown: seq<MailThread>, targets: set<string>, failed: set<string>,
                   n: nat)
    requires n <= |shown|
  {
    forall k | 0 <= k < n && shown[k].id in failed && FindIndex(shown, shown[k].id) == k ::
      Fits(threads, shown, targets - BroughtBack(shown, failed, k), k)
  }

  lemma {:induction false} WithoutConcat(a: seq<MailThread>, b: seq<MailThread>, ids: set<string>)
    ensures Without(a + b, ids) == Without(a, ids) + Without(b, ids)
  {
    hide Without;
    if a == [] {
      assert a + b == b;
      WithoutNone(ids);
    } else {
      WithoutConcat(a[1..], b, ids);
      WithoutCons(a[0], a[1..] + b, ids);
      WithoutCons(a[0], a[1..], ids);
      assert a + b == [a[0]] + (a[1..] + b) && a == [a[0]] + a[1..];
    }
  }

  lemma WithoutNone(ids: set<string>)
    ensures Without([], ids) == []
  {
  }

  lemma {:induction false} WithoutAbsent(threads: seq<MailThread>, id: string)
    requires forall k :: 0 <= k < |threads| ==> threads[k].id != id
    ensures Without(threads, {id}) == threads
  {
    if threads != [] {
      WithoutAbsent(threads[1..], id);
    }
  }

  /** Taking a spliced thread out again undoes the splice. */
  lemma WithoutSpliced(next: seq<MailThread>, i: nat, x: MailThread)
    requires i <= |next| && !Present(next, x.id)
    ensures Without(Splice(next, i, x), {x.id}) == next
  {
    hide FindIndex, Without;
    WithoutConcat(next[..i] + [x], next[i..], {x.id});
    WithoutConcat(next[..i], [x], {x.id});
    WithoutAbsent(next[..i], x.id);
    WithoutAbsent(next[i..], x.id);
    WithoutItself(x);
    assert next == next[..i] + next[i..];
  }

  lemma WithoutItself(x: MailThread)
    ensures Without([x], {x.id}) == []
  {
  }

  /** A list is the splice of a thread of it into the rest. */
  lemma SplitAt(threads: seq<MailThread>, gone: set<string>, x: MailThread)
    requires DistinctThreads(threads) && x in threads && x.id in gone
    ensures var list, wider := Without(threads, gone), Without(threads, gone - {x.id});
            var i := FindIndex(wider, x.id);
            i <= |list| && wider == Splice(list, i, x)
  {
    hide FindIndex, Without, DistinctThreads;
    var list, wider := Without(threads, gone), Without(threads, gone - {x.id});
    WithoutElements(threads, gone - {x.id});
    WithoutKeepsDistinct(threads, gone - {x.id});
    WithoutTwice(threads, gone - {x.id}, {x.id});
    assert (gone - {x.id}) + {x.id} == gone;
    SplitDistinct(wider, x);
  }

  lemma SplitDistinct(wider: seq<MailThread>, x: MailThread)
    requires DistinctThreads(wider) && x in wider
    ensures var list, i := Without(wider, {x.id}), FindIndex(wider, x.id);
            i <= |list| && wider == Splice(list, i, x)
  {
    hide FindIndex, Without, DistinctThreads, Splice;
    var i :| 0 <= i < |wider| && wider[i] == x;
    IndexInDistinct(wider, i);
    var rest := wider[..i] + wider[i + 1..];
    RestIsAbsent(wider, i);
    WithoutSpliced(rest, i, x);
    SpliceOfRest(wider, i);
  }

  lemma SpliceOfRest(wider: seq<MailThread>, i: nat)
    requires i < |wider|
    ensures Splice(wider[..i] + wider[i + 1..], i, wider[i]) == wider
  {
    var rest := wider[..i] + wider[i + 1..];
    assert rest[..i] == wider[..i] && rest[i..] == wider[i + 1..];
  }

  lemma RestIsAbsent(list: seq<MailThread>, i: nat)
    requires DistinctThreads(list) && i < |list|
    ensures !Present(list[..i] + list[i + 1..], list[i].id)
  {
    hide FindIndex;
    var rest := list[..i] + list[i + 1..];
    forall n | 0 <= n < |rest|
      ensures rest[n].id != list[i].id
    {
      assert rest[n] == list[if n < i then n else n + 1];
    }
    IndexOfAbsent(rest, list[i].id);
  }

  /** Where `x` belongs in the list of the threads there: behind exactly those ahead of it. */
  lemma PlaceInList(threads: seq<MailThread>, gone: set<string>, x: MailThread, y: string)
    requires DistinctThreads(threads) && x in threads && x.id in gone
    requires Present(Without(threads, gone), y)
    ensures FindIndex(Without(threads, gone), y) < FindIndex(Without(threads, gone - {x.id}), x.id)
       <==> Ahead(threads, y, x.id)
    ensures y != x.id && Present(threads, y) && y !in gone && Present(threads, x.id)
  {
    hide FindIndex, Without, DistinctThreads, Sorted, Splice, Present;
    var list, wider := Without(threads, gone), Without(threads, gone - {x.id});
    WithoutMembers(threads, gone, y);
    WithoutMembers(threads, gone, x.id);
    WithoutMembers(threads, gone - {x.id}, y);
    WithoutMembers(threads, gone - {x.id}, x.id);
    PresentIsMember(threads, x.id);
    SplitAt(threads, gone, x);
    SpliceIndex(list, FindIndex(wider, x.id), x, y);
    WithoutKeepsDistinct(threads, gone - {x.id});
    SortedByIndex(wider, threads, y, x.id);
  }

  /** A thread that stands in the list, and where: `i` among the threads there, `m` in the list. */
  lemma MemberPlace(threads: seq<MailThread>, gone: set<string>, i: nat)
    requires DistinctThreads(threads) && i < |Without(threads, gone)|
    ensures var id := Without(threads, gone)[i].id;
            Present(Without(threads, gone), id) && Present(threads, id) && id !in gone
            && FindIndex(Without(threads, gone), id) == i
  {
    hide FindIndex, Without, DistinctThreads;
    WithoutKeepsDistinct(threads, gone);
    IndexInDistinct(Without(threads, gone), i);
    WithoutMembers(threads, gone, Without(threads, gone)[i].id);
  }

  /** Where `x` belongs: right before `s`, if and only if `s` is behind it with none between. */
  lemma RightBefore(threads: seq<MailThread>, gone: set<string>, x: MailThread, s: string)
    requires DistinctThreads(threads) && x in threads && x.id in gone
    requires Present(Without(threads, gone), s)
    ensures FindIndex(Without(threads, gone), s) == FindIndex(Without(threads, gone - {x.id}), x.id)
       <==> FindIndex(threads, x.id) < FindIndex(threads, s)
            && NoneBetween(threads, gone, FindIndex(threads, x.id), FindIndex(threads, s))
  {
    hide FindIndex, Without, DistinctThreads, Sorted;
    var list, place := Without(threads, gone), FindIndex(Without(threads, gone - {x.id}), x.id);
    var i, j := FindIndex(threads, x.id), FindIndex(threads, s);
    WithoutKeepsDistinct(threads, gone);
    PlaceInList(threads, gone, x, s);
    DifferentIndex(threads, s, x.id);
    forall m | i < m < j && m < |threads| && threads[m].id !in gone
      ensures FindIndex(list, s) != place
    {
      BetweenThem(threads, gone, x, s, m);
    }
    if i < j && place < FindIndex(list, s) {
      MemberPlace(threads, gone, place);
      var y := list[place].id;
      PlaceInList(threads, gone, x, y);
      DifferentIndex(threads, y, x.id);
      DifferentIndex(threads, y, s);
      SortedByIndex(list, threads, y, s);
      assert threads[FindIndex(threads, y)].id !in gone;
    }
  }

  lemma BetweenThem(threads: seq<MailThread>, gone: set<string>, x: MailThread, s: string, m: nat)
    requires DistinctThreads(threads) && x in threads && x.id in gone
    requires Present(Without(threads, gone), s)
    requires FindIndex(threads, x.id) < m < FindIndex(threads, s) && m < |threads| && threads[m].id !in gone
    ensures FindIndex(Without(threads, gone - {x.id}), x.id) < FindIndex(Without(threads, gone), s)
  {
    hide FindIndex, Without, DistinctThreads, Sorted, Present;
    var y := threads[m].id;
    IndexInDistinct(threads, m);
    InItself(threads, m);
    WithoutMembers(threads, gone, y);
    WithoutMembers(threads, gone, s);
    WithoutKeepsDistinct(threads, gone);
    PlaceInList(threads, gone, x, y);
    SortedByIndex(Without(threads, gone), threads, y, s);
  }

  /** The same on the other side. */
  lemma RightAfter(threads: seq<MailThread>, gone: set<string>, x: MailThread, s: string)
    requires DistinctThreads(threads) && x in threads && x.id in gone
    requires Present(Without(threads, gone), s)
    ensures FindIndex(Without(threads, gone), s) + 1 == FindIndex(Without(threads, gone - {x.id}), x.id)
       <==> FindIndex(threads, s) < FindIndex(threads, x.id)
            && NoneBetween(threads, gone, FindIndex(threads, s), FindIndex(threads, x.id))
  {
    hide FindIndex, Without, DistinctThreads, Sorted;
    var list, place := Without(threads, gone), FindIndex(Without(threads, gone - {x.id}), x.id);
    var i, j := FindIndex(threads, s), FindIndex(threads, x.id);
    WithoutKeepsDistinct(threads, gone);
    PlaceInList(threads, gone, x, s);
    forall m | i < m < j && m < |threads| && threads[m].id !in gone
      ensures FindIndex(list, s) + 1 < place
    {
      BetweenThemAfter(threads, gone, x, s, m);
    }
    if i < j && FindIndex(list, s) + 1 < place {
      SplitAt(threads, gone, x);
      MemberPlace(threads, gone, FindIndex(list, s) + 1);
      var y := list[FindIndex(list, s) + 1].id;
      PlaceInList(threads, gone, x, y);
      SortedByIndex(list, threads, s, y);
      assert threads[FindIndex(threads, y)].id !in gone;
    }
  }

  lemma BetweenThemAfter(threads: seq<MailThread>, gone: set<string>, x: MailThread, s: string, m: nat)
    requires DistinctThreads(threads) && x in threads && x.id in gone
    requires Present(Without(threads, gone), s)
    requires FindIndex(threads, s) < m < FindIndex(threads, x.id) && m < |threads| && threads[m].id !in gone
    ensures FindIndex(Without(threads, gone), s) + 1 < FindIndex(Without(threads, gone - {x.id}), x.id)
  {
    hide FindIndex, Without, DistinctThreads, Sorted, Present;
    var y := threads[m].id;
    IndexInDistinct(threads, m);
    InItself(threads, m);
    WithoutMembers(threads, gone, y);
    WithoutMembers(threads, gone, s);
    WithoutKeepsDistinct(threads, gone);
    PlaceInList(threads, gone, x, y);
    SortedByIndex(Without(threads, gone), threads, s, y);
  }

  /** At the end, if and only if no thread that is there stands behind it. */
  lemma AtTheEnd(threads: seq<MailThread>, gone: set<string>, x: MailThread)
    requires DistinctThreads(threads) && x in threads && x.id in gone
    ensures |Without(threads, gone)| == FindIndex(Without(threads, gone - {x.id}), x.id)
       <==> NoneBetween(threads, gone, FindIndex(threads, x.id), |threads|)
  {
    hide FindIndex, Without, DistinctThreads;
    var list, place := Without(threads, gone), FindIndex(Without(threads, gone - {x.id}), x.id);
    SplitAt(threads, gone, x);
    forall m | FindIndex(threads, x.id) < m < |threads| && threads[m].id !in gone
      ensures place < |list|
    {
      BehindIt(threads, gone, x, m);
    }
    if place < |list| {
      MemberPlace(threads, gone, place);
      var y := list[place].id;
      PlaceInList(threads, gone, x, y);
      DifferentIndex(threads, y, x.id);
      assert threads[FindIndex(threads, y)].id !in gone;
    }
  }

  lemma BehindIt(threads: seq<MailThread>, gone: set<string>, x: MailThread, m: nat)
    requires DistinctThreads(threads) && x in threads && x.id in gone
    requires FindIndex(threads, x.id) < m < |threads| && threads[m].id !in gone
    ensures FindIndex(Without(threads, gone - {x.id}), x.id) < |Without(threads, gone)|
  {
    hide FindIndex, Without, DistinctThreads;
    var y := threads[m].id;
    IndexInDistinct(threads, m);
    InItself(threads, m);
    WithoutMembers(threads, gone, y);
    PlaceInList(threads, gone, x, y);
  }

  // -- only the ids decide about places

  predicate SameIds(a: seq<MailThread>, b: seq<MailThread>) {
    |a| == |b| && forall i :: 0 <= i < |a| ==> a[i].id == b[i].id
  }

  lemma IndexByIds(a: seq<MailThread>, b: seq<MailThread>, id: string)
    requires SameIds(a, b)
    ensures FindIndex(a, id) == FindIndex(b, id)
  {
    hide FindIndex;
    var i, j := FindIndex(a, id), FindIndex(b, id);
    assert i <= j && j <= i;
  }

  lemma {:induction false} SuccessorByIds(a: seq<MailThread>, b: seq<MailThread>, original: seq<MailThread>, k: nat)
    requires SameIds(a, b) && k <= |original|
    ensures Successor(a, original, k) == Successor(b, original, k)
    decreases |original| - k
  {
    hide FindIndex, SameIds;
    if k < |original| {
      PresentByIds(a, b, original[k].id);
      SuccessorByIds(a, b, original, k + 1);
    }
  }

  lemma {:induction false} PredecessorByIds(a: seq<MailThread>, b: seq<MailThread>, original: seq<MailThread>, k: nat)
    requires SameIds(a, b) && k <= |original|
    ensures Predecessor(a, original, k) == Predecessor(b, original, k)
  {
    hide FindIndex, SameIds;
    if k > 0 {
      PresentByIds(a, b, original[k - 1].id);
      PredecessorByIds(a, b, original, k - 1);
    }
  }

  lemma PresentByIds(a: seq<MailThread>, b: seq<MailThread>, id: string)
    requires SameIds(a, b)
    ensures FindIndex(a, id) == FindIndex(b, id) && (Present(a, id) <==> Present(b, id))
  {
    hide FindIndex;
    IndexByIds(a, b, id);
  }

  lemma PlaceByIds(a: seq<MailThread>, b: seq<MailThread>, original: seq<MailThread>, k: nat)
    requires SameIds(a, b) && k < |original|
    ensures PlaceOf(a, original, k) == PlaceOf(b, original, k)
  {
    hide Successor, Predecessor;
    SuccessorByIds(a, b, original, k + 1);
    PredecessorByIds(a, b, original, k);
  }

  lemma {:induction false} WithoutKeepsSameIds(a: seq<MailThread>, b: seq<MailThread>, ids: set<string>)
    requires SameIds(a, b)
    ensures SameIds(Without(a, ids), Without(b, ids))
  {
    if a != [] {
      WithoutKeepsSameIds(a[1..], b[1..], ids);
    }
  }

  lemma SplicesByIds(a: seq<MailThread>, b: seq<MailThread>, i: nat, j: nat, x: MailThread, y: MailThread)
    requires SameIds(a, b) && i <= |a| && j <= |b| && x.id == y.id && !Present(a, x.id)
    ensures SameIds(Splice(a, i, x), Splice(b, j, y)) <==> i == j
  {
    hide FindIndex, Splice, SameIds;
    PresentByIds(a, b, x.id);
    SpliceIndex(a, i, x, x.id);
    SpliceIndex(b, j, y, y.id);
    if SameIds(Splice(a, i, x), Splice(b, j, y)) {
      IndexByIds(Splice(a, i, x), Splice(b, j, y), x.id);
    }
    if i == j {
      SameSplice(a, b, i, x, y);
    }
  }

  lemma SameSplice(a: seq<MailThread>, b: seq<MailThread>, i: nat, x: MailThread, y: MailThread)
    requires SameIds(a, b) && i <= |a| && x.id == y.id
    ensures SameIds(Splice(a, i, x), Splice(b, i, y))
  {
  }

  /** One round puts the thread where it belongs if and only if it fits. */
  lemma OneRound(threads: seq<MailThread>, shown: seq<MailThread>, gone: set<string>, k: nat, next: seq<MailThread>)
    requires DistinctThreads(threads) && k < |shown| && FindIndex(shown, shown[k].id) == k
    requires Present(threads, shown[k].id) && shown[k].id in gone && SameIds(next, Without(threads, gone))
    ensures SameIds(RestoreOne(next, shown, k), Without(threads, gone - {shown[k].id}))
       <==> Fits(threads, shown, gone, k)
  {
    hide FindIndex, Without, DistinctThreads, Splice, PlaceOf, FirstIn, LastIn, NoneBetween, RestoreOne, SameIds;
    var list, x := Without(threads, gone), threads[FindIndex(threads, shown[k].id)];
    var place := FindIndex(Without(threads, gone - {x.id}), x.id);
    var p, q := FirstIn(list, shown, k + 1), LastIn(list, shown, k);
    SplitAt(threads, gone, x);
    WithoutMembers(threads, gone, x.id);
    PresentByIds(next, list, x.id);
    RestoreOneIsSplice(next, shown, k);
    PlaceByIds(next, list, shown, k);
    SameSize(next, list);
    SplicesByIds(next, list, PlaceOf(next, shown, k), place, shown[k], x);
    PlaceByNeighbours(list, shown, k);
    if p < |shown| {
      RightBefore(threads, gone, x, shown[p].id);
    } else if q > 0 {
      RightAfter(threads, gone, x, shown[q - 1].id);
    } else {
      AtTheEnd(threads, gone, x);
    }
  }

  lemma SameSize(a: seq<MailThread>, b: seq<MailThread>)
    requires SameIds(a, b)
    ensures |a| == |b|
  {
  }

  /** A round that went wrong is not made good by the next. */
  lemma WrongStaysWrong(threads: seq<MailThread>, shown: seq<MailThread>, gone: set<string>, k: nat,
                        next: seq<MailThread>)
    requires k < |shown| && FindIndex(shown, shown[k].id) == k
    requires shown[k].id in gone && !Present(next, shown[k].id) && !SameIds(next, Without(threads, gone))
    ensures !SameIds(RestoreOne(next, shown, k), Without(threads, gone - {shown[k].id}))
  {
    hide FindIndex, Without, Splice, Present, PlaceOf, RestoreOne, SameIds;
    var x := shown[k];
    RestoreOneIsSplice(next, shown, k);
    WithoutSpliced(next, PlaceOf(next, shown, k), x);
    WithoutTwice(threads, gone - {x.id}, {x.id});
    assert (gone - {x.id}) + {x.id} == gone;
    if SameIds(RestoreOne(next, shown, k), Without(threads, gone - {x.id})) {
      WithoutKeepsSameIds(RestoreOne(next, shown, k), Without(threads, gone - {x.id}), {x.id});
    }
  }

  /** A later copy moves nothing. */
  lemma LaterCopy(next: seq<MailThread>, shown: seq<MailThread>, k: nat, list: seq<MailThread>)
    requires k < |shown| && Present(next, shown[k].id)
    ensures SameIds(RestoreOne(next, shown, k), list) <==> SameIds(next, list)
  {
    hide FindIndex, RestoreOne;
    RestoreOneReplaces(next, shown, k);
  }

  lemma OneMoreBack(shown: seq<MailThread>, targets: set<string>, failed: set<string>, n: nat)
    requires 0 < n <= |shown| && failed <= targets
    ensures var before, after := targets - BroughtBack(shown, failed, n - 1), targets - BroughtBack(shown, failed, n);
            if shown[n - 1].id in failed && FindIndex(shown, shown[n - 1].id) == n - 1
            then shown[n - 1].id in before && after == before - {shown[n - 1].id}
            else after == before
  {
    hide FindIndex;
    var earlier, later := BroughtBack(shown, failed, n - 1), BroughtBack(shown, failed, n);
    forall id
      ensures id in later <==> id in earlier || (id == shown[n - 1].id && id in failed)
    {
    }
    var i := FindIndex(shown, shown[n - 1].id);
    assert i <= n - 1 && shown[i].id == shown[n - 1].id;
  }

  lemma {:induction false} PrefixInPlaceIff(threads: seq<MailThread>, shown: seq<MailThread>, targets: set<string>,
                                            failed: set<string>, n: nat)
    requires DistinctThreads(threads) && failed <= targets && n <= |shown|
    requires forall k :: 0 <= k < |shown| && shown[k].id in failed ==> Present(threads, shown[k].id)
    ensures SameIds(RestoreFirst(Without(threads, targets), shown, failed, n),
                    Without(threads, targets - BroughtBack(shown, failed, n)))
       <==> AllFit(threads, shown, targets, failed, n)
  {
    hide Without, DistinctThreads, RestoreOne, Present, Fits, BroughtBack, SameIds, FindIndex;
    if n > 0 {
      var next, gone := RestoreFirst(Without(threads, targets), shown, failed, n - 1),
                        targets - BroughtBack(shown, failed, n - 1);
      PrefixInPlaceIff(threads, shown, targets, failed, n - 1);
      OneMoreBack(shown, targets, failed, n);
      if shown[n - 1].id in failed {
        BackAlready(threads, shown, targets, failed, n - 1);
        if FindIndex(shown, shown[n - 1].id) != n - 1 {
          LaterCopy(next, shown, n - 1, Without(threads, gone));
        } else if SameIds(next, Without(threads, gone)) {
          OneRound(threads, shown, gone, n - 1, next);
        } else {
          WrongStaysWrong(threads, shown, gone, n - 1, next);
        }
      }
    } else {
      NoneBack(threads, shown, targets, failed);
    }
  }

  lemma NoneBack(threads: seq<MailThread>, shown: seq<MailThread>, targets: set<string>, failed: set<string>)
    ensures SameIds(Without(threads, targets), Without(threads, targets - BroughtBack(shown, failed, 0)))
  {
    hide Without;
    assert targets - BroughtBack(shown, failed, 0) == targets;
  }

  /** When its turn comes a failed thread is there just when this is not its first copy. */
  lemma BackAlready(threads: seq<MailThread>, shown: seq<MailThread>, targets: set<string>, failed: set<string>,
                    k: nat)
    requires DistinctThreads(threads) && k < |shown| && shown[k].id in failed && failed <= targets
    ensures Present(RestoreFirst(Without(threads, targets), shown, failed, k), shown[k].id)
       <==> FindIndex(shown, shown[k].id) != k
  {
    hide Without, DistinctThreads, RestoreFirst, FindIndex, LastShown, Present;
    var r, id := RestoreFirst(Without(threads, targets), shown, failed, k), shown[k].id;
    var first := FindIndex(shown, id);
    WithoutKeepsDistinct(threads, targets);
    RestoreHoldsLast(Without(threads, targets), shown, failed, k);
    WithoutElements(threads, targets);
    PresentIsMember(r, id);
    assert first <= k && shown[first].id == id;
    if first < k {
      var t := LastCopyExists(shown, k, first);
      assert t in r;
    }
  }

  lemma {:induction false} WithoutByIds(threads: seq<MailThread>, a: set<string>, b: set<string>)
    requires forall t :: t in threads ==> (t.id in a <==> t.id in b)
    ensures Without(threads, a) == Without(threads, b)
  {
    if threads != [] {
      assert threads[0] in threads;
      WithoutByIds(threads[1..], a, b);
    }
  }

  /** Where the two agree, all the failed threads of the list are on display, and the other way
      round. */
  lemma AllBack(threads: seq<MailThread>, shown: seq<MailThread>, targets: set<string>, failed: set<string>)
    requires AgreeOn(threads, shown, failed)
    ensures Without(threads, targets - BroughtBack(shown, failed, |shown|)) == Without(threads, targets - failed)
    ensures forall k :: 0 <= k < |shown| && shown[k].id in failed ==> Present(threads, shown[k].id)
  {
    hide Without, Present;
    forall t | t in threads
      ensures t.id in targets - BroughtBack(shown, failed, |shown|) <==> t.id in targets - failed
    {
      if t.id in failed {
        assert LastShown(shown, |shown|, t);
        var i :| 0 <= i < |shown| && shown[i] == t;
        assert shown[i].id in BroughtBack(shown, failed, |shown|);
      }
    }
    WithoutByIds(threads, targets - BroughtBack(shown, failed, |shown|), targets - failed);
    forall k | 0 <= k < |shown| && shown[k].id in failed
      ensures Present(threads, shown[k].id)
    {
      var t := LastCopyExists(shown, |shown|, k);
      assert t in threads;
      PresentIsMember(threads, t.id);
    }
  }

  lemma SameByIds(a: seq<MailThread>, b: seq<MailThread>)
    requires SameElements(a, b) && SameIds(a, b) && DistinctThreads(b)
    ensures a == b
  {
    forall i | 0 <= i < |a|
      ensures a[i] == b[i]
    {
      assert a[i] in b;
      var j :| 0 <= j < |b| && b[j] == a[i];
      assert b[j].id == b[i].id;
    }
  }

  /** The exact condition, for any list and any display: undoing with what is on display leaves the
      list without the successes, order included, if and only if the two agree on the failed threads
      and each of those fits between its neighbours on display. */
  lemma UndoIsExactIff(threads: seq<MailThread>, shown: seq<MailThread>, targets: set<string>, failed: set<string>)
    requires DistinctThreads(threads) && failed <= targets
    ensures RestoreFirst(Without(threads, targets), shown, failed, |shown|) == Without(threads, targets - failed)
       <==> AgreeOn(threads, shown, failed) && AllFit(threads, shown, targets, failed, |shown|)
  {
    hide Without, DistinctThreads, RestoreFirst, AllFit, AgreeOn, Present;
    var r, kept := RestoreFirst(Without(threads, targets), shown, failed, |shown|), Without(threads, targets - failed);
    ContentsIff(threads, shown, targets, failed);
    if AgreeOn(threads, shown, failed) {
      AllBack(threads, shown, targets, failed);
      PrefixInPlaceIff(threads, shown, targets, failed, |shown|);
      if SameIds(r, kept) {
        WithoutKeepsDistinct(threads, targets - failed);
        SameByIds(r, kept);
      }
    }
  }

  // ---------------------------------------------------------------- views in one order

  /** Every thread of the list strictly between two places is gone or on display. */
  predicate NoStrangerBetween(threads: seq<MailThread>, shown: seq<MailThread>, gone: set<string>, i: nat, j: nat) {
    forall m | i < m < j && m < |threads| :: threads[m].id in gone || Present(shown, threads[m].id)
  }

  /** When the list has the order of the display, only threads that are not on display can be in
      the way: those between the thread and its neighbour. */
  lemma FitsInOrder(threads: seq<MailThread>, shown: seq<MailThread>, gone: set<string>, k: nat)
    requires DistinctThreads(threads) && DistinctThreads(shown) && InOriginalOrder(threads, shown)
    requires k < |shown| && shown[k].id in gone && Present(threads, shown[k].id)
    ensures var x := FindIndex(threads, shown[k].id);
            var p, q := FirstIn(Without(threads, gone), shown, k + 1), LastIn(Without(threads, gone), shown, k);
            Fits(threads, shown, gone, k)
            <==> if p < |shown| then NoStrangerBetween(threads, shown, gone, x, FindIndex(threads, shown[p].id))
                 else if q > 0 then NoStrangerBetween(threads, shown, gone, FindIndex(threads, shown[q - 1].id), x)
                 else NoStrangerBetween(threads, shown, gone, x, |threads|)
  {
    hide FindIndex, Without, DistinctThreads, Present, FirstIn, LastIn, InOriginalOrder;
    var list, x := Without(threads, gone), FindIndex(threads, shown[k].id);
    var p, q := FirstIn(list, shown, k + 1), LastIn(list, shown, k);
    if p < |shown| {
      WithoutMembers(threads, gone, shown[p].id);
      SameOrder(threads, shown, k, p);
    } else if q > 0 {
      WithoutMembers(threads, gone, shown[q - 1].id);
      SameOrder(threads, shown, q - 1, k);
    }
    forall m | 0 <= m < |threads| && m != x && threads[m].id !in gone && Present(shown, threads[m].id)
      ensures var n := FindIndex(shown, threads[m].id);
              n < |shown| && !(k < n < p) && !(q <= n < k) && n != k
              && (n < k <==> m < x) && (p < |shown| && n >= p ==> m >= FindIndex(threads, shown[p].id))
              && (q > 0 && n < q ==> m <= FindIndex(threads, shown[q - 1].id))
    {
      StandsOutside(threads, shown, gone, k, m);
    }
  }

  lemma SameOrder(threads: seq<MailThread>, shown: seq<MailThread>, i: nat, j: nat)
    requires DistinctThreads(shown) && InOriginalOrder(threads, shown) && i < j < |shown|
    requires Present(threads, shown[i].id) && Present(threads, shown[j].id)
    ensures FindIndex(threads, shown[i].id) < FindIndex(threads, shown[j].id)
  {
    hide FindIndex, DistinctThreads, InOriginalOrder;
    IndexInDistinct(shown, i);
    IndexInDistinct(shown, j);
    InItself(shown, i);
    InItself(shown, j);
    AheadBothWays(threads, shown, shown[i].id, shown[j].id);
  }

  /** A thread that is on display and there stands beyond the neighbours of thread `k`. */
  lemma StandsOutside(threads: seq<MailThread>, shown: seq<MailThread>, gone: set<string>, k: nat, m: nat)
    requires DistinctThreads(threads) && DistinctThreads(shown) && InOriginalOrder(threads, shown)
    requires k < |shown| && Present(threads, shown[k].id)
    requires m < |threads| && m != FindIndex(threads, shown[k].id)
    requires threads[m].id !in gone && Present(shown, threads[m].id)
    ensures var list, x, n := Without(threads, gone), FindIndex(threads, shown[k].id), FindIndex(shown, threads[m].id);
            var p, q := FirstIn(list, shown, k + 1), LastIn(list, shown, k);
            n < |shown| && !(k < n < p) && !(q <= n < k) && n != k
            && (n < k <==> m < x) && (p < |shown| && n >= p ==> m >= FindIndex(threads, shown[p].id))
            && (q > 0 && n < q ==> m <= FindIndex(threads, shown[q - 1].id))
  {
    hide FindIndex, Without, DistinctThreads, FirstIn, LastIn, InOriginalOrder;
    var list, n := Without(threads, gone), FindIndex(shown, threads[m].id);
    var p, q := FirstIn(list, shown, k + 1), LastIn(list, shown, k);
    IndexInDistinct(threads, m);
    WithoutMembers(threads, gone, threads[m].id);
    assert shown[n].id == threads[m].id;
    if n < k {
      SameOrder(threads, shown, n, k);
      if n < q - 1 {
        WithoutMembers(threads, gone, shown[q - 1].id);
        SameOrder(threads, shown, n, q - 1);
      }
    } else if k < n {
      SameOrder(threads, shown, k, n);
      if p < n {
        WithoutMembers(threads, gone, shown[p].id);
        SameOrder(threads, shown, p, n);
      }
    }
  }
}
