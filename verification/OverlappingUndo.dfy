/**
 Two actions of App.tsx that overlap in time: the second one saw the list the first had already
 filtered, and each is undone with the list it saw.

 Undone in the opposite order of the actions they leave exactly their successes out
 (`LastInFirstOut`); undone in the order of the actions they do so if and only if nothing the
 first undo brings back is in the way of what the second one brings back (`FirstInFirstOut`).
 */
module OverlappingUndo {
  import opened Options
  import opened Ordering
  import opened RestoreThreads
  import opened Threads

  // ---------------------------------------------------------------- undone last in, first out

  lemma {:induction false} WithoutTwice(threads: seq<MailThread>, a: set<string>, b: set<string>)
    ensures Without(Without(threads, a), b) == Without(threads, a + b)
  {
    if threads != [] {
      WithoutTwice(threads[1..], a, b);
      WithoutCons(threads[0], Without(threads[1..], a), b);
      assert [] + Without(threads[1..], a) == Without(threads[1..], a);
    }
  }

  lemma WithoutCons(t: MailThread, rest: seq<MailThread>, b: set<string>)
    ensures Without([t] + rest, b) == (if t.id in b then [] else [t]) + Without(rest, b)
  {
    assert ([t] + rest)[1..] == rest;
  }

  lemma WithoutKeepsDistinct(original: seq<MailThread>, ids: set<string>)
    requires DistinctThreads(original)
    ensures DistinctThreads(Without(original, ids)) && Sorted(Without(original, ids), EarlierIn(original))
  {
    hide FindIndex, DistinctThreads, Without, Sorted;
    assert original[0..] == original;
    WithoutIsSorted(original, 0, ids);
    WithoutIsDistinct(original, Without(original, ids));
  }

  /** Undone in the opposite order of the actions, each with the list it saw, two actions leave
      the original list without their successes. */
  lemma LastInFirstOut(original: seq<MailThread>, targets1: set<string>, failed1: set<string>,
                       targets2: set<string>, failed2: set<string>)
    requires DistinctThreads(original) && targets1 !! targets2 && failed1 <= targets1 && failed2 <= targets2
    ensures var second := Without(original, targets1);
            var current := Without(second, targets2);
            var undone := RestoreFirst(current, second, failed2, |second|);
            RestoreFirst(undone, original, failed1, |original|)
            == Without(original, (targets1 - failed1) + (targets2 - failed2))
  {
    hide Without, RestoreFirst, DistinctThreads;
    var second := Without(original, targets1);
    WithoutKeepsDistinct(original, targets1);
    UndoLeavesTheSuccesses(second, targets2, failed2);
    WithoutTwice(original, targets1, targets2 - failed2);
    UndoLeavesTheSuccesses(original, targets1 + (targets2 - failed2), failed1);
    assert (targets1 + (targets2 - failed2)) - failed1 == (targets1 - failed1) + (targets2 - failed2);
  }

  // ---------------------------------------------------------------- where a restored thread ends up

  predicate Ahead(threads: seq<MailThread>, a: string, b: string) {
    FindIndex(threads, a) < FindIndex(threads, b)
  }

  lemma IndexIs(threads: seq<MailThread>, i: nat, id: string)
    requires i < |threads| && threads[i].id == id && forall k :: 0 <= k < i ==> threads[k].id != id
    ensures FindIndex(threads, id) == i
  {
    hide FindIndex;
    var n := FindIndex(threads, id);
    assert n <= i;
  }

  lemma SpliceIndex(next: seq<MailThread>, i: nat, thread: MailThread, id: string)
    requires i <= |next| && !Present(next, thread.id)
    ensures FindIndex(Splice(next, i, thread), thread.id) == i
    ensures id != thread.id && Present(next, id) ==>
              FindIndex(Splice(next, i, thread), id) == FindIndex(next, id) + if FindIndex(next, id) < i then 0 else 1
  {
    hide FindIndex;
    var r := Splice(next, i, thread);
    IndexIs(r, i, thread.id);
    if id != thread.id && Present(next, id) {
      var n := FindIndex(next, id);
      IndexIs(r, n + if n < i then 0 else 1, id);
    }
  }

  lemma ReplaceIndex(next: seq<MailThread>, i: nat, thread: MailThread, id: string)
    requires i < |next| && next[i].id == thread.id
    ensures FindIndex(next[i := thread], id) == FindIndex(next, id)
  {
    hide FindIndex;
    var n := FindIndex(next, id);
    if n < |next| {
      IndexIs(next[i := thread], n, id);
    } else {
      IndexOfAbsent(next[i := thread], id);
    }
  }

  lemma IndexOfAbsent(threads: seq<MailThread>, id: string)
    requires forall k :: 0 <= k < |threads| ==> threads[k].id != id
    ensures FindIndex(threads, id) == |threads|
  {
  }

  lemma RestoreOneIsSplice(next: seq<MailThread>, original: seq<MailThread>, k: nat)
    requires k < |original| && FindIndex(original, original[k].id) == k && !Present(next, original[k].id)
    ensures RestoreOne(next, original, k) == Splice(next, PlaceOf(next, original, k), original[k])
  {
    hide FindIndex, Successor, Predecessor, Splice;
    var originalIndex := FindIndex(original, original[k].id);
    assert originalIndex == k && FindIndex(next, original[k].id) == |next|;
    SuccessorIsIndex(next, original, k + 1);
    PredecessorIsIndex(next, original, k);
  }

  lemma RestoreOneKeepsAhead(next: seq<MailThread>, original: seq<MailThread>, k: nat, a: string, b: string)
    requires k < |original| && DistinctThreads(original) && Present(next, a) && Present(next, b)
    ensures var r := RestoreOne(next, original, k);
            Present(r, a) && Present(r, b) && (Ahead(r, a, b) <==> Ahead(next, a, b))
  {
    hide FindIndex, DistinctThreads, PlaceOf, RestoreOne, Splice;
    var thread := original[k];
    if Present(next, thread.id) {
      RestoreOneReplaces(next, original, k);
      ReplaceIndex(next, FindIndex(next, thread.id), thread, a);
      ReplaceIndex(next, FindIndex(next, thread.id), thread, b);
    } else {
      IndexInDistinct(original, k);
      RestoreOneIsSplice(next, original, k);
      SpliceIndex(next, PlaceOf(next, original, k), thread, a);
      SpliceIndex(next, PlaceOf(next, original, k), thread, b);
      SpliceSize(next, PlaceOf(next, original, k), thread);
    }
  }

  lemma RestoreOneReplaces(next: seq<MailThread>, original: seq<MailThread>, k: nat)
    requires k < |original| && Present(next, original[k].id)
    ensures RestoreOne(next, original, k) == next[FindIndex(next, original[k].id) := original[k]]
  {
    hide FindIndex;
  }

  lemma SpliceSize(next: seq<MailThread>, i: nat, thread: MailThread)
    requires i <= |next|
    ensures |Splice(next, i, thread)| == |next| + 1
  {
  }

  lemma {:induction false} RestoreKeepsAhead(current: seq<MailThread>, original: seq<MailThread>, ids: set<string>,
                                             n: nat, a: string, b: string)
    requires n <= |original| && DistinctThreads(original) && Present(current, a) && Present(current, b)
    ensures var r := RestoreFirst(current, original, ids, n);
            Present(r, a) && Present(r, b) && (Ahead(r, a, b) <==> Ahead(current, a, b))
  {
    hide RestoreOne, DistinctThreads, Ahead, Present;
    if n > 0 {
      RestoreKeepsAhead(current, original, ids, n - 1, a, b);
      if original[n - 1].id in ids {
        RestoreOneKeepsAhead(RestoreFirst(current, original, ids, n - 1), original, n - 1, a, b);
      }
    }
  }

  /** The first place from `k` on whose thread is in `list`. */
  function FirstIn(list: seq<MailThread>, original: seq<MailThread>, k: nat): (m: nat)
    requires k <= |original|
    ensures k <= m <= |original| && (m < |original| ==> Present(list, original[m].id))
    ensures forall j :: k <= j < m ==> !Present(list, original[j].id)
    decreases |original| - k
  {
    if k == |original| || Present(list, original[k].id) then k else FirstIn(list, original, k + 1)
  }

  /** One more than the last place before `k` whose thread is in `list`; 0 when there is none. */
  function LastIn(list: seq<MailThread>, original: seq<MailThread>, k: nat): (m: nat)
    requires k <= |original|
    ensures m <= k && (m > 0 ==> Present(list, original[m - 1].id))
    ensures forall j :: m <= j < k ==> !Present(list, original[j].id)
  {
    if k == 0 || Present(list, original[k - 1].id) then k else LastIn(list, original, k - 1)
  }

  lemma {:induction false} SuccessorIsFirstIn(list: seq<MailThread>, original: seq<MailThread>, k: nat)
    requires k <= |original|
    ensures var m := FirstIn(list, original, k);
            Successor(list, original, k) == if m < |original| then Some(FindIndex(list, original[m].id)) else None
    decreases |original| - k
  {
    hide FindIndex;
    if k < |original| && !Present(list, original[k].id) {
      SuccessorIsFirstIn(list, original, k + 1);
    }
  }

  lemma {:induction false} PredecessorIsLastIn(list: seq<MailThread>, original: seq<MailThread>, k: nat)
    requires k <= |original|
    ensures var m := LastIn(list, original, k);
            Predecessor(list, original, k) == if m > 0 then Some(FindIndex(list, original[m - 1].id)) else None
  {
    hide FindIndex;
    if k > 0 && !Present(list, original[k - 1].id) {
      PredecessorIsLastIn(list, original, k - 1);
    }
  }

  lemma PlaceByNeighbours(list: seq<MailThread>, original: seq<MailThread>, k: nat)
    requires k < |original|
    ensures var p, q := FirstIn(list, original, k + 1), LastIn(list, original, k);
            PlaceOf(list, original, k)
            == if p < |original| then FindIndex(list, original[p].id)
               else if q > 0 then FindIndex(list, original[q - 1].id) + 1
               else |list|
  {
    hide FindIndex, Successor, Predecessor, FirstIn, LastIn, Present;
    SuccessorIsFirstIn(list, original, k + 1);
    PredecessorIsLastIn(list, original, k);
  }

  /** Which threads of the original list are there after the first `n` rounds. */
  lemma PresentAfter(current: seq<MailThread>, original: seq<MailThread>, ids: set<string>, n: nat, j: nat)
    requires n <= |original| && j < |original| && DistinctThreads(current) && DistinctThreads(original)
    ensures Present(RestoreFirst(current, original, ids, n), original[j].id)
       <==> Present(current, original[j].id) || (j < n && original[j].id in ids)
  {
    hide Present, RestoreFirst, DistinctThreads;
    var r, id := RestoreFirst(current, original, ids, n), original[j].id;
    RestoreFirstHolds(current, original, ids, n);
    PresentIsMember(r, id);
    PresentIsMember(current, id);
    InPrefix(original, n, j);
    if j < n && id in ids {
      assert original[j] in original[..n] && original[j] in r;
    } else if Present(current, id) {
      StillThere(r, current, original[..n], ids, id);
    }
    if id in IdSet(r) {
      var t :| t in r && t.id == id;
      if t in current {
        assert id in IdSet(current);
      } else {
        assert t in original[..n] && id in IdSet(original[..n]);
      }
    }
  }

  lemma InPrefix(original: seq<MailThread>, n: nat, j: nat)
    requires n <= |original| && j < |original| && DistinctThreads(original)
    ensures original[j].id in IdSet(original[..n]) <==> j < n
  {
    if j < n {
      assert original[j] in original[..n];
    }
    if t :| t in original[..n] && t.id == original[j].id {
      var i :| 0 <= i < n && original[i] == t;
      assert i == j;
    }
  }

  /** The place of a restored thread among threads the original list does not know is decided by
      the list it is restored to: the rounds in between change nothing. */
  lemma {:induction false} RestoredPlace(current: seq<MailThread>, original: seq<MailThread>, ids: set<string>,
                                         n: nat, k: nat, y: string)
    requires n <= |original| && k < n && DistinctThreads(current) && DistinctThreads(original)
    requires original[k].id in ids && !Present(current, original[k].id)
    requires Present(current, y) && !Present(original, y)
    ensures var r := RestoreFirst(current, original, ids, n);
            && Present(r, y) && Present(r, original[k].id)
            && (Ahead(r, y, original[k].id) <==> FindIndex(current, y) < PlaceOf(current, original, k))
    decreases n, 0
  {
    hide FindIndex, DistinctThreads, PlaceOf, RestoreOne, Ahead, Present;
    var next := RestoreFirst(current, original, ids, n - 1);
    var x := original[k].id;
    if k < n - 1 {
      RestoredPlace(current, original, ids, n - 1, k, y);
      if original[n - 1].id in ids {
        RestoreOneKeepsAhead(next, original, n - 1, y, x);
      }
    } else {
      RestoreKeepsAhead(current, original, ids, k, y, y);
      PresentAfter(current, original, ids, k, k);
      OtherId(original, k, y);
      SplicedPlace(next, original, k, y);
      PlaceCarries(current, original, ids, k, y);
    }
  }

  lemma OtherId(original: seq<MailThread>, k: nat, y: string)
    requires k < |original| && !Present(original, y)
    ensures original[k].id != y
  {
    hide FindIndex;
  }

  lemma SplicedPlace(next: seq<MailThread>, original: seq<MailThread>, k: nat, y: string)
    requires k < |original| && DistinctThreads(original) && !Present(next, original[k].id)
    requires Present(next, y) && original[k].id != y
    ensures var r := RestoreOne(next, original, k);
            && Present(r, y) && Present(r, original[k].id)
            && (Ahead(r, y, original[k].id) <==> FindIndex(next, y) < PlaceOf(next, original, k))
  {
    hide FindIndex, DistinctThreads, PlaceOf, RestoreOne, Splice;
    IndexInDistinct(original, k);
    RestoreOneIsSplice(next, original, k);
    SpliceIndex(next, PlaceOf(next, original, k), original[k], y);
    SpliceSize(next, PlaceOf(next, original, k), original[k]);
  }

  /** Whether the place for thread `k` is behind `y` is the same before the rounds as when its turn
      comes. */
  lemma {:induction false} PlaceCarries(current: seq<MailThread>, original: seq<MailThread>, ids: set<string>,
                                        k: nat, y: string)
    requires k < |original| && DistinctThreads(current) && DistinctThreads(original)
    requires !Present(current, original[k].id) && Present(current, y) && !Present(original, y)
    ensures var next := RestoreFirst(current, original, ids, k);
            FindIndex(next, y) < PlaceOf(next, original, k) <==> FindIndex(current, y) < PlaceOf(current, original, k)
    decreases k, 2
  {
    hide FindIndex, DistinctThreads, PlaceOf, RestoreFirst, FirstIn, LastIn, Present;
    var next := RestoreFirst(current, original, ids, k);
    forall j | 0 <= j < |original|
      ensures Present(next, original[j].id) <==> Present(current, original[j].id) || (j < k && original[j].id in ids)
    {
      PresentAfter(current, original, ids, k, j);
    }
    PlaceByNeighbours(next, original, k);
    PlaceByNeighbours(current, original, k);
    RestoreKeepsAhead(current, original, ids, k, y, y);
    SameFirstIn(next, current, original, k + 1);
    var p, q := FirstIn(next, original, k + 1), LastIn(next, original, k);
    if p < |original| {
      RestoreKeepsAhead(current, original, ids, k, y, original[p].id);
    } else if q == 0 {
      SameLastIn(next, current, original, k);
      PresentIsIndex(next, y);
      PresentIsIndex(current, y);
    } else {
      BehindPredecessor(current, original, ids, k, y, q - 1);
    }
  }

  lemma PresentIsIndex(list: seq<MailThread>, y: string)
    requires Present(list, y)
    ensures FindIndex(list, y) < |list|
  {
  }

  lemma SameFirstIn(a: seq<MailThread>, b: seq<MailThread>, original: seq<MailThread>, k: nat)
    requires k <= |original|
    requires forall j :: k <= j < |original| ==> (Present(a, original[j].id) <==> Present(b, original[j].id))
    ensures FirstIn(a, original, k) == FirstIn(b, original, k)
  {
    hide FirstIn, Present;
    var m, n := FirstIn(a, original, k), FirstIn(b, original, k);
    assert m <= n && n <= m;
  }

  lemma SameLastIn(a: seq<MailThread>, b: seq<MailThread>, original: seq<MailThread>, k: nat)
    requires k <= |original| && LastIn(a, original, k) == 0
    requires forall j :: 0 <= j < k && Present(b, original[j].id) ==> Present(a, original[j].id)
    ensures LastIn(b, original, k) == 0
  {
    hide LastIn, Present;
  }

  /** The case without a successor: `m` is the thread just before the place. */
  lemma {:induction false} BehindPredecessor(current: seq<MailThread>, original: seq<MailThread>, ids: set<string>,
                                             k: nat, y: string, m: nat)
    requires m < k < |original| && DistinctThreads(current) && DistinctThreads(original)
    requires !Present(current, original[k].id) && Present(current, y) && !Present(original, y)
    requires var next := RestoreFirst(current, original, ids, k);
             && m + 1 == LastIn(next, original, k) && FirstIn(next, original, k + 1) == |original|
             && FirstIn(current, original, k + 1) == |original|
             && forall j :: 0 <= j < |original| ==>
                  (Present(next, original[j].id)
                   <==> Present(current, original[j].id) || (j < k && original[j].id in ids))
    ensures var next := RestoreFirst(current, original, ids, k);
            FindIndex(next, y) < FindIndex(next, original[m].id) + 1
            <==> FindIndex(current, y) < PlaceOf(current, original, k)
    decreases k, 1
  {
    hide FindIndex, DistinctThreads, PlaceOf, RestoreFirst, FirstIn, LastIn, Present;
    var next := RestoreFirst(current, original, ids, k);
    var x := original[m].id;
    PlaceByNeighbours(current, original, k);
    OtherId(original, m, y);
    assert Present(next, x);
    RestoreKeepsAhead(current, original, ids, k, y, y);
    DifferentIndex(next, y, x);
    if Present(current, x) {
      LastIs(current, original, k, m);
      RestoreKeepsAhead(current, original, ids, k, y, x);
      DifferentIndex(current, y, x);
    } else {
      RestoredPlace(current, original, ids, k, m, y);
      PlaceByNeighbours(current, original, m);
      FirstIsNone(current, original, m + 1);
      SameLast(current, original, m, k);
    }
  }

  lemma DifferentIndex(list: seq<MailThread>, y: string, x: string)
    requires Present(list, x) && Present(list, y) && x != y
    ensures FindIndex(list, x) != FindIndex(list, y)
    ensures FindIndex(list, y) < FindIndex(list, x) + 1 <==> Ahead(list, y, x)
  {
    hide FindIndex;
  }

  lemma LastIs(list: seq<MailThread>, original: seq<MailThread>, k: nat, m: nat)
    requires m < k <= |original| && Present(list, original[m].id)
    requires forall j :: m < j < k ==> !Present(list, original[j].id)
    ensures LastIn(list, original, k) == m + 1
  {
    hide LastIn, Present;
    var q := LastIn(list, original, k);
    assert q >= m + 1;
  }

  lemma FirstIsNone(list: seq<MailThread>, original: seq<MailThread>, k: nat)
    requires k <= |original| && forall j :: k <= j < |original| ==> !Present(list, original[j].id)
    ensures FirstIn(list, original, k) == |original|
  {
    hide FirstIn, Present;
  }

  lemma {:induction false} SameLast(list: seq<MailThread>, original: seq<MailThread>, m: nat, k: nat)
    requires m <= k <= |original| && forall j :: m <= j < k ==> !Present(list, original[j].id)
    ensures LastIn(list, original, k) == LastIn(list, original, m)
  {
    hide Present;
    if m < k {
      SameLast(list, original, m, k - 1);
    }
  }

  // ---------------------------------------------------------------- undone first in, first out

  /** The first place from `k` on whose thread stays. */
  function NextStaying(threads: seq<MailThread>, gone: set<string>, k: nat): (m: nat)
    requires k <= |threads|
    ensures k <= m <= |threads| && (m < |threads| ==> threads[m].id !in gone)
    ensures forall j :: k <= j < m ==> threads[j].id in gone
    decreases |threads| - k
  {
    if k == |threads| || threads[k].id !in gone then k else NextStaying(threads, gone, k + 1)
  }

  /** One more than the last place before `k` whose thread stays; 0 when there is none. */
  function LastStaying(threads: seq<MailThread>, gone: set<string>, k: nat): (m: nat)
    requires k <= |threads|
    ensures m <= k && (m > 0 ==> threads[m - 1].id !in gone)
    ensures forall j :: m <= j < k ==> threads[j].id in gone
  {
    if k == 0 || threads[k - 1].id !in gone then k else LastStaying(threads, gone, k - 1)
  }

  /** Thread `j` of the original list is in the way of thread `k` of the second one: it stands
      between it and the next thread that stays; without such a thread, between it and the last
      one that stays; without either, behind it. */
  predicate InTheWay(original: seq<MailThread>, second: seq<MailThread>, gone: set<string>, k: nat, j: nat)
    requires k < |second|
  {
    var x, p, q := FindIndex(original, second[k].id), NextStaying(second, gone, k + 1), LastStaying(second, gone, k);
    if p < |second| then x < j < FindIndex(original, second[p].id)
    else if q > 0 then FindIndex(original, second[q - 1].id) < j < x
    else x < j
  }

  /** No thread the first undo brings back is in the way of one the second undo brings back. */
  predicate Undisturbed(original: seq<MailThread>, second: seq<MailThread>, failed1: set<string>,
                        targets2: set<string>, failed2: set<string>) {
    forall k, j | 0 <= k < |second| && second[k].id in failed2 && 0 <= j < |original| && original[j].id in failed1 ::
      !InTheWay(original, second, targets2, k, j)
  }

  lemma WithoutMembers(threads: seq<MailThread>, ids: set<string>, id: string)
    ensures Present(Without(threads, ids), id) <==> Present(threads, id) && id !in ids
  {
    hide Present, Without;
    WithoutElements(threads, ids);
    PresentIsMember(threads, id);
    PresentIsMember(Without(threads, ids), id);
    var r := Without(threads, ids);
    if id in IdSet(r) {
      var t :| t in r && t.id == id;
      assert t in threads;
    }
    if id in IdSet(threads) && id !in ids {
      var t :| t in threads && t.id == id;
      assert t in r;
    }
  }

  lemma SortedByIndex(list: seq<MailThread>, original: seq<MailThread>, a: string, b: string)
    requires Sorted(list, EarlierIn(original)) && Present(list, a) && Present(list, b) && a != b
    ensures Ahead(list, a, b) <==> Ahead(original, a, b)
  {
    hide FindIndex;
    var i, j := FindIndex(list, a), FindIndex(list, b);
    if i < j {
      assert EarlierIn(original)(list[i], list[j]);
    } else {
      assert i != j;
      assert EarlierIn(original)(list[j], list[i]);
    }
  }

  /** A list of original threads is in original order when every two of its ids are. */
  lemma InOrderByIds(r: seq<MailThread>, original: seq<MailThread>)
    requires DistinctThreads(r)
    requires forall a, b | Present(r, a) && Present(r, b) && a != b :: Ahead(r, a, b) ==> Ahead(original, a, b)
    ensures InOriginalOrder(r, original)
  {
    hide FindIndex, Ahead;
    forall i, j | 0 <= i < j < |r|
      ensures FindIndex(original, r[i].id) < FindIndex(original, r[j].id)
    {
      IndexInDistinct(r, i);
      IndexInDistinct(r, j);
      assert Present(r, r[i].id) && Present(r, r[j].id);
      AheadByIndex(r, i, j);
      assert Ahead(original, r[i].id, r[j].id);
      AheadIsIndex(original, r[i].id, r[j].id);
    }
  }

  lemma AheadIsIndex(list: seq<MailThread>, a: string, b: string)
    ensures Ahead(list, a, b) <==> FindIndex(list, a) < FindIndex(list, b)
  {
    hide FindIndex;
  }

  lemma AheadByIndex(r: seq<MailThread>, i: nat, j: nat)
    requires i < j < |r| && FindIndex(r, r[i].id) == i && FindIndex(r, r[j].id) == j
    ensures Ahead(r, r[i].id, r[j].id)
  {
    hide FindIndex;
  }

  /** Two actions on `original`, the second one on what the first left, and what failed of each. */
  predicate TwoActions(original: seq<MailThread>, targets1: set<string>, failed1: set<string>,
                       targets2: set<string>, failed2: set<string>) {
    DistinctThreads(original) && targets1 !! targets2 && failed1 <= targets1 && failed2 <= targets2
  }

  lemma StayingIsIn(list: seq<MailThread>, second: seq<MailThread>, gone: set<string>, k: nat)
    requires k <= |second|
    requires forall j :: 0 <= j < |second| ==> (Present(list, second[j].id) <==> second[j].id !in gone)
    ensures FirstIn(list, second, k) == NextStaying(second, gone, k)
    ensures LastIn(list, second, k) == LastStaying(second, gone, k)
  {
    hide Present, FirstIn, LastIn, NextStaying, LastStaying;
    var m, n := FirstIn(list, second, k), NextStaying(second, gone, k);
    assert m <= n && n <= m;
    var q, l := LastIn(list, second, k), LastStaying(second, gone, k);
    assert q <= l && l <= q;
  }

  lemma SecondMembers(original: seq<MailThread>, targets1: set<string>, k: nat)
    requires DistinctThreads(original) && k < |Without(original, targets1)|
    ensures var id := Without(original, targets1)[k].id;
            && Present(original, id) && id !in targets1
            && FindIndex(Without(original, targets1), id) == k
  {
    hide FindIndex, Without, DistinctThreads;
    var second := Without(original, targets1);
    WithoutKeepsDistinct(original, targets1);
    IndexInDistinct(second, k);
    WithoutMembers(original, targets1, second[k].id);
  }

  /** The list after the first undo, as the second one finds it. */
  ghost function AfterFirst(original: seq<MailThread>, targets1: set<string>, failed1: set<string>,
                            targets2: set<string>): seq<MailThread> {
    Without(original, (targets1 + targets2) - failed1)
  }

  /** The place the second undo finds is right exactly when thread `j` is not in the way. */
  lemma PlaceIsRightIff(original: seq<MailThread>, targets1: set<string>, failed1: set<string>,
                        targets2: set<string>, failed2: set<string>, k: nat, j: nat)
    requires TwoActions(original, targets1, failed1, targets2, failed2)
    requires k < |Without(original, targets1)| && Without(original, targets1)[k].id in failed2
    requires j < |original| && original[j].id in failed1
    ensures var second := Without(original, targets1);
            var list := AfterFirst(original, targets1, failed1, targets2);
            (FindIndex(list, original[j].id) < PlaceOf(list, second, k)
             <==> Ahead(original, original[j].id, second[k].id))
            <==> !InTheWay(original, second, targets2, k, j)
  {
    hide FindIndex, Without, DistinctThreads, PlaceOf, Sorted, Present, FirstIn, LastIn, NextStaying, LastStaying;
    var second, list := Without(original, targets1), AfterFirst(original, targets1, failed1, targets2);
    var y, x := original[j].id, second[k].id;
    WithoutKeepsDistinct(original, targets1);
    WithoutKeepsDistinct(original, (targets1 + targets2) - failed1);
    forall i | 0 <= i < |second|
      ensures Present(list, second[i].id) <==> second[i].id !in targets2
    {
      SecondMembers(original, targets1, i);
      WithoutMembers(original, (targets1 + targets2) - failed1, second[i].id);
    }
    StayingIsIn(list, second, targets2, k + 1);
    StayingIsIn(list, second, targets2, k);
    PlaceByNeighbours(list, second, k);
    IndexInDistinct(original, j);
    InItself(original, j);
    WithoutMembers(original, (targets1 + targets2) - failed1, y);
    SecondMembers(original, targets1, k);
    assert x != y;
    DifferentIndex(original, y, x);
    var p, q := NextStaying(second, targets2, k + 1), LastStaying(second, targets2, k);
    if p < |second| {
      var s := second[p].id;
      SecondMembers(original, targets1, p);
      assert s != y;
      SortedByIndex(list, original, y, s);
      DifferentIndex(original, y, s);
      InItself(second, k);
      InItself(second, p);
      SortedByIndex(second, original, x, s);
    } else if q > 0 {
      var s := second[q - 1].id;
      SecondMembers(original, targets1, q - 1);
      assert s != y;
      SortedByIndex(list, original, y, s);
      DifferentIndex(original, y, s);
      DifferentIndex(list, y, s);
      InItself(second, k);
      InItself(second, q - 1);
      SortedByIndex(second, original, s, x);
    } else {
      PresentIsIndex(list, y);
    }
  }

  lemma InItself(list: seq<MailThread>, k: nat)
    requires k < |list|
    ensures Present(list, list[k].id)
  {
    hide FindIndex;
  }

  /** What the second undo makes of the order of a thread of each kind. */
  lemma MixedPair(original: seq<MailThread>, targets1: set<string>, failed1: set<string>,
                  targets2: set<string>, failed2: set<string>, k: nat, j: nat)
    requires TwoActions(original, targets1, failed1, targets2, failed2)
    requires k < |Without(original, targets1)| && Without(original, targets1)[k].id in failed2
    requires j < |original| && original[j].id in failed1
    ensures var second := Without(original, targets1);
            var r := RestoreFirst(AfterFirst(original, targets1, failed1, targets2), second, failed2, |second|);
            var y, x := original[j].id, second[k].id;
            && x != y && Present(r, y) && Present(r, x)
            && ((Ahead(r, y, x) <==> Ahead(original, y, x)) <==> !InTheWay(original, second, targets2, k, j))
  {
    hide FindIndex, Without, DistinctThreads, PlaceOf, Present, Ahead, InTheWay, RestoreFirst, AfterFirst;
    var second, list := Without(original, targets1), AfterFirst(original, targets1, failed1, targets2);
    var y, x := original[j].id, second[k].id;
    PlaceIsRightIff(original, targets1, failed1, targets2, failed2, k, j);
    InItself(original, j);
    SecondMembers(original, targets1, k);
    WithoutMembers(original, targets1, y);
    AfterFirstMembers(original, targets1, failed1, targets2, y);
    AfterFirstMembers(original, targets1, failed1, targets2, x);
    WithoutKeepsDistinct(original, targets1);
    RestoredPlace(list, second, failed2, |second|, k, y);
  }

  lemma AfterFirstMembers(original: seq<MailThread>, targets1: set<string>, failed1: set<string>,
                          targets2: set<string>, id: string)
    requires DistinctThreads(original)
    ensures DistinctThreads(AfterFirst(original, targets1, failed1, targets2))
    ensures Sorted(AfterFirst(original, targets1, failed1, targets2), EarlierIn(original))
    ensures Present(AfterFirst(original, targets1, failed1, targets2), id)
       <==> Present(original, id) && id !in (targets1 + targets2) - failed1
  {
    hide FindIndex, Without, DistinctThreads, Present, Sorted;
    WithoutKeepsDistinct(original, (targets1 + targets2) - failed1);
    WithoutMembers(original, (targets1 + targets2) - failed1, id);
  }

  lemma SubOrder(original: seq<MailThread>, list: seq<MailThread>, second: seq<MailThread>)
    requires Sorted(list, EarlierIn(original)) && Sorted(second, EarlierIn(original)) && DistinctThreads(list)
    ensures InOriginalOrder(list, second)
  {
    hide FindIndex, Sorted;
    forall i, j | 0 <= i < j < |list| && Present(second, list[i].id) && Present(second, list[j].id)
      ensures FindIndex(second, list[i].id) < FindIndex(second, list[j].id)
    {
      IndexInDistinct(list, i);
      IndexInDistinct(list, j);
      InItself(list, i);
      InItself(list, j);
      SortedByIndex(list, original, list[i].id, list[j].id);
      SortedByIndex(second, original, list[i].id, list[j].id);
    }
  }

  /** After both undos the list holds what it should, in the order of the second list. */
  lemma BothUndone(original: seq<MailThread>, targets1: set<string>, failed1: set<string>,
                   targets2: set<string>, failed2: set<string>)
    requires TwoActions(original, targets1, failed1, targets2, failed2)
    ensures var second := Without(original, targets1);
            var r := RestoreFirst(AfterFirst(original, targets1, failed1, targets2), second, failed2, |second|);
            && DistinctThreads(r) && InOriginalOrder(r, second)
            && (forall t :: t in r <==> t in original && t.id !in (targets1 - failed1) + (targets2 - failed2))
  {
    hide FindIndex, Without, DistinctThreads, Sorted, InOriginalOrder, RestoreFirst, OnlyIds;
    var second, list := Without(original, targets1), AfterFirst(original, targets1, failed1, targets2);
    WithoutKeepsDistinct(original, targets1);
    WithoutKeepsDistinct(original, (targets1 + targets2) - failed1);
    SubOrder(original, list, second);
    RestoreKeepsBothOrders(list, second, failed2);
    WithoutElements(original, targets1);
    WithoutElements(original, (targets1 + targets2) - failed1);
    assert forall t :: t in original && t.id !in targets1 ==> t.id in IdSet(second);
  }

  /** Two threads of the result that the undos did not bring back from different actions. */
  lemma LikePair(original: seq<MailThread>, targets1: set<string>, failed1: set<string>,
                 targets2: set<string>, failed2: set<string>, a: string, b: string)
    requires TwoActions(original, targets1, failed1, targets2, failed2) && a != b
    requires (a !in failed1 && b !in failed1) || (a !in failed2 && b !in failed2)
    requires var second := Without(original, targets1);
             var r := RestoreFirst(AfterFirst(original, targets1, failed1, targets2), second, failed2, |second|);
             Present(r, a) && Present(r, b)
    ensures var second := Without(original, targets1);
            var r := RestoreFirst(AfterFirst(original, targets1, failed1, targets2), second, failed2, |second|);
            Ahead(r, a, b) ==> Ahead(original, a, b)
  {
    hide FindIndex, Without, DistinctThreads, Present, Ahead, Sorted, RestoreFirst, AfterFirst, InOriginalOrder;
    var second, list := Without(original, targets1), AfterFirst(original, targets1, failed1, targets2);
    var r := RestoreFirst(list, second, failed2, |second|);
    BothUndone(original, targets1, failed1, targets2, failed2);
    MemberOfResult(original, r, (targets1 - failed1) + (targets2 - failed2), a);
    MemberOfResult(original, r, (targets1 - failed1) + (targets2 - failed2), b);
    WithoutKeepsDistinct(original, targets1);
    if a !in failed1 && b !in failed1 {
      WithoutMembers(original, targets1, a);
      WithoutMembers(original, targets1, b);
      SortedByIndex(second, original, a, b);
      if Ahead(r, a, b) {
        OrderGivesAhead(r, second, a, b);
      }
    } else {
      AfterFirstMembers(original, targets1, failed1, targets2, a);
      AfterFirstMembers(original, targets1, failed1, targets2, b);
      RestoreKeepsAhead(list, second, failed2, |second|, a, b);
      SortedByIndex(list, original, a, b);
    }
  }

  lemma MemberOfResult(original: seq<MailThread>, r: seq<MailThread>, gone: set<string>, id: string)
    requires forall t :: t in r <==> t in original && t.id !in gone
    ensures Present(r, id) <==> Present(original, id) && id !in gone
  {
    hide Present;
    PresentIsMember(r, id);
    PresentIsMember(original, id);
    if id in IdSet(r) {
      var t :| t in r && t.id == id;
      assert t in original;
    }
    if id in IdSet(original) && id !in gone {
      var t :| t in original && t.id == id;
      assert t in r;
    }
  }

  lemma OrderGivesAhead(r: seq<MailThread>, second: seq<MailThread>, a: string, b: string)
    requires InOriginalOrder(r, second) && Present(r, a) && Present(r, b) && Present(second, a) && Present(second, b)
    requires Ahead(r, a, b)
    ensures Ahead(second, a, b)
  {
    hide FindIndex;
    var i, j := FindIndex(r, a), FindIndex(r, b);
    assert r[i].id == a && r[j].id == b;
  }

  /** The exact condition for undoing two actions in the order they were made, each with the list
      it saw: the result is the original list without the successes if and only if nothing the
      first undo brought back is in the way of what the second one brings back. */
  lemma FirstInFirstOut(original: seq<MailThread>, targets1: set<string>, failed1: set<string>,
                        targets2: set<string>, failed2: set<string>)
    requires TwoActions(original, targets1, failed1, targets2, failed2)
    ensures var second := Without(original, targets1);
            var current := Without(second, targets2);
            var undone := RestoreFirst(current, original, failed1, |original|);
            RestoreFirst(undone, second, failed2, |second|)
            == Without(original, (targets1 - failed1) + (targets2 - failed2))
            <==> Undisturbed(original, second, failed1, targets2, failed2)
  {
    hide FindIndex, Without, DistinctThreads, Sorted, InOriginalOrder, RestoreFirst, AfterFirst, Undisturbed,
      StrictOrder, EarlierIn;
    var second, list := Without(original, targets1), AfterFirst(original, targets1, failed1, targets2);
    FirstUndone(original, targets1, failed1, targets2);
    var r, ideal := RestoreFirst(list, second, failed2, |second|),
                    Without(original, (targets1 - failed1) + (targets2 - failed2));
    BothUndone(original, targets1, failed1, targets2, failed2);
    WithoutElements(original, (targets1 - failed1) + (targets2 - failed2));
    WithoutKeepsDistinct(original, (targets1 - failed1) + (targets2 - failed2));
    assert SameElements(r, ideal);
    SortedIsInOrder(r, original);
    EarlierIsOrder(original);
    if InOriginalOrder(r, original) {
      SortedIsUnique(r, ideal, EarlierIn(original));
    }
    InOrderIffUndisturbed(original, targets1, failed1, targets2, failed2);
  }

  lemma FirstUndone(original: seq<MailThread>, targets1: set<string>, failed1: set<string>, targets2: set<string>)
    requires DistinctThreads(original)
    ensures RestoreFirst(Without(Without(original, targets1), targets2), original, failed1, |original|)
         == AfterFirst(original, targets1, failed1, targets2)
  {
    hide Without, RestoreFirst, DistinctThreads;
    WithoutTwice(original, targets1, targets2);
    UndoLeavesTheSuccesses(original, targets1 + targets2, failed1);
  }

  lemma InOrderIffUndisturbed(original: seq<MailThread>, targets1: set<string>, failed1: set<string>,
                              targets2: set<string>, failed2: set<string>)
    requires TwoActions(original, targets1, failed1, targets2, failed2)
    ensures var second := Without(original, targets1);
            var r := RestoreFirst(AfterFirst(original, targets1, failed1, targets2), second, failed2, |second|);
            InOriginalOrder(r, original) <==> Undisturbed(original, second, failed1, targets2, failed2)
  {
    hide FindIndex, Without, DistinctThreads, InOriginalOrder, RestoreFirst, AfterFirst, Present, Ahead, InTheWay;
    var second := Without(original, targets1);
    var r := RestoreFirst(AfterFirst(original, targets1, failed1, targets2), second, failed2, |second|);
    BothUndone(original, targets1, failed1, targets2, failed2);
    if Undisturbed(original, second, failed1, targets2, failed2) {
      forall a, b | Present(r, a) && Present(r, b) && a != b
        ensures Ahead(r, a, b) ==> Ahead(original, a, b)
      {
        AnyPair(original, targets1, failed1, targets2, failed2, a, b);
      }
      InOrderByIds(r, original);
    }
    if InOriginalOrder(r, original) {
      forall k, j | 0 <= k < |second| && second[k].id in failed2 && 0 <= j < |original| && original[j].id in failed1
        ensures !InTheWay(original, second, targets2, k, j)
      {
        MixedPair(original, targets1, failed1, targets2, failed2, k, j);
        InItself(original, j);
        SecondMembers(original, targets1, k);
        AheadBothWays(r, original, original[j].id, second[k].id);
      }
    }
  }

  lemma AheadBothWays(r: seq<MailThread>, original: seq<MailThread>, y: string, x: string)
    requires InOriginalOrder(r, original) && Present(r, x) && Present(r, y) && x != y
    requires Present(original, x) && Present(original, y)
    ensures Ahead(r, y, x) <==> Ahead(original, y, x)
  {
    hide FindIndex;
    var i, j := FindIndex(r, y), FindIndex(r, x);
    assert r[i].id == y && r[j].id == x && i != j;
  }

  lemma AnyPair(original: seq<MailThread>, targets1: set<string>, failed1: set<string>,
                targets2: set<string>, failed2: set<string>, a: string, b: string)
    requires TwoActions(original, targets1, failed1, targets2, failed2) && a != b
    requires Undisturbed(original, Without(original, targets1), failed1, targets2, failed2)
    requires var second := Without(original, targets1);
             var r := RestoreFirst(AfterFirst(original, targets1, failed1, targets2), second, failed2, |second|);
             Present(r, a) && Present(r, b)
    ensures var second := Without(original, targets1);
            var r := RestoreFirst(AfterFirst(original, targets1, failed1, targets2), second, failed2, |second|);
            Ahead(r, a, b) ==> Ahead(original, a, b)
  {
    hide FindIndex, Without, DistinctThreads, InOriginalOrder, RestoreFirst, AfterFirst, Present, Ahead, Undisturbed;
    var second := Without(original, targets1);
    var r := RestoreFirst(AfterFirst(original, targets1, failed1, targets2), second, failed2, |second|);
    BothUndone(original, targets1, failed1, targets2, failed2);
    MemberOfResult(original, r, (targets1 - failed1) + (targets2 - failed2), a);
    MemberOfResult(original, r, (targets1 - failed1) + (targets2 - failed2), b);
    if a in failed1 && b in failed2 {
      UndisturbedPair(original, targets1, failed1, targets2, failed2, a, b);
    } else if b in failed1 && a in failed2 {
      UndisturbedPair(original, targets1, failed1, targets2, failed2, b, a);
      OneIsAhead(r, a, b);
      OneIsAhead(original, a, b);
    } else {
      LikePair(original, targets1, failed1, targets2, failed2, a, b);
    }
  }

  lemma OneIsAhead(list: seq<MailThread>, a: string, b: string)
    requires Present(list, a) && Present(list, b) && a != b
    ensures Ahead(list, a, b) <==> !Ahead(list, b, a)
  {
    hide FindIndex;
  }

  lemma UndisturbedPair(original: seq<MailThread>, targets1: set<string>, failed1: set<string>,
                        targets2: set<string>, failed2: set<string>, y: string, x: string)
    requires TwoActions(original, targets1, failed1, targets2, failed2)
    requires Undisturbed(original, Without(original, targets1), failed1, targets2, failed2)
    requires y in failed1 && x in failed2 && Present(original, y) && Present(original, x)
    ensures var second := Without(original, targets1);
            var r := RestoreFirst(AfterFirst(original, targets1, failed1, targets2), second, failed2, |second|);
            Ahead(r, y, x) <==> Ahead(original, y, x)
  {
    hide FindIndex, Without, DistinctThreads, RestoreFirst, AfterFirst, Ahead, InTheWay;
    var second := Without(original, targets1);
    WithoutMembers(original, targets1, x);
    var k, j := FindIndex(second, x), FindIndex(original, y);
    assert second[k].id == x && original[j].id == y;
    MixedPair(original, targets1, failed1, targets2, failed2, k, j);
  }

  /** Two overlapping actions, each undone with the list it saw: the second one saw a list from
      which the first had already taken `a`, so it cannot know that `b` belongs before `a`. */
  lemma OverlappingUndoReorders(a: MailThread, b: MailThread)
    requires a.id != b.id
    ensures Without([b, a], {a.id}) == [b] && Without([b], {b.id}) == []
    ensures var afterFirst := RestoreFirst([], [b, a], {a.id}, 2);
            RestoreFirst(afterFirst, [b], {b.id}, 1) == [a, b]
  {
    assert [b, a][1..] == [a] && [a][1..] == [] && [b][1..] == [];
    assert Without([a], {a.id}) == Without([b], {b.id}) == [];
    var none: seq<MailThread> := [];
    assert RestoreFirst(none, [b, a], {a.id}, 1) == none;
    assert FindIndex([b, a], a.id) == 1 && FindIndex(none, b.id) == 0;
    assert Successor(none, [b, a], 2) == None && Predecessor(none, [b, a], 1) == None;
    assert RestoreOne(none, [b, a], 1) == [a];
    assert FindIndex([b], b.id) == 0 && FindIndex([a], b.id) == 1;
    assert RestoreOne([a], [b], 0) == [a, b];
  }
}
