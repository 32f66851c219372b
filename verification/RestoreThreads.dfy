/**
 Putting conversations back after a failed action: `restoreThreads` of mailActions.ts and the
 filter it undoes in `applyAction` of App.tsx.
 */
module RestoreThreads {
  import opened Options
  import opened Ordering
  import opened Threads

  /** `findIndex` by id, with the length standing for "not found". */
  function FindIndex(threads: seq<MailThread>, id: string): (i: nat)
    ensures i <= |threads|
    ensures i < |threads| ==> threads[i].id == id
    ensures forall k :: 0 <= k < i ==> threads[k].id != id
  {
    if threads == [] || threads[0].id == id then 0 else 1 + FindIndex(threads[1..], id)
  }

  predicate Present(threads: seq<MailThread>, id: string) {
    FindIndex(threads, id) < |threads|
  }

  /** Where the first thread of `original[k..]` that is in `next` stands there. */
  function Successor(next: seq<MailThread>, original: seq<MailThread>, k: nat): Option<nat>
    requires k <= |original|
    decreases |original| - k
  {
    if k == |original| then None
    else if Present(next, original[k].id) then Some(FindIndex(next, original[k].id))
    else Successor(next, original, k + 1)
  }

  /** Where the last thread of `original[..k]` that is in `next` stands there. */
  function Predecessor(next: seq<MailThread>, original: seq<MailThread>, k: nat): Option<nat>
    requires k <= |original|
  {
    if k == 0 then None
    else if Present(next, original[k - 1].id) then Some(FindIndex(next, original[k - 1].id))
    else Predecessor(next, original, k - 1)
  }

  function Splice(next: seq<MailThread>, i: nat, thread: MailThread): seq<MailThread>
    requires i <= |next|
  {
    next[..i] + [thread] + next[i..]
  }

  lemma {:induction false} SuccessorIsIndex(next: seq<MailThread>, original: seq<MailThread>, k: nat)
    requires k <= |original|
    ensures Successor(next, original, k).Some? ==> Successor(next, original, k).value < |next|
    decreases |original| - k
  {
    if k < |original| {
      SuccessorIsIndex(next, original, k + 1);
    }
  }

  lemma {:induction false} PredecessorIsIndex(next: seq<MailThread>, original: seq<MailThread>, k: nat)
    requires k <= |original|
    ensures Predecessor(next, original, k).Some? ==> Predecessor(next, original, k).value < |next|
  {
    if k > 0 {
      PredecessorIsIndex(next, original, k - 1);
    }
  }

  /** One round of the loop, for a thread at place `k` of the original list. */
  function RestoreOne(next: seq<MailThread>, original: seq<MailThread>, k: nat): seq<MailThread>
    requires k < |original|
  {
    var thread := original[k];
    var existing := FindIndex(next, thread.id);
    if existing < |next| then next[existing := thread]
    else
      var originalIndex := FindIndex(original, thread.id);
      SuccessorIsIndex(next, original, originalIndex + 1);
      PredecessorIsIndex(next, original, originalIndex);
      var successor := Successor(next, original, originalIndex + 1);
      var predecessor := Predecessor(next, original, originalIndex);
      if successor.Some? then Splice(next, successor.value, thread)
      else if predecessor.Some? then Splice(next, predecessor.value + 1, thread)
      else Splice(next, |next|, thread)
  }

  function RestoreFirst(current: seq<MailThread>, original: seq<MailThread>, restoredIds: set<string>, n: nat)
    : seq<MailThread>
    requires n <= |original|
  {
    if n == 0 then current
    else
      var next := RestoreFirst(current, original, restoredIds, n - 1);
      if original[n - 1].id in restoredIds then RestoreOne(next, original, n - 1) else next
  }

  method FindSuccessor(next: seq<MailThread>, original: seq<MailThread>, k: nat) returns (r: Option<nat>)
    requires k <= |original|
    ensures r == Successor(next, original, k)
  {
    var j := k;
    while j < |original|
      invariant k <= j <= |original|
      invariant Successor(next, original, k) == Successor(next, original, j)
    {
      var index := FindIndex(next, original[j].id);
      if index < |next| {
        return Some(index);
      }
      j := j + 1;
    }
    return None;
  }

  method FindPredecessor(next: seq<MailThread>, original: seq<MailThread>, k: nat) returns (r: Option<nat>)
    requires k <= |original|
    ensures r == Predecessor(next, original, k)
  {
    var j := k;
    while j > 0
      invariant 0 <= j <= k
      invariant Predecessor(next, original, k) == Predecessor(next, original, j)
    {
      var index := FindIndex(next, original[j - 1].id);
      if index < |next| {
        return Some(index);
      }
      j := j - 1;
    }
    return None;
  }

  method Restore(current: seq<MailThread>, original: seq<MailThread>, restoredIds: set<string>)
    returns (next: seq<MailThread>)
    ensures next == RestoreFirst(current, original, restoredIds, |original|)
  {
    next := current;
    for i := 0 to |original|
      invariant next == RestoreFirst(current, original, restoredIds, i)
    {
      var thread := original[i];
      if thread.id !in restoredIds {
        continue;
      }
      var existing := FindIndex(next, thread.id);
      if existing < |next| {
        next := next[existing := thread];
        continue;
      }
      var originalIndex := FindIndex(original, thread.id);
      var successor := FindSuccessor(next, original, originalIndex + 1);
      SuccessorIsIndex(next, original, originalIndex + 1);
      if successor.Some? {
        next := next[..successor.value] + [thread] + next[successor.value..];
        continue;
      }
      var predecessor := FindPredecessor(next, original, originalIndex);
      PredecessorIsIndex(next, original, originalIndex);
      var place := if predecessor.Some? then predecessor.value + 1 else |next|;
      next := next[..place] + [thread] + next[place..];
    }
  }

  // ---------------------------------------------------------------- what it promises

  predicate DistinctThreads(threads: seq<MailThread>) {
    forall i, j :: 0 <= i < j < |threads| ==> threads[i].id != threads[j].id
  }

  /** The threads of `original` that are in `next` stand there in their original order. */
  predicate InOriginalOrder(next: seq<MailThread>, original: seq<MailThread>) {
    forall i, j :: 0 <= i < j < |next| && Present(original, next[i].id) && Present(original, next[j].id) ==>
                     FindIndex(original, next[i].id) < FindIndex(original, next[j].id)
  }

  /** The ids of `threads` that are in `ids`, in order. */
  function OnlyIds(threads: seq<MailThread>, ids: set<string>): seq<string> {
    if threads == [] then []
    else (if threads[0].id in ids then [threads[0].id] else []) + OnlyIds(threads[1..], ids)
  }

  ghost function IdSet(threads: seq<MailThread>): set<string> {
    set t | t in threads :: t.id
  }

  lemma IndexInDistinct(threads: seq<MailThread>, k: nat)
    requires DistinctThreads(threads) && k < |threads|
    ensures FindIndex(threads, threads[k].id) == k
  {
    hide FindIndex;
    var i := FindIndex(threads, threads[k].id);
    assert i <= k && threads[i].id == threads[k].id;
  }

  lemma PresentIsMember(threads: seq<MailThread>, id: string)
    ensures Present(threads, id) <==> id in IdSet(threads)
  {
    hide FindIndex;
    var i := FindIndex(threads, id);
    if i < |threads| {
      assert threads[i] in threads;
    }
  }

  lemma {:induction false} SuccessorIsNext(next: seq<MailThread>, original: seq<MailThread>, k: nat)
    requires k <= |original| && DistinctThreads(original)
    ensures match Successor(next, original, k)
            case None => forall j :: 0 <= j < |next| ==> !(k <= FindIndex(original, next[j].id) < |original|)
            case Some(i) =>
              && i < |next| && k <= FindIndex(original, next[i].id) < |original|
              && forall j :: 0 <= j < |next| ==>
                               !(k <= FindIndex(original, next[j].id) < FindIndex(original, next[i].id))
    decreases |original| - k
  {
    hide FindIndex, DistinctThreads;
    if k < |original| {
      IndexInDistinct(original, k);
      if !Present(next, original[k].id) {
        SuccessorIsNext(next, original, k + 1);
        AbsentIsElsewhere(next, original, k);
      }
    }
  }

  lemma {:induction false} PredecessorIsPrevious(next: seq<MailThread>, original: seq<MailThread>, k: nat)
    requires k <= |original| && DistinctThreads(original)
    ensures match Predecessor(next, original, k)
            case None => forall j :: 0 <= j < |next| ==> FindIndex(original, next[j].id) >= k
            case Some(i) =>
              && i < |next| && FindIndex(original, next[i].id) < k
              && forall j :: 0 <= j < |next| ==>
                               !(FindIndex(original, next[i].id) < FindIndex(original, next[j].id) < k)
  {
    hide FindIndex, DistinctThreads;
    if k > 0 {
      IndexInDistinct(original, k - 1);
      if !Present(next, original[k - 1].id) {
        PredecessorIsPrevious(next, original, k - 1);
        AbsentIsElsewhere(next, original, k - 1);
      }
    }
  }

  lemma AbsentIsElsewhere(next: seq<MailThread>, original: seq<MailThread>, k: nat)
    requires k < |original| && !Present(next, original[k].id)
    ensures forall j :: 0 <= j < |next| ==> FindIndex(original, next[j].id) != k
  {
    hide FindIndex;
  }

  lemma SpliceKeepsOrder(next: seq<MailThread>, original: seq<MailThread>, i: nat, thread: MailThread)
    requires i <= |next| && InOriginalOrder(next, original)
    requires forall j :: 0 <= j < i && Present(original, next[j].id) ==>
                           FindIndex(original, next[j].id) < FindIndex(original, thread.id)
    requires forall j :: i <= j < |next| && Present(original, next[j].id) ==>
                           FindIndex(original, thread.id) < FindIndex(original, next[j].id)
    ensures InOriginalOrder(Splice(next, i, thread), original)
  {
    hide FindIndex, Present;
  }

  lemma ReplaceKeepsOrder(next: seq<MailThread>, original: seq<MailThread>, i: nat, thread: MailThread)
    requires i < |next| && InOriginalOrder(next, original) && next[i].id == thread.id
    ensures InOriginalOrder(next[i := thread], original)
  {
    hide FindIndex, Present;
  }

  /** One restored thread goes where the original order wants it. */
  lemma RestoreOneKeepsOrder(next: seq<MailThread>, original: seq<MailThread>, k: nat)
    requires k < |original| && DistinctThreads(original) && InOriginalOrder(next, original)
    ensures InOriginalOrder(RestoreOne(next, original, k), original)
  {
    hide FindIndex, DistinctThreads, InOriginalOrder, Splice, Successor, Predecessor;
    var thread := original[k];
    var existing := FindIndex(next, thread.id);
    IndexInDistinct(original, k);
    if existing < |next| {
      ReplaceKeepsOrder(next, original, existing, thread);
    } else {
      AbsentIsElsewhere(next, original, k);
      SuccessorIsNext(next, original, k + 1);
      PredecessorIsPrevious(next, original, k);
      var place := PlaceOf(next, original, k);
      PlaceIsInOrder(next, original, k);
      SpliceKeepsOrder(next, original, place, thread);
    }
  }

  ghost function PlaceOf(next: seq<MailThread>, original: seq<MailThread>, k: nat): (place: nat)
    requires k < |original|
    ensures place <= |next|
  {
    SuccessorIsIndex(next, original, k + 1);
    PredecessorIsIndex(next, original, k);
    var successor := Successor(next, original, k + 1);
    var predecessor := Predecessor(next, original, k);
    if successor.Some? then successor.value else if predecessor.Some? then predecessor.value + 1 else |next|
  }

  lemma PlaceIsInOrder(next: seq<MailThread>, original: seq<MailThread>, k: nat)
    requires k < |original| && DistinctThreads(original) && InOriginalOrder(next, original)
    requires !Present(next, original[k].id)
    ensures forall j :: 0 <= j < PlaceOf(next, original, k) && Present(original, next[j].id) ==>
                          FindIndex(original, next[j].id) < k
    ensures forall j :: PlaceOf(next, original, k) <= j < |next| && Present(original, next[j].id) ==>
                          k < FindIndex(original, next[j].id)
  {
    hide FindIndex, DistinctThreads, Successor, Predecessor;
    AbsentIsElsewhere(next, original, k);
    SuccessorIsNext(next, original, k + 1);
    PredecessorIsPrevious(next, original, k);
  }

  /** One round changes nothing but the restored thread. */
  lemma RestoreOneElements(next: seq<MailThread>, original: seq<MailThread>, k: nat)
    requires k < |original| && DistinctThreads(next)
    ensures var r := RestoreOne(next, original, k);
            && DistinctThreads(r)
            && forall t :: t in r <==> t == original[k] || (t in next && t.id != original[k].id)
  {
    hide Successor, Predecessor, FindIndex;
    var thread, r := original[k], RestoreOne(next, original, k);
    var i := FindIndex(next, thread.id);
    if i < |next| {
      ReplaceElements(next, i, thread);
    } else {
      var originalIndex := FindIndex(original, thread.id);
      SuccessorIsIndex(next, original, originalIndex + 1);
      PredecessorIsIndex(next, original, originalIndex);
      SpliceElements(next, if Successor(next, original, originalIndex + 1).Some?
                           then Successor(next, original, originalIndex + 1).value
                           else if Predecessor(next, original, originalIndex).Some?
                           then Predecessor(next, original, originalIndex).value + 1 else |next|, thread);
    }
  }

  lemma ReplaceElements(next: seq<MailThread>, i: nat, thread: MailThread)
    requires i < |next| && DistinctThreads(next) && next[i].id == thread.id
    ensures DistinctThreads(next[i := thread])
    ensures forall t :: t in next[i := thread] <==> t == thread || (t in next && t.id != thread.id)
  {
    var r := next[i := thread];
    assert r[i] in r;
    forall t | t in next && t.id != thread.id
      ensures t in r
    {
      var j :| 0 <= j < |next| && next[j] == t;
      assert r[j] == t;
    }
  }

  lemma SpliceElements(next: seq<MailThread>, i: nat, thread: MailThread)
    requires i <= |next| && DistinctThreads(next) && forall j :: 0 <= j < |next| ==> next[j].id != thread.id
    ensures DistinctThreads(Splice(next, i, thread))
    ensures forall t :: t in Splice(next, i, thread) <==> t == thread || (t in next && t.id != thread.id)
  {
    assert next == next[..i] + next[i..];
  }

  lemma OnlyIdsOfCons(t: MailThread, rest: seq<MailThread>, ids: set<string>)
    ensures OnlyIds([t] + rest, ids) == (if t.id in ids then [t.id] else []) + OnlyIds(rest, ids)
  {
  }

  lemma OnlyIdsOfNone(ids: set<string>)
    ensures OnlyIds([], ids) == []
  {
  }

  lemma {:induction false} OnlyIdsConcat(a: seq<MailThread>, b: seq<MailThread>, ids: set<string>)
    ensures OnlyIds(a + b, ids) == OnlyIds(a, ids) + OnlyIds(b, ids)
  {
    hide OnlyIds;
    if a == [] {
      assert a + b == b;
      OnlyIdsOfNone(ids);
    } else {
      OnlyIdsConcat(a[1..], b, ids);
      OnlyIdsOfCons(a[0], a[1..] + b, ids);
      OnlyIdsOfCons(a[0], a[1..], ids);
      assert a + b == [a[0]] + (a[1..] + b) && a == [a[0]] + a[1..];
    }
  }

  lemma {:induction false} OnlyIdsByIds(a: seq<MailThread>, b: seq<MailThread>, ids: set<string>)
    requires |a| == |b| && forall i :: 0 <= i < |a| ==> a[i].id == b[i].id
    ensures OnlyIds(a, ids) == OnlyIds(b, ids)
  {
    if a != [] {
      OnlyIdsByIds(a[1..], b[1..], ids);
    }
  }

  lemma SpliceKeepsIds(next: seq<MailThread>, i: nat, thread: MailThread, ids: set<string>)
    requires i <= |next| && thread.id !in ids
    ensures OnlyIds(Splice(next, i, thread), ids) == OnlyIds(next, ids)
  {
    hide OnlyIds;
    OnlyIdsConcat(next[..i], [thread], ids);
    OnlyIdsConcat(next[..i] + [thread], next[i..], ids);
    OnlyIdsConcat(next[..i], next[i..], ids);
    NotListed(thread, ids);
    assert next == next[..i] + next[i..];
  }

  lemma NotListed(thread: MailThread, ids: set<string>)
    requires thread.id !in ids
    ensures OnlyIds([thread], ids) == []
  {
  }

  /** One round moves none of the threads that were there. */
  lemma RestoreOneKeepsIds(next: seq<MailThread>, original: seq<MailThread>, k: nat, ids: set<string>)
    requires k < |original| && forall id :: id in ids ==> Present(next, id)
    ensures OnlyIds(RestoreOne(next, original, k), ids) == OnlyIds(next, ids)
  {
    hide Successor, Predecessor, FindIndex, OnlyIds, Splice;
    var thread := original[k];
    var existing := FindIndex(next, thread.id);
    if existing < |next| {
      OnlyIdsByIds(next, next[existing := thread], ids);
    } else {
      var originalIndex := FindIndex(original, thread.id);
      SuccessorIsIndex(next, original, originalIndex + 1);
      PredecessorIsIndex(next, original, originalIndex);
      forall i | 0 <= i <= |next|
        ensures OnlyIds(Splice(next, i, thread), ids) == OnlyIds(next, ids)
      {
        SpliceKeepsIds(next, i, thread, ids);
      }
    }
  }

  /** Which threads the restored list holds, for the first `n` original ones. */
  ghost predicate Restores(r: seq<MailThread>, current: seq<MailThread>, original: seq<MailThread>,
                           restoredIds: set<string>) {
    forall t :: t in r <==> || (t in original && t.id in restoredIds)
                            || (t in current && !(t.id in restoredIds && t.id in IdSet(original)))
  }

  lemma {:induction false} RestoreFirstHolds(current: seq<MailThread>, original: seq<MailThread>,
                                             restoredIds: set<string>, n: nat)
    requires n <= |original| && DistinctThreads(current) && DistinctThreads(original)
    ensures var r := RestoreFirst(current, original, restoredIds, n);
            DistinctThreads(r) && Restores(r, current, original[..n], restoredIds)
  {
    hide RestoreOne, DistinctThreads;
    if n > 0 {
      RestoreFirstHolds(current, original, restoredIds, n - 1);
      var next := RestoreFirst(current, original, restoredIds, n - 1);
      var r := RestoreFirst(current, original, restoredIds, n);
      PrefixIds(original, n);
      if original[n - 1].id in restoredIds {
        RestoreOneElements(next, original, n - 1);
        NotEarlier(original, n);
      }
    }
  }

  lemma PrefixIds(original: seq<MailThread>, n: nat)
    requires 0 < n <= |original|
    ensures IdSet(original[..n]) == IdSet(original[..n - 1]) + {original[n - 1].id}
    ensures forall t :: t in original[..n] <==> t in original[..n - 1] || t == original[n - 1]
  {
    assert original[..n] == original[..n - 1] + [original[n - 1]];
  }

  lemma NotEarlier(original: seq<MailThread>, n: nat)
    requires 0 < n <= |original| && DistinctThreads(original)
    ensures original[n - 1].id !in IdSet(original[..n - 1])
  {
  }

  lemma {:induction false} RestoreFirstKeepsOrder(current: seq<MailThread>, original: seq<MailThread>,
                                                  restoredIds: set<string>, n: nat)
    requires n <= |original| && DistinctThreads(original) && InOriginalOrder(current, original)
    ensures InOriginalOrder(RestoreFirst(current, original, restoredIds, n), original)
  {
    hide RestoreOne, DistinctThreads, InOriginalOrder;
    if n > 0 {
      RestoreFirstKeepsOrder(current, original, restoredIds, n - 1);
      if original[n - 1].id in restoredIds {
        RestoreOneKeepsOrder(RestoreFirst(current, original, restoredIds, n - 1), original, n - 1);
      }
    }
  }

  lemma {:induction false} RestoreFirstKeepsIds(current: seq<MailThread>, original: seq<MailThread>,
                                                restoredIds: set<string>, n: nat)
    requires n <= |original| && DistinctThreads(current) && DistinctThreads(original)
    ensures OnlyIds(RestoreFirst(current, original, restoredIds, n), IdSet(current)) == OnlyIds(current, IdSet(current))
  {
    hide RestoreOne, DistinctThreads, OnlyIds, Present, Restores, IdSet;
    if n > 0 {
      RestoreFirstKeepsIds(current, original, restoredIds, n - 1);
      if original[n - 1].id in restoredIds {
        var next := RestoreFirst(current, original, restoredIds, n - 1);
        forall id | id in IdSet(current)
          ensures Present(next, id)
        {
          RestoreFirstHolds(current, original, restoredIds, n - 1);
          StillThere(next, current, original[..n - 1], restoredIds, id);
        }
        RestoreOneKeepsIds(next, original, n - 1, IdSet(current));
      }
    }
  }

  lemma StillThere(r: seq<MailThread>, current: seq<MailThread>, original: seq<MailThread>,
                   restoredIds: set<string>, id: string)
    requires Restores(r, current, original, restoredIds) && id in IdSet(current)
    ensures Present(r, id)
  {
    hide Present;
    PresentIsMember(r, id);
    var c :| c in current && c.id == id;
    if id in restoredIds && id in IdSet(original) {
      var o :| o in original && o.id == id;
      assert o in r;
    } else {
      assert c in r;
    }
  }

  /** Restoring keeps the original order of the original threads and the current order of the
      current ones, and holds exactly the current threads and the restored ones. */
  lemma RestoreKeepsBothOrders(current: seq<MailThread>, original: seq<MailThread>, restoredIds: set<string>)
    requires DistinctThreads(current) && DistinctThreads(original)
    ensures var r := RestoreFirst(current, original, restoredIds, |original|);
            && DistinctThreads(r)
            && Restores(r, current, original, restoredIds)
            && OnlyIds(r, IdSet(current)) == OnlyIds(current, IdSet(current))
            && (InOriginalOrder(current, original) ==> InOriginalOrder(r, original))
  {
    hide *;
    RestoreFirstHolds(current, original, restoredIds, |original|);
    RestoreFirstKeepsIds(current, original, restoredIds, |original|);
    assert original[..|original|] == original;
    if InOriginalOrder(current, original) {
      RestoreFirstKeepsOrder(current, original, restoredIds, |original|);
    }
  }

  // ---------------------------------------------------------------- undoing a failed action

  /** The optimistic filter of `applyAction`. */
  function Without(threads: seq<MailThread>, ids: set<string>): seq<MailThread> {
    if threads == [] then [] else (if threads[0].id in ids then [] else [threads[0]]) + Without(threads[1..], ids)
  }

  function EarlierIn(original: seq<MailThread>): (MailThread, MailThread) -> bool {
    (a: MailThread, b: MailThread) => FindIndex(original, a.id) < FindIndex(original, b.id)
  }

  lemma {:induction false} WithoutElements(threads: seq<MailThread>, ids: set<string>)
    ensures forall t :: t in Without(threads, ids) <==> t in threads && t.id !in ids
  {
    if threads != [] {
      WithoutElements(threads[1..], ids);
      assert forall t :: t in threads <==> t == threads[0] || t in threads[1..];
    }
  }

  lemma {:induction false} WithoutIsSorted(original: seq<MailThread>, k: nat, ids: set<string>)
    requires k <= |original| && DistinctThreads(original)
    ensures Sorted(Without(original[k..], ids), EarlierIn(original))
    decreases |original| - k
  {
    hide FindIndex, DistinctThreads, Sorted;
    if k < |original| {
      WithoutIsSorted(original, k + 1, ids);
      assert original[k..][1..] == original[k + 1..];
      var rest := Without(original[k + 1..], ids);
      WithoutElements(original[k + 1..], ids);
      forall i | 0 <= i < |rest|
        ensures EarlierIn(original)(original[k], rest[i])
      {
        assert rest[i] in original[k + 1..];
        LaterInOriginal(original, k, rest[i]);
      }
      PrependSorted(original[k], rest, EarlierIn(original));
      assert [] + rest == rest;
    } else {
      EmptyIsSorted(original);
    }
  }

  lemma EmptyIsSorted(original: seq<MailThread>)
    ensures Sorted([], EarlierIn(original))
  {
  }

  lemma LaterInOriginal(original: seq<MailThread>, k: nat, t: MailThread)
    requires DistinctThreads(original) && k < |original| && t in original[k + 1..]
    ensures FindIndex(original, original[k].id) < FindIndex(original, t.id)
  {
    hide FindIndex, DistinctThreads;
    var j :| k + 1 <= j < |original| && original[j] == t;
    IndexInDistinct(original, k);
    IndexInDistinct(original, j);
  }

  lemma SortedIsInOrder(next: seq<MailThread>, original: seq<MailThread>)
    requires forall t :: t in next ==> t in original
    ensures Sorted(next, EarlierIn(original)) <==> InOriginalOrder(next, original)
  {
    hide FindIndex;
    forall t | t in next
      ensures Present(original, t.id)
    {
      assert t in original && t.id in IdSet(original);
      PresentIsMember(original, t.id);
    }
    if Sorted(next, EarlierIn(original)) {
      forall i, j | 0 <= i < j < |next|
        ensures FindIndex(original, next[i].id) < FindIndex(original, next[j].id)
      {
        assert EarlierIn(original)(next[i], next[j]);
      }
    }
  }

  /** Undoing the failed part of an action leaves the original list without the part that
      succeeded, in the original order. */
  lemma UndoLeavesTheSuccesses(original: seq<MailThread>, targets: set<string>, failed: set<string>)
    requires DistinctThreads(original)
    ensures RestoreFirst(Without(original, targets), original, failed, |original|)
         == Without(original, targets - failed)
  {
    hide FindIndex, DistinctThreads, Sorted, InOriginalOrder, Without, OnlyIds, RestoreFirst, StrictOrder, EarlierIn;
    var current, expected := Without(original, targets), Without(original, targets - failed);
    var r := RestoreFirst(current, original, failed, |original|);
    WithoutElements(original, targets);
    WithoutElements(original, targets - failed);
    assert original[0..] == original;
    WithoutIsSorted(original, 0, targets);
    WithoutIsSorted(original, 0, targets - failed);
    SortedIsInOrder(current, original);
    WithoutIsDistinct(original, current);
    RestoreKeepsBothOrders(current, original, failed);
    assert forall t :: t in original ==> t.id in IdSet(original);
    assert SameElements(r, expected);
    SortedIsInOrder(r, original);
    EarlierIsOrder(original);
    SortedIsUnique(r, expected, EarlierIn(original));
  }

  lemma WithoutIsDistinct(original: seq<MailThread>, current: seq<MailThread>)
    requires DistinctThreads(original) && Sorted(current, EarlierIn(original))
    ensures DistinctThreads(current)
  {
    hide FindIndex;
    forall i, j | 0 <= i < j < |current|
      ensures current[i].id != current[j].id
    {
      assert EarlierIn(original)(current[i], current[j]);
    }
  }

  lemma EarlierIsOrder(original: seq<MailThread>)
    ensures StrictOrder(EarlierIn(original))
  {
    hide FindIndex;
  }
}
