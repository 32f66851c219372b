/**
 The paging cursor of the body-cache warmer in realtime.rs.

 `WarmCursor` is the worker's state: the offset where the next cycle starts and the messages
 whose last attempt failed.  `LoadRecentWarmCandidates` is one cycle; `CycleOf` says what a
 cycle does in terms of a window of the candidate list, and the fairness theorems follow what
 successive cycles do to a fixed list.
 */
module WarmCursor {
  import opened Basics
  import opened Ordering

  const MAX_U32 := 0xFFFF_FFFF
  type u32 = x: int | 0 <= x <= MAX_U32

  const BATCH_LIMIT: u32 := 100
  const PAGES_PER_CYCLE: u32 := 3
  /** BATCH_LIMIT * PAGES_PER_CYCLE */
  const WINDOW := 300

  function SaturatingAdd(a: u32, b: u32): u32 {
    if a + b > MAX_U32 then MAX_U32 else a + b
  }

  function SaturatingMul(a: u32, b: u32): (r: u32)
    ensures r == if a * b > MAX_U32 then MAX_U32 else a * b
  {
    assert a * b >= 0 by {
      ProductIsNonNegative(a, b);
    }
    if a * b > MAX_U32 then MAX_U32 else a * b
  }

  lemma ProductIsNonNegative(a: nat, b: nat)
    ensures a * b >= 0
  {
  }

  /** What the environment does during a cycle: the candidate list the store holds, and the
      page numbers at which a query fails or a cancellation is seen. */
  datatype Store = Store(rows: seq<string>, failsAt: set<nat>, cancelledAt: set<nat>)

  /** `recent_body_cache_candidates_page`. */
  function Page(rows: seq<string>, limit: nat, offset: nat): seq<string> {
    rows[Min(offset, |rows|)..Min(offset + limit, |rows|)]
  }

  function Warm(rows: seq<string>, cooling: set<string>): (r: seq<string>) {
    if rows == [] then []
    else (if rows[0] in cooling then [] else [rows[0]]) + Warm(rows[1..], cooling)
  }

  function Take(rows: seq<string>, n: nat): (r: seq<string>) {
    rows[..Min(n, |rows|)]
  }

  /** `select_recent_candidate_page`. */
  method SelectRecentCandidatePage(candidates: seq<string>, cooling: set<string>, selected: seq<string>)
    returns (r: seq<string>)
    requires |selected| <= BATCH_LIMIT
    ensures r == selected + Take(Warm(candidates, cooling), BATCH_LIMIT - |selected|)
  {
    r := selected;
    var remaining := BATCH_LIMIT - |selected|;
    if remaining == 0 {
      return;
    }
    var taken := 0;
    assert candidates[0..] == candidates;
    for i := 0 to |candidates|
      invariant 0 <= taken <= remaining
      invariant |r| == |selected| + taken
      invariant selected + Take(Warm(candidates, cooling), remaining)
             == r + Take(Warm(candidates[i..], cooling), remaining - taken)
    {
      var rest := Warm(candidates[i + 1..], cooling);
      assert candidates[i..][0] == candidates[i] && candidates[i..][1..] == candidates[i + 1..];
      if candidates[i] in cooling {
        assert Warm(candidates[i..], cooling) == rest;
      } else if taken < remaining {
        assert Warm(candidates[i..], cooling) == [candidates[i]] + rest;
        assert Take([candidates[i]] + rest, remaining - taken) == [candidates[i]] + Take(rest, remaining - taken - 1);
        r := r + [candidates[i]];
        taken := taken + 1;
      }
    }
  }

  function NextOffset(startOffset: u32, pagesExamined: u32, sawEmptyPage: bool, batchIsFull: bool): u32 {
    if sawEmptyPage || batchIsFull then 0
    else SaturatingAdd(startOffset, SaturatingMul(pagesExamined, BATCH_LIMIT))
  }

  // ---------------------------------------------------------------- one cycle

  datatype Cycle = Cycle(selected: seq<string>, pages: u32, sawEmptyPage: bool, queryFailed: bool, cancelled: bool)

  /** The page loop, from the state after `pages` pages. */
  function Pages(store: Store, start: u32, cooling: set<string>, pages: u32, selected: seq<string>): (c: Cycle)
    requires pages <= PAGES_PER_CYCLE && |selected| <= BATCH_LIMIT
    decreases PAGES_PER_CYCLE - pages
  {
    if pages == PAGES_PER_CYCLE || |selected| == BATCH_LIMIT then Cycle(selected, pages, false, false, false)
    else if pages in store.cancelledAt then Cycle([], pages, false, false, true)
    else if pages in store.failsAt then Cycle(selected, pages, false, true, false)
    else
      var page := Page(store.rows, BATCH_LIMIT, SaturatingAdd(start, SaturatingMul(pages, BATCH_LIMIT)));
      if page == [] then Cycle(selected, pages + 1, true, false, false)
      else Pages(store, start, cooling, pages + 1, selected + Take(Warm(page, cooling), BATCH_LIMIT - |selected|))
  }

  function OffsetAfter(start: u32, c: Cycle): u32 {
    if c.cancelled || c.queryFailed then start
    else NextOffset(start, c.pages, c.sawEmptyPage, |c.selected| == BATCH_LIMIT)
  }

  /** The failures still cooling down at `now`. */
  function Cooling(failures: map<string, nat>, now: nat): map<string, nat> {
    map id | id in failures && failures[id] > now :: failures[id]
  }

  class WarmCursor {
    var offset: u32
    var failures: map<string, nat>

    constructor ()
      ensures offset == 0 && failures == map[]
    {
      offset, failures := 0, map[];
    }

    method LoadRecentWarmCandidates(store: Store, now: nat) returns (selected: seq<string>)
      modifies this
      ensures forall id :: id in failures <==> id in old(failures) && old(failures)[id] > now
      ensures forall id :: id in failures ==> failures[id] == old(failures)[id]
      ensures var c := Pages(store, old(offset), failures.Keys, 0, []);
              selected == c.selected && offset == OffsetAfter(old(offset), c)
    {
      hide Page, Warm, Take;
      var startOffset := offset;
      failures := Cooling(failures, now);
      var cooling := failures.Keys;
      selected := [];
      var pagesExamined: u32 := 0;
      var sawEmptyPage, pageQueryFailed := false, false;
      ghost var whole := Pages(store, startOffset, cooling, 0, []);
      while pagesExamined < PAGES_PER_CYCLE && |selected| < BATCH_LIMIT && !sawEmptyPage && !pageQueryFailed
        invariant pagesExamined <= PAGES_PER_CYCLE && |selected| <= BATCH_LIMIT
        invariant offset == startOffset && failures == Cooling(old(failures), now) && cooling == failures.Keys
        invariant !(sawEmptyPage && pageQueryFailed)
        invariant whole == if sawEmptyPage then Cycle(selected, pagesExamined, true, false, false)
                           else if pageQueryFailed then Cycle(selected, pagesExamined, false, true, false)
                           else Pages(store, startOffset, cooling, pagesExamined, selected)
        decreases PAGES_PER_CYCLE - pagesExamined, !sawEmptyPage, !pageQueryFailed
      {
        if pagesExamined in store.cancelledAt {
          return [];
        }
        var at := SaturatingAdd(startOffset, SaturatingMul(pagesExamined, BATCH_LIMIT));
        if pagesExamined in store.failsAt {
          pageQueryFailed := true;
        } else {
          var candidates := Page(store.rows, BATCH_LIMIT, at);
          pagesExamined := pagesExamined + 1;
          if candidates == [] {
            sawEmptyPage := true;
          } else {
            TakeIsShort(Warm(candidates, cooling), BATCH_LIMIT - |selected|);
            selected := SelectRecentCandidatePage(candidates, cooling, selected);
          }
        }
      }
      var batchIsFull := |selected| == BATCH_LIMIT;
      offset := if pageQueryFailed then startOffset
                else NextOffset(startOffset, pagesExamined, sawEmptyPage, batchIsFull);
    }
  }

  lemma TakeIsShort(rows: seq<string>, n: nat)
    ensures |Take(rows, n)| <= n
  {
  }

  // ---------------------------------------------------------------- a cycle selects its window

  function Undisturbed(rows: seq<string>): Store {
    Store(rows, {}, {})
  }

  function CycleOf(rows: seq<string>, cooling: set<string>, offset: u32): Cycle {
    Pages(Undisturbed(rows), offset, cooling, 0, [])
  }

  function Next(rows: seq<string>, cooling: set<string>, offset: u32): u32 {
    OffsetAfter(offset, CycleOf(rows, cooling, offset))
  }

  /** The rows a cycle looks at. */
  function Window(rows: seq<string>, offset: nat): seq<string> {
    Page(rows, WINDOW, offset)
  }

  lemma {:induction false} WarmOfAppend(a: seq<string>, b: seq<string>, cooling: set<string>)
    ensures Warm(a + b, cooling) == Warm(a, cooling) + Warm(b, cooling)
  {
    if a == [] {
      assert a + b == b;
    } else {
      assert (a + b)[1..] == a[1..] + b;
      WarmOfAppend(a[1..], b, cooling);
    }
  }

  /** The rest of the window, after `pages` pages. */
  function RestOfWindow(rows: seq<string>, offset: nat, pages: nat): seq<string>
    requires pages <= PAGES_PER_CYCLE
  {
    rows[Min(offset + 100 * pages, |rows|)..Min(offset + WINDOW, |rows|)]
  }

  lemma PageStartsWindow(rows: seq<string>, offset: u32, pages: u32)
    requires |rows| <= MAX_U32 && pages < PAGES_PER_CYCLE
    ensures var page := Page(rows, BATCH_LIMIT, SaturatingAdd(offset, SaturatingMul(pages, BATCH_LIMIT)));
            && RestOfWindow(rows, offset, pages) == page + RestOfWindow(rows, offset, pages + 1)
            && (page == [] <==> offset + 100 * pages >= |rows|)
            && (page == [] ==> RestOfWindow(rows, offset, pages) == [])
  {
    var at, next, end := Min(offset + 100 * pages, |rows|), Min(offset + 100 * (pages + 1), |rows|),
                         Min(offset + WINDOW, |rows|);
    assert SaturatingMul(pages, BATCH_LIMIT) == 100 * pages;
    assert Page(rows, BATCH_LIMIT, SaturatingAdd(offset, SaturatingMul(pages, BATCH_LIMIT))) == rows[at..next];
    SliceInTwo(rows, at, next, end);
  }

  lemma SliceInTwo(rows: seq<string>, at: nat, next: nat, end: nat)
    requires at <= next <= end <= |rows|
    ensures rows[at..end] == rows[at..next] + rows[next..end]
  {
  }

  lemma {:induction false} PagesSelectWindow(rows: seq<string>, offset: u32, cooling: set<string>, pages: u32,
                                             selected: seq<string>)
    requires |rows| <= MAX_U32 && pages <= PAGES_PER_CYCLE && |selected| <= BATCH_LIMIT
    requires pages > 0 ==> offset + 100 * (pages - 1) < |rows|
    ensures var c := Pages(Undisturbed(rows), offset, cooling, pages, selected);
            var rest := Warm(RestOfWindow(rows, offset, pages), cooling);
            && !c.cancelled && !c.queryFailed
            && c.selected == selected + Take(rest, BATCH_LIMIT - |selected|)
            && (|c.selected| < BATCH_LIMIT ==>
                  && c.sawEmptyPage == (offset + 200 >= |rows|)
                  && (!c.sawEmptyPage ==> c.pages == PAGES_PER_CYCLE))
    decreases PAGES_PER_CYCLE - pages
  {
    hide Page, RestOfWindow, Warm, Take, SaturatingAdd, SaturatingMul;
    var rest := Warm(RestOfWindow(rows, offset, pages), cooling);
    TakeNothing(selected, rest);
    if pages == PAGES_PER_CYCLE {
      NothingLeft(rows, offset, cooling);
    } else if |selected| == BATCH_LIMIT {
    } else {
      var page := Page(rows, BATCH_LIMIT, SaturatingAdd(offset, SaturatingMul(pages, BATCH_LIMIT)));
      PageStartsWindow(rows, offset, pages);
      if page == [] {
        NoneWarm(cooling);
      } else {
        var room := BATCH_LIMIT - |selected|;
        var more := selected + Take(Warm(page, cooling), room);
        TakeIsShort(Warm(page, cooling), room);
        PagesSelectWindow(rows, offset, cooling, pages + 1, more);
        WarmOfAppend(page, RestOfWindow(rows, offset, pages + 1), cooling);
        TakeInTwo(selected, Warm(page, cooling), Warm(RestOfWindow(rows, offset, pages + 1), cooling), room);
      }
    }
  }

  lemma TakeNothing(selected: seq<string>, rest: seq<string>)
    ensures selected + Take(rest, 0) == selected
    ensures forall n: nat :: selected + Take([], n) == selected
  {
  }

  lemma NoneWarm(cooling: set<string>)
    ensures Warm([], cooling) == []
  {
  }

  lemma NothingLeft(rows: seq<string>, offset: nat, cooling: set<string>)
    ensures Warm(RestOfWindow(rows, offset, PAGES_PER_CYCLE), cooling) == []
  {
  }

  lemma TakeInTwo(selected: seq<string>, a: seq<string>, b: seq<string>, room: nat)
    ensures var taken := Take(a, room);
            |taken| <= room && (selected + taken) + Take(b, room - |taken|) == selected + Take(a + b, room)
  {
  }

  predicate Full(rows: seq<string>, cooling: set<string>, offset: nat) {
    |Warm(Window(rows, offset), cooling)| >= BATCH_LIMIT
  }

  /** One undisturbed cycle, from any offset: it selects the first rows of its window that are
      not cooling, at most a batch of them, and the next cycle starts right after the window,
      or at the top when the window reached the end of the list or filled the batch. */
  lemma CycleSelectsWindow(rows: seq<string>, cooling: set<string>, offset: u32)
    requires |rows| <= MAX_U32
    ensures CycleOf(rows, cooling, offset).selected == Take(Warm(Window(rows, offset), cooling), BATCH_LIMIT)
    ensures Next(rows, cooling, offset)
         == if Full(rows, cooling, offset) || offset + 200 >= |rows| then 0 else SaturatingAdd(offset, WINDOW)
    ensures !Full(rows, cooling, offset) ==>
              CycleOf(rows, cooling, offset).selected == Warm(Window(rows, offset), cooling)
  {
    hide Warm, Pages;
    PagesSelectWindow(rows, offset, cooling, 0, []);
    assert RestOfWindow(rows, offset, 0) == Window(rows, offset);
    var taken := Take(Warm(Window(rows, offset), cooling), BATCH_LIMIT);
    assert [] + taken == taken;
  }

  // ---------------------------------------------------------------- a disturbed cycle

  /** What a cycle has selected before page `k`: the first rows of the pages before it that are not cooling. */
  function Before(rows: seq<string>, cooling: set<string>, offset: nat, k: nat): (r: seq<string>)
    ensures |r| <= BATCH_LIMIT
  {
    Take(Warm(Page(rows, 100 * k, offset), cooling), BATCH_LIMIT)
  }

  /** A cycle gets to page `k`: the page before it is not empty, the batch is not full, and nothing has
      interrupted the cycle so far. */
  predicate GetsTo(store: Store, cooling: set<string>, offset: nat, k: nat) {
    && k < PAGES_PER_CYCLE && (k > 0 ==> offset + 100 * (k - 1) < |store.rows|)
    && |Before(store.rows, cooling, offset, k)| < BATCH_LIMIT
    && forall j :: 0 <= j < k ==> j !in store.cancelledAt && j !in store.failsAt
  }

  lemma OnePageMore(rows: seq<string>, cooling: set<string>, offset: u32, k: u32)
    requires |rows| <= MAX_U32 && k < PAGES_PER_CYCLE
    ensures var page := Page(rows, BATCH_LIMIT, SaturatingAdd(offset, SaturatingMul(k, BATCH_LIMIT)));
            var before := Before(rows, cooling, offset, k);
            && Before(rows, cooling, offset, k + 1) == before + Take(Warm(page, cooling), BATCH_LIMIT - |before|)
            && (page == [] <==> offset + 100 * k >= |rows|)
  {
    hide Warm, Take;
    var page := Page(rows, BATCH_LIMIT, SaturatingAdd(offset, SaturatingMul(k, BATCH_LIMIT)));
    var earlier := Page(rows, 100 * k, offset);
    assert SaturatingMul(k, BATCH_LIMIT) == 100 * k;
    var at, next, end := Min(offset, |rows|), Min(offset + 100 * k, |rows|), Min(offset + 100 * (k + 1), |rows|);
    assert page == rows[next..end];
    SliceInTwo(rows, at, next, end);
    WarmOfAppend(earlier, page, cooling);
    TakeInTwo([], Warm(earlier, cooling), Warm(page, cooling), BATCH_LIMIT);
    FromNothing(Take(Warm(earlier, cooling), BATCH_LIMIT));
    FromNothing(Take(Warm(earlier + page, cooling), BATCH_LIMIT));
  }

  lemma FromNothing(s: seq<string>)
    ensures [] + s == s
  {
  }

  lemma GotToPageBefore(store: Store, cooling: set<string>, offset: u32, k: u32)
    requires |store.rows| <= MAX_U32 && k > 0 && GetsTo(store, cooling, offset, k)
    ensures GetsTo(store, cooling, offset, k - 1)
  {
    hide Before;
    OnePageMore(store.rows, cooling, offset, k - 1);
  }

  /** So it stands right before page `k`. */
  lemma {:induction false} AtPage(store: Store, cooling: set<string>, offset: u32, k: u32)
    requires |store.rows| <= MAX_U32 && GetsTo(store, cooling, offset, k)
    ensures Pages(store, offset, cooling, 0, [])
         == Pages(store, offset, cooling, k, Before(store.rows, cooling, offset, k))
  {
    if k == 0 {
      NothingBefore(store.rows, cooling, offset);
    } else {
      hide Before, Page, Warm, Take;
      GotToPageBefore(store, cooling, offset, k);
      AtPage(store, cooling, offset, k - 1);
      OnePageMore(store.rows, cooling, offset, k - 1);
    }
  }

  lemma NothingBefore(rows: seq<string>, cooling: set<string>, offset: nat)
    ensures Before(rows, cooling, offset, 0) == []
  {
    assert Page(rows, 0, offset) == [];
  }

  /** A cycle cancelled before a page selects nothing, whatever it had found; one whose query for a page
      fails hands on what the pages before it had.  Neither moves the cursor. */
  lemma DisturbedCycle(store: Store, cooling: set<string>, offset: u32, k: u32)
    requires |store.rows| <= MAX_U32 && GetsTo(store, cooling, offset, k)
    requires k in store.cancelledAt || k in store.failsAt
    ensures var c := Pages(store, offset, cooling, 0, []);
            && c.selected == (if k in store.cancelledAt then []
                              else Take(Warm(Page(store.rows, 100 * k, offset), cooling), BATCH_LIMIT))
            && OffsetAfter(offset, c) == offset
  {
    hide Page, Warm, Take;
    AtPage(store, cooling, offset, k);
  }

  /** Every other cycle is an undisturbed one. */
  lemma UndisturbedCycle(store: Store, cooling: set<string>, offset: u32)
    requires |store.rows| <= MAX_U32
    requires forall k :: GetsTo(store, cooling, offset, k) ==> k !in store.cancelledAt && k !in store.failsAt
    ensures Pages(store, offset, cooling, 0, []) == CycleOf(store.rows, cooling, offset)
  {
    hide Pages, Page, Warm, Take;
    NothingBefore(store.rows, cooling, offset);
    UndisturbedFrom(store, cooling, offset, 0);
  }

  lemma {:induction false} UndisturbedFrom(store: Store, cooling: set<string>, offset: u32, k: u32)
    requires |store.rows| <= MAX_U32 && k <= PAGES_PER_CYCLE
    requires forall j :: GetsTo(store, cooling, offset, j) ==> j !in store.cancelledAt && j !in store.failsAt
    requires k > 0 ==> GetsTo(store, cooling, offset, k - 1) && offset + 100 * (k - 1) < |store.rows|
    ensures var before := Before(store.rows, cooling, offset, k);
            Pages(store, offset, cooling, k, before) == Pages(Undisturbed(store.rows), offset, cooling, k, before)
    decreases PAGES_PER_CYCLE - k
  {
    hide Page, Warm, Take, Before;
    if k < PAGES_PER_CYCLE && |Before(store.rows, cooling, offset, k)| < BATCH_LIMIT {
      assert GetsTo(store, cooling, offset, k);
      OnePageMore(store.rows, cooling, offset, k);
      if offset + 100 * k < |store.rows| {
        UndisturbedFrom(store, cooling, offset, k + 1);
      }
    }
  }

  // ---------------------------------------------------------------- fairness

  /** The offset at which cycle number `k` starts. */
  function OffsetAt(rows: seq<string>, cooling: set<string>, offset: u32, k: nat): u32 {
    if k == 0 then offset else Next(rows, cooling, OffsetAt(rows, cooling, offset, k - 1))
  }

  function SelectedAt(rows: seq<string>, cooling: set<string>, offset: u32, k: nat): seq<string> {
    CycleOf(rows, cooling, OffsetAt(rows, cooling, offset, k)).selected
  }

  function CeilDiv(n: nat, d: nat): nat
    requires d > 0
  {
    (n + d - 1) / d
  }

  lemma {:induction false} OffsetAtLater(rows: seq<string>, cooling: set<string>, offset: u32, j: nat, k: nat)
    ensures OffsetAt(rows, cooling, offset, j + k)
         == OffsetAt(rows, cooling, OffsetAt(rows, cooling, offset, j), k)
    decreases k
  {
    hide Next;
    if k > 0 {
      OffsetAtLater(rows, cooling, offset, j, k - 1);
      assert j + k - 1 == j + (k - 1);
    }
  }

  /** No cycle among the first `cycles` fills its batch. */
  predicate NeverFull(rows: seq<string>, cooling: set<string>, offset: u32, cycles: nat) {
    forall k :: 0 <= k < cycles ==> !Full(rows, cooling, OffsetAt(rows, cooling, offset, k))
  }

  /** The first cycle at the top of the list comes within one sweep. */
  lemma {:induction false} SweepEnds(rows: seq<string>, cooling: set<string>, offset: u32) returns (j: nat)
    requires |rows| <= MAX_U32
    ensures 1 <= j <= CeilDiv(if offset < |rows| then |rows| - offset else 0, WINDOW) + 1
    ensures OffsetAt(rows, cooling, offset, j) == 0
    decreases MAX_U32 - offset
  {
    hide Next, Full, CycleOf;
    CycleSelectsWindow(rows, cooling, offset);
    var next := Next(rows, cooling, offset);
    assert OffsetAt(rows, cooling, offset, 0 + 1) == next;
    if next == 0 {
      j := 1;
    } else {
      if next < |rows| {
        CeilDivStep(|rows| - offset);
      }
      var i := SweepEnds(rows, cooling, next);
      OffsetAtLater(rows, cooling, offset, 1, i);
      j := 1 + i;
    }
  }

  lemma CeilDivStep(n: nat)
    requires n > WINDOW
    ensures CeilDiv(n, WINDOW) == CeilDiv(n - WINDOW, WINDOW) + 1
  {
  }

  /** From any offset, unfilled windows tile the rest of the list. */
  lemma {:induction false} WindowsTile(rows: seq<string>, cooling: set<string>, base: u32, q: nat)
    requires |rows| <= MAX_U32 && base + WINDOW * q < |rows|
    requires forall i :: 0 <= i < q ==> !Full(rows, cooling, base + WINDOW * i)
    ensures OffsetAt(rows, cooling, base, q) == base + WINDOW * q
  {
    hide Next, Full, CycleOf;
    if q > 0 {
      WindowsTile(rows, cooling, base, q - 1);
      CycleSelectsWindow(rows, cooling, base + WINDOW * (q - 1));
    }
  }

  lemma {:induction false} WarmKeeps(rows: seq<string>, cooling: set<string>, i: nat)
    requires i < |rows| && rows[i] !in cooling
    ensures rows[i] in Warm(rows, cooling)
  {
    if i > 0 {
      WarmKeeps(rows[1..], cooling, i - 1);
    }
  }

  lemma WindowContains(rows: seq<string>, cooling: set<string>, r: nat)
    requires r < |rows| && rows[r] !in cooling
    ensures rows[r] in Warm(Window(rows, WINDOW * (r / WINDOW)), cooling)
  {
    var offset := WINDOW * (r / WINDOW);
    assert Window(rows, offset)[r - offset] == rows[r];
    WarmKeeps(Window(rows, offset), cooling, r - offset);
  }

  /** Fairness: from any offset, as long as no cycle fills its batch, every row that is not
      cooling is selected within 2 * ceil(N / 300) + 1 cycles, however many rows are cooling. */
  lemma EveryRowIsReached(rows: seq<string>, cooling: set<string>, offset: u32, r: nat) returns (k: nat)
    requires |rows| <= MAX_U32 && r < |rows| && rows[r] !in cooling
    requires NeverFull(rows, cooling, offset, 2 * CeilDiv(|rows|, WINDOW) + 1)
    ensures k < 2 * CeilDiv(|rows|, WINDOW) + 1
    ensures rows[r] in SelectedAt(rows, cooling, offset, k)
  {
    hide Full, Next, CycleOf, Window, Warm;
    var j := SweepEnds(rows, cooling, offset);
    var q := r / WINDOW;
    k := j + q;
    assert q < CeilDiv(|rows|, WINDOW) && j <= CeilDiv(|rows|, WINDOW) + 1;
    OffsetAtLater(rows, cooling, offset, j, q);
    forall i | 0 <= i < q
      ensures !Full(rows, cooling, WINDOW * i)
    {
      UnfilledTo(rows, cooling, offset, j, i);
    }
    assert forall i :: 0 <= i < q ==> !Full(rows, cooling, 0 + WINDOW * i);
    WindowsTile(rows, cooling, 0, q);
    assert !Full(rows, cooling, OffsetAt(rows, cooling, offset, k));
    CycleSelectsWindow(rows, cooling, WINDOW * q);
    WindowContains(rows, cooling, r);
  }

  lemma {:induction false} UnfilledTo(rows: seq<string>, cooling: set<string>, offset: u32, j: nat, i: nat)
    requires |rows| <= MAX_U32 && WINDOW * i < |rows|
    requires OffsetAt(rows, cooling, offset, j) == 0 && j + i < 2 * CeilDiv(|rows|, WINDOW) + 1
    requires NeverFull(rows, cooling, offset, 2 * CeilDiv(|rows|, WINDOW) + 1)
    ensures OffsetAt(rows, cooling, 0, i) == WINDOW * i && !Full(rows, cooling, WINDOW * i)
  {
    hide Full, Next, CycleOf, Window, Warm;
    if i > 0 {
      UnfilledTo(rows, cooling, offset, j, i - 1);
      CycleSelectsWindow(rows, cooling, WINDOW * (i - 1));
    }
    OffsetAtLater(rows, cooling, offset, j, i);
    assert !Full(rows, cooling, OffsetAt(rows, cooling, offset, j + i));
  }

  // ---------------------------------------------------------------- when a row starves

  /** No full window stands between `base` and row `r`, and fewer than a batch of warm rows before
      it in its own window. */
  predicate Unobstructed(rows: seq<string>, cooling: set<string>, base: nat, r: nat)
    requires r < |rows|
  {
    && base <= r
    && var q := (r - base) / WINDOW;
    && (forall i :: 0 <= i < q ==> !Full(rows, cooling, base + WINDOW * i))
    && |Warm(rows[base + WINDOW * q..r], cooling)| < BATCH_LIMIT
  }

  lemma {:induction false} WarmMembers(rows: seq<string>, cooling: set<string>, x: string)
    requires x in Warm(rows, cooling)
    ensures x in rows
  {
    if rows[0] in cooling || x != rows[0] {
      WarmMembers(rows[1..], cooling, x);
    }
  }

  /** Where the warm rows of a window put one of its rows: after the warm rows before it. */
  lemma WindowAround(rows: seq<string>, cooling: set<string>, offset: nat, r: nat) returns (later: seq<string>)
    requires r < |rows| && rows[r] !in cooling && offset <= r < offset + WINDOW
    ensures Warm(Window(rows, offset), cooling) == Warm(rows[offset..r], cooling) + ([rows[r]] + later)
  {
    var end := Min(offset + WINDOW, |rows|);
    later := Warm(rows[r + 1..end], cooling);
    assert Window(rows, offset) == rows[offset..r] + ([rows[r]] + rows[r + 1..end]);
    WarmOfAppend(rows[offset..r], [rows[r]] + rows[r + 1..end], cooling);
    assert ([rows[r]] + rows[r + 1..end])[1..] == rows[r + 1..end];
  }

  lemma OwnWindowSelects(rows: seq<string>, cooling: set<string>, offset: u32, r: nat)
    requires |rows| <= MAX_U32 && Distinct(rows) && r < |rows| && rows[r] !in cooling
    requires offset <= r < offset + WINDOW
    ensures rows[r] in CycleOf(rows, cooling, offset).selected <==> |Warm(rows[offset..r], cooling)| < BATCH_LIMIT
  {
    hide Warm, Window, CycleOf, Full;
    CycleSelectsWindow(rows, cooling, offset);
    var later := WindowAround(rows, cooling, offset, r);
    var before := Warm(rows[offset..r], cooling);
    assert rows[r] !in before by {
      if rows[r] in before {
        WarmMembers(rows[offset..r], cooling, rows[r]);
      }
    }
    TakeReaches(before, rows[r], later);
  }

  lemma TakeReaches(before: seq<string>, x: string, later: seq<string>)
    requires x !in before
    ensures x in Take(before + ([x] + later), BATCH_LIMIT) <==> |before| < BATCH_LIMIT
  {
    var taken := Take(before + ([x] + later), BATCH_LIMIT);
    if |before| < BATCH_LIMIT {
      assert taken[|before|] == x;
    } else {
      assert taken == before[..BATCH_LIMIT];
    }
  }

  lemma OtherWindowsDoNot(rows: seq<string>, cooling: set<string>, offset: u32, r: nat)
    requires |rows| <= MAX_U32 && Distinct(rows) && r < |rows|
    requires !(offset <= r < offset + WINDOW)
    ensures rows[r] !in CycleOf(rows, cooling, offset).selected
  {
    hide Warm, CycleOf, Full;
    CycleSelectsWindow(rows, cooling, offset);
    var selected := CycleOf(rows, cooling, offset).selected;
    if rows[r] in Warm(Window(rows, offset), cooling) {
      WarmMembers(Window(rows, offset), cooling, rows[r]);
    }
  }

  /** Every cycle starts at the window after an unfilled one of a sweep, the sweep from `base` or a
      later one from the top. */
  lemma {:induction false} OffsetsFrom(rows: seq<string>, cooling: set<string>, base: u32, k: nat)
    returns (start: u32, i: nat)
    requires |rows| <= MAX_U32
    ensures start == base || start == 0
    ensures OffsetAt(rows, cooling, base, k) == Min(start + WINDOW * i, MAX_U32)
    ensures start + WINDOW * i > MAX_U32 ==> |rows| <= OffsetAt(rows, cooling, base, k)
    ensures forall q :: 0 <= q < i ==> !Full(rows, cooling, start + WINDOW * q)
  {
    hide Full, Next;
    if k == 0 {
      start, i := base, 0;
    } else {
      var j: nat;
      start, j := OffsetsFrom(rows, cooling, base, k - 1);
      var offset := OffsetAt(rows, cooling, base, k - 1);
      CycleSelectsWindow(rows, cooling, offset);
      if Full(rows, cooling, offset) || offset + 200 >= |rows| {
        start, i := 0, 0;
      } else {
        i := j + 1;
      }
    }
  }

  /** A row no window stands in the way of is reached in one sweep. */
  lemma SweepReaches(rows: seq<string>, cooling: set<string>, base: u32, r: nat)
    requires |rows| <= MAX_U32 && Distinct(rows) && r < |rows| && rows[r] !in cooling
    requires Unobstructed(rows, cooling, base, r)
    ensures rows[r] in SelectedAt(rows, cooling, base, (r - base) / WINDOW)
  {
    hide Full, Next, CycleOf, Warm, Window;
    var q := (r - base) / WINDOW;
    WindowsTile(rows, cooling, base, q);
    OwnWindowSelects(rows, cooling, base + WINDOW * q, r);
  }

  /** The exact condition, for a fixed list and cycles starting anywhere: a row that is not cooling
      is ever selected if and only if no full window stands before it, counting from where the
      cycles start or from the top.  A batch that fills resets the offset, so everything behind it
      starves until rows leave the list. */
  lemma ReachedIff(rows: seq<string>, cooling: set<string>, base: u32, r: nat)
    requires |rows| <= MAX_U32 && Distinct(rows) && r < |rows| && rows[r] !in cooling
    ensures (exists k: nat :: rows[r] in SelectedAt(rows, cooling, base, k))
       <==> Unobstructed(rows, cooling, base, r) || Unobstructed(rows, cooling, 0, r)
  {
    hide Full, Next, CycleOf, Warm, Window, Unobstructed;
    if Unobstructed(rows, cooling, base, r) {
      BehindBase(rows, cooling, base, r);
      SweepReaches(rows, cooling, base, r);
    }
    if Unobstructed(rows, cooling, 0, r) {
      SweepReaches(rows, cooling, 0, r);
      var j := SweepEnds(rows, cooling, base);
      var q := (r - 0) / WINDOW;
      OffsetAtLater(rows, cooling, base, j, q);
      assert rows[r] in SelectedAt(rows, cooling, base, j + q);
    }
    forall k: nat | rows[r] in SelectedAt(rows, cooling, base, k)
      ensures Unobstructed(rows, cooling, base, r) || Unobstructed(rows, cooling, 0, r)
    {
      ReachedIsUnobstructed(rows, cooling, base, r, k);
    }
  }

  lemma BehindBase(rows: seq<string>, cooling: set<string>, base: nat, r: nat)
    requires r < |rows| && Unobstructed(rows, cooling, base, r)
    ensures base <= r
  {
  }

  lemma ReachedIsUnobstructed(rows: seq<string>, cooling: set<string>, base: u32, r: nat, k: nat)
    requires |rows| <= MAX_U32 && Distinct(rows) && r < |rows| && rows[r] !in cooling
    requires rows[r] in SelectedAt(rows, cooling, base, k)
    ensures Unobstructed(rows, cooling, base, r) || Unobstructed(rows, cooling, 0, r)
  {
    hide Full, Next, CycleOf, Warm, Window;
    var start, i := OffsetsFrom(rows, cooling, base, k);
    var offset := OffsetAt(rows, cooling, base, k);
    if !(offset <= r < offset + WINDOW) {
      OtherWindowsDoNot(rows, cooling, offset, r);
    }
    OwnWindowSelects(rows, cooling, offset, r);
    assert (r - start) / WINDOW == i;
  }

  lemma {:induction false} WarmOfAll(rows: seq<string>)
    ensures Warm(rows, {}) == rows
  {
    if rows != [] {
      WarmOfAll(rows[1..]);
    }
  }

  /** The failing input: with nothing cooling and cycles from the top, the first 100 rows are
      selected and no other row of any longer list ever is. */
  lemma OnlyFirstBatchIsReached(rows: seq<string>, r: nat)
    requires |rows| <= MAX_U32 && Distinct(rows) && r < |rows|
    ensures (exists k: nat :: rows[r] in SelectedAt(rows, {}, 0, k)) <==> r < 100
  {
    hide Next, CycleOf, Warm;
    ReachedIff(rows, {}, 0, r);
    WarmOfAll(rows[0..r]);
    WarmOfAll(Window(rows, 0));
    if r >= 300 {
      assert Full(rows, {}, 0 + WINDOW * 0);
    } else {
      assert r / WINDOW == 0;
    }
  }
}
