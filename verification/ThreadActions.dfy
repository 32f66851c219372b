/**
 Message removal and its rollback on derived conversation lists: mailActions.ts and the sender
 clean-up of App.tsx.

 Both removals edit each conversation on its own, in a list that `groupMessages` made or the store
 served.  The theorems say exactly when this agrees with grouping the remaining messages afresh, and
 when restoring undoes it.
 */
module ThreadActions {
  import opened AsciiText
  import opened JavaScriptText
  import opened Options
  import opened Ordering
  import opened Threads

  function Filter(ms: seq<MailSummary>, keep: MailSummary -> bool): (r: seq<MailSummary>)
    ensures |r| <= |ms|
  {
    if ms == [] then [] else (if keep(ms[0]) then [ms[0]] else []) + Filter(ms[1..], keep)
  }

  // ---------------------------------------------------------------- permanent deletion

  predicate SameMessageLocator(left: MailSummary, right: MailSummary) {
    left.accountId == right.accountId && left.mailbox == right.mailbox && left.uid == right.uid
  }

  function OtherCopies(target: MailSummary): MailSummary -> bool {
    m => !SameMessageLocator(m, target)
  }

  function RemoveConcreteMessage(thread: MailThread, target: MailSummary): Option<MailThread> {
    var sourceMessages := ConcreteThreadMessages(thread);
    var remaining := Filter(sourceMessages, OtherCopies(target));
    if |remaining| == |sourceMessages| then Some(thread)
    else if remaining == [] then None
    else
      GroupIsNotEmpty(remaining);
      Some(WithDerivedFields(thread, Group(remaining)[0]))
  }

  /** `{ ...thread, ...derived }`: the fields `groupMessages` does not set survive. */
  function WithDerivedFields(thread: MailThread, derived: MailThread): MailThread {
    derived.(accountId := thread.accountId, threadId := thread.threadId, messageCount := thread.messageCount)
  }

  function RemoveConcreteMessageFromThreads(threads: seq<MailThread>, target: MailSummary): seq<MailThread> {
    if threads == [] then []
    else
      var remaining := RemoveConcreteMessage(threads[0], target);
      (if remaining.Some? then [remaining.value] else []) + RemoveConcreteMessageFromThreads(threads[1..], target)
  }

  // ---------------------------------------------------------------- sender clean-up

  datatype SenderCleanupTarget = SenderCleanupTarget(accountId: string, senderAddress: string)

  function NormalizeSenderAddress(address: string): string {
    Lower(Trim(address))
  }

  predicate IsSenderCleanupMessage(message: MailSummary, target: SenderCleanupTarget) {
    && message.accountId == target.accountId
    && NormalizeSenderAddress(message.fromAddress) == NormalizeSenderAddress(target.senderAddress)
  }

  function OtherSenders(target: SenderCleanupTarget): MailSummary -> bool {
    m => !IsSenderCleanupMessage(m, target)
  }

  /** One thread of a removal: untouched when it loses nothing, otherwise regrouped. */
  function Regrouped(thread: MailThread, keep: MailSummary -> bool): seq<MailThread> {
    var messages := ConcreteThreadMessages(thread);
    var remaining := Filter(messages, keep);
    if |remaining| == |messages| then [thread] else if remaining == [] then [] else Group(remaining)
  }

  function RegroupedAll(threads: seq<MailThread>, keep: MailSummary -> bool): seq<MailThread> {
    if threads == [] then [] else Regrouped(threads[0], keep) + RegroupedAll(threads[1..], keep)
  }

  function RemoveSenderCleanupMessages(threads: seq<MailThread>, target: SenderCleanupTarget): seq<MailThread> {
    RegroupedAll(threads, OtherSenders(target))
  }

  predicate HasId(ms: seq<MailSummary>, id: string) {
    exists m :: m in ms && m.id == id
  }

  /** `Map.set` under the message's id, on the values of the Map in insertion order. */
  function Put(entries: seq<MailSummary>, m: MailSummary): (r: seq<MailSummary>) {
    if entries == [] then [m]
    else if entries[0].id == m.id then [m] + entries[1..]
    else [entries[0]] + Put(entries[1..], m)
  }

  function PutAll(entries: seq<MailSummary>, ms: seq<MailSummary>): seq<MailSummary> {
    if ms == [] then entries else Put(PutAll(entries, ms[..|ms| - 1]), Last(ms))
  }

  function AddMissing(entries: seq<MailSummary>, ms: seq<MailSummary>, target: SenderCleanupTarget)
    : seq<MailSummary>
  {
    if ms == [] then entries
    else
      var earlier := AddMissing(entries, ms[..|ms| - 1], target);
      if IsSenderCleanupMessage(Last(ms), target) && !HasId(earlier, Last(ms).id) then earlier + [Last(ms)]
      else earlier
  }

  function RestoreSenderCleanupMessages(current: seq<MailThread>, original: seq<MailThread>,
                                        target: SenderCleanupTarget): seq<MailThread> {
    Group(AddMissing(PutAll([], ConcreteMessages(current)), ConcreteMessages(original), target))
  }

  /** The Map-filling form the code has. */
  method RestoreSenderCleanup(current: seq<MailThread>, original: seq<MailThread>, target: SenderCleanupTarget)
    returns (threads: seq<MailThread>)
    ensures threads == RestoreSenderCleanupMessages(current, original, target)
  {
    hide Put, ConcreteMessages, HasId, IsSenderCleanupMessage;
    var concrete, restored := ConcreteMessages(current), ConcreteMessages(original);
    var messages: seq<MailSummary> := [];
    for i := 0 to |concrete|
      invariant messages == PutAll([], concrete[..i])
    {
      assert concrete[..i + 1][..i] == concrete[..i];
      messages := Put(messages, concrete[i]);
    }
    assert concrete[..|concrete|] == concrete;
    ghost var filled := messages;
    for i := 0 to |restored|
      invariant messages == AddMissing(filled, restored[..i], target)
    {
      assert restored[..i + 1][..i] == restored[..i];
      if IsSenderCleanupMessage(restored[i], target) && !HasId(messages, restored[i].id) {
        messages := messages + [restored[i]];
      }
    }
    assert restored[..|restored|] == restored;
    threads := GroupMessages(messages);
  }

  // ---------------------------------------------------------------- one thread

  lemma GroupIsNotEmpty(ms: seq<MailSummary>)
    requires ms != []
    ensures Group(ms) != []
  {
    hide Keys, Having, MakeThread;
    KeysAreKeys(ms, ThreadKey);
    SortByElements(MakeThreads(ms, Keys(ms, ThreadKey)), ThreadBefore);
  }

  lemma {:induction false} FilterElements(ms: seq<MailSummary>, keep: MailSummary -> bool)
    ensures forall m :: m in Filter(ms, keep) <==> m in ms && keep(m)
    ensures |Filter(ms, keep)| == |ms| <==> forall m :: m in ms ==> keep(m)
  {
    if ms != [] {
      FilterElements(ms[1..], keep);
      assert forall m :: m in ms <==> m == ms[0] || m in ms[1..];
    }
  }

  lemma {:induction false} FilterDistinct(ms: seq<MailSummary>, keep: MailSummary -> bool)
    requires DistinctMessageIds(ms)
    ensures DistinctMessageIds(Filter(ms, keep))
  {
    if ms != [] {
      FilterDistinct(ms[1..], keep);
      FilterElements(ms[1..], keep);
      var rest := Filter(ms[1..], keep);
      forall i | 0 <= i < |rest|
        ensures rest[i].id != ms[0].id
      {
        assert rest[i] in ms[1..];
      }
    }
  }

  ghost function Kept(s: set<MailSummary>, keep: MailSummary -> bool): set<MailSummary> {
    set m | m in s && keep(m)
  }

  /** A thread depends only on the messages with its key. */
  lemma ThreadDependsOnItsMessages(s: set<MailSummary>, r: set<MailSummary>, id: string, t: MailThread)
    requires IsThread(s, id, t)
    requires forall m :: m in s && ThreadKey(m) == id <==> m in r && ThreadKey(m) == id
    ensures IsThread(r, id, t)
  {
    hide ThreadKey, Sorted, Shown, MessageBefore, StringBefore, WrittenBy;
  }

  lemma SourceIsDistinct(s: set<MailSummary>, id: string, t: MailThread)
    requires DistinctIds(s) && IsThread(s, id, t)
    ensures DistinctMessageIds(ConcreteThreadMessages(t)) && ConcreteThreadMessages(t) != []
    ensures forall m :: m in ConcreteThreadMessages(t) <==> m in s && ThreadKey(m) == id
  {
    hide MessageBefore, StrictOrder, ThreadKey;
    var source := t.sourceMessages.value;
    assert t.messages[0] in t.messages;
    MessageBeforeIsOrder();
    forall i, j | 0 <= i < j < |source|
      ensures source[i].id != source[j].id
    {
      BeforeIsDifferent(source[i], source[j]);
      assert source[i] in s && source[j] in s;
    }
  }

  lemma BeforeIsDifferent(a: MailSummary, b: MailSummary)
    requires MessageBefore(a, b)
    ensures a != b
  {
    CompareMessagesLaws(a, b);
  }

  /** Messages of one conversation are grouped into that conversation alone. */
  lemma GroupOfOneKey(ms: seq<MailSummary>, id: string)
    requires ms != [] && DistinctMessageIds(ms) && forall m :: m in ms ==> ThreadKey(m) == id
    ensures |Group(ms)| == 1 && IsThread(Messages(ms), id, Group(ms)[0])
  {
    hide IsThread, Group, ThreadKey, ThreadBefore;
    GroupIsGrouping(ms);
    GroupIsNotEmpty(ms);
    var threads := Group(ms);
    assert |threads| > 1 ==> threads[0].id != threads[1].id;
    forall i | 0 <= i < |threads|
      ensures threads[i].id == id
    {
      assert threads[i] in threads;
      SomeMessage(Messages(ms), threads[i]);
    }
  }

  /** The source messages of `t` are the messages of `s` with its key.  What it shows of them, and
      the fields only a server fills in, are left open. */
  ghost predicate HasSource(s: set<MailSummary>, t: MailThread) {
    && ConcreteThreadMessages(t) != [] && DistinctMessageIds(ConcreteThreadMessages(t))
    && forall m :: m in ConcreteThreadMessages(t) <==> m in s && ThreadKey(m) == t.id
  }

  /** Removal takes nothing from `t`. */
  predicate Untouched(t: MailThread, keep: MailSummary -> bool) {
    forall m :: m in ConcreteThreadMessages(t) ==> keep(m)
  }

  lemma ThreadHasSource(s: set<MailSummary>, t: MailThread)
    requires DistinctIds(s) && IsThread(s, t.id, t)
    ensures HasSource(s, t)
  {
    hide IsThread, ThreadKey, DistinctMessageIds, DistinctIds, ConcreteThreadMessages;
    SourceIsDistinct(s, t.id, t);
  }

  /** A thread that loses nothing stays as it is; any other becomes the thread of what is left. */
  lemma RegroupedIsThread(s: set<MailSummary>, t: MailThread, keep: MailSummary -> bool)
    requires DistinctIds(s) && HasSource(s, t)
    ensures |Regrouped(t, keep)| <= 1
    ensures if Untouched(t, keep) then Regrouped(t, keep) == [t]
            else forall u :: u in Regrouped(t, keep) ==> IsThread(Kept(s, keep), t.id, u)
    ensures forall u :: u in Regrouped(t, keep) ==> u.id == t.id && HasSource(Kept(s, keep), u)
    ensures Regrouped(t, keep) == [] ==> forall m :: m in Kept(s, keep) ==> ThreadKey(m) != t.id
  {
    hide IsThread, Group, ThreadKey, Filter, ConcreteThreadMessages, DistinctMessageIds;
    var source := ConcreteThreadMessages(t);
    var remaining := Filter(source, keep);
    FilterElements(source, keep);
    if remaining != [] && |remaining| != |source| {
      FilterDistinct(source, keep);
      GroupOfOneKey(remaining, t.id);
      var u := Group(remaining)[0];
      ThreadDependsOnItsMessages(Messages(remaining), Kept(s, keep), t.id, u);
      ThreadHasItsId(Kept(s, keep), t.id, u);
      ThreadHasSource(Kept(s, keep), u);
    } else if remaining == [] {
      NothingKept(s, source, keep, t.id);
    }
  }

  lemma NothingKept(s: set<MailSummary>, source: seq<MailSummary>, keep: MailSummary -> bool, id: string)
    requires forall m :: m in source <==> m in s && ThreadKey(m) == id
    requires forall m :: m in source ==> !keep(m)
    ensures forall m :: m in Kept(s, keep) ==> ThreadKey(m) != id
  {
    hide ThreadKey;
  }

  // ---------------------------------------------------------------- the whole list

  ghost predicate HasThread(threads: seq<MailThread>, id: string) {
    exists t :: t in threads && t.id == id
  }

  ghost predicate SomeConversations(s: set<MailSummary>, threads: seq<MailThread>) {
    && (forall t :: t in threads ==> HasSource(s, t))
    && (forall i, j :: 0 <= i < j < |threads| ==> threads[i].id != threads[j].id)
  }

  /** `threads` hold the messages of `s`, each conversation once.  Unlike for `AreThreads`, any
      copies may be shown and the server's fields may be set: the lists the store serves. */
  ghost predicate Conversations(s: set<MailSummary>, threads: seq<MailThread>) {
    SomeConversations(s, threads) && forall m :: m in s ==> HasThread(threads, ThreadKey(m))
  }

  /** The threads that lose nothing are those grouping makes. */
  ghost predicate UntouchedAreThreads(s: set<MailSummary>, threads: seq<MailThread>, keep: MailSummary -> bool) {
    forall t :: t in threads && Untouched(t, keep) ==> IsThread(s, t.id, t)
  }

  lemma ThreadsAreConversations(s: set<MailSummary>, threads: seq<MailThread>)
    requires DistinctIds(s) && AreThreads(s, threads)
    ensures Conversations(s, threads)
  {
    hide IsThread, ThreadKey, DistinctIds, HasSource;
    forall t | t in threads
      ensures HasSource(s, t)
    {
      ThreadHasSource(s, t);
    }
    forall m | m in s
      ensures HasThread(threads, ThreadKey(m))
    {
      assert exists t :: t in threads && t.id == ThreadKey(m);
    }
  }

  lemma {:induction false} RegroupedAllAreConversations(s: set<MailSummary>, threads: seq<MailThread>,
                                                        keep: MailSummary -> bool)
    requires DistinctIds(s) && SomeConversations(s, threads)
    ensures SomeConversations(Kept(s, keep), RegroupedAll(threads, keep))
    ensures forall u :: u in RegroupedAll(threads, keep) ==> HasThread(threads, u.id)
    ensures forall m :: m in Kept(s, keep) && HasThread(threads, ThreadKey(m)) ==>
                          HasThread(RegroupedAll(threads, keep), ThreadKey(m))
  {
    hide IsThread, Regrouped, ThreadKey, DistinctIds, Kept, HasSource, Untouched;
    if threads != [] {
      var first, rest := Regrouped(threads[0], keep), RegroupedAll(threads[1..], keep);
      SomeConversationsTail(s, threads);
      RegroupedAllAreConversations(s, threads[1..], keep);
      RegroupedIsThread(s, threads[0], keep);
      JoinThreads(Kept(s, keep), threads, first, rest);
      CoverJoined(s, threads, keep, first, rest);
    }
  }

  lemma SomeConversationsTail(s: set<MailSummary>, threads: seq<MailThread>)
    requires threads != [] && SomeConversations(s, threads)
    ensures SomeConversations(s, threads[1..]) && HasSource(s, threads[0])
  {
    hide HasSource;
    assert threads[0] in threads;
    forall t | t in threads[1..]
      ensures t in threads
    {
    }
  }

  lemma JoinThreads(s: set<MailSummary>, threads: seq<MailThread>, first: seq<MailThread>, rest: seq<MailThread>)
    requires threads != [] && forall i, j :: 0 <= i < j < |threads| ==> threads[i].id != threads[j].id
    requires |first| <= 1 && forall u :: u in first ==> u.id == threads[0].id && HasSource(s, u)
    requires SomeConversations(s, rest) && forall u :: u in rest ==> HasThread(threads[1..], u.id)
    ensures SomeConversations(s, first + rest)
    ensures forall u :: u in first + rest ==> HasThread(threads, u.id)
  {
    hide HasSource;
    if first != [] {
      assert first[0] in first;
      assert threads[0] in threads;
    }
    forall u | u in rest
      ensures HasThread(threads, u.id) && u.id != threads[0].id
    {
      var t :| t in threads[1..] && t.id == u.id;
      assert t in threads;
    }
  }

  lemma CoverJoined(s: set<MailSummary>, threads: seq<MailThread>, keep: MailSummary -> bool,
                    first: seq<MailThread>, rest: seq<MailThread>)
    requires threads != []
    requires forall u :: u in first ==> u.id == threads[0].id
    requires first == [] ==> forall m :: m in Kept(s, keep) ==> ThreadKey(m) != threads[0].id
    requires forall m :: m in Kept(s, keep) && HasThread(threads[1..], ThreadKey(m)) ==>
                           HasThread(rest, ThreadKey(m))
    ensures forall m :: m in Kept(s, keep) && HasThread(threads, ThreadKey(m)) ==>
                          HasThread(first + rest, ThreadKey(m))
  {
    hide ThreadKey, Kept;
    forall m | m in Kept(s, keep) && HasThread(threads, ThreadKey(m))
      ensures HasThread(first + rest, ThreadKey(m))
    {
      if ThreadKey(m) == threads[0].id {
        assert first[0] in first;
        assert first[0] in first + rest;
      } else {
        var t :| t in threads && t.id == ThreadKey(m);
        assert t in threads[1..];
        assert HasThread(rest, ThreadKey(m));
        var u :| u in rest && u.id == ThreadKey(m);
        assert u in first + rest;
      }
    }
  }

  /** The edited list holds the untouched threads and, of the others, the threads of what is left. */
  lemma {:induction false} UntouchedStay(s: set<MailSummary>, threads: seq<MailThread>, keep: MailSummary -> bool)
    requires DistinctIds(s) && SomeConversations(s, threads)
    ensures forall t :: t in threads && Untouched(t, keep) ==> t in RegroupedAll(threads, keep)
    ensures forall u :: u in RegroupedAll(threads, keep) ==>
                          (u in threads && Untouched(u, keep)) || IsThread(Kept(s, keep), u.id, u)
  {
    hide IsThread, Regrouped, ThreadKey, DistinctIds, Kept, HasSource, Untouched, SomeConversations;
    if threads != [] {
      SomeConversationsTail(s, threads);
      UntouchedStay(s, threads[1..], keep);
      RegroupedIsThread(s, threads[0], keep);
      assert forall t :: t in threads <==> t == threads[0] || t in threads[1..];
      assert RegroupedAll(threads, keep) == Regrouped(threads[0], keep) + RegroupedAll(threads[1..], keep);
    }
  }

  /** An untouched thread is a thread of all the messages just when it is one of the kept messages. */
  lemma UntouchedThread(s: set<MailSummary>, t: MailThread, keep: MailSummary -> bool)
    requires HasSource(s, t) && Untouched(t, keep)
    ensures IsThread(s, t.id, t) <==> IsThread(Kept(s, keep), t.id, t)
  {
    hide IsThread, ThreadKey, DistinctMessageIds, ConcreteThreadMessages;
    if IsThread(s, t.id, t) {
      ThreadDependsOnItsMessages(s, Kept(s, keep), t.id, t);
    } else if IsThread(Kept(s, keep), t.id, t) {
      ThreadDependsOnItsMessages(Kept(s, keep), s, t.id, t);
    }
  }

  /** Thread by thread removal yields conversations that hold the remaining messages.  They are
      those of grouping if and only if the threads that lose nothing are. */
  lemma RemovalIsRegrouping(s: set<MailSummary>, threads: seq<MailThread>, keep: MailSummary -> bool)
    requires DistinctIds(s) && Conversations(s, threads)
    ensures Conversations(Kept(s, keep), RegroupedAll(threads, keep))
    ensures AreThreads(Kept(s, keep), RegroupedAll(threads, keep)) <==> UntouchedAreThreads(s, threads, keep)
  {
    hide IsThread, ThreadKey, RegroupedAll, DistinctIds, HasSource, Untouched;
    RegroupedAllAreConversations(s, threads, keep);
    UntouchedStay(s, threads, keep);
    forall t | t in threads && Untouched(t, keep)
      ensures IsThread(s, t.id, t) <==> IsThread(Kept(s, keep), t.id, t)
    {
      UntouchedThread(s, t, keep);
    }
    forall m | m in Kept(s, keep)
      ensures HasThread(RegroupedAll(threads, keep), ThreadKey(m))
    {
      assert HasThread(threads, ThreadKey(m));
    }
  }

  /** The edited list against grouping the kept messages afresh. */
  lemma RegroupingAgrees(ms: seq<MailSummary>, threads: seq<MailThread>, keep: MailSummary -> bool)
    requires DistinctMessageIds(ms) && Conversations(Messages(ms), threads)
    ensures SameElements(RegroupedAll(threads, keep), Group(Filter(ms, keep)))
       <==> UntouchedAreThreads(Messages(ms), threads, keep)
  {
    hide Conversations, AreThreads, UntouchedAreThreads, ThreadBefore, Group, RegroupedAll, SameElements,
      DistinctMessageIds, Filter;
    var s, r, afresh := Messages(ms), RegroupedAll(threads, keep), Group(Filter(ms, keep));
    DistinctMessagesHaveDistinctIds(ms);
    RemovalIsRegrouping(s, threads, keep);
    FilterDistinct(ms, keep);
    FilterElements(ms, keep);
    GroupIsGrouping(Filter(ms, keep));
    assert Messages(Filter(ms, keep)) == Kept(s, keep);
    if AreThreads(Kept(s, keep), r) {
      SameThreads(Kept(s, keep), r, afresh);
    } else if SameElements(r, afresh) {
      SameAreThreads(Kept(s, keep), r, afresh);
    }
  }

  lemma SameAreThreads(s: set<MailSummary>, a: seq<MailThread>, b: seq<MailThread>)
    requires SameElements(a, b) && AreThreads(s, b) && Conversations(s, a)
    ensures AreThreads(s, a)
  {
    hide IsThread, ThreadKey, HasSource;
  }

  // ---------------------------------------------------------------- the server's fields

  /** A thread without the fields only the server fills in. */
  function Derived(thread: MailThread): MailThread {
    thread.(accountId := None, threadId := None, messageCount := None)
  }

  function DerivedAll(threads: seq<MailThread>): (r: seq<MailThread>)
    ensures |r| == |threads| && forall i :: 0 <= i < |r| ==> r[i] == Derived(threads[i])
  {
    seq(|threads|, i requires 0 <= i < |threads| => Derived(threads[i]))
  }

  lemma GroupIsBare(ms: seq<MailSummary>)
    ensures DerivedAll(Group(ms)) == Group(ms)
  {
    hide Keys, Having, ThreadKey, SortBy, ThreadBefore, DeduplicateCopies, Unique;
    KeysAreKeys(ms, ThreadKey);
    var made := MakeThreads(ms, Keys(ms, ThreadKey));
    MakeThreadsAt(ms, Keys(ms, ThreadKey));
    SortByElements(made, ThreadBefore);
    forall i | 0 <= i < |Group(ms)|
      ensures Derived(Group(ms)[i]) == Group(ms)[i]
    {
      assert Group(ms)[i] in made;
    }
  }

  lemma DerivedRegrouped(t: MailThread, keep: MailSummary -> bool)
    ensures Regrouped(Derived(t), keep) == DerivedAll(Regrouped(t, keep))
  {
    hide Group, Filter;
    assert ConcreteThreadMessages(Derived(t)) == ConcreteThreadMessages(t);
    GroupIsBare(Filter(ConcreteThreadMessages(t), keep));
  }

  /** The server's fields have no part in removal. */
  lemma {:induction false} DerivedRegroupedAll(threads: seq<MailThread>, keep: MailSummary -> bool)
    ensures RegroupedAll(DerivedAll(threads), keep) == DerivedAll(RegroupedAll(threads, keep))
  {
    hide Regrouped, Derived;
    if threads != [] {
      var rest := RegroupedAll(threads[1..], keep);
      DerivedRegroupedAll(threads[1..], keep);
      DerivedRegrouped(threads[0], keep);
      assert DerivedAll(threads)[1..] == DerivedAll(threads[1..]);
      var first := Regrouped(threads[0], keep);
      assert DerivedAll(first + rest) == DerivedAll(first) + DerivedAll(rest);
    }
  }

  lemma DerivedAreConversations(s: set<MailSummary>, threads: seq<MailThread>)
    requires Conversations(s, threads)
    ensures Conversations(s, DerivedAll(threads))
  {
    hide ThreadKey, DistinctMessageIds, ConcreteThreadMessages;
    var derived := DerivedAll(threads);
    forall t | t in derived
      ensures HasSource(s, t)
    {
      var i :| 0 <= i < |derived| && derived[i] == t;
      DerivedHasSource(s, threads[i]);
    }
    forall m | m in s
      ensures HasThread(derived, ThreadKey(m))
    {
      assert HasThread(threads, ThreadKey(m));
      var i :| 0 <= i < |threads| && threads[i].id == ThreadKey(m);
      assert derived[i] in derived;
    }
  }

  lemma DerivedHasSource(s: set<MailSummary>, t: MailThread)
    requires HasSource(s, t)
    ensures HasSource(s, Derived(t))
  {
    assert ConcreteThreadMessages(Derived(t)) == ConcreteThreadMessages(t);
  }

  /** Sender clean-up against grouping the messages of the other senders, for any list of
      conversations: with the server's fields, and with regard to the others only. */
  lemma SenderCleanupIsRegrouping(ms: seq<MailSummary>, threads: seq<MailThread>, target: SenderCleanupTarget)
    requires DistinctMessageIds(ms) && Conversations(Messages(ms), threads)
    ensures var r, keep := RemoveSenderCleanupMessages(threads, target), OtherSenders(target);
            && Conversations(Kept(Messages(ms), keep), r)
            && (SameElements(r, Group(Filter(ms, keep))) <==> UntouchedAreThreads(Messages(ms), threads, keep))
            && (SameElements(DerivedAll(r), Group(Filter(ms, keep)))
                <==> UntouchedAreThreads(Messages(ms), DerivedAll(threads), keep))
  {
    hide Conversations, UntouchedAreThreads, Group, RegroupedAll, SameElements, DistinctMessageIds, Filter;
    DistinctMessagesHaveDistinctIds(ms);
    RemovalIsRegrouping(Messages(ms), threads, OtherSenders(target));
    RegroupingAgrees(ms, threads, OtherSenders(target));
    DerivedAreConversations(Messages(ms), threads);
    RegroupingAgrees(ms, DerivedAll(threads), OtherSenders(target));
    DerivedRegroupedAll(threads, OtherSenders(target));
  }

  // ---------------------------------------------------------------- the order of the list

  /** The latest message of a thread is the greatest of all its messages. */
  lemma LatestIsGreatest(s: set<MailSummary>, id: string, t: MailThread)
    requires IsThread(s, id, t)
    ensures t.latest in s && ThreadKey(t.latest) == id
    ensures forall m :: m in s && ThreadKey(m) == id ==> !MessageBefore(t.latest, m)
  {
    hide MessageBefore, ThreadKey, StringBefore, WrittenBy;
    var source := t.sourceMessages.value;
    assert t.messages[0] in t.messages;
    assert t.latest in t.messages;
    var last := Last(source);
    LastIsGreatest(source);
    assert last in source;
    assert Shown(last, source);
    LastIsGreatest(t.messages);
    forall m | m in source
      ensures !MessageBefore(t.latest, m)
    {
      NotBeforeLast(t.latest, last, m);
    }
  }

  lemma NotBeforeLast(latest: MailSummary, last: MailSummary, m: MailSummary)
    requires !MessageBefore(latest, last) && !MessageBefore(last, m)
    ensures !MessageBefore(latest, m)
  {
    CompareMessagesLaws(latest, last);
    CompareMessagesLaws(last, m);
    CompareMessagesLaws(latest, m);
    CompareMessagesTransitive(m, last, latest);
  }

  lemma NeitherBeforeIsSame(s: set<MailSummary>, a: MailSummary, b: MailSummary)
    requires DistinctIds(s) && a in s && b in s && !MessageBefore(a, b) && !MessageBefore(b, a)
    ensures a == b
  {
    CompareMessagesLaws(a, b);
    CompareMessagesLaws(b, a);
  }

  predicate KeepsSome(t: MailThread, keep: MailSummary -> bool) {
    Filter(ConcreteThreadMessages(t), keep) != []
  }

  function LastKept(t: MailThread, keep: MailSummary -> bool): MailSummary
    requires KeepsSome(t, keep)
  {
    var kept := Filter(ConcreteThreadMessages(t), keep);
    SortByElements(kept, MessageBefore);
    Last(SortBy(kept, MessageBefore))
  }

  /** The conversations that keep something are still in order of their newest message. */
  ghost predicate InKeptOrder(threads: seq<MailThread>, keep: MailSummary -> bool) {
    forall i, j | 0 <= i < j < |threads| && KeepsSome(threads[i], keep) && KeepsSome(threads[j], keep) ::
      !MessageBefore(LastKept(threads[i], keep), LastKept(threads[j], keep))
  }

  /** The hypotheses about one thread: its messages, and what grouping makes of it if it stays. */
  ghost predicate Regular(s: set<MailSummary>, t: MailThread, keep: MailSummary -> bool) {
    HasSource(s, t) && (Untouched(t, keep) ==> IsThread(s, t.id, t))
  }

  ghost predicate AllRegular(s: set<MailSummary>, threads: seq<MailThread>, keep: MailSummary -> bool) {
    && (forall t :: t in threads ==> Regular(s, t, keep))
    && (forall i, j :: 0 <= i < j < |threads| ==> threads[i].id != threads[j].id)
  }

  lemma AllRegularTail(s: set<MailSummary>, threads: seq<MailThread>, keep: MailSummary -> bool)
    requires threads != [] && AllRegular(s, threads, keep)
    ensures AllRegular(s, threads[1..], keep) && Regular(s, threads[0], keep)
  {
    hide Regular;
    assert threads[0] in threads;
    forall t | t in threads[1..]
      ensures t in threads
    {
    }
  }

  lemma LastKeptIsGreatest(t: MailThread, keep: MailSummary -> bool)
    requires KeepsSome(t, keep) && DistinctMessageIds(ConcreteThreadMessages(t))
    ensures LastKept(t, keep) in ConcreteThreadMessages(t) && keep(LastKept(t, keep))
    ensures forall m :: m in ConcreteThreadMessages(t) && keep(m) ==> !MessageBefore(LastKept(t, keep), m)
  {
    hide MessageBefore, SortBy, Filter, DistinctMessageIds, ConcreteThreadMessages;
    var source := ConcreteThreadMessages(t);
    FilterElements(source, keep);
    FilterDistinct(source, keep);
    SortMessages(Filter(source, keep));
    LastIsGreatest(SortBy(Filter(source, keep), MessageBefore));
    assert LastKept(t, keep) in SortBy(Filter(source, keep), MessageBefore);
  }

  lemma RegroupedCount(s: set<MailSummary>, t: MailThread, keep: MailSummary -> bool)
    requires DistinctIds(s) && HasSource(s, t)
    ensures |Regrouped(t, keep)| == if KeepsSome(t, keep) then 1 else 0
  {
    hide IsThread, ThreadKey, Filter, DistinctMessageIds, DistinctIds, Group, ConcreteThreadMessages;
    RegroupedIsThread(s, t, keep);
    FilterElements(ConcreteThreadMessages(t), keep);
    if KeepsSome(t, keep) {
      var m := Filter(ConcreteThreadMessages(t), keep)[0];
      assert m in Filter(ConcreteThreadMessages(t), keep) && m in Kept(s, keep);
    }
  }

  /** What is left of a thread: nothing, or one thread with its greatest kept message as latest. */
  lemma RegroupedLatest(s: set<MailSummary>, t: MailThread, keep: MailSummary -> bool)
    requires DistinctIds(s) && Regular(s, t, keep)
    ensures |Regrouped(t, keep)| == if KeepsSome(t, keep) then 1 else 0
    ensures KeepsSome(t, keep) ==>
              var u := Regrouped(t, keep)[0];
              u.id == t.id && u.latest == LastKept(t, keep) && u.latest in s && ThreadKey(u.latest) == t.id
  {
    hide IsThread, ThreadKey, MessageBefore, DistinctIds, Regrouped, ConcreteThreadMessages, KeepsSome, LastKept,
      DistinctMessageIds, Untouched;
    RegroupedIsThread(s, t, keep);
    RegroupedCount(s, t, keep);
    if KeepsSome(t, keep) {
      var u := Regrouped(t, keep)[0];
      assert u in Regrouped(t, keep);
      if Untouched(t, keep) {
        UntouchedThread(s, t, keep);
      }
      LatestIsGreatest(Kept(s, keep), t.id, u);
      LastKeptIsGreatest(t, keep);
      NeitherBeforeIsSame(s, u.latest, LastKept(t, keep));
    }
  }

  /** `u` is what is left of a thread of the list. */
  ghost predicate LeftOf(threads: seq<MailThread>, keep: MailSummary -> bool, u: MailThread) {
    exists i :: 0 <= i < |threads| && KeepsSome(threads[i], keep)
                && threads[i].id == u.id && LastKept(threads[i], keep) == u.latest
  }

  ghost predicate HasLeft(left: seq<MailThread>, t: MailThread, keep: MailSummary -> bool)
    requires KeepsSome(t, keep)
  {
    exists u :: u in left && u.id == t.id && u.latest == LastKept(t, keep)
  }

  /** The edited list is sorted exactly when the kept conversations are in order. */
  lemma {:induction false} SortedIffInKeptOrder(s: set<MailSummary>, threads: seq<MailThread>,
                                                keep: MailSummary -> bool)
    requires DistinctIds(s) && AllRegular(s, threads, keep)
    ensures Sorted(RegroupedAll(threads, keep), ThreadBefore) <==> InKeptOrder(threads, keep)
    ensures forall u :: u in RegroupedAll(threads, keep) ==> LeftOf(threads, keep, u)
    ensures forall t :: t in threads && KeepsSome(t, keep) ==> HasLeft(RegroupedAll(threads, keep), t, keep)
  {
    hide Regular, Regrouped, DistinctIds, ThreadBefore, MessageBefore, ThreadKey, KeepsSome, LastKept,
      InKeptOrder, LeftOf, HasLeft, Sorted;
    if threads == [] {
      NoThreads(keep);
    } else {
      var t, first, rest := threads[0], Regrouped(threads[0], keep), RegroupedAll(threads[1..], keep);
      AllRegularTail(s, threads, keep);
      SortedIffInKeptOrder(s, threads[1..], keep);
      RegroupedLatest(s, t, keep);
      LeftOfJoined(threads, keep, first, rest);
      if KeepsSome(t, keep) {
        AheadOfRest(s, threads, keep, first[0], rest);
        assert first == [first[0]];
        SortedCons(first[0], rest);
      } else {
        assert first + rest == rest;
      }
      InKeptOrderCons(threads, keep);
    }
  }

  lemma NoThreads(keep: MailSummary -> bool)
    ensures Sorted(RegroupedAll([], keep), ThreadBefore) && InKeptOrder([], keep)
    ensures RegroupedAll([], keep) == []
  {
  }

  lemma SortedCons(t: MailThread, rest: seq<MailThread>)
    ensures Sorted([t] + rest, ThreadBefore)
       <==> Sorted(rest, ThreadBefore) && forall u :: u in rest ==> ThreadBefore(t, u)
  {
    hide ThreadBefore;
    var all := [t] + rest;
    if Sorted(all, ThreadBefore) {
      forall i, j | 0 <= i < j < |rest|
        ensures ThreadBefore(rest[i], rest[j])
      {
        assert all[i + 1] == rest[i] && all[j + 1] == rest[j];
      }
      forall u | u in rest
        ensures ThreadBefore(t, u)
      {
        var i :| 0 <= i < |rest| && rest[i] == u;
        assert all[0] == t && all[i + 1] == u;
      }
    } else if Sorted(rest, ThreadBefore) && forall u :: u in rest ==> ThreadBefore(t, u) {
      PrependSorted(t, rest, ThreadBefore);
    }
  }

  /** The head of the list is not behind any other kept conversation. */
  ghost predicate HeadInOrder(threads: seq<MailThread>, keep: MailSummary -> bool)
    requires threads != []
  {
    KeepsSome(threads[0], keep) ==>
      forall j | 1 <= j < |threads| && KeepsSome(threads[j], keep) ::
        !MessageBefore(LastKept(threads[0], keep), LastKept(threads[j], keep))
  }

  lemma InKeptOrderCons(threads: seq<MailThread>, keep: MailSummary -> bool)
    requires threads != []
    ensures InKeptOrder(threads, keep) <==> InKeptOrder(threads[1..], keep) && HeadInOrder(threads, keep)
  {
    hide MessageBefore, KeepsSome, LastKept;
    var rest := threads[1..];
    assert forall i :: 0 <= i < |rest| ==> rest[i] == threads[i + 1];
    if InKeptOrder(rest, keep) && HeadInOrder(threads, keep) {
      forall i, j | 0 <= i < j < |threads| && KeepsSome(threads[i], keep) && KeepsSome(threads[j], keep)
        ensures !MessageBefore(LastKept(threads[i], keep), LastKept(threads[j], keep))
      {
        if i > 0 {
          assert rest[i - 1] == threads[i] && rest[j - 1] == threads[j];
        }
      }
    }
  }

  lemma AheadOfRest(s: set<MailSummary>, threads: seq<MailThread>, keep: MailSummary -> bool,
                    first: MailThread, rest: seq<MailThread>)
    requires DistinctIds(s) && AllRegular(s, threads, keep) && threads != [] && KeepsSome(threads[0], keep)
    requires first.id == threads[0].id && first.latest == LastKept(threads[0], keep)
    requires forall u :: u in rest ==> LeftOf(threads[1..], keep, u)
    requires forall t :: t in threads[1..] && KeepsSome(t, keep) ==> HasLeft(rest, t, keep)
    ensures HeadInOrder(threads, keep) <==> forall u :: u in rest ==> ThreadBefore(first, u)
  {
    hide *;
    if HeadInOrder(threads, keep) {
      forall u | u in rest
        ensures ThreadBefore(first, u)
      {
        HeadBeforeOne(s, threads, keep, first, u);
      }
    }
    if forall u :: u in rest ==> ThreadBefore(first, u) {
      HeadFromOrder(s, threads, keep, first, rest);
    }
  }

  lemma HeadBeforeOne(s: set<MailSummary>, threads: seq<MailThread>, keep: MailSummary -> bool,
                      first: MailThread, u: MailThread)
    requires DistinctIds(s) && AllRegular(s, threads, keep) && threads != [] && KeepsSome(threads[0], keep)
    requires first.id == threads[0].id && first.latest == LastKept(threads[0], keep)
    requires LeftOf(threads[1..], keep, u) && HeadInOrder(threads, keep)
    ensures ThreadBefore(first, u)
  {
    hide AllRegular, DistinctIds, ThreadBefore, MessageBefore, KeepsSome, LastKept;
    var i :| 0 <= i < |threads[1..]| && KeepsSome(threads[1..][i], keep)
             && threads[1..][i].id == u.id && LastKept(threads[1..][i], keep) == u.latest;
    assert threads[i + 1] == threads[1..][i];
    OneBeforeOther(s, threads, 0, i + 1, keep, first, u);
  }

  lemma HeadFromOrder(s: set<MailSummary>, threads: seq<MailThread>, keep: MailSummary -> bool,
                      first: MailThread, rest: seq<MailThread>)
    requires DistinctIds(s) && AllRegular(s, threads, keep) && threads != [] && KeepsSome(threads[0], keep)
    requires first.id == threads[0].id && first.latest == LastKept(threads[0], keep)
    requires forall t :: t in threads[1..] && KeepsSome(t, keep) ==> HasLeft(rest, t, keep)
    requires forall u :: u in rest ==> ThreadBefore(first, u)
    ensures HeadInOrder(threads, keep)
  {
    hide AllRegular, DistinctIds, ThreadBefore, MessageBefore, KeepsSome, LastKept;
    forall j | 1 <= j < |threads| && KeepsSome(threads[j], keep)
      ensures !MessageBefore(LastKept(threads[0], keep), LastKept(threads[j], keep))
    {
      assert threads[j] == threads[1..][j - 1] && threads[j] in threads[1..];
      assert HasLeft(rest, threads[j], keep);
      var u :| u in rest && u.id == threads[j].id && u.latest == LastKept(threads[j], keep);
      OneBeforeOther(s, threads, 0, j, keep, first, u);
    }
  }

  lemma OneBeforeOther(s: set<MailSummary>, threads: seq<MailThread>, i: nat, j: nat, keep: MailSummary -> bool,
                       first: MailThread, u: MailThread)
    requires DistinctIds(s) && AllRegular(s, threads, keep) && i < j < |threads|
    requires KeepsSome(threads[i], keep) && KeepsSome(threads[j], keep)
    requires first.id == threads[i].id && first.latest == LastKept(threads[i], keep)
    requires u.id == threads[j].id && u.latest == LastKept(threads[j], keep)
    ensures ThreadBefore(first, u) <==> !MessageBefore(first.latest, u.latest)
  {
    hide Regular, DistinctIds, MessageBefore, ThreadKey, Regrouped, KeepsSome, LastKept, ThreadBefore;
    assert threads[i] in threads && threads[j] in threads;
    RegroupedLatest(s, threads[i], keep);
    RegroupedLatest(s, threads[j], keep);
    assert first.latest != u.latest;
    if !MessageBefore(first.latest, u.latest) && !MessageBefore(u.latest, first.latest) {
      NeitherBeforeIsSame(s, first.latest, u.latest);
    }
    BeforeByLatest(first, u);
  }

  lemma BeforeByLatest(a: MailThread, b: MailThread)
    requires MessageBefore(a.latest, b.latest) || MessageBefore(b.latest, a.latest)
    ensures ThreadBefore(a, b) <==> !MessageBefore(a.latest, b.latest)
  {
    CompareMessagesLaws(a.latest, b.latest);
    CompareMessagesLaws(b.latest, a.latest);
  }

  lemma LeftOfJoined(threads: seq<MailThread>, keep: MailSummary -> bool, first: seq<MailThread>,
                     rest: seq<MailThread>)
    requires threads != [] && |first| == if KeepsSome(threads[0], keep) then 1 else 0
    requires first != [] ==> first[0].id == threads[0].id && first[0].latest == LastKept(threads[0], keep)
    requires forall u :: u in rest ==> LeftOf(threads[1..], keep, u)
    requires forall t :: t in threads[1..] && KeepsSome(t, keep) ==> HasLeft(rest, t, keep)
    ensures forall u :: u in first + rest ==> LeftOf(threads, keep, u)
    ensures forall t :: t in threads && KeepsSome(t, keep) ==> HasLeft(first + rest, t, keep)
  {
    hide KeepsSome, LastKept;
    forall u | u in first + rest
      ensures LeftOf(threads, keep, u)
    {
      if u in rest {
        var i :| 0 <= i < |threads[1..]| && KeepsSome(threads[1..][i], keep)
                 && threads[1..][i].id == u.id && LastKept(threads[1..][i], keep) == u.latest;
        assert threads[i + 1] == threads[1..][i];
      } else {
        assert u == first[0];
      }
    }
    forall t | t in threads && KeepsSome(t, keep)
      ensures HasLeft(first + rest, t, keep)
    {
      if t == threads[0] {
        assert first[0] in first + rest;
      } else {
        assert t in threads[1..] && HasLeft(rest, t, keep);
        var u :| u in rest && u.id == t.id && u.latest == LastKept(t, keep);
        assert u in first + rest;
      }
    }
  }

  /** The exact condition, for any list of conversations.  The edited list is the regrouped list,
      order included, if and only if the threads that lose nothing are those grouping makes and the
      conversations that keep something still stand in the order of their newest message. */
  lemma RemovalKeepsListOrder(ms: seq<MailSummary>, threads: seq<MailThread>, keep: MailSummary -> bool)
    requires DistinctMessageIds(ms) && Conversations(Messages(ms), threads)
    ensures RegroupedAll(threads, keep) == Group(Filter(ms, keep))
       <==> UntouchedAreThreads(Messages(ms), threads, keep) && InKeptOrder(threads, keep)
  {
    hide IsThread, ThreadBefore, Group, RegroupedAll, DistinctMessageIds, Filter, StrictOrder, InKeptOrder,
      DistinctIds, Sorted, Untouched, HasSource, ThreadKey;
    DistinctMessagesHaveDistinctIds(ms);
    RegroupingAgrees(ms, threads, keep);
    FilterDistinct(ms, keep);
    GroupIsGrouping(Filter(ms, keep));
    ThreadBeforeIsOrder();
    if UntouchedAreThreads(Messages(ms), threads, keep) {
      SortedIffInKeptOrder(Messages(ms), threads, keep);
      if InKeptOrder(threads, keep) {
        SortedIsUnique(RegroupedAll(threads, keep), Group(Filter(ms, keep)), ThreadBefore);
      }
    }
  }

  lemma InKeptOrderOfDerived(threads: seq<MailThread>, keep: MailSummary -> bool)
    ensures InKeptOrder(DerivedAll(threads), keep) <==> InKeptOrder(threads, keep)
  {
    hide MessageBefore, Filter, SortBy;
    var derived := DerivedAll(threads);
    forall i | 0 <= i < |threads|
      ensures KeepsSome(derived[i], keep) == KeepsSome(threads[i], keep)
      ensures KeepsSome(threads[i], keep) ==> LastKept(derived[i], keep) == LastKept(threads[i], keep)
    {
      assert ConcreteThreadMessages(derived[i]) == ConcreteThreadMessages(threads[i]);
    }
  }

  /** The same with regard to all but the server's fields. */
  lemma DerivedRemovalKeepsListOrder(ms: seq<MailSummary>, threads: seq<MailThread>, keep: MailSummary -> bool)
    requires DistinctMessageIds(ms) && Conversations(Messages(ms), threads)
    ensures DerivedAll(RegroupedAll(threads, keep)) == Group(Filter(ms, keep))
       <==> UntouchedAreThreads(Messages(ms), DerivedAll(threads), keep) && InKeptOrder(threads, keep)
  {
    hide Conversations, UntouchedAreThreads, Group, RegroupedAll, InKeptOrder, DistinctMessageIds, Filter;
    DerivedAreConversations(Messages(ms), threads);
    RemovalKeepsListOrder(ms, DerivedAll(threads), keep);
    DerivedRegroupedAll(threads, keep);
    InKeptOrderOfDerived(threads, keep);
  }

  // ---------------------------------------------------------------- deletion

  predicate SameServerFields(a: MailThread, b: MailThread) {
    a.id == b.id && a.accountId == b.accountId && a.threadId == b.threadId && a.messageCount == b.messageCount
  }

  /** Deletion from one thread is regrouping, with the server's fields kept. */
  lemma RemoveConcreteIsRegrouping(s: set<MailSummary>, t: MailThread, target: MailSummary)
    requires HasSource(s, t)
    ensures match RemoveConcreteMessage(t, target)
            case None => Regrouped(Derived(t), OtherCopies(target)) == []
            case Some(u) => Regrouped(Derived(t), OtherCopies(target)) == [Derived(u)] && SameServerFields(u, t)
  {
    hide IsThread, Group, ThreadKey, Filter, DistinctMessageIds;
    var source := ConcreteThreadMessages(t);
    assert ConcreteThreadMessages(Derived(t)) == source;
    var remaining := Filter(source, OtherCopies(target));
    if |remaining| != |source| && remaining != [] {
      FilterElements(source, OtherCopies(target));
      FilterDistinct(source, OtherCopies(target));
      GroupOfOneKey(remaining, t.id);
      IsThreadIsBare(Messages(remaining), t.id, Group(remaining)[0]);
    }
  }

  lemma IsThreadIsBare(s: set<MailSummary>, id: string, t: MailThread)
    requires IsThread(s, id, t)
    ensures Derived(t) == t && t.id == id
  {
  }

  lemma {:induction false} RemoveConcreteFromAll(s: set<MailSummary>, threads: seq<MailThread>, target: MailSummary)
    requires forall t :: t in threads ==> HasSource(s, t)
    ensures DerivedAll(RemoveConcreteMessageFromThreads(threads, target))
         == RegroupedAll(DerivedAll(threads), OtherCopies(target))
    ensures forall u :: u in RemoveConcreteMessageFromThreads(threads, target) ==> HasServerFieldsOf(threads, u)
  {
    hide HasSource, RemoveConcreteMessage, Regrouped, Derived, SameServerFields;
    if threads != [] {
      assert threads[0] in threads;
      RemoveConcreteFromAll(s, threads[1..], target);
      RemoveConcreteIsRegrouping(s, threads[0], target);
      assert DerivedAll(threads)[1..] == DerivedAll(threads[1..]);
      var rest := RemoveConcreteMessageFromThreads(threads[1..], target);
      var first := RemoveConcreteMessage(threads[0], target);
      if first.Some? {
        assert DerivedAll([first.value] + rest) == [Derived(first.value)] + DerivedAll(rest);
      } else {
        assert DerivedAll([] + rest) == [] + DerivedAll(rest);
      }
      KeepServerFields(threads, first, rest);
    }
  }

  ghost predicate HasServerFieldsOf(threads: seq<MailThread>, u: MailThread) {
    exists t :: t in threads && SameServerFields(u, t)
  }

  lemma KeepServerFields(threads: seq<MailThread>, first: Option<MailThread>, rest: seq<MailThread>)
    requires threads != [] && (first.Some? ==> SameServerFields(first.value, threads[0]))
    requires forall u :: u in rest ==> HasServerFieldsOf(threads[1..], u)
    ensures forall u :: u in (if first.Some? then [first.value] else []) + rest ==> HasServerFieldsOf(threads, u)
  {
    hide SameServerFields;
    assert threads[0] in threads;
    forall u | u in rest
      ensures HasServerFieldsOf(threads, u)
    {
      var t :| t in threads[1..] && SameServerFields(u, t);
      assert t in threads;
    }
  }

  /** Deleting one message copy against grouping the messages without it, for any list of
      conversations.  The server's fields stay as they were; in the others the two agree if and
      only if the threads without the copy are those grouping makes, and in order if and only if
      besides the conversations still stand in the order of their newest message. */
  lemma DeletionIsRegrouping(ms: seq<MailSummary>, threads: seq<MailThread>, target: MailSummary)
    requires DistinctMessageIds(ms) && Conversations(Messages(ms), threads)
    ensures var r, keep := RemoveConcreteMessageFromThreads(threads, target), OtherCopies(target);
            && (forall u :: u in r ==> HasServerFieldsOf(threads, u))
            && Conversations(Kept(Messages(ms), keep), DerivedAll(r))
            && (SameElements(DerivedAll(r), Group(Filter(ms, keep)))
                <==> UntouchedAreThreads(Messages(ms), DerivedAll(threads), keep))
            && (DerivedAll(r) == Group(Filter(ms, keep))
                <==> UntouchedAreThreads(Messages(ms), DerivedAll(threads), keep) && InKeptOrder(threads, keep))
  {
    hide HasSource, UntouchedAreThreads, Group, RegroupedAll, SameElements, DistinctMessageIds, Filter,
      RemoveConcreteMessageFromThreads, HasServerFieldsOf, InKeptOrder, ThreadKey, HasThread;
    DistinctMessagesHaveDistinctIds(ms);
    RemoveConcreteFromAll(Messages(ms), threads, target);
    DerivedAreConversations(Messages(ms), threads);
    RemovalIsRegrouping(Messages(ms), DerivedAll(threads), OtherCopies(target));
    RegroupingAgrees(ms, DerivedAll(threads), OtherCopies(target));
    DerivedRegroupedAll(threads, OtherCopies(target));
    DerivedRemovalKeepsListOrder(ms, threads, OtherCopies(target));
  }

  // ---------------------------------------------------------------- lists that grouping made

  lemma BareFields(threads: seq<MailThread>, u: MailThread)
    requires DerivedAll(threads) == threads && HasServerFieldsOf(threads, u)
    ensures Derived(u) == u
  {
    var t :| t in threads && SameServerFields(u, t);
    var i :| 0 <= i < |threads| && threads[i] == t;
    assert DerivedAll(threads)[i] == t;
  }

  /** On a list that grouping made, deletion is the removal of the other theorems. */
  lemma GroupedDeletion(ms: seq<MailSummary>, target: MailSummary)
    requires DistinctMessageIds(ms)
    ensures RemoveConcreteMessageFromThreads(Group(ms), target) == RegroupedAll(Group(ms), OtherCopies(target))
  {
    hide Group, RegroupedAll, RemoveConcreteMessageFromThreads, HasServerFieldsOf, HasSource, Derived, AreThreads,
      DistinctMessageIds;
    var threads, r := Group(ms), RemoveConcreteMessageFromThreads(Group(ms), target);
    DistinctMessagesHaveDistinctIds(ms);
    GroupIsGrouping(ms);
    GroupIsBare(ms);
    ThreadsAreConversations(Messages(ms), threads);
    RemoveConcreteFromAll(Messages(ms), threads, target);
    forall i | 0 <= i < |r|
      ensures DerivedAll(r)[i] == r[i]
    {
      assert r[i] in r;
      BareFields(threads, r[i]);
    }
  }

  /** Sender clean-up and deletion on a list that grouping made of messages with distinct ids agree, as
      sets, with grouping the others; in order if and only if the conversations still stand in the
      order of their newest message. */
  lemma GroupedListsRegroup(ms: seq<MailSummary>, sender: SenderCleanupTarget, target: MailSummary)
    requires DistinctMessageIds(ms)
    ensures var r, afresh := RemoveSenderCleanupMessages(Group(ms), sender), Group(Filter(ms, OtherSenders(sender)));
            SameElements(r, afresh) && (r == afresh <==> InKeptOrder(Group(ms), OtherSenders(sender)))
    ensures var r := RemoveConcreteMessageFromThreads(Group(ms), target);
            var afresh := Group(Filter(ms, OtherCopies(target)));
            SameElements(r, afresh) && (r == afresh <==> InKeptOrder(Group(ms), OtherCopies(target)))
  {
    hide Group, RegroupedAll, RemoveConcreteMessageFromThreads, SameElements, InKeptOrder, DistinctMessageIds, Filter;
    GroupedDeletion(ms, target);
    GroupedRemoval(ms, OtherSenders(sender));
    GroupedRemoval(ms, OtherCopies(target));
  }

  lemma GroupedRemoval(ms: seq<MailSummary>, keep: MailSummary -> bool)
    requires DistinctMessageIds(ms)
    ensures SameElements(RegroupedAll(Group(ms), keep), Group(Filter(ms, keep)))
    ensures RegroupedAll(Group(ms), keep) == Group(Filter(ms, keep)) <==> InKeptOrder(Group(ms), keep)
  {
    hide Group, RegroupedAll, SameElements, InKeptOrder, DistinctMessageIds, Filter, IsThread, Conversations, Untouched,
      ThreadKey, DistinctIds;
    DistinctMessagesHaveDistinctIds(ms);
    GroupIsGrouping(ms);
    ThreadsAreConversations(Messages(ms), Group(ms));
    RegroupingAgrees(ms, Group(ms), keep);
    RemovalKeepsListOrder(ms, Group(ms), keep);
  }

  function Dated(id: string, uid: int, thread: string, sender: string, date: int): MailSummary {
    MailSummary(id, "a", "INBOX", uid, None, thread, None, sender, Some(date), true, false)
  }

  const THREE := Dated("3", 3, "x", "ann@x.org", 3)
  const TWO := Dated("2", 2, "y", "bob@yy.org", 2)
  const ONE := Dated("1", 1, "x", "bob@yy.org", 1)
  const ANN := SenderCleanupTarget("a", "ann@x.org")

  /** Cleaning up after ann, and deleting her one message, both take the latest message of x; x
      keeps its old place above y, although y is newer now. */
  lemma RemovalKeepsOldPlace()
    ensures var ms := [THREE, TWO, ONE];
            && RemoveSenderCleanupMessages(Group(ms), ANN) != Group(Filter(ms, OtherSenders(ANN)))
            && RemoveConcreteMessageFromThreads(Group(ms), THREE) != Group(Filter(ms, OtherCopies(THREE)))
  {
    hide Group, RegroupedAll, Filter, RemoveConcreteMessageFromThreads;
    SomeDates();
    AnnIsTheSender();
    LatestTakenKeepsPlace(OtherSenders(ANN));
    LatestTakenKeepsPlace(OtherCopies(THREE));
    GroupedDeletion([THREE, TWO, ONE], THREE);
  }

  lemma AnnIsTheSender()
    ensures !OtherSenders(ANN)(THREE) && OtherSenders(ANN)(TWO) && OtherSenders(ANN)(ONE)
  {
    hide TrimStart, TrimEnd, Trim;
    assert Trimmed("ann@x.org") && Trimmed("bob@yy.org");
    TrimOfTrimmed("ann@x.org");
    TrimOfTrimmed("bob@yy.org");
    assert |NormalizeSenderAddress("ann@x.org")| == 9 && |NormalizeSenderAddress("bob@yy.org")| == 10;
  }

  lemma LatestTakenKeepsPlace(keep: MailSummary -> bool)
    requires !keep(THREE) && keep(TWO) && keep(ONE)
    ensures var ms := [THREE, TWO, ONE]; RegroupedAll(Group(ms), keep) != Group(Filter(ms, keep))
  {
    hide IsThread, Group, RegroupedAll, ThreadBefore;
    var ms := [THREE, TWO, ONE];
    var threads, s := Group(ms), Messages(ms);
    SomeDates();
    DistinctMessagesHaveDistinctIds(ms);
    GroupIsGrouping(ms);
    FirstIsLatest(s, threads, THREE);
    FilterOfThree(keep);
    GroupIsGrouping([TWO, ONE]);
    FirstIsLatest(Messages([TWO, ONE]), Group([TWO, ONE]), TWO);
    FirstStays(s, threads, keep, ONE);
  }

  lemma SomeDates()
    ensures DistinctMessageIds([THREE, TWO, ONE]) && DistinctMessageIds([TWO, ONE])
    ensures ThreadKey(THREE) == ThreadKey(ONE) == "a:x" && ThreadKey(TWO) == "a:y"
    ensures MessageBefore(ONE, TWO) && MessageBefore(TWO, THREE)
  {
  }

  lemma FilterOfThree(keep: MailSummary -> bool)
    requires !keep(THREE) && keep(TWO) && keep(ONE)
    ensures Filter([THREE, TWO, ONE], keep) == [TWO, ONE]
  {
    assert [THREE, TWO, ONE][1..] == [TWO, ONE] && [TWO, ONE][1..] == [ONE];
    assert Filter([ONE], keep) == [ONE] by {
      assert [ONE][1..] == [];
    }
    assert Filter([TWO, ONE], keep) == [TWO, ONE];
  }

  /** The conversation of the newest message comes first. */
  lemma FirstIsLatest(s: set<MailSummary>, threads: seq<MailThread>, newest: MailSummary)
    requires IsGrouping(s, threads) && newest in s
    requires forall m :: m in s ==> m == newest || MessageBefore(m, newest)
    ensures threads != [] && threads[0].id == ThreadKey(newest)
  {
    hide IsThread, ThreadKey, MessageBefore;
    var t :| t in threads && t.id == ThreadKey(newest);
    assert threads[0] in threads;
    LatestIsGreatest(s, t.id, t);
    LatestIsGreatest(s, threads[0].id, threads[0]);
    if t != threads[0] {
      assert ThreadBefore(threads[0], t);
      NotBehind(threads[0], t);
    }
  }

  lemma NotBehind(first: MailThread, t: MailThread)
    requires ThreadBefore(first, t)
    ensures !MessageBefore(first.latest, t.latest)
  {
    CompareMessagesLaws(first.latest, t.latest);
  }

  lemma FirstStays(s: set<MailSummary>, threads: seq<MailThread>, keep: MailSummary -> bool, m: MailSummary)
    requires DistinctIds(s) && AreThreads(s, threads)
    requires threads != [] && m in s && keep(m) && ThreadKey(m) == threads[0].id
    ensures RegroupedAll(threads, keep) != [] && RegroupedAll(threads, keep)[0].id == threads[0].id
  {
    hide IsThread, ThreadKey, Regrouped, DistinctIds, HasSource, Untouched;
    assert threads[0] in threads;
    ThreadHasSource(s, threads[0]);
    RegroupedIsThread(s, threads[0], keep);
    assert m in Kept(s, keep);
    assert Regrouped(threads[0], keep)[0] in Regrouped(threads[0], keep);
  }

  // ---------------------------------------------------------------- rollback

  lemma {:induction false} PutElements(entries: seq<MailSummary>, m: MailSummary)
    requires DistinctMessageIds(entries)
    requires forall e :: e in entries && e.id == m.id ==> e == m
    ensures DistinctMessageIds(Put(entries, m))
    ensures forall x :: x in Put(entries, m) <==> x in entries || x == m
  {
    if entries != [] && entries[0].id != m.id {
      assert forall e :: e in entries <==> e == entries[0] || e in entries[1..];
      PutElements(entries[1..], m);
      var rest := Put(entries[1..], m);
      forall i | 0 <= i < |rest|
        ensures rest[i].id != entries[0].id
      {
        assert rest[i] in rest;
        NotAgain(entries, rest[i], m);
      }
    } else if entries != [] {
      assert entries[0] in entries;
      assert [m] + entries[1..] == entries;
    }
  }

  lemma NotAgain(entries: seq<MailSummary>, x: MailSummary, m: MailSummary)
    requires entries != [] && DistinctMessageIds(entries) && entries[0].id != m.id
    requires x in entries[1..] || x == m
    ensures x.id != entries[0].id
  {
  }

  lemma {:induction false} PutAllElements(ms: seq<MailSummary>)
    requires DistinctIds(Messages(ms))
    ensures DistinctMessageIds(PutAll([], ms)) && Messages(PutAll([], ms)) == Messages(ms)
  {
    hide Put, DistinctMessageIds;
    if ms != [] {
      var front := ms[..|ms| - 1];
      assert forall m :: m in ms <==> m in front || m == Last(ms);
      PutAllElements(front);
      forall e | e in PutAll([], front) && e.id == Last(ms).id
        ensures e == Last(ms)
      {
        assert e in Messages(front) && e in Messages(ms) && Last(ms) in Messages(ms);
      }
      PutElements(PutAll([], front), Last(ms));
      forall m
        ensures m in PutAll([], ms) <==> m in ms
      {
        assert m in PutAll([], front) <==> m in Messages(front);
      }
    } else {
      EmptyIsDistinct();
    }
  }

  lemma EmptyIsDistinct()
    ensures DistinctMessageIds([])
  {
  }

  /** The removed messages that are missing from `s`. */
  ghost predicate Missing(s: set<MailSummary>, m: MailSummary, target: SenderCleanupTarget) {
    IsSenderCleanupMessage(m, target) && forall e :: e in s ==> e.id != m.id
  }

  lemma {:induction false} AddMissingElements(entries: seq<MailSummary>, ms: seq<MailSummary>,
                                              target: SenderCleanupTarget)
    requires DistinctMessageIds(entries) && DistinctIds(Messages(ms))
    ensures DistinctMessageIds(AddMissing(entries, ms, target))
    ensures forall m :: m in AddMissing(entries, ms, target) <==>
                          m in entries || (m in ms && Missing(Messages(entries), m, target))
  {
    hide IsSenderCleanupMessage;
    if ms != [] {
      var front := ms[..|ms| - 1];
      assert forall m :: m in ms <==> m in front || m == Last(ms);
      AddMissingElements(entries, front, target);
      OneMoreMissing(entries, ms, AddMissing(entries, front, target), target);
    }
  }

  lemma OneMoreMissing(entries: seq<MailSummary>, ms: seq<MailSummary>, earlier: seq<MailSummary>,
                       target: SenderCleanupTarget)
    requires ms != [] && DistinctIds(Messages(ms)) && DistinctMessageIds(earlier)
    requires forall m :: m in earlier <==>
                           m in entries || (m in ms[..|ms| - 1] && Missing(Messages(entries), m, target))
    ensures var added := IsSenderCleanupMessage(Last(ms), target) && !HasId(earlier, Last(ms).id);
            var r := if added then earlier + [Last(ms)] else earlier;
            && DistinctMessageIds(r)
            && forall m :: m in r <==> m in entries || (m in ms && Missing(Messages(entries), m, target))
  {
    hide IsSenderCleanupMessage;
    var front := ms[..|ms| - 1];
    assert forall m :: m in ms <==> m in front || m == Last(ms);
    if IsSenderCleanupMessage(Last(ms), target) {
      if HasId(earlier, Last(ms).id) {
        var e :| e in earlier && e.id == Last(ms).id;
        if e !in entries {
          assert e in Messages(ms) && Last(ms) in Messages(ms);
        }
      } else {
        forall e | e in entries
          ensures e.id != Last(ms).id
        {
          assert e in earlier;
        }
      }
    }
  }

  lemma {:induction false} ConcreteElements(threads: seq<MailThread>)
    ensures forall m :: m in ConcreteMessages(threads) <==>
                          exists t :: t in threads && m in ConcreteThreadMessages(t)
  {
    hide ConcreteThreadMessages;
    if threads != [] {
      ConcreteElements(threads[1..]);
      assert forall t :: t in threads <==> t == threads[0] || t in threads[1..];
    }
  }

  ghost function Restored(s: set<MailSummary>, r: set<MailSummary>, target: SenderCleanupTarget): set<MailSummary> {
    s + set m | m in r && Missing(s, m, target)
  }

  /** The source messages of a list of threads. */
  ghost function Held(threads: seq<MailThread>): set<MailSummary> {
    Messages(ConcreteMessages(threads))
  }

  /** Whatever mail arrived or left meanwhile, and whatever the two lists show of it, restoring
      yields the grouping of the current messages and the removed ones that are missing. */
  lemma RestoreIsRegrouping(current: seq<MailThread>, original: seq<MailThread>, target: SenderCleanupTarget)
    requires DistinctIds(Held(current)) && DistinctIds(Held(original))
    ensures IsGrouping(Restored(Held(current), Held(original), target),
                       RestoreSenderCleanupMessages(current, original, target))
  {
    hide IsGrouping, ConcreteMessages, PutAll, AddMissing, Group, DistinctMessageIds, DistinctIds, Missing;
    var entries := PutAll([], ConcreteMessages(current));
    PutAllElements(ConcreteMessages(current));
    var all := AddMissing(entries, ConcreteMessages(original), target);
    AddMissingElements(entries, ConcreteMessages(original), target);
    RestoredElements(Held(current), Held(original), entries, ConcreteMessages(original), all, target);
    GroupIsGrouping(all);
  }

  lemma RestoredElements(s: set<MailSummary>, r: set<MailSummary>, entries: seq<MailSummary>,
                         ms: seq<MailSummary>, all: seq<MailSummary>, target: SenderCleanupTarget)
    requires Messages(entries) == s && Messages(ms) == r
    requires forall m :: m in all <==> m in entries || (m in ms && Missing(Messages(entries), m, target))
    ensures Messages(all) == Restored(s, r, target)
  {
    hide Missing;
    assert forall m :: m in s <==> m in entries;
    assert forall m :: m in r <==> m in ms;
  }

  lemma NothingElseMissing(s: set<MailSummary>, target: SenderCleanupTarget)
    requires DistinctIds(s)
    ensures Restored(Kept(s, OtherSenders(target)), s, target) == s
  {
    hide IsSenderCleanupMessage;
  }

  lemma HeldByRegrouped(t: MailThread, keep: MailSummary -> bool)
    ensures forall m :: m in ConcreteMessages(Regrouped(t, keep)) <==> m in ConcreteThreadMessages(t) && keep(m)
  {
    hide Group, Filter, ConcreteThreadMessages;
    var source := ConcreteThreadMessages(t);
    var remaining := Filter(source, keep);
    FilterElements(source, keep);
    if |remaining| == |source| {
      assert [t][1..] == [];
      assert ConcreteMessages([t]) == source + [];
    } else if remaining != [] {
      GroupKeepsMessages(remaining);
      forall m
        ensures m in ConcreteMessages(Group(remaining)) <==> m in remaining
      {
        assert m in multiset(ConcreteMessages(Group(remaining))) <==> m in multiset(remaining);
      }
    }
  }

  lemma {:induction false} HeldByJoined(a: seq<MailThread>, b: seq<MailThread>)
    ensures ConcreteMessages(a + b) == ConcreteMessages(a) + ConcreteMessages(b)
  {
    hide ConcreteThreadMessages;
    if a == [] {
      assert a + b == b;
    } else {
      HeldByJoined(a[1..], b);
      assert (a + b)[1..] == a[1..] + b;
    }
  }

  /** Removal loses no message it should keep, whatever the list. */
  lemma {:induction false} RemovalKeepsTheRest(threads: seq<MailThread>, keep: MailSummary -> bool)
    ensures Held(RegroupedAll(threads, keep)) == Kept(Held(threads), keep)
  {
    hide Regrouped, ConcreteThreadMessages;
    if threads != [] {
      var first, rest := Regrouped(threads[0], keep), RegroupedAll(threads[1..], keep);
      RemovalKeepsTheRest(threads[1..], keep);
      HeldByRegrouped(threads[0], keep);
      HeldByJoined(first, rest);
      HeldOfBoth(threads, first, rest, keep);
    }
  }

  lemma HeldOfBoth(threads: seq<MailThread>, first: seq<MailThread>, rest: seq<MailThread>,
                   keep: MailSummary -> bool)
    requires threads != [] && ConcreteMessages(first + rest) == ConcreteMessages(first) + ConcreteMessages(rest)
    requires Held(rest) == Kept(Held(threads[1..]), keep)
    requires forall m :: m in ConcreteMessages(first) <==> m in ConcreteThreadMessages(threads[0]) && keep(m)
    ensures Held(first + rest) == Kept(Held(threads), keep)
  {
    hide ConcreteThreadMessages;
    forall m
      ensures m in Held(first + rest) <==> m in Kept(Held(threads), keep)
    {
      assert m in ConcreteMessages(rest) <==> m in Held(rest);
      assert m in ConcreteMessages(threads[1..]) <==> m in Held(threads[1..]);
      assert ConcreteMessages(threads) == ConcreteThreadMessages(threads[0]) + ConcreteMessages(threads[1..]);
    }
  }

  /** Removing and restoring, with nothing else changed, regroups all the messages of the list. */
  lemma RollbackRegroups(threads: seq<MailThread>, target: SenderCleanupTarget)
    requires DistinctIds(Held(threads))
    ensures IsGrouping(Held(threads),
                       RestoreSenderCleanupMessages(RemoveSenderCleanupMessages(threads, target), threads, target))
  {
    hide IsGrouping, RegroupedAll, RestoreSenderCleanupMessages, Held;
    RemovalKeepsTheRest(threads, OtherSenders(target));
    assert DistinctIds(Kept(Held(threads), OtherSenders(target)));
    RestoreIsRegrouping(RemoveSenderCleanupMessages(threads, target), threads, target);
    NothingElseMissing(Held(threads), target);
  }

  /** A failed clean-up is undone exactly if and only if the list was the grouping of its messages;
      in all but the server's fields, if and only if it was so in them. */
  lemma RollbackIsExact(threads: seq<MailThread>, target: SenderCleanupTarget)
    requires DistinctIds(Held(threads))
    ensures var r := RestoreSenderCleanupMessages(RemoveSenderCleanupMessages(threads, target), threads, target);
            && (r == threads <==> IsGrouping(Held(threads), threads))
            && (r == DerivedAll(threads) <==> IsGrouping(Held(threads), DerivedAll(threads)))
  {
    hide IsGrouping, RegroupedAll, RestoreSenderCleanupMessages, Held, DistinctIds;
    var r := RestoreSenderCleanupMessages(RemoveSenderCleanupMessages(threads, target), threads, target);
    RollbackRegroups(threads, target);
    if IsGrouping(Held(threads), threads) {
      GroupingIsUnique(Held(threads), threads, r);
    }
    if IsGrouping(Held(threads), DerivedAll(threads)) {
      GroupingIsUnique(Held(threads), DerivedAll(threads), r);
    }
  }

  /** So it is for every list that `groupMessages` made. */
  lemma GroupedListsRollBack(ms: seq<MailSummary>, target: SenderCleanupTarget)
    requires DistinctMessageIds(ms)
    ensures var threads := Group(ms);
            RestoreSenderCleanupMessages(RemoveSenderCleanupMessages(threads, target), threads, target) == threads
  {
    hide IsGrouping, Group, RegroupedAll, RestoreSenderCleanupMessages, ConcreteMessages, DistinctMessageIds;
    DistinctMessagesHaveDistinctIds(ms);
    GroupIsGrouping(ms);
    GroupKeepsMessages(ms);
    forall m
      ensures m in ConcreteMessages(Group(ms)) <==> m in ms
    {
      assert m in multiset(ConcreteMessages(Group(ms))) <==> m in multiset(ms);
    }
    assert Held(Group(ms)) == Messages(ms);
    RollbackIsExact(Group(ms), target);
  }

  /** It is not for a list of the store: the rollback drops the fields only the server fills in. */
  lemma RollbackDropsServerFields(threads: seq<MailThread>, target: SenderCleanupTarget)
    ensures var r := RestoreSenderCleanupMessages(RemoveSenderCleanupMessages(threads, target), threads, target);
            && (forall u :: u in r ==> Derived(u) == u)
            && ((exists t :: t in threads && Derived(t) != t) ==> r != threads)
  {
    hide RegroupedAll, Group, PutAll, AddMissing, Derived;
    var removed := RemoveSenderCleanupMessages(threads, target);
    var grouped := Group(AddMissing(PutAll([], ConcreteMessages(removed)), ConcreteMessages(threads), target));
    GroupIsBare(AddMissing(PutAll([], ConcreteMessages(removed)), ConcreteMessages(threads), target));
    forall u | u in grouped
      ensures Derived(u) == u
    {
      var i :| 0 <= i < |grouped| && grouped[i] == u;
      assert DerivedAll(grouped)[i] == Derived(u);
    }
  }
}
