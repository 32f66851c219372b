/**
 Conversation grouping of threads.ts.

 `Group` is the code: fill a map in arrival order, merge copies, sort.  `IsGrouping` says what a
 grouping of a set of messages is, with no mention of an input order; there is at most one
 (`GroupingIsUnique`), and `Group` computes it.
 */
module Threads {
  import opened AsciiText
  import opened Options
  import opened Ordering

  /** The fields the grouping and the list actions look at.  `receivedAt` is the parsed date in
      milliseconds, None when it is invalid. */
  datatype MailSummary = MailSummary(id: string, accountId: string, mailbox: string, uid: int,
                                     messageId: Option<string>, threadId: string,
                                     fromName: Option<string>, fromAddress: string,
                                     receivedAt: Option<int>, isRead: bool, hasAttachments: bool)

  /** The fields that `groupMessages` computes, and the three only the server fills in. */
  datatype MailThread = MailThread(id: string, messages: seq<MailSummary>, sourceMessages: Option<seq<MailSummary>>,
                                   latest: MailSummary, unread: bool, hasAttachments: bool, participants: seq<string>,
                                   accountId: Option<string>, threadId: Option<string>, messageCount: Option<nat>)

  /** JavaScript's `value || fallback` on an optional string. */
  function Or(value: Option<string>, fallback: string): string {
    if value.Some? && value.value != "" then value.value else fallback
  }

  function ThreadKey(m: MailSummary): string {
    m.accountId + (":" + Or(Some(m.threadId), m.id))
  }

  function CopyKey(m: MailSummary): string {
    Or(if m.messageId.Some? then Some(Lower(m.messageId.value)) else None, m.id)
  }

  function Sender(m: MailSummary): string {
    Or(m.fromName, m.fromAddress)
  }

  function ConcreteThreadMessages(t: MailThread): seq<MailSummary> {
    if t.sourceMessages.Some? then t.sourceMessages.value else t.messages
  }

  // ---------------------------------------------------------------- the comparators

  /** The sign of `left - right` with invalid dates at minus infinity; two of them differ by
      NaN, which counts as no difference. */
  function CompareReceivedAt(left: Option<int>, right: Option<int>): int {
    match (left, right)
    case (Some(l), Some(r)) => l - r
    case (Some(_), None) => 1
    case (None, Some(_)) => -1
    case (None, None) => 0
  }

  function LowerMessageId(m: MailSummary): string {
    if m.messageId.Some? then Lower(m.messageId.value) else ""
  }

  function CompareMessages(left: MailSummary, right: MailSummary): int {
    var byDate := CompareReceivedAt(left.receivedAt, right.receivedAt);
    if byDate != 0 then byDate
    else
      var byMessageId := CompareStrings(LowerMessageId(left), LowerMessageId(right));
      if byMessageId != 0 then byMessageId else CompareStrings(left.id, right.id)
  }

  predicate MessageBefore(a: MailSummary, b: MailSummary) {
    CompareMessages(a, b) < 0
  }

  /** Newest latest message first, then by id. */
  predicate ThreadBefore(a: MailThread, b: MailThread) {
    var byLatest := CompareMessages(b.latest, a.latest);
    if byLatest != 0 then byLatest < 0 else CompareStrings(a.id, b.id) < 0
  }

  // ---------------------------------------------------------------- grouping, as computed

  /** The keys of a JavaScript Map filled from `ms`, in insertion order. */
  function Keys(ms: seq<MailSummary>, keyOf: MailSummary -> string): (r: seq<string>) {
    if ms == [] then []
    else
      var earlier, last := Keys(ms[..|ms| - 1], keyOf), keyOf(ms[|ms| - 1]);
      if last in earlier then earlier else earlier + [last]
  }

  /** The entry of `key` in that map. */
  function Having(ms: seq<MailSummary>, keyOf: MailSummary -> string, key: string): (r: seq<MailSummary>) {
    if ms == [] then []
    else
      var earlier := Having(ms[..|ms| - 1], keyOf, key);
      if keyOf(ms[|ms| - 1]) == key then earlier + [ms[|ms| - 1]] else earlier
  }

  function Last(ms: seq<MailSummary>): MailSummary
    requires ms != []
  {
    ms[|ms| - 1]
  }

  function MergeCopies(copies: seq<MailSummary>): MailSummary
    requires copies != []
  {
    SortByElements(copies, MessageBefore);
    Last(SortBy(copies, MessageBefore))
  }

  function MergeAll(ms: seq<MailSummary>, keys: seq<string>): (r: seq<MailSummary>)
    requires forall k :: k in keys ==> Having(ms, CopyKey, k) != []
    ensures |r| == |keys|
  {
    if keys == [] then [] else [MergeCopies(Having(ms, CopyKey, keys[0]))] + MergeAll(ms, keys[1..])
  }

  function DeduplicateCopies(ms: seq<MailSummary>): (r: seq<MailSummary>)
    ensures ms != [] ==> r != []
  {
    KeysAreKeys(ms, CopyKey);
    MergeAll(ms, Keys(ms, CopyKey))
  }

  function DistinctValues(values: seq<string>): (r: seq<string>) {
    if values == [] then []
    else
      var earlier, last := DistinctValues(values[..|values| - 1]), values[|values| - 1];
      if last in earlier then earlier else earlier + [last]
  }

  function Unique(values: seq<string>): seq<string> {
    SortBy(DistinctValues(values), StringBefore)
  }

  function Senders(ms: seq<MailSummary>): (r: seq<string>)
    ensures |r| == |ms| && forall i :: 0 <= i < |ms| ==> r[i] == Sender(ms[i])
  {
    seq(|ms|, i requires 0 <= i < |ms| => Sender(ms[i]))
  }

  predicate Unread(ms: seq<MailSummary>) {
    exists m :: m in ms && !m.isRead
  }

  predicate Attached(ms: seq<MailSummary>) {
    exists m :: m in ms && m.hasAttachments
  }

  function MakeThread(id: string, ms: seq<MailSummary>): MailThread
    requires ms != []
  {
    SortByElements(DeduplicateCopies(ms), MessageBefore);
    var deduplicated := SortBy(DeduplicateCopies(ms), MessageBefore);
    var sourceMessages := SortBy(ms, MessageBefore);
    MailThread(id, deduplicated, Some(sourceMessages), Last(deduplicated), Unread(sourceMessages),
               Attached(sourceMessages), Unique(Senders(sourceMessages)), None, None, None)
  }

  function MakeThreads(ms: seq<MailSummary>, keys: seq<string>): (r: seq<MailThread>)
    requires forall k :: k in keys ==> Having(ms, ThreadKey, k) != []
  {
    if keys == [] then [] else [MakeThread(keys[0], Having(ms, ThreadKey, keys[0]))] + MakeThreads(ms, keys[1..])
  }

  function Group(ms: seq<MailSummary>): (threads: seq<MailThread>) {
    KeysAreKeys(ms, ThreadKey);
    SortBy(MakeThreads(ms, Keys(ms, ThreadKey)), ThreadBefore)
  }

  lemma {:induction false} KeysAreKeys(ms: seq<MailSummary>, keyOf: MailSummary -> string)
    ensures Distinct(Keys(ms, keyOf))
    ensures forall k :: k in Keys(ms, keyOf) ==> Having(ms, keyOf, k) != []
    ensures forall m :: m in ms ==> keyOf(m) in Keys(ms, keyOf)
    ensures ms != [] ==> Keys(ms, keyOf) != []
  {
    if ms != [] {
      var front := ms[..|ms| - 1];
      KeysAreKeys(front, keyOf);
      assert forall m :: m in ms ==> m in front || m == ms[|ms| - 1];
    }
  }

  lemma {:induction false} HavingElements(ms: seq<MailSummary>, keyOf: MailSummary -> string, key: string)
    ensures forall m :: m in Having(ms, keyOf, key) ==> m in ms && keyOf(m) == key
    ensures forall m :: m in ms && keyOf(m) == key ==> m in Having(ms, keyOf, key)
  {
    if ms != [] {
      HavingElements(ms[..|ms| - 1], keyOf, key);
      assert forall m :: m in ms ==> m in ms[..|ms| - 1] || m == ms[|ms| - 1];
    }
  }

  /** The loop both `groupMessages` and `deduplicateCopies` begin with: a Map from keys to the
      messages that have them, which keeps its insertion order. */
  method FillMap(messages: seq<MailSummary>, keyOf: MailSummary -> string)
    returns (order: seq<string>, entries: map<string, seq<MailSummary>>)
    ensures order == Keys(messages, keyOf)
    ensures forall k :: k in order ==> k in entries
    ensures forall k :: k in entries ==> entries[k] == Having(messages, keyOf, k)
    ensures forall k :: k !in entries ==> Having(messages, keyOf, k) == []
  {
    order, entries := [], map[];
    for i := 0 to |messages|
      invariant order == Keys(messages[..i], keyOf)
      invariant forall k :: k in order <==> k in entries
      invariant forall k :: k in entries ==> entries[k] == Having(messages[..i], keyOf, k)
      invariant forall k :: k !in entries ==> Having(messages[..i], keyOf, k) == []
    {
      var key := keyOf(messages[i]);
      assert messages[..i + 1][..i] == messages[..i];
      var earlier := if key in entries then entries[key] else [];
      if key !in entries {
        order := order + [key];
      }
      entries := entries[key := earlier + [messages[i]]];
    }
    assert messages[..|messages|] == messages;
  }

  method DeduplicateCopiesOf(messages: seq<MailSummary>) returns (r: seq<MailSummary>)
    ensures r == DeduplicateCopies(messages)
  {
    KeysAreKeys(messages, CopyKey);
    var order, copies := FillMap(messages, CopyKey);
    r := [];
    for i := 0 to |order|
      invariant MergeAll(messages, order) == r + MergeAll(messages, order[i..])
    {
      assert order[i..][0] == order[i] && order[i..][1..] == order[i + 1..];
      r := r + [MergeCopies(copies[order[i]])];
    }
  }

  method GroupMessages(messages: seq<MailSummary>) returns (threads: seq<MailThread>)
    ensures threads == Group(messages)
  {
    hide Keys, Having, MakeThread, Distinct, ThreadKey, SortBy, ThreadBefore;
    KeysAreKeys(messages, ThreadKey);
    var order, grouped := FillMap(messages, ThreadKey);
    var made: seq<MailThread> := [];
    for i := 0 to |order|
      invariant MakeThreads(messages, order) == made + MakeThreads(messages, order[i..])
    {
      assert order[i..][0] == order[i] && order[i..][1..] == order[i + 1..];
      var thread := ThreadFrom(order[i], grouped[order[i]]);
      made := made + [thread];
    }
    assert made + [] == made;
    threads := SortBy(made, ThreadBefore);
  }

  method ThreadFrom(id: string, messages: seq<MailSummary>) returns (thread: MailThread)
    requires messages != []
    ensures thread == MakeThread(id, messages)
  {
    var copies := DeduplicateCopiesOf(messages);
    SortByElements(copies, MessageBefore);
    var deduplicated := SortBy(copies, MessageBefore);
    var sourceMessages := SortBy(messages, MessageBefore);
    var latest := deduplicated[|deduplicated| - 1];
    thread := MailThread(id, deduplicated, Some(sourceMessages), latest,
                         exists m :: m in sourceMessages && !m.isRead,
                         exists m :: m in sourceMessages && m.hasAttachments,
                         Unique(Senders(sourceMessages)), None, None, None);
  }

  // ---------------------------------------------------------------- what a grouping is

  ghost predicate DistinctIds(s: set<MailSummary>) {
    forall a, b :: a in s && b in s && a.id == b.id ==> a == b
  }

  /** `m` is the copy shown for its message: no copy of it in `ms` comes after it. */
  predicate Shown(m: MailSummary, ms: seq<MailSummary>) {
    m in ms && forall c :: c in ms && CopyKey(c) == CopyKey(m) ==> !MessageBefore(m, c)
  }

  /** `p` stands for the sender of `m`: its name, or its address when there is none. */
  predicate WrittenBy(m: MailSummary, p: string) {
    if m.fromName.Some? && m.fromName.value != "" then p == m.fromName.value else p == m.fromAddress
  }

  /** `t` is the conversation with key `id` among the messages of `s`. */
  ghost predicate IsThread(s: set<MailSummary>, id: string, t: MailThread) {
    && t.id == id && t.accountId == None && t.threadId == None && t.messageCount == None
    && t.sourceMessages.Some?
    && var source := t.sourceMessages.value;
    && Sorted(source, MessageBefore)
    && (forall m :: m in source <==> m in s && ThreadKey(m) == id)
    && Sorted(t.messages, MessageBefore)
    && (forall m :: m in t.messages <==> Shown(m, source))
    && t.messages != [] && t.latest == Last(t.messages)
    && (t.unread <==> exists m :: m in source && !m.isRead)
    && (t.hasAttachments <==> exists m :: m in source && m.hasAttachments)
    && Sorted(t.participants, StringBefore)
    && (forall p :: p in t.participants <==> exists m :: m in source && WrittenBy(m, p))
  }

  /** `threads` are the conversations of `s`, each once, in whatever order. */
  ghost predicate AreThreads(s: set<MailSummary>, threads: seq<MailThread>) {
    && (forall t :: t in threads ==> IsThread(s, t.id, t))
    && (forall m :: m in s ==> exists t :: t in threads && t.id == ThreadKey(m))
    && (forall i, j :: 0 <= i < j < |threads| ==> threads[i].id != threads[j].id)
  }

  ghost predicate IsGrouping(s: set<MailSummary>, threads: seq<MailThread>) {
    AreThreads(s, threads) && Sorted(threads, ThreadBefore)
  }

  // ---------------------------------------------------------------- the orders are strict

  lemma CompareMessagesLaws(a: MailSummary, b: MailSummary)
    ensures CompareMessages(a, b) < 0 <==> CompareMessages(b, a) > 0
    ensures CompareMessages(a, b) == 0 ==> a.id == b.id
    ensures CompareMessages(a, b) == 0 <==> CompareMessages(b, a) == 0
  {
    CompareStringsLaws(LowerMessageId(a), LowerMessageId(b));
    CompareStringsLaws(a.id, b.id);
  }

  lemma CompareMessagesTransitive(a: MailSummary, b: MailSummary, c: MailSummary)
    requires CompareMessages(a, b) <= 0 && CompareMessages(b, c) <= 0
    ensures CompareMessages(a, c) <= 0
    ensures CompareMessages(a, c) == 0 ==> CompareMessages(a, b) == 0 && CompareMessages(b, c) == 0
  {
    CompareStringsChain(LowerMessageId(a), LowerMessageId(b), LowerMessageId(c));
    CompareStringsChain(a.id, b.id, c.id);
  }

  lemma CompareStringsChain(a: string, b: string, c: string)
    ensures CompareStrings(a, b) <= 0 && CompareStrings(b, c) <= 0 ==>
              CompareStrings(a, c) <= 0
              && (CompareStrings(a, c) == 0 ==> CompareStrings(a, b) == 0 && CompareStrings(b, c) == 0)
  {
    CompareStringsLaws(a, b);
    CompareStringsLaws(b, c);
    CompareStringsLaws(a, c);
    if CompareStrings(a, b) < 0 && CompareStrings(b, c) < 0 {
      CompareStringsTransitive(a, b, c);
    }
  }

  lemma MessageBeforeIsOrder()
    ensures StrictOrder(MessageBefore)
  {
    forall a, b
      ensures !(MessageBefore(a, b) && MessageBefore(b, a))
    {
      CompareMessagesLaws(a, b);
    }
    forall a, b, c | MessageBefore(a, b) && MessageBefore(b, c)
      ensures MessageBefore(a, c)
    {
      CompareMessagesTransitive(a, b, c);
    }
  }

  lemma MessageBeforeIsTotal(ms: seq<MailSummary>, s: set<MailSummary>)
    requires DistinctIds(s) && forall m :: m in ms ==> m in s
    ensures TotalOn(MessageBefore, ms)
  {
    forall x, y | x in ms && y in ms && x != y
      ensures MessageBefore(x, y) || MessageBefore(y, x)
    {
      CompareMessagesLaws(x, y);
    }
  }

  lemma ThreadBeforeIsOrder()
    ensures StrictOrder(ThreadBefore)
  {
    forall a, b
      ensures !(ThreadBefore(a, b) && ThreadBefore(b, a))
    {
      CompareMessagesLaws(a.latest, b.latest);
      CompareStringsLaws(a.id, b.id);
    }
    forall a, b, c | ThreadBefore(a, b) && ThreadBefore(b, c)
      ensures ThreadBefore(a, c)
    {
      CompareMessagesTransitive(c.latest, b.latest, a.latest);
      CompareStringsChain(a.id, b.id, c.id);
      CompareMessagesLaws(a.latest, b.latest);
    }
  }

  lemma ThreadBeforeIsTotal(threads: seq<MailThread>)
    requires forall i, j :: 0 <= i < j < |threads| ==> threads[i].id != threads[j].id
    ensures TotalOn(ThreadBefore, threads)
  {
    forall x, y | x in threads && y in threads && x != y
      ensures ThreadBefore(x, y) || ThreadBefore(y, x)
    {
      CompareMessagesLaws(x.latest, y.latest);
      CompareStringsLaws(x.id, y.id);
    }
  }

  // ---------------------------------------------------------------- there is only one

  lemma ThreadIsUnique(s: set<MailSummary>, id: string, t: MailThread, u: MailThread)
    requires IsThread(s, id, t) && IsThread(s, id, u)
    ensures t == u
  {
    hide MessageBefore, StringBefore, Shown, WrittenBy;
    MessageBeforeIsOrder();
    SortedIsUnique(t.sourceMessages.value, u.sourceMessages.value, MessageBefore);
    SortedIsUnique(t.messages, u.messages, MessageBefore);
    StringBeforeIsOrder([]);
    SortedIsUnique(t.participants, u.participants, StringBefore);
  }

  lemma SameThreads(s: set<MailSummary>, a: seq<MailThread>, b: seq<MailThread>)
    requires AreThreads(s, a) && AreThreads(s, b)
    ensures SameElements(a, b)
  {
    ThreadsCovered(s, a, b);
    ThreadsCovered(s, b, a);
  }

  lemma ThreadsCovered(s: set<MailSummary>, a: seq<MailThread>, b: seq<MailThread>)
    requires AreThreads(s, a) && AreThreads(s, b)
    ensures forall t :: t in a ==> t in b
  {
    forall t | t in a
      ensures t in b
    {
      SomeMessage(s, t);
      var m :| m in s && ThreadKey(m) == t.id;
      var u :| u in b && u.id == ThreadKey(m);
      ThreadIsUnique(s, t.id, t, u);
    }
  }

  lemma SomeMessage(s: set<MailSummary>, t: MailThread)
    requires IsThread(s, t.id, t)
    ensures exists m :: m in s && ThreadKey(m) == t.id
  {
    assert t.messages[0] in t.messages;
    assert t.messages[0] in t.sourceMessages.value;
  }

  /** A set of messages has at most one grouping. */
  lemma GroupingIsUnique(s: set<MailSummary>, a: seq<MailThread>, b: seq<MailThread>)
    requires IsGrouping(s, a) && IsGrouping(s, b)
    ensures a == b
  {
    hide ThreadBefore, AreThreads;
    SameThreads(s, a, b);
    ThreadBeforeIsOrder();
    SortedIsUnique(a, b, ThreadBefore);
  }

  // ---------------------------------------------------------------- Group computes it

  predicate DistinctMessageIds(ms: seq<MailSummary>) {
    forall i, j :: 0 <= i < j < |ms| ==> ms[i].id != ms[j].id
  }

  ghost function Messages(ms: seq<MailSummary>): set<MailSummary> {
    set m | m in ms
  }

  lemma DistinctMessagesHaveDistinctIds(ms: seq<MailSummary>)
    requires DistinctMessageIds(ms)
    ensures DistinctIds(Messages(ms)) && Distinct(ms)
  {
  }

  lemma {:induction false} HavingDistinct(ms: seq<MailSummary>, keyOf: MailSummary -> string, key: string)
    requires DistinctMessageIds(ms)
    ensures DistinctMessageIds(Having(ms, keyOf, key))
  {
    if ms != [] {
      var front := ms[..|ms| - 1];
      HavingDistinct(front, keyOf, key);
      HavingElements(front, keyOf, key);
      var earlier := Having(front, keyOf, key);
      forall i | 0 <= i < |earlier|
        ensures earlier[i].id != Last(ms).id
      {
        assert earlier[i] in front;
      }
    }
  }

  lemma SortMessages(ms: seq<MailSummary>)
    requires DistinctMessageIds(ms)
    ensures Sorted(SortBy(ms, MessageBefore), MessageBefore)
    ensures SameElements(SortBy(ms, MessageBefore), ms)
    ensures |SortBy(ms, MessageBefore)| == |ms|
  {
    hide InsertBy, SortBy, MessageBefore, Sorted, StrictOrder, TotalOn;
    DistinctMessagesHaveDistinctIds(ms);
    MessageBeforeIsOrder();
    MessageBeforeIsTotal(ms, Messages(ms));
    SortByIsSorted(ms, MessageBefore);
    SortByElements(ms, MessageBefore);
  }

  lemma LastIsGreatest(ms: seq<MailSummary>)
    requires ms != [] && Sorted(ms, MessageBefore)
    ensures forall m :: m in ms ==> !MessageBefore(Last(ms), m)
  {
    hide MessageBefore, StrictOrder;
    MessageBeforeIsOrder();
    forall m | m in ms
      ensures !MessageBefore(Last(ms), m)
    {
      NotBeforeEarlier(ms, m);
    }
  }

  lemma NotBeforeEarlier(ms: seq<MailSummary>, m: MailSummary)
    requires m in ms && Sorted(ms, MessageBefore)
    ensures !MessageBefore(Last(ms), m)
  {
    hide MessageBefore;
    MessageBeforeIsOrder();
    var i :| 0 <= i < |ms| && ms[i] == m;
    if i < |ms| - 1 {
      assert MessageBefore(ms[i], Last(ms));
    }
  }

  /** The merged copy is the last of its copies.  When any of them has a date it has one too, and no
      copy a later one. */
  lemma MergeCopiesIsLast(copies: seq<MailSummary>)
    requires copies != [] && DistinctMessageIds(copies)
    ensures MergeCopies(copies) in copies
    ensures forall c :: c in copies ==> !MessageBefore(MergeCopies(copies), c)
    ensures var m := MergeCopies(copies);
            forall c :: c in copies && c.receivedAt.Some? ==>
                          m.receivedAt.Some? && c.receivedAt.value <= m.receivedAt.value
  {
    hide InsertBy, SortBy, CompareMessages;
    SortMessages(copies);
    SortByElements(copies, MessageBefore);
    LastIsGreatest(SortBy(copies, MessageBefore));
    var m := MergeCopies(copies);
    forall c | c in copies && c.receivedAt.Some?
      ensures m.receivedAt.Some? && c.receivedAt.value <= m.receivedAt.value
    {
      assert !MessageBefore(m, c);
      if m.receivedAt.None? || m.receivedAt.value < c.receivedAt.value {
        EarlierDateIsBefore(m, c);
        assert false;
      }
    }
  }

  lemma EarlierDateIsBefore(a: MailSummary, b: MailSummary)
    requires b.receivedAt.Some? && (a.receivedAt.Some? ==> a.receivedAt.value < b.receivedAt.value)
    ensures MessageBefore(a, b)
  {
  }

  lemma {:induction false} MergeAllAt(ms: seq<MailSummary>, keys: seq<string>, i: nat)
    requires forall k :: k in keys ==> Having(ms, CopyKey, k) != []
    requires i < |keys|
    ensures MergeAll(ms, keys)[i] == MergeCopies(Having(ms, CopyKey, keys[i]))
  {
    hide Having, MergeCopies, CopyKey;
    if i > 0 {
      MergeAllAt(ms, keys[1..], i - 1);
    }
  }

  /** The copy kept for a key is the one shown. */
  lemma MergedIsShown(ms: seq<MailSummary>, key: string)
    requires DistinctMessageIds(ms) && Having(ms, CopyKey, key) != []
    ensures var m := MergeCopies(Having(ms, CopyKey, key)); CopyKey(m) == key && Shown(m, ms)
  {
    hide Having, MergeCopies, CopyKey, MessageBefore;
    HavingDistinct(ms, CopyKey, key);
    HavingElements(ms, CopyKey, key);
    MergeCopiesIsLast(Having(ms, CopyKey, key));
  }

  lemma ShownIsUnique(ms: seq<MailSummary>, a: MailSummary, b: MailSummary)
    requires DistinctMessageIds(ms) && Shown(a, ms) && Shown(b, ms) && CopyKey(a) == CopyKey(b)
    ensures a == b
  {
    hide CopyKey;
    DistinctMessagesHaveDistinctIds(ms);
    CompareMessagesLaws(a, b);
    CompareMessagesLaws(b, a);
    assert a in Messages(ms) && b in Messages(ms);
  }

  lemma DeduplicatedAreShown(ms: seq<MailSummary>)
    requires DistinctMessageIds(ms)
    ensures forall m :: m in DeduplicateCopies(ms) <==> Shown(m, ms)
    ensures DistinctMessageIds(DeduplicateCopies(ms))
  {
    hide Having, MergeCopies, MergeAll, CopyKey, MessageBefore, Keys, Shown, DistinctMessageIds;
    KeysAreKeys(ms, CopyKey);
    var keys, r := Keys(ms, CopyKey), DeduplicateCopies(ms);
    forall i | 0 <= i < |r|
      ensures CopyKey(r[i]) == keys[i] && Shown(r[i], ms)
    {
      MergeAllAt(ms, keys, i);
      MergedIsShown(ms, keys[i]);
    }
    forall m | Shown(m, ms)
      ensures m in r
    {
      assert m in ms by { ShownIsPresent(m, ms); }
      var i :| 0 <= i < |keys| && keys[i] == CopyKey(m);
      ShownIsUnique(ms, m, r[i]);
    }
    ShownKeysDiffer(ms, r, keys);
  }

  lemma ShownIsPresent(m: MailSummary, ms: seq<MailSummary>)
    requires Shown(m, ms)
    ensures m in ms
  {
  }

  lemma ShownKeysDiffer(ms: seq<MailSummary>, r: seq<MailSummary>, keys: seq<string>)
    requires DistinctMessageIds(ms) && |r| == |keys| && Distinct(keys)
    requires forall i :: 0 <= i < |r| ==> CopyKey(r[i]) == keys[i] && Shown(r[i], ms)
    ensures DistinctMessageIds(r)
  {
    hide CopyKey, MessageBefore;
    DistinctMessagesHaveDistinctIds(ms);
    forall i, j | 0 <= i < j < |r|
      ensures r[i].id != r[j].id
    {
      assert r[i] in Messages(ms) && r[j] in Messages(ms);
      assert keys[i] != keys[j];
    }
  }

  lemma {:induction false} DistinctValuesElements(values: seq<string>)
    ensures Distinct(DistinctValues(values)) && SameElements(DistinctValues(values), values)
  {
    if values != [] {
      var front := values[..|values| - 1];
      DistinctValuesElements(front);
      assert forall v :: v in values <==> v in front || v == values[|values| - 1];
    }
  }

  lemma UniqueIsSorted(values: seq<string>)
    ensures Sorted(Unique(values), StringBefore) && SameElements(Unique(values), values)
  {
    hide DistinctValues, SortBy, StringBefore, StrictOrder;
    DistinctValuesElements(values);
    StringBeforeIsOrder(DistinctValues(values));
    SortByIsSorted(DistinctValues(values), StringBefore);
    SortByElements(DistinctValues(values), StringBefore);
  }

  lemma ParticipantsAreSenders(source: seq<MailSummary>)
    ensures Sorted(Unique(Senders(source)), StringBefore)
    ensures forall p :: p in Unique(Senders(source)) <==> exists m :: m in source && WrittenBy(m, p)
  {
    hide Unique, StringBefore;
    var senders := Senders(source);
    UniqueIsSorted(senders);
    forall p | p in senders
      ensures exists m :: m in source && WrittenBy(m, p)
    {
      var i :| 0 <= i < |senders| && senders[i] == p;
      assert source[i] in source && WrittenBy(source[i], p);
    }
    forall m, p | m in source && WrittenBy(m, p)
      ensures p in senders
    {
      var i :| 0 <= i < |source| && source[i] == m;
      assert senders[i] == p;
    }
  }

  lemma SameShown(a: seq<MailSummary>, b: seq<MailSummary>)
    requires SameElements(a, b)
    ensures forall m :: Shown(m, a) <==> Shown(m, b)
  {
    hide CopyKey, MessageBefore;
  }

  lemma MakeThreadIsThread(s: set<MailSummary>, id: string, ms: seq<MailSummary>)
    requires ms != [] && DistinctMessageIds(ms)
    requires forall m :: m in ms <==> m in s && ThreadKey(m) == id
    ensures IsThread(s, id, MakeThread(id, ms))
  {
    hide SortBy, DeduplicateCopies, MessageBefore, Shown, Unique, StringBefore, Senders, Sorted, ThreadKey,
      WrittenBy, DistinctMessageIds;
    var copies := DeduplicateCopies(ms);
    DeduplicatedAreShown(ms);
    SortMessages(copies);
    SortMessages(ms);
    SameShown(ms, SortBy(ms, MessageBefore));
    ParticipantsAreSenders(SortBy(ms, MessageBefore));
  }

  lemma {:induction false} MakeThreadsAt(ms: seq<MailSummary>, keys: seq<string>)
    requires forall k :: k in keys ==> Having(ms, ThreadKey, k) != []
    ensures |MakeThreads(ms, keys)| == |keys|
    ensures forall i :: 0 <= i < |keys| ==>
                          MakeThreads(ms, keys)[i] == MakeThread(keys[i], Having(ms, ThreadKey, keys[i]))
  {
    hide Having, MakeThread, ThreadKey;
    if keys != [] {
      MakeThreadsAt(ms, keys[1..]);
    }
  }

  lemma MadeThreadIsThread(ms: seq<MailSummary>, key: string)
    requires DistinctMessageIds(ms) && Having(ms, ThreadKey, key) != []
    ensures IsThread(Messages(ms), key, MakeThread(key, Having(ms, ThreadKey, key)))
  {
    hide Having, IsThread, MakeThread, ThreadKey, DistinctMessageIds;
    HavingDistinct(ms, ThreadKey, key);
    HavingElements(ms, ThreadKey, key);
    MakeThreadIsThread(Messages(ms), key, Having(ms, ThreadKey, key));
  }

  lemma ThreadHasItsId(s: set<MailSummary>, id: string, t: MailThread)
    requires IsThread(s, id, t)
    ensures t.id == id
  {
  }

  lemma MadeAreThreads(ms: seq<MailSummary>, made: seq<MailThread>)
    requires DistinctMessageIds(ms)
    requires forall k :: k in Keys(ms, ThreadKey) ==> Having(ms, ThreadKey, k) != []
    requires made == MakeThreads(ms, Keys(ms, ThreadKey))
    ensures AreThreads(Messages(ms), made)
  {
    hide Having, IsThread, MakeThread, MakeThreads, ThreadKey, DistinctMessageIds, Keys;
    var keys := Keys(ms, ThreadKey);
    KeysAreKeys(ms, ThreadKey);
    MakeThreadsAt(ms, keys);
    forall i | 0 <= i < |made|
      ensures made[i].id == keys[i] && IsThread(Messages(ms), made[i].id, made[i])
    {
      MadeThreadIsThread(ms, keys[i]);
      ThreadHasItsId(Messages(ms), keys[i], made[i]);
    }
    forall m | m in Messages(ms)
      ensures exists t :: t in made && t.id == ThreadKey(m)
    {
      var i :| 0 <= i < |keys| && keys[i] == ThreadKey(m);
      assert made[i] in made;
    }
  }

  /** Sorting the threads of a set of messages makes them its grouping. */
  lemma SortedThreadsAreGrouping(s: set<MailSummary>, made: seq<MailThread>)
    requires AreThreads(s, made)
    ensures IsGrouping(s, SortBy(made, ThreadBefore))
  {
    hide IsThread, ThreadBefore, SortBy, StrictOrder, ThreadKey;
    ThreadBeforeIsOrder();
    ThreadBeforeIsTotal(made);
    SortByIsSorted(made, ThreadBefore);
    SortByElements(made, ThreadBefore);
    var sorted := SortBy(made, ThreadBefore);
    forall i, j | 0 <= i < j < |sorted|
      ensures sorted[i].id != sorted[j].id
    {
      DifferentThreads(made, sorted[i], sorted[j]);
    }
  }

  lemma DifferentThreads(made: seq<MailThread>, a: MailThread, b: MailThread)
    requires forall i, j :: 0 <= i < j < |made| ==> made[i].id != made[j].id
    requires a in made && b in made && ThreadBefore(a, b)
    ensures a.id != b.id
  {
    CompareMessagesLaws(a.latest, b.latest);
    CompareStringsLaws(a.id, b.id);
  }

  /** `groupMessages` computes the grouping of its messages. */
  lemma GroupIsGrouping(ms: seq<MailSummary>)
    requires DistinctMessageIds(ms)
    ensures IsGrouping(Messages(ms), Group(ms))
  {
    hide IsThread, AreThreads, ThreadBefore, SortBy, MakeThreads, Having, Keys, ThreadKey, DistinctMessageIds;
    KeysAreKeys(ms, ThreadKey);
    var made := MakeThreads(ms, Keys(ms, ThreadKey));
    MadeAreThreads(ms, made);
    SortedThreadsAreGrouping(Messages(ms), made);
  }

  /** Messages with distinct ids are grouped alike in whatever order they arrive. */
  lemma GroupIgnoresOrder(a: seq<MailSummary>, b: seq<MailSummary>)
    requires DistinctMessageIds(a) && multiset(a) == multiset(b)
    ensures Group(a) == Group(b)
  {
    hide IsGrouping, Group;
    PermutationKeepsIds(a, b);
    GroupIsGrouping(a);
    GroupIsGrouping(b);
    GroupingIsUnique(Messages(a), Group(a), Group(b));
  }

  lemma PermutationKeepsIds(a: seq<MailSummary>, b: seq<MailSummary>)
    requires DistinctMessageIds(a) && multiset(a) == multiset(b)
    ensures DistinctMessageIds(b) && Messages(a) == Messages(b)
  {
    forall m
      ensures m in a <==> m in b
    {
      assert m in a <==> m in multiset(a);
      assert m in b <==> m in multiset(b);
    }
    forall i, j | 0 <= i < j < |b|
      ensures b[i].id != b[j].id
    {
      assert b[i] in a && b[j] in a;
      if b[i].id == b[j].id {
        TwiceInMultiset(b, i, j);
        OnceInMultiset(a, b[i]);
      }
    }
  }

  lemma TwiceInMultiset(ms: seq<MailSummary>, i: nat, j: nat)
    requires i < j < |ms| && ms[i] == ms[j]
    ensures multiset(ms)[ms[i]] >= 2
  {
    assert ms == ms[..i] + [ms[i]] + ms[i + 1..j] + [ms[j]] + ms[j + 1..];
  }

  lemma {:induction false} OnceInMultiset(ms: seq<MailSummary>, m: MailSummary)
    requires DistinctMessageIds(ms)
    ensures multiset(ms)[m] <= 1
  {
    if ms != [] {
      OnceInMultiset(ms[1..], m);
      assert ms == [ms[0]] + ms[1..];
    }
  }

  // ---------------------------------------------------------------- nothing lost, nothing doubled

  /** `threads.flatMap(concreteThreadMessages)`. */
  function ConcreteMessages(threads: seq<MailThread>): seq<MailSummary> {
    if threads == [] then [] else ConcreteThreadMessages(threads[0]) + ConcreteMessages(threads[1..])
  }

  lemma {:induction false} HavingCount(ms: seq<MailSummary>, keyOf: MailSummary -> string, key: string,
                                       m: MailSummary)
    ensures multiset(Having(ms, keyOf, key))[m] == if keyOf(m) == key then multiset(ms)[m] else 0
  {
    if ms != [] {
      HavingCount(ms[..|ms| - 1], keyOf, key, m);
      assert ms == ms[..|ms| - 1] + [ms[|ms| - 1]];
    }
  }

  lemma {:induction false} InsertByCount<T>(x: T, s: seq<T>, before: (T, T) -> bool)
    ensures multiset(InsertBy(x, s, before)) == multiset(s) + multiset{x}
  {
    if s != [] && before(s[0], x) {
      InsertByCount(x, s[1..], before);
      assert s == [s[0]] + s[1..];
    }
  }

  lemma {:induction false} SortByCount<T>(s: seq<T>, before: (T, T) -> bool)
    ensures multiset(SortBy(s, before)) == multiset(s)
  {
    if s != [] {
      SortByCount(s[1..], before);
      InsertByCount(s[0], SortBy(s[1..], before), before);
      assert s == [s[0]] + s[1..];
    }
  }

  lemma {:induction false} InsertedMessages(t: MailThread, threads: seq<MailThread>)
    ensures multiset(ConcreteMessages(InsertBy(t, threads, ThreadBefore)))
         == multiset(ConcreteThreadMessages(t)) + multiset(ConcreteMessages(threads))
  {
    hide ThreadBefore, ConcreteThreadMessages;
    if threads != [] && ThreadBefore(threads[0], t) {
      InsertedMessages(t, threads[1..]);
      var rest := InsertBy(t, threads[1..], ThreadBefore);
      assert ([threads[0]] + rest)[1..] == rest;
    } else {
      assert ([t] + threads)[1..] == threads;
    }
  }

  lemma {:induction false} SortedMessages(threads: seq<MailThread>)
    ensures multiset(ConcreteMessages(SortBy(threads, ThreadBefore))) == multiset(ConcreteMessages(threads))
  {
    hide ThreadBefore, ConcreteThreadMessages, InsertBy;
    if threads != [] {
      SortedMessages(threads[1..]);
      InsertedMessages(threads[0], SortBy(threads[1..], ThreadBefore));
    }
  }

  lemma MadeMessages(id: string, ms: seq<MailSummary>)
    requires ms != []
    ensures multiset(ConcreteThreadMessages(MakeThread(id, ms))) == multiset(ms)
  {
    hide SortBy, DeduplicateCopies, MessageBefore, Unique;
    SortByCount(ms, MessageBefore);
  }

  lemma {:induction false} MadeMessageCount(ms: seq<MailSummary>, keys: seq<string>, m: MailSummary)
    requires Distinct(keys) && forall k :: k in keys ==> Having(ms, ThreadKey, k) != []
    ensures multiset(ConcreteMessages(MakeThreads(ms, keys)))[m]
         == if ThreadKey(m) in keys then multiset(ms)[m] else 0
  {
    hide Having, MakeThread, ThreadKey;
    if keys != [] {
      MadeMessageCount(ms, keys[1..], m);
      HavingCount(ms, ThreadKey, keys[0], m);
      MadeMessages(keys[0], Having(ms, ThreadKey, keys[0]));
      assert MakeThreads(ms, keys)[1..] == MakeThreads(ms, keys[1..]);
      assert ThreadKey(m) in keys <==> ThreadKey(m) == keys[0] || ThreadKey(m) in keys[1..];
    }
  }

  /** The conversations together hold the messages that were grouped, each as often as it was
      given: for every list, with or without repeated ids. */
  lemma GroupKeepsMessages(ms: seq<MailSummary>)
    ensures multiset(ConcreteMessages(Group(ms))) == multiset(ms)
  {
    hide Having, Keys, MakeThreads, ConcreteMessages, SortBy, ThreadBefore, ThreadKey;
    KeysAreKeys(ms, ThreadKey);
    var keys := Keys(ms, ThreadKey);
    SortedMessages(MakeThreads(ms, keys));
    forall m
      ensures multiset(ConcreteMessages(MakeThreads(ms, keys)))[m] == multiset(ms)[m]
    {
      MadeMessageCount(ms, keys, m);
      if ThreadKey(m) !in keys {
        assert m !in ms && m !in multiset(ms);
      }
    }
  }
}
