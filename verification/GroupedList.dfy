/**
 The conversation list spelled out on the fields of its messages.

 Nothing here uses the keys, comparators and helpers of `Group`: a conversation's key, which messages
 are copies of each other, the order of messages and conversations and the computed fields are
 written out, and every list `groupMessages` returns meets them.
 */
module GroupedList {
  import opened AsciiText
  import opened Options
  import opened Ordering
  import opened Threads

  predicate IsKeyOf(m: MailSummary, id: string) {
    if m.threadId != "" then id == m.accountId + (":" + m.threadId) else id == m.accountId + (":" + m.id)
  }

  predicate HasMessageId(m: MailSummary) {
    m.messageId.Some? && m.messageId.value != ""
  }

  /** Two copies of one message: equal message ids but for case, or equal ids where there is none.
      A message without one is a copy of a message whose id, in small letters, is its own id. */
  predicate CopyOf(a: MailSummary, b: MailSummary) {
    if HasMessageId(a) && HasMessageId(b) then SameButForCase(a.messageId.value, b.messageId.value)
    else if HasMessageId(a) then SameButForCase(a.messageId.value, b.id) && NoCapitals(b.id)
    else if HasMessageId(b) then SameButForCase(b.messageId.value, a.id) && NoCapitals(a.id)
    else a.id == b.id
  }

  predicate SmallSpelling(m: MailSummary, text: string) {
    if m.messageId.Some? then SameButForCase(m.messageId.value, text) && NoCapitals(text) else text == ""
  }

  predicate EarlierDate(a: Option<int>, b: Option<int>) {
    b.Some? && (a.None? || a.value < b.value)
  }

  ghost predicate SmallerIds(a: MailSummary, b: MailSummary, x: string, y: string) {
    SmallSpelling(a, x) && SmallSpelling(b, y) && (TextBefore(x, y) || (x == y && TextBefore(a.id, b.id)))
  }

  /** By date, with invalid dates first, then by message id in small letters, then by id. */
  ghost predicate Earlier(a: MailSummary, b: MailSummary) {
    EarlierDate(a.receivedAt, b.receivedAt)
    || (a.receivedAt == b.receivedAt && exists x, y :: SmallerIds(a, b, x, y))
  }

  // ---------------------------------------------------------------- keys, copies and orders

  lemma ThreadKeyIff(m: MailSummary, id: string)
    ensures ThreadKey(m) == id <==> IsKeyOf(m, id)
  {
  }

  /** Messages are merged exactly when they are copies of each other. */
  lemma CopyKeysAgreeIff(a: MailSummary, b: MailSummary)
    ensures CopyKey(a) == CopyKey(b) <==> CopyOf(a, b)
  {
    if HasMessageId(a) && HasMessageId(b) {
      LowerIff(a.messageId.value, b.messageId.value);
    } else if HasMessageId(a) {
      LowerIsSmallSpelling(a.messageId.value, b.id);
    } else if HasMessageId(b) {
      LowerIsSmallSpelling(b.messageId.value, a.id);
    }
  }

  lemma SmallSpellingIff(m: MailSummary, text: string)
    ensures SmallSpelling(m, text) <==> text == LowerMessageId(m)
  {
    if m.messageId.Some? {
      LowerIsSmallSpelling(m.messageId.value, text);
    }
  }

  lemma SmallerIdsIff(a: MailSummary, b: MailSummary)
    ensures (exists x, y :: SmallerIds(a, b, x, y)) <==>
              SmallerIds(a, b, LowerMessageId(a), LowerMessageId(b))
  {
    hide SmallSpelling;
    forall x, y | SmallerIds(a, b, x, y)
      ensures x == LowerMessageId(a) && y == LowerMessageId(b)
    {
      SmallSpellingIff(a, x);
      SmallSpellingIff(b, y);
    }
  }

  /** The comparator of `groupMessages` is that order. */
  lemma MessageBeforeIff(a: MailSummary, b: MailSummary)
    ensures MessageBefore(a, b) <==> Earlier(a, b)
  {
    hide SmallSpelling, TextBefore;
    SmallerIdsIff(a, b);
    SmallSpellingIff(a, LowerMessageId(a));
    SmallSpellingIff(b, LowerMessageId(b));
    CompareStringsIff(LowerMessageId(a), LowerMessageId(b));
    CompareStringsLaws(LowerMessageId(a), LowerMessageId(b));
    CompareStringsIff(a.id, b.id);
  }

  /** Conversations: the one with the later latest message first; ties by id. */
  lemma ThreadBeforeIff(a: MailThread, b: MailThread)
    ensures ThreadBefore(a, b) <==>
              Earlier(b.latest, a.latest) || (!Earlier(a.latest, b.latest) && TextBefore(a.id, b.id))
  {
    hide Earlier, CompareMessages, TextBefore;
    MessageBeforeIff(b.latest, a.latest);
    MessageBeforeIff(a.latest, b.latest);
    CompareMessagesLaws(a.latest, b.latest);
    CompareStringsIff(a.id, b.id);
  }

  // ---------------------------------------------------------------- the fields

  /** The computed fields of the conversation `t` of the list `ms`. */
  ghost predicate FieldsAreRight(ms: seq<MailSummary>, t: MailThread) {
    && t.sourceMessages.Some?
    && var source := t.sourceMessages.value;
    && (forall m :: m in source <==> m in ms && IsKeyOf(m, t.id))
    && (t.unread <==> exists m :: m in source && !m.isRead)
    && (t.hasAttachments <==> exists m :: m in source && m.hasAttachments)
    && (forall p :: p in t.participants <==> exists m :: m in source && WrittenBy(m, p))
    && (forall i, j :: 0 <= i < j < |t.participants| ==> TextBefore(t.participants[i], t.participants[j]))
    && t.messages != [] && t.latest == t.messages[|t.messages| - 1]
  }

  lemma SortedTexts(texts: seq<string>)
    requires Sorted(texts, StringBefore)
    ensures forall i, j :: 0 <= i < j < |texts| ==> TextBefore(texts[i], texts[j])
  {
    hide TextBefore;
    forall i, j | 0 <= i < j < |texts|
      ensures TextBefore(texts[i], texts[j])
    {
      assert StringBefore(texts[i], texts[j]);
      CompareStringsIff(texts[i], texts[j]);
    }
  }

  lemma MadeFields(ms: seq<MailSummary>, key: string)
    requires Having(ms, ThreadKey, key) != []
    ensures FieldsAreRight(ms, MakeThread(key, Having(ms, ThreadKey, key)))
  {
    hide Having, ThreadKey, SortBy, DeduplicateCopies, MessageBefore, Unique, Senders, WrittenBy, StringBefore,
      TextBefore, IsKeyOf;
    var own := Having(ms, ThreadKey, key);
    HavingElements(ms, ThreadKey, key);
    SortByElements(own, MessageBefore);
    SortByElements(DeduplicateCopies(own), MessageBefore);
    var source := SortBy(own, MessageBefore);
    ParticipantsAreSenders(source);
    SortedTexts(Unique(Senders(source)));
    forall m
      ensures m in source <==> m in ms && IsKeyOf(m, key)
    {
      ThreadKeyIff(m, key);
    }
  }

  /** For every list of messages, repeated ids or not: a conversation of its grouping holds the messages with
      its key, is unread when one of them is unread, has attachments when one of them has, and its
      participants are the names, or where missing the addresses, of their senders, each once and in order. */
  lemma FieldsOfConversations(ms: seq<MailSummary>)
    ensures forall t :: t in Group(ms) ==> FieldsAreRight(ms, t)
  {
    hide Having, ThreadKey, MakeThread, FieldsAreRight, Keys, MakeThreads, SortBy, ThreadBefore;
    KeysAreKeys(ms, ThreadKey);
    var keys := Keys(ms, ThreadKey);
    var made := MakeThreads(ms, keys);
    MakeThreadsAt(ms, keys);
    SortByElements(made, ThreadBefore);
    forall t | t in made
      ensures FieldsAreRight(ms, t)
    {
      var i :| 0 <= i < |made| && made[i] == t;
      MadeFields(ms, keys[i]);
    }
  }

  // ---------------------------------------------------------------- the order and the copies

  ghost predicate InOrder(ms: seq<MailSummary>) {
    forall i, j :: 0 <= i < j < |ms| ==> Earlier(ms[i], ms[j])
  }

  lemma SortedIsInOrder(ms: seq<MailSummary>)
    requires Sorted(ms, MessageBefore)
    ensures InOrder(ms)
  {
    hide MessageBefore, Earlier;
    forall i, j | 0 <= i < j < |ms|
      ensures Earlier(ms[i], ms[j])
    {
      assert MessageBefore(ms[i], ms[j]);
      MessageBeforeIff(ms[i], ms[j]);
    }
  }

  /** `m` is shown for its message: none of its copies in `source` is later. */
  ghost predicate LatestCopy(m: MailSummary, source: seq<MailSummary>) {
    m in source && forall c :: c in source && CopyOf(m, c) ==> !Earlier(m, c)
  }

  lemma ShownIff(m: MailSummary, source: seq<MailSummary>)
    ensures Shown(m, source) <==> LatestCopy(m, source)
  {
    hide MessageBefore, Earlier, CopyOf, CopyKey;
    forall c | c in source
      ensures CopyKey(c) == CopyKey(m) <==> CopyOf(m, c)
      ensures MessageBefore(m, c) <==> Earlier(m, c)
    {
      CopyKeysAgreeIff(m, c);
      MessageBeforeIff(m, c);
    }
  }

  ghost predicate CopiesAreMerged(t: MailThread) {
    && t.sourceMessages.Some?
    && InOrder(t.sourceMessages.value) && InOrder(t.messages)
    && forall m :: m in t.messages <==> LatestCopy(m, t.sourceMessages.value)
  }

  lemma ThreadMergesCopies(s: set<MailSummary>, t: MailThread)
    requires IsThread(s, t.id, t)
    ensures CopiesAreMerged(t)
  {
    hide MessageBefore, Earlier, ThreadKey, InOrder, Shown, LatestCopy, WrittenBy, StringBefore;
    SortedIsInOrder(t.sourceMessages.value);
    SortedIsInOrder(t.messages);
    forall m
      ensures m in t.messages <==> LatestCopy(m, t.sourceMessages.value)
    {
      ShownIff(m, t.sourceMessages.value);
    }
  }

  /** Messages with distinct ids: every message is in the one conversation with its key; the messages of a
      conversation are in order and shown once, by their latest copy; and the conversations are listed by their
      latest messages, newest first. */
  lemma OrderOfConversations(ms: seq<MailSummary>)
    requires DistinctMessageIds(ms)
    ensures var threads := Group(ms);
            && (forall m :: m in ms ==> exists t :: t in threads && IsKeyOf(m, t.id))
            && (forall t :: t in threads ==> CopiesAreMerged(t))
            && (forall i, j :: 0 <= i < j < |threads| ==>
                                 threads[i].id != threads[j].id && Earlier(threads[j].latest, threads[i].latest))
  {
    hide Group, IsThread, ThreadBefore, ThreadKey, IsKeyOf, CopiesAreMerged, Earlier, DistinctMessageIds;
    GroupIsGrouping(ms);
    var threads, s := Group(ms), Messages(ms);
    assert AreThreads(s, threads);
    forall m | m in ms
      ensures exists t :: t in threads && IsKeyOf(m, t.id)
    {
      assert m in s;
      var t :| t in threads && t.id == ThreadKey(m);
      ThreadKeyIff(m, t.id);
    }
    forall t | t in threads
      ensures CopiesAreMerged(t)
    {
      ThreadMergesCopies(s, t);
    }
    forall i, j | 0 <= i < j < |threads|
      ensures Earlier(threads[j].latest, threads[i].latest)
    {
      DistinctMessagesHaveDistinctIds(ms);
      LatestDiffers(s, threads[i], threads[j]);
    }
  }

  lemma LatestDiffers(s: set<MailSummary>, a: MailThread, b: MailThread)
    requires DistinctIds(s) && IsThread(s, a.id, a) && IsThread(s, b.id, b) && a.id != b.id && ThreadBefore(a, b)
    ensures Earlier(b.latest, a.latest)
  {
    LatestIsHeld(s, a);
    LatestIsHeld(s, b);
    hide IsThread, Earlier, CompareMessages, ThreadKey;
    CompareMessagesLaws(b.latest, a.latest);
    MessageBeforeIff(b.latest, a.latest);
  }

  lemma LatestIsHeld(s: set<MailSummary>, t: MailThread)
    requires IsThread(s, t.id, t)
    ensures t.latest in s && ThreadKey(t.latest) == t.id
  {
    assert t.latest in t.messages;
  }
}
