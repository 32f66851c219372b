/**
 What deletion and sender clean-up take out of a conversation list, field by field.

 Nothing in the theorems uses the predicates the code removes by: a message is held afterwards
 exactly when it was held before and differs from the deleted copy in account, mailbox or UID, or, for
 clean-up, in account or in its sender's address beyond case and white space around it.
 */
module RemovedMessages {
  import opened AsciiText
  import opened GroupedList
  import opened JavaScriptText
  import opened Options
  import opened Ordering
  import opened Threads
  import opened ThreadActions

  /** `m` is one of the source messages of `t`. */
  predicate HasMessage(t: MailThread, m: MailSummary) {
    if t.sourceMessages.Some? then m in t.sourceMessages.value else m in t.messages
  }

  predicate Holds(threads: seq<MailThread>, m: MailSummary) {
    exists t :: t in threads && HasMessage(t, m)
  }

  /** A conversation: all its messages have one key. */
  ghost predicate OneConversation(t: MailThread) {
    exists id :: AllHaveKey(t, id)
  }

  ghost predicate AllHaveKey(t: MailThread, id: string) {
    forall m :: HasMessage(t, m) ==> IsKeyOf(m, id)
  }

  lemma {:induction false} HoldsIffHeld(threads: seq<MailThread>)
    ensures forall m :: Holds(threads, m) <==> m in ConcreteMessages(threads)
  {
    if threads != [] {
      HoldsIffHeld(threads[1..]);
      forall m
        ensures Holds(threads, m) <==> HasMessage(threads[0], m) || Holds(threads[1..], m)
      {
        HoldsHeadOrTail(threads, m);
      }
    }
  }

  lemma HoldsHeadOrTail(threads: seq<MailThread>, m: MailSummary)
    requires threads != []
    ensures Holds(threads, m) <==> HasMessage(threads[0], m) || Holds(threads[1..], m)
  {
    hide HasMessage;
    assert threads[0] in threads;
    if t :| t in threads && HasMessage(t, m) {
      assert t == threads[0] || t in threads[1..];
    }
    if t :| t in threads[1..] && HasMessage(t, m) {
      assert t in threads;
    }
  }

  // ---------------------------------------------------------------- deletion

  lemma {:induction false} OneKeyOnly(ms: seq<MailSummary>, id: string)
    requires ms != [] && forall m :: m in ms ==> ThreadKey(m) == id
    ensures Keys(ms, ThreadKey) == [id]
  {
    hide ThreadKey;
    var front := ms[..|ms| - 1];
    assert ms[|ms| - 1] in ms;
    if front != [] {
      OneKeyOnly(front, id);
    }
  }

  /** Messages of one conversation stay together. */
  lemma OneGroup(ms: seq<MailSummary>, id: string)
    requires ms != [] && forall m :: m in ms ==> ThreadKey(m) == id
    ensures |Group(ms)| == 1
    ensures forall m :: m in ConcreteThreadMessages(Group(ms)[0]) <==> m in ms
  {
    hide Keys, Having, ThreadKey, MakeThread, ThreadBefore, ConcreteThreadMessages;
    OneKeyOnly(ms, id);
    KeysAreKeys(ms, ThreadKey);
    MakeThreadsAt(ms, [id]);
    SortByElements(MakeThreads(ms, [id]), ThreadBefore);
    GroupKeepsMessages(ms);
    var group := Group(ms);
    assert group[1..] == [];
    assert ConcreteMessages(group) == ConcreteThreadMessages(group[0]) + [];
    forall m
      ensures m in ConcreteThreadMessages(group[0]) <==> m in ms
    {
      assert m in multiset(ConcreteMessages(group)) <==> m in multiset(ms);
    }
  }

  /** The deleted copy and `m` are at different places. */
  predicate Elsewhere(m: MailSummary, target: MailSummary) {
    m.accountId != target.accountId || m.mailbox != target.mailbox || m.uid != target.uid
  }

  lemma DeletionFromOne(t: MailThread, target: MailSummary, m: MailSummary)
    requires OneConversation(t)
    ensures var r := RemoveConcreteMessage(t, target);
            (r.Some? && HasMessage(r.value, m)) <==> HasMessage(t, m) && Elsewhere(m, target)
  {
    hide Group, Filter, IsKeyOf, ThreadKey;
    var source := ConcreteThreadMessages(t);
    var remaining := Filter(source, OtherCopies(target));
    FilterElements(source, OtherCopies(target));
    if |remaining| != |source| && remaining != [] {
      var id :| AllHaveKey(t, id);
      forall x | x in remaining
        ensures ThreadKey(x) == id
      {
        assert HasMessage(t, x);
        ThreadKeyIff(x, id);
      }
      OneGroup(remaining, id);
      OneThreadLeft(t, Group(remaining)[0], m);
    }
  }

  lemma OneThreadLeft(t: MailThread, derived: MailThread, m: MailSummary)
    ensures HasMessage(WithDerivedFields(t, derived), m) <==> m in ConcreteThreadMessages(derived)
  {
  }

  /** Deleting a message copy takes the messages at its account, mailbox and UID out of the list, and
      no other message, wherever it stands. */
  lemma {:induction false} DeletionTakesOneCopy(threads: seq<MailThread>, target: MailSummary, m: MailSummary)
    requires forall t :: t in threads ==> OneConversation(t)
    ensures Holds(RemoveConcreteMessageFromThreads(threads, target), m) <==>
              Holds(threads, m)
              && (m.accountId != target.accountId || m.mailbox != target.mailbox || m.uid != target.uid)
  {
    hide HasMessage, OneConversation, RemoveConcreteMessage, Holds;
    if threads == [] {
      NothingHeld(m);
    } else {
      assert threads[0] in threads;
      DeletionTakesOneCopy(threads[1..], target, m);
      DeletionFromOne(threads[0], target, m);
      HoldsHeadOrTail(threads, m);
      var first := RemoveConcreteMessage(threads[0], target);
      var rest := RemoveConcreteMessageFromThreads(threads[1..], target);
      if first.Some? {
        HoldsHeadOrTail([first.value] + rest, m);
        assert ([first.value] + rest)[1..] == rest;
      } else {
        assert [] + rest == rest;
      }
    }
  }

  lemma NothingHeld(m: MailSummary)
    ensures !Holds([], m)
  {
  }

  /** For the conversations of `groupMessages`, in the terms of its messages. */
  lemma GroupedDeletionTakesOneCopy(ms: seq<MailSummary>, target: MailSummary, m: MailSummary)
    ensures Holds(RemoveConcreteMessageFromThreads(Group(ms), target), m) <==>
              m in ms && (m.accountId != target.accountId || m.mailbox != target.mailbox || m.uid != target.uid)
  {
    hide Group, HasMessage, Holds, RemoveConcreteMessageFromThreads, FieldsAreRight;
    FieldsOfConversations(ms);
    forall t | t in Group(ms)
      ensures OneConversation(t)
    {
      GroupedIsOneConversation(ms, t);
    }
    DeletionTakesOneCopy(Group(ms), target, m);
    GroupHolds(ms, m);
  }

  lemma GroupedIsOneConversation(ms: seq<MailSummary>, t: MailThread)
    requires FieldsAreRight(ms, t)
    ensures OneConversation(t)
  {
    hide IsKeyOf;
    assert AllHaveKey(t, t.id);
  }

  lemma GroupHolds(ms: seq<MailSummary>, m: MailSummary)
    ensures Holds(Group(ms), m) <==> m in ms
  {
    hide Group, Holds, ConcreteMessages;
    HoldsIffHeld(Group(ms));
    GroupKeepsMessages(ms);
    assert m in multiset(ConcreteMessages(Group(ms))) <==> m in multiset(ms);
  }

  /** A conversation that holds one message. */
  function Alone(m: MailSummary): MailThread {
    MailThread("a:" + m.threadId, [m], Some([m]), m, !m.isRead, m.hasAttachments, [m.fromAddress], None, None, None)
  }

  const IN_INBOX := Dated("i7", 7, "x", "ann@x.org", 2)
  const IN_ARCHIVE := IN_INBOX.(id := "a7", mailbox := "Archive", threadId := "y")
  const OTHER_ACCOUNT := IN_INBOX.(id := "b7", accountId := "b", threadId := "z")

  /** UIDs are given out per mailbox: deleting UID 7 of the inbox leaves UID 7 of the archive and of
      the other account. */
  lemma UidsArePerMailbox()
    ensures RemoveConcreteMessageFromThreads([Alone(IN_INBOX), Alone(IN_ARCHIVE), Alone(OTHER_ACCOUNT)], IN_INBOX)
         == [Alone(IN_ARCHIVE), Alone(OTHER_ACCOUNT)]
  {
    hide RemoveConcreteMessage, RemoveConcreteMessageFromThreads;
    var a, b, c := Alone(IN_INBOX), Alone(IN_ARCHIVE), Alone(OTHER_ACCOUNT);
    assert [a, b, c] == [a] + [b, c] && [b, c] == [b] + [c] && [c] == [c] + [];
    AloneInFront(IN_INBOX, [b, c], IN_INBOX);
    AloneInFront(IN_ARCHIVE, [c], IN_INBOX);
    AloneInFront(OTHER_ACCOUNT, [], IN_INBOX);
    assert [] + ([b] + ([c] + [])) == [b, c];
  }

  lemma AloneInFront(m: MailSummary, threads: seq<MailThread>, target: MailSummary)
    ensures RemoveConcreteMessageFromThreads([Alone(m)] + threads, target)
         == (if Elsewhere(m, target) then [Alone(m)] else []) + RemoveConcreteMessageFromThreads(threads, target)
    ensures RemoveConcreteMessageFromThreads([], target) == []
  {
    hide RemoveConcreteMessage;
    DeletedAlone(m, target);
    assert ([Alone(m)] + threads)[1..] == threads;
  }

  lemma DeletedAlone(m: MailSummary, target: MailSummary)
    ensures RemoveConcreteMessage(Alone(m), target) == if Elsewhere(m, target) then Some(Alone(m)) else None
  {
    FilterOfOne(m, OtherCopies(target));
  }

  lemma FilterOfOne(m: MailSummary, keep: MailSummary -> bool)
    ensures Filter([m], keep) == if keep(m) then [m] else []
  {
    assert [m][1..] == [];
  }

  // ---------------------------------------------------------------- sender clean-up

  lemma CleanupIff(m: MailSummary, target: SenderCleanupTarget)
    ensures IsSenderCleanupMessage(m, target) <==>
              m.accountId == target.accountId && SameAddress(m.fromAddress, target.senderAddress)
  {
    hide Trim, Lower, SameAddress;
    SameAddressIff(m.fromAddress, target.senderAddress);
  }

  /** Sender clean-up takes the messages of the account whose sender has the address, in whatever case and
      with whatever white space around it, and no others, out of any list. */
  lemma CleanupTakesTheSender(threads: seq<MailThread>, target: SenderCleanupTarget, m: MailSummary)
    ensures Holds(RemoveSenderCleanupMessages(threads, target), m) <==>
              Holds(threads, m)
              && (m.accountId != target.accountId || !SameAddress(m.fromAddress, target.senderAddress))
  {
    hide Holds, RegroupedAll, ConcreteMessages, SameAddress, IsSenderCleanupMessage;
    RemovalKeepsTheRest(threads, OtherSenders(target));
    HoldsIffHeld(threads);
    HoldsIffHeld(RemoveSenderCleanupMessages(threads, target));
    CleanupIff(m, target);
    assert m in Held(threads) <==> m in ConcreteMessages(threads);
    var rest := RemoveSenderCleanupMessages(threads, target);
    assert m in Held(rest) <==> Holds(rest, m);
  }

  // ---------------------------------------------------------------- restoring, repeated ids included

  /** `m` is the last message of `ms` with its id. */
  predicate LastWithId(ms: seq<MailSummary>, m: MailSummary) {
    exists i :: 0 <= i < |ms| && ms[i] == m && forall j :: i < j < |ms| ==> ms[j].id != m.id
  }

  /** `m` is of the account and the sender that were cleaned up. */
  ghost predicate ToRestore(m: MailSummary, target: SenderCleanupTarget) {
    m.accountId == target.accountId && SameAddress(m.fromAddress, target.senderAddress)
  }

  /** `m` is the first message of `ms` of the cleaned-up sender with its id, and `entries` has no such id. */
  ghost predicate FirstMissing(entries: seq<MailSummary>, ms: seq<MailSummary>, m: MailSummary,
                               target: SenderCleanupTarget) {
    && ToRestore(m, target) && (forall e :: e in entries ==> e.id != m.id)
    && exists i :: 0 <= i < |ms| && ms[i] == m
                   && forall j :: 0 <= j < i && ms[j].id == m.id ==> !ToRestore(ms[j], target)
  }

  lemma LastWithIdOfMore(ms: seq<MailSummary>, x: MailSummary, m: MailSummary)
    ensures LastWithId(ms + [x], m) <==> m == x || (m.id != x.id && LastWithId(ms, m))
  {
    var all := ms + [x];
    assert all[|ms|] == x && forall i :: 0 <= i < |ms| ==> all[i] == ms[i];
    if LastWithId(ms, m) && m.id != x.id {
      var i :| 0 <= i < |ms| && ms[i] == m && forall j :: i < j < |ms| ==> ms[j].id != m.id;
      assert all[i] == m && forall j :: i < j < |all| ==> all[j].id != m.id;
    }
  }

  lemma {:induction false} PutReplaces(entries: seq<MailSummary>, m: MailSummary)
    requires DistinctMessageIds(entries)
    ensures DistinctMessageIds(Put(entries, m))
    ensures forall x :: x in Put(entries, m) <==> x == m || (x in entries && x.id != m.id)
  {
    if entries == [] {
    } else if entries[0].id == m.id {
      assert forall x :: x in entries[1..] ==> x.id != m.id;
      assert forall x :: x in entries <==> x == entries[0] || x in entries[1..];
    } else {
      PutReplaces(entries[1..], m);
      var rest := Put(entries[1..], m);
      assert forall x :: x in entries <==> x == entries[0] || x in entries[1..];
      forall i | 0 <= i < |rest|
        ensures rest[i].id != entries[0].id
      {
        assert rest[i] in rest;
      }
    }
  }

  lemma {:induction false} PutAllKeepsLast(ms: seq<MailSummary>)
    ensures DistinctMessageIds(PutAll([], ms))
    ensures forall m :: m in PutAll([], ms) <==> LastWithId(ms, m)
  {
    hide Put, DistinctMessageIds, LastWithId;
    if ms == [] {
      NothingPut();
    } else {
      var front := ms[..|ms| - 1];
      PutAllKeepsLast(front);
      PutReplaces(PutAll([], front), Last(ms));
      assert ms == front + [Last(ms)];
      forall m
        ensures m in PutAll([], ms) <==> LastWithId(ms, m)
      {
        LastWithIdOfMore(front, Last(ms), m);
      }
    }
  }

  lemma NothingPut()
    ensures DistinctMessageIds([]) && forall m :: !LastWithId([], m)
  {
  }

  lemma FirstMissingOfMore(entries: seq<MailSummary>, ms: seq<MailSummary>, x: MailSummary, m: MailSummary,
                           target: SenderCleanupTarget)
    ensures FirstMissing(entries, ms + [x], m, target) <==>
              FirstMissing(entries, ms, m, target)
              || (m == x && ToRestore(x, target) && (forall e :: e in entries ==> e.id != x.id)
                  && forall j :: 0 <= j < |ms| && ms[j].id == x.id ==> !ToRestore(ms[j], target))
  {
    hide ToRestore;
    var all := ms + [x];
    assert all[|ms|] == x && forall i :: 0 <= i < |ms| ==> all[i] == ms[i];
    if i :| 0 <= i < |ms| && ms[i] == m && forall j :: 0 <= j < i && ms[j].id == m.id ==> !ToRestore(ms[j], target) {
      assert all[i] == m;
    }
  }

  /** Someone has the id of `x` exactly when an entry or an earlier message to restore has. */
  lemma IdIsTaken(entries: seq<MailSummary>, ms: seq<MailSummary>, earlier: seq<MailSummary>, x: MailSummary,
                  target: SenderCleanupTarget)
    requires forall m :: m in earlier <==> m in entries || FirstMissing(entries, ms, m, target)
    ensures HasId(earlier, x.id) <==>
              !((forall e :: e in entries ==> e.id != x.id)
                && forall j :: 0 <= j < |ms| && ms[j].id == x.id ==> !ToRestore(ms[j], target))
  {
    hide ToRestore;
    if e :| e in entries && e.id == x.id {
      assert e in earlier;
    } else if j :| 0 <= j < |ms| && ms[j].id == x.id && ToRestore(ms[j], target) {
      var k := FirstOfId(ms, j, target);
      assert FirstMissing(entries, ms, ms[k], target);
      assert ms[k] in earlier;
    }
  }

  lemma {:induction false} FirstOfId(ms: seq<MailSummary>, j: nat, target: SenderCleanupTarget) returns (k: nat)
    requires j < |ms| && ToRestore(ms[j], target)
    ensures k <= j && ms[k].id == ms[j].id && ToRestore(ms[k], target)
    ensures forall i :: 0 <= i < k && ms[i].id == ms[j].id ==> !ToRestore(ms[i], target)
    decreases j
  {
    hide ToRestore;
    if i :| 0 <= i < j && ms[i].id == ms[j].id && ToRestore(ms[i], target) {
      k := FirstOfId(ms, i, target);
    } else {
      k := j;
    }
  }

  lemma {:induction false} AddMissingAddsFirst(entries: seq<MailSummary>, ms: seq<MailSummary>,
                                               target: SenderCleanupTarget)
    requires DistinctMessageIds(entries)
    ensures DistinctMessageIds(AddMissing(entries, ms, target))
    ensures forall m :: m in AddMissing(entries, ms, target) <==> m in entries || FirstMissing(entries, ms, m, target)
  {
    hide DistinctMessageIds, FirstMissing, IsSenderCleanupMessage, HasId;
    if ms == [] {
      NothingMissing(entries, target);
    } else {
      var front, x := ms[..|ms| - 1], Last(ms);
      var earlier := AddMissing(entries, front, target);
      AddMissingAddsFirst(entries, front, target);
      IdIsTaken(entries, front, earlier, x, target);
      CleanupIff(x, target);
      AppendIsDistinct(earlier, x);
      assert ms == front + [x];
      forall m
        ensures m in AddMissing(entries, ms, target) <==> m in entries || FirstMissing(entries, ms, m, target)
      {
        FirstMissingOfMore(entries, front, x, m, target);
      }
    }
  }

  lemma NothingMissing(entries: seq<MailSummary>, target: SenderCleanupTarget)
    ensures forall m :: !FirstMissing(entries, [], m, target)
  {
  }

  lemma AppendIsDistinct(ms: seq<MailSummary>, x: MailSummary)
    requires DistinctMessageIds(ms)
    ensures !HasId(ms, x.id) ==> DistinctMessageIds(ms + [x])
  {
    if !HasId(ms, x.id) {
      forall i | 0 <= i < |ms|
        ensures ms[i].id != x.id
      {
        assert ms[i] in ms;
      }
    }
  }

  /** For any two lists, repeated ids included: restoring yields the grouping of the last message with each
      id of the current list, and of the first one of the cleaned-up sender with each id that list lacks. */
  lemma RestoreIsAlwaysRegrouping(current: seq<MailThread>, original: seq<MailThread>, target: SenderCleanupTarget)
    returns (s: set<MailSummary>)
    ensures IsGrouping(s, RestoreSenderCleanupMessages(current, original, target))
    ensures var now, before := ConcreteMessages(current), ConcreteMessages(original);
            forall m :: m in s <==> LastWithId(now, m) || FirstMissing(now, before, m, target)
  {
    hide IsGrouping, ConcreteMessages, PutAll, AddMissing, Group, DistinctMessageIds, LastWithId, FirstMissing;
    var entries := PutAll([], ConcreteMessages(current));
    PutAllKeepsLast(ConcreteMessages(current));
    var all := AddMissing(entries, ConcreteMessages(original), target);
    AddMissingAddsFirst(entries, ConcreteMessages(original), target);
    GroupIsGrouping(all);
    s := Messages(all);
    forall m
      ensures m in s <==>
                LastWithId(ConcreteMessages(current), m)
                || FirstMissing(ConcreteMessages(current), ConcreteMessages(original), m, target)
    {
      SameIdsMissing(ConcreteMessages(current), entries, ConcreteMessages(original), m, target);
    }
  }

  lemma {:induction false} SomeLastWithId(ms: seq<MailSummary>, x: MailSummary) returns (m: MailSummary)
    requires x in ms
    ensures LastWithId(ms, m) && m.id == x.id
  {
    hide LastWithId;
    var front := ms[..|ms| - 1];
    assert ms == front + [Last(ms)];
    if Last(ms).id == x.id {
      m := Last(ms);
    } else {
      assert x in front;
      m := SomeLastWithId(front, x);
    }
    LastWithIdOfMore(front, Last(ms), m);
  }

  lemma SameIdsMissing(ms: seq<MailSummary>, entries: seq<MailSummary>, before: seq<MailSummary>, m: MailSummary,
                       target: SenderCleanupTarget)
    requires forall x :: x in entries <==> LastWithId(ms, x)
    ensures FirstMissing(entries, before, m, target) <==> FirstMissing(ms, before, m, target)
  {
    hide ToRestore;
    forall x | x in entries
      ensures x in ms
    {
      assert LastWithId(ms, x);
    }
    forall x | x in ms && x.id == m.id
      ensures exists e :: e in entries && e.id == m.id
    {
      var e := SomeLastWithId(ms, x);
      assert e in entries;
    }
  }
}
