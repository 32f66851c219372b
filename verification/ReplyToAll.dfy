/**
 Whom a reply to all goes to, field by field: which entries of the To and Cc headers are added to the
 reply targets, and in which order.

 Two addresses count as one when they differ only in the case of their letters and in white space around
 them, whatever the function the code compares by is.
 */
module ReplyToAll {
  import opened AsciiText
  import opened JavaScriptText
  import opened Options
  import opened Recipients

  /** Entry `n` of `list` is added: it is not blank, not the account's address, and new. */
  ghost predicate IsNew(list: seq<MailAddress>, n: nat, others: seq<MailAddress>, account: Option<string>)
    requires n < |list|
  {
    && !AllSpaces(list[n].address)
    && !(account.Some? && SameAddress(account.value, list[n].address))
    && (forall a :: a in others ==> !SameAddress(a.address, list[n].address))
    && (forall k :: 0 <= k < n ==> !SameAddress(list[k].address, list[n].address))
  }

  /** `picked` are the entries of `list` at the rising places `places`. */
  predicate PickedAt(list: seq<MailAddress>, places: seq<nat>, picked: seq<MailAddress>) {
    && |places| == |picked|
    && (forall i, j :: 0 <= i < j < |places| ==> places[i] < places[j])
    && (forall i :: 0 <= i < |places| ==> places[i] < |list| && picked[i] == list[places[i]])
  }

  ghost predicate PickedNew(list: seq<MailAddress>, places: seq<nat>, others: seq<MailAddress>, account: Option<string>)
  {
    forall n: nat :: n < |list| ==> (n in places <==> IsNew(list, n, others, account))
  }

  // ---------------------------------------------------------------- the loop, by places

  predicate KeptAt(list: seq<MailAddress>, n: nat, seen: set<string>)
    requires n < |list|
  {
    var normalized := NormalizeAddress(list[n].address);
    && normalized != "" && normalized !in seen
    && forall k :: 0 <= k < n ==> NormalizeAddress(list[k].address) != normalized
  }

  lemma KeptAtInFront(list: seq<MailAddress>, seen: set<string>)
    requires list != []
    ensures forall n: nat :: n < |list| - 1 ==> (KeptAt(list, n, seen) <==> KeptAt(list[..|list| - 1], n, seen))
  {
    hide NormalizeAddress;
  }

  lemma KeptAtEnd(list: seq<MailAddress>, seen: set<string>)
    requires list != []
    ensures var normalized := NormalizeAddress(list[|list| - 1].address);
            KeptAt(list, |list| - 1, seen)
            <==> normalized != "" && normalized !in seen + Normalized(list[..|list| - 1])
  {
    hide NormalizeAddress;
    var front, normalized := list[..|list| - 1], NormalizeAddress(list[|list| - 1].address);
    if normalized != "" {
      if normalized in Normalized(front) {
        var a :| a in front && NormalizeAddress(a.address) == normalized;
        var k :| 0 <= k < |front| && front[k] == a;
        assert NormalizeAddress(list[k].address) == normalized;
      } else {
        forall k | 0 <= k < |front|
          ensures NormalizeAddress(list[k].address) != normalized
        {
          assert front[k] in front;
        }
      }
    }
  }

  /** `places` are those of the entries the loop keeps. */
  predicate PlacesKept(list: seq<MailAddress>, places: seq<nat>, seen: set<string>) {
    forall n: nat :: n < |list| ==> (n in places <==> KeptAt(list, n, seen))
  }

  lemma {:induction false} UnseenPlaces(list: seq<MailAddress>, seen: set<string>) returns (places: seq<nat>)
    ensures PickedAt(list, places, Unseen(list, seen)) && PlacesKept(list, places, seen)
  {
    hide NormalizeAddress, KeptAt, PickedAt, PlacesKept;
    if list == [] {
      places := [];
      NothingPicked(seen);
    } else {
      var earlier := UnseenPlaces(list[..|list| - 1], seen);
      var kept := KeptAt(list, |list| - 1, seen);
      KeptAtEnd(list, seen);
      places := if kept then earlier + [|list| - 1] else earlier;
      PickOneMore(list, earlier, Unseen(list[..|list| - 1], seen), kept);
      KeepOneMore(list, earlier, Unseen(list[..|list| - 1], seen), seen);
    }
  }

  lemma NothingPicked(seen: set<string>)
    ensures PickedAt([], [], []) && PlacesKept([], [], seen)
  {
  }

  lemma PickOneMore(list: seq<MailAddress>, places: seq<nat>, picked: seq<MailAddress>, more: bool)
    requires list != [] && PickedAt(list[..|list| - 1], places, picked)
    ensures PickedAt(list, if more then places + [|list| - 1] else places,
                     if more then picked + [list[|list| - 1]] else picked)
  {
  }

  lemma KeepOneMore(list: seq<MailAddress>, places: seq<nat>, picked: seq<MailAddress>, seen: set<string>)
    requires list != [] && PickedAt(list[..|list| - 1], places, picked)
    requires PlacesKept(list[..|list| - 1], places, seen)
    ensures PlacesKept(list, if KeptAt(list, |list| - 1, seen) then places + [|list| - 1] else places, seen)
  {
    hide KeptAt;
    KeptAtInFront(list, seen);
    assert forall n :: n in places ==> n < |list| - 1;
  }

  // ---------------------------------------------------------------- the meaning of `seen`

  lemma BlankIff(address: string)
    ensures NormalizeAddress(address) == "" <==> AllSpaces(address)
  {
    hide IsSpace, IsTrimOf;
    TrimIff(address, "");
    if AllSpaces(address) {
      assert TrimmedAt(address, "", |address|, |address|);
      assert IsTrimOf(address, "") by {
        IsTrimOfAt(address, "", |address|, |address|);
      }
    } else if Trim(address) == "" {
      TrimOfSpaces(address);
    }
  }

  lemma IsTrimOfAt(s: string, t: string, i: int, j: int)
    requires TrimmedAt(s, t, i, j)
    ensures IsTrimOf(s, t)
  {
  }

  lemma TrimOfSpaces(s: string)
    requires IsTrimOf(s, "")
    ensures AllSpaces(s)
  {
    var i, j :| TrimmedAt(s, "", i, j);
    assert s == s[..i] + s[j..];
  }

  /** An address that is not blank has been seen exactly when it is among `others` or the account's. */
  lemma SeenIff(others: seq<MailAddress>, account: Option<string>, seen: set<string>, address: string)
    requires NormalizeAddress(address) != ""
    requires seen == Normalized(others)
                     + if account.Some? && account.value != "" then {NormalizeAddress(account.value)} else {}
    ensures NormalizeAddress(address) in seen
            <==> (account.Some? && SameAddress(account.value, address)) || Reaches(others, address)
  {
    hide NormalizeAddress, SameAddress;
    AddressesFold();
    NothingNormalizes();
  }

  lemma NewIffKept(list: seq<MailAddress>, n: nat, others: seq<MailAddress>, account: Option<string>, seen: set<string>)
    requires n < |list|
    requires seen == Normalized(others)
                     + if account.Some? && account.value != "" then {NormalizeAddress(account.value)} else {}
    ensures KeptAt(list, n, seen) <==> IsNew(list, n, others, account)
  {
    hide NormalizeAddress, SameAddress, AllSpaces, Normalized;
    BlankIff(list[n].address);
    AddressesFold();
    if NormalizeAddress(list[n].address) != "" {
      SeenIff(others, account, seen, list[n].address);
    }
  }

  lemma UnseenAreNew(list: seq<MailAddress>, others: seq<MailAddress>, account: Option<string>, seen: set<string>)
    returns (places: seq<nat>)
    requires seen == Normalized(others)
                     + if account.Some? && account.value != "" then {NormalizeAddress(account.value)} else {}
    ensures PickedAt(list, places, Unseen(list, seen)) && PickedNew(list, places, others, account)
  {
    hide NormalizeAddress, Normalized, KeptAt, IsNew, Unseen, PickedAt;
    places := UnseenPlaces(list, seen);
    forall n: nat | n < |list|
      ensures n in places <==> IsNew(list, n, others, account)
    {
      NewIffKept(list, n, others, account, seen);
    }
  }

  /** A reply to all is addressed to the targets, which are the Reply-To addresses or else the first From, then to
      the To entries that are not blank, neither a target's nor the account's address and not given before,
      and copied to the Cc entries that besides are no To address: in the order of the headers. */
  lemma ReplyAllPicks(r: MessageRecipients, account: Option<string>) returns (inTo: seq<nat>, inCc: seq<nat>)
    ensures var targets := if r.replyTo != [] then r.replyTo else if r.from != [] then [r.from[0]] else [];
            var seen := Excluded(r, account);
            && ReplyTargets(r) == targets
            && PickedAt(r.to, inTo, Unseen(r.to, seen)) && PickedNew(r.to, inTo, targets, account)
            && PickedAt(r.cc, inCc, Unseen(r.cc, seen + Normalized(r.to)))
            && PickedNew(r.cc, inCc, targets + r.to, account)
  {
    hide NormalizeAddress, Normalized, PickedAt, PickedNew, Unseen;
    var targets := ReplyTargets(r);
    var own := if account.Some? && account.value != "" then {NormalizeAddress(account.value)} else {};
    assert r.from != [] ==> r.from[..1] == [r.from[0]];
    inTo := UnseenAreNew(r.to, targets, account, Excluded(r, account));
    NormalizedOfBoth(targets, r.to);
    assert Excluded(r, account) + Normalized(r.to) == Normalized(targets + r.to) + own;
    inCc := UnseenAreNew(r.cc, targets + r.to, account, Excluded(r, account) + Normalized(r.to));
  }

  const BOB := MailAddress(None, "Bob@x.org")
  const BOB_IN_SMALL := MailAddress(None, "bob@x.org")
  const ANNA := MailAddress(None, "anna@x.org")

  /** A reply to Anna and all with Bob twice in To, once with a capital: he is added once. */
  lemma CaseIsNoDifference(r: MessageRecipients)
    requires r.replyTo == [ANNA] && r.to == [BOB, BOB_IN_SMALL]
    ensures Unseen(r.to, Excluded(r, None)) == [BOB]
  {
    hide NormalizeAddress;
    SmallAddresses();
    var seen := Excluded(r, None);
    assert seen == {NormalizeAddress(ANNA.address)};
    assert [BOB, BOB_IN_SMALL][..1] == [BOB] && [BOB][..0] == [];
    assert Unseen([], seen) == [];
    assert Unseen([BOB], seen) == [BOB];
    assert NormalizeAddress(BOB_IN_SMALL.address) in Normalized([BOB]);
  }

  lemma SmallAddresses()
    ensures NormalizeAddress(BOB.address) == NormalizeAddress(BOB_IN_SMALL.address)
    ensures |NormalizeAddress(BOB.address)| == 9 && |NormalizeAddress(ANNA.address)| == 10
  {
    hide TrimStart, TrimEnd, Trim, IsWhiteSpace;
    assert Trimmed(BOB.address) && Trimmed(BOB_IN_SMALL.address) && Trimmed(ANNA.address);
    TrimOfTrimmed(BOB.address);
    TrimOfTrimmed(BOB_IN_SMALL.address);
    TrimOfTrimmed(ANNA.address);
    LowerOfBob();
  }

  lemma LowerOfBob()
    ensures Lower("Bob@x.org") == Lower("bob@x.org")
  {
    assert "Bob@x.org"[1..] == "bob@x.org"[1..] == "ob@x.org";
    assert "Bob@x.org" == ['B'] + "ob@x.org" && "bob@x.org" == ['b'] + "ob@x.org";
    LowerOfCapital('B', 'b', "ob@x.org");
  }

  lemma LowerOfCapital(c: char, d: char, rest: string)
    requires LowerChar(c) == LowerChar(d)
    ensures Lower([c] + rest) == Lower([d] + rest)
  {
    hide LowerChar;
  }
}
