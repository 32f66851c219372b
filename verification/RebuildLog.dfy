/**
 Which cancellation a rebuild worker reads, in terms of the events of a run: the strongest of the
 requests for its account that came after its own reservation, and Keep when none did.

 `RebuildCancellation` states this with a history each worker carries; here the requests are counted off
 the run itself.
 */
module RebuildLog {
  import opened RebuildCancellation

  /** Keep, Retain, Replace, Remove. */
  predicate NoStronger(a: Disposition, b: Disposition) {
    match b
    case Keep => a.Keep?
    case Retain => a.Keep? || a.Retain?
    case Replace => !a.Remove?
    case Remove => true
  }

  predicate NoneStronger(events: seq<Event>, a: Account, d: Disposition) {
    forall i :: 0 <= i < |events| && events[i].RequestCancel? && events[i].account == a ==>
                  NoStronger(events[i].disposition, d)
  }

  predicate IsRequested(events: seq<Event>, a: Account, d: Disposition) {
    exists i :: 0 <= i < |events| && events[i] == RequestCancel(a, d)
  }

  predicate NoReservation(events: seq<Event>, w: nat) {
    forall i :: 0 <= i < |events| ==> events[i] != ReserveEntry(w)
  }

  /** Worker `w` has its reservation, registered or not. */
  predicate Listening(s: System, w: nat) {
    w in s.workers && (s.workers[w].Reserved? || s.workers[w].Registered?)
  }

  lemma TailReserves(events: seq<Event>, w: nat)
    requires events != [] && NoReservation(events, w)
    ensures events[0] != ReserveEntry(w) && NoReservation(events[1..], w)
  {
    assert forall i :: 0 <= i < |events[1..]| ==> events[1..][i] == events[i + 1];
  }

  lemma StepLeavesDeaf(s: System, e: Event, w: nat)
    requires Enabled(s, e) && e != ReserveEntry(w) && !Listening(s, w)
    ensures !Listening(Step(s, e), w)
  {
    hide ReserveIn, RegisterIn, RequestIn, ClearIn, ReleaseIn;
  }

  lemma {:induction false} StaysDeaf(s: System, w: nat, events: seq<Event>)
    requires Possible(s, events) && NoReservation(events, w) && !Listening(s, w)
    ensures !Listening(After(s, events), w)
    decreases |events|
  {
    hide Step, Enabled, Listening, NoReservation;
    if events != [] {
      TailReserves(events, w);
      StepLeavesDeaf(s, events[0], w);
      StaysDeaf(Step(s, events[0]), w, events[1..]);
    }
  }

  /** What one event adds to what `w` has been asked. */
  lemma StepAsks(s: System, e: Event, w: nat)
    requires Enabled(s, e) && e != ReserveEntry(w) && Listening(s, w) && Listening(Step(s, e), w)
    ensures var q := Step(s, e);
            && q.workers[w].account == s.workers[w].account
            && (if e.RequestCancel? && e.account == s.workers[w].account then
                  q.workers[w].asked == Join(s.workers[w].asked, e.disposition)
                else q.workers[w].asked == s.workers[w].asked)
  {
    hide ReserveIn, RegisterIn, RequestIn, ClearIn, ReleaseIn, Join;
  }

  lemma JoinIsStrongest(a: Disposition, b: Disposition, c: Disposition)
    ensures Join(a, b) == a || Join(a, b) == b
    ensures NoStronger(a, Join(a, b)) && NoStronger(b, Join(a, b))
    ensures NoStronger(a, b) && NoStronger(b, c) ==> NoStronger(a, c)
  {
  }

  /** The strongest of `before` and what `events` ask for account `a`. */
  predicate Strongest(before: Disposition, events: seq<Event>, a: Account, d: Disposition) {
    NoStronger(before, d) && NoneStronger(events, a, d) && (d == before || IsRequested(events, a, d))
  }

  lemma StrongestCons(before: Disposition, e: Event, events: seq<Event>, a: Account, d: Disposition)
    requires var now := if e.RequestCancel? && e.account == a then Join(before, e.disposition) else before;
             Strongest(now, events, a, d)
    ensures Strongest(before, [e] + events, a, d)
  {
    hide Join, NoStronger;
    var all := [e] + events;
    var now := if e.RequestCancel? && e.account == a then Join(before, e.disposition) else before;
    if e.RequestCancel? {
      JoinIsStrongest(before, e.disposition, d);
      JoinIsStrongest(e.disposition, now, d);
    }
    JoinIsStrongest(before, now, d);
    NoStrongerThanItself(before);
    assert forall i :: 0 < i < |all| ==> all[i] == events[i - 1];
    if IsRequested(events, a, d) {
      var i :| 0 <= i < |events| && events[i] == RequestCancel(a, d);
      assert all[i + 1] == RequestCancel(a, d);
    } else if d != before {
      assert all[0] == RequestCancel(a, d);
    }
  }

  lemma NoStrongerThanItself(d: Disposition)
    ensures NoStronger(d, d)
  {
  }

  lemma {:induction false} AsksSince(s: System, w: nat, events: seq<Event>)
    requires Possible(s, events) && NoReservation(events, w)
    requires Listening(s, w) && Listening(After(s, events), w)
    ensures After(s, events).workers[w].account == s.workers[w].account
    ensures Strongest(s.workers[w].asked, events, s.workers[w].account, After(s, events).workers[w].asked)
    decreases |events|
  {
    if events == [] {
      NoStrongerThanItself(s.workers[w].asked);
    } else {
      hide Step, Enabled, NoReservation, Strongest, Join;
      var q := Step(s, events[0]);
      TailReserves(events, w);
      if Listening(q, w) {
        StepAsks(s, events[0], w);
        AsksSince(q, w, events[1..]);
        StrongestCons(s.workers[w].asked, events[0], events[1..], s.workers[w].account,
                      After(s, events).workers[w].asked);
        assert [events[0]] + events[1..] == events;
      } else {
        StaysDeaf(q, w, events[1..]);
      }
    }
  }

  lemma Reserving(s: System, w: nat)
    requires Enabled(s, ReserveEntry(w))
    ensures var q := Step(s, ReserveEntry(w));
            Listening(q, w) && q.workers[w].asked.Keep? && q.workers[w].account == s.workers[w].account
  {
    hide ReserveIn;
  }

  /** On every orderly run, a worker registered since its last reservation reads from its channel the strongest
      disposition requested for its account after that reservation: no request for it is stronger, and
      it is one of them, or Keep. */
  lemma WorkerReadsStrongest(before: seq<Event>, w: nat, events: seq<Event>)
    requires Possible(INITIAL, before) && Orderly(INITIAL, before)
    requires var s := After(INITIAL, before);
             var all := [ReserveEntry(w)] + events;
             Possible(s, all) && Orderly(s, all) && NoReservation(events, w)
    ensures var s := After(After(INITIAL, before), [ReserveEntry(w)] + events);
            w in s.workers && s.workers[w].Registered? ==>
              && s.workers[w].receiver < |s.registry.channels|
              && var d := s.registry.channels[s.workers[w].receiver];
              && NoneStronger(events, s.workers[w].account, d)
              && (d.Keep? || IsRequested(events, s.workers[w].account, d))
  {
    hide Step, Enabled, Overlaps, Inv, NoStronger;
    var s, all := After(INITIAL, before), [ReserveEntry(w)] + events;
    var end := After(s, all);
    InitialIsInv();
    RunsKeepInv(INITIAL, before);
    RunsKeepInv(s, all);
    GoodMeansHeard(end, w);
    assert all[0] == ReserveEntry(w) && all[1..] == events;
    Reserving(s, w);
    if w in end.workers && end.workers[w].Registered? {
      AsksSince(Step(s, ReserveEntry(w)), w, events);
      assert Strongest(Keep, events, end.workers[w].account, end.workers[w].asked);
    }
  }

  lemma InitialIsInv()
    ensures Inv(INITIAL)
  {
  }
}
