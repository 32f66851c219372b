/**
 What a waiter's answer says about the run that led to it.

 `Log` is an observer of the events of ClassificationScheduler: it notes what each drain loop did
 since it was spawned, without looking at the counters the loop keeps for itself.  Every Err a waiter
 returns goes back to three failed attempts in a row (`ErrMeansThreeFailures`), every Ok to a drain
 loop that ended and to the number of messages it classified (`OkMeansFinished`).
 */
module ClassificationLog {
  import opened ClassificationScheduler
  import opened Options

  /** Per runner: the generation it read last, the errors of its attempts since, the sizes of the
      batches it applied as a whole since it was spawned.  Then the generations given up, with their
      errors, and those finished, with the sizes of their runner's batches. */
  datatype Log = Log(read: map<nat, nat>, errors: map<nat, seq<string>>, sizes: map<nat, seq<nat>>,
                     failed: seq<(nat, seq<string>)>, finished: seq<(nat, seq<nat>)>)

  const EMPTY := Log(map[], map[], map[], [], [])

  function ErrorsOf(l: Log, r: nat): seq<string> {
    if r in l.errors then l.errors[r] else []
  }

  function SizesOf(l: Log, r: nat): seq<nat> {
    if r in l.sizes then l.sizes[r] else []
  }

  function ReadBy(l: Log, r: nat): nat {
    if r in l.read then l.read[r] else 0
  }

  function Noted(l: Log, s: System, e: Event): Log
    requires Enabled(s, e)
  {
    match e
    case Kick(r) => if s.runners == map[] then l.(sizes := l.sizes[r := []]) else l
    case ReadGeneration(r) =>
      l.(read := l.read[r := s.schedule.requestedGeneration], errors := l.errors[r := []])
    case AttemptFails(r, error) => l.(errors := l.errors[r := ErrorsOf(l, r) + [error]])
    case ApplyBatch(r, applied, error) =>
      if applied == s.runners[r].batch then l.(sizes := l.sizes[r := SizesOf(l, r) + [|applied|]])
      else l.(errors := l.errors[r := ErrorsOf(l, r) + [error]])
    case Fail(r) => l.(failed := l.failed + [(ReadBy(l, r), ErrorsOf(l, r))])
    case Finish(r) => l.(finished := l.finished + [(ReadBy(l, r), SizesOf(l, r))])
    case _ => l
  }

  function LogAfter(l: Log, s: System, events: seq<Event>): Log
    requires Possible(s, events)
    decreases |events|
  {
    if events == [] then l else LogAfter(Noted(l, s, events[0]), Step(s, events[0]), events[1..])
  }

  function Total(sizes: seq<nat>): nat {
    if sizes == [] then 0 else Total(sizes[..|sizes| - 1]) + sizes[|sizes| - 1]
  }

  lemma TotalOfMore(sizes: seq<nat>, n: nat)
    ensures Total(sizes + [n]) == Total(sizes) + n
  {
    assert (sizes + [n])[..|sizes|] == sizes;
  }

  // ---------------------------------------------------------------- the invariant

  /** Three attempts at one batch failed, the last one with this error. */
  predicate GaveUp(errors: seq<string>, error: string) {
    |errors| == 3 && errors[2] == error
  }

  /** The last batch was not a full one. */
  predicate Drained(sizes: seq<nat>) {
    sizes != [] && sizes[|sizes| - 1] < 64
  }

  predicate RunnerLogged(l: Log, r: nat, runner: Runner) {
    && runner.classified == Total(SizesOf(l, r))
    && (!runner.Reading? ==> runner.generation == ReadBy(l, r))
    && (runner.Attempting? || runner.Applying? ==> runner.failures == |ErrorsOf(l, r)| < 3)
    && (runner.Finishing? ==> Drained(SizesOf(l, r)))
    && (runner.Failing? ==> GaveUp(ErrorsOf(l, r), runner.error))
  }

  predicate RunnersLogged(l: Log, s: System) {
    forall r :: r in s.runners ==> RunnerLogged(l, r, s.runners[r])
  }

  ghost predicate HasFailed(l: Log, g: nat, error: string) {
    exists i :: 0 <= i < |l.failed| && l.failed[i].0 >= g && GaveUp(l.failed[i].1, error)
  }

  ghost predicate HasFinished(l: Log, g: nat, count: nat) {
    exists i :: 0 <= i < |l.finished| && l.finished[i].0 >= g && Drained(l.finished[i].1)
                && count == Total(l.finished[i].1)
  }

  ghost predicate ScheduleLogged(l: Log, s: Schedule) {
    match s.lastFailure
    case Some((g, error)) => HasFailed(l, g, error)
    case None => s.completedGeneration > 0 ==> HasFinished(l, s.completedGeneration, s.lastCompletedCount)
  }

  ghost predicate AnswerLogged(l: Log, w: Waiter) {
    w.Returned? ==>
      match w.outcome
      case Ok(count) => HasFinished(l, w.generation, count)
      case Err(error) => HasFailed(l, w.generation, error)
  }

  ghost predicate WaitersLogged(l: Log, s: System) {
    forall w :: w in s.waiters ==> AnswerLogged(l, s.waiters[w])
  }

  ghost predicate LogInv(l: Log, s: System) {
    Inv(s) && RunnersLogged(l, s) && ScheduleLogged(l, s.schedule) && WaitersLogged(l, s)
  }

  lemma MoreIsLogged(l: Log, m: Log, g: nat, error: string, count: nat)
    requires l.failed <= m.failed && l.finished <= m.finished
    ensures HasFailed(l, g, error) ==> HasFailed(m, g, error)
    ensures HasFinished(l, g, count) ==> HasFinished(m, g, count)
  {
    if HasFailed(l, g, error) {
      var i :| 0 <= i < |l.failed| && l.failed[i].0 >= g && GaveUp(l.failed[i].1, error);
      assert m.failed[i] == l.failed[i];
    }
    if HasFinished(l, g, count) {
      var i :| 0 <= i < |l.finished| && l.finished[i].0 >= g && Drained(l.finished[i].1)
               && count == Total(l.finished[i].1);
      assert m.finished[i] == l.finished[i];
    }
  }

  lemma OnlyGrows(l: Log, s: System, e: Event)
    requires Enabled(s, e)
    ensures l.failed <= Noted(l, s, e).failed && l.finished <= Noted(l, s, e).finished
  {
  }

  lemma OwnStepIsLogged(l: Log, s: System, e: Event, r: nat)
    requires r in s.runners && RunnerInv(s, s.runners[r]) && RunnerLogged(l, r, s.runners[r])
    requires Enabled(s, e) && RunnerEvent(e, r)
    ensures r in Step(s, e).runners ==> RunnerLogged(Noted(l, s, e), r, Step(s, e).runners[r])
  {
    hide Total;
    if e.ApplyBatch? {
      TotalOfMore(SizesOf(l, r), |e.applied|);
    }
  }

  lemma OthersAreLogged(l: Log, s: System, e: Event)
    requires Inv(s) && RunnersLogged(l, s) && Enabled(s, e)
    requires forall r :: r in s.runners ==> !RunnerEvent(e, r)
    ensures RunnersLogged(Noted(l, s, e), Step(s, e))
  {
    hide Total, RunnerLogged, OwedInv, CompletedInv, WaitersInv, RunnersInv;
    if e.Kick? && s.runners == map[] {
      FreshIsLogged(Noted(l, s, e), e.newRunner);
    }
  }

  lemma RunnerIsSound(s: System, r: nat)
    requires Inv(s) && r in s.runners
    ensures RunnerInv(s, s.runners[r])
  {
  }

  lemma FreshIsLogged(m: Log, r: nat)
    requires SizesOf(m, r) == []
    ensures RunnerLogged(m, r, Reading(0))
  {
    NothingCounted();
  }

  lemma StepKeepsRunnersLogged(l: Log, s: System, e: Event)
    requires Inv(s) && RunnersLogged(l, s) && Enabled(s, e)
    ensures RunnersLogged(Noted(l, s, e), Step(s, e))
  {
    hide Inv, RunnerLogged, Noted, RunnerInv;
    if r :| r in s.runners && RunnerEvent(e, r) {
      SingleRunner(s, r);
      RunnerIsSound(s, r);
      OwnStepIsLogged(l, s, e, r);
      assert forall k :: k in Step(s, e).runners ==> k == r;
    } else {
      OthersAreLogged(l, s, e);
    }
  }

  lemma NothingCounted()
    ensures Total([]) == 0
  {
  }

  lemma StepKeepsScheduleLogged(l: Log, s: System, e: Event)
    requires Inv(s) && RunnersLogged(l, s) && ScheduleLogged(l, s.schedule) && Enabled(s, e)
    ensures ScheduleLogged(Noted(l, s, e), Step(s, e).schedule)
  {
    hide Total, HasFailed, HasFinished, Drained, GaveUp, Inv;
    var m, t := Noted(l, s, e), Step(s, e);
    OnlyGrows(l, s, e);
    if s.schedule.lastFailure.Some? {
      MoreIsLogged(l, m, s.schedule.lastFailure.value.0, s.schedule.lastFailure.value.1, 0);
    } else {
      MoreIsLogged(l, m, s.schedule.completedGeneration, "", s.schedule.lastCompletedCount);
    }
    match e {
      case Finish(r) => JustFinished(l, s, r);
      case Fail(r) => JustFailed(l, s, r);
      case _ =>
    }
  }

  lemma JustFinished(l: Log, s: System, r: nat)
    requires RunnersLogged(l, s) && Enabled(s, Finish(r))
    ensures HasFinished(Noted(l, s, Finish(r)), s.runners[r].generation, s.runners[r].classified)
  {
    hide Total, Drained;
    var m := Noted(l, s, Finish(r));
    assert RunnerLogged(l, r, s.runners[r]);
    assert m.finished[|l.finished|] == (ReadBy(l, r), SizesOf(l, r));
  }

  lemma JustFailed(l: Log, s: System, r: nat)
    requires RunnersLogged(l, s) && Enabled(s, Fail(r))
    ensures HasFailed(Noted(l, s, Fail(r)), s.runners[r].generation, s.runners[r].error)
  {
    hide GaveUp;
    var m := Noted(l, s, Fail(r));
    assert RunnerLogged(l, r, s.runners[r]);
    assert m.failed[|l.failed|] == (ReadBy(l, r), ErrorsOf(l, r));
  }

  lemma Lower(l: Log, g: nat, h: nat, error: string, count: nat)
    requires g <= h
    ensures HasFailed(l, h, error) ==> HasFailed(l, g, error)
    ensures HasFinished(l, h, count) ==> HasFinished(l, g, count)
  {
    hide GaveUp, Drained, Total;
    if HasFailed(l, h, error) {
      var i :| 0 <= i < |l.failed| && l.failed[i].0 >= h && GaveUp(l.failed[i].1, error);
      assert l.failed[i].0 >= g;
    }
    if HasFinished(l, h, count) {
      var i :| 0 <= i < |l.finished| && l.finished[i].0 >= h && Drained(l.finished[i].1)
               && count == Total(l.finished[i].1);
      assert l.finished[i].0 >= g;
    }
  }

  lemma StepKeepsWaitersLogged(l: Log, s: System, e: Event)
    requires Inv(s) && ScheduleLogged(l, s.schedule) && WaitersLogged(l, s) && Enabled(s, e)
    ensures WaitersLogged(Noted(l, s, e), Step(s, e))
  {
    hide Inv, HasFailed, HasFinished;
    var m, t := Noted(l, s, e), Step(s, e);
    OnlyGrows(l, s, e);
    forall w | w in t.waiters
      ensures AnswerLogged(m, t.waiters[w])
    {
      if e.Look? && e.waiter == w {
        LookIsLogged(l, s, w);
      } else if w in s.waiters && t.waiters[w] == s.waiters[w] {
        StaysLogged(l, m, s.waiters[w]);
      }
    }
  }

  lemma StaysLogged(l: Log, m: Log, w: Waiter)
    requires l.failed <= m.failed && l.finished <= m.finished && AnswerLogged(l, w)
    ensures AnswerLogged(m, w)
  {
    hide HasFailed, HasFinished;
    if w.Returned? {
      MoreIsLogged(l, m, w.generation, if w.outcome.Err? then w.outcome.error else "",
                   if w.outcome.Ok? then w.outcome.classified else 0);
    }
  }

  lemma LookIsLogged(l: Log, s: System, w: nat)
    requires Inv(s) && ScheduleLogged(l, s.schedule) && Enabled(s, Look(w))
    ensures AnswerLogged(l, Step(s, Look(w)).waiters[w])
  {
    hide HasFailed, HasFinished, RunnersInv, OwedInv, CompletedInv;
    var g, h := s.waiters[w].generation, s.schedule.completedGeneration;
    assert WaiterInv(s, s.waiters[w]);
    if g <= h {
      Lower(l, g, h, if s.schedule.lastFailure.Some? then s.schedule.lastFailure.value.1 else "",
            s.schedule.lastCompletedCount);
    }
  }

  lemma StepKeepsLogInv(l: Log, s: System, e: Event)
    requires LogInv(l, s) && Enabled(s, e)
    ensures LogInv(Noted(l, s, e), Step(s, e))
  {
    hide Inv, RunnersLogged, ScheduleLogged, WaitersLogged, Noted, Step, Enabled;
    StepKeepsInv(s, e);
    StepKeepsRunnersLogged(l, s, e);
    StepKeepsScheduleLogged(l, s, e);
    StepKeepsWaitersLogged(l, s, e);
  }

  lemma {:induction false} RunsKeepLogInv(l: Log, s: System, events: seq<Event>)
    requires LogInv(l, s) && Possible(s, events)
    ensures LogInv(LogAfter(l, s, events), After(s, events))
    decreases |events|
  {
    hide LogInv, Step, Enabled, Noted;
    if events != [] {
      StepKeepsLogInv(l, s, events[0]);
      RunsKeepLogInv(Noted(l, s, events[0]), Step(s, events[0]), events[1..]);
    }
  }

  lemma FromStart(events: seq<Event>)
    requires Possible(INITIAL, events)
    ensures LogInv(LogAfter(EMPTY, INITIAL, events), After(INITIAL, events))
  {
    hide Step, Enabled;
    RunsKeepLogInv(EMPTY, INITIAL, events);
  }

  // ---------------------------------------------------------------- the theorems

  /** On every run: a waiter for generation g that returned an error returned that of the third of three
      failed attempts in a row at one batch, of a drain loop that had read a generation at least g. */
  lemma ErrMeansThreeFailures(events: seq<Event>, w: nat)
    requires Possible(INITIAL, events) && w in After(INITIAL, events).waiters
    requires After(INITIAL, events).waiters[w].Returned? && After(INITIAL, events).waiters[w].outcome.Err?
    ensures var waiter := After(INITIAL, events).waiters[w];
            exists i :: 0 <= i < |LogAfter(EMPTY, INITIAL, events).failed|
                        && LogAfter(EMPTY, INITIAL, events).failed[i].0 >= waiter.generation
                        && GaveUp(LogAfter(EMPTY, INITIAL, events).failed[i].1, waiter.outcome.error)
  {
    hide Inv, RunnersLogged, ScheduleLogged, After, LogAfter, Possible, GaveUp;
    FromStart(events);
    assert AnswerLogged(LogAfter(EMPTY, INITIAL, events), After(INITIAL, events).waiters[w]);
  }

  /** On every run: a waiter for generation g that returned Ok returned the number of messages that one
      drain loop had classified, in whole batches, from its spawning to the batch of fewer than 64 with
      which it finished a generation at least g. */
  lemma OkMeansFinished(events: seq<Event>, w: nat)
    requires Possible(INITIAL, events) && w in After(INITIAL, events).waiters
    requires After(INITIAL, events).waiters[w].Returned? && After(INITIAL, events).waiters[w].outcome.Ok?
    ensures var waiter := After(INITIAL, events).waiters[w];
            exists i :: 0 <= i < |LogAfter(EMPTY, INITIAL, events).finished|
                        && LogAfter(EMPTY, INITIAL, events).finished[i].0 >= waiter.generation
                        && Drained(LogAfter(EMPTY, INITIAL, events).finished[i].1)
                        && waiter.outcome.classified == Total(LogAfter(EMPTY, INITIAL, events).finished[i].1)
  {
    hide Inv, RunnersLogged, ScheduleLogged, After, LogAfter, Possible, Drained, Total;
    FromStart(events);
    assert AnswerLogged(LogAfter(EMPTY, INITIAL, events), After(INITIAL, events).waiters[w]);
  }

  /** A drain loop asks for up to 64 messages and reads the generation again exactly after a whole batch
      of 64. */
  lemma BatchesOfSixtyFour(s: System, r: nat, batch: set<Id>, error: string)
    ensures Enabled(s, SelectBatch(r, batch)) ==> |batch| <= 64 && (|batch| < 64 ==> |batch| == |s.pending|)
    ensures Enabled(s, ApplyBatch(r, batch, error)) && batch == s.runners[r].batch ==>
              (Step(s, ApplyBatch(r, batch, error)).runners[r].Reading? <==> |batch| == 64)
  {
  }

  // ---------------------------------------------------------------- what an Ok covers

  /** The message leaves the store, or is classified. */
  predicate Takes(e: Event, id: Id) {
    e == Leave(id) || (e.ApplyBatch? && id in e.applied)
  }

  predicate IsTaken(events: seq<Event>, id: Id) {
    exists i :: 0 <= i < |events| && Takes(events[i], id)
  }

  lemma NotTakenLater(events: seq<Event>, id: Id)
    requires events != [] && !IsTaken(events, id)
    ensures !Takes(events[0], id) && !IsTaken(events[1..], id)
  {
    forall i | 0 <= i < |events[1..]|
      ensures !Takes(events[1..][i], id)
    {
      assert events[1..][i] == events[i + 1];
    }
  }

  lemma StepKeepsPending(s: System, e: Event, id: Id)
    requires Enabled(s, e) && !Takes(e, id) && (id in s.pending || e == Arrive(id))
    ensures id in Step(s, e).pending
  {
    hide AfterBatch, AfterFailure, Answer;
  }

  lemma StepKeepsOwed(s: System, e: Event, id: Id, g: nat)
    requires Enabled(s, e) && !Takes(e, id) && g in s.owed && id in s.owed[g] && g <= s.schedule.requestedGeneration
    ensures var q := Step(s, e); g in q.owed && id in q.owed[g] && g <= q.schedule.requestedGeneration
  {
    hide AfterBatch, AfterFailure, Answer;
  }

  lemma {:induction false} StaysPending(s: System, events: seq<Event>, id: Id)
    requires Possible(s, events) && id in s.pending && !IsTaken(events, id)
    ensures id in After(s, events).pending
    decreases |events|
  {
    hide Enabled, Step, IsTaken, Takes;
    if events != [] {
      NotTakenLater(events, id);
      StepKeepsPending(s, events[0], id);
      StaysPending(Step(s, events[0]), events[1..], id);
    }
  }

  lemma {:induction false} StaysOwed(s: System, events: seq<Event>, id: Id, g: nat)
    requires Possible(s, events) && !IsTaken(events, id)
    requires g in s.owed && id in s.owed[g] && g <= s.schedule.requestedGeneration
    ensures var q := After(s, events); g in q.owed && id in q.owed[g]
    decreases |events|
  {
    hide Enabled, Step, IsTaken, Takes;
    if events != [] {
      NotTakenLater(events, id);
      StepKeepsOwed(s, events[0], id, g);
      StaysOwed(Step(s, events[0]), events[1..], id, g);
    }
  }

  lemma KickOwes(s: System, r: nat, id: Id)
    requires Enabled(s, Kick(r)) && id in s.pending
    ensures var q, g := Step(s, Kick(r)), s.schedule.requestedGeneration + 1;
            q.schedule.requestedGeneration == g && g in q.owed && id in q.owed[g]
  {
  }

  /** A message arrives, later a kick is made, and later still a waiter for the generation of that kick has
      returned Ok: then the message has been classified, or has left the store, since it arrived. */
  lemma OkCoversArrivals(before: seq<Event>, id: Id, meanwhile: seq<Event>, r: nat, events: seq<Event>, w: nat)
    requires Possible(INITIAL, before)
    requires Possible(Step(After(INITIAL, before), Arrive(id)), meanwhile)
    requires Enabled(After(Step(After(INITIAL, before), Arrive(id)), meanwhile), Kick(r))
    requires Possible(Step(After(Step(After(INITIAL, before), Arrive(id)), meanwhile), Kick(r)), events)
    requires var kicked := After(Step(After(INITIAL, before), Arrive(id)), meanwhile);
             var end := After(Step(kicked, Kick(r)), events);
             && w in end.waiters && end.waiters[w].Returned? && end.waiters[w].outcome.Ok?
             && end.waiters[w].generation == kicked.schedule.requestedGeneration + 1
    ensures IsTaken(meanwhile, id) || IsTaken(events, id)
  {
    hide Inv, Step, IsTaken, Takes;
    var s := After(INITIAL, before);
    var kicked := After(Step(s, Arrive(id)), meanwhile);
    var after := Step(kicked, Kick(r));
    FreshIsInv();
    RunsKeepInv(INITIAL, before);
    StepKeepsInv(s, Arrive(id));
    RunsKeepInv(Step(s, Arrive(id)), meanwhile);
    StepKeepsInv(kicked, Kick(r));
    RunsKeepInv(after, events);
    OkOwesNothing(After(after, events), w);
    ArrivalIsPending(s, id);
    if !IsTaken(meanwhile, id) && !IsTaken(events, id) {
      StaysPending(Step(s, Arrive(id)), meanwhile, id);
      KickOwes(kicked, r, id);
      StaysOwed(after, events, id, kicked.schedule.requestedGeneration + 1);
      assert false;
    }
  }

  lemma ArrivalIsPending(s: System, id: Id)
    ensures id in Step(s, Arrive(id)).pending
  {
  }

  lemma FreshIsInv()
    ensures Inv(INITIAL)
  {
  }

  lemma OkOwesNothing(s: System, w: nat)
    requires Inv(s) && w in s.waiters && s.waiters[w].Returned? && s.waiters[w].outcome.Ok?
    ensures s.waiters[w].generation in s.owed && s.owed[s.waiters[w].generation] == {}
  {
    assert WaiterInv(s, s.waiters[w]);
  }
}
