/**
 What the hydration worker does with the batches sent to it, read off the events of a run instead of the
 histories its state keeps: which batches were sent, and which it had in hand when an operation finished.
 */
module HydrationLog {
  import opened Basics
  import opened HydrationQueue

  /** The arrival an event sends while the worker is there to receive it. */
  function SentBy<T>(s: State<T>, e: Event<T>): seq<T> {
    if e.SendArrival? && !s.phase.Ended? then [e.batch] else []
  }

  /** The batch of a warm request that finds the slot of the maintenance queue free. */
  function QueuedBy<T>(s: State<T>, e: Event<T>): seq<T> {
    if e.RequestWarm? && !s.phase.Ended? && s.maintenance == [] then [e.batch] else []
  }

  /** The batch in hand when an operation on an arrival, or a maintenance pass, finishes. */
  function ProcessedBy<T>(s: State<T>, e: Event<T>, maintenance: bool): seq<T> {
    if e.FinishOperation? && s.phase.Busy? && s.phase.maintenance == maintenance then [s.phase.batch] else []
  }

  function Sent<T>(s: State<T>, events: seq<Event<T>>): seq<T>
    requires Possible(s, events)
    decreases |events|
  {
    if events == [] then [] else SentBy(s, events[0]) + Sent(Step(s, events[0]), events[1..])
  }

  function Queued<T>(s: State<T>, events: seq<Event<T>>): seq<T>
    requires Possible(s, events)
    decreases |events|
  {
    if events == [] then [] else QueuedBy(s, events[0]) + Queued(Step(s, events[0]), events[1..])
  }

  function Processed<T>(s: State<T>, events: seq<Event<T>>, maintenance: bool): seq<T>
    requires Possible(s, events)
    decreases |events|
  {
    if events == [] then []
    else ProcessedBy(s, events[0], maintenance) + Processed(Step(s, events[0]), events[1..], maintenance)
  }

  /** What is in hand and waits. */
  function Unfinished<T>(s: State<T>): seq<T> {
    (match s.phase
     case Busy(batch, maintenance) => if maintenance then [] else [batch]
     case _ => [])
    + Batches(s.arrivals)
  }

  function UnfinishedPasses<T>(s: State<T>): seq<T> {
    (match s.phase
     case Busy(batch, maintenance) => if maintenance then [batch] else []
     case _ => [])
    + s.maintenance
  }

  /** One event: what is sent joins the end of what is unfinished, what is finished leaves its front. */
  lemma OneArrivalEvent<T>(s: State<T>, e: Event<T>)
    requires Enabled(s, e)
    ensures Unfinished(s) + SentBy(s, e) == ProcessedBy(s, e, false) + Unfinished(Step(s, e))
  {
    if e.SendArrival? {
      SendingAppends(s, e);
    } else if e.TakeArrival? {
      TakingKeeps(s, e);
    } else if e.TakeMaintenance? || e.FinishOperation? || e.RequestWarm? {
      OthersKeepArrivals(s, e);
    } else {
      hide Step, Batches;
      NothingMoves(s, e);
    }
  }

  predicate Moves<T>(e: Event<T>) {
    e.SendArrival? || e.TakeArrival? || e.TakeMaintenance? || e.FinishOperation? || e.RequestWarm?
  }

  /** The other events leave the queues and what is in hand. */
  lemma NothingMoves<T>(s: State<T>, e: Event<T>)
    requires Enabled(s, e) && !Moves(e)
    ensures var q := Step(s, e);
            q.arrivals == s.arrivals && q.maintenance == s.maintenance
            && (if s.phase.Busy? then q.phase == s.phase else !q.phase.Busy?)
  {
    hide Overtake;
  }

  lemma SendingAppends<T>(s: State<T>, e: Event<T>)
    requires Enabled(s, e) && e.SendArrival?
    ensures Unfinished(s) + SentBy(s, e) == Unfinished(Step(s, e)) && ProcessedBy(s, e, false) == []
  {
    hide Batches, Overtake;
    OneMoreBatch(s.arrivals, e.batch, 0);
    OneMoreBatch(s.arrivals, e.batch, 1);
  }

  lemma TakingKeeps<T>(s: State<T>, e: Event<T>)
    requires Enabled(s, e) && e.TakeArrival?
    ensures Unfinished(s) == Unfinished(Step(s, e)) && SentBy(s, e) == [] && ProcessedBy(s, e, false) == []
  {
    hide Batches, Overtake;
    FirstBatch(s.arrivals);
  }

  lemma OthersKeepArrivals<T>(s: State<T>, e: Event<T>)
    requires Enabled(s, e) && (e.TakeMaintenance? || e.FinishOperation? || e.RequestWarm?)
    ensures Unfinished(s) == ProcessedBy(s, e, false) + Unfinished(Step(s, e)) && SentBy(s, e) == []
  {
    hide Batches, Overtake;
    SameBatches(s.arrivals);
  }

  lemma OneMoreBatch<T>(arrivals: seq<Arrival<T>>, batch: T, behind: nat)
    ensures Batches(arrivals + [Arrival(batch, behind)]) == Batches(arrivals) + [batch]
  {
  }

  lemma FirstBatch<T>(arrivals: seq<Arrival<T>>)
    requires arrivals != []
    ensures Batches(arrivals) == [arrivals[0].batch] + Batches(arrivals[1..])
  {
  }

  lemma OneMaintenanceEvent<T>(s: State<T>, e: Event<T>)
    requires CoalescingInv(s) && Enabled(s, e)
    ensures UnfinishedPasses(s) + QueuedBy(s, e) == ProcessedBy(s, e, true) + UnfinishedPasses(Step(s, e))
  {
    if e.RequestWarm? {
      WarmJoins(s, e);
    } else if e.TakeMaintenance? {
      PassStarts(s, e);
    } else if Moves(e) {
      OthersKeepPasses(s, e);
    } else {
      hide Step;
      NothingMoves(s, e);
    }
  }

  lemma WarmJoins<T>(s: State<T>, e: Event<T>)
    requires CoalescingInv(s) && Enabled(s, e) && e.RequestWarm?
    ensures UnfinishedPasses(s) + QueuedBy(s, e) == UnfinishedPasses(Step(s, e)) && ProcessedBy(s, e, true) == []
  {
    SlotIsFree(s, e.batch);
  }

  lemma PassStarts<T>(s: State<T>, e: Event<T>)
    requires Enabled(s, e) && e.TakeMaintenance?
    ensures UnfinishedPasses(s) == UnfinishedPasses(Step(s, e)) && QueuedBy(s, e) == [] && ProcessedBy(s, e, true) == []
  {
    hide Overtake;
    assert s.maintenance == [s.maintenance[0]] + s.maintenance[1..];
  }

  lemma OthersKeepPasses<T>(s: State<T>, e: Event<T>)
    requires Enabled(s, e) && (e.SendArrival? || e.TakeArrival? || e.FinishOperation?)
    ensures UnfinishedPasses(s) == ProcessedBy(s, e, true) + UnfinishedPasses(Step(s, e)) && QueuedBy(s, e) == []
  {
  }

  lemma SlotIsFree<T>(s: State<T>, batch: T)
    requires CoalescingInv(s)
    ensures |s.maintenance| < MAINTENANCE_CAPACITY <==> s.maintenance == []
    ensures s.maintenance == [] ==> [] + s.maintenance + [batch] == [batch]
  {
  }

  lemma {:induction false} ArrivalsAreKept<T>(s: State<T>, events: seq<Event<T>>)
    requires Possible(s, events)
    ensures Unfinished(s) + Sent(s, events) == Processed(s, events, false) + Unfinished(After(s, events))
    decreases |events|
  {
    hide Step, Enabled, Unfinished, SentBy, ProcessedBy;
    if events != [] {
      var e, q := events[0], Step(s, events[0]);
      OneArrivalEvent(s, e);
      ArrivalsAreKept(q, events[1..]);
      Conserved(Unfinished(s), SentBy(s, e), ProcessedBy(s, e, false), Unfinished(q),
                Sent(q, events[1..]), Processed(q, events[1..], false), Unfinished(After(s, events)));
    }
  }

  lemma Conserved<T>(a: seq<T>, sent: seq<T>, done: seq<T>, b: seq<T>, sentLater: seq<T>, doneLater: seq<T>, c: seq<T>)
    requires a + sent == done + b && b + sentLater == doneLater + c
    ensures a + (sent + sentLater) == (done + doneLater) + c
  {
    Regroup(a, sent, sentLater);
    Regroup(done, b, sentLater);
    Regroup(done, doneLater, c);
  }

  lemma {:induction false} PassesAreKept<T>(s: State<T>, events: seq<Event<T>>)
    requires Inv(s) && Possible(s, events)
    ensures UnfinishedPasses(s) + Queued(s, events) == Processed(s, events, true) + UnfinishedPasses(After(s, events))
    decreases |events|
  {
    hide Step, Enabled, UnfinishedPasses, QueuedBy, ProcessedBy, FifoInv, PriorityInv, CoalescingInv, ClosingInv;
    if events != [] {
      var e, q := events[0], Step(s, events[0]);
      OneMaintenanceEvent(s, e);
      StepKeepsInv(s, e);
      PassesAreKept(q, events[1..]);
      Conserved(UnfinishedPasses(s), QueuedBy(s, e), ProcessedBy(s, e, true), UnfinishedPasses(q),
                Queued(q, events[1..]), Processed(q, events[1..], true), UnfinishedPasses(After(s, events)));
    }
  }

  // ---------------------------------------------------------------- the theorems

  /** On every run the batches processed are the first of those sent, in the order they were sent, and so are the
      maintenance passes of the warm requests that were queued; if the worker ends and was never cancelled,
      they are all of them. */
  lemma ProcessesWhatWasSent<T>(events: seq<Event<T>>)
    requires Possible(Initial(), events)
    ensures Processed(Initial(), events, false) <= Sent(Initial(), events)
    ensures Processed(Initial(), events, true) <= Queued(Initial(), events)
    ensures After(Initial(), events).phase.Ended? && (forall i :: 0 <= i < |events| ==> !events[i].Cancel?) ==>
              Processed(Initial(), events, false) == Sent(Initial(), events)
              && Processed(Initial(), events, true) == Queued(Initial(), events)
  {
    hide Step, Enabled, Sent, Queued, Processed, After, Inv, Unfinished, UnfinishedPasses;
    ArrivalsAreKept(Initial(), events);
    FreshInv<T>();
    PassesAreKept(Initial(), events);
    FromNothing(Sent(Initial(), events), Unfinished(Initial<T>()));
    FromNothing(Queued(Initial(), events), UnfinishedPasses(Initial<T>()));
    if After(Initial(), events).phase.Ended? && forall i :: 0 <= i < |events| ==> !events[i].Cancel? {
      NotCancelled(Initial(), events);
      EndedMeansDone(events);
      NothingLeft(After(Initial(), events));
    }
  }

  lemma FromNothing<T>(a: seq<T>, nothing: seq<T>)
    requires nothing == []
    ensures nothing + a == a
  {
  }

  lemma NothingLeft<T>(s: State<T>)
    requires s.phase.Ended? && s.arrivals == [] && s.maintenance == []
    ensures Unfinished(s) == [] && UnfinishedPasses(s) == []
  {
  }

  lemma FreshInv<T>()
    ensures Inv(Initial<T>()) && Unfinished(Initial<T>()) == [] && UnfinishedPasses(Initial<T>()) == []
  {
  }

  lemma {:induction false} NotCancelled<T>(s: State<T>, events: seq<Event<T>>)
    requires Possible(s, events) && forall i :: 0 <= i < |events| ==> !events[i].Cancel?
    ensures After(s, events).cancel == s.cancel
    decreases |events|
  {
    hide Enabled, Step;
    if events != [] {
      assert !events[0].Cancel?;
      KeepsCancel(s, events[0]);
      assert forall i :: 0 <= i < |events[1..]| ==> events[1..][i] == events[i + 1];
      NotCancelled(Step(s, events[0]), events[1..]);
    }
  }

  lemma KeepsCancel<T>(s: State<T>, e: Event<T>)
    requires Enabled(s, e) && !e.Cancel?
    ensures Step(s, e).cancel == s.cancel
  {
    hide Overtake;
  }

  // -- warm requests

  predicate StartsPass<T>(events: seq<Event<T>>) {
    exists i :: 0 <= i < |events| && events[i].TakeMaintenance?
  }

  lemma {:induction false} StaysQueued<T>(s: State<T>, events: seq<Event<T>>)
    requires Possible(s, events) && s.maintenance != [] && !StartsPass(events)
    ensures After(s, events).maintenance != []
    decreases |events|
  {
    hide Enabled, Step;
    if events != [] {
      assert !events[0].TakeMaintenance?;
      KeepsSlot(s, events[0]);
      forall i | 0 <= i < |events[1..]|
        ensures !events[1..][i].TakeMaintenance?
      {
        assert events[1..][i] == events[i + 1];
      }
      StaysQueued(Step(s, events[0]), events[1..]);
    }
  }

  lemma KeepsSlot<T>(s: State<T>, e: Event<T>)
    requires Enabled(s, e) && !e.TakeMaintenance? && s.maintenance != []
    ensures Step(s, e).maintenance != []
  {
    hide Overtake;
  }

  /** Whenever a warm request is made, a maintenance pass starts after it, unless the worker is cancelled or
      still at work: also if the request found the slot taken. */
  lemma WarmRequestIsServed<T>(before: seq<Event<T>>, batch: T, events: seq<Event<T>>)
    requires Possible(Initial(), before) && !After(Initial(), before).phase.Ended?
    requires Possible(After(Initial(), before), [RequestWarm(batch)] + events)
    ensures var s := After(After(Initial(), before), [RequestWarm(batch)] + events);
            s.phase.Ended? && !s.cancel ==> StartsPass(events)
  {
    RunFromStart(before);
    var s := After(Initial(), before);
    var all := [RequestWarm(batch)] + events;
    RunsKeepInv(s, all);
    assert all[0] == RequestWarm(batch) && all[1..] == events;
    var q := Step(s, RequestWarm(batch));
    hide Inv, Step, Enabled, StartsPass;
    QueuedNow(s, batch);
    if !StartsPass(events) {
      StaysQueued(q, events);
    }
    if After(s, all).phase.Ended? && !After(s, all).cancel {
      EndsWithoutPasses(After(s, all));
    }
  }

  lemma QueuedNow<T>(s: State<T>, batch: T)
    requires !s.phase.Ended? && Enabled(s, RequestWarm(batch))
    ensures Step(s, RequestWarm(batch)).maintenance != []
  {
  }

  lemma EndsWithoutPasses<T>(s: State<T>)
    requires Inv(s) && s.phase.Ended? && !s.cancel
    ensures s.maintenance == []
  {
    hide FifoInv, PriorityInv, CoalescingInv;
  }

  // -- cancellation

  function Starting<T>(e: Event<T>): nat {
    if e.TakeArrival? || e.TakeMaintenance? then 1 else 0
  }

  /** The operations started in a run. */
  function Starts<T>(events: seq<Event<T>>): nat {
    if events == [] then 0 else Starting(events[0]) + Starts(events[1..])
  }

  function OwnSteps<T>(events: seq<Event<T>>): nat {
    if events == [] then 0 else (if Own(events[0]) then 1 else 0) + OwnSteps(events[1..])
  }

  /** Whether the worker is past the poll that notices a cancellation. */
  function CanStart<T>(s: State<T>): nat {
    if s.phase.PollArrivals? || s.phase.PollMaintenance? then 1 else 0
  }

  /** The steps a cancelled worker has left. */
  function StepsLeft<T>(s: State<T>): nat {
    match s.phase
    case Ended => 0
    case PollCancel => 1
    case Busy(_, _) => 2
    case PollMaintenance => 3
    case PollArrivals => 4
  }

  lemma CancelledStep<T>(s: State<T>, e: Event<T>)
    requires s.cancel && Enabled(s, e)
    ensures var q := Step(s, e);
            && q.cancel && Starting(e) + CanStart(q) <= CanStart(s)
            && (if Own(e) then 1 else 0) + StepsLeft(q) <= StepsLeft(s)
  {
  }

  lemma {:induction false} CancelledRun<T>(s: State<T>, events: seq<Event<T>>)
    requires s.cancel && Possible(s, events)
    ensures Starts(events) + CanStart(After(s, events)) <= CanStart(s)
    ensures OwnSteps(events) + StepsLeft(After(s, events)) <= StepsLeft(s)
    decreases |events|
  {
    hide Step, Enabled, Own, Starting;
    if events != [] {
      CancelledStep(s, events[0]);
      CancelledRun(Step(s, events[0]), events[1..]);
    }
  }

  /** After a cancellation the worker starts at most one more operation, and none when it was about to poll for
      the cancellation, was busy or had ended; and after at most four steps of its own it has ended, whatever
      is sent to it. */
  lemma CancelledWorkerStops<T>(s: State<T>, events: seq<Event<T>>)
    requires Possible(Step(s, Cancel), events)
    ensures Starts(events) <= if s.phase.PollArrivals? || s.phase.PollMaintenance? then 1 else 0
    ensures OwnSteps(events) <= 4
    ensures OwnSteps(events) == 4 ==> After(Step(s, Cancel), events).phase.Ended?
  {
    hide Starts, OwnSteps, After, Possible;
    CancelledRun(Step(s, Cancel), events);
  }
}
