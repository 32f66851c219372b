/**
 The prioritised hydration worker of realtime.rs: an unbounded arrival queue, a maintenance
 queue of capacity one into which warm requests are coalesced, and a worker that polls
 cancellation, arrivals and maintenance in that order.

 The polls of one `select!` are separate steps, so a batch may be sent between two of them.
 */
module HydrationQueue {
  import opened Basics

  const MAINTENANCE_CAPACITY := 1

  /** An accepted arrival that has not started.  `behind` is history: how many maintenance
      passes it has waited for, the one running when it was accepted included. */
  datatype Arrival<T> = Arrival(batch: T, behind: nat)

  datatype Phase<T> = PollCancel | PollArrivals | PollMaintenance | Busy(batch: T, maintenance: bool) | Ended

  /** `unserved` is history: the warm requests made since a maintenance pass last started.
      The `sent` and `started` sequences are the history of both queues. */
  datatype State<T> = State(
    arrivals: seq<Arrival<T>>, maintenance: seq<T>, arrivalsOpen: bool, maintenanceOpen: bool, cancel: bool,
    arrivalsClosed: bool, maintenanceClosed: bool, phase: Phase<T>,
    sentArrivals: seq<T>, sentMaintenance: seq<T>, startedArrivals: seq<T>, startedMaintenance: seq<T>, finished: nat,
    unserved: nat)

  function Initial<T>(): State<T> {
    State([], [], true, true, false, false, false, PollCancel, [], [], [], [], 0, 0)
  }

  datatype Event<T> =
    | SendArrival(batch: T)
    | RequestWarm(batch: T)
    | DropArrivalSender
    | DropMaintenanceSender
    | Cancel
    | Break
    | NoticeCancel
    | PassCancel
    | TakeArrival
    | SeeArrivalsClosed
    | PassArrivals
    | TakeMaintenance
    | SeeMaintenanceClosed
    | PollAgain
    | FinishOperation

  /** The arrivals branch of the select has something to return. */
  predicate ArrivalsReady<T>(s: State<T>) {
    !s.arrivalsClosed && (s.arrivals != [] || !s.arrivalsOpen)
  }

  predicate MaintenanceReady<T>(s: State<T>) {
    !s.maintenanceClosed && (s.maintenance != [] || !s.maintenanceOpen)
  }

  predicate Enabled<T>(s: State<T>, e: Event<T>) {
    match e
    case SendArrival(_) => s.arrivalsOpen
    case RequestWarm(_) => s.maintenanceOpen
    case DropArrivalSender => s.arrivalsOpen
    case DropMaintenanceSender => s.maintenanceOpen
    case Cancel => true
    case Break => s.phase.PollCancel? && s.arrivalsClosed && s.maintenanceClosed
    case NoticeCancel => s.phase.PollCancel? && !(s.arrivalsClosed && s.maintenanceClosed) && s.cancel
    case PassCancel => s.phase.PollCancel? && !(s.arrivalsClosed && s.maintenanceClosed) && !s.cancel
    case TakeArrival => s.phase.PollArrivals? && ArrivalsReady(s) && s.arrivals != []
    case SeeArrivalsClosed => s.phase.PollArrivals? && ArrivalsReady(s) && s.arrivals == []
    case PassArrivals => s.phase.PollArrivals? && !ArrivalsReady(s)
    case TakeMaintenance => s.phase.PollMaintenance? && MaintenanceReady(s) && s.maintenance != []
    case SeeMaintenanceClosed => s.phase.PollMaintenance? && MaintenanceReady(s) && s.maintenance == []
    case PollAgain => s.phase.PollMaintenance? && !MaintenanceReady(s)
    case FinishOperation => s.phase.Busy?
  }

  function Overtake<T>(arrivals: seq<Arrival<T>>): (r: seq<Arrival<T>>)
    ensures |r| == |arrivals|
    ensures forall i :: 0 <= i < |r| ==> r[i] == Arrival(arrivals[i].batch, arrivals[i].behind + 1)
  {
    seq(|arrivals|, i requires 0 <= i < |arrivals| => Arrival(arrivals[i].batch, arrivals[i].behind + 1))
  }

  function Step<T>(s: State<T>, e: Event<T>): State<T>
    requires Enabled(s, e)
  {
    match e
    case SendArrival(batch) =>
      if s.phase.Ended? then s
      else
        var behind := if s.phase.Busy? && s.phase.maintenance then 1 else 0;
        s.(arrivals := s.arrivals + [Arrival(batch, behind)], sentArrivals := s.sentArrivals + [batch])
    case RequestWarm(batch) =>
      if s.phase.Ended? then s
      else if |s.maintenance| < MAINTENANCE_CAPACITY then
        s.(maintenance := s.maintenance + [batch], sentMaintenance := s.sentMaintenance + [batch],
           unserved := s.unserved + 1)
      else s.(unserved := s.unserved + 1)
    case DropArrivalSender => s.(arrivalsOpen := false)
    case DropMaintenanceSender => s.(maintenanceOpen := false)
    case Cancel => s.(cancel := true)
    case Break => s.(phase := Ended)
    case NoticeCancel => s.(phase := Ended)
    case PassCancel => s.(phase := PollArrivals)
    case TakeArrival =>
      var batch := s.arrivals[0].batch;
      s.(arrivals := s.arrivals[1..], startedArrivals := s.startedArrivals + [batch], phase := Busy(batch, false))
    case SeeArrivalsClosed => s.(arrivalsClosed := true, phase := PollCancel)
    case PassArrivals => s.(phase := PollMaintenance)
    case TakeMaintenance =>
      var batch := s.maintenance[0];
      s.(maintenance := s.maintenance[1..], startedMaintenance := s.startedMaintenance + [batch],
         phase := Busy(batch, true), unserved := 0, arrivals := Overtake(s.arrivals))
    case SeeMaintenanceClosed => s.(maintenanceClosed := true, phase := PollCancel)
    case PollAgain => s.(phase := PollCancel)
    case FinishOperation => s.(phase := PollCancel, finished := s.finished + 1)
  }

  predicate Possible<T>(s: State<T>, events: seq<Event<T>>)
    decreases |events|
  {
    events == [] || (Enabled(s, events[0]) && Possible(Step(s, events[0]), events[1..]))
  }

  function After<T>(s: State<T>, events: seq<Event<T>>): State<T>
    requires Possible(s, events)
    decreases |events|
  {
    if events == [] then s else After(Step(s, events[0]), events[1..])
  }

  // ---------------------------------------------------------------- the invariant

  function Batches<T>(arrivals: seq<Arrival<T>>): (r: seq<T>)
    ensures |r| == |arrivals|
    ensures forall i :: 0 <= i < |r| ==> r[i] == arrivals[i].batch
  {
    seq(|arrivals|, i requires 0 <= i < |arrivals| => arrivals[i].batch)
  }

  /** Each queue is a FIFO: what was accepted is what has started, followed by what waits. */
  ghost predicate FifoInv<T>(s: State<T>) {
    && s.sentArrivals == s.startedArrivals + Batches(s.arrivals)
    && s.sentMaintenance == s.startedMaintenance + s.maintenance
    && |s.startedArrivals| + |s.startedMaintenance| == s.finished + (if s.phase.Busy? then 1 else 0)
  }

  /** No waiting arrival is overtaken by a second maintenance pass. */
  predicate PriorityInv<T>(s: State<T>) {
    && (forall i :: 0 <= i < |s.arrivals| ==> s.arrivals[i].behind <= 1)
    && (s.phase.PollMaintenance? ==> forall i :: 0 <= i < |s.arrivals| ==> s.arrivals[i].behind == 0)
  }

  predicate CoalescingInv<T>(s: State<T>) {
    && |s.maintenance| <= MAINTENANCE_CAPACITY
    && (s.unserved > 0 ==> |s.maintenance| == 1)
  }

  predicate ClosingInv<T>(s: State<T>) {
    && (s.arrivalsClosed ==> !s.arrivalsOpen && s.arrivals == [])
    && (s.maintenanceClosed ==> !s.maintenanceOpen && s.maintenance == [])
    && (s.phase.PollArrivals? || s.phase.PollMaintenance? ==> !(s.arrivalsClosed && s.maintenanceClosed))
    && (s.phase.Ended? ==> s.cancel || (s.arrivalsClosed && s.maintenanceClosed))
  }

  ghost predicate Inv<T>(s: State<T>) {
    FifoInv(s) && PriorityInv(s) && CoalescingInv(s) && ClosingInv(s)
  }

  lemma StepKeepsFifo<T>(s: State<T>, e: Event<T>)
    requires FifoInv(s) && Enabled(s, e)
    ensures FifoInv(Step(s, e))
  {
    hide Batches, Overtake;
    match e {
      case TakeArrival => TakenArrival(s.startedArrivals, s.arrivals);
      case TakeMaintenance =>
        SameBatches(s.arrivals);
        Regroup(s.startedMaintenance, [s.maintenance[0]], s.maintenance[1..]);
        assert s.maintenance == [s.maintenance[0]] + s.maintenance[1..];
      case SendArrival(batch) =>
        SentArrival(s.startedArrivals, s.arrivals, batch, if s.phase.Busy? && s.phase.maintenance then 1 else 0);
      case RequestWarm(batch) => Regroup(s.startedMaintenance, s.maintenance, [batch]);
      case _ =>
    }
  }

  lemma TakenArrival<T>(started: seq<T>, arrivals: seq<Arrival<T>>)
    requires arrivals != []
    ensures started + Batches(arrivals) == (started + [arrivals[0].batch]) + Batches(arrivals[1..])
  {
    assert Batches(arrivals) == [arrivals[0].batch] + Batches(arrivals[1..]);
  }

  lemma SentArrival<T>(started: seq<T>, arrivals: seq<Arrival<T>>, batch: T, behind: nat)
    ensures started + Batches(arrivals + [Arrival(batch, behind)]) == (started + Batches(arrivals)) + [batch]
  {
    assert Batches(arrivals + [Arrival(batch, behind)]) == Batches(arrivals) + [batch];
  }

  lemma SameBatches<T>(arrivals: seq<Arrival<T>>)
    ensures Batches(Overtake(arrivals)) == Batches(arrivals)
  {
  }

  lemma StepKeepsInv<T>(s: State<T>, e: Event<T>)
    requires Inv(s) && Enabled(s, e)
    ensures Inv(Step(s, e))
  {
    StepKeepsFifo(s, e);
    hide FifoInv, Batches;
    StepKeepsPriority(s, e);
    StepKeepsQueues(s, e);
  }

  lemma StepKeepsPriority<T>(s: State<T>, e: Event<T>)
    requires PriorityInv(s) && ClosingInv(s) && Enabled(s, e)
    ensures PriorityInv(Step(s, e))
  {
  }

  lemma StepKeepsQueues<T>(s: State<T>, e: Event<T>)
    requires CoalescingInv(s) && ClosingInv(s) && Enabled(s, e)
    ensures CoalescingInv(Step(s, e)) && ClosingInv(Step(s, e))
  {
  }

  lemma {:induction false} RunsKeepInv<T>(s: State<T>, events: seq<Event<T>>)
    requires Inv(s) && Possible(s, events)
    ensures Inv(After(s, events))
    decreases |events|
  {
    hide Inv, Step, Enabled;
    if events != [] {
      StepKeepsInv(s, events[0]);
      RunsKeepInv(Step(s, events[0]), events[1..]);
    }
  }

  lemma RunFromStart<T>(events: seq<Event<T>>)
    requires Possible(Initial(), events)
    ensures Inv(After(Initial(), events))
  {
    RunsKeepInv(Initial(), events);
  }

  // ---------------------------------------------------------------- the theorems

  /** At every moment of every run, the batches of each queue have been started in the order in
      which they were accepted, each at most once, and none was dropped from a queue. */
  lemma StartedInOrder<T>(events: seq<Event<T>>)
    requires Possible(Initial(), events)
    ensures var s := After(Initial(), events);
            s.startedArrivals <= s.sentArrivals && s.startedMaintenance <= s.sentMaintenance
  {
    RunFromStart(events);
  }

  /** If never cancelled, the worker ends only when both queues are closed and empty; then every
      accepted batch has been processed, exactly once and in order, and no warm request is left
      unserved. */
  lemma EndedMeansDone<T>(events: seq<Event<T>>)
    requires Possible(Initial(), events)
    ensures var s := After(Initial(), events);
            s.phase.Ended? && !s.cancel ==>
              && !s.arrivalsOpen && !s.maintenanceOpen && s.arrivals == [] && s.maintenance == []
              && s.startedArrivals == s.sentArrivals && s.startedMaintenance == s.sentMaintenance
              && s.finished == |s.sentArrivals| + |s.sentMaintenance|
              && s.unserved == 0
  {
    RunFromStart(events);
  }

  /** An arrival waits for at most one maintenance pass. */
  lemma ArrivalWaitsForOnePass<T>(events: seq<Event<T>>)
    requires Possible(Initial(), events)
    ensures var s := After(Initial(), events);
            forall i :: 0 <= i < |s.arrivals| ==> s.arrivals[i].behind <= 1
  {
    RunFromStart(events);
  }

  /** As long as some warm request has not been followed by a maintenance pass, one is queued:
      dropping a request because the slot is full loses nothing. */
  lemma WarmRequestIsQueued<T>(events: seq<Event<T>>)
    requires Possible(Initial(), events)
    ensures var s := After(Initial(), events);
            s.unserved > 0 ==> |s.maintenance| == 1 && !(s.phase.Ended? && !s.cancel)
  {
    RunFromStart(events);
  }

  // -- nothing is stuck

  predicate Own<T>(e: Event<T>) {
    !(e.SendArrival? || e.RequestWarm? || e.DropArrivalSender? || e.DropMaintenanceSender? || e.Cancel?)
  }

  lemma WorkerCanStep<T>(s: State<T>) returns (e: Event<T>)
    requires !s.phase.Ended?
    ensures Own(e) && Enabled(s, e)
  {
    match s.phase {
      case PollCancel =>
        e := if s.arrivalsClosed && s.maintenanceClosed then Break else if s.cancel then NoticeCancel else PassCancel;
      case PollArrivals =>
        e := if !ArrivalsReady(s) then PassArrivals else if s.arrivals != [] then TakeArrival else SeeArrivalsClosed;
      case PollMaintenance =>
        e := if !MaintenanceReady(s) then PollAgain
             else if s.maintenance != [] then TakeMaintenance
             else SeeMaintenanceClosed;
      case Busy(_, _) => e := FinishOperation;
    }
  }

  /** A bound on the worker's own steps once both senders are gone. */
  function Remaining<T>(s: State<T>): nat {
    5 * (|s.arrivals| + |s.maintenance|)
    + (if s.arrivalsClosed then 0 else 5) + (if s.maintenanceClosed then 0 else 5)
    + (match s.phase
       case Ended => 0
       case PollMaintenance => if s.arrivalsClosed then 1 else 6
       case PollArrivals => 2
       case PollCancel => 3
       case Busy(_, _) => 4)
  }

  /** After both senders are dropped every step of the worker brings it closer to its end. */
  lemma WorkerDrains<T>(s: State<T>, e: Event<T>)
    requires Inv(s) && Enabled(s, e) && Own(e)
    requires !s.arrivalsOpen && !s.maintenanceOpen
    ensures Remaining(Step(s, e)) < Remaining(s)
  {
    hide FifoInv, PriorityInv;
  }

  predicate AllOwn<T>(events: seq<Event<T>>) {
    forall i :: 0 <= i < |events| ==> Own(events[i])
  }

  /** After both senders are dropped the worker takes at most `Remaining` steps, and since it can
      always take one (`WorkerCanStep`), it then has ended. */
  lemma {:induction false} WorkerEnds<T>(s: State<T>, events: seq<Event<T>>)
    requires Inv(s) && Possible(s, events) && AllOwn(events)
    requires !s.arrivalsOpen && !s.maintenanceOpen
    ensures |events| + Remaining(After(s, events)) <= Remaining(s)
    ensures |events| >= Remaining(s) ==> After(s, events).phase.Ended?
    decreases |events|
  {
    hide Inv, Remaining, Own, Enabled;
    if events == [] {
      NothingRemains(s);
    } else {
      var e := events[0];
      assert Own(e);
      WorkerDrains(s, e);
      StepKeepsInv(s, e);
      SendersStayGone(s, e);
      assert forall i :: 0 <= i < |events[1..]| ==> events[1..][i] == events[i + 1];
      WorkerEnds(Step(s, e), events[1..]);
    }
  }

  lemma NothingRemains<T>(s: State<T>)
    ensures Remaining(s) == 0 ==> s.phase.Ended?
  {
  }

  lemma SendersStayGone<T>(s: State<T>, e: Event<T>)
    requires Enabled(s, e) && Own(e) && !s.arrivalsOpen && !s.maintenanceOpen
    ensures !Step(s, e).arrivalsOpen && !Step(s, e).maintenanceOpen
  {
  }

  /** The loop itself, once both senders are gone and nothing is cancelled: both receive branches
      are ready, so the first one wins until it reports its queue closed. */
  method DrainClosedQueues<T>(arrivals: seq<T>, maintenance: seq<T>) returns (processed: seq<T>)
    ensures processed == arrivals + maintenance
  {
    var arrivalQueue, maintenanceQueue := arrivals, maintenance;
    var arrivalsClosed, maintenanceClosed := false, false;
    processed := [];
    while !(arrivalsClosed && maintenanceClosed)
      invariant !arrivalsClosed ==> processed + arrivalQueue == arrivals && maintenanceQueue == maintenance
      invariant !arrivalsClosed ==> !maintenanceClosed
      invariant arrivalsClosed ==> processed + maintenanceQueue == arrivals + maintenance
      invariant maintenanceClosed ==> maintenanceQueue == []
      decreases |arrivalQueue| + |maintenanceQueue|, !arrivalsClosed, !maintenanceClosed
    {
      if !arrivalsClosed {
        if arrivalQueue == [] {
          arrivalsClosed := true;
          continue;
        }
        Regroup(processed, [arrivalQueue[0]], arrivalQueue[1..]);
        processed := processed + [arrivalQueue[0]];
        arrivalQueue := arrivalQueue[1..];
      } else {
        if maintenanceQueue == [] {
          maintenanceClosed := true;
          continue;
        }
        Regroup(processed, [maintenanceQueue[0]], maintenanceQueue[1..]);
        processed := processed + [maintenanceQueue[0]];
        maintenanceQueue := maintenanceQueue[1..];
      }
    }
  }
}
