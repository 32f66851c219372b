/**
 The generation-counting classification scheduler of lib.rs, its drain loop and its waiters.

 `Scheduler` is the source's object: five fields behind one mutex and a notifier.  `Step` is
 the whole native system around it, one event at a time and in any order: messages arriving
 and leaving, kicks, the drain loop's steps with its retries, and any number of waiters.
 */
module ClassificationScheduler {
  import opened Basics
  import opened Options

  const BATCH_SIZE := 64
  /** CLASSIFICATION_RETRY_DELAYS has two entries: a batch is tried three times. */
  const MAX_ATTEMPTS := 3

  datatype Outcome = Ok(classified: nat) | Err(error: string)

  /** `ClassificationScheduleState`. */
  datatype Schedule = Schedule(running: bool, requestedGeneration: nat, completedGeneration: nat,
                               lastCompletedCount: nat, lastFailure: Option<(nat, string)>)

  function Requested(s: Schedule): Schedule {
    s.(requestedGeneration := s.requestedGeneration + 1, running := true)
  }

  /** After a short batch: unchanged when a newer kick has to be served first. */
  function Finished(s: Schedule, generation: nat, classified: nat): Schedule {
    if s.requestedGeneration > generation then s
    else s.(completedGeneration := generation, lastCompletedCount := classified, lastFailure := None, running := false)
  }

  function Failed(s: Schedule, generation: nat, error: string): Schedule {
    s.(completedGeneration := generation, lastFailure := Some((generation, error)),
       running := s.requestedGeneration > generation)
  }

  /** One look of a waiter at the state: None means keep waiting. */
  function Answer(s: Schedule, generation: nat): (r: Option<Outcome>) {
    if s.completedGeneration < generation then None
    else if s.lastFailure.Some? && s.lastFailure.value.0 >= generation then Some(Err(s.lastFailure.value.1))
    else Some(Ok(s.lastCompletedCount))
  }

  class Scheduler {
    var running: bool
    var requestedGeneration: nat
    var completedGeneration: nat
    var lastCompletedCount: nat
    var lastFailure: Option<(nat, string)>
    /** How often `notify_waiters` has been called: a waiter registered at an earlier count
        is woken. */
    var notifications: nat

    function State(): (s: Schedule)
      reads this
    {
      Schedule(running, requestedGeneration, completedGeneration, lastCompletedCount, lastFailure)
    }

    constructor ()
      ensures State() == Schedule(false, 0, 0, 0, None) && notifications == 0
    {
      running, requestedGeneration, completedGeneration := false, 0, 0;
      lastCompletedCount, lastFailure, notifications := 0, None, 0;
    }

    method Request() returns (generation: nat, shouldStart: bool)
      modifies this`requestedGeneration, this`running
      ensures State() == Requested(old(State()))
      ensures generation == requestedGeneration && shouldStart == !old(running)
    {
      requestedGeneration := requestedGeneration + 1;
      generation := requestedGeneration;
      shouldStart := !running;
      if shouldStart {
        running := true;
      }
    }

    method NextGeneration() returns (generation: nat)
      ensures generation == requestedGeneration
    {
      generation := requestedGeneration;
    }

    method FinishGeneration(generation: nat, classified: nat) returns (again: bool)
      modifies this
      ensures State() == Finished(old(State()), generation, classified)
      ensures again == (old(requestedGeneration) > generation)
      ensures notifications == old(notifications) + (if again then 0 else 1)
    {
      if requestedGeneration > generation {
        return true;
      }
      completedGeneration := generation;
      lastCompletedCount := classified;
      lastFailure := None;
      running := false;
      notifications := notifications + 1;
      return false;
    }

    method FailGeneration(generation: nat, error: string) returns (retry: bool)
      modifies this
      ensures State() == Failed(old(State()), generation, error)
      ensures retry == (old(requestedGeneration) > generation)
      ensures notifications == old(notifications) + 1
    {
      completedGeneration := generation;
      lastFailure := Some((generation, error));
      retry := requestedGeneration > generation;
      running := retry;
      notifications := notifications + 1;
    }

    method CheckCompleted(generation: nat) returns (r: Option<Outcome>)
      ensures r == Answer(State(), generation)
      ensures r == None <==> completedGeneration < generation
      ensures r.Some? && r.value.Ok? <==>
                completedGeneration >= generation && (lastFailure == None || lastFailure.value.0 < generation)
      ensures r.Some? && r.value.Ok? ==> r.value.classified == lastCompletedCount
      ensures r.Some? && r.value.Err? ==> lastFailure.Some? && r.value.error == lastFailure.value.1
    {
      if completedGeneration < generation {
        return None;
      }
      match lastFailure {
        case Some((failedGeneration, failure)) =>
          return if failedGeneration >= generation then Some(Err(failure)) else Some(Ok(lastCompletedCount));
        case None =>
          return Some(Ok(lastCompletedCount));
      }
    }
  }

  // ---------------------------------------------------------------- the system

  type Id = string

  /** Where a spawned `drain_pending_classifications_owned` stands. */
  datatype Runner =
    | Reading(classified: nat)
    | Attempting(generation: nat, classified: nat, failures: nat)
    | Applying(generation: nat, classified: nat, failures: nat, batch: set<Id>)
    | Finishing(generation: nat, classified: nat)
    | Failing(generation: nat, classified: nat, error: string)

  /** A call of `wait_for`.  `seen` is the notification count when the waiter registered. */
  datatype Waiter =
    | Registered(generation: nat, seen: nat)
    | Asleep(generation: nat, seen: nat)
    | Returned(generation: nat, outcome: Outcome)

  /** `owed[g]` is history: the messages that were pending when generation g was requested and
      have neither been classified nor left the store since. */
  datatype System = System(schedule: Schedule, notifications: nat, pending: set<Id>, owed: map<nat, set<Id>>,
                           runners: map<nat, Runner>, waiters: map<nat, Waiter>)

  const INITIAL := System(Schedule(false, 0, 0, 0, None), 0, {}, map[], map[], map[])

  datatype Event =
    | Arrive(id: Id)
    | Leave(id: Id)
    | Kick(newRunner: nat)
    | ReadGeneration(runner: nat)
    | SelectBatch(runner: nat, batch: set<Id>)
    | AttemptFails(runner: nat, error: string)
    | ApplyBatch(runner: nat, applied: set<Id>, error: string)
    | Finish(runner: nat)
    | Fail(runner: nat)
    | StartWait(waiter: nat, generation: nat)
    | Look(waiter: nat)
    | Wake(waiter: nat)

  predicate Enabled(s: System, e: Event) {
    match e
    case Arrive(_) => true
    case Leave(_) => true
    case Kick(r) => r !in s.runners
    case ReadGeneration(r) => r in s.runners && s.runners[r].Reading?
    case SelectBatch(r, batch) =>
      r in s.runners && s.runners[r].Attempting? && batch <= s.pending && |batch| == Min(BATCH_SIZE, |s.pending|)
    case AttemptFails(r, _) => r in s.runners && (s.runners[r].Attempting? || s.runners[r].Applying?)
    case ApplyBatch(r, applied, _) =>
      r in s.runners && s.runners[r].Applying? && applied <= s.runners[r].batch && applied <= s.pending
    case Finish(r) => r in s.runners && s.runners[r].Finishing?
    case Fail(r) => r in s.runners && s.runners[r].Failing?
    case StartWait(w, g) => w !in s.waiters && 1 <= g <= s.schedule.requestedGeneration
    case Look(w) => w in s.waiters && s.waiters[w].Registered?
    case Wake(w) => w in s.waiters && s.waiters[w].Asleep? && s.waiters[w].seen < s.notifications
  }

  function Without(owed: map<nat, set<Id>>, gone: set<Id>): map<nat, set<Id>> {
    map g | g in owed :: owed[g] - gone
  }

  /** A failed attempt: try again while the retry delays last. */
  function AfterFailure(r: Runner, error: string): Runner
    requires r.Attempting? || r.Applying?
  {
    if r.failures + 1 < MAX_ATTEMPTS then Attempting(r.generation, r.classified, r.failures + 1)
    else Failing(r.generation, r.classified, error)
  }

  /** The batch was applied; all of it counts, and a full batch means there may be more. */
  function AfterBatch(r: Runner): Runner
    requires r.Applying?
  {
    var classified := r.classified + |r.batch|;
    if |r.batch| == BATCH_SIZE then Reading(classified) else Finishing(r.generation, classified)
  }

  function Without1(runners: map<nat, Runner>, r: nat): map<nat, Runner> {
    map k | k in runners && k != r :: runners[k]
  }

  function Step(s: System, e: Event): System
    requires Enabled(s, e)
  {
    match e
    case Arrive(id) => s.(pending := s.pending + {id})
    case Leave(id) => s.(pending := s.pending - {id}, owed := Without(s.owed, {id}))
    case Kick(r) =>
      var schedule := Requested(s.schedule);
      s.(schedule := schedule,
         owed := s.owed[schedule.requestedGeneration := s.pending],
         runners := if s.schedule.running then s.runners else s.runners[r := Reading(0)])
    case ReadGeneration(r) =>
      s.(runners := s.runners[r := Attempting(s.schedule.requestedGeneration, s.runners[r].classified, 0)])
    case SelectBatch(r, batch) =>
      var runner := s.runners[r];
      s.(runners := s.runners[r := Applying(runner.generation, runner.classified, runner.failures, batch)])
    case AttemptFails(r, error) =>
      s.(runners := s.runners[r := AfterFailure(s.runners[r], error)])
    case ApplyBatch(r, applied, error) =>
      var runner := s.runners[r];
      s.(pending := s.pending - applied, owed := Without(s.owed, applied),
         runners := s.runners[r := if applied == runner.batch then AfterBatch(runner) else AfterFailure(runner, error)])
    case Finish(r) =>
      var runner := s.runners[r];
      var again := s.schedule.requestedGeneration > runner.generation;
      s.(schedule := Finished(s.schedule, runner.generation, runner.classified),
         notifications := s.notifications + (if again then 0 else 1),
         runners := if again then s.runners[r := Reading(runner.classified)] else Without1(s.runners, r))
    case Fail(r) =>
      var runner := s.runners[r];
      var retry := s.schedule.requestedGeneration > runner.generation;
      s.(schedule := Failed(s.schedule, runner.generation, runner.error),
         notifications := s.notifications + 1,
         runners := if retry then s.runners[r := Reading(runner.classified)] else Without1(s.runners, r))
    case StartWait(w, g) =>
      s.(waiters := s.waiters[w := Registered(g, s.notifications)])
    case Look(w) =>
      var waiter := s.waiters[w];
      var answer := Answer(s.schedule, waiter.generation);
      s.(waiters := s.waiters[w := if answer.Some? then Returned(waiter.generation, answer.value)
                                   else Asleep(waiter.generation, waiter.seen)])
    case Wake(w) =>
      s.(waiters := s.waiters[w := Registered(s.waiters[w].generation, s.notifications)])
  }

  /** Every event is enabled when its turn comes. */
  predicate Possible(s: System, events: seq<Event>)
    decreases |events|
  {
    events == [] || (Enabled(s, events[0]) && Possible(Step(s, events[0]), events[1..]))
  }

  function After(s: System, events: seq<Event>): System
    requires Possible(s, events)
    decreases |events|
  {
    if events == [] then s else After(Step(s, events[0]), events[1..])
  }

  // ---------------------------------------------------------------- the invariant

  /** `running` is exactly the outstanding work, and a recorded failure is the latest completion. */
  predicate ScheduleInv(s: Schedule) {
    && s.completedGeneration <= s.requestedGeneration
    && (s.running <==> s.completedGeneration < s.requestedGeneration)
    && (s.lastFailure.Some? ==> s.lastFailure.value.0 == s.completedGeneration)
  }

  /** Exactly one runner while running, none otherwise. */
  ghost predicate OneRunner(s: System) {
    if s.schedule.running then exists r :: s.runners.Keys == {r} else s.runners == map[]
  }

  predicate OwedInv(s: System) {
    && (forall g :: g in s.owed ==> 1 <= g <= s.schedule.requestedGeneration)
    && (forall g :: 1 <= g <= s.schedule.requestedGeneration ==> g in s.owed)
    && (forall g :: g in s.owed ==> s.owed[g] <= s.pending)
  }

  /** Nothing requested up to generation `g` is still owed, beyond what `batch` holds. */
  predicate OwedWithin(s: System, g: nat, batch: set<Id>) {
    forall h :: h in s.owed && h <= g ==> s.owed[h] <= batch
  }

  predicate RunnerInv(s: System, r: Runner) {
    && (!r.Reading? ==> s.schedule.completedGeneration < r.generation <= s.schedule.requestedGeneration)
    && (r.Attempting? || r.Applying? ==> r.failures < MAX_ATTEMPTS)
    && (r.Applying? ==> |r.batch| <= BATCH_SIZE && (|r.batch| < BATCH_SIZE ==> OwedWithin(s, r.generation, r.batch)))
    && (r.Finishing? ==> OwedWithin(s, r.generation, {}))
  }

  predicate RunnersInv(s: System) {
    forall r :: r in s.runners ==> RunnerInv(s, s.runners[r])
  }

  predicate CompletedInv(s: System) {
    s.schedule.lastFailure.None? ==> OwedWithin(s, s.schedule.completedGeneration, {})
  }

  predicate WaiterInv(s: System, w: Waiter) {
    && 1 <= w.generation <= s.schedule.requestedGeneration
    && (!w.Returned? ==> w.seen <= s.notifications)
    && (w.Asleep? && w.seen == s.notifications ==> s.schedule.completedGeneration < w.generation)
    && (w.Returned? && w.outcome.Ok? ==> w.generation in s.owed && s.owed[w.generation] == {})
  }

  predicate WaitersInv(s: System) {
    forall w :: w in s.waiters ==> WaiterInv(s, s.waiters[w])
  }

  ghost predicate Inv(s: System) {
    && ScheduleInv(s.schedule)
    && OneRunner(s)
    && OwedInv(s)
    && RunnersInv(s)
    && CompletedInv(s)
    && WaitersInv(s)
  }

  /** What no event undoes: owed sets only shrink, counters only grow. */
  ghost predicate Forward(s: System, t: System) {
    && s.schedule.requestedGeneration <= t.schedule.requestedGeneration
    && s.notifications <= t.notifications
    && (forall g :: g in s.owed ==> g in t.owed && t.owed[g] <= s.owed[g])
    && (s.notifications == t.notifications ==> s.schedule.completedGeneration == t.schedule.completedGeneration)
  }

  lemma StepIsForward(s: System, e: Event)
    requires Inv(s) && Enabled(s, e)
    ensures Forward(s, Step(s, e))
  {
  }

  lemma BatchCoversOwed(s: System, batch: set<Id>, g: nat)
    requires OwedInv(s) && batch <= s.pending && |batch| == Min(BATCH_SIZE, |s.pending|) && |batch| < BATCH_SIZE
    ensures OwedWithin(s, g, batch)
  {
    assert batch == s.pending by {
      SubsetOfSameSize(batch, s.pending);
    }
  }

  lemma SubsetOfSameSize<T>(a: set<T>, b: set<T>)
    requires a <= b && |a| == |b|
    ensures a == b
  {
    assert |b - a| == |b| - |a|;
  }

  lemma SingleRunner(s: System, r: nat)
    requires Inv(s) && r in s.runners
    ensures s.schedule.running && s.runners.Keys == {r}
  {
  }

  lemma StepKeepsSchedule(s: System, e: Event)
    requires Inv(s) && Enabled(s, e)
    ensures ScheduleInv(Step(s, e).schedule) && OneRunner(Step(s, e))
  {
    var t := Step(s, e);
    match e {
      case Kick(r) =>
        if !s.schedule.running {
          assert t.runners.Keys == {r};
        }
      case ReadGeneration(r) => SameRunners(s, t, r);
      case SelectBatch(r, _) => SameRunners(s, t, r);
      case AttemptFails(r, _) => SameRunners(s, t, r);
      case ApplyBatch(r, _, _) => SameRunners(s, t, r);
      case Finish(r) => RunnerEnds(s, t, r, s.schedule.requestedGeneration > s.runners[r].generation);
      case Fail(r) => RunnerEnds(s, t, r, s.schedule.requestedGeneration > s.runners[r].generation);
      case _ =>
    }
  }

  lemma SameRunners(s: System, t: System, r: nat)
    requires Inv(s) && r in s.runners && t.schedule == s.schedule
    requires t.runners.Keys == s.runners.Keys
    ensures OneRunner(t)
  {
    SingleRunner(s, r);
    assert t.runners.Keys == {r};
  }

  lemma RunnerEnds(s: System, t: System, r: nat, again: bool)
    requires Inv(s) && r in s.runners && t.schedule.running == again
    requires if again then t.runners.Keys == s.runners.Keys else t.runners == Without1(s.runners, r)
    ensures OneRunner(t)
  {
    SingleRunner(s, r);
    if again {
      assert t.runners.Keys == {r};
    } else {
      assert t.runners == map[];
    }
  }

  lemma StepKeepsOwed(s: System, e: Event)
    requires Inv(s) && Enabled(s, e)
    ensures OwedInv(Step(s, e))
  {
  }

  /** A claim about owed messages survives every event that requests nothing up to `g`. */
  lemma OwedWithinIsStable(s: System, e: Event, g: nat, batch: set<Id>)
    requires Inv(s) && Enabled(s, e)
    requires g <= s.schedule.requestedGeneration && OwedWithin(s, g, batch)
    ensures OwedWithin(Step(s, e), g, batch)
  {
    StepIsForward(s, e);
    var t := Step(s, e);
    forall h | h in t.owed && h <= g
      ensures t.owed[h] <= batch
    {
      assert 1 <= h <= s.schedule.requestedGeneration by {
        StepKeepsOwed(s, e);
      }
      assert h in s.owed;
    }
  }

  /** A runner that an event leaves alone keeps its invariant. */
  lemma OtherRunnerStays(s: System, e: Event, r: Runner)
    requires Inv(s) && Enabled(s, e) && RunnerInv(s, r)
    requires !(e.Finish? || e.Fail?)
    ensures RunnerInv(Step(s, e), r)
  {
    hide Inv, Step, Enabled, OwedWithin;
    CountersOnlyGrow(s, e);
    if r.Applying? && |r.batch| < BATCH_SIZE {
      OwedWithinIsStable(s, e, r.generation, r.batch);
    }
    if r.Finishing? {
      OwedWithinIsStable(s, e, r.generation, {});
    }
  }

  lemma CountersOnlyGrow(s: System, e: Event)
    requires Enabled(s, e) && !(e.Finish? || e.Fail?)
    ensures Step(s, e).schedule.completedGeneration == s.schedule.completedGeneration
    ensures Step(s, e).schedule.requestedGeneration >= s.schedule.requestedGeneration
    ensures Step(s, e).schedule.lastFailure == s.schedule.lastFailure
  {
  }

  /** The runner that takes a step of its own ends it in a state that satisfies its invariant. */
  lemma SteppingRunner(s: System, e: Event, r: nat)
    requires Inv(s) && Enabled(s, e) && r in s.runners
    requires match e
             case ReadGeneration(k) => k == r
             case SelectBatch(k, _) => k == r
             case AttemptFails(k, _) => k == r
             case ApplyBatch(k, _, _) => k == r
             case _ => false
    ensures r in Step(s, e).runners && RunnerInv(Step(s, e), Step(s, e).runners[r])
  {
    SingleRunner(s, r);
    var runner := s.runners[r];
    assert RunnerInv(s, runner);
    match e {
      case SelectBatch(_, batch) =>
        if |batch| < BATCH_SIZE {
          BatchCoversOwed(s, batch, runner.generation);
        }
      case ApplyBatch(_, applied, _) =>
        if applied == runner.batch && |applied| < BATCH_SIZE {
          var t := Step(s, e);
          assert forall h :: h in t.owed && h <= runner.generation ==> t.owed[h] == s.owed[h] - applied;
        }
      case _ =>
    }
  }

  lemma StepKeepsRunners(s: System, e: Event)
    requires Inv(s) && Enabled(s, e)
    ensures RunnersInv(Step(s, e))
  {
    hide RunnerInv;
    var t := Step(s, e);
    match e {
      case ReadGeneration(r) => SoleRunner(s, e, r);
      case SelectBatch(r, _) => SoleRunner(s, e, r);
      case AttemptFails(r, _) => SoleRunner(s, e, r);
      case ApplyBatch(r, _, _) => SoleRunner(s, e, r);
      case Finish(r) => EndingRunner(s, e, r);
      case Fail(r) => EndingRunner(s, e, r);
      case Kick(r) =>
        forall k | k in s.runners
          ensures RunnerInv(t, s.runners[k])
        {
          OtherRunnerStays(s, e, s.runners[k]);
        }
        ReadingIsFine(t, 0);
      case _ =>
        forall k | k in s.runners
          ensures RunnerInv(t, s.runners[k])
        {
          OtherRunnerStays(s, e, s.runners[k]);
        }
    }
  }

  lemma ReadingIsFine(t: System, classified: nat)
    ensures RunnerInv(t, Reading(classified))
  {
  }

  lemma SoleRunner(s: System, e: Event, r: nat)
    requires Inv(s) && Enabled(s, e) && r in s.runners
    requires match e
             case ReadGeneration(k) => k == r
             case SelectBatch(k, _) => k == r
             case AttemptFails(k, _) => k == r
             case ApplyBatch(k, _, _) => k == r
             case _ => false
    ensures RunnersInv(Step(s, e))
  {
    hide RunnerInv;
    SingleRunner(s, r);
    SteppingRunner(s, e, r);
    assert Step(s, e).runners.Keys == {r};
  }

  lemma EndingRunner(s: System, e: Event, r: nat)
    requires Inv(s) && Enabled(s, e) && r in s.runners
    requires e == Finish(r) || e == Fail(r)
    ensures RunnersInv(Step(s, e))
  {
    SingleRunner(s, r);
    var t := Step(s, e);
    forall k | k in t.runners
      ensures RunnerInv(t, t.runners[k])
    {
      assert k == r && t.runners[k].Reading?;
    }
  }

  lemma StepKeepsCompleted(s: System, e: Event)
    requires Inv(s) && Enabled(s, e)
    ensures CompletedInv(Step(s, e))
  {
    hide OwedWithin;
    match e {
      case Finish(r) =>
        assert RunnerInv(s, s.runners[r]);
        OwedWithinIsStable(s, e, s.runners[r].generation, {});
        if s.schedule.lastFailure.None? {
          OwedWithinIsStable(s, e, s.schedule.completedGeneration, {});
        }
      case Fail(r) =>
      case _ =>
        CountersOnlyGrow(s, e);
        if s.schedule.lastFailure.None? {
          OwedWithinIsStable(s, e, s.schedule.completedGeneration, {});
        }
    }
  }

  lemma WaiterStays(s: System, e: Event, w: Waiter)
    requires Inv(s) && Enabled(s, e) && WaiterInv(s, w)
    ensures WaiterInv(Step(s, e), w)
  {
    hide Inv, Step, Enabled;
    StepIsForward(s, e);
  }

  /** A waiter that looks either leaves with a justified answer or sleeps with one still to come. */
  lemma LookIsSound(s: System, w: nat)
    requires Inv(s) && Enabled(s, Look(w))
    ensures w in Step(s, Look(w)).waiters && WaiterInv(Step(s, Look(w)), Step(s, Look(w)).waiters[w])
  {
    var waiter := s.waiters[w];
    assert WaiterInv(s, waiter);
    var answer := Answer(s.schedule, waiter.generation);
    if answer.Some? && answer.value.Ok? {
      assert s.schedule.lastFailure.None?;
      assert s.owed[waiter.generation] <= {};
    }
  }

  lemma StepKeepsWaiters(s: System, e: Event)
    requires Inv(s) && Enabled(s, e)
    ensures WaitersInv(Step(s, e))
  {
    hide WaiterInv, Inv;
    var t := Step(s, e);
    forall k | k in t.waiters
      ensures WaiterInv(t, t.waiters[k])
    {
      if e.Look? && k == e.waiter {
        LookIsSound(s, k);
      } else if e.StartWait? && k == e.waiter {
        FreshWaiter(t, e.generation);
      } else if e.Wake? && k == e.waiter {
        OldWaiter(s, k);
        FreshWaiter(t, s.waiters[k].generation);
      } else {
        OldWaiter(s, k);
        WaiterStays(s, e, s.waiters[k]);
      }
    }
  }

  lemma OldWaiter(s: System, k: nat)
    requires Inv(s) && k in s.waiters
    ensures WaiterInv(s, s.waiters[k])
    ensures 1 <= s.waiters[k].generation <= s.schedule.requestedGeneration
  {
  }

  lemma FreshWaiter(t: System, g: nat)
    requires 1 <= g <= t.schedule.requestedGeneration
    ensures WaiterInv(t, Registered(g, t.notifications))
  {
  }

  lemma StepKeepsInv(s: System, e: Event)
    requires Inv(s) && Enabled(s, e)
    ensures Inv(Step(s, e))
  {
    hide Step, Enabled, RunnersInv, WaitersInv, OwedInv, CompletedInv, ScheduleInv, OneRunner;
    StepKeepsSchedule(s, e);
    StepKeepsOwed(s, e);
    StepKeepsRunners(s, e);
    StepKeepsCompleted(s, e);
    StepKeepsWaiters(s, e);
  }

  lemma {:induction false} RunsKeepInv(s: System, events: seq<Event>)
    requires Inv(s) && Possible(s, events)
    ensures Inv(After(s, events))
    decreases |events|
  {
    hide Inv, Step, Enabled;
    if events != [] {
      StepKeepsInv(s, events[0]);
      RunsKeepInv(Step(s, events[0]), events[1..]);
    }
  }

  // ---------------------------------------------------------------- the theorems

  ghost predicate Reachable(s: System) {
    exists events :: Possible(INITIAL, events) && After(INITIAL, events) == s
  }

  lemma ReachableIsInv(s: System)
    requires Reachable(s)
    ensures Inv(s)
  {
    hide Step, Enabled;
    var events :| Possible(INITIAL, events) && After(INITIAL, events) == s;
    RunsKeepInv(INITIAL, events);
  }

  /** Drain coverage.  Whatever arrivals, kicks, full and short batches, retries and failures
      came in between: when `wait_for(g)` has returned Ok, every message that was pending when
      generation g was requested has been classified since (or has left the store). */
  lemma OkMeansClassified(s: System, w: nat)
    requires Reachable(s) && w in s.waiters
    requires s.waiters[w].Returned? && s.waiters[w].outcome.Ok?
    ensures s.waiters[w].generation in s.owed && s.owed[s.waiters[w].generation] == {}
  {
    ReachableIsInv(s);
    assert WaiterInv(s, s.waiters[w]);
  }

  /** One look, in any reachable state: the waiter leaves exactly when its generation is completed, with
      the stored count if no failure is stored and with the stored failure otherwise. */
  lemma LookAnswers(s: System, w: nat)
    requires Reachable(s) && w in s.waiters && s.waiters[w].Registered?
    ensures var g, later := s.waiters[w].generation, Step(s, Look(w)).waiters[w];
            && (s.schedule.completedGeneration < g ==> later == Asleep(g, s.waiters[w].seen))
            && (s.schedule.completedGeneration >= g && s.schedule.lastFailure == None ==>
                  later == Returned(g, Ok(s.schedule.lastCompletedCount)))
            && (s.schedule.completedGeneration >= g && s.schedule.lastFailure.Some? ==>
                  later == Returned(g, Err(s.schedule.lastFailure.value.1)))
  {
    ReachableIsInv(s);
  }

  /** In every reachable state, `running` holds exactly while a request is outstanding, exactly
      then there is one runner, and a recorded failure belongs to the latest completion. */
  lemma RunningMeansOneRunner(s: System)
    requires Reachable(s)
    ensures s.schedule.running <==> s.schedule.completedGeneration < s.schedule.requestedGeneration
    ensures |s.runners| == if s.schedule.running then 1 else 0
    ensures s.schedule.lastFailure.Some? ==> s.schedule.lastFailure.value.0 == s.schedule.completedGeneration
  {
    ReachableIsInv(s);
    if s.schedule.running {
      var r :| s.runners.Keys == {r};
      assert |s.runners| == |s.runners.Keys|;
    }
  }

  /** No lost wake-up: a waiter asleep with no notification since it registered has a runner
      in the drain loop that will still notify it. */
  lemma SleeperHasARunner(s: System, w: nat)
    requires Reachable(s) && w in s.waiters
    requires s.waiters[w].Asleep? && s.waiters[w].seen == s.notifications
    ensures s.schedule.running && |s.runners| == 1
  {
    ReachableIsInv(s);
    assert WaiterInv(s, s.waiters[w]);
    RunningMeansOneRunner(s);
  }

  // -- nothing is stuck

  predicate RunnerEvent(e: Event, r: nat) {
    match e
    case ReadGeneration(k) => k == r
    case SelectBatch(k, _) => k == r
    case AttemptFails(k, _) => k == r
    case ApplyBatch(k, _, _) => k == r
    case Finish(k) => k == r
    case Fail(k) => k == r
    case _ => false
  }

  /** A bound on the steps a runner still takes when nothing new arrives. */
  function Remaining(s: System, r: Runner): (n: nat)
    requires RunnerInv(s, r)
  {
    var rounds := 20 * (|s.pending| / BATCH_SIZE);
    var stale := if !r.Reading? && r.generation < s.schedule.requestedGeneration then 13 else 0;
    match r
    case Reading(_) => rounds + 12
    case Attempting(_, _, failures) => rounds + 3 * (MAX_ATTEMPTS - failures) + 2 + stale
    case Applying(_, _, failures, _) => rounds + 3 * (MAX_ATTEMPTS - failures) + 1 + stale
    case Finishing(_, _) => rounds + 1 + stale
    case Failing(_, _, _) => rounds + 1 + stale
  }

  /** The drain loop terminates: each step of a runner, successful or not, brings it closer to
      its end; the last one notifies every waiter. */
  lemma RunnerMakesProgress(s: System, e: Event, r: nat)
    requires Inv(s) && Enabled(s, e) && r in s.runners && RunnerEvent(e, r)
    ensures RunnerInv(s, s.runners[r])
    ensures var t := Step(s, e);
            if r in t.runners then RunnerInv(t, t.runners[r]) && Remaining(t, t.runners[r]) < Remaining(s, s.runners[r])
            else t.notifications == s.notifications + 1
  {
    SingleRunner(s, r);
    var runner := s.runners[r];
    assert RunnerInv(s, runner);
    StepKeepsInv(s, e);
    var t := Step(s, e);
    if r in t.runners {
      assert RunnerInv(t, t.runners[r]);
      if e.ApplyBatch? {
        assert |t.pending| == |s.pending| - |e.applied|;
        FewerRounds(|s.pending|, |e.applied|);
      }
    }
  }

  lemma FewerRounds(pending: nat, applied: nat)
    requires applied <= pending
    ensures (pending - applied) / BATCH_SIZE <= pending / BATCH_SIZE
    ensures applied == BATCH_SIZE ==> (pending - applied) / BATCH_SIZE == pending / BATCH_SIZE - 1
  {
  }

  /** A runner is never blocked: in every reachable state it has a step of its own. */
  lemma RunnerIsNeverBlocked(s: System, r: nat) returns (e: Event)
    requires r in s.runners
    ensures Enabled(s, e) && RunnerEvent(e, r)
  {
    match s.runners[r] {
      case Reading(_) => e := ReadGeneration(r);
      case Attempting(_, _, _) =>
        var batch := SomeSubset(s.pending, Min(BATCH_SIZE, |s.pending|));
        e := SelectBatch(r, batch);
      case Applying(_, _, _, batch) => e := ApplyBatch(r, {}, "");
      case Finishing(_, _) => e := Finish(r);
      case Failing(_, _, _) => e := Fail(r);
    }
  }

  lemma {:induction false} SomeSubset(a: set<Id>, n: nat) returns (b: set<Id>)
    requires n <= |a|
    ensures b <= a && |b| == n
    decreases n
  {
    if n == 0 {
      b := {};
    } else {
      var smaller := SomeSubset(a, n - 1);
      assert |a - smaller| == |a| - (n - 1);
      var x :| x in a - smaller;
      b := smaller + {x};
    }
  }

  lemma {:induction false} RunsAreForward(s: System, events: seq<Event>)
    requires Inv(s) && Possible(s, events)
    ensures s.notifications <= After(s, events).notifications
    decreases |events|
  {
    hide Inv, Step, Enabled;
    if events != [] {
      StepIsForward(s, events[0]);
      StepKeepsInv(s, events[0]);
      RunsAreForward(Step(s, events[0]), events[1..]);
    }
  }

  predicate OnlyRunner(events: seq<Event>, r: nat) {
    forall i :: 0 <= i < |events| ==> RunnerEvent(events[i], r)
  }

  /** As many steps as its bound allows, and the runner has notified. */
  lemma {:induction false} RunnerNotifies(s: System, r: nat, events: seq<Event>)
    requires Inv(s) && r in s.runners && RunnerInv(s, s.runners[r])
    requires Possible(s, events) && OnlyRunner(events, r) && |events| >= Remaining(s, s.runners[r])
    ensures After(s, events).notifications > s.notifications
    decreases |events|
  {
    hide Inv, Step, Enabled, RunnerEvent, RunnerInv;
    AlwaysSomeLeft(s, s.runners[r]);
    var e := events[0];
    var t := Step(s, e);
    assert RunnerEvent(e, r);
    RunnerMakesProgress(s, e, r);
    StepKeepsInv(s, e);
    StepIsForward(s, e);
    assert forall i :: 0 <= i < |events[1..]| ==> events[1..][i] == events[i + 1];
    if r in t.runners {
      RunnerNotifies(t, r, events[1..]);
    } else {
      RunsAreForward(t, events[1..]);
    }
  }

  lemma AlwaysSomeLeft(s: System, r: Runner)
    requires RunnerInv(s, r)
    ensures Remaining(s, r) > 0
  {
  }

  lemma {:induction false} WaitersStay(s: System, r: nat, events: seq<Event>)
    requires Possible(s, events) && OnlyRunner(events, r)
    ensures After(s, events).waiters == s.waiters
    decreases |events|
  {
    if events != [] {
      assert RunnerEvent(events[0], r);
      assert forall i :: 0 <= i < |events[1..]| ==> events[1..][i] == events[i + 1];
      WaitersStay(Step(s, events[0]), r, events[1..]);
    }
  }

  /** No waiter sleeps for ever.  From every reachable state, a waiter asleep and not yet notified
      has a runner, and after at most `Remaining` steps of that runner, whatever they are, it can
      wake up; until then the runner always has a next step (`RunnerIsNeverBlocked`). */
  lemma SleeperIsWoken(s: System, w: nat) returns (r: nat)
    requires Reachable(s) && w in s.waiters
    requires s.waiters[w].Asleep? && s.waiters[w].seen == s.notifications
    ensures s.runners.Keys == {r} && RunnerInv(s, s.runners[r])
    ensures forall events |
              Possible(s, events) && OnlyRunner(events, r) && |events| >= Remaining(s, s.runners[r]) ::
              Enabled(After(s, events), Wake(w))
  {
    hide Step, OnlyRunner, Remaining;
    SleeperHasARunner(s, w);
    ReachableIsInv(s);
    r :| s.runners.Keys == {r};
    assert r in s.runners && RunnerInv(s, s.runners[r]);
    forall events | Possible(s, events) && OnlyRunner(events, r) && |events| >= Remaining(s, s.runners[r])
      ensures Enabled(After(s, events), Wake(w))
    {
      RunnerNotifies(s, r, events);
      WaitersStay(s, r, events);
    }
  }
}
