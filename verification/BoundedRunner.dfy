/**
 `run_bounded_cancellable_ordered` of realtime.rs: a coordinator that keeps a bounded number of
 tasks in flight on permits shared with other callers, stops filling once cancelled, and
 returns the results in input order.

 The coordinator, its tasks, the other permit holders and the canceller are one step system.
 */
module BoundedRunner {
  import opened Basics
  import opened Options

  /** The call's arguments: `operation` is what an undisturbed operation returns for an item;
      `permits` is the capacity of the shared semaphore. */
  datatype Job<!T, !U> = Job(items: seq<T>, operation: T -> U, maxInFlight: nat, permits: nat)

  datatype Task<U> = Waiting | Running | Done(result: Option<U>)

  /** A joined task: its index in the input and its result, None when it gave up. */
  datatype Completion<U> = Completion(index: nat, result: Option<U>)

  datatype Phase = Top | Filling | Selecting | Returned

  /** `signal` is the watched value, `dropped` says its sender is gone; `cancelled` is the
      coordinator's own flag.  `signalAtFill` is history: the signal when the last fill pass
      began. */
  datatype State<U> = State(next: nat, active: map<nat, Task<U>>, completed: seq<Completion<U>>,
                            phase: Phase, cancelled: bool, signal: bool, dropped: bool, signalAtFill: bool,
                            available: nat, others: nat)

  datatype Event<U> =
    | BeginFill
    | Spawn
    | EndFill
    | NoticeCancel
    | JoinTask(index: nat)
    | Acquire(index: nat)
    | GiveUp(index: nat)
    | Complete(index: nat, output: U)
    | RaiseSignal
    | DropSender
    | OthersTake
    | OthersGive

  /** Any number of permits may already be taken, and the signal already raised. */
  ghost predicate Initial<T, U>(job: Job<T, U>, s: State<U>) {
    && s.next == 0 && s.active == map[] && s.completed == [] && s.phase == Top
    && s.cancelled == s.signal && !s.signalAtFill
    && s.available + s.others == job.permits
  }

  predicate Ended<U>(s: State<U>) {
    s.signal || s.dropped
  }

  ghost predicate Enabled<T, U>(job: Job<T, U>, s: State<U>, e: Event<U>) {
    match e
    case BeginFill => s.phase == Top
    case Spawn => s.phase == Filling && !s.cancelled && |s.active| < job.maxInFlight && s.next < |job.items|
    case EndFill => s.phase == Filling && !(!s.cancelled && |s.active| < job.maxInFlight && s.next < |job.items|)
    case NoticeCancel => s.phase == Selecting && !s.cancelled && Ended(s)
    case JoinTask(i) =>
      // `biased`: a pending cancellation is noticed first
      s.phase == Selecting && i in s.active && s.active[i].Done? && (s.cancelled || !Ended(s))
    case Acquire(i) => i in s.active && s.active[i].Waiting? && s.available > 0
    case GiveUp(i) => i in s.active && s.active[i].Waiting? && Ended(s)
    case Complete(i, output) =>
      i in s.active && s.active[i].Running? && i < |job.items| && (Ended(s) || output == job.operation(job.items[i]))
    case RaiseSignal => true
    case DropSender => true
    case OthersTake => s.available > 0
    case OthersGive => s.others > 0
  }

  function Drop<U>(active: map<nat, Task<U>>, i: nat): map<nat, Task<U>> {
    map k | k in active && k != i :: active[k]
  }

  ghost function Step<T, U>(job: Job<T, U>, s: State<U>, e: Event<U>): State<U>
    requires Enabled(job, s, e)
  {
    match e
    case BeginFill => s.(phase := Filling, cancelled := s.cancelled || s.signal, signalAtFill := s.signal)
    case Spawn => s.(active := s.active[s.next := Waiting], next := s.next + 1)
    case EndFill => s.(phase := if s.active == map[] then Returned else Selecting)
    case NoticeCancel => s.(phase := Top, cancelled := true)
    case JoinTask(i) =>
      s.(phase := Top, completed := s.completed + [Completion(i, s.active[i].result)], active := Drop(s.active, i))
    case Acquire(i) => s.(active := s.active[i := Running], available := s.available - 1)
    case GiveUp(i) => s.(active := s.active[i := Done(None)])
    case Complete(i, output) => s.(active := s.active[i := Done(Some(output))], available := s.available + 1)
    case RaiseSignal => s.(signal := true)
    case DropSender => s.(dropped := true)
    case OthersTake => s.(available := s.available - 1, others := s.others + 1)
    case OthersGive => s.(available := s.available + 1, others := s.others - 1)
  }

  ghost predicate Possible<T, U>(job: Job<T, U>, s: State<U>, events: seq<Event<U>>)
    decreases |events|
  {
    events == [] || (Enabled(job, s, events[0]) && Possible(job, Step(job, s, events[0]), events[1..]))
  }

  ghost function After<T, U>(job: Job<T, U>, s: State<U>, events: seq<Event<U>>): State<U>
    requires Possible(job, s, events)
    decreases |events|
  {
    if events == [] then s else After(job, Step(job, s, events[0]), events[1..])
  }

  // ---------------------------------------------------------------- one fill pass

  /** How many items a fill pass spawns. */
  function Room(items: nat, maxInFlight: nat, next: nat, active: nat, cancelled: bool): (n: nat)
    requires next <= items
  {
    if cancelled || maxInFlight <= active then 0 else Min(maxInFlight - active, items - next)
  }

  /** `n` more tasks, numbered from `next`. */
  function Filled<U>(active: map<nat, Task<U>>, next: nat, n: nat): map<nat, Task<U>> {
    if n == 0 then active else Filled(active, next, n - 1)[next + n - 1 := Waiting]
  }

  lemma NothingFilled<U>(active: map<nat, Task<U>>, next: nat)
    ensures Filled(active, next, 0) == active
  {
  }

  lemma OneMoreFilled<U>(active: map<nat, Task<U>>, next: nat, n: nat)
    ensures Filled(active, next, n + 1) == Filled(active, next, n)[next + n := Waiting]
  {
  }

  lemma {:induction false} FilledFromFront<U>(active: map<nat, Task<U>>, next: nat, n: nat)
    requires n > 0
    ensures Filled(active, next, n) == Filled(active[next := Waiting], next + 1, n - 1)
  {
    if n > 1 {
      FilledFromFront(active, next, n - 1);
    }
  }

  lemma {:induction false} FilledKeys<U>(active: map<nat, Task<U>>, next: nat, n: nat)
    requires forall i :: i in active ==> i < next
    ensures forall i :: i in Filled(active, next, n) ==> i < next + n
  {
    if n > 0 {
      FilledKeys(active, next, n - 1);
    }
  }

  lemma {:induction false} FilledSize<U>(active: map<nat, Task<U>>, next: nat, n: nat)
    requires forall i :: i in active ==> i < next
    ensures |Filled(active, next, n)| == |active| + n
  {
    if n > 0 {
      var fewer := Filled(active, next, n - 1);
      FilledSize(active, next, n - 1);
      FilledKeys(active, next, n - 1);
      assert next + n - 1 !in fewer;
      hide Filled;
      UpdateSize(fewer, next + n - 1, Waiting);
    }
  }

  /** The flag is read again, then slots are filled while there is room and input. */
  method FillPass<T, U>(items: seq<T>, maxInFlight: nat, next0: nat, active0: map<nat, Task<U>>, cancelled0: bool,
                        signal: bool)
    returns (next: nat, active: map<nat, Task<U>>, cancelled: bool)
    requires next0 <= |items| && forall i :: i in active0 ==> i < next0
    ensures cancelled == (cancelled0 || signal)
    ensures next == next0 + Room(|items|, maxInFlight, next0, |active0|, cancelled)
    ensures active == Filled(active0, next0, next - next0)
  {
    hide Filled;
    NothingFilled(active0, next0);
    next, active, cancelled := next0, active0, cancelled0 || signal;
    while !cancelled && |active| < maxInFlight && next < |items|
      invariant cancelled == (cancelled0 || signal)
      invariant next0 <= next <= |items| && active == Filled(active0, next0, next - next0)
      invariant |active| == |active0| + (next - next0)
      invariant next - next0 <= Room(|items|, maxInFlight, next0, |active0|, cancelled)
    {
      FilledSize(active0, next0, next + 1 - next0);
      OneMoreFilled(active0, next0, next - next0);
      active := active[next := Waiting];
      next := next + 1;
    }
  }

  function Spawns<U>(n: nat): seq<Event<U>> {
    if n == 0 then [] else [Spawn] + Spawns(n - 1)
  }

  /** A fill pass is that many Spawn steps, after which it can only end. */
  lemma {:induction false} FillPassIsSpawns<T, U>(job: Job<T, U>, s: State<U>)
    requires s.phase == Filling && s.next <= |job.items| && forall i :: i in s.active ==> i < s.next
    ensures var n := Room(|job.items|, job.maxInFlight, s.next, |s.active|, s.cancelled);
            && Possible(job, s, Spawns(n))
            && After(job, s, Spawns(n)) == s.(active := Filled(s.active, s.next, n), next := s.next + n)
            && Enabled(job, After(job, s, Spawns(n)), EndFill)
    decreases |job.items| - s.next
  {
    hide Filled, Step, Possible, After, Enabled;
    var n := Room(|job.items|, job.maxInFlight, s.next, |s.active|, s.cancelled);
    if n == 0 {
      NothingFilled(s.active, s.next);
      NoRoom(job, s);
    } else {
      var t := SpawnStep(job, s);
      FilledFromFront(s.active, s.next, n);
      FillPassIsSpawns(job, t);
      FirstStep(job, s, Spawn, Spawns(n - 1));
    }
  }

  lemma NoRoom<T, U>(job: Job<T, U>, s: State<U>)
    requires s.phase == Filling && s.next <= |job.items|
    requires Room(|job.items|, job.maxInFlight, s.next, |s.active|, s.cancelled) == 0
    ensures Possible(job, s, Spawns(0)) && After(job, s, Spawns(0)) == s && Enabled(job, s, EndFill)
  {
  }

  lemma SpawnStep<T, U>(job: Job<T, U>, s: State<U>) returns (t: State<U>)
    requires s.phase == Filling && s.next <= |job.items| && forall i :: i in s.active ==> i < s.next
    requires Room(|job.items|, job.maxInFlight, s.next, |s.active|, s.cancelled) > 0
    ensures Enabled(job, s, Spawn) && t == Step(job, s, Spawn)
    ensures t == s.(active := s.active[s.next := Waiting], next := s.next + 1) && |t.active| == |s.active| + 1
  {
    UpdateSize<U>(s.active, s.next, Waiting);
    t := Step(job, s, Spawn);
  }

  lemma FirstStep<T, U>(job: Job<T, U>, s: State<U>, e: Event<U>, rest: seq<Event<U>>)
    requires Enabled(job, s, e) && Possible(job, Step(job, s, e), rest)
    ensures Possible(job, s, [e] + rest) && After(job, s, [e] + rest) == After(job, Step(job, s, e), rest)
  {
    hide Step, Enabled;
    assert ([e] + rest)[1..] == rest;
  }

  // ---------------------------------------------------------------- the result

  /** `completed.sort_by_key(|(index, _)| *index)`. */
  function Insert<U>(entry: Completion<U>, sorted: seq<Completion<U>>): seq<Completion<U>> {
    if sorted == [] || entry.index <= sorted[0].index then [entry] + sorted
    else [sorted[0]] + Insert(entry, sorted[1..])
  }

  function SortByIndex<U>(completed: seq<Completion<U>>): seq<Completion<U>> {
    if completed == [] then [] else Insert(completed[0], SortByIndex(completed[1..]))
  }

  /** `filter_map(|(_, result)| result)`. */
  function FilterMap<U>(entries: seq<Completion<U>>): seq<U> {
    if entries == [] then []
    else (if entries[0].result.Some? then [entries[0].result.value] else []) + FilterMap(entries[1..])
  }

  function Result<U>(s: State<U>): seq<U> {
    FilterMap(SortByIndex(s.completed))
  }

  // ---------------------------------------------------------------- sums over the tasks

  /** A weight summed over the active tasks with an index below `n`. */
  function Sum<U>(active: map<nat, Task<U>>, n: nat, weight: Task<U> -> nat): nat {
    if n == 0 then 0 else Sum(active, n - 1, weight) + (if n - 1 in active then weight(active[n - 1]) else 0)
  }

  function RunningWeight<U>(t: Task<U>): nat {
    if t.Running? then 1 else 0
  }

  lemma {:induction false} SumOfUpdate<U>(active: map<nat, Task<U>>, n: nat, weight: Task<U> -> nat, i: nat, t: Task<U>)
    requires i < n
    ensures Sum(active[i := t], n, weight) + (if i in active then weight(active[i]) else 0)
         == Sum(active, n, weight) + weight(t)
  {
    if i == n - 1 {
      SumOfSame(active, active[i := t], n - 1, weight);
    } else {
      SumOfUpdate(active, n - 1, weight, i, t);
    }
  }

  lemma {:induction false} SumOfDrop<U>(active: map<nat, Task<U>>, n: nat, weight: Task<U> -> nat, i: nat)
    requires i < n && i in active
    ensures Sum(Drop(active, i), n, weight) + weight(active[i]) == Sum(active, n, weight)
  {
    if i == n - 1 {
      SumOfSame(active, Drop(active, i), n - 1, weight);
    } else {
      SumOfDrop(active, n - 1, weight, i);
    }
  }

  lemma {:induction false} SumOfSame<U>(a: map<nat, Task<U>>, b: map<nat, Task<U>>, n: nat, weight: Task<U> -> nat)
    requires forall k :: 0 <= k < n ==> (k in a <==> k in b) && (k in a ==> a[k] == b[k])
    ensures Sum(a, n, weight) == Sum(b, n, weight)
  {
    if n > 0 {
      SumOfSame(a, b, n - 1, weight);
    }
  }

  lemma SumBeyond<U>(active: map<nat, Task<U>>, n: nat, weight: Task<U> -> nat)
    requires n !in active
    ensures Sum(active, n + 1, weight) == Sum(active, n, weight)
  {
  }

  lemma {:induction false} SumOfNone<U>(active: map<nat, Task<U>>, n: nat, weight: Task<U> -> nat)
    requires forall k :: k in active ==> k >= n || weight(active[k]) == 0
    ensures Sum(active, n, weight) == 0
  {
    if n > 0 {
      SumOfNone(active, n - 1, weight);
    }
  }

  // ---------------------------------------------------------------- the invariant

  /** Spawned items are a prefix of the input, split into active and completed ones. */
  predicate PrefixInv<U>(items: nat, s: State<U>) {
    && s.next <= items
    && (forall i :: i in s.active ==> i < s.next)
    && (forall k :: 0 <= k < |s.completed| ==> s.completed[k].index < s.next && s.completed[k].index !in s.active)
    && (forall j, k :: 0 <= j < k < |s.completed| ==> s.completed[j].index != s.completed[k].index)
    && |s.active| + |s.completed| == s.next
  }

  /** The running tasks, each holding one permit. */
  function Held<U>(active: map<nat, Task<U>>, next: nat): nat {
    Sum(active, next, RunningWeight)
  }

  ghost predicate PermitInv<T, U>(job: Job<T, U>, s: State<U>) {
    s.available + s.others + Held(s.active, s.next) == job.permits
  }

  ghost predicate BoundInv<T, U>(job: Job<T, U>, s: State<U>) {
    && |s.active| <= job.maxInFlight
    && (s.phase == Selecting ==> s.active != map[])
    && (s.phase == Returned ==> s.active == map[] && (s.cancelled || s.next == |job.items|))
    && (s.cancelled ==> Ended(s))
    && (s.signalAtFill ==> s.cancelled)
  }

  /** Until cancellation, every finished task carries its operation's own output. */
  ghost predicate OutputInv<T, U>(job: Job<T, U>, s: State<U>) {
    !Ended(s) ==>
      && (forall i :: i in s.active && s.active[i].Done? ==>
            i < |job.items| && s.active[i].result == Some(job.operation(job.items[i])))
      && (forall k :: 0 <= k < |s.completed| ==>
            && s.completed[k].index < |job.items|
            && s.completed[k].result == Some(job.operation(job.items[s.completed[k].index])))
  }

  ghost predicate Inv<T, U>(job: Job<T, U>, s: State<U>) {
    && job.maxInFlight > 0
    && PrefixInv(|job.items|, s) && PermitInv(job, s) && BoundInv(job, s) && OutputInv(job, s)
  }

  lemma InitialIsInv<T, U>(job: Job<T, U>, s: State<U>)
    requires Initial(job, s) && job.maxInFlight > 0
    ensures Inv(job, s)
  {
  }

  lemma DropSize<U>(active: map<nat, Task<U>>, i: nat)
    requires i in active
    ensures |Drop(active, i)| == |active| - 1
  {
    assert Drop(active, i).Keys == active.Keys - {i};
    assert |Drop(active, i)| == |Drop(active, i).Keys|;
  }

  lemma UpdateSize<U>(active: map<nat, Task<U>>, i: nat, t: Task<U>)
    ensures |active[i := t]| == if i in active then |active| else |active| + 1
  {
    assert active[i := t].Keys == active.Keys + {i};
    assert |active[i := t]| == |active[i := t].Keys|;
  }

  lemma StepKeepsPrefix<T, U>(job: Job<T, U>, s: State<U>, e: Event<U>)
    requires Inv(job, s) && Enabled(job, s, e)
    ensures PrefixInv(|job.items|, Step(job, s, e))
  {
    match e {
      case Spawn => UpdateSize(s.active, s.next, Waiting);
      case JoinTask(i) => DropSize(s.active, i);
      case Acquire(i) => UpdateSize(s.active, i, Running);
      case GiveUp(i) => UpdateSize(s.active, i, Done(None));
      case Complete(i, output) => UpdateSize(s.active, i, Done(Some(output)));
      case _ =>
    }
  }

  lemma HeldAfterSpawn<U>(active: map<nat, Task<U>>, next: nat)
    requires next !in active
    ensures Held(active[next := Waiting], next + 1) == Held(active, next)
  {
    hide Sum;
    SumBeyond(active, next, RunningWeight);
    SumOfUpdate(active, next + 1, RunningWeight, next, Waiting);
  }

  lemma HeldAfterChange<U>(active: map<nat, Task<U>>, next: nat, i: nat, t: Task<U>)
    requires i in active && i < next
    ensures Held(active[i := t], next) == Held(active, next) - RunningWeight(active[i]) + RunningWeight(t)
  {
    hide Sum;
    SumOfUpdate(active, next, RunningWeight, i, t);
  }

  lemma HeldAfterJoin<U>(active: map<nat, Task<U>>, next: nat, i: nat)
    requires i in active && i < next && active[i].Done?
    ensures Held(Drop(active, i), next) == Held(active, next)
  {
    hide Sum;
    SumOfDrop(active, next, RunningWeight, i);
  }

  lemma StepKeepsPermits<T, U>(job: Job<T, U>, s: State<U>, e: Event<U>)
    requires PrefixInv(|job.items|, s) && PermitInv(job, s) && Enabled(job, s, e)
    ensures PermitInv(job, Step(job, s, e))
  {
    hide Held, Drop;
    match e {
      case Spawn => HeldAfterSpawn(s.active, s.next);
      case JoinTask(i) => HeldAfterJoin(s.active, s.next, i);
      case Acquire(i) => HeldAfterChange(s.active, s.next, i, Running);
      case GiveUp(i) => HeldAfterChange(s.active, s.next, i, Done(None));
      case Complete(i, output) => HeldAfterChange(s.active, s.next, i, Done(Some(output)));
      case _ =>
    }
  }

  lemma StepKeepsBounds<T, U>(job: Job<T, U>, s: State<U>, e: Event<U>)
    requires Inv(job, s) && Enabled(job, s, e)
    ensures BoundInv(job, Step(job, s, e))
  {
    match e {
      case Spawn => UpdateSize(s.active, s.next, Waiting);
      case JoinTask(i) => DropSize(s.active, i);
      case Acquire(i) => UpdateSize(s.active, i, Running);
      case GiveUp(i) => UpdateSize(s.active, i, Done(None));
      case Complete(i, output) => UpdateSize(s.active, i, Done(Some(output)));
      case _ =>
    }
  }

  lemma StepKeepsOutputs<T, U>(job: Job<T, U>, s: State<U>, e: Event<U>)
    requires Inv(job, s) && Enabled(job, s, e)
    ensures OutputInv(job, Step(job, s, e))
  {
  }

  lemma StepKeepsInv<T, U>(job: Job<T, U>, s: State<U>, e: Event<U>)
    requires Inv(job, s) && Enabled(job, s, e)
    ensures Inv(job, Step(job, s, e))
  {
    hide Enabled, Step, PrefixInv, PermitInv, BoundInv, OutputInv;
    StepKeepsPrefix(job, s, e);
    StepKeepsPermits(job, s, e);
    StepKeepsBounds(job, s, e);
    StepKeepsOutputs(job, s, e);
  }

  lemma {:induction false} RunsKeepInv<T, U>(job: Job<T, U>, s: State<U>, events: seq<Event<U>>)
    requires Inv(job, s) && Possible(job, s, events)
    ensures Inv(job, After(job, s, events))
    decreases |events|
  {
    hide Inv, Step, Enabled;
    if events != [] {
      StepKeepsInv(job, s, events[0]);
      RunsKeepInv(job, Step(job, s, events[0]), events[1..]);
    }
  }

  ghost predicate Reachable<T, U(!new)>(job: Job<T, U>, s: State<U>) {
    exists start: State<U>, events: seq<Event<U>> ::
      Initial(job, start) && Possible(job, start, events) && After(job, start, events) == s
  }

  lemma ReachableIsInv<T, U(!new)>(job: Job<T, U>, s: State<U>)
    requires job.maxInFlight > 0 && Reachable(job, s)
    ensures Inv(job, s)
  {
    hide Enabled, Step;
    var start: State<U>, events: seq<Event<U>> :|
      Initial(job, start) && Possible(job, start, events) && After(job, start, events) == s;
    InitialIsInv(job, start);
    RunsKeepInv(job, start, events);
  }

  // ---------------------------------------------------------------- sorting the completions

  predicate Increasing<U>(entries: seq<Completion<U>>) {
    forall j, k :: 0 <= j < k < |entries| ==> entries[j].index < entries[k].index
  }

  lemma {:induction false} InsertIsSorted<U(!new)>(entry: Completion<U>, sorted: seq<Completion<U>>)
    requires Increasing(sorted)
    requires forall k :: 0 <= k < |sorted| ==> sorted[k].index != entry.index
    ensures Increasing(Insert(entry, sorted)) && |Insert(entry, sorted)| == |sorted| + 1
    ensures forall x :: x in Insert(entry, sorted) <==> x == entry || x in sorted
  {
    if sorted != [] && entry.index > sorted[0].index {
      InsertIsSorted(entry, sorted[1..]);
      var rest := Insert(entry, sorted[1..]);
      forall k | 0 <= k < |rest|
        ensures sorted[0].index < rest[k].index
      {
        assert rest[k] in rest;
      }
      assert forall x :: x in sorted <==> x == sorted[0] || x in sorted[1..];
    }
  }

  predicate DistinctIndices<U>(entries: seq<Completion<U>>) {
    forall j, k :: 0 <= j < k < |entries| ==> entries[j].index != entries[k].index
  }

  lemma {:induction false} SortIsSorted<U(!new)>(completed: seq<Completion<U>>)
    requires DistinctIndices(completed)
    ensures Increasing(SortByIndex(completed)) && |SortByIndex(completed)| == |completed|
    ensures forall x :: x in SortByIndex(completed) <==> x in completed
  {
    if completed != [] {
      SortIsSorted(completed[1..]);
      var rest := SortByIndex(completed[1..]);
      forall k | 0 <= k < |rest|
        ensures rest[k].index != completed[0].index
      {
        assert rest[k] in completed[1..];
      }
      InsertIsSorted(completed[0], rest);
      assert forall x :: x in completed <==> x == completed[0] || x in completed[1..];
    }
  }

  /** n increasing indices below n are 0, 1, .., n - 1. */
  lemma {:induction false} IncreasingIsComplete<U>(entries: seq<Completion<U>>, k: nat)
    requires Increasing(entries) && k < |entries|
    requires forall j :: 0 <= j < |entries| ==> entries[j].index < |entries|
    ensures entries[k].index == k
  {
    AtLeast(entries, k);
    AtMost(entries, k);
  }

  lemma {:induction false} AtLeast<U>(entries: seq<Completion<U>>, k: nat)
    requires Increasing(entries) && k < |entries|
    ensures entries[k].index >= k
  {
    if k > 0 {
      AtLeast(entries, k - 1);
    }
  }

  lemma {:induction false} AtMost<U>(entries: seq<Completion<U>>, k: nat)
    requires Increasing(entries) && k < |entries|
    requires forall j :: 0 <= j < |entries| ==> entries[j].index < |entries|
    ensures entries[k].index <= k
    decreases |entries| - k
  {
    if k + 1 < |entries| {
      AtMost(entries, k + 1);
    }
  }

  // ---------------------------------------------------------------- the theorems

  /** When the coordinator returns, its sorted completions are the spawned prefix of the input,
      index by index; nothing is missing and nothing appears twice. */
  lemma CompletionsArePrefix<T, U(!new)>(job: Job<T, U>, s: State<U>)
    requires job.maxInFlight > 0 && Reachable(job, s) && s.phase == Returned
    ensures |SortByIndex(s.completed)| == s.next <= |job.items|
    ensures forall k :: 0 <= k < s.next ==>
                          SortByIndex(s.completed)[k].index == k && SortByIndex(s.completed)[k] in s.completed
    ensures s.next < |job.items| ==> Ended(s)
  {
    hide Reachable;
    ReachableIsInv(job, s);
    SortIsSorted(s.completed);
    var sorted := SortByIndex(s.completed);
    forall k | 0 <= k < |sorted|
      ensures sorted[k].index < |sorted|
    {
      assert sorted[k] in s.completed;
    }
    forall k | 0 <= k < s.next
      ensures sorted[k].index == k && sorted[k] in s.completed
    {
      IncreasingIsComplete(sorted, k);
      assert sorted[k] in sorted;
    }
  }

  lemma {:induction false} FilterMapOfAll<T, U>(job: Job<T, U>, entries: seq<Completion<U>>, from: nat)
    requires from + |entries| == |job.items|
    requires forall k :: 0 <= k < |entries| ==> entries[k].result == Some(job.operation(job.items[from + k]))
    ensures |FilterMap(entries)| == |entries|
    ensures forall k :: 0 <= k < |entries| ==> FilterMap(entries)[k] == job.operation(job.items[from + k])
  {
    if entries != [] {
      FilterMapOfAll(job, entries[1..], from + 1);
    }
  }

  /** Never cancelled, the runner returns the operation mapped over the input, in input order,
      whatever order the tasks finished in. */
  lemma UncancelledIsMap<T, U(!new)>(job: Job<T, U>, s: State<U>)
    requires job.maxInFlight > 0 && Reachable(job, s) && s.phase == Returned && !Ended(s)
    ensures |Result(s)| == |job.items|
    ensures forall i :: 0 <= i < |job.items| ==> Result(s)[i] == job.operation(job.items[i])
  {
    hide Reachable;
    ReachableIsInv(job, s);
    CompletionsArePrefix(job, s);
    var sorted := SortByIndex(s.completed);
    forall k | 0 <= k < |sorted|
      ensures sorted[k].result == Some(job.operation(job.items[0 + k]))
    {
      assert sorted[k] in s.completed;
    }
    FilterMapOfAll(job, sorted, 0);
  }

  /** `outputs` are the results in `entries`, and `indices`, which increase, say where from. */
  ghost predicate InOrderOf<U(!new)>(entries: seq<Completion<U>>, outputs: seq<U>, indices: seq<nat>) {
    && |indices| == |outputs|
    && (forall j, k :: 0 <= j < k < |indices| ==> indices[j] < indices[k])
    && (forall j :: 0 <= j < |indices| ==> Completion(indices[j], Some(outputs[j])) in entries)
    && (forall x :: x in entries && x.result.Some? ==> x.index in indices)
  }

  lemma {:induction false} FilterMapOrder<U(!new)>(entries: seq<Completion<U>>) returns (indices: seq<nat>)
    requires Increasing(entries)
    ensures InOrderOf(entries, FilterMap(entries), indices)
  {
    hide InOrderOf;
    if entries == [] {
      indices := [];
      NoneInOrder<U>();
    } else {
      var first, rest := entries[0], entries[1..];
      var later := FilterMapOrder(rest);
      assert entries == [first] + rest;
      if first.result.Some? {
        indices := [first.index] + later;
        OutputFirst(first, rest, FilterMap(rest), later);
      } else {
        indices := later;
        assert FilterMap(entries) == [] + FilterMap(rest) == FilterMap(rest);
        NoOutputFirst(first, rest, FilterMap(rest), later);
      }
    }
  }

  lemma NoneInOrder<U(!new)>()
    ensures InOrderOf<U>([], [], [])
  {
  }

  lemma OutputFirst<U(!new)>(first: Completion<U>, rest: seq<Completion<U>>, outputs: seq<U>, later: seq<nat>)
    requires Increasing([first] + rest) && InOrderOf(rest, outputs, later) && first.result.Some?
    ensures InOrderOf([first] + rest, [first.result.value] + outputs, [first.index] + later)
  {
    AllLater(first, rest, outputs, later);
    assert first == Completion(first.index, Some(first.result.value));
    var entries, all, indices := [first] + rest, [first.result.value] + outputs, [first.index] + later;
    forall j | 0 <= j < |indices|
      ensures Completion(indices[j], Some(all[j])) in entries
    {
      if j > 0 {
        assert Completion(later[j - 1], Some(outputs[j - 1])) in rest;
      }
    }
  }

  lemma NoOutputFirst<U(!new)>(first: Completion<U>, rest: seq<Completion<U>>, outputs: seq<U>, later: seq<nat>)
    requires InOrderOf(rest, outputs, later) && first.result.None?
    ensures InOrderOf([first] + rest, outputs, later)
  {
  }

  lemma AllLater<U(!new)>(first: Completion<U>, rest: seq<Completion<U>>, outputs: seq<U>, later: seq<nat>)
    requires Increasing([first] + rest) && InOrderOf(rest, outputs, later)
    ensures forall j :: 0 <= j < |later| ==> first.index < later[j]
  {
    forall j | 0 <= j < |later|
      ensures first.index < later[j]
    {
      var k :| 0 <= k < |rest| && rest[k] == Completion(later[j], Some(outputs[j]));
      assert ([first] + rest)[0] == first && ([first] + rest)[k + 1] == rest[k];
    }
  }

  /** Cancelled or not, the result is the outputs of the tasks that produced one, in input
      order. */
  lemma ResultIsInOrder<T, U(!new)>(job: Job<T, U>, s: State<U>) returns (indices: seq<nat>)
    requires job.maxInFlight > 0 && Reachable(job, s) && s.phase == Returned
    ensures |indices| == |Result(s)|
    ensures forall j, k :: 0 <= j < k < |indices| ==> indices[j] < indices[k]
    ensures forall j :: 0 <= j < |indices| ==> Completion(indices[j], Some(Result(s)[j])) in s.completed
    ensures forall x :: x in s.completed && x.result.Some? ==> x.index in indices
  {
    hide Reachable;
    ReachableIsInv(job, s);
    hide Inv, SortByIndex, FilterMap, Increasing;
    SortIsSorted(s.completed);
    indices := FilterMapOrder(SortByIndex(s.completed));
  }

  /** A fill pass that begins after the signal was raised spawns nothing. */
  lemma NoSpawnInLateFill<T, U(!new)>(job: Job<T, U>, s: State<U>)
    requires job.maxInFlight > 0 && Reachable(job, s) && Enabled(job, s, Spawn)
    ensures !s.signalAtFill
  {
    hide Reachable;
    ReachableIsInv(job, s);
  }

  /** The cancellation has been noticed, or is before the next fill pass is.  A sender that is gone is noticed
      only while the call waits for a task, a raised signal also when a pass begins. */
  predicate Quiet<U>(s: State<U>) {
    || s.cancelled || s.phase == Returned
    || (s.phase == Selecting && Ended(s))
    || (s.phase == Top && s.signal)
  }

  lemma CancellingIsQuiet<T, U>(job: Job<T, U>, s: State<U>)
    ensures s.phase != Filling ==> Quiet(Step(job, s, RaiseSignal))
    ensures s.phase == Selecting ==> Quiet(Step(job, s, DropSender))
  {
  }

  lemma StaysQuiet<T, U>(job: Job<T, U>, s: State<U>, e: Event<U>)
    requires Quiet(s) && Enabled(job, s, e)
    ensures !e.Spawn? && Quiet(Step(job, s, e))
  {
  }

  lemma {:induction false} QuietRun<T, U>(job: Job<T, U>, s: State<U>, events: seq<Event<U>>)
    requires Quiet(s) && Possible(job, s, events)
    ensures forall i :: 0 <= i < |events| ==> !events[i].Spawn?
    decreases |events|
  {
    hide Quiet, Step, Enabled;
    if events != [] {
      StaysQuiet(job, s, events[0]);
      QuietRun(job, Step(job, s, events[0]), events[1..]);
      forall i | 0 < i < |events|
        ensures !events[i].Spawn?
      {
        assert events[i] == events[1..][i - 1];
      }
    }
  }

  /** After the signal is raised, unless in the middle of a fill pass, and after its sender goes while the call
      waits for a task, nothing is spawned, in whatever order tasks, other callers and the canceller go on. */
  lemma NoSpawnOnceCancelled<T, U>(job: Job<T, U>, s: State<U>, e: Event<U>, events: seq<Event<U>>)
    requires (e.RaiseSignal? && s.phase != Filling) || (e.DropSender? && s.phase == Selecting)
    requires Possible(job, Step(job, s, e), events)
    ensures forall i :: 0 <= i < |events| ==> !events[i].Spawn?
  {
    hide Quiet, Step, Possible;
    CancellingIsQuiet(job, s);
    QuietRun(job, Step(job, s, e), events);
  }

  /** Running operations never exceed the shared permits, and every permit is back on return. */
  lemma PermitsAreConserved<T, U(!new)>(job: Job<T, U>, s: State<U>)
    requires job.maxInFlight > 0 && Reachable(job, s)
    ensures Held(s.active, s.next) + s.others <= job.permits
    ensures |s.active| <= job.maxInFlight
    ensures s.phase == Returned ==> s.available + s.others == job.permits
  {
    hide Reachable;
    ReachableIsInv(job, s);
    if s.phase == Returned {
      SumOfNone(s.active, s.next, RunningWeight);
    }
  }

  // -- nothing is stuck

  predicate Own<U>(e: Event<U>) {
    !(e.RaiseSignal? || e.DropSender? || e.OthersTake? || e.OthersGive?)
  }

  /** Until it returns, the call always has a step of its own, unless every permit is in other
      hands and it is waiting for one. */
  lemma NotStuck<T, U(!new)>(job: Job<T, U>, s: State<U>) returns (e: Event<U>)
    requires job.maxInFlight > 0 && job.permits > 0 && Reachable(job, s) && s.phase != Returned
    ensures Enabled(job, s, e)
    ensures Own(e) || (e.OthersGive? && s.available == 0)
  {
    hide Reachable;
    ReachableIsInv(job, s);
    e := SomeStep(job, s);
  }

  lemma SomeStep<T, U>(job: Job<T, U>, s: State<U>) returns (e: Event<U>)
    requires job.maxInFlight > 0 && job.permits > 0 && Inv(job, s) && s.phase != Returned
    ensures Enabled(job, s, e)
    ensures Own(e) || (e.OthersGive? && s.available == 0)
  {
    match s.phase {
      case Top => e := BeginFill;
      case Filling =>
        if !s.cancelled && |s.active| < job.maxInFlight && s.next < |job.items| {
          e := Spawn;
        } else {
          e := EndFill;
        }
      case Selecting =>
        e := SelectingStep(job, s);
      case Returned =>
        e := BeginFill;
    }
  }

  lemma SelectingStep<T, U>(job: Job<T, U>, s: State<U>) returns (e: Event<U>)
    requires Inv(job, s) && s.phase == Selecting && s.active != map[] && job.permits > 0
    ensures Enabled(job, s, e)
    ensures Own(e) || (e.OthersGive? && s.available == 0)
  {
    if !s.cancelled && Ended(s) {
      return NoticeCancel;
    }
    if i :| i in s.active && s.active[i].Done? {
      return JoinTask(i);
    }
    if i :| i in s.active && s.active[i].Running? {
      return Complete(i, job.operation(job.items[i]));
    }
    var i :| i in s.active;
    if s.available > 0 {
      return Acquire(i);
    }
    SumOfNone(s.active, s.next, RunningWeight);
    return OthersGive;
  }

  function WorkLeft<U>(t: Task<U>): nat {
    match t
    case Waiting => 6
    case Running => 5
    case Done(_) => 4
  }

  /** A bound on the call's own steps from here on. */
  function Remaining<U>(items: nat, s: State<U>): nat
    requires s.next <= items
  {
    8 * (items - s.next) + Sum(s.active, s.next, WorkLeft)
    + (if s.cancelled then 0 else 4)
    + (match s.phase case Top => 3 case Filling => 2 case Selecting => 1 case Returned => 0)
  }

  /** Every own step uses up some of the work left, and steps of others add none: with NotStuck,
      the call returns once the other permit holders let it. */
  lemma StepsUseUpWork<T, U>(job: Job<T, U>, s: State<U>, e: Event<U>)
    requires Inv(job, s) && Enabled(job, s, e)
    ensures Step(job, s, e).next <= |job.items|
    ensures if Own(e) then Remaining(|job.items|, Step(job, s, e)) < Remaining(|job.items|, s)
            else Remaining(|job.items|, Step(job, s, e)) == Remaining(|job.items|, s)
  {
    hide Sum, OutputInv;
    match e {
      case Spawn => SpawnUsesUpWork(s);
      case JoinTask(i) => SumOfDrop(s.active, s.next, WorkLeft, i);
      case Acquire(i) => TaskUsesUpWork(s, i, Running);
      case GiveUp(i) => TaskUsesUpWork(s, i, Done(None));
      case Complete(i, output) => TaskUsesUpWork(s, i, Done(Some(output)));
      case _ =>
    }
  }

  lemma SpawnUsesUpWork<U>(s: State<U>)
    requires s.next !in s.active
    ensures Sum(s.active[s.next := Waiting], s.next + 1, WorkLeft) == Sum(s.active, s.next, WorkLeft) + 6
  {
    SumOfUpdate(s.active, s.next + 1, WorkLeft, s.next, Waiting);
  }

  lemma TaskUsesUpWork<U>(s: State<U>, i: nat, t: Task<U>)
    requires i < s.next && i in s.active && WorkLeft(t) < WorkLeft(s.active[i])
    ensures Sum(s.active[i := t], s.next, WorkLeft) < Sum(s.active, s.next, WorkLeft)
  {
    SumOfUpdate(s.active, s.next, WorkLeft, i, t);
  }

  /** How many of the events are the call's own. */
  function OwnCount<U>(events: seq<Event<U>>): nat {
    if events == [] then 0 else (if Own(events[0]) then 1 else 0) + OwnCount(events[1..])
  }

  /** On every run the call takes at most `Remaining` steps of its own, whatever the others do. */
  lemma {:induction false} OwnStepsAreBounded<T, U>(job: Job<T, U>, s: State<U>, events: seq<Event<U>>)
    requires job.maxInFlight > 0 && Inv(job, s) && Possible(job, s, events)
    ensures Inv(job, After(job, s, events))
    ensures OwnCount(events) + Remaining(|job.items|, After(job, s, events)) <= Remaining(|job.items|, s)
    decreases |events|
  {
    hide PermitInv, BoundInv, OutputInv, Step, Enabled, Own, Remaining;
    if events != [] {
      StepsUseUpWork(job, s, events[0]);
      StepKeepsInv(job, s, events[0]);
      OwnStepsAreBounded(job, Step(job, s, events[0]), events[1..]);
    }
  }

  lemma OthersGiveBack<T, U>(job: Job<T, U>, s: State<U>, e: Event<U>)
    requires Enabled(job, s, e) && (Own(e) || e.OthersGive?)
    ensures Step(job, s, e).others == s.others - (if e.OthersGive? then 1 else 0)
  {
  }

  /** From every reachable state the call can be brought to return: by its own steps, and by other
      holders giving back a permit when it waits for one. */
  lemma {:induction false} CallReturns<T, U>(job: Job<T, U>, s: State<U>) returns (events: seq<Event<U>>)
    requires job.maxInFlight > 0 && job.permits > 0 && Inv(job, s)
    ensures Possible(job, s, events) && After(job, s, events).phase == Returned
    ensures forall i :: 0 <= i < |events| ==> Own(events[i]) || events[i].OthersGive?
    ensures |events| <= Remaining(|job.items|, s) + s.others
    decreases Remaining(|job.items|, s) + s.others
  {
    hide PermitInv, BoundInv, OutputInv, Step, Enabled, Own, Remaining;
    if s.phase == Returned {
      events := [];
    } else {
      var e := SomeStep(job, s);
      var t := Step(job, s, e);
      StepsUseUpWork(job, s, e);
      StepKeepsInv(job, s, e);
      OthersGiveBack(job, s, e);
      GiveIsNotOwn(e);
      var rest := CallReturns(job, t);
      events := [e] + rest;
      assert events[1..] == rest;
    }
  }

  lemma GiveIsNotOwn<U>(e: Event<U>)
    ensures e.OthersGive? ==> !Own(e)
  {
  }
}
