/**
 The realtime watcher registry of realtime.rs: start, stop, reconcile and stop-all calls running
 concurrently, with the locks they take, and the watchers they spawn, cancel and await.

 A call is a thread whose program point says which locks it holds.  Only three program points
 touch the registry, all under its lock; the lock stays taken while a removed watcher is
 awaited, because the guard lives to the end of that statement.
 */
module WatcherRegistry {
  import opened Options

  type Account = string

  /** How a call holds the lifecycle lock: shared, or exclusively as a reconciliation that
      still has `todo` accounts to start. */
  datatype Holder = Shared | Exclusive(todo: seq<Account>)

  datatype Thread =
    | WantsRead(account: Account, start: bool)
    | WantsAccount(holder: Holder, account: Account, start: bool)
    | WantsTasks(holder: Holder, account: Account, start: bool)
    | Awaiting(holder: Holder, account: Account, start: bool, removed: Option<nat>)
    | WantsToInsert(holder: Holder, account: Account)
    | RemovesStatus(holder: Holder, account: Account)
    | Leaving(holder: Holder)
    | WantsReconcile
    | WantsWrite(reconcile: bool)
    | WantsToDrain(reconcile: bool)
    | AwaitingAll(reconcile: bool, drained: set<nat>)
    | ClearsStatuses(reconcile: bool)
    | ListsAccounts
    | Looping(todo: seq<Account>)

  /** An account as the store lists it. */
  datatype Listed = Listed(account: Account, enabled: bool)

  /** The accounts a reconciliation starts. */
  function EnabledAccounts(listed: seq<Listed>): (r: seq<Account>)
    ensures |r| <= |listed|
  {
    if listed == [] then []
    else (if listed[0].enabled then [listed[0].account] else []) + EnabledAccounts(listed[1..])
  }

  datatype Watcher = Watcher(account: Account, live: bool, cancelled: bool)

  /** `tasks` and `statuses` are the manager's maps (a status is just present or not).
      `started` is history: the accounts with a watcher spawned since they were last stopped. */
  datatype System = System(tasks: map<Account, nat>, watchers: map<nat, Watcher>, statuses: set<Account>,
                           threads: map<nat, Thread>, started: set<Account>)

  const INITIAL := System(map[], map[], {}, map[], {})

  // ---------------------------------------------------------------- who holds which lock

  predicate HasHolder(th: Thread) {
    th.WantsAccount? || th.WantsTasks? || th.Awaiting? || th.WantsToInsert? || th.RemovesStatus? || th.Leaving?
  }

  predicate HoldsRead(th: Thread) {
    HasHolder(th) && th.holder.Shared?
  }

  predicate HoldsWrite(th: Thread) {
    || (HasHolder(th) && th.holder.Exclusive?)
    || th.WantsToDrain? || th.AwaitingAll? || th.ClearsStatuses? || th.ListsAccounts? || th.Looping?
  }

  predicate HoldsReconcile(th: Thread) {
    || (HasHolder(th) && th.holder.Exclusive?)
    || ((th.WantsWrite? || th.WantsToDrain? || th.AwaitingAll? || th.ClearsStatuses?) && th.reconcile)
    || th.ListsAccounts? || th.Looping?
  }

  predicate HoldsAccount(th: Thread, a: Account) {
    (th.WantsTasks? || th.Awaiting? || th.WantsToInsert? || th.RemovesStatus?) && th.account == a
  }

  predicate HoldsTasks(th: Thread) {
    th.Awaiting?
  }

  // ---------------------------------------------------------------- steps

  datatype Event =
    | StartAccount(thread: nat, account: Account)
    | StopAccount(thread: nat, account: Account)
    | Reconcile(thread: nat)
    | StopAll(thread: nat)
    | Advance(thread: nat, accounts: Option<seq<Listed>>, spawned: nat)
    | Publish(watcher: nat)
    | EndWatcher(watcher: nat)

  predicate Live(s: System, w: nat) {
    w in s.watchers && s.watchers[w].live
  }

  predicate CanAdvance(s: System, t: nat)
    requires t in s.threads
  {
    match s.threads[t]
    case WantsRead(_, _) => forall u :: u in s.threads ==> !HoldsWrite(s.threads[u])
    case WantsWrite(_) => forall u :: u in s.threads ==> !HoldsWrite(s.threads[u]) && !HoldsRead(s.threads[u])
    case WantsReconcile => forall u :: u in s.threads ==> !HoldsReconcile(s.threads[u])
    case WantsAccount(_, a, _) => forall u :: u in s.threads ==> !HoldsAccount(s.threads[u], a)
    case WantsTasks(_, _, _) => forall u :: u in s.threads ==> !HoldsTasks(s.threads[u])
    case WantsToInsert(_, _) => forall u :: u in s.threads ==> !HoldsTasks(s.threads[u])
    case WantsToDrain(_) => forall u :: u in s.threads ==> !HoldsTasks(s.threads[u])
    case Awaiting(_, _, _, removed) => removed.None? || !Live(s, removed.value)
    case AwaitingAll(_, drained) => forall w :: w in drained ==> !Live(s, w)
    case _ => true
  }

  predicate Enabled(s: System, e: Event) {
    match e
    case StartAccount(t, _) => t !in s.threads
    case StopAccount(t, _) => t !in s.threads
    case Reconcile(t) => t !in s.threads
    case StopAll(t) => t !in s.threads
    case Advance(t, _, w) => t in s.threads && CanAdvance(s, t) && w !in s.watchers
    case Publish(w) => Live(s, w)
    case EndWatcher(w) => Live(s, w)
  }

  function Without<K, V>(m: map<K, V>, k: K): map<K, V> {
    map x | x in m && x != k :: m[x]
  }

  /** `cancel.send(true)` to each of `ws`. */
  function CancelAll(watchers: map<nat, Watcher>, ws: set<nat>): map<nat, Watcher> {
    map w | w in watchers :: if w in ws then watchers[w].(cancelled := true) else watchers[w]
  }

  function At(s: System, t: nat, th: Thread): System {
    s.(threads := s.threads[t := th])
  }

  function Done(s: System, t: nat): System {
    s.(threads := Without(s.threads, t))
  }

  /** The next step of a call.  `accounts` is what the store lists (None when it fails), and
      `spawned` identifies the watcher a start spawns. */
  function Advanced(s: System, t: nat, accounts: Option<seq<Listed>>, spawned: nat): System
    requires t in s.threads
  {
    match s.threads[t]
    case WantsRead(a, start) => At(s, t, WantsAccount(Shared, a, start))
    case WantsAccount(h, a, start) => At(s, t, WantsTasks(h, a, start))
    case WantsTasks(h, a, start) =>
      if a in s.tasks then
        At(s.(tasks := Without(s.tasks, a), watchers := CancelAll(s.watchers, {s.tasks[a]})), t,
           Awaiting(h, a, start, Some(s.tasks[a])))
      else At(s, t, Awaiting(h, a, start, None))
    case Awaiting(h, a, start, _) => At(s, t, if start then WantsToInsert(h, a) else RemovesStatus(h, a))
    case WantsToInsert(h, a) =>
      At(s.(tasks := s.tasks[a := spawned], watchers := s.watchers[spawned := Watcher(a, true, false)],
            started := s.started + {a}), t, Leaving(h))
    case RemovesStatus(h, a) => At(s.(statuses := s.statuses - {a}, started := s.started - {a}), t, Leaving(h))
    case Leaving(h) => if h.Shared? then Done(s, t) else At(s, t, Looping(h.todo))
    case WantsReconcile => At(s, t, WantsWrite(true))
    case WantsWrite(reconcile) => At(s, t, WantsToDrain(reconcile))
    case WantsToDrain(reconcile) =>
      At(s.(tasks := map[], watchers := CancelAll(s.watchers, s.tasks.Values)), t,
         AwaitingAll(reconcile, s.tasks.Values))
    case AwaitingAll(reconcile, _) => At(s, t, ClearsStatuses(reconcile))
    case ClearsStatuses(reconcile) =>
      var q := s.(statuses := {}, started := {});
      if reconcile then At(q, t, ListsAccounts) else Done(q, t)
    case ListsAccounts => if accounts.Some? then At(s, t, Looping(EnabledAccounts(accounts.value))) else Done(s, t)
    case Looping(todo) => if todo == [] then Done(s, t) else At(s, t, WantsAccount(Exclusive(todo[1..]), todo[0], true))
  }

  function Step(s: System, e: Event): System
    requires Enabled(s, e)
  {
    match e
    case StartAccount(t, a) => At(s, t, WantsRead(a, true))
    case StopAccount(t, a) => At(s, t, WantsRead(a, false))
    case Reconcile(t) => At(s, t, WantsReconcile)
    case StopAll(t) => At(s, t, WantsWrite(false))
    case Advance(t, accounts, w) => Advanced(s, t, accounts, w)
    case Publish(w) => s.(statuses := s.statuses + {s.watchers[w].account})
    case EndWatcher(w) => s.(watchers := s.watchers[w := s.watchers[w].(live := false)])
  }

  predicate Possible(s: System, events: seq<Event>)
    decreases |events|
  {
    events == [] || (Enabled(s, events[0]) && Possible(Step(s, events[0]), events[1..]))
  }

  function After(s: System, events: seq<Event>): System
    requires Possible(s, events)
    decreases |events|
  {
    if events == [] then s else After(Step(s, events[0]), events[1..])
  }

  // ---------------------------------------------------------------- the invariant

  /** Two different calls may be at these points at the same time. */
  predicate Compatible(x: Thread, y: Thread) {
    && !(HoldsWrite(x) && (HoldsWrite(y) || HoldsRead(y)))
    && !(HoldsReconcile(x) && HoldsReconcile(y))
    && !(HoldsTasks(x) && HoldsTasks(y))
    && (x.WantsTasks? || x.Awaiting? || x.WantsToInsert? || x.RemovesStatus? ==> !HoldsAccount(y, x.account))
  }

  predicate LocksInv(s: System) {
    forall t, u :: t in s.threads && u in s.threads && t != u ==> Compatible(s.threads[t], s.threads[u])
  }

  predicate Owns(th: Thread, w: nat) {
    || (th.Awaiting? && th.removed == Some(w))
    || (th.AwaitingAll? && w in th.drained)
  }

  predicate NoneLiveFor(s: System, a: Account) {
    forall w :: w in s.watchers && s.watchers[w].live ==> s.watchers[w].account != a
  }

  predicate NoneLive(s: System) {
    forall w :: w in s.watchers ==> !s.watchers[w].live
  }

  predicate TasksInv(s: System) {
    forall a :: a in s.tasks ==> s.tasks[a] in s.watchers && s.watchers[s.tasks[a]].account == a
  }

  /** What is true of the registry while a call is at a given point. */
  predicate PointInv(s: System, th: Thread) {
    match th
    case Awaiting(_, a, _, removed) =>
      && a !in s.tasks
      && (removed.Some? ==> removed.value in s.watchers && s.watchers[removed.value].account == a
                            && s.watchers[removed.value].cancelled)
    case WantsToInsert(_, a) => a !in s.tasks && NoneLiveFor(s, a)
    case RemovesStatus(_, a) => a !in s.tasks && NoneLiveFor(s, a)
    case AwaitingAll(_, drained) =>
      s.tasks == map[] && forall w :: w in drained ==> w in s.watchers && s.watchers[w].cancelled
    case ClearsStatuses(_) => s.tasks == map[] && NoneLive(s)
    case _ => true
  }

  predicate PointsInv(s: System) {
    forall t :: t in s.threads ==> PointInv(s, s.threads[t])
  }

  predicate Accounted(s: System, w: nat)
    requires w in s.watchers
  {
    || (s.watchers[w].account in s.tasks && s.tasks[s.watchers[w].account] == w)
    || exists t :: t in s.threads && Owns(s.threads[t], w)
  }

  /** Every live watcher is registered, or held by the call that removed it. */
  predicate LiveInv(s: System) {
    forall w :: w in s.watchers && s.watchers[w].live ==> Accounted(s, w)
  }

  /** Each account has at most one live watcher. */
  predicate SingleInv(s: System) {
    forall v, w | v in s.watchers && w in s.watchers && s.watchers[v].live && s.watchers[w].live ::
      s.watchers[v].account == s.watchers[w].account ==> v == w
  }

  /** A stopped account has no registered task, no status and no live watcher. */
  predicate StoppedInv(s: System) {
    && (forall a :: a in s.tasks ==> a in s.started)
    && s.statuses <= s.started
    && (forall w :: w in s.watchers && s.watchers[w].live ==> s.watchers[w].account in s.started)
  }

  predicate Inv(s: System) {
    LocksInv(s) && TasksInv(s) && PointsInv(s) && LiveInv(s) && SingleInv(s) && StoppedInv(s)
  }

  // ---------------------------------------------------------------- locks

  /** A thread that moves to a point holding no more than before, or what it may take now. */
  lemma MoveKeepsLocks(s: System, q: System, t: nat, th: Thread)
    requires LocksInv(s)
    requires q.threads == s.threads[t := th]
    requires forall u :: u in s.threads && u != t ==> Compatible(th, s.threads[u]) && Compatible(s.threads[u], th)
    ensures LocksInv(q)
  {
  }

  predicate HoldsNoMore(th: Thread, before: Thread) {
    && (HoldsWrite(th) ==> HoldsWrite(before)) && (HoldsRead(th) ==> HoldsRead(before))
    && (HoldsReconcile(th) ==> HoldsReconcile(before)) && (HoldsTasks(th) ==> HoldsTasks(before))
    && (th.WantsTasks? || th.Awaiting? || th.WantsToInsert? || th.RemovesStatus? ==> HoldsAccount(before, th.account))
  }

  lemma FewerLocksStayCompatible(th: Thread, before: Thread, other: Thread)
    requires HoldsNoMore(th, before) && Compatible(before, other) && Compatible(other, before)
    ensures Compatible(th, other) && Compatible(other, th)
  {
  }

  /** The five points where a lock is taken: it is taken only when no one else holds it. */
  lemma AcquiredIsCompatible(s: System, t: nat, u: nat, th: Thread)
    requires t in s.threads && u in s.threads && t != u && CanAdvance(s, t)
    requires Compatible(s.threads[t], s.threads[u]) && Compatible(s.threads[u], s.threads[t])
    requires match s.threads[t]
             case WantsRead(a, start) => th == WantsAccount(Shared, a, start)
             case WantsAccount(h, a, start) => th == WantsTasks(h, a, start)
             case WantsTasks(h, a, start) => th.Awaiting? && th.holder == h && th.account == a
             case WantsReconcile => th == WantsWrite(true)
             case WantsWrite(r) => th == WantsToDrain(r)
             case _ => false
    ensures Compatible(th, s.threads[u]) && Compatible(s.threads[u], th)
  {
  }

  predicate Acquires(th: Thread) {
    th.WantsRead? || th.WantsAccount? || th.WantsTasks? || th.WantsReconcile? || th.WantsWrite?
  }

  lemma PlainMoveHoldsNoMore(s: System, t: nat, accounts: Option<seq<Listed>>, w: nat)
    requires t in s.threads && !Acquires(s.threads[t])
    ensures var q := Advanced(s, t, accounts, w);
            t in q.threads ==> Follows(s.threads[t], q.threads[t]) && HoldsNoMore(q.threads[t], s.threads[t])
  {
    hide CancelAll;
    var q := Advanced(s, t, accounts, w);
    if t in q.threads {
      assert Follows(s.threads[t], q.threads[t]);
      hide Advanced;
    }
  }

  /** Where a call goes from a point at which it takes no lock. */
  predicate Follows(before: Thread, th: Thread) {
    match before
    case Awaiting(h, a, _, _) => th == WantsToInsert(h, a) || th == RemovesStatus(h, a)
    case WantsToInsert(h, a) => th == Leaving(h)
    case RemovesStatus(h, a) => th == Leaving(h)
    case Leaving(h) => h.Exclusive? && th == Looping(h.todo)
    case WantsToDrain(r) => th.AwaitingAll? && th.reconcile == r
    case AwaitingAll(r, _) => th == ClearsStatuses(r)
    case ClearsStatuses(r) => r && th == ListsAccounts
    case ListsAccounts => th.Looping?
    case Looping(_) => th.WantsAccount? && th.holder.Exclusive?
    case _ => false
  }

  lemma AdvanceKeepsLocks(s: System, t: nat, accounts: Option<seq<Listed>>, w: nat)
    requires LocksInv(s) && t in s.threads && CanAdvance(s, t)
    ensures LocksInv(Advanced(s, t, accounts, w))
  {
    hide LocksInv, Compatible, CanAdvance;
    var q := Advanced(s, t, accounts, w);
    if t in q.threads {
      var th := q.threads[t];
      forall u | u in s.threads && u != t
        ensures Compatible(th, s.threads[u]) && Compatible(s.threads[u], th)
      {
        PairwiseCompatible(s, t, u);
        if Acquires(s.threads[t]) {
          AcquiredIsCompatible(s, t, u, th);
        } else {
          PlainMoveHoldsNoMore(s, t, accounts, w);
          FewerLocksStayCompatible(th, s.threads[t], s.threads[u]);
        }
      }
      MoveKeepsLocks(s, q, t, th);
    } else {
      FewerThreads(s, q, t);
    }
  }

  lemma PairwiseCompatible(s: System, t: nat, u: nat)
    requires LocksInv(s) && t in s.threads && u in s.threads && t != u
    ensures Compatible(s.threads[t], s.threads[u]) && Compatible(s.threads[u], s.threads[t])
  {
  }

  lemma FewerThreads(s: System, q: System, t: nat)
    requires LocksInv(s) && q.threads == Without(s.threads, t)
    ensures LocksInv(q)
  {
  }

  lemma BeginKeepsLocks(s: System, t: nat, th: Thread)
    requires LocksInv(s) && t !in s.threads
    requires th.WantsRead? || th.WantsReconcile? || th == WantsWrite(false)
    ensures LocksInv(At(s, t, th))
  {
  }

  // ---------------------------------------------------------------- the registry

  /** A call moves without touching the registry. */
  lemma MoveKeepsRest(s: System, t: nat, th: Thread)
    requires Inv(s) && t in s.threads && PointInv(s, th)
    requires forall w :: w in s.watchers && s.watchers[w].live && Owns(s.threads[t], w) ==> Owns(th, w)
    ensures PointsInv(At(s, t, th)) && LiveInv(At(s, t, th))
  {
    hide PointInv, LocksInv, Owns;
    var q := At(s, t, th);
    forall u | u in q.threads
      ensures PointInv(q, q.threads[u])
    {
      SamePoint(s, q, q.threads[u]);
    }
    forall w | w in q.watchers && q.watchers[w].live
      ensures Accounted(q, w)
    {
      assert Accounted(s, w);
      if u :| u in s.threads && Owns(s.threads[u], w) {
        assert u in q.threads && Owns(q.threads[u], w);
      }
    }
  }

  lemma SamePoint(s: System, q: System, th: Thread)
    requires PointInv(s, th) && q.tasks == s.tasks && q.watchers == s.watchers
    ensures PointInv(q, th)
  {
  }

  lemma LeaveKeepsRest(s: System, t: nat)
    requires Inv(s) && t in s.threads
    requires forall w :: w in s.watchers && s.watchers[w].live ==> !Owns(s.threads[t], w)
    ensures PointsInv(Done(s, t)) && LiveInv(Done(s, t))
  {
    hide PointInv, LocksInv, Owns;
    var q := Done(s, t);
    forall u | u in q.threads
      ensures PointInv(q, q.threads[u])
    {
      SamePoint(s, q, q.threads[u]);
    }
    forall w | w in q.watchers && q.watchers[w].live
      ensures Accounted(q, w)
    {
      assert Accounted(s, w);
      if u :| u in s.threads && Owns(s.threads[u], w) {
        assert u in q.threads && Owns(q.threads[u], w);
      }
    }
  }

  /** Once an awaited watcher has ended, nothing is live for the account whose transition this
      call holds. */
  lemma NothingLeftLive(s: System, t: nat)
    requires Inv(s) && t in s.threads && s.threads[t].Awaiting? && CanAdvance(s, t)
    ensures NoneLiveFor(s, s.threads[t].account)
  {
    var a := s.threads[t].account;
    forall w | w in s.watchers && s.watchers[w].live
      ensures s.watchers[w].account != a
    {
      assert Accounted(s, w);
      assert PointInv(s, s.threads[t]);
      if u :| u in s.threads && Owns(s.threads[u], w) {
        assert PointInv(s, s.threads[u]);
        if u != t {
          PairwiseCompatible(s, t, u);
        }
      }
    }
  }

  /** While everything drained is awaited, whatever is still live was drained. */
  lemma LiveWasDrained(s: System, t: nat, w: nat)
    requires Inv(s) && t in s.threads && s.threads[t].AwaitingAll? && w in s.watchers && s.watchers[w].live
    ensures w in s.threads[t].drained
  {
    assert Accounted(s, w);
    assert PointInv(s, s.threads[t]);
    var u :| u in s.threads && Owns(s.threads[u], w);
    if u != t {
      PairwiseCompatible(s, t, u);
    }
  }

  lemma NothingLeftAtAll(s: System, t: nat)
    requires Inv(s) && t in s.threads && s.threads[t].AwaitingAll? && CanAdvance(s, t)
    ensures NoneLive(s)
  {
    hide Inv;
    forall w | w in s.watchers
      ensures !s.watchers[w].live
    {
      if s.watchers[w].live {
        LiveWasDrained(s, t, w);
      }
    }
  }

  // -- the steps that change the registry

  lemma TakeKeepsInv(s: System, t: nat)
    requires Inv(s) && t in s.threads && s.threads[t].WantsTasks? && CanAdvance(s, t)
    requires s.threads[t].account in s.tasks
    ensures Inv(Advanced(s, t, None, 0))
  {
    var q := Advanced(s, t, None, 0);
    AdvanceKeepsLocks(s, t, None, 0);
    TakeKeepsPoints(s, t);
    hide LocksInv, CanAdvance, PointsInv, PointInv;
    RemovalKeepsLive(s, q, t, {s.tasks[s.threads[t].account]});
  }

  lemma TakeKeepsPoints(s: System, t: nat)
    requires TasksInv(s) && PointsInv(s)
    requires t in s.threads && s.threads[t].WantsTasks? && s.threads[t].account in s.tasks
    ensures PointsInv(Advanced(s, t, None, 0))
  {
    var q := Advanced(s, t, None, 0);
    forall u | u in q.threads
      ensures PointInv(q, q.threads[u])
    {
      if u != t {
        assert PointInv(s, s.threads[u]);
        assert q.threads[u] == s.threads[u];
      }
    }
  }

  /** Removed tasks that the removing call now awaits stay accounted for. */
  lemma RemovalKeepsLive(s: System, q: System, t: nat, removed: set<nat>)
    requires LiveInv(s) && t in s.threads && t in q.threads
    requires q.watchers == CancelAll(s.watchers, removed)
    requires forall u :: u in s.threads && u != t ==> u in q.threads && q.threads[u] == s.threads[u]
    requires forall w :: w in s.watchers ==> !Owns(s.threads[t], w)
    requires forall a :: a in s.tasks ==> (a in q.tasks && q.tasks[a] == s.tasks[a]) || s.tasks[a] in removed
    requires forall w :: w in removed ==> Owns(q.threads[t], w)
    ensures LiveInv(q)
  {
    hide Owns;
    forall w | w in q.watchers && q.watchers[w].live
      ensures Accounted(q, w)
    {
      assert Accounted(s, w);
      if u :| u in s.threads && Owns(s.threads[u], w) {
        assert u in q.threads && Owns(q.threads[u], w);
      }
    }
  }

  lemma DrainKeepsInv(s: System, t: nat)
    requires Inv(s) && t in s.threads && s.threads[t].WantsToDrain? && CanAdvance(s, t)
    ensures Inv(Advanced(s, t, None, 0))
  {
    var q := Advanced(s, t, None, 0);
    AdvanceKeepsLocks(s, t, None, 0);
    DrainKeepsPoints(s, t);
    hide LocksInv, CanAdvance, PointsInv, PointInv;
    RemovalKeepsLive(s, q, t, s.tasks.Values);
  }

  lemma DrainKeepsPoints(s: System, t: nat)
    requires LocksInv(s) && TasksInv(s) && PointsInv(s) && t in s.threads && s.threads[t].WantsToDrain?
    ensures PointsInv(Advanced(s, t, None, 0))
  {
    hide LocksInv;
    var q := Advanced(s, t, None, 0);
    forall u | u in q.threads
      ensures PointInv(q, q.threads[u])
    {
      if u != t {
        assert PointInv(s, s.threads[u]);
        PairwiseCompatible(s, t, u);
      }
    }
  }

  lemma InsertKeepsInv(s: System, t: nat, w: nat)
    requires Inv(s) && t in s.threads && s.threads[t].WantsToInsert? && CanAdvance(s, t) && w !in s.watchers
    ensures Inv(Advanced(s, t, None, w))
  {
    AdvanceKeepsLocks(s, t, None, w);
    InsertKeepsPoints(s, t, w);
    InsertKeepsLive(s, t, w);
    assert PointInv(s, s.threads[t]);
    hide LocksInv, CanAdvance, PointsInv, LiveInv;
  }

  lemma InsertKeepsPoints(s: System, t: nat, w: nat)
    requires LocksInv(s) && PointsInv(s) && t in s.threads && s.threads[t].WantsToInsert? && w !in s.watchers
    ensures PointsInv(Advanced(s, t, None, w))
  {
    hide LocksInv;
    var q := Advanced(s, t, None, w);
    forall u | u in q.threads
      ensures PointInv(q, q.threads[u])
    {
      if u != t {
        assert PointInv(s, s.threads[u]);
        PairwiseCompatible(s, t, u);
      }
    }
  }

  lemma InsertKeepsLive(s: System, t: nat, w: nat)
    requires Inv(s) && t in s.threads && s.threads[t].WantsToInsert? && w !in s.watchers
    ensures LiveInv(Advanced(s, t, None, w))
  {
    hide LocksInv, Owns;
    assert PointInv(s, s.threads[t]);
    var q := Advanced(s, t, None, w);
    forall v | v in q.watchers && q.watchers[v].live
      ensures Accounted(q, v)
    {
      if v != w {
        assert Accounted(s, v);
        if u :| u in s.threads && Owns(s.threads[u], v) {
          InserterOwnsNothing(s.threads[t], v);
          assert u in q.threads && q.threads[u] == s.threads[u];
        }
      }
    }
  }

  lemma InserterOwnsNothing(th: Thread, v: nat)
    requires th.WantsToInsert?
    ensures !Owns(th, v)
  {
  }

  lemma ForgetKeepsInv(s: System, t: nat)
    requires Inv(s) && t in s.threads && (s.threads[t].RemovesStatus? || s.threads[t].ClearsStatuses?)
    ensures Inv(Advanced(s, t, None, 0))
  {
    AdvanceKeepsLocks(s, t, None, 0);
    assert PointInv(s, s.threads[t]);
    var th := s.threads[t];
    if th.RemovesStatus? {
      MoveKeepsRest(s, t, Leaving(th.holder));
      SameRest(At(s, t, Leaving(th.holder)), Advanced(s, t, None, 0));
    } else if th.reconcile {
      MoveKeepsRest(s, t, ListsAccounts);
      SameRest(At(s, t, ListsAccounts), Advanced(s, t, None, 0));
    } else {
      LeaveKeepsRest(s, t);
      SameRest(Done(s, t), Advanced(s, t, None, 0));
    }
  }

  lemma SameRest(s: System, q: System)
    requires PointsInv(s) && LiveInv(s)
    requires q.tasks == s.tasks && q.watchers == s.watchers && q.threads == s.threads
    ensures PointsInv(q) && LiveInv(q)
  {
    hide PointInv;
    forall u | u in q.threads
      ensures PointInv(q, q.threads[u])
    {
      SamePoint(s, q, q.threads[u]);
    }
    forall w | w in q.watchers && q.watchers[w].live
      ensures Accounted(q, w)
    {
      assert Accounted(s, w);
    }
  }

  /** All other steps only move the call. */
  predicate Plain(s: System, t: nat)
    requires t in s.threads
  {
    var th := s.threads[t];
    && !(th.WantsToInsert? || th.WantsToDrain? || th.RemovesStatus? || th.ClearsStatuses?)
    && (th.WantsTasks? ==> th.account !in s.tasks)
  }

  lemma PlainMoveShape(s: System, t: nat, accounts: Option<seq<Listed>>)
    requires t in s.threads && Plain(s, t)
    ensures var q := Advanced(s, t, accounts, 0); q == if t in q.threads then At(s, t, q.threads[t]) else Done(s, t)
  {
  }

  lemma PlainMovePoint(s: System, t: nat, accounts: Option<seq<Listed>>)
    requires Inv(s) && t in s.threads && CanAdvance(s, t) && Plain(s, t)
    ensures var q := Advanced(s, t, accounts, 0);
            && (t in q.threads ==> PointInv(s, q.threads[t]))
            && forall w :: w in s.watchers && s.watchers[w].live ==> !Owns(s.threads[t], w)
  {
    assert PointInv(s, s.threads[t]);
    if s.threads[t].Awaiting? {
      NothingLeftLive(s, t);
    }
    if s.threads[t].AwaitingAll? {
      NothingLeftAtAll(s, t);
    }
    hide Inv, CancelAll;
  }

  lemma PlainMoveKeepsInv(s: System, t: nat, accounts: Option<seq<Listed>>)
    requires Inv(s) && t in s.threads && CanAdvance(s, t) && Plain(s, t)
    ensures Inv(Advanced(s, t, accounts, 0))
  {
    AdvanceKeepsLocks(s, t, accounts, 0);
    PlainMoveShape(s, t, accounts);
    PlainMovePoint(s, t, accounts);
    hide LocksInv, CanAdvance, PointsInv, LiveInv, Advanced, PointInv, Owns;
    var q := Advanced(s, t, accounts, 0);
    if t in q.threads {
      MoveKeepsRest(s, t, q.threads[t]);
    } else {
      LeaveKeepsRest(s, t);
    }
  }

  lemma AdvanceKeepsInv(s: System, t: nat, accounts: Option<seq<Listed>>, w: nat)
    requires Inv(s) && t in s.threads && CanAdvance(s, t) && w !in s.watchers
    ensures Inv(Advanced(s, t, accounts, w))
  {
    hide Inv, CanAdvance;
    match s.threads[t] {
      case WantsTasks(_, a, _) =>
        if a in s.tasks {
          TakeKeepsInv(s, t);
        } else {
          PlainMoveKeepsInv(s, t, accounts);
        }
      case WantsToInsert(_, _) => InsertKeepsInv(s, t, w);
      case WantsToDrain(_) => DrainKeepsInv(s, t);
      case RemovesStatus(_, _) => ForgetKeepsInv(s, t);
      case ClearsStatuses(_) => ForgetKeepsInv(s, t);
      case _ => PlainMoveKeepsInv(s, t, accounts);
    }
  }

  lemma BeginKeepsInv(s: System, t: nat, th: Thread)
    requires Inv(s) && t !in s.threads
    requires th.WantsRead? || th.WantsReconcile? || th == WantsWrite(false)
    ensures Inv(At(s, t, th))
  {
    BeginKeepsLocks(s, t, th);
    hide LocksInv;
    var q := At(s, t, th);
    forall u | u in q.threads
      ensures PointInv(q, q.threads[u])
    {
      if u != t {
        SamePoint(s, q, q.threads[u]);
      }
    }
    hide PointInv;
    forall w | w in q.watchers && q.watchers[w].live
      ensures Accounted(q, w)
    {
      assert Accounted(s, w);
      if u :| u in s.threads && Owns(s.threads[u], w) {
        assert u in q.threads && Owns(q.threads[u], w);
      }
    }
  }

  lemma EndKeepsInv(s: System, w: nat)
    requires Inv(s) && Live(s, w)
    ensures Inv(Step(s, EndWatcher(w)))
  {
    hide LocksInv;
    var q := Step(s, EndWatcher(w));
    assert LocksInv(q) by {
      SameThreads(s, q);
    }
    forall u | u in q.threads
      ensures PointInv(q, q.threads[u])
    {
      assert PointInv(s, s.threads[u]);
    }
    hide PointInv;
    forall v | v in q.watchers && q.watchers[v].live
      ensures Accounted(q, v)
    {
      assert Accounted(s, v);
    }
  }

  lemma SameThreads(s: System, q: System)
    requires LocksInv(s) && q.threads == s.threads
    ensures LocksInv(q)
  {
  }

  lemma PublishKeepsInv(s: System, w: nat)
    requires Inv(s) && Live(s, w)
    ensures Inv(Step(s, Publish(w)))
  {
    hide LocksInv, PointsInv, LiveInv;
    SameThreads(s, Step(s, Publish(w)));
    SameRest(s, Step(s, Publish(w)));
  }

  lemma StepKeepsInv(s: System, e: Event)
    requires Inv(s) && Enabled(s, e)
    ensures Inv(Step(s, e))
  {
    hide Inv, CanAdvance, Advanced;
    match e {
      case StartAccount(t, a) => BeginKeepsInv(s, t, WantsRead(a, true));
      case StopAccount(t, a) => BeginKeepsInv(s, t, WantsRead(a, false));
      case Reconcile(t) => BeginKeepsInv(s, t, WantsReconcile);
      case StopAll(t) => BeginKeepsInv(s, t, WantsWrite(false));
      case Advance(t, accounts, w) => AdvanceKeepsInv(s, t, accounts, w);
      case Publish(w) => PublishKeepsInv(s, w);
      case EndWatcher(w) => EndKeepsInv(s, w);
    }
  }

  lemma {:induction false} RunsKeepInv(s: System, events: seq<Event>)
    requires Inv(s) && Possible(s, events)
    ensures Inv(After(s, events))
    decreases |events|
  {
    hide Inv, Step, Enabled;
    if events != [] {
      StepKeepsInv(s, events[0]);
      RunsKeepInv(Step(s, events[0]), events[1..]);
    }
  }

  // ---------------------------------------------------------------- the theorems

  ghost predicate Reachable(s: System) {
    exists events :: Possible(INITIAL, events) && After(INITIAL, events) == s
  }

  lemma ReachableIsInv(s: System)
    requires Reachable(s)
    ensures Inv(s)
  {
    hide Step, Enabled;
    var events :| Possible(INITIAL, events) && After(INITIAL, events) == s;
    RunsKeepInv(INITIAL, events);
  }

  /** Under any interleaving of start, stop, reconcile and stop-all, an account never has two
      live watchers. */
  lemma OneWatcherPerAccount(s: System, v: nat, w: nat)
    requires Reachable(s) && Live(s, v) && Live(s, w) && s.watchers[v].account == s.watchers[w].account
    ensures v == w
  {
    hide Reachable;
    ReachableIsInv(s);
  }

  /** Every live watcher can still be reached: it is registered, or it has been cancelled and is
      being awaited by the call that owns its account's transition or the lifecycle lock. */
  lemma NoWatcherIsLost(s: System, w: nat)
    requires Reachable(s) && Live(s, w)
    ensures (s.watchers[w].account in s.tasks && s.tasks[s.watchers[w].account] == w)
         || exists t :: t in s.threads && Owns(s.threads[t], w) && s.watchers[w].cancelled
                        && (HoldsAccount(s.threads[t], s.watchers[w].account) || HoldsWrite(s.threads[t]))
  {
    hide Reachable;
    ReachableIsInv(s);
    assert Accounted(s, w);
    if t :| t in s.threads && Owns(s.threads[t], w) {
      assert PointInv(s, s.threads[t]);
    }
  }

  /** From the moment a stop has done its work until a watcher is spawned for the account
      again, the account has no live watcher, no registered task and no status. */
  lemma StoppedStaysStopped(s: System, a: Account)
    requires Reachable(s) && a !in s.started
    ensures a !in s.tasks && a !in s.statuses && forall w :: Live(s, w) ==> s.watchers[w].account != a
  {
    hide Reachable;
    ReachableIsInv(s);
  }

  // -- no deadlock

  /** A step that does not depend on anything outside: a call moves, or a cancelled watcher ends. */
  predicate Unforced(s: System, e: Event) {
    Enabled(s, e) && (e.Advance? || (e.EndWatcher? && s.watchers[e.watcher].cancelled))
  }

  lemma FreshWatcher(s: System) returns (w: nat)
    ensures w !in s.watchers
  {
    w := AboveAll(s.watchers.Keys);
  }

  lemma {:induction false} AboveAll(ids: set<nat>) returns (w: nat)
    ensures forall i :: i in ids ==> i < w
    decreases |ids|
  {
    if ids == {} {
      w := 0;
    } else {
      var i :| i in ids;
      var v := AboveAll(ids - {i});
      w := if v <= i then i + 1 else v;
      assert forall j :: j in ids ==> j == i || j in ids - {i};
    }
  }

  /** How far a call has come in the lock order: reconcile, lifecycle, account, tasks. */
  function Level(th: Thread): nat {
    match th
    case WantsReconcile => 0
    case WantsWrite(_) => 1
    case WantsRead(_, _) => 2
    case WantsAccount(_, _, _) => 3
    case WantsTasks(_, _, _) => 4
    case WantsToInsert(_, _) => 4
    case WantsToDrain(_) => 4
    case _ => 5
  }

  predicate Highest(s: System, t: nat) {
    t in s.threads && forall u :: u in s.threads ==> Level(s.threads[u]) <= Level(s.threads[t])
  }

  lemma {:induction false} SomeHighest(s: System, among: set<nat>) returns (t: nat)
    requires among != {} && among <= s.threads.Keys
    ensures t in among && forall u :: u in among ==> Level(s.threads[u]) <= Level(s.threads[t])
    decreases |among|
  {
    t :| t in among;
    if among != {t} {
      var v := SomeHighest(s, among - {t});
      if Level(s.threads[t]) < Level(s.threads[v]) {
        t := v;
      }
    }
  }

  /** Two calls waiting for the same lock.  The lifecycle lock has one queue for both kinds. */
  predicate SameQueue(x: Thread, y: Thread) {
    || ((x.WantsRead? || x.WantsWrite?) && (y.WantsRead? || y.WantsWrite?))
    || (x.WantsReconcile? && y.WantsReconcile?)
    || (x.WantsAccount? && y.WantsAccount? && x.account == y.account)
    || ((x.WantsTasks? || x.WantsToInsert? || x.WantsToDrain?)
        && (y.WantsTasks? || y.WantsToInsert? || y.WantsToDrain?))
  }

  /** Letting call `t` move would pass a call that has waited longer for the same lock. */
  predicate Overtakes(s: System, arrival: nat -> nat, t: nat)
    requires t in s.threads
  {
    exists u :: u in s.threads && SameQueue(s.threads[t], s.threads[u]) && arrival(u) < arrival(t)
  }

  lemma {:induction false} FirstArrived(arrival: nat -> nat, among: set<nat>) returns (t: nat)
    requires among != {}
    ensures t in among && forall u :: u in among ==> arrival(t) <= arrival(u)
    decreases |among|
  {
    t :| t in among;
    if among != {t} {
      var v := FirstArrived(arrival, among - {t});
      if arrival(v) < arrival(t) {
        t := v;
      }
    }
  }

  /** A lock is only ever wanted by calls at a lower level than every holder of it, so whoever waits
      where the highest call waits can have it. */
  lemma QueueCanMove(s: System, t: nat, h: nat)
    requires Inv(s) && Highest(s, t) && h in s.threads
    requires SameQueue(s.threads[t], s.threads[h])
    ensures CanAdvance(s, h)
  {
    hide Inv;
  }

  lemma HighestCanMove(s: System, t: nat)
    requires Inv(s) && Highest(s, t)
    requires !(s.threads[t].Awaiting? || s.threads[t].AwaitingAll?)
    ensures CanAdvance(s, t)
  {
    hide Inv;
  }

  /** No deadlock, with fair locks: whenever some call is under way, and whatever the order in which
      the waiting calls arrived, a call can move on without passing one that has waited longer for
      the same lock, or a cancelled watcher that is being awaited can end. */
  lemma NoDeadlock(s: System, arrival: nat -> nat) returns (e: Event)
    requires Reachable(s) && s.threads != map[]
    ensures Unforced(s, e)
    ensures e.Advance? ==> !Overtakes(s, arrival, e.thread)
  {
    hide Reachable, CanAdvance;
    ReachableIsInv(s);
    hide LocksInv, LiveInv, SingleInv, StoppedInv, TasksInv;
    var t := SomeHighest(s, s.threads.Keys);
    var w := FreshWatcher(s);
    assert PointInv(s, s.threads[t]);
    var queue := set u | u in s.threads && SameQueue(s.threads[t], s.threads[u]);
    if s.threads[t].Awaiting? || s.threads[t].AwaitingAll? {
      e := AwaitedMoves(s, t, w);
      AwaitingIsNoQueue(s, arrival, t);
    } else if queue == {} {
      assert forall u :: u in s.threads && SameQueue(s.threads[t], s.threads[u]) ==> u in queue;
      NoQueueNoOvertaking(s, arrival, t);
      HighestCanMove(s, t);
      e := Advance(t, None, w);
    } else {
      var h := FirstArrived(arrival, queue);
      QueueCanMove(s, t, h);
      e := Advance(h, None, w);
      HeadOvertakesNobody(s, arrival, t, h, queue);
    }
  }

  lemma NoQueueNoOvertaking(s: System, arrival: nat -> nat, t: nat)
    requires t in s.threads && forall u :: u in s.threads ==> !SameQueue(s.threads[t], s.threads[u])
    ensures !Overtakes(s, arrival, t)
  {
  }

  lemma AwaitingIsNoQueue(s: System, arrival: nat -> nat, t: nat)
    requires t in s.threads && (s.threads[t].Awaiting? || s.threads[t].AwaitingAll?)
    ensures !Overtakes(s, arrival, t)
  {
  }

  lemma HeadOvertakesNobody(s: System, arrival: nat -> nat, t: nat, h: nat, queue: set<nat>)
    requires t in s.threads && queue == set u | u in s.threads && SameQueue(s.threads[t], s.threads[u])
    requires h in queue && forall u :: u in queue ==> arrival(h) <= arrival(u)
    ensures !Overtakes(s, arrival, h)
  {
    forall u | u in s.threads && SameQueue(s.threads[h], s.threads[u])
      ensures arrival(h) <= arrival(u)
    {
      SameQueueIsTransitive(s.threads[t], s.threads[h], s.threads[u]);
      assert u in queue;
    }
  }

  lemma SameQueueIsTransitive(x: Thread, y: Thread, z: Thread)
    requires SameQueue(x, y) && SameQueue(y, z)
    ensures SameQueue(x, z)
  {
  }

  // -- every call ends

  /** What a call still does after the account it is at. */
  function StepsAfter(h: Holder): nat {
    match h
    case Shared => 0
    case Exclusive(todo) => 1 + 6 * |todo|
  }

  /** How many steps of its own a call has left, when the store lists at most `n` accounts. */
  function StepsLeft(th: Thread, n: nat): nat {
    match th
    case WantsRead(_, _) => 6
    case WantsAccount(h, _, _) => 5 + StepsAfter(h)
    case WantsTasks(h, _, _) => 4 + StepsAfter(h)
    case Awaiting(h, _, _, _) => 3 + StepsAfter(h)
    case WantsToInsert(h, _) => 2 + StepsAfter(h)
    case RemovesStatus(h, _) => 2 + StepsAfter(h)
    case Leaving(h) => 1 + StepsAfter(h)
    case WantsReconcile => 7 + 6 * n
    case WantsWrite(reconcile) => if reconcile then 6 + 6 * n else 4
    case WantsToDrain(reconcile) => if reconcile then 5 + 6 * n else 3
    case AwaitingAll(reconcile, _) => if reconcile then 4 + 6 * n else 2
    case ClearsStatuses(reconcile) => if reconcile then 3 + 6 * n else 1
    case ListsAccounts => 2 + 6 * n
    case Looping(todo) => 1 + 6 * |todo|
  }

  /** Every call ends after a bounded number of its own steps: 6 for a start or stop, 4 for a
      stop-all, 7 and 6 more for each listed account for a reconciliation.  The steps of others
      leave it where it is. */
  lemma CallsFinish(s: System, t: nat, accounts: Option<seq<Listed>>, spawned: nat, n: nat)
    requires t in s.threads && (accounts.Some? ==> |accounts.value| <= n)
    ensures var q := Advanced(s, t, accounts, spawned);
            && (t in q.threads ==> StepsLeft(q.threads[t], n) < StepsLeft(s.threads[t], n))
            && forall u :: u in s.threads && u != t ==> u in q.threads && q.threads[u] == s.threads[u]
  {
    hide StepsLeft;
    OnlyOneMoves(s, t, accounts, spawned);
    MovesOn(s, t, accounts, spawned, n);
  }

  lemma OnlyOneMoves(s: System, t: nat, accounts: Option<seq<Listed>>, spawned: nat)
    requires t in s.threads
    ensures var q := Advanced(s, t, accounts, spawned);
            forall u :: u in s.threads && u != t ==> u in q.threads && q.threads[u] == s.threads[u]
  {
    hide CancelAll;
  }

  lemma MovesOn(s: System, t: nat, accounts: Option<seq<Listed>>, spawned: nat, n: nat)
    requires t in s.threads && (accounts.Some? ==> |accounts.value| <= n)
    ensures var q := Advanced(s, t, accounts, spawned);
            t in q.threads ==> StepsLeft(q.threads[t], n) < StepsLeft(s.threads[t], n)
  {
    hide CancelAll;
    match s.threads[t] {
      case Leaving(h) =>
      case ClearsStatuses(_) =>
      case ListsAccounts =>
      case Looping(todo) =>
      case _ =>
    }
  }

  /** The steps call `t` takes of its own in a run. */
  function OwnSteps(events: seq<Event>, t: nat): nat {
    if events == [] then 0
    else (if events[0].Advance? && events[0].thread == t then 1 else 0) + OwnSteps(events[1..], t)
  }

  /** What call `t` has left; a call that is not under way has nothing left. */
  function Left(s: System, t: nat, n: nat): nat {
    if t in s.threads then StepsLeft(s.threads[t], n) else 0
  }

  predicate Begins(e: Event, t: nat) {
    (e.StartAccount? || e.StopAccount? || e.Reconcile? || e.StopAll?) && e.thread == t
  }

  /** The work an event brings that begins call `t`. */
  function NewWork(e: Event, t: nat, n: nat): nat {
    if !Begins(e, t) then 0
    else match e
      case Reconcile(_) => 7 + 6 * n
      case StopAll(_) => 4
      case _ => 6
  }

  function AllNewWork(events: seq<Event>, t: nat, n: nat): nat {
    if events == [] then 0 else NewWork(events[0], t, n) + AllNewWork(events[1..], t, n)
  }

  /** The store never lists more than `n` accounts. */
  predicate ListsAtMost(events: seq<Event>, n: nat) {
    forall e :: e in events && e.Advance? && e.accounts.Some? ==> |e.accounts.value| <= n
  }

  lemma StepUsesWork(s: System, e: Event, t: nat, n: nat)
    requires Enabled(s, e) && ListsAtMost([e], n)
    ensures OwnSteps([e], t) + Left(Step(s, e), t, n) <= Left(s, t, n) + NewWork(e, t, n)
  {
    hide Advanced, CanAdvance;
    assert e in [e];
    if e.Advance? {
      CallsFinish(s, e.thread, e.accounts, e.spawned, n);
      if t !in s.threads {
        OnlyMoverMoves(s, e.thread, e.accounts, e.spawned, t);
      }
    }
    assert [e][1..] == [];
  }

  lemma OnlyMoverMoves(s: System, t: nat, accounts: Option<seq<Listed>>, spawned: nat, u: nat)
    requires t in s.threads && u !in s.threads
    ensures u !in Advanced(s, t, accounts, spawned).threads
  {
    hide CancelAll;
  }

  /** On every run the steps of a call's own, and what it has left at the end, are paid for by what
      it had left and the calls begun under its number. */
  lemma {:induction false} OwnStepsArePaidFor(s: System, events: seq<Event>, t: nat, n: nat)
    requires Possible(s, events) && ListsAtMost(events, n)
    ensures OwnSteps(events, t) + Left(After(s, events), t, n) <= Left(s, t, n) + AllNewWork(events, t, n)
    decreases |events|
  {
    hide Step, Enabled, Left, NewWork;
    if events != [] {
      assert events[0] in events;
      StepUsesWork(s, events[0], t, n);
      OwnStepsArePaidFor(Step(s, events[0]), events[1..], t, n);
      assert [events[0]][1..] == [];
    }
  }

  /** So on every run a call takes at most `StepsLeft` steps of its own before it ends, whatever the
      others do. */
  lemma OwnStepsAreBounded(s: System, events: seq<Event>, t: nat, n: nat)
    requires t in s.threads && Possible(s, events) && ListsAtMost(events, n)
    requires forall e :: e in events ==> !Begins(e, t)
    ensures OwnSteps(events, t) + Left(After(s, events), t, n) <= StepsLeft(s.threads[t], n)
    ensures OwnSteps(events, t) >= StepsLeft(s.threads[t], n) ==> t !in After(s, events).threads
  {
    hide After, Possible, StepsLeft, OwnSteps, AllNewWork;
    OwnStepsArePaidFor(s, events, t, n);
    NothingNew(events, t, n);
    if t in After(s, events).threads {
      SomeStepLeft(After(s, events).threads[t], n);
    }
  }

  lemma {:induction false} NothingNew(events: seq<Event>, t: nat, n: nat)
    requires forall e :: e in events ==> !Begins(e, t)
    ensures AllNewWork(events, t, n) == 0
  {
    if events != [] {
      assert events[0] in events;
      NothingNew(events[1..], t, n);
    }
  }

  lemma SomeStepLeft(th: Thread, n: nat)
    ensures StepsLeft(th, n) > 0
  {
  }

  lemma AwaitedMoves(s: System, t: nat, w: nat) returns (e: Event)
    requires t in s.threads && PointInv(s, s.threads[t]) && w !in s.watchers
    requires s.threads[t].Awaiting? || s.threads[t].AwaitingAll?
    ensures Unforced(s, e) && (e.Advance? ==> e.thread == t)
  {
    if v :| v in s.watchers && Owns(s.threads[t], v) && Live(s, v) {
      e := EndWatcher(v);
    } else {
      e := Advance(t, None, w);
    }
  }
}
