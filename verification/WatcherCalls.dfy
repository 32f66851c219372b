/**
 What the calls of WatcherRegistry have done when they end.

 `Ledger` is an observer of the events: it notes which call was begun under a number and what the
 store listed for it.  A start ends with a running watcher of its account, a stop with none
 (`StartsRegister`, `StopsUnregister`), a stop-all with an empty registry, and a reconciliation with
 exactly the enabled accounts the store listed (`ReconcileRegistersListed`).
 */
module WatcherCalls {
  import opened Options
  import opened WatcherRegistry

  datatype Purpose = Starting(account: Account) | Stopping(account: Account) | Reconciling | StoppingAll

  /** `worked` has the calls right after whose latest own step what they are for was the case. */
  datatype Ledger = Ledger(purposes: map<nat, Purpose>, listed: map<nat, Option<seq<Listed>>>, worked: set<nat>)

  const EMPTY := Ledger(map[], map[], {})

  predicate HasRunningWatcher(s: System, a: Account) {
    && a in s.tasks && s.tasks[a] in s.watchers
    && s.watchers[s.tasks[a]] == Watcher(a, true, false)
  }

  predicate HasNothing(s: System, a: Account) {
    && a !in s.tasks && a !in s.statuses
    && forall w :: w in s.watchers && s.watchers[w].account == a ==> !s.watchers[w].live
  }

  predicate Fulfilled(s: System, p: Purpose) {
    match p
    case Starting(a) => HasRunningWatcher(s, a)
    case Stopping(a) => HasNothing(s, a)
    case _ => false
  }

  function Begun(l: Ledger, t: nat, p: Purpose): Ledger {
    l.(purposes := l.purposes[t := p], listed := l.listed[t := None], worked := l.worked - {t})
  }

  function Noted(l: Ledger, s: System, e: Event): Ledger
    requires Enabled(s, e)
  {
    match e
    case StartAccount(t, a) => Begun(l, t, Starting(a))
    case StopAccount(t, a) => Begun(l, t, Stopping(a))
    case Reconcile(t) => Begun(l, t, Reconciling)
    case StopAll(t) => Begun(l, t, StoppingAll)
    case Advance(t, accounts, _) =>
      var fulfilled := t in l.purposes && Fulfilled(Step(s, e), l.purposes[t]);
      l.(listed := if s.threads[t].ListsAccounts? then l.listed[t := accounts] else l.listed,
         worked := if fulfilled then l.worked + {t} else l.worked - {t})
    case _ => l
  }

  function LedgerAfter(l: Ledger, s: System, events: seq<Event>): Ledger
    requires Possible(s, events)
    decreases |events|
  {
    if events == [] then l else LedgerAfter(Noted(l, s, events[0]), Step(s, events[0]), events[1..])
  }

  // ---------------------------------------------------------------- the invariant

  function SetOf(accounts: seq<Account>): set<Account> {
    set a | a in accounts
  }

  predicate StartingPoint(th: Thread, a: Account) {
    match th
    case WantsRead(b, start) => b == a && start
    case WantsAccount(h, b, start) => h.Shared? && b == a && start
    case WantsTasks(h, b, start) => h.Shared? && b == a && start
    case Awaiting(h, b, start, _) => h.Shared? && b == a && start
    case WantsToInsert(h, b) => h.Shared? && b == a
    case Leaving(h) => h.Shared?
    case _ => false
  }

  predicate StoppingPoint(th: Thread, a: Account) {
    match th
    case WantsRead(b, start) => b == a && !start
    case WantsAccount(h, b, start) => h.Shared? && b == a && !start
    case WantsTasks(h, b, start) => h.Shared? && b == a && !start
    case Awaiting(h, b, start, _) => h.Shared? && b == a && !start
    case RemovesStatus(h, b) => h.Shared? && b == a
    case Leaving(h) => h.Shared?
    case _ => false
  }

  predicate StoppingAllPoint(th: Thread) {
    (th.WantsWrite? || th.WantsToDrain? || th.AwaitingAll? || th.ClearsStatuses?) && !th.reconcile
  }

  /** `todo` is what is left of `all` behind its first `k` accounts. */
  predicate Behind(all: seq<Account>, k: nat, todo: seq<Account>) {
    k <= |all| && todo == all[k..]
  }

  /** How far a reconciliation is, and that the registry holds what it has started so far. */
  predicate ReconcilingPoint(s: System, th: Thread, listed: Option<seq<Listed>>) {
    var all := if listed.Some? then EnabledAccounts(listed.value) else [];
    match th
    case WantsReconcile => true
    case WantsWrite(r) => r
    case WantsToDrain(r) => r
    case AwaitingAll(r, _) => r && s.tasks == map[]
    case ClearsStatuses(r) => r && s.tasks == map[]
    case ListsAccounts => s.tasks == map[]
    case Looping(todo) =>
      listed.Some? && |todo| <= |all| && Behind(all, |all| - |todo|, todo)
      && s.tasks.Keys == SetOf(all[..|all| - |todo|])
    case WantsAccount(h, a, start) => InTurn(all, h, a) && start && s.tasks.Keys == Before(all, h)
    case WantsTasks(h, a, start) => InTurn(all, h, a) && start && s.tasks.Keys == Before(all, h)
    case Awaiting(h, a, start, _) => InTurn(all, h, a) && start && s.tasks.Keys == Before(all, h) - {a}
    case WantsToInsert(h, a) => InTurn(all, h, a) && s.tasks.Keys == Before(all, h) - {a}
    case Leaving(h) =>
      listed.Some? && h.Exclusive? && |h.todo| <= |all| && Behind(all, |all| - |h.todo|, h.todo)
      && s.tasks.Keys == SetOf(all[..|all| - |h.todo|])
    case _ => false
  }

  /** `a` is the account before those that `h` still has to start. */
  predicate InTurn(all: seq<Account>, h: Holder, a: Account) {
    h.Exclusive? && |h.todo| < |all| && Behind(all, |all| - |h.todo|, h.todo) && all[|all| - |h.todo| - 1] == a
  }

  function Before(all: seq<Account>, h: Holder): set<Account> {
    if h.Exclusive? && |h.todo| < |all| then SetOf(all[..|all| - |h.todo| - 1]) else {}
  }

  predicate CallInv(l: Ledger, s: System, t: nat)
    requires t in s.threads
  {
    && t in l.purposes && t in l.listed
    && match l.purposes[t]
       case Starting(a) => StartingPoint(s.threads[t], a) && (s.threads[t].Leaving? ==> t in l.worked)
       case Stopping(a) => StoppingPoint(s.threads[t], a) && (s.threads[t].Leaving? ==> t in l.worked)
       case Reconciling => ReconcilingPoint(s, s.threads[t], l.listed[t])
       case StoppingAll => StoppingAllPoint(s.threads[t])
  }

  predicate CallsInv(l: Ledger, s: System) {
    forall t :: t in s.threads ==> CallInv(l, s, t)
  }

  /** What is registered has not been cancelled. */
  predicate RegisteredInv(s: System) {
    forall a :: a in s.tasks ==> s.tasks[a] in s.watchers && !s.watchers[s.tasks[a]].cancelled
  }

  predicate LedgerInv(l: Ledger, s: System) {
    Inv(s) && CallsInv(l, s) && RegisteredInv(s)
  }

  // -- the call that moves

  lemma SetOfMore(all: seq<Account>, k: nat)
    requires k < |all|
    ensures SetOf(all[..k + 1]) == SetOf(all[..k]) + {all[k]}
  {
    assert all[..k + 1] == all[..k] + [all[k]];
  }

  lemma StartingMoves(l: Ledger, s: System, t: nat, accounts: Option<seq<Listed>>, w: nat, a: Account)
    requires Inv(s) && t in s.threads && CanAdvance(s, t) && w !in s.watchers
    requires StartingPoint(s.threads[t], a)
    ensures var q := Advanced(s, t, accounts, w);
            if t in q.threads then StartingPoint(q.threads[t], a) && (q.threads[t].Leaving? ==> HasRunningWatcher(q, a))
            else s.threads[t].Leaving?
  {
    hide Inv, CanAdvance, CancelAll;
  }

  lemma StoppingMoves(l: Ledger, s: System, t: nat, accounts: Option<seq<Listed>>, w: nat, a: Account)
    requires Inv(s) && t in s.threads && CanAdvance(s, t) && w !in s.watchers
    requires StoppingPoint(s.threads[t], a)
    ensures var q := Advanced(s, t, accounts, w);
            if t in q.threads then StoppingPoint(q.threads[t], a) && (q.threads[t].Leaving? ==> HasNothing(q, a))
            else s.threads[t].Leaving?
  {
    PointOf(s, t);
    hide Inv, CanAdvance, CancelAll;
  }

  lemma PointOf(s: System, t: nat)
    requires Inv(s) && t in s.threads
    ensures PointInv(s, s.threads[t])
  {
  }

  lemma StoppingAllMoves(s: System, t: nat, accounts: Option<seq<Listed>>, w: nat)
    requires Inv(s) && t in s.threads && CanAdvance(s, t) && StoppingAllPoint(s.threads[t])
    ensures var q := Advanced(s, t, accounts, w);
            if t in q.threads then StoppingAllPoint(q.threads[t])
            else q.tasks == map[] && q.statuses == {} && NoneLive(q)
  {
    PointOf(s, t);
    hide Inv, CanAdvance, CancelAll;
  }

  /** What `ReconcilingMoves` says of call `t`. */
  predicate KeepsReconciling(s: System, t: nat, accounts: Option<seq<Listed>>, w: nat, listed: Option<seq<Listed>>)
    requires t in s.threads
  {
    var q := Advanced(s, t, accounts, w);
    var now := if s.threads[t].ListsAccounts? then accounts else listed;
    t in q.threads ==> ReconcilingPoint(q, q.threads[t], now)
  }

  lemma ReconcilingDrains(s: System, t: nat, accounts: Option<seq<Listed>>, w: nat, listed: Option<seq<Listed>>)
    requires t in s.threads && ReconcilingPoint(s, s.threads[t], listed)
    requires !HasHolder(s.threads[t]) && !s.threads[t].Looping?
    ensures KeepsReconciling(s, t, accounts, w, listed)
  {
    hide CancelAll, SetOf, EnabledAccounts;
    if s.threads[t].ListsAccounts? && accounts.Some? {
      NothingStarted(EnabledAccounts(accounts.value));
    }
  }

  lemma ReconcilingTakesNext(s: System, t: nat, accounts: Option<seq<Listed>>, w: nat, listed: Option<seq<Listed>>)
    requires t in s.threads && ReconcilingPoint(s, s.threads[t], listed) && s.threads[t].Looping?
    ensures KeepsReconciling(s, t, accounts, w, listed)
  {
    hide CancelAll, SetOf, EnabledAccounts;
    var todo := s.threads[t].todo;
    if todo != [] {
      var all := EnabledAccounts(listed.value);
      assert all[|all| - |todo|] == todo[0] && all[|all| - |todo| + 1..] == todo[1..];
    }
  }

  lemma ReconcilingLocks(s: System, t: nat, accounts: Option<seq<Listed>>, w: nat, listed: Option<seq<Listed>>)
    requires t in s.threads && ReconcilingPoint(s, s.threads[t], listed)
    requires s.threads[t].WantsAccount? || s.threads[t].WantsTasks? || s.threads[t].Awaiting?
    ensures KeepsReconciling(s, t, accounts, w, listed)
  {
    hide CancelAll, SetOf, EnabledAccounts, InTurn, Before;
  }

  lemma ReconcilingInserts(s: System, t: nat, accounts: Option<seq<Listed>>, w: nat, listed: Option<seq<Listed>>)
    requires t in s.threads && ReconcilingPoint(s, s.threads[t], listed)
    requires s.threads[t].WantsToInsert? || s.threads[t].Leaving?
    ensures KeepsReconciling(s, t, accounts, w, listed)
  {
    hide CancelAll, SetOf, EnabledAccounts;
    if s.threads[t].WantsToInsert? {
      var all := if listed.Some? then EnabledAccounts(listed.value) else [];
      SetOfMore(all, |all| - |s.threads[t].holder.todo| - 1);
    }
  }

  lemma ReconcilingMoves(s: System, t: nat, accounts: Option<seq<Listed>>, w: nat, listed: Option<seq<Listed>>)
    requires t in s.threads && ReconcilingPoint(s, s.threads[t], listed)
    ensures KeepsReconciling(s, t, accounts, w, listed)
  {
    NotStopping(s, s.threads[t], listed);
    hide Advanced, KeepsReconciling, ReconcilingPoint;
    match s.threads[t] {
      case WantsAccount(_, _, _) => ReconcilingLocks(s, t, accounts, w, listed);
      case WantsTasks(_, _, _) => ReconcilingLocks(s, t, accounts, w, listed);
      case Awaiting(_, _, _, _) => ReconcilingLocks(s, t, accounts, w, listed);
      case WantsToInsert(_, _) => ReconcilingInserts(s, t, accounts, w, listed);
      case Leaving(_) => ReconcilingInserts(s, t, accounts, w, listed);
      case Looping(_) => ReconcilingTakesNext(s, t, accounts, w, listed);
      case _ => ReconcilingDrains(s, t, accounts, w, listed);
    }
  }

  lemma NotStopping(s: System, th: Thread, listed: Option<seq<Listed>>)
    requires ReconcilingPoint(s, th, listed)
    ensures !th.RemovesStatus?
  {
    hide InTurn, Behind, SetOf, EnabledAccounts;
  }

  lemma NothingStarted(all: seq<Account>)
    ensures SetOf(all[..0]) == {} && all[0..] == all
  {
  }

  // -- the calls beside it

  /** Nobody touches the registry while a call holds the lifecycle lock exclusively. */
  lemma OthersLeaveTasks(s: System, t: nat, u: nat, accounts: Option<seq<Listed>>, w: nat)
    requires Inv(s) && t in s.threads && u in s.threads && t != u && HoldsWrite(s.threads[u])
    ensures Advanced(s, t, accounts, w).tasks == s.tasks
  {
    PairwiseCompatible(s, t, u);
    hide Inv, CancelAll;
  }

  lemma ReconcilingStays(s: System, q: System, th: Thread, listed: Option<seq<Listed>>)
    requires ReconcilingPoint(s, th, listed) && (HoldsWrite(th) ==> q.tasks == s.tasks)
    ensures ReconcilingPoint(q, th, listed)
  {
    hide SetOf, EnabledAccounts, Behind;
  }

  lemma CallStays(l: Ledger, m: Ledger, s: System, q: System, u: nat)
    requires u in s.threads && u in q.threads && q.threads[u] == s.threads[u] && CallInv(l, s, u)
    requires u in m.purposes && u in m.listed && m.purposes[u] == l.purposes[u] && m.listed[u] == l.listed[u]
    requires u in m.worked <==> u in l.worked
    requires HoldsWrite(s.threads[u]) ==> q.tasks == s.tasks
    ensures CallInv(m, q, u)
  {
    hide ReconcilingPoint, StartingPoint, StoppingPoint;
    if l.purposes[u].Reconciling? {
      ReconcilingStays(s, q, s.threads[u], l.listed[u]);
    }
  }

  lemma MoverKeepsCall(l: Ledger, s: System, t: nat, accounts: Option<seq<Listed>>, w: nat)
    requires Inv(s) && t in s.threads && Enabled(s, Advance(t, accounts, w)) && CallInv(l, s, t)
    ensures var q := Step(s, Advance(t, accounts, w));
            t in q.threads ==> CallInv(Noted(l, s, Advance(t, accounts, w)), q, t)
  {
    hide Inv, CanAdvance, Advanced, ReconcilingPoint, StartingPoint, StoppingPoint, HasNothing, HasRunningWatcher;
    match l.purposes[t] {
      case Starting(a) => StartingMoves(l, s, t, accounts, w, a);
      case Stopping(a) => StoppingMoves(l, s, t, accounts, w, a);
      case Reconciling => ReconcilingMoves(s, t, accounts, w, l.listed[t]);
      case StoppingAll => StoppingAllMoves(s, t, accounts, w);
    }
  }

  lemma AdvanceKeepsCalls(l: Ledger, s: System, t: nat, accounts: Option<seq<Listed>>, w: nat)
    requires Inv(s) && CallsInv(l, s) && Enabled(s, Advance(t, accounts, w))
    ensures CallsInv(Noted(l, s, Advance(t, accounts, w)), Step(s, Advance(t, accounts, w)))
  {
    hide Inv, CanAdvance, CallInv, Advanced, Fulfilled;
    var m, q := Noted(l, s, Advance(t, accounts, w)), Step(s, Advance(t, accounts, w));
    OnlyOneMoves(s, t, accounts, w);
    forall u | u in q.threads
      ensures CallInv(m, q, u)
    {
      if u == t {
        MoverKeepsCall(l, s, t, accounts, w);
      } else {
        OnlyOldThreads(s, t, accounts, w, u);
        if HoldsWrite(s.threads[u]) {
          OthersLeaveTasks(s, t, u, accounts, w);
        }
        CallIsNoted(l, s, u);
        CallStays(l, m, s, q, u);
      }
    }
  }

  lemma CallIsNoted(l: Ledger, s: System, u: nat)
    requires u in s.threads && CallInv(l, s, u)
    ensures u in l.purposes && u in l.listed
  {
  }

  lemma OnlyOldThreads(s: System, t: nat, accounts: Option<seq<Listed>>, w: nat, u: nat)
    requires t in s.threads && u in Advanced(s, t, accounts, w).threads
    ensures u in s.threads
  {
    hide CancelAll;
  }

  lemma BeginKeepsCalls(l: Ledger, s: System, e: Event, t: nat)
    requires CallsInv(l, s) && Enabled(s, e) && Begins(e, t)
    ensures CallsInv(Noted(l, s, e), Step(s, e))
  {
    hide CallInv;
    var m, q := Noted(l, s, e), Step(s, e);
    forall u | u in q.threads
      ensures CallInv(m, q, u)
    {
      if u == t {
        FreshCall(l, s, e, t);
      } else {
        CallIsNoted(l, s, u);
        CallStays(l, m, s, q, u);
      }
    }
  }

  lemma FreshCall(l: Ledger, s: System, e: Event, t: nat)
    requires Enabled(s, e) && Begins(e, t)
    ensures CallInv(Noted(l, s, e), Step(s, e), t)
  {
  }

  lemma StepKeepsCalls(l: Ledger, s: System, e: Event)
    requires Inv(s) && CallsInv(l, s) && Enabled(s, e)
    ensures CallsInv(Noted(l, s, e), Step(s, e))
  {
    hide Inv, CallInv, CanAdvance, Advanced, Fulfilled;
    match e {
      case Advance(t, accounts, w) => AdvanceKeepsCalls(l, s, t, accounts, w);
      case Publish(_) => WatchersKeepCalls(l, s, Step(s, e));
      case EndWatcher(_) => WatchersKeepCalls(l, s, Step(s, e));
      case _ => BeginKeepsCalls(l, s, e, e.thread);
    }
  }

  lemma WatchersKeepCalls(l: Ledger, s: System, q: System)
    requires CallsInv(l, s) && q.threads == s.threads && q.tasks == s.tasks
    ensures CallsInv(l, q)
  {
    hide CallInv;
    forall u | u in q.threads
      ensures CallInv(l, q, u)
    {
      CallIsNoted(l, s, u);
      CallStays(l, l, s, q, u);
    }
  }

  lemma StepKeepsRegistered(s: System, e: Event)
    requires Inv(s) && RegisteredInv(s) && Enabled(s, e)
    ensures RegisteredInv(Step(s, e))
  {
    hide LocksInv, PointsInv, LiveInv, SingleInv, StoppedInv, CanAdvance;
  }

  lemma StepKeepsLedgerInv(l: Ledger, s: System, e: Event)
    requires LedgerInv(l, s) && Enabled(s, e)
    ensures LedgerInv(Noted(l, s, e), Step(s, e))
  {
    hide Inv, CallsInv, RegisteredInv, Noted, Step, Enabled;
    StepKeepsInv(s, e);
    StepKeepsCalls(l, s, e);
    StepKeepsRegistered(s, e);
  }

  lemma {:induction false} RunsKeepLedgerInv(l: Ledger, s: System, events: seq<Event>)
    requires LedgerInv(l, s) && Possible(s, events)
    ensures LedgerInv(LedgerAfter(l, s, events), After(s, events))
    decreases |events|
  {
    hide LedgerInv, Step, Enabled, Noted;
    if events != [] {
      StepKeepsLedgerInv(l, s, events[0]);
      RunsKeepLedgerInv(Noted(l, s, events[0]), Step(s, events[0]), events[1..]);
    }
  }

  lemma FromStart(events: seq<Event>)
    requires Possible(INITIAL, events)
    ensures LedgerInv(LedgerAfter(EMPTY, INITIAL, events), After(INITIAL, events))
  {
    hide Step, Enabled;
    RunsKeepLedgerInv(EMPTY, INITIAL, events);
  }

  // ---------------------------------------------------------------- the theorems

  /** After `events`, call `t` takes a step. */
  predicate NextMoves(events: seq<Event>, t: nat, accounts: Option<seq<Listed>>, w: nat) {
    Possible(INITIAL, events) && Enabled(After(INITIAL, events), Advance(t, accounts, w))
  }

  /** What call `t` was begun as. */
  predicate BegunAs(events: seq<Event>, t: nat, p: Purpose)
    requires Possible(INITIAL, events)
  {
    var purposes := LedgerAfter(EMPTY, INITIAL, events).purposes;
    t in purposes && purposes[t] == p
  }

  /** On every run a call begun as a start of `a` ends only after a step of its own right after which
      `a` was registered with a running watcher that is not cancelled. */
  lemma StartsRegister(events: seq<Event>, t: nat, accounts: Option<seq<Listed>>, w: nat, a: Account)
    requires NextMoves(events, t, accounts, w) && BegunAs(events, t, Starting(a))
    ensures var s := After(INITIAL, events);
            var q := Step(s, Advance(t, accounts, w));
            if t in q.threads then q.threads[t].Leaving? ==> HasRunningWatcher(q, a)
            else s.threads[t].Leaving? && t in LedgerAfter(EMPTY, INITIAL, events).worked
  {
    hide Inv, CanAdvance, Advanced, After, LedgerAfter, Possible, HasRunningWatcher, StartingPoint;
    FromStart(events);
    var s := After(INITIAL, events);
    assert CallInv(LedgerAfter(EMPTY, INITIAL, events), s, t);
    StartingMoves(LedgerAfter(EMPTY, INITIAL, events), s, t, accounts, w, a);
  }

  /** A call begun as a stop of `a` ends only after a step of its own right after which `a` had no task, no
      status and no live watcher. */
  lemma StopsUnregister(events: seq<Event>, t: nat, accounts: Option<seq<Listed>>, w: nat, a: Account)
    requires NextMoves(events, t, accounts, w) && BegunAs(events, t, Stopping(a))
    ensures var s := After(INITIAL, events);
            var q := Step(s, Advance(t, accounts, w));
            if t in q.threads then q.threads[t].Leaving? ==> HasNothing(q, a)
            else s.threads[t].Leaving? && t in LedgerAfter(EMPTY, INITIAL, events).worked
  {
    hide Inv, CanAdvance, Advanced, After, LedgerAfter, Possible, HasNothing, StoppingPoint;
    FromStart(events);
    var s := After(INITIAL, events);
    assert CallInv(LedgerAfter(EMPTY, INITIAL, events), s, t);
    StoppingMoves(LedgerAfter(EMPTY, INITIAL, events), s, t, accounts, w, a);
  }

  /** A stop-all ends with nothing registered, no status and no live watcher. */
  lemma StopAllClears(events: seq<Event>, t: nat, accounts: Option<seq<Listed>>, w: nat)
    requires NextMoves(events, t, accounts, w) && BegunAs(events, t, StoppingAll)
    ensures var q := Step(After(INITIAL, events), Advance(t, accounts, w));
            t !in q.threads ==>
              q.tasks == map[] && q.statuses == {} && forall v :: v in q.watchers ==> !q.watchers[v].live
  {
    hide Inv, CanAdvance, Advanced, After, LedgerAfter, Possible, StoppingAllPoint;
    FromStart(events);
    var s := After(INITIAL, events);
    assert CallInv(LedgerAfter(EMPTY, INITIAL, events), s, t);
    StoppingAllMoves(s, t, accounts, w);
  }

  /** On every run, whatever other calls are under way, a reconciliation ends with exactly those accounts
      registered that the store listed as enabled, none of their watchers cancelled, and no live watcher
      beside them; with none when listing failed. */
  lemma ReconcileRegistersListed(events: seq<Event>, t: nat, accounts: Option<seq<Listed>>, w: nat)
    requires NextMoves(events, t, accounts, w) && BegunAs(events, t, Reconciling)
    ensures var l := LedgerAfter(EMPTY, INITIAL, events);
            var s := After(INITIAL, events);
            var q := Step(s, Advance(t, accounts, w));
            t !in q.threads ==>
              && t in l.listed
              && (if s.threads[t].ListsAccounts? then accounts.None? && q.tasks == map[]
                  else l.listed[t].Some?
                       && q.tasks.Keys == set x | x in l.listed[t].value && x.enabled :: x.account)
              && (forall a :: a in q.tasks ==> q.tasks[a] in q.watchers && !q.watchers[q.tasks[a]].cancelled)
              && (forall v :: Live(q, v) ==> q.watchers[v].account in q.tasks && q.tasks[q.watchers[v].account] == v)
  {
    hide Inv, CanAdvance, Advanced, After, LedgerAfter, Possible, ReconcilingPoint;
    FromStart(events);
    var l, s := LedgerAfter(EMPTY, INITIAL, events), After(INITIAL, events);
    assert CallInv(l, s, t);
    ReconcilingEnds(s, t, accounts, w, l.listed[t]);
  }

  lemma ReconcilingEnds(s: System, t: nat, accounts: Option<seq<Listed>>, w: nat, listed: Option<seq<Listed>>)
    requires Inv(s) && RegisteredInv(s) && t in s.threads && ReconcilingPoint(s, s.threads[t], listed)
    ensures var q := Advanced(s, t, accounts, w);
            t !in q.threads ==>
              && (if s.threads[t].ListsAccounts? then accounts.None? && q.tasks == map[]
                  else listed.Some? && q.tasks.Keys == set x | x in listed.value && x.enabled :: x.account)
              && (forall a :: a in q.tasks ==> q.tasks[a] in q.watchers && !q.watchers[q.tasks[a]].cancelled)
              && (forall v :: Live(q, v) ==> q.watchers[v].account in q.tasks && q.tasks[q.watchers[v].account] == v)
  {
    hide CancelAll, EnabledAccounts, LocksInv, PointsInv, SingleInv, StoppedInv, TasksInv;
    var q := Advanced(s, t, accounts, w);
    if t !in q.threads {
      if s.threads[t].Looping? {
        var all := EnabledAccounts(listed.value);
        assert all[..|all|] == all;
        EnabledAreListed(listed.value);
      }
      assert q.watchers == s.watchers && q.tasks == s.tasks;
      forall v | Live(q, v)
        ensures q.watchers[v].account in q.tasks && q.tasks[q.watchers[v].account] == v
      {
        OnlyRegisteredAreLive(s, t, v);
      }
    }
  }

  lemma OnlyRegisteredAreLive(s: System, t: nat, v: nat)
    requires Inv(s) && t in s.threads && (s.threads[t].Looping? || s.threads[t].ListsAccounts?) && Live(s, v)
    ensures s.watchers[v].account in s.tasks && s.tasks[s.watchers[v].account] == v
  {
    assert Accounted(s, v);
    if u :| u in s.threads && Owns(s.threads[u], v) {
      if u != t {
        PairwiseCompatible(s, t, u);
      }
    }
  }

  lemma {:induction false} EnabledIffListed(listed: seq<Listed>, a: Account)
    ensures a in EnabledAccounts(listed) <==> Listed(a, true) in listed
  {
    if listed != [] {
      EnabledIffListed(listed[1..], a);
      assert Listed(a, true) in listed <==> Listed(a, true) == listed[0] || Listed(a, true) in listed[1..];
    }
  }

  lemma EnabledAreListed(listed: seq<Listed>)
    ensures SetOf(EnabledAccounts(listed)) == set x | x in listed && x.enabled :: x.account
  {
    hide EnabledAccounts;
    forall a
      ensures a in SetOf(EnabledAccounts(listed)) <==> a in (set x | x in listed && x.enabled :: x.account)
    {
      EnabledIffListed(listed, a);
      if x :| x in listed && x.enabled && x.account == a {
        assert x == Listed(a, true);
      }
      assert Listed(a, true).enabled && Listed(a, true).account == a;
    }
  }
}
