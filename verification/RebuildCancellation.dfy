/**
 The mail-rebuild reservation and cancellation registry of lib.rs.

 `MailRebuildCancellations` is the source's object.  `Step` is the native process around it:
 any number of workers that reserve, register, clear and release, and cancellation requests
 that arrive at any time.  Taking and giving back a reservation each take two locks in turn,
 and each half is a step of its own here.
 */
module RebuildCancellation {
  type Account = string

  datatype Disposition = Keep | Retain | Replace | Remove

  /** An entry of the registry.  A watch channel is a position in `channels`, which holds the
      latest value sent on it; a receiver is that position too. */
  datatype Cancellation = Cancellation(channel: nat, registrations: int, reserved: bool)

  datatype Registry = Registry(channels: seq<Disposition>, active: map<Account, Cancellation>)

  // ---------------------------------------------------------------- the lattice

  /** The combination written out in `request`. */
  function Join(current: Disposition, requested: Disposition): (r: Disposition) {
    if current.Remove? || requested.Remove? then Remove
    else if current.Replace? || requested.Replace? then Replace
    else if current.Retain? || requested.Retain? then Retain
    else Keep
  }

  function Rank(d: Disposition): nat {
    match d
    case Keep => 0
    case Retain => 1
    case Replace => 2
    case Remove => 3
  }

  predicate AtMost(a: Disposition, b: Disposition) {
    Rank(a) <= Rank(b)
  }

  /** `Join` is the least upper bound in None < Retain < Replace < Remove, so the order in
      which requests arrive does not matter and the strongest one wins. */
  lemma JoinIsLeastUpperBound(a: Disposition, b: Disposition, c: Disposition)
    ensures AtMost(a, Join(a, b)) && AtMost(b, Join(a, b))
    ensures AtMost(a, c) && AtMost(b, c) ==> AtMost(Join(a, b), c)
    ensures Join(a, b) == Join(b, a) && Join(Join(a, b), c) == Join(a, Join(b, c))
  {
    assert Rank(Join(a, b)) == if Rank(a) < Rank(b) then Rank(b) else Rank(a);
    assert forall x, y: Disposition :: Rank(x) == Rank(y) ==> x == y;
  }

  // ---------------------------------------------------------------- the registry

  /** `entry(account).or_insert_with(..)`: a new entry gets a new channel holding None. */
  function WithEntry(r: Registry, a: Account): (q: Registry)
    ensures a in q.active
  {
    if a in r.active then r
    else Registry(r.channels + [Keep], r.active[a := Cancellation(|r.channels|, 0, false)])
  }

  function ReserveIn(r: Registry, a: Account): Registry {
    var q := WithEntry(r, a);
    q.(active := q.active[a := q.active[a].(reserved := true)])
  }

  function RegisterIn(r: Registry, a: Account): Registry {
    var q := WithEntry(r, a);
    q.(active := q.active[a := q.active[a].(registrations := q.active[a].registrations + 1)])
  }

  function ChannelOf(r: Registry, a: Account): nat
    requires a in r.active
  {
    r.active[a].channel
  }

  /** Without an entry there is no channel to send on (entries of a sound registry always
      point into `channels`). */
  function RequestIn(r: Registry, a: Account, d: Disposition): Registry {
    if a !in r.active || ChannelOf(r, a) >= |r.channels| then r
    else r.(channels := r.channels[ChannelOf(r, a) := Join(r.channels[ChannelOf(r, a)], d)])
  }

  function Drop(active: map<Account, Cancellation>, a: Account): map<Account, Cancellation> {
    map b | b in active && b != a :: active[b]
  }

  function ClearIn(r: Registry, a: Account): Registry {
    if a !in r.active then r
    else
      var c := r.active[a].(registrations := r.active[a].registrations - 1);
      r.(active := if c.registrations == 0 && !c.reserved then Drop(r.active, a) else r.active[a := c])
  }

  function ReleaseIn(r: Registry, a: Account): Registry {
    if a !in r.active then r
    else
      var c := r.active[a].(reserved := false);
      r.(active := if c.registrations == 0 then Drop(r.active, a) else r.active[a := c])
  }

  /** Every entry has its own channel. */
  predicate Sound(r: Registry) {
    && (forall a :: a in r.active ==> r.active[a].channel < |r.channels|)
    && (forall a, b :: a in r.active && b in r.active && a != b ==> r.active[a].channel != r.active[b].channel)
  }

  class MailRebuildCancellations {
    var channels: seq<Disposition>
    var active: map<Account, Cancellation>

    function State(): (r: Registry)
      reads this
    {
      Registry(channels, active)
    }

    constructor ()
      ensures State() == Registry([], map[])
    {
      channels, active := [], map[];
    }

    method Entry(account: Account)
      modifies this
      ensures State() == WithEntry(old(State()), account)
    {
      if account !in active {
        channels := channels + [Keep];
        active := active[account := Cancellation(|channels| - 1, 0, false)];
      }
    }

    method Reserve(account: Account)
      modifies this
      ensures State() == ReserveIn(old(State()), account)
    {
      Entry(account);
      active := active[account := active[account].(reserved := true)];
    }

    method Register(account: Account) returns (receiver: nat)
      modifies this
      ensures State() == RegisterIn(old(State()), account)
      ensures account in active && receiver == active[account].channel
    {
      Entry(account);
      active := active[account := active[account].(registrations := active[account].registrations + 1)];
      receiver := active[account].channel;
    }

    method Request(account: Account, disposition: Disposition)
      requires account in active ==> active[account].channel < |channels|
      modifies this`channels
      ensures State() == RequestIn(old(State()), account, disposition)
    {
      if account in active {
        var sender := active[account].channel;
        var current := channels[sender];
        var next := Keep;
        if current.Remove? || disposition.Remove? {
          next := Remove;
        } else if current.Replace? || disposition.Replace? {
          next := Replace;
        } else if current.Retain? || disposition.Retain? {
          next := Retain;
        }
        channels := channels[sender := next];
      }
    }

    method DispositionOf(receiver: nat) returns (d: Disposition)
      requires receiver < |channels|
      ensures d == channels[receiver]
    {
      d := channels[receiver];
    }

    method Clear(account: Account)
      modifies this`active
      ensures State() == ClearIn(old(State()), account)
    {
      if account in active {
        active := active[account := active[account].(registrations := active[account].registrations - 1)];
        if active[account].registrations == 0 && !active[account].reserved {
          active := map b | b in active && b != account :: active[b];
          assert active == Drop(old(active), account);
        }
      }
    }

    method ReleaseReservation(account: Account)
      modifies this`active
      ensures State() == ReleaseIn(old(State()), account)
    {
      if account in active {
        active := active[account := active[account].(reserved := false)];
        if active[account].registrations == 0 {
          active := map b | b in active && b != account :: active[b];
          assert active == Drop(old(active), account);
        }
      }
    }
  }

  // ---------------------------------------------------------------- the system

  /** Where a rebuild stands.  `asked` is history: the join of every request made for its
      account since its own reservation reached the registry. */
  datatype Worker =
    | Inserted(account: Account)
    | Reserved(account: Account, asked: Disposition)
    | Registered(account: Account, asked: Disposition, receiver: nat)
    | Cleared(account: Account)
    | Removed(account: Account)

  /** `running` is `mail_rebuild_running`. */
  datatype System = System(running: set<Account>, registry: Registry, workers: map<nat, Worker>)

  const INITIAL := System({}, Registry([], map[]), map[])

  datatype Event =
    | InsertRunning(worker: nat, account: Account)
    | ReserveEntry(worker: nat)
    | RegisterWorker(worker: nat)
    | RequestCancel(account: Account, disposition: Disposition)
    | ClearWorker(worker: nat)
    | RemoveRunning(worker: nat)
    | ReleaseEntry(worker: nat)

  predicate Enabled(s: System, e: Event) {
    match e
    case InsertRunning(w, a) => w !in s.workers && a !in s.running
    case ReserveEntry(w) => w in s.workers && s.workers[w].Inserted?
    case RegisterWorker(w) => w in s.workers && s.workers[w].Reserved?
    case RequestCancel(_, _) => true
    case ClearWorker(w) => w in s.workers && s.workers[w].Registered?
    case RemoveRunning(w) => w in s.workers && (s.workers[w].Cleared? || s.workers[w].Reserved?)
    case ReleaseEntry(w) => w in s.workers && s.workers[w].Removed?
  }

  function Heard(w: Worker, a: Account, d: Disposition): Worker {
    match w
    case Reserved(b, asked) => if a == b then Reserved(b, Join(asked, d)) else w
    case Registered(b, asked, receiver) => if a == b then Registered(b, Join(asked, d), receiver) else w
    case _ => w
  }

  function Without(workers: map<nat, Worker>, w: nat): map<nat, Worker> {
    map k | k in workers && k != w :: workers[k]
  }

  function Step(s: System, e: Event): System
    requires Enabled(s, e)
  {
    match e
    case InsertRunning(w, a) =>
      s.(running := s.running + {a}, workers := s.workers[w := Inserted(a)])
    case ReserveEntry(w) =>
      var a := s.workers[w].account;
      s.(registry := ReserveIn(s.registry, a), workers := s.workers[w := Reserved(a, Keep)])
    case RegisterWorker(w) =>
      var a := s.workers[w].account;
      var registry := RegisterIn(s.registry, a);
      s.(registry := registry, workers := s.workers[w := Registered(a, s.workers[w].asked, ChannelOf(registry, a))])
    case RequestCancel(a, d) =>
      s.(registry := RequestIn(s.registry, a, d), workers := map w | w in s.workers :: Heard(s.workers[w], a, d))
    case ClearWorker(w) =>
      var a := s.workers[w].account;
      s.(registry := ClearIn(s.registry, a), workers := s.workers[w := Cleared(a)])
    case RemoveRunning(w) =>
      var a := s.workers[w].account;
      if a in s.running then s.(running := s.running - {a}, workers := s.workers[w := Removed(a)])
      else s.(workers := Without(s.workers, w))
    case ReleaseEntry(w) =>
      var a := s.workers[w].account;
      s.(registry := ReleaseIn(s.registry, a), workers := Without(s.workers, w))
  }

  /** A reservation reaches the registry while an earlier one for the same account has left
      `running` but is still to be released there. */
  predicate Overlaps(s: System, e: Event) {
    && e.ReserveEntry? && e.worker in s.workers
    && exists v :: v in s.workers && s.workers[v] == Removed(s.workers[e.worker].account)
  }

  predicate Possible(s: System, events: seq<Event>)
    decreases |events|
  {
    events == [] || (Enabled(s, events[0]) && Possible(Step(s, events[0]), events[1..]))
  }

  function After(s: System, events: seq<Event>): System
    requires Possible(s, events)
    decreases |events|
  {
    if events == [] then s else After(Step(s, events[0]), events[1..])
  }

  /** No reservation ever reaches the registry before an earlier one has been released there. */
  predicate Orderly(s: System, events: seq<Event>)
    requires Possible(s, events)
    decreases |events|
  {
    events != [] ==> !Overlaps(s, events[0]) && Orderly(Step(s, events[0]), events[1..])
  }

  // ---------------------------------------------------------------- the invariant of every run

  predicate HasEntry(w: Worker) {
    !w.Inserted?
  }

  predicate AnyRegistered(s: System, a: Account) {
    exists w :: w in s.workers && s.workers[w].account == a && s.workers[w].Registered?
  }

  predicate AnyEntry(s: System, a: Account) {
    exists w :: w in s.workers && s.workers[w].account == a && HasEntry(s.workers[w])
  }

  /** At most one rebuild per account that has not given its place back. */
  predicate OneHeldPerAccount(s: System) {
    forall v, w | v in s.workers && w in s.workers && !s.workers[v].Removed? && !s.workers[w].Removed? ::
      s.workers[v].account == s.workers[w].account ==> v == w
  }

  predicate RunningInv(s: System) {
    && (forall a :: a in s.running ==>
          exists w :: w in s.workers && s.workers[w].account == a && !s.workers[w].Removed?)
    && (forall w :: w in s.workers && !s.workers[w].Removed? ==> s.workers[w].account in s.running)
  }

  /** The entry of an account belongs to some worker and counts its registered one. */
  predicate Counted(s: System, a: Account) {
    && (AnyRegistered(s, a) ==> a in s.registry.active)
    && (a in s.registry.active ==>
          AnyEntry(s, a) && s.registry.active[a].registrations == if AnyRegistered(s, a) then 1 else 0)
  }

  ghost predicate CountsInv(s: System) {
    forall a :: Counted(s, a)
  }

  ghost predicate BaseInv(s: System) {
    OneHeldPerAccount(s) && RunningInv(s) && CountsInv(s)
  }

  /** An operation on account `a` leaves the entries of the others and their channels alone. */
  predicate OthersKeep(r: Registry, q: Registry, a: Account) {
    && |r.channels| <= |q.channels|
    && (forall b :: b in r.active && b != a ==> b in q.active && q.active[b] == r.active[b])
    && (forall b :: b in q.active && b != a ==> b in r.active)
    && (forall b :: b in r.active && b != a && r.active[b].channel < |r.channels| ==>
          q.channels[r.active[b].channel] == r.channels[r.active[b].channel])
  }

  lemma WithEntryKeepsOthers(r: Registry, a: Account)
    requires Sound(r)
    ensures Sound(WithEntry(r, a)) && OthersKeep(r, WithEntry(r, a), a)
  {
  }

  /** Changing the flags of an existing entry, but not its channel. */
  lemma UpdateKeepsOthers(r: Registry, q: Registry, a: Account, c: Cancellation)
    requires Sound(q) && OthersKeep(r, q, a)
    requires a in q.active && c.channel == q.active[a].channel
    ensures var p := q.(active := q.active[a := c]); Sound(p) && OthersKeep(r, p, a)
  {
  }

  lemma DropKeepsOthers(r: Registry, a: Account)
    requires Sound(r)
    ensures var p := r.(active := Drop(r.active, a)); Sound(p) && OthersKeep(r, p, a)
  {
  }

  lemma NothingKeepsOthers(r: Registry, a: Account)
    ensures OthersKeep(r, r, a)
  {
  }

  lemma ReserveKeepsOthers(r: Registry, a: Account)
    requires Sound(r)
    ensures Sound(ReserveIn(r, a)) && OthersKeep(r, ReserveIn(r, a), a)
  {
    hide Sound, OthersKeep;
    var q := WithEntry(r, a);
    WithEntryKeepsOthers(r, a);
    UpdateKeepsOthers(r, q, a, q.active[a].(reserved := true));
  }

  lemma RegisterKeepsOthers(r: Registry, a: Account)
    requires Sound(r)
    ensures Sound(RegisterIn(r, a)) && OthersKeep(r, RegisterIn(r, a), a)
  {
    hide Sound, OthersKeep;
    var q := WithEntry(r, a);
    WithEntryKeepsOthers(r, a);
    UpdateKeepsOthers(r, q, a, q.active[a].(registrations := q.active[a].registrations + 1));
  }

  lemma RequestKeepsOthers(r: Registry, a: Account, d: Disposition)
    requires Sound(r)
    ensures Sound(RequestIn(r, a, d)) && OthersKeep(r, RequestIn(r, a, d), a)
  {
  }

  lemma ClearKeepsOthers(r: Registry, a: Account)
    requires Sound(r)
    ensures Sound(ClearIn(r, a)) && OthersKeep(r, ClearIn(r, a), a)
  {
    hide Sound, OthersKeep;
    NothingKeepsOthers(r, a);
    DropKeepsOthers(r, a);
    if a in r.active {
      UpdateKeepsOthers(r, r, a, r.active[a].(registrations := r.active[a].registrations - 1));
    }
  }

  lemma ReleaseKeepsOthers(r: Registry, a: Account)
    requires Sound(r)
    ensures Sound(ReleaseIn(r, a)) && OthersKeep(r, ReleaseIn(r, a), a)
  {
    hide Sound, OthersKeep;
    NothingKeepsOthers(r, a);
    DropKeepsOthers(r, a);
    if a in r.active {
      UpdateKeepsOthers(r, r, a, r.active[a].(reserved := false));
    }
  }

  lemma OtherEntry(r: Registry, q: Registry, a: Account, w: Worker)
    requires EntryFor(r, w) && OthersKeep(r, q, a) && w.account != a
    ensures EntryFor(q, w)
  {
  }

  // ---------------------------------------------------------------- every step keeps it

  /** Only worker `w`, of account `a`, appears, moves or leaves. */
  predicate OnlyMoves(s: System, t: System, w: nat, a: Account) {
    && (forall k :: k in s.workers && k != w ==> k in t.workers && t.workers[k] == s.workers[k])
    && (forall k :: k in t.workers && k != w ==> k in s.workers)
    && (w in s.workers ==> s.workers[w].account == a)
    && (w in t.workers ==> t.workers[w].account == a)
  }

  lemma OthersStayCounted(s: System, t: System, w: nat, a: Account)
    requires CountsInv(s) && OnlyMoves(s, t, w, a) && OthersKeep(s.registry, t.registry, a)
    ensures forall b :: b != a ==> Counted(t, b)
  {
    forall b | b != a
      ensures Counted(t, b)
    {
      OtherStaysCounted(s, t, w, a, b);
    }
  }

  lemma OtherStaysCounted(s: System, t: System, w: nat, a: Account, b: Account)
    requires Counted(s, b) && OnlyMoves(s, t, w, a) && OthersKeep(s.registry, t.registry, a) && a != b
    ensures Counted(t, b)
  {
    if AnyEntry(s, b) {
      var k :| k in s.workers && s.workers[k].account == b && HasEntry(s.workers[k]);
      assert t.workers[k] == s.workers[k];
    }
    if AnyRegistered(s, b) {
      var k :| k in s.workers && s.workers[k].account == b && s.workers[k].Registered?;
      assert t.workers[k] == s.workers[k];
    }
    if AnyRegistered(t, b) {
      var k :| k in t.workers && t.workers[k].account == b && t.workers[k].Registered?;
      assert s.workers[k] == t.workers[k];
    }
  }

  /** Whether another worker of the account is registered, or has an entry, is not touched. */
  lemma OthersOfAccount(s: System, t: System, w: nat, a: Account)
    requires OnlyMoves(s, t, w, a)
    requires w in s.workers ==> !s.workers[w].Registered?
    requires w in t.workers ==> !t.workers[w].Registered?
    ensures AnyRegistered(t, a) == AnyRegistered(s, a)
    ensures AnyEntry(s, a) && (w in s.workers && HasEntry(s.workers[w]) ==> w in t.workers && HasEntry(t.workers[w]))
            ==> AnyEntry(t, a)
  {
    if AnyRegistered(s, a) {
      var k :| k in s.workers && s.workers[k].account == a && s.workers[k].Registered?;
      assert t.workers[k] == s.workers[k];
    }
    if AnyRegistered(t, a) {
      var k :| k in t.workers && t.workers[k].account == a && t.workers[k].Registered?;
      assert s.workers[k] == t.workers[k];
    }
    if k :| k in s.workers && s.workers[k].account == a && HasEntry(s.workers[k]) {
      assert k != w ==> t.workers[k] == s.workers[k];
    }
  }

  lemma ReserveIsCounted(s: System, w: nat)
    requires CountsInv(s) && Enabled(s, ReserveEntry(w))
    ensures CountsInv(Step(s, ReserveEntry(w)))
  {
    var a, t := s.workers[w].account, Step(s, ReserveEntry(w));
    ReserveTouches(s.registry, a);
    hide OthersKeep, ReserveIn;
    OthersStayCounted(s, t, w, a);
    OthersOfAccount(s, t, w, a);
    assert Counted(s, a) && HasEntry(t.workers[w]);
  }

  lemma ReserveTouches(r: Registry, a: Account)
    ensures var q := ReserveIn(r, a);
            && OthersKeep(r, q, a) && a in q.active
            && q.active[a].registrations == if a in r.active then r.active[a].registrations else 0
  {
  }

  lemma RegisterIsCounted(s: System, w: nat)
    requires OneHeldPerAccount(s) && CountsInv(s) && Enabled(s, RegisterWorker(w))
    ensures CountsInv(Step(s, RegisterWorker(w)))
  {
    var a, t := s.workers[w].account, Step(s, RegisterWorker(w));
    RegisterTouches(s.registry, a);
    hide OthersKeep, RegisterIn;
    OthersStayCounted(s, t, w, a);
    assert Counted(s, a) && !AnyRegistered(s, a);
    assert t.workers[w].Registered? && HasEntry(t.workers[w]);
  }

  lemma RegisterTouches(r: Registry, a: Account)
    ensures var q := RegisterIn(r, a);
            && OthersKeep(r, q, a) && a in q.active
            && q.active[a].registrations == (if a in r.active then r.active[a].registrations else 0) + 1
  {
  }

  lemma ClearIsCounted(s: System, w: nat)
    requires OneHeldPerAccount(s) && CountsInv(s) && Enabled(s, ClearWorker(w))
    ensures CountsInv(Step(s, ClearWorker(w)))
  {
    var a, t := s.workers[w].account, Step(s, ClearWorker(w));
    assert AnyRegistered(s, a) && Counted(s, a);
    ClearTouches(s.registry, a);
    hide OthersKeep, ClearIn;
    OthersStayCounted(s, t, w, a);
    assert HasEntry(t.workers[w]);
    forall k | k in t.workers && t.workers[k].account == a
      ensures !t.workers[k].Registered?
    {
      assert k != w ==> s.workers[k] == t.workers[k];
    }
  }

  lemma ClearTouches(r: Registry, a: Account)
    requires a in r.active && r.active[a].registrations == 1
    ensures var q := ClearIn(r, a);
            OthersKeep(r, q, a) && (a in q.active ==> q.active[a].registrations == 0)
  {
  }

  lemma ReleaseIsCounted(s: System, w: nat)
    requires CountsInv(s) && Enabled(s, ReleaseEntry(w))
    ensures CountsInv(Step(s, ReleaseEntry(w)))
  {
    var a, t := s.workers[w].account, Step(s, ReleaseEntry(w));
    ReleaseTouches(s.registry, a);
    hide OthersKeep, ReleaseIn;
    OthersStayCounted(s, t, w, a);
    OthersOfAccount(s, t, w, a);
    assert Counted(s, a);
    if AnyRegistered(s, a) {
      var k :| k in s.workers && s.workers[k].account == a && s.workers[k].Registered?;
      assert t.workers[k] == s.workers[k] && HasEntry(t.workers[k]);
    }
  }

  lemma ReleaseTouches(r: Registry, a: Account)
    ensures var q := ReleaseIn(r, a);
            && OthersKeep(r, q, a)
            && (a in q.active <==> a in r.active && r.active[a].registrations != 0)
            && (a in q.active ==> q.active[a].registrations == r.active[a].registrations)
  {
  }

  /** Steps that do not touch the registry and leave no worker without its entry. */
  lemma UntouchedIsCounted(s: System, t: System, w: nat, a: Account)
    requires CountsInv(s) && OnlyMoves(s, t, w, a) && t.registry == s.registry
    requires w in s.workers ==> !s.workers[w].Registered?
    requires w in t.workers && !t.workers[w].Registered?
    requires w in s.workers && HasEntry(s.workers[w]) ==> HasEntry(t.workers[w])
    ensures CountsInv(t)
  {
    NothingKeepsOthers(s.registry, a);
    OthersStayCounted(s, t, w, a);
    OthersOfAccount(s, t, w, a);
    assert Counted(s, a);
  }

  lemma RequestIsCounted(s: System, a: Account, d: Disposition)
    requires CountsInv(s)
    ensures CountsInv(Step(s, RequestCancel(a, d)))
  {
    hide Join;
    var t := Step(s, RequestCancel(a, d));
    assert t.registry.active == s.registry.active;
    forall b
      ensures Counted(t, b)
    {
      assert Counted(s, b);
      SamePhases(s, t, b);
    }
  }

  lemma SamePhases(s: System, t: System, b: Account)
    requires t.workers.Keys == s.workers.Keys
    requires forall k :: k in s.workers ==> SamePhase(s.workers[k], t.workers[k])
    ensures AnyRegistered(t, b) == AnyRegistered(s, b) && AnyEntry(t, b) == AnyEntry(s, b)
  {
  }

  predicate SamePhase(v: Worker, w: Worker) {
    v.account == w.account && v.Registered? == w.Registered? && v.Inserted? == w.Inserted? && v.Removed? == w.Removed?
  }

  lemma StepKeepsCounts(s: System, e: Event)
    requires BaseInv(s) && Enabled(s, e)
    ensures CountsInv(Step(s, e))
  {
    hide CountsInv;
    match e {
      case InsertRunning(w, a) => UntouchedIsCounted(s, Step(s, e), w, a);
      case ReserveEntry(w) => ReserveIsCounted(s, w);
      case RegisterWorker(w) => RegisterIsCounted(s, w);
      case RequestCancel(a, d) => RequestIsCounted(s, a, d);
      case ClearWorker(w) => ClearIsCounted(s, w);
      case RemoveRunning(w) => UntouchedIsCounted(s, Step(s, e), w, s.workers[w].account);
      case ReleaseEntry(w) => ReleaseIsCounted(s, w);
    }
  }

  /** Who runs, when the phases stay what they are up to giving the place back. */
  lemma PhasesKeepRunning(s: System, t: System)
    requires OneHeldPerAccount(s) && RunningInv(s)
    requires t.running == s.running && t.workers.Keys == s.workers.Keys
    requires forall k :: k in s.workers ==> t.workers[k].account == s.workers[k].account
                                            && t.workers[k].Removed? == s.workers[k].Removed?
    ensures OneHeldPerAccount(t) && RunningInv(t)
  {
    forall a | a in t.running
      ensures exists k :: k in t.workers && t.workers[k].account == a && !t.workers[k].Removed?
    {
      var k :| k in s.workers && s.workers[k].account == a && !s.workers[k].Removed?;
      assert k in t.workers;
    }
  }

  lemma InsertKeepsRunning(s: System, w: nat, a: Account)
    requires OneHeldPerAccount(s) && RunningInv(s) && Enabled(s, InsertRunning(w, a))
    ensures var t := Step(s, InsertRunning(w, a)); OneHeldPerAccount(t) && RunningInv(t)
  {
    var t := Step(s, InsertRunning(w, a));
    forall b | b in t.running
      ensures exists k :: k in t.workers && t.workers[k].account == b && !t.workers[k].Removed?
    {
      if b == a {
        assert t.workers[w] == Inserted(a);
      } else {
        var k :| k in s.workers && s.workers[k].account == b && !s.workers[k].Removed?;
        assert t.workers[k] == s.workers[k];
      }
    }
  }

  /** An account leaves `running` together with its only held worker, or a worker that gave its
      place back leaves. */
  lemma LeavingKeepsRunning(s: System, t: System, w: nat)
    requires OneHeldPerAccount(s) && RunningInv(s) && w in s.workers
    requires OnlyMoves(s, t, w, s.workers[w].account)
    requires w in t.workers ==> t.workers[w].Removed?
    requires t.running == if s.workers[w].Removed? then s.running else s.running - {s.workers[w].account}
    ensures OneHeldPerAccount(t) && RunningInv(t)
  {
    forall b | b in t.running
      ensures exists k :: k in t.workers && t.workers[k].account == b && !t.workers[k].Removed?
    {
      var k :| k in s.workers && s.workers[k].account == b && !s.workers[k].Removed?;
      assert k in t.workers && t.workers[k] == s.workers[k];
    }
  }

  lemma StepKeepsRunning(s: System, e: Event)
    requires OneHeldPerAccount(s) && RunningInv(s) && Enabled(s, e)
    ensures OneHeldPerAccount(Step(s, e)) && RunningInv(Step(s, e))
  {
    hide ReserveIn, RegisterIn, RequestIn, ClearIn, ReleaseIn;
    match e {
      case InsertRunning(w, a) => InsertKeepsRunning(s, w, a);
      case RemoveRunning(w) => LeavingKeepsRunning(s, Step(s, e), w);
      case ReleaseEntry(w) => LeavingKeepsRunning(s, Step(s, e), w);
      case _ => PhasesKeepRunning(s, Step(s, e));
    }
  }

  /** Every half-step keeps the counts right, overlapping or not. */
  lemma StepKeepsBase(s: System, e: Event)
    requires BaseInv(s) && Enabled(s, e)
    ensures BaseInv(Step(s, e))
  {
    hide OneHeldPerAccount, RunningInv, CountsInv, Step, Enabled;
    StepKeepsRunning(s, e);
    StepKeepsCounts(s, e);
  }

  lemma {:induction false} RunsKeepBase(s: System, events: seq<Event>)
    requires BaseInv(s) && Possible(s, events)
    ensures BaseInv(After(s, events))
    decreases |events|
  {
    hide BaseInv, Step, Enabled;
    if events != [] {
      StepKeepsBase(s, events[0]);
      RunsKeepBase(Step(s, events[0]), events[1..]);
    }
  }

  // ---------------------------------------------------------------- the invariant of orderly runs

  /** What the registry must hold for a worker that has an entry. */
  predicate EntryFor(r: Registry, w: Worker) {
    HasEntry(w) ==>
      && w.account in r.active
      && var c := r.active[w.account];
      && c.reserved && c.channel < |r.channels|
      && (w.Registered? ==> w.receiver == c.channel)
      && (w.Reserved? || w.Registered? ==> r.channels[c.channel] == w.asked)
  }

  /** An entry is never shared between an old and a new rebuild. */
  predicate OneEntryPerAccount(s: System) {
    forall v, w | v in s.workers && w in s.workers && HasEntry(s.workers[v]) && HasEntry(s.workers[w]) ::
      s.workers[v].account == s.workers[w].account ==> v == w
  }

  predicate EntriesInv(s: System) {
    && Sound(s.registry)
    && OneEntryPerAccount(s)
    && (forall w :: w in s.workers ==> EntryFor(s.registry, s.workers[w]))
  }

  ghost predicate Inv(s: System) {
    BaseInv(s) && EntriesInv(s)
  }

  /** A worker of an account moves or leaves, and no other worker shares the account's entry. */
  lemma WorkerMoves(s: System, t: System, w: nat, a: Account)
    requires EntriesInv(s) && OnlyMoves(s, t, w, a)
    requires Sound(t.registry) && OthersKeep(s.registry, t.registry, a)
    requires w in t.workers ==> EntryFor(t.registry, t.workers[w])
    requires forall k :: k in s.workers && k != w && s.workers[k].account == a ==> !HasEntry(s.workers[k])
    ensures EntriesInv(t)
  {
    hide Sound, EntryFor, OthersKeep;
    forall k | k in t.workers
      ensures EntryFor(t.registry, t.workers[k])
    {
      if k != w {
        assert t.workers[k] == s.workers[k];
        if t.workers[k].account != a {
          OtherEntry(s.registry, t.registry, a, s.workers[k]);
        } else {
          NoEntryNeeded(t.registry, t.workers[k]);
        }
      }
    }
  }

  lemma NoEntryNeeded(r: Registry, w: Worker)
    requires !HasEntry(w)
    ensures EntryFor(r, w)
  {
  }

  lemma OnlyRemoved(w: Worker)
    ensures w.Removed? <==> w == Removed(w.account)
  {
  }

  /** Without an overlap a reservation finds no entry and gets a channel of its own. */
  lemma ReserveKeepsEntries(s: System, w: nat)
    requires Inv(s) && Enabled(s, ReserveEntry(w)) && !Overlaps(s, ReserveEntry(w))
    ensures EntriesInv(Step(s, ReserveEntry(w)))
  {
    hide Sound, OthersKeep;
    var a, t := s.workers[w].account, Step(s, ReserveEntry(w));
    forall k | k in s.workers && s.workers[k].account == a
      ensures !HasEntry(s.workers[k])
    {
      OnlyRemoved(s.workers[k]);
    }
    assert Counted(s, a);
    assert a !in s.registry.active;
    ReserveKeepsOthers(s.registry, a);
    WorkerMoves(s, t, w, a);
  }

  lemma RegisterKeepsEntries(s: System, w: nat)
    requires EntriesInv(s) && Enabled(s, RegisterWorker(w))
    ensures EntriesInv(Step(s, RegisterWorker(w)))
  {
    hide Sound, OthersKeep;
    assert EntryFor(s.registry, s.workers[w]);
    RegisterKeepsOthers(s.registry, s.workers[w].account);
    WorkerMoves(s, Step(s, RegisterWorker(w)), w, s.workers[w].account);
  }

  lemma ClearKeepsEntries(s: System, w: nat)
    requires EntriesInv(s) && Enabled(s, ClearWorker(w))
    ensures EntriesInv(Step(s, ClearWorker(w)))
  {
    hide Sound, OthersKeep;
    assert EntryFor(s.registry, s.workers[w]);
    ClearKeepsOthers(s.registry, s.workers[w].account);
    WorkerMoves(s, Step(s, ClearWorker(w)), w, s.workers[w].account);
  }

  lemma ReleaseKeepsEntries(s: System, w: nat)
    requires EntriesInv(s) && Enabled(s, ReleaseEntry(w))
    ensures EntriesInv(Step(s, ReleaseEntry(w)))
  {
    hide Sound, OthersKeep;
    ReleaseKeepsOthers(s.registry, s.workers[w].account);
    WorkerMoves(s, Step(s, ReleaseEntry(w)), w, s.workers[w].account);
  }

  lemma RemoveKeepsEntries(s: System, w: nat)
    requires RunningInv(s) && EntriesInv(s) && Enabled(s, RemoveRunning(w))
    ensures EntriesInv(Step(s, RemoveRunning(w)))
  {
    hide Sound, OthersKeep;
    assert EntryFor(s.registry, s.workers[w]);
    NothingKeepsOthers(s.registry, s.workers[w].account);
    WorkerMoves(s, Step(s, RemoveRunning(w)), w, s.workers[w].account);
  }

  lemma InsertKeepsEntries(s: System, w: nat, a: Account)
    requires EntriesInv(s) && Enabled(s, InsertRunning(w, a))
    ensures EntriesInv(Step(s, InsertRunning(w, a)))
  {
    hide Sound, EntryFor;
    var t := Step(s, InsertRunning(w, a));
    NoEntryNeeded(t.registry, t.workers[w]);
  }

  lemma RequestKeepsEntries(s: System, a: Account, d: Disposition)
    requires EntriesInv(s)
    ensures EntriesInv(Step(s, RequestCancel(a, d)))
  {
    hide Sound, EntryFor, Join, OthersKeep;
    var t := Step(s, RequestCancel(a, d));
    RequestKeepsOthers(s.registry, a, d);
    forall k | k in t.workers
      ensures EntryFor(t.registry, t.workers[k])
    {
      HeardEntry(s, k, a, d);
    }
  }

  lemma HeardEntry(s: System, k: nat, a: Account, d: Disposition)
    requires EntriesInv(s) && k in s.workers
    ensures EntryFor(RequestIn(s.registry, a, d), Heard(s.workers[k], a, d))
  {
    assert EntryFor(s.registry, s.workers[k]);
    if s.workers[k].account != a {
      RequestKeepsOthers(s.registry, a, d);
      OtherEntry(s.registry, RequestIn(s.registry, a, d), a, s.workers[k]);
    }
  }

  lemma StepKeepsEntries(s: System, e: Event)
    requires Inv(s) && Enabled(s, e) && !Overlaps(s, e)
    ensures EntriesInv(Step(s, e))
  {
    hide EntriesInv, Step, Overlaps, Enabled, OneHeldPerAccount, RunningInv, CountsInv;
    match e {
      case InsertRunning(w, a) => InsertKeepsEntries(s, w, a);
      case ReserveEntry(w) => ReserveKeepsEntries(s, w);
      case RegisterWorker(w) => RegisterKeepsEntries(s, w);
      case RequestCancel(a, d) => RequestKeepsEntries(s, a, d);
      case ClearWorker(w) => ClearKeepsEntries(s, w);
      case RemoveRunning(w) => RemoveKeepsEntries(s, w);
      case ReleaseEntry(w) => ReleaseKeepsEntries(s, w);
    }
  }

  lemma StepKeepsInv(s: System, e: Event)
    requires Inv(s) && Enabled(s, e) && !Overlaps(s, e)
    ensures Inv(Step(s, e))
  {
    hide BaseInv, EntriesInv, Step, Overlaps, Enabled;
    StepKeepsBase(s, e);
    StepKeepsEntries(s, e);
  }

  lemma {:induction false} RunsKeepInv(s: System, events: seq<Event>)
    requires Inv(s) && Possible(s, events) && Orderly(s, events)
    ensures Inv(After(s, events))
    decreases |events|
  {
    hide Inv, Step, Overlaps, Enabled;
    if events != [] {
      StepKeepsInv(s, events[0]);
      RunsKeepInv(Step(s, events[0]), events[1..]);
    }
  }

  // ---------------------------------------------------------------- the theorems

  ghost predicate Reachable(s: System) {
    exists events :: Possible(INITIAL, events) && After(INITIAL, events) == s
  }

  /** Reached without a reservation overlapping a release of the same account. */
  ghost predicate OrderlyReachable(s: System) {
    exists events :: Possible(INITIAL, events) && Orderly(INITIAL, events) && After(INITIAL, events) == s
  }

  lemma ReachableIsBase(s: System)
    requires Reachable(s)
    ensures BaseInv(s)
  {
    hide Step, Enabled;
    var events :| Possible(INITIAL, events) && After(INITIAL, events) == s;
    RunsKeepBase(INITIAL, events);
  }

  lemma OrderlyReachableIsInv(s: System)
    requires OrderlyReachable(s)
    ensures Inv(s)
  {
    hide Step, Enabled, Overlaps;
    var events :| Possible(INITIAL, events) && Orderly(INITIAL, events) && After(INITIAL, events) == s;
    RunsKeepInv(INITIAL, events);
  }

  /** On every run: at most one rebuild per account, from the reservation to giving the place in
      `running` back. */
  lemma OneRebuildPerAccount(s: System, v: nat, w: nat)
    requires Reachable(s) && v in s.workers && w in s.workers && s.workers[v].account == s.workers[w].account
    requires !s.workers[v].Removed? && !s.workers[w].Removed?
    ensures v == w
  {
    hide Reachable;
    ReachableIsBase(s);
  }

  /** On every run: an entry belongs to an outstanding reservation and its count is that of the
      registered workers, so the decrement in `clear` always finds a one. */
  lemma ClearNeverUnderflows(s: System, a: Account)
    requires Reachable(s)
    ensures a in s.registry.active ==>
              AnyEntry(s, a) && s.registry.active[a].registrations == if AnyRegistered(s, a) then 1 else 0
    ensures forall w :: w in s.workers && Enabled(s, ClearWorker(w)) ==>
      s.workers[w].account in s.registry.active && s.registry.active[s.workers[w].account].registrations == 1
  {
    hide Reachable;
    ReachableIsBase(s);
    assert Counted(s, a);
    forall w | w in s.workers && Enabled(s, ClearWorker(w))
      ensures s.workers[w].account in s.registry.active && s.registry.active[s.workers[w].account].registrations == 1
    {
      assert AnyRegistered(s, s.workers[w].account) && Counted(s, s.workers[w].account);
    }
  }

  /** On every run: when the last worker is gone the registry is empty again. */
  lemma QuietRegistryIsEmpty(s: System)
    requires Reachable(s) && s.workers == map[]
    ensures s.registry.active == map[] && s.running == {}
  {
    hide Reachable;
    ReachableIsBase(s);
    forall a
      ensures a !in s.registry.active
    {
      assert Counted(s, a);
    }
  }

  /** On an orderly run an entry exists exactly while a reservation is outstanding. */
  lemma EntryIffOutstanding(s: System, a: Account)
    requires OrderlyReachable(s)
    ensures a in s.registry.active <==> AnyEntry(s, a)
  {
    hide OrderlyReachable;
    OrderlyReachableIsInv(s);
    assert Counted(s, a);
    assert forall w :: w in s.workers ==> EntryFor(s.registry, s.workers[w]);
  }

  /** A worker whose channel does not hold the join of the requests made for it. */
  predicate Deaf(s: System, w: nat) {
    && w in s.workers && s.workers[w].Registered?
    && !(s.workers[w].receiver < |s.registry.channels|
         && s.registry.channels[s.workers[w].receiver] == s.workers[w].asked)
  }

  lemma GoodMeansHeard(s: System, w: nat)
    requires Inv(s)
    ensures !Deaf(s, w)
  {
    assert w in s.workers ==> EntryFor(s.registry, s.workers[w]);
  }

  /** A registered worker reads exactly the join of the requests made since its own
      reservation: none is lost while it is still queued, and nothing from an earlier rebuild
      of the account is left in the channel. */
  lemma WorkerReadsAllRequests(s: System, w: nat)
    requires OrderlyReachable(s) && w in s.workers && s.workers[w].Registered?
    ensures s.workers[w].receiver < |s.registry.channels|
    ensures s.registry.channels[s.workers[w].receiver] == s.workers[w].asked
  {
    OrderlyReachableIsInv(s);
    GoodMeansHeard(s, w);
  }

  // ---------------------------------------------------------------- the overlap

  function Loss(v: nat, w: nat, a: Account): seq<Event> {
    [ReleaseEntry(v), RequestCancel(a, Retain), RegisterWorker(w)]
  }

  /** Each of three events in a row is possible and none overlaps. */
  lemma ThreeSteps(s: System, e: Event, f: Event, g: Event)
    requires Enabled(s, e) && !e.ReserveEntry?
    requires Enabled(Step(s, e), f) && !f.ReserveEntry?
    requires Enabled(Step(Step(s, e), f), g) && !g.ReserveEntry?
    ensures Possible(s, [e, f, g]) && Orderly(s, [e, f, g])
    ensures After(s, [e, f, g]) == Step(Step(Step(s, e), f), g)
  {
    hide Enabled, Step;
    var t, u := Step(s, e), Step(Step(s, e), f);
    assert [e, f, g][1..] == [f, g] && [f, g][1..] == [g] && [g][1..] == [];
    assert Possible(u, [g]) && Orderly(u, [g]) && After(u, [g]) == Step(u, g);
    assert Possible(t, [f, g]) && Orderly(t, [f, g]) && After(t, [f, g]) == Step(u, g);
  }

  /** The new reservation inherits the old entry and the release then drops it. */
  lemma ReservedThenReleased(s: System, v: nat, w: nat, a: Account)
    requires Inv(s) && v in s.workers && w in s.workers && s.workers[v] == Removed(a) && s.workers[w] == Inserted(a)
    ensures var t := Step(s, ReserveEntry(w));
            && t.workers == s.workers[w := Reserved(a, Keep)] && Enabled(t, ReleaseEntry(v))
            && var u := Step(t, ReleaseEntry(v));
            && a !in u.registry.active && w in u.workers && u.workers[w] == Reserved(a, Keep)
  {
    hide OneHeldPerAccount, Sound;
    assert EntryFor(s.registry, s.workers[v]);
    assert Counted(s, a);
    forall k | k in s.workers && s.workers[k].account == a
      ensures !s.workers[k].Registered?
    {
      assert k != v ==> !HasEntry(s.workers[k]);
    }
    assert s.registry.active[a].registrations == 0;
  }

  /** The request then finds no entry, and the worker registers on a channel that never held it. */
  lemma RequestThenRegister(u: System, w: nat, a: Account)
    requires a !in u.registry.active && w in u.workers && u.workers[w] == Reserved(a, Keep)
    ensures var x := Step(u, RequestCancel(a, Retain));
            && x.registry == u.registry && w in x.workers && x.workers[w] == Reserved(a, Retain)
            && Enabled(x, RegisterWorker(w))
            && var y := Step(x, RegisterWorker(w));
            && w in y.workers && y.workers[w].Registered? && y.workers[w].asked == Retain
            && y.workers[w].receiver < |y.registry.channels| && y.registry.channels[y.workers[w].receiver] == Keep
  {
  }

  /** From every good state in which a reservation overlaps a release, a cancellation sent to the
      queued worker can be lost. */
  lemma OverlapLosesARequest(s: System, v: nat, w: nat, a: Account)
    requires Inv(s) && v in s.workers && w in s.workers && s.workers[v] == Removed(a) && s.workers[w] == Inserted(a)
    ensures Enabled(s, ReserveEntry(w)) && Overlaps(s, ReserveEntry(w))
    ensures var t := Step(s, ReserveEntry(w));
            && Possible(t, Loss(v, w, a)) && Orderly(t, Loss(v, w, a))
            && var y := After(t, Loss(v, w, a));
            && w in y.workers && y.workers[w].Registered? && y.workers[w].asked == Retain
            && y.workers[w].receiver < |y.registry.channels| && y.registry.channels[y.workers[w].receiver] == Keep
  {
    hide Inv, Step, Possible, Orderly, After;
    ReservedThenReleased(s, v, w, a);
    var t := Step(s, ReserveEntry(w));
    var u := Step(t, ReleaseEntry(v));
    RequestThenRegister(u, w, a);
    ThreeSteps(t, ReleaseEntry(v), RequestCancel(a, Retain), RegisterWorker(w));
  }

  ghost predicate CanLose(s: System) {
    exists events, w :: Possible(s, events) && Orderly(s, events) && Deaf(After(s, events), w)
  }

  /** The exact condition.  From a good state, an event makes it possible that some orderly
      continuation loses a request if and only if it is a reservation that overlaps a release of
      the same account. */
  lemma LossIffOverlap(s: System, e: Event)
    requires Inv(s) && Enabled(s, e)
    ensures CanLose(Step(s, e)) <==> Overlaps(s, e)
  {
    hide Inv, Step, Possible, Orderly, After, Deaf;
    if Overlaps(s, e) {
      var a := s.workers[e.worker].account;
      var v :| v in s.workers && s.workers[v] == Removed(a);
      assert s.workers[e.worker] == Inserted(a);
      OverlapLosesARequest(s, v, e.worker, a);
      DeafAfterLoss(After(Step(s, e), Loss(v, e.worker, a)), e.worker);
    } else {
      StepKeepsInv(s, e);
      forall events, w | Possible(Step(s, e), events) && Orderly(Step(s, e), events)
        ensures !Deaf(After(Step(s, e), events), w)
      {
        RunsKeepInv(Step(s, e), events);
        GoodMeansHeard(After(Step(s, e), events), w);
      }
    }
  }

  lemma DeafAfterLoss(y: System, w: nat)
    requires w in y.workers && y.workers[w].Registered? && y.workers[w].asked == Retain
    requires y.workers[w].receiver < |y.registry.channels| && y.registry.channels[y.workers[w].receiver] == Keep
    ensures Deaf(y, w)
  {
  }

  const OVERLAP := [InsertRunning(1, "a"), ReserveEntry(1), RemoveRunning(1), InsertRunning(2, "a")]

  /** Such a state is reached: an account whose rebuild ends is reserved again at once. */
  lemma OverlapIsReachable()
    ensures Possible(INITIAL, OVERLAP) && Orderly(INITIAL, OVERLAP)
    ensures var s := After(INITIAL, OVERLAP);
            && OrderlyReachable(s) && 1 in s.workers && s.workers[1] == Removed("a")
            && 2 in s.workers && s.workers[2] == Inserted("a")
  {
    assert OVERLAP[1..] == [ReserveEntry(1), RemoveRunning(1), InsertRunning(2, "a")];
    var s := Step(INITIAL, InsertRunning(1, "a"));
    assert s.workers == map[1 := Inserted("a")];
    ThreeStepsFromReserve(s);
  }

  lemma ThreeStepsFromReserve(s: System)
    requires s.workers == map[1 := Inserted("a")] && s.running == {"a"}
    ensures var events := [ReserveEntry(1), RemoveRunning(1), InsertRunning(2, "a")];
            && Possible(s, events) && Orderly(s, events)
            && After(s, events).workers == map[1 := Removed("a"), 2 := Inserted("a")]
  {
    var r, m, i := ReserveEntry(1), RemoveRunning(1), InsertRunning(2, "a");
    assert [r, m, i][1..] == [m, i] && [m, i][1..] == [i] && [i][1..] == [];
    var t := Step(s, r);
    assert t.workers == map[1 := Reserved("a", Keep)];
    var u := Step(t, m);
    assert u.workers == map[1 := Removed("a")] && "a" !in u.running;
    assert Possible(u, [i]) && Orderly(u, [i]);
    assert Possible(t, [m, i]) && Orderly(t, [m, i]);
  }
}
