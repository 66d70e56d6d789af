/** The inference lease engine (src/engine.c). */
module LeaseProtocol {

  /* Threads take leases on (method instance, owner) keys.  A thread that wants a key held by somebody
  else walks the chain "holder -> key the holder sleeps on -> holder of that key -> ..." and gives up if
  the chain leads back to itself; otherwise it sleeps until some lease is dropped.

  This module is the protocol as a state machine over the atomic critical sections of `engine_lock`.
  Module LeaseEngine holds the engine object, whose methods are proved to take exactly these steps. */

  type Tid = nat

  /** infer_key_t */
  datatype Key = Key(mi: nat, owner: nat)

  /** reservation_info_t; `ci` identifies the placeholder code instance */
  datatype Lease = Lease(tid: Tid, ci: nat)

  datatype Option<T> = None | Some(value: T)

  /** Where a thread stands inside `jl_engine_reserve`. */
  datatype Phase =
    | Entered   // counted, but not yet through its first critical section
    | Asleep    // in uv_cond_wait
    | Signalled // woken by a broadcast, waiting to get the lock back

  datatype Call = Call(key: Key, ci: nat, phase: Phase)

  datatype State = State(
    leases: map<Key, Lease>,       // native_reservations and foreign_reservations
    awaiting: seq<Option<Key>>,    // indexed by thread
    nqueued: map<Tid, int>,        // ptls->engine_nqueued; absent means 0
    calls: map<Tid, Call>,         // the threads inside jl_engine_reserve, with their locals
    made: seq<Placeholder>         // history: the placeholders created so far
  )

  /** A placeholder code instance: who reserved it, the method and owner in its fields, and what became
  of it. */
  datatype Placeholder = Placeholder(creator: Tid, key: Key, fate: Fate)

  datatype Fate =
    | Pending   // its reserve call is in progress
    | Leased    // inserted with a lease
    | Refused   // returned by cycle breaking, without a lease

  function Queued(nqueued: map<Tid, int>, t: Tid): int {
    if t in nqueued then nqueued[t] else 0
  }

  function AwaitedBy(awaiting: seq<Option<Key>>, t: Tid): Option<Key> {
    if t < |awaiting| then awaiting[t] else None
  }

  // ---------------------------------------------------------------- the wait graph

  /** The thread that `t` waits for: the holder of the key it is registered on. */
  function WaitsFor(leases: map<Key, Lease>, awaiting: seq<Option<Key>>, t: Tid): Option<Tid> {
    match AwaitedBy(awaiting, t)
    case None => None
    case Some(k) => if k in leases then Some(leases[k].tid) else None
  }

  /** The chain of waits from `t` stops after at most `n` hops. */
  ghost predicate Ends(leases: map<Key, Lease>, awaiting: seq<Option<Key>>, t: Tid, n: nat)
    decreases n
  {
    var next := WaitsFor(leases, awaiting, t);
    next.None? || (n > 0 && Ends(leases, awaiting, next.value, n - 1))
  }

  /** The chain of waits from `t` meets `target` within `n` hops. */
  ghost predicate Meets(leases: map<Key, Lease>, awaiting: seq<Option<Key>>, t: Tid, target: Tid, n: nat)
    decreases n
  {
    || t == target
    || (n > 0 && var next := WaitsFor(leases, awaiting, t);
                 next.Some? && Meets(leases, awaiting, next.value, target, n - 1))
  }

  /** Would `t` going to sleep on `key` close a cycle? */
  ghost predicate WouldDeadlock(s: State, t: Tid, key: Key) {
    key in s.leases && exists n: nat :: Meets(s.leases, s.awaiting, s.leases[key].tid, t, n)
  }

  /** Every wait chain is finite.  As a thread waits for at most one other thread,
  this says that the wait graph has no cycle. */
  ghost predicate Acyclic(s: State) {
    forall t: Tid :: Finite(s.leases, s.awaiting, t)
  }

  ghost predicate Finite(leases: map<Key, Lease>, awaiting: seq<Option<Key>>, t: Tid) {
    exists n: nat :: Ends(leases, awaiting, t, n)
  }

  // ---------------------------------------------------------------- the protocol

  ghost const Init := State(map[], [], map[], map[], [])

  datatype Event =
    | Enter(t: Tid, key: Key)      // jl_engine_reserve up to its first lock
    | Attempt(t: Tid)              // one critical section: up to insertion, cycle, or sleep
    | Fulfill(t: Tid, ci: nat)     // by the thread that reserved the placeholder
    | Sweep(dead: set<nat>)        // placeholders found unmarked by the collector

  ghost predicate Enabled(s: State, e: Event) {
    match e
    case Enter(t, key) => t !in s.calls
    // a sleeping thread may wake up at any time: broadcasts and spurious wake-ups alike
    case Attempt(t) => t in s.calls && s.calls[t].ci < |s.made|
    case Fulfill(t, ci) => t !in s.calls && ci < |s.made| && s.made[ci].creator == t
    case Sweep(dead) => true
  }

  function Bump(nqueued: map<Tid, int>, t: Tid, delta: int): map<Tid, int> {
    nqueued[t := Queued(nqueued, t) + delta]
  }

  function Wake(calls: map<Tid, Call>): map<Tid, Call> {
    map t | t in calls :: if calls[t].phase == Asleep then calls[t].(phase := Signalled) else calls[t]
  }

  /** `awaiting` long enough for thread `t`, as jl_engine_reserve makes it. */
  function Grow(awaiting: seq<Option<Key>>, t: Tid): (r: seq<Option<Key>>)
    ensures t < |r|
    ensures forall u: Tid :: AwaitedBy(r, u) == AwaitedBy(awaiting, u)
    ensures |awaiting| <= |r|
    decreases t + 1 - |awaiting|
  {
    if t < |awaiting| then awaiting else Grow(awaiting + [None], t)
  }

  ghost function AttemptStep(s: State, t: Tid): State
    requires t in s.calls && s.calls[t].ci < |s.made|
  {
    var call := s.calls[t];
    var awaiting := Grow(s.awaiting, t)[t := None];
    var s1 := s.(awaiting := awaiting);
    if call.key !in s.leases then
      s1.(leases := s.leases[call.key := Lease(t, call.ci)], calls := s.calls - {t},
         made := s.made[call.ci := Placeholder(t, call.key, Leased)])
    else if WouldDeadlock(s1, t, call.key) then
      s1.(nqueued := Bump(s.nqueued, t, -1), calls := s.calls - {t},
         made := s.made[call.ci := Placeholder(t, call.key, Refused)])
    else
      s1.(awaiting := awaiting[t := Some(call.key)], calls := s.calls[t := call.(phase := Asleep)])
  }

  function EnterStep(s: State, t: Tid, key: Key): State {
    s.(nqueued := Bump(s.nqueued, t, 1), calls := s.calls[t := Call(key, |s.made|, Entered)],
       made := s.made + [Placeholder(t, key, Pending)])
  }

  function FulfillStep(s: State, t: Tid, ci: nat): State
    requires ci < |s.made|
  {
    var key := s.made[ci].key;
    if key in s.leases && s.leases[key].ci == ci then
      s.(leases := s.leases - {key}, nqueued := Bump(s.nqueued, t, -1), calls := Wake(s.calls))
    else
      s
  }

  function SweepStep(s: State, dead: set<nat>, nqueued: map<Tid, int>): State {
    var gone := DeadKeys(s.leases, dead);
    s.(leases := s.leases - gone, nqueued := nqueued, calls := if gone == {} then s.calls else Wake(s.calls))
  }

  function LeasesOf(leases: map<Key, Lease>, t: Tid): set<Key> {
    set k | k in leases && leases[k].tid == t
  }

  /** The keys whose placeholder the collector found dead. */
  function DeadKeys(leases: map<Key, Lease>, dead: set<nat>): set<Key> {
    set k | k in leases && leases[k].ci in dead
  }

  ghost predicate SweptCounts(s: State, dead: set<nat>, nqueued: map<Tid, int>) {
    forall t: Tid :: Queued(nqueued, t)
      == Queued(s.nqueued, t) - |DeadKeys(s.leases, dead) * LeasesOf(s.leases, t)|
  }

  /** The atomic steps.  Only a sweep leaves a choice: how the counters are represented. */
  ghost predicate Next(s: State, e: Event, s': State) {
    && Enabled(s, e)
    && match e
       case Enter(t, key) => s' == EnterStep(s, t, key)
       case Attempt(t) => s' == AttemptStep(s, t)
       case Fulfill(t, ci) => s' == FulfillStep(s, t, ci)
       case Sweep(dead) => s' == SweepStep(s, dead, s'.nqueued) && SweptCounts(s, dead, s'.nqueued)
  }

  function Front(es: seq<Event>): seq<Event>
    requires es != []
  {
    es[..|es| - 1]
  }

  function Last(es: seq<Event>): Event
    requires es != []
  {
    es[|es| - 1]
  }

  ghost predicate RunFrom(start: State, es: seq<Event>, s: State)
    decreases |es|
  {
    if es == [] then s == start
    else exists p :: RunFrom(start, Front(es), p) && Next(p, Last(es), s)
  }

  ghost predicate Run(es: seq<Event>, s: State) {
    RunFrom(Init, es, s)
  }

  // ---------------------------------------------------------------- the invariant

  /** A thread is registered in `awaiting` exactly while it sleeps or is about to resume. */
  ghost predicate Registered(s: State) {
    forall t: Tid :: AwaitedBy(s.awaiting, t)
      == if t in s.calls && s.calls[t].phase != Entered then Some(s.calls[t].key) else None
  }

  /** How many leases `u` holds, plus its call in progress. */
  function Load(s: State, u: Tid): int {
    |LeasesOf(s.leases, u)| + if u in s.calls then 1 else 0
  }

  /** `engine_nqueued` is the number of leases held plus the reserve call in progress. */
  ghost predicate Counted(s: State) {
    forall t: Tid :: Queued(s.nqueued, t) == Load(s, t)
  }

  /** Nobody sleeps, unsignalled, on a free key. */
  ghost predicate NoLostWakeup(s: State) {
    forall t :: t in s.calls && s.calls[t].phase == Asleep ==> s.calls[t].key in s.leases
  }

  /** The history tells where each live placeholder is and whose, so no two calls or leases share one,
  none of them is a refused one, and a lease belongs to the thread that reserved its placeholder. */
  ghost predicate Fated(s: State) {
    && (forall k :: k in s.leases ==> IsMade(s, s.leases[k].ci, Placeholder(s.leases[k].tid, k, Leased)))
    && (forall t :: t in s.calls ==> IsMade(s, s.calls[t].ci, Placeholder(t, s.calls[t].key, Pending)))
  }

  predicate IsMade(s: State, ci: nat, p: Placeholder) {
    ci < |s.made| && s.made[ci] == p
  }

  predicate IsRefused(s: State, ci: nat) {
    ci < |s.made| && s.made[ci].fate == Refused
  }

  /** Every lease holder fits in `awaiting` (the source calls the other case unreachable). */
  ghost predicate HoldersKnown(s: State) {
    forall k :: k in s.leases ==> s.leases[k].tid < |s.awaiting|
  }

  /** The part of the invariant that does not look at chains or counters. */
  ghost predicate Tracked(s: State) {
    Registered(s) && NoLostWakeup(s) && Fated(s) && HoldersKnown(s)
  }

  ghost predicate Inv(s: State) {
    && Acyclic(s)
    && Tracked(s)
    && Counted(s)
  }

  // ---------------------------------------------------------------- wait chains under change

  lemma EndsMore(leases: map<Key, Lease>, awaiting: seq<Option<Key>>, t: Tid, n: nat, m: nat)
    requires Ends(leases, awaiting, t, n) && n <= m
    ensures Ends(leases, awaiting, t, m)
    decreases n
  {
    var next := WaitsFor(leases, awaiting, t);
    if next.Some? { EndsMore(leases, awaiting, next.value, n - 1, m - 1); }
  }

  /** Removing waits, or making some of them point to a thread that does not wait, keeps
  chains finite. */
  lemma {:induction false} EndsRedirect(leases: map<Key, Lease>, awaiting: seq<Option<Key>>,
                     leases': map<Key, Lease>, awaiting': seq<Option<Key>>, runner: Tid, t: Tid, n: nat)
    requires WaitsFor(leases', awaiting', runner).None?
    requires forall u: Tid :: WaitsFor(leases', awaiting', u) in {WaitsFor(leases, awaiting, u), None, Some(runner)}
    requires Ends(leases, awaiting, t, n)
    ensures Ends(leases', awaiting', t, n + 1)
    decreases n
  {
    var next := WaitsFor(leases', awaiting', t);
    if next.Some? {
      if next.value == runner {
        assert Ends(leases', awaiting', runner, n);
      } else {
        assert next == WaitsFor(leases, awaiting, t);
        EndsRedirect(leases, awaiting, leases', awaiting', runner, next.value, n - 1);
      }
    }
  }

  /** A chain that never meets `t` does not notice that `t` goes to sleep. */
  lemma {:induction false} EndsAvoiding(leases: map<Key, Lease>, awaiting: seq<Option<Key>>, awaiting': seq<Option<Key>>,
                     t: Tid, u: Tid, n: nat)
    requires forall v: Tid :: v != t ==> WaitsFor(leases, awaiting', v) == WaitsFor(leases, awaiting, v)
    requires !Meets(leases, awaiting, u, t, n)
    requires Ends(leases, awaiting, u, n)
    ensures Ends(leases, awaiting', u, n)
    decreases n
  {
    var next := WaitsFor(leases, awaiting, u);
    if next.Some? { EndsAvoiding(leases, awaiting, awaiting', t, next.value, n - 1); }
  }

  /** Putting `t` to sleep behind `holder` lengthens chains through `t` by the chain of `holder`. */
  lemma {:induction false} EndsLinked(leases: map<Key, Lease>, awaiting: seq<Option<Key>>, awaiting': seq<Option<Key>>,
                   t: Tid, holder: Tid, m: nat, u: Tid, n: nat)
    requires forall v: Tid :: v != t ==> WaitsFor(leases, awaiting', v) == WaitsFor(leases, awaiting, v)
    requires WaitsFor(leases, awaiting', t) == Some(holder)
    requires Ends(leases, awaiting', holder, m)
    requires Ends(leases, awaiting, u, n)
    ensures Ends(leases, awaiting', u, n + m + 1)
    decreases n
  {
    if u == t {
      EndsMore(leases, awaiting', holder, m, n + m);
    } else {
      var next := WaitsFor(leases, awaiting, u);
      if next.Some? { EndsLinked(leases, awaiting, awaiting', t, holder, m, next.value, n - 1); }
    }
  }

  lemma AcyclicRedirect(s: State, s': State, runner: Tid)
    requires Acyclic(s)
    requires WaitsFor(s'.leases, s'.awaiting, runner).None?
    requires forall u: Tid :: WaitsFor(s'.leases, s'.awaiting, u) in {WaitsFor(s.leases, s.awaiting, u), None, Some(runner)}
    ensures Acyclic(s')
  {
    forall t: Tid ensures Finite(s'.leases, s'.awaiting, t) {
      assert Finite(s.leases, s.awaiting, t);
      var n: nat :| Ends(s.leases, s.awaiting, t, n);
      EndsRedirect(s.leases, s.awaiting, s'.leases, s'.awaiting, runner, t, n);
    }
  }

  lemma AcyclicSleep(s: State, s': State, t: Tid, key: Key)
    requires Acyclic(s)
    requires key in s.leases && !WouldDeadlock(s, t, key)
    requires s'.leases == s.leases && t < |s.awaiting| && s'.awaiting == s.awaiting[t := Some(key)]
    ensures Acyclic(s')
  {
    var holder := s.leases[key].tid;
    assert Finite(s.leases, s.awaiting, holder);
    var m: nat :| Ends(s.leases, s.awaiting, holder, m);
    EndsAvoiding(s.leases, s.awaiting, s'.awaiting, t, holder, m);
    forall u: Tid ensures Finite(s'.leases, s'.awaiting, u) {
      assert Finite(s.leases, s.awaiting, u);
      var n: nat :| Ends(s.leases, s.awaiting, u, n);
      EndsLinked(s.leases, s.awaiting, s'.awaiting, t, holder, m, u, n);
    }
  }

  // ---------------------------------------------------------------- the invariant is kept

  /** The wait graph with `t` taken off the list, which is where a critical section starts. */
  lemma ResumeAcyclic(s: State, t: Tid)
    requires Acyclic(s)
    ensures Acyclic(s.(awaiting := Grow(s.awaiting, t)[t := None]))
  {
    AcyclicRedirect(s, s.(awaiting := Grow(s.awaiting, t)[t := None]), t);
  }

  lemma AttemptKeepsAcyclic(s: State, t: Tid)
    requires Inv(s) && Enabled(s, Attempt(t))
    ensures Acyclic(AttemptStep(s, t))
  {
    ResumeAcyclic(s, t);
    var s1 := s.(awaiting := Grow(s.awaiting, t)[t := None]);
    var key := s.calls[t].key;
    if key !in s.leases {
      AcyclicRedirect(s1, AttemptStep(s, t), t);
    } else if !WouldDeadlock(s1, t, key) {
      AcyclicSleep(s1, AttemptStep(s, t), t, key);
    }
  }

  lemma NextKeepsAcyclic(s: State, e: Event, s': State)
    requires Inv(s) && Next(s, e, s')
    ensures Acyclic(s')
  {
    match e
    case Enter(_, _) => assert s'.leases == s.leases && s'.awaiting == s.awaiting;
    case Attempt(t) => AttemptKeepsAcyclic(s, t);
    case Fulfill(t, _) =>
      assert AwaitedBy(s'.awaiting, t).None?;
      AcyclicRedirect(s, s', t);
    case Sweep(_) =>
      var t := |s.awaiting|;
      AcyclicRedirect(s, s', t);
  }

  lemma EnterKeepsTracked(s: State, t: Tid, key: Key)
    requires Tracked(s) && Enabled(s, Enter(t, key))
    ensures Tracked(EnterStep(s, t, key))
  {
  }

  lemma AttemptKeepsRegistered(s: State, t: Tid)
    requires Registered(s) && Enabled(s, Attempt(t))
    ensures Registered(AttemptStep(s, t))
  {
    var s' := AttemptStep(s, t);
    forall u: Tid ensures AwaitedBy(s'.awaiting, u)
      == if u in s'.calls && s'.calls[u].phase != Entered then Some(s'.calls[u].key) else None
    {
      if u != t { assert AwaitedBy(s'.awaiting, u) == AwaitedBy(s.awaiting, u); }
    }
  }

  lemma AttemptKeepsFated(s: State, t: Tid)
    requires Fated(s) && Enabled(s, Attempt(t))
    ensures Fated(AttemptStep(s, t))
  {
    var s' := AttemptStep(s, t);
    assert IsMade(s, s.calls[t].ci, Placeholder(t, s.calls[t].key, Pending));
    forall k | k in s'.leases ensures IsMade(s', s'.leases[k].ci, Placeholder(s'.leases[k].tid, k, Leased)) {
      if k in s.leases { assert IsMade(s, s.leases[k].ci, Placeholder(s.leases[k].tid, k, Leased)); }
    }
    forall u | u in s'.calls ensures IsMade(s', s'.calls[u].ci, Placeholder(u, s'.calls[u].key, Pending)) {
      assert IsMade(s, s.calls[u].ci, Placeholder(u, s.calls[u].key, Pending));
    }
  }

  lemma AttemptKeepsTracked(s: State, t: Tid)
    requires Tracked(s) && Enabled(s, Attempt(t))
    ensures Tracked(AttemptStep(s, t))
  {
    hide Registered, Fated, Grow, Bump, WouldDeadlock;
    AttemptKeepsRegistered(s, t);
    AttemptKeepsFated(s, t);
  }

  /** Dropping leases is harmless if everybody is woken up. */
  lemma DropKeepsTracked(s: State, gone: set<Key>, s': State)
    requires Tracked(s)
    requires s' == s.(leases := s.leases - gone, nqueued := s'.nqueued, calls := Wake(s.calls))
    ensures Tracked(s')
  {
  }

  lemma NextKeepsTracked(s: State, e: Event, s': State)
    requires Inv(s) && Next(s, e, s')
    ensures Tracked(s')
  {
    match e {
      case Enter(t, key) => EnterKeepsTracked(s, t, key);
      case Attempt(t) => AttemptKeepsTracked(s, t);
      case Fulfill(t, ci) => if s' != s { DropKeepsTracked(s, {s.made[ci].key}, s'); }
      case Sweep(dead) =>
        if DeadKeys(s.leases, dead) != {} {
          DropKeepsTracked(s, DeadKeys(s.leases, dead), s');
        } else {
          assert s'.leases == s.leases;
        }
    }
  }

  lemma AttemptKeepsCount(s: State, t: Tid, u: Tid)
    requires Counted(s) && Enabled(s, Attempt(t))
    ensures Queued(AttemptStep(s, t).nqueued, u) == Load(AttemptStep(s, t), u)
  {
    hide Grow, WouldDeadlock;
    var key := s.calls[t].key;
    assert Queued(s.nqueued, u) == Load(s, u);
    assert LeasesOf(AttemptStep(s, t).leases, u)
        == LeasesOf(s.leases, u) + if key !in s.leases && u == t then {key} else {};
  }

  /** What jl_engine_fulfill asserts: the caller holds the lease that it found. */
  lemma FulfillerHolds(s: State, t: Tid, ci: nat)
    requires Fated(s) && Enabled(s, Fulfill(t, ci))
    ensures var key := s.made[ci].key; key in s.leases && s.leases[key].ci == ci ==> s.leases[key].tid == t
  {
    var key := s.made[ci].key;
    if key in s.leases { assert IsMade(s, s.leases[key].ci, Placeholder(s.leases[key].tid, key, Leased)); }
  }

  lemma FulfillKeepsCount(s: State, t: Tid, ci: nat, u: Tid)
    requires Counted(s) && Fated(s) && Enabled(s, Fulfill(t, ci))
    ensures Queued(FulfillStep(s, t, ci).nqueued, u) == Load(FulfillStep(s, t, ci), u)
  {
    hide Fated;
    FulfillerHolds(s, t, ci);
    assert Queued(s.nqueued, u) == Load(s, u);
    var key := s.made[ci].key;
    if key in s.leases && s.leases[key].ci == ci { DropOne(s.leases, key, u); }
  }

  lemma DropOne(leases: map<Key, Lease>, key: Key, u: Tid)
    requires key in leases
    ensures |LeasesOf(leases - {key}, u)| == |LeasesOf(leases, u)| - if leases[key].tid == u then 1 else 0
  {
    assert LeasesOf(leases - {key}, u) == LeasesOf(leases, u) - {key};
  }

  lemma SweepKeepsCount(s: State, dead: set<nat>, s': State, u: Tid)
    requires Counted(s) && s' == SweepStep(s, dead, s'.nqueued) && SweptCounts(s, dead, s'.nqueued)
    ensures Queued(s'.nqueued, u) == Load(s', u)
  {
    var gone := DeadKeys(s.leases, dead);
    assert Queued(s.nqueued, u) == Load(s, u);
    assert LeasesOf(s.leases - gone, u) == LeasesOf(s.leases, u) - gone * LeasesOf(s.leases, u);
  }

  lemma NextKeepsCounted(s: State, e: Event, s': State)
    requires Inv(s) && Next(s, e, s')
    ensures Counted(s')
  {
    forall u: Tid ensures Queued(s'.nqueued, u) == Load(s', u) {
      match e {
        case Enter(t, key) => assert Queued(s.nqueued, u) == Load(s, u);
        case Attempt(t) => AttemptKeepsCount(s, t, u);
        case Fulfill(t, ci) => FulfillKeepsCount(s, t, ci, u);
        case Sweep(dead) => SweepKeepsCount(s, dead, s', u);
      }
    }
  }

  lemma NextKeepsInv(s: State, e: Event, s': State)
    requires Inv(s) && Next(s, e, s')
    ensures Inv(s')
  {
    NextKeepsAcyclic(s, e, s');
    NextKeepsTracked(s, e, s');
    NextKeepsCounted(s, e, s');
  }

  /** A critical section is a step, and keeps the invariant. */
  lemma AttemptTaken(s: State, t: Tid)
    requires Inv(s) && t in s.calls
    ensures Enabled(s, Attempt(t))
    ensures Next(s, Attempt(t), AttemptStep(s, t)) && Inv(AttemptStep(s, t))
  {
    assert IsMade(s, s.calls[t].ci, Placeholder(t, s.calls[t].key, Pending));
    NextKeepsInv(s, Attempt(t), AttemptStep(s, t));
  }

  // ---------------------------------------------------------------- main results

  /** Safety over all runs: whatever the interleaving, the invariant holds. */
  lemma {:induction false} RunsKeepInv(es: seq<Event>, s: State)
    requires Run(es, s)
    ensures Inv(s)
    decreases |es|
  {
    if es == [] {
      forall t: Tid ensures Finite(s.leases, s.awaiting, t) {
        assert Ends(s.leases, s.awaiting, t, 0);
      }
    } else {
      var p :| RunFrom(Init, Front(es), p) && Next(p, Last(es), s);
      RunsKeepInv(Front(es), p);
      NextKeepsInv(p, Last(es), s);
    }
  }

  /** The thread at the end of the wait chain of `t`. */
  ghost function ChainEnd(s: State, t: Tid, n: nat): Tid
    requires Ends(s.leases, s.awaiting, t, n)
    decreases n
  {
    var next := WaitsFor(s.leases, s.awaiting, t);
    if next.None? then t else ChainEnd(s, next.value, n - 1)
  }

  /** Every wait chain ends at a thread that can make progress: it is not registered as
  waiting, or its key is free and the wake-up has been sent. */
  lemma {:induction false} ChainEndProgresses(s: State, t: Tid, n: nat)
    requires Inv(s) && Ends(s.leases, s.awaiting, t, n)
    ensures var u := ChainEnd(s, t, n);
      || AwaitedBy(s.awaiting, u).None?
      || (u in s.calls && s.calls[u].phase == Signalled && s.calls[u].key !in s.leases)
    decreases n
  {
    var next := WaitsFor(s.leases, s.awaiting, t);
    if next.Some? { ChainEndProgresses(s, next.value, n - 1); }
  }

  /** `t` sleeps on a lease held by a member of `group`. */
  ghost predicate BlockedInside(s: State, group: set<Tid>, t: Tid) {
    t in s.calls && s.calls[t].phase == Asleep && s.calls[t].key in s.leases && s.leases[s.calls[t].key].tid in group
  }

  /** No run reaches a state where the threads of a group all sleep on leases held inside the group. */
  lemma NoDeadlock(es: seq<Event>, s: State, group: set<Tid>)
    requires Run(es, s)
    requires group != {}
    ensures exists t :: t in group && !BlockedInside(s, group, t)
  {
    RunsKeepInv(es, s);
    if forall t :: t in group ==> BlockedInside(s, group, t) {
      var t :| t in group;
      assert Finite(s.leases, s.awaiting, t);
      var n: nat :| Ends(s.leases, s.awaiting, t, n);
      ChainStaysIn(s, group, t, n);
    }
  }

  lemma {:induction false} ChainStaysIn(s: State, group: set<Tid>, t: Tid, n: nat)
    requires Registered(s) && t in group
    requires forall u :: u in group ==> BlockedInside(s, group, u)
    ensures !Ends(s.leases, s.awaiting, t, n)
    decreases n
  {
    assert BlockedInside(s, group, t);
    assert AwaitedBy(s.awaiting, t) == Some(s.calls[t].key);
    if n > 0 { ChainStaysIn(s, group, s.leases[s.calls[t].key].tid, n - 1); }
  }

  lemma RefusedStays(s: State, e: Event, s': State, ci: nat)
    requires Inv(s) && Next(s, e, s') && IsRefused(s, ci)
    ensures IsRefused(s', ci)
  {
    if e.Attempt? {
      var call := s.calls[e.t];
      assert IsMade(s, call.ci, Placeholder(e.t, call.key, Pending));
    }
  }

  /** The invariant goes on to hold, and a refused placeholder stays one. */
  lemma {:induction false} RefusedForever(start: State, es: seq<Event>, s: State, ci: nat)
    requires Inv(start) && IsRefused(start, ci) && RunFrom(start, es, s)
    ensures Inv(s) && IsRefused(s, ci)
    decreases |es|
  {
    if es != [] {
      var p :| RunFrom(start, Front(es), p) && Next(p, Last(es), s);
      RefusedForever(start, Front(es), p, ci);
      NextKeepsInv(p, Last(es), s);
      RefusedStays(p, Last(es), s, ci);
    }
  }

  /** A placeholder that came back from cycle breaking never releases anything, now or after any further
  run, whoever fulfills it. */
  lemma BrokenPlaceholderIsInert(es: seq<Event>, s: State, ci: nat, more: seq<Event>, s': State, t: Tid)
    requires Run(es, s) && IsRefused(s, ci)
    requires RunFrom(s, more, s')
    ensures IsRefused(s', ci) && FulfillStep(s', t, ci) == s'
  {
    RunsKeepInv(es, s);
    RefusedForever(s, more, s', ci);
    var key := s'.made[ci].key;
    if key in s'.leases { assert IsMade(s', s'.leases[key].ci, Placeholder(s'.leases[key].tid, key, Leased)); }
  }

  /** In any run, fulfilling releases the lease that was inserted with the placeholder, if it is still
  there, which the caller holds itself; the leases and counters of all others stay.  If it was there,
  everybody who sleeps is woken. */
  lemma FulfillReleasesOwn(es: seq<Event>, s: State, t: Tid, ci: nat, s': State)
    requires Run(es, s)
    requires Next(s, Fulfill(t, ci), s')
    ensures forall k :: k in s'.leases <==> k in s.leases && s.leases[k].ci != ci
    ensures forall k :: k in s'.leases ==> s'.leases[k] == s.leases[k]
    ensures forall k :: k in s.leases && s.leases[k].ci == ci ==> s.leases[k].tid == t
    ensures forall u :: u != t ==> LeasesOf(s'.leases, u) == LeasesOf(s.leases, u) && Queued(s'.nqueued, u) == Queued(s.nqueued, u)
    ensures (exists k :: k in s.leases && s.leases[k].ci == ci) ==>
      Queued(s'.nqueued, t) == Queued(s.nqueued, t) - 1 && AllWoken(s, s')
    ensures (forall k :: k in s.leases ==> s.leases[k].ci != ci) ==> s' == s
  {
    RunsKeepInv(es, s);
    FulfillerHolds(s, t, ci);
    forall k | k in s.leases && s.leases[k].ci == ci ensures k == s.made[ci].key {
      assert IsMade(s, s.leases[k].ci, Placeholder(s.leases[k].tid, k, Leased));
    }
  }

  /** The same calls are in progress, and those that slept are about to resume. */
  ghost predicate AllWoken(s: State, s': State) {
    && s'.calls.Keys == s.calls.Keys
    && forall t :: t in s.calls ==>
         s'.calls[t] == if s.calls[t].phase == Asleep then s.calls[t].(phase := Signalled) else s.calls[t]
  }

  /** The keys that t holds with a dead placeholder. */
  function DeadOf(s: State, t: Tid, dead: set<nat>): (ks: set<Key>)
    ensures forall k :: k in ks <==> k in s.leases && s.leases[k].tid == t && s.leases[k].ci in dead
  {
    set k | k in s.leases && s.leases[k].tid == t && s.leases[k].ci in dead
  }

  /** A sweep drops exactly the leases whose placeholder is dead.  Each thread's counter drops by the
  number of its leases among them, and everybody who sleeps is woken if there was one. */
  lemma SweepDropsTheDead(s: State, dead: set<nat>, s': State)
    requires Next(s, Sweep(dead), s')
    ensures forall k :: k in s'.leases <==> k in s.leases && s.leases[k].ci !in dead
    ensures forall k :: k in s'.leases ==> s'.leases[k] == s.leases[k]
    ensures forall t: Tid :: Queued(s'.nqueued, t) == Queued(s.nqueued, t) - |DeadOf(s, t, dead)|
    ensures (forall k :: k in s.leases ==> s.leases[k].ci !in dead) ==> s'.calls == s.calls
    ensures (exists k :: k in s.leases && s.leases[k].ci in dead) ==> AllWoken(s, s')
    ensures s'.awaiting == s.awaiting && s'.made == s.made
  {
    forall t: Tid ensures Queued(s'.nqueued, t) == Queued(s.nqueued, t) - |DeadOf(s, t, dead)| {
      assert DeadKeys(s.leases, dead) * LeasesOf(s.leases, t) == DeadOf(s, t, dead);
    }
    if k :| k in s.leases && s.leases[k].ci in dead {
      assert k in DeadKeys(s.leases, dead);
    } else {
      assert DeadKeys(s.leases, dead) == {};
    }
  }

  /** A call of jl_engine_reserve is counted before it tries to get its lease, with a placeholder of its own
  for just the key it asks for. */
  lemma EnterCounts(s: State, t: Tid, key: Key, s': State)
    requires Next(s, Enter(t, key), s')
    ensures s'.calls == s.calls[t := Call(key, |s.made|, Entered)] && s'.made == s.made + [Placeholder(t, key, Pending)]
    ensures forall u: Tid :: Queued(s'.nqueued, u) == Queued(s.nqueued, u) + if u == t then 1 else 0
    ensures s'.leases == s.leases && s'.awaiting == s.awaiting
  {
  }

  /** How a critical section of jl_engine_reserve ends: with the lease if its key is free; otherwise asleep,
  registered, unless just that would make some chain of waits endless; and in that case without a lease,
  uncounted. */
  lemma AttemptOutcomes(es: seq<Event>, s: State, t: Tid, s': State)
    requires Run(es, s)
    requires Next(s, Attempt(t), s')
    ensures var call := s.calls[t];
      if call.key !in s.leases then
        && s'.leases == s.leases[call.key := Lease(t, call.ci)] && t !in s'.calls
        && s'.nqueued == s.nqueued && s'.made[call.ci].fate == Leased
      else
        && s'.leases == s.leases
        && if Acyclic(Sleeping(s, t)) then
             t in s'.calls && s'.calls[t].phase == Asleep && AwaitedBy(s'.awaiting, t) == Some(call.key) && s'.nqueued == s.nqueued
           else
             t !in s'.calls && AwaitedBy(s'.awaiting, t) == None && IsRefused(s', call.ci)
             && Queued(s'.nqueued, t) == Queued(s.nqueued, t) - 1
    ensures forall u: Tid :: u != t ==>
      && AwaitedBy(s'.awaiting, u) == AwaitedBy(s.awaiting, u) && Queued(s'.nqueued, u) == Queued(s.nqueued, u)
      && (u in s'.calls <==> u in s.calls) && (u in s.calls ==> s'.calls[u] == s.calls[u])
  {
    RunsKeepInv(es, s);
    ResumeAcyclic(s, t);
    var s1 := s.(awaiting := Grow(s.awaiting, t)[t := None]);
    var key := s.calls[t].key;
    if key in s.leases {
      if WouldDeadlock(s1, t, key) {
        CycleIfSlept(s1, Sleeping(s, t), t, key);
      } else {
        AcyclicSleep(s1, Sleeping(s, t), t, key);
      }
    }
  }

  /** What s would be if t went to sleep now. */
  function Sleeping(s: State, t: Tid): State
    requires t in s.calls
  {
    s.(awaiting := Grow(s.awaiting, t)[t := Some(s.calls[t].key)])
  }

  /** The walk gives up only where sleeping would have closed a cycle. */
  lemma CycleIfSlept(s: State, s': State, t: Tid, key: Key)
    requires WouldDeadlock(s, t, key) && t < |s.awaiting|
    requires s'.leases == s.leases && s'.awaiting == s.awaiting[t := Some(key)]
    ensures !Acyclic(s')
  {
    if Acyclic(s') {
      assert Finite(s'.leases, s'.awaiting, t);
      var n: nat :| Ends(s'.leases, s'.awaiting, t, n);
      LoopsForever(s, s', t, key, t, 0, n);
      assert false;
    }
  }

  /** Where a chain meets t, which now waits for `holder`, from where the chain leads to t again. */
  lemma {:induction false} LoopsForever(s: State, s': State, t: Tid, key: Key, u: Tid, m: nat, n: nat)
    requires WouldDeadlock(s, t, key) && t < |s.awaiting|
    requires s'.leases == s.leases && s'.awaiting == s.awaiting[t := Some(key)]
    requires Meets(s.leases, s.awaiting, u, t, m)
    ensures !Ends(s'.leases, s'.awaiting, u, n)
    decreases n, m
  {
    if n > 0 {
      if u == t {
        var holder := s.leases[key].tid;
        var k: nat :| Meets(s.leases, s.awaiting, holder, t, k);
        LoopsForever(s, s', t, key, holder, k, n - 1);
      } else {
        var next := WaitsFor(s.leases, s.awaiting, u);
        assert WaitsFor(s'.leases, s'.awaiting, u) == next;
        LoopsForever(s, s', t, key, next.value, m - 1, n - 1);
      }
    }
  }

  /** While a thread neither holds a lease nor reserves one, its counter is back at zero. */
  lemma CounterReturnsToZero(es: seq<Event>, s: State, t: Tid)
    requires Run(es, s)
    ensures Queued(s.nqueued, t) == 0 <==> LeasesOf(s.leases, t) == {} && t !in s.calls
    ensures Queued(s.nqueued, t) >= 0
  {
    RunsKeepInv(es, s);
  }
}
