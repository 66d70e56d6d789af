/** The elastic worker pool of add_output (src/aotcompile.cpp) as a state machine. */
module PoolProtocol {

  /* One baseline worker is free of charge; every further worker is paid for with a token of a
  semaphore shared with sibling processes.  The steps are the atomic actions of the program: one
  trywait, one fetch_add, one critical section of pool_mutex, one spawned thread. */

  /** threads: the number of partitions, and the most workers there may be; tokens: the budget. */
  datatype Config = Config(threads: nat, jobserver: bool, tokens: nat)

  datatype Worker =
    | Unborn
    | Claiming               // about to fetch_add the partition counter
    | Compiling(i: nat)
    | Leaving                // out of work, before its critical section
    | Gone

  /** Where the main thread stands. */
  datatype Boss =
    | Starting(got: nat, refused: bool)             // first acquire, before the pool exists
    | Polling
    | Acquiring(want: nat, got: nat, refused: bool) // acquire, with `got` tokens in hand
    | Crediting(got: nat)            // before the critical section that books them
    | Spawning(left: nat)
    | Joining
    | Finished

  datatype Claim = Claim(worker: nat, partition: nat)

  datatype State = State(
    free: nat,            // the semaphore
    outside: nat,         // tokens held by sibling processes
    held: nat,
    live: nat,
    spawned: nat,
    next: nat,            // next_partition
    workers: seq<Worker>,
    boss: Boss,
    log: seq<Claim>,      // history of the successful claims
    outputs: set<nat>     // the partitions compiled so far
  )

  function Min(a: nat, b: nat): nat { if a <= b then a else b }

  /** Workers that were spawned and are not gone. */
  function Busy(workers: seq<Worker>): nat {
    if workers == [] then 0 else
      Busy(workers[..|workers| - 1]) + if workers[|workers| - 1] in {Unborn, Gone} then 0 else 1
  }

  /** Tokens taken from the semaphore and not yet booked. */
  function InTransit(b: Boss): nat {
    match b
    case Starting(got, _) => got
    case Acquiring(_, got, _) => got
    case Crediting(got) => got
    case _ => 0
  }

  /** Booked threads that are still to be spawned. */
  function Pending(b: Boss): nat {
    if b.Spawning? then b.left else 0
  }

  function Nobody(n: nat): (r: seq<Worker>)
    ensures |r| == n && forall t :: 0 <= t < n ==> r[t] == Unborn
  {
    if n == 0 then [] else Nobody(n - 1) + [Unborn]
  }

  predicate Initial(c: Config, s: State) {
    && c.threads > 0
    && s.free + s.outside == c.tokens
    && s == State(s.free, s.outside, 0, 0, 0, 0, Nobody(c.threads), Starting(0, false), [], {})
  }

  datatype Event =
    | Begin          // no jobserver: the pool is one thread per partition
    | Take           // a trywait that succeeds
    | Refuse         // a trywait that fails, for want of tokens or for another reason
    | EndTake        // acquire returns: a trywait failed, or there are enough tokens
    | Credit
    | Spawn
    | EndSpawn
    | Poll
    | Join
    | Fetch(t: nat)   // fetch_add by worker t
    | Output(t: nat)  // worker t finishes a partition
    | Leave(t: nat)   // the last critical section of worker t
    | SiblingTakes
    | SiblingReturns

  /** acquire is about to call trywait: none has failed yet, and there are too few tokens. */
  predicate Asks(c: Config, b: Boss) {
    && c.jobserver && (b.Starting? || b.Acquiring?)
    && !b.refused && b.got < (if b.Starting? then c.threads - 1 else b.want)
  }

  predicate Enabled(c: Config, s: State, e: Event) {
    match e
    case Begin => s.boss.Starting? && !c.jobserver
    case Take => Asks(c, s.boss) && s.free > 0
    case Refuse => Asks(c, s.boss)
    case EndTake => c.jobserver && (s.boss.Starting? || s.boss.Acquiring?) && !Asks(c, s.boss)
    case Credit => s.boss.Crediting?
    case Spawn => s.boss.Spawning? && s.boss.left > 0 && s.spawned < |s.workers|
    case EndSpawn => s.boss.Spawning? && s.boss.left == 0
    case Poll => s.boss.Polling?
    case Join => s.boss.Joining? && forall t :: 0 <= t < |s.workers| && t < s.spawned ==> s.workers[t] == Gone
    case Fetch(t) => t < |s.workers| && s.workers[t] == Claiming
    case Output(t) => t < |s.workers| && s.workers[t].Compiling?
    case Leave(t) => t < |s.workers| && s.workers[t] == Leaving && s.live > 0
    case SiblingTakes => s.free > 0
    case SiblingReturns => s.outside > 0
  }

  function Step(c: Config, s: State, e: Event): State
    requires Enabled(c, s, e)
  {
    match e
    case Begin => s.(live := c.threads, boss := Spawning(c.threads))
    case Take => s.(free := s.free - 1, boss := s.boss.(got := s.boss.got + 1))
    case Refuse => s.(boss := s.boss.(refused := true))
    case EndTake =>
      if s.boss.Starting? then s.(held := s.boss.got, live := 1 + s.boss.got, boss := Spawning(1 + s.boss.got))
      else if s.boss.got > 0 then s.(boss := Crediting(s.boss.got))
      else s.(boss := Polling)
    case Credit => s.(held := s.held + s.boss.got, live := s.live + s.boss.got, boss := Spawning(s.boss.got))
    case Spawn =>
      s.(workers := s.workers[s.spawned := Claiming], spawned := s.spawned + 1, boss := Spawning(s.boss.left - 1))
    case EndSpawn => s.(boss := Polling)
    case Poll =>
      if !c.jobserver || s.spawned >= c.threads || s.next >= c.threads then s.(boss := Joining)
      else s.(boss := Acquiring(Min(c.threads - s.next, c.threads - s.spawned), 0, false))
    case Join => s.(boss := Finished)
    case Fetch(t) =>
      if s.next >= c.threads then s.(next := s.next + 1, workers := s.workers[t := Leaving])
      else s.(next := s.next + 1, workers := s.workers[t := Compiling(s.next)], log := s.log + [Claim(t, s.next)])
    case Output(t) => s.(workers := s.workers[t := Claiming], outputs := s.outputs + {s.workers[t].i})
    case Leave(t) =>
      var s1 := s.(workers := s.workers[t := Gone]);
      if !c.jobserver then s1
      else if s.held > 0 && s.held >= s.live - 1 then s1.(live := s.live - 1, held := s.held - 1, free := s.free + 1)
      else s1.(live := s.live - 1)
    case SiblingTakes => s.(free := s.free - 1, outside := s.outside + 1)
    case SiblingReturns => s.(free := s.free + 1, outside := s.outside - 1)
  }

  ghost predicate Leads(c: Config, s: State, e: Event, s': State) {
    Enabled(c, s, e) && s' == Step(c, s, e)
  }

  function Front(es: seq<Event>): seq<Event>
    requires es != []
  {
    es[..|es| - 1]
  }

  function Last(es: seq<Event>): Event
    requires es != []
  {
    es[|es| - 1]
  }

  /** es leads from an initial state to s. */
  ghost predicate Run(c: Config, es: seq<Event>, s: State)
    decreases |es|
  {
    if es == [] then Initial(c, s)
    else exists before :: Run(c, Front(es), before) && Leads(c, before, Last(es), s)
  }

  // ---------------------------------------------------------------- the invariant

  /** Workers below `spawned` were spawned, and there is room for those that are paid for. */
  ghost predicate Sized(c: Config, s: State) {
    && |s.workers| == c.threads > 0
    && (forall t :: 0 <= t < |s.workers| ==> (s.workers[t] == Unborn <==> t >= s.spawned))
    && s.spawned + Pending(s.boss) <= c.threads
    && match s.boss
       case Starting(got, _) => s.spawned == 0 && got <= c.threads - 1
       case Acquiring(want, got, _) => s.spawned > 0 && got <= want && s.spawned + want <= c.threads
       case Crediting(got) => s.spawned > 0 && s.spawned + got <= c.threads
       case _ => s.spawned + Pending(s.boss) > 0
  }

  /** Tokens are neither made nor lost. */
  ghost predicate Conserved(c: Config, s: State) {
    s.free + s.outside + s.held + InTransit(s.boss) == c.tokens
  }

  /** One token for every live worker but the first. */
  ghost predicate Paid(c: Config, s: State) {
    if s.boss.Starting? then s.held == 0 && s.live == 0 && (c.jobserver || s.boss.got == 0)
    else if c.jobserver then s.live == Busy(s.workers) + Pending(s.boss) && s.held <= s.live <= s.held + 1
    else s.held == 0 && s.live == c.threads == s.spawned + Pending(s.boss) && !s.boss.Acquiring? && !s.boss.Crediting?
  }

  /** The claims are those of the partitions below the counter, in order. */
  ghost predicate Logged(c: Config, s: State) {
    && |s.log| == Min(s.next, c.threads)
    && (forall k :: 0 <= k < |s.log| ==> s.log[k].partition == k && s.log[k].worker < |s.workers|)
  }

  /** A claimed partition is compiled, or its worker is at it and at nothing else. */
  ghost predicate Attended(s: State) {
    && (forall i :: i in s.outputs ==> i < |s.log|)
    && (forall i: nat :: i < |s.log| && i !in s.outputs ==> s.log[i].worker < |s.workers| && s.workers[s.log[i].worker] == Compiling(i))
    && (forall t :: 0 <= t < |s.workers| && s.workers[t].Compiling? ==>
          s.workers[t].i < |s.log| && s.log[s.workers[t].i].worker == t && s.workers[t].i !in s.outputs)
  }

  /** Workers only leave when every partition is claimed. */
  ghost predicate LeavingLate(c: Config, s: State) {
    && (forall t :: 0 <= t < |s.workers| && s.workers[t] in {Leaving, Gone} ==> s.next >= c.threads)
    && (s.boss == Finished ==> forall t :: 0 <= t < |s.workers| && t < s.spawned ==> s.workers[t] == Gone)
  }

  ghost predicate Inv(c: Config, s: State) {
    Sized(c, s) && Conserved(c, s) && Paid(c, s) && Logged(c, s) && Attended(s) && LeavingLate(c, s)
  }

  // ---------------------------------------------------------------- counting workers

  function One(w: Worker): nat { if w in {Unborn, Gone} then 0 else 1 }

  lemma {:induction false} BusyUpdate(workers: seq<Worker>, t: nat, w: Worker)
    requires t < |workers|
    ensures Busy(workers[t := w]) == Busy(workers) - One(workers[t]) + One(w)
  {
    var n := |workers| - 1;
    if t < n {
      assert workers[t := w][..n] == workers[..n][t := w];
      BusyUpdate(workers[..n], t, w);
    } else {
      assert workers[t := w][..n] == workers[..n];
    }
  }

  lemma {:induction false} BusyNone(workers: seq<Worker>)
    requires forall t :: 0 <= t < |workers| ==> One(workers[t]) == 0
    ensures Busy(workers) == 0
  {
    if workers != [] { BusyNone(workers[..|workers| - 1]); }
  }

  lemma {:induction false} BusySome(workers: seq<Worker>, t: nat)
    requires t < |workers| && One(workers[t]) == 1
    ensures Busy(workers) >= 1
  {
    if t < |workers| - 1 { BusySome(workers[..|workers| - 1], t); }
  }

  // ---------------------------------------------------------------- every step keeps the invariant

  lemma StepSized(c: Config, s: State, e: Event)
    requires Sized(c, s) && Enabled(c, s, e)
    ensures Sized(c, Step(c, s, e))
  {
  }

  lemma StepConserved(c: Config, s: State, e: Event)
    requires Conserved(c, s) && Paid(c, s) && Enabled(c, s, e)
    ensures Conserved(c, Step(c, s, e))
  {
  }

  lemma BossPaid(c: Config, s: State, e: Event)
    requires Paid(c, s) && Enabled(c, s, e)
    requires e in {Take, Refuse, Credit, EndSpawn, Poll, Join, SiblingTakes, SiblingReturns}
    ensures Paid(c, Step(c, s, e))
  {
  }

  /** The pool opens: nobody works yet. */
  lemma OpenPaid(c: Config, s: State, e: Event)
    requires Sized(c, s) && Paid(c, s) && Enabled(c, s, e) && e in {Begin, EndTake}
    ensures Paid(c, Step(c, s, e))
  {
    if s.boss.Starting? { BusyNone(s.workers); }
  }

  lemma SpawnPaid(c: Config, s: State)
    requires Sized(c, s) && Paid(c, s) && Enabled(c, s, Spawn)
    ensures Paid(c, Step(c, s, Spawn))
  {
    BusyUpdate(s.workers, s.spawned, Claiming);
  }

  /** A worker that goes on working costs what it did. */
  lemma WorkerPaid(c: Config, s: State, e: Event, t: nat)
    requires Paid(c, s) && Enabled(c, s, e) && (e == Fetch(t) || e == Output(t))
    ensures Paid(c, Step(c, s, e))
  {
    BusyUpdate(s.workers, t, Step(c, s, e).workers[t]);
  }

  lemma LeavePaid(c: Config, s: State, t: nat)
    requires Paid(c, s) && Enabled(c, s, Leave(t))
    ensures Paid(c, Step(c, s, Leave(t)))
  {
    BusyUpdate(s.workers, t, Gone);
    BusySome(s.workers, t);
  }

  lemma StepPaid(c: Config, s: State, e: Event)
    requires Sized(c, s) && Paid(c, s) && Enabled(c, s, e)
    ensures Paid(c, Step(c, s, e))
  {
    hide Sized, Paid, Enabled, Step, Busy;
    match e
    case Begin => OpenPaid(c, s, e);
    case EndTake => OpenPaid(c, s, e);
    case Spawn => SpawnPaid(c, s);
    case Fetch(t) => WorkerPaid(c, s, e, t);
    case Output(t) => WorkerPaid(c, s, e, t);
    case Leave(t) => LeavePaid(c, s, t);
    case _ => BossPaid(c, s, e);
  }

  lemma StepLogged(c: Config, s: State, e: Event)
    requires Sized(c, s) && Logged(c, s) && Enabled(c, s, e)
    ensures Logged(c, Step(c, s, e))
  {
  }

  lemma FetchAttended(s: State, t: nat, threads: nat)
    requires Attended(s) && t < |s.workers| && s.workers[t] == Claiming && |s.log| == s.next < threads
    ensures Attended(s.(next := s.next + 1, workers := s.workers[t := Compiling(s.next)], log := s.log + [Claim(t, s.next)]))
  {
  }

  lemma OutputAttended(s: State, t: nat)
    requires Attended(s) && t < |s.workers| && s.workers[t].Compiling?
    ensures Attended(s.(workers := s.workers[t := Claiming], outputs := s.outputs + {s.workers[t].i}))
  {
  }

  /** Attended only depends on the log, the outputs, and the workers that are compiling. */
  lemma OtherAttended(s: State, s': State)
    requires Attended(s) && s'.log == s.log && s'.outputs == s.outputs && |s'.workers| == |s.workers|
    requires forall t :: 0 <= t < |s.workers| && (s.workers[t].Compiling? || s'.workers[t].Compiling?) ==> s'.workers[t] == s.workers[t]
    ensures Attended(s')
  {
  }

  lemma StepAttended(c: Config, s: State, e: Event)
    requires Sized(c, s) && Logged(c, s) && Attended(s) && Enabled(c, s, e)
    ensures Attended(Step(c, s, e))
  {
    hide Attended, Sized;
    if e.Fetch? && s.next < c.threads {
      FetchAttended(s, e.t, c.threads);
    } else if e.Output? {
      OutputAttended(s, e.t);
    } else {
      SpawnsUnborn(c, s);
      OtherAttended(s, Step(c, s, e));
    }
  }

  lemma SpawnsUnborn(c: Config, s: State)
    requires Sized(c, s)
    ensures s.spawned < |s.workers| ==> s.workers[s.spawned] == Unborn
  {
  }

  lemma StepLeavesLate(c: Config, s: State, e: Event)
    requires Sized(c, s) && LeavingLate(c, s) && Enabled(c, s, e)
    ensures LeavingLate(c, Step(c, s, e))
  {
  }

  lemma StepKeepsInv(c: Config, s: State, e: Event)
    requires Inv(c, s) && Enabled(c, s, e)
    ensures Inv(c, Step(c, s, e))
  {
    hide Sized, Conserved, Paid, Logged, Attended, LeavingLate, Step, Enabled;
    StepSized(c, s, e);
    StepConserved(c, s, e);
    StepPaid(c, s, e);
    StepLogged(c, s, e);
    StepAttended(c, s, e);
    StepLeavesLate(c, s, e);
  }

  lemma {:induction false} RunsKeepInv(c: Config, es: seq<Event>, s: State)
    requires Run(c, es, s)
    ensures Inv(c, s)
    decreases |es|
  {
    if es != [] {
      var before :| Run(c, Front(es), before) && Leads(c, before, Last(es), s);
      RunsKeepInv(c, Front(es), before);
      StepKeepsInv(c, before, Last(es));
    }
  }

  // ---------------------------------------------------------------- what this means for runs

  /** With a jobserver the booked threads are the workers that exist or are about to be spawned; all
  but one of them are paid for, and at most one token is surplus. */
  lemma HeldFollowsLive(c: Config, es: seq<Event>, s: State)
    requires Run(c, es, s) && c.jobserver && !s.boss.Starting?
    ensures s.held <= s.live <= s.held + 1
    ensures Busy(s.workers) + Pending(s.boss) == s.live
    ensures s.free + s.outside + s.held + InTransit(s.boss) == c.tokens
  {
    RunsKeepInv(c, es, s);
  }

  /** A worker that leaves gives back a token if the workers that stay do not need it: where one token was
  held for every worker but one, that is so again, and with nobody left none is held. */
  lemma LeaverPaysBack(c: Config, s: State, t: nat)
    requires c.jobserver && Enabled(c, s, Leave(t)) && s.held <= s.live <= s.held + 1
    ensures var s' := Step(c, s, Leave(t));
      && s'.live == s.live - 1
      && s'.held == (if s.held + 1 == s.live then (if s'.live == 0 then 0 else s'.live - 1) else s.held - 1)
      && s'.free + s'.held == s.free + s.held
  {
  }

  /** A run, and whether in it tokens were ever credited to a pool that had no worker left. */
  ghost predicate RunNoting(c: Config, es: seq<Event>, s: State, late: bool)
    decreases |es|
  {
    if es == [] then Initial(c, s) && !late
    else exists before, lateBefore ::
      RunNoting(c, Front(es), before, lateBefore) && Leads(c, before, Last(es), s)
      && late == (lateBefore || (Last(es) == Credit && before.live == 0))
  }

  lemma {:induction false} NotedRun(c: Config, es: seq<Event>, s: State, late: bool)
    requires RunNoting(c, es, s, late)
    ensures Run(c, es, s)
    decreases |es|
  {
    hide Initial, Enabled, Step;
    if es != [] {
      var before, lateBefore :| RunNoting(c, Front(es), before, lateBefore) && Leads(c, before, Last(es), s)
        && late == (lateBefore || (Last(es) == Credit && before.live == 0));
      NotedRun(c, Front(es), before, lateBefore);
    }
  }

  /** Every run is one of those that are noted, so that what holds of these holds of all. */
  lemma {:induction false} RunIsNoted(c: Config, es: seq<Event>, s: State) returns (late: bool)
    requires Run(c, es, s)
    ensures RunNoting(c, es, s, late)
    decreases |es|
  {
    hide Initial, Enabled, Step;
    if es == [] {
      late := false;
    } else {
      var before :| Run(c, Front(es), before) && Leads(c, before, Last(es), s);
      var lateBefore := RunIsNoted(c, Front(es), before);
      late := lateBefore || (Last(es) == Credit && before.live == 0);
    }
  }

  /** Exactly how many tokens are held once the pool is open: one for every live worker but one, and none
  without workers; except that after a late credit there is one for every worker. */
  ghost predicate HeldIs(s: State, late: bool) {
    s.boss.Starting? || s.held == if late || s.live == 0 then s.live else s.live - 1
  }

  lemma StartHeldIs(c: Config, s: State)
    requires Initial(c, s)
    ensures HeldIs(s, false)
  {
  }

  lemma StepHeldIs(c: Config, s: State, e: Event, late: bool)
    requires c.jobserver && Paid(c, s) && HeldIs(s, late) && Enabled(c, s, e)
    requires late ==> !s.boss.Starting?
    ensures HeldIs(Step(c, s, e), late || (e == Credit && s.live == 0))
    ensures late || (e == Credit && s.live == 0) ==> !Step(c, s, e).boss.Starting?
  {
  }

  lemma {:induction false} HeldExactly(c: Config, es: seq<Event>, s: State, late: bool)
    requires c.jobserver && RunNoting(c, es, s, late)
    ensures HeldIs(s, late) && (late ==> !s.boss.Starting?)
    decreases |es|
  {
    hide Run, Sized, Conserved, Paid, Logged, Attended, LeavingLate, HeldIs, Enabled, Step, Initial;
    if es == [] {
      StartHeldIs(c, s);
    } else {
      var before, lateBefore :| RunNoting(c, Front(es), before, lateBefore) && Leads(c, before, Last(es), s)
        && late == (lateBefore || (Last(es) == Credit && before.live == 0));
      HeldExactly(c, Front(es), before, lateBefore);
      NotedRun(c, Front(es), before, lateBefore);
      RunsKeepInv(c, Front(es), before);
      StepHeldIs(c, before, Last(es), lateBefore);
    }
  }

  lemma NoteNext(c: Config, es: seq<Event>, s: State, late: bool, e: Event) returns (es': seq<Event>, s': State)
    requires RunNoting(c, es, s, late) && Enabled(c, s, e) && (e == Credit ==> s.live > 0)
    ensures RunNoting(c, es', s', late) && s' == Step(c, s, e)
  {
    es', s' := es + [e], Step(c, s, e);
    assert Front(es') == es && Last(es') == e && Leads(c, s, e, s');
  }

  lemma NoteLate(c: Config, es: seq<Event>, s: State, late: bool) returns (es': seq<Event>)
    requires RunNoting(c, es, s, late) && Enabled(c, s, Credit) && s.live == 0
    ensures RunNoting(c, es', Step(c, s, Credit), true)
  {
    es' := es + [Credit];
    assert Front(es') == es && Last(es') == Credit && Leads(c, s, Credit, Step(c, s, Credit));
  }

  const TwoByOne := Config(2, true, 1)

  lemma OneWorker() returns (es: seq<Event>, s: State)
    ensures RunNoting(TwoByOne, es, s, false)
    ensures s == State(0, 1, 0, 1, 1, 1, [Compiling(0), Unborn], Polling, [Claim(0, 0)], {})
  {
    hide RunNoting, Run;
    s := State(0, 1, 0, 0, 0, 0, [Unborn, Unborn], Starting(0, false), [], {});
    es := [];
    StartNoted(TwoByOne, s);
    es, s := NoteNext(TwoByOne, es, s, false, Refuse);
    es, s := NoteNext(TwoByOne, es, s, false, EndTake);
    es, s := NoteNext(TwoByOne, es, s, false, Spawn);
    es, s := NoteNext(TwoByOne, es, s, false, EndSpawn);
    es, s := NoteNext(TwoByOne, es, s, false, Fetch(0));
  }

  lemma TokenReturns() returns (es: seq<Event>, s: State)
    ensures RunNoting(TwoByOne, es, s, false)
    ensures s == State(0, 0, 0, 1, 1, 1, [Compiling(0), Unborn], Acquiring(1, 1, false), [Claim(0, 0)], {})
  {
    hide RunNoting, Run;
    es, s := OneWorker();
    es, s := NoteNext(TwoByOne, es, s, false, Poll);
    es, s := NoteNext(TwoByOne, es, s, false, SiblingReturns);
    es, s := NoteNext(TwoByOne, es, s, false, Take);
  }

  lemma WorkerLeaves() returns (es: seq<Event>, s: State)
    ensures RunNoting(TwoByOne, es, s, false)
    ensures s.boss == Acquiring(1, 1, false) && s.live == 0 && s.held == 0
  {
    hide RunNoting, Run;
    es, s := TokenReturns();
    es, s := NoteNext(TwoByOne, es, s, false, Output(0));
    es, s := NoteNext(TwoByOne, es, s, false, Fetch(0));
    es, s := NoteNext(TwoByOne, es, s, false, Output(0));
    es, s := NoteNext(TwoByOne, es, s, false, Fetch(0));
    es, s := NoteNext(TwoByOne, es, s, false, Leave(0));
  }

  /** A late credit can happen: two partitions, and a sibling that gives back the only token while the one
  worker is still busy.  When that worker leaves, the main thread has taken the token and not yet booked it. */
  lemma LateCredit() returns (c: Config, es: seq<Event>, s: State)
    ensures RunNoting(c, es, s, true) && c.jobserver && s.held == s.live == 1
  {
    hide RunNoting, Run;
    c := TwoByOne;
    es, s := WorkerLeaves();
    es, s := NoteNext(c, es, s, false, EndTake);
    es := NoteLate(c, es, s, false);
    s := Step(c, s, Credit);
  }

  lemma StartNoted(c: Config, s: State)
    requires c == Config(2, true, 1) && s == State(0, 1, 0, 0, 0, 0, [Unborn, Unborn], Starting(0, false), [], {})
    ensures RunNoting(c, [], s, false)
  {
    assert Nobody(2) == [Unborn, Unborn];
  }

  /** The main thread asks for a token for every unclaimed partition, as far as there is room for workers;
  it stops asking exactly if there is no jobserver, no room or no such partition. */
  lemma PollWants(c: Config, es: seq<Event>, s: State)
    requires Run(c, es, s) && Enabled(c, s, Poll)
    ensures var s' := Step(c, s, Poll);
      && (s'.boss == Joining <==> !c.jobserver || s.spawned == c.threads || s.next >= c.threads)
      && (s'.boss != Joining ==>
            s'.boss.Acquiring? && s'.boss.got == 0 && !s'.boss.refused
            && s'.boss.want <= c.threads - s.next && s'.boss.want <= c.threads - s.spawned
            && (s'.boss.want == c.threads - s.next || s'.boss.want == c.threads - s.spawned))
  {
    RunsKeepInv(c, es, s);
  }

  /** acquire stops only at a failed trywait or with all the tokens it asked for; the pool then grows by a
  worker for every token. */
  lemma StopsAsking(c: Config, es: seq<Event>, s: State)
    requires Run(c, es, s) && Enabled(c, s, EndTake)
    ensures var s' := Step(c, s, EndTake);
      && (!s.boss.refused ==> s.boss.got == if s.boss.Starting? then c.threads - 1 else s.boss.want)
      && s'.free == s.free && s'.held + InTransit(s'.boss) == s.boss.got + s.held
      && (s.boss.Starting? ==> s'.live == 1 + s.boss.got && Pending(s'.boss) == 1 + s.boss.got)
      && (s.boss.Acquiring? && s.boss.got > 0 ==> Pending(Step(c, s', Credit).boss) == s.boss.got)
      && (s.boss.Acquiring? && s.boss.got == 0 ==> s'.boss == Polling)
  {
    RunsKeepInv(c, es, s);
  }

  /** There are never more workers than partitions. */
  lemma SpawnedWithinThreads(c: Config, es: seq<Event>, s: State)
    requires Run(c, es, s)
    ensures s.spawned + InTransit(s.boss) + Pending(s.boss) <= c.threads
  {
    RunsKeepInv(c, es, s);
  }

  /** Two workers never compile the same partition, and none is compiled twice. */
  lemma ClaimedOnce(c: Config, es: seq<Event>, s: State, t: nat, u: nat)
    requires Run(c, es, s) && t < |s.workers| && u < |s.workers|
    requires s.workers[t].Compiling? && s.workers[u] == s.workers[t]
    ensures t == u && s.workers[t].i !in s.outputs && s.workers[t].i < c.threads
  {
    RunsKeepInv(c, es, s);
  }

  /** Once the main thread has joined its workers, every partition was claimed once and compiled, and
  every token is back. */
  lemma AllDoneAtTheEnd(c: Config, es: seq<Event>, s: State)
    requires Run(c, es, s) && s.boss == Finished
    ensures |s.log| == c.threads && forall k :: 0 <= k < c.threads ==> s.log[k].partition == k
    ensures forall i: nat :: i in s.outputs <==> i < c.threads
    ensures s.held == 0 && s.free + s.outside == c.tokens
  {
    RunsKeepInv(c, es, s);
    assert s.workers[0] == Gone;
    if c.jobserver { BusyNone(s.workers); }
    forall i: nat | i < c.threads ensures i in s.outputs {
      CompiledUnlessBusy(s, i);
    }
  }

  lemma CompiledUnlessBusy(s: State, i: nat)
    requires Attended(s) && i < |s.log|
    requires s.log[i].worker < |s.workers| && !s.workers[s.log[i].worker].Compiling?
    ensures i in s.outputs
  {
  }

  // ---------------------------------------------------------------- progress

  /** What a worker, or a thread not yet spawned, can still cost. */
  function Cost(w: Worker): nat {
    match w case Unborn => 3 case Claiming => 2 case Compiling(_) => 3 case Leaving => 1 case Gone => 0
  }

  function Costs(workers: seq<Worker>): nat {
    if workers == [] then 0 else Costs(workers[..|workers| - 1]) + Cost(workers[|workers| - 1])
  }

  lemma {:induction false} CostsUpdate(workers: seq<Worker>, t: nat, w: Worker)
    requires t < |workers|
    ensures Costs(workers[t := w]) == Costs(workers) - Cost(workers[t]) + Cost(w)
  {
    var n := |workers| - 1;
    if t < n {
      assert workers[t := w][..n] == workers[..n][t := w];
      CostsUpdate(workers[..n], t, w);
    } else {
      assert workers[t := w][..n] == workers[..n];
    }
  }

  lemma {:induction false} CostsNobody(n: nat)
    ensures Costs(Nobody(n)) == 3 * n
  {
    if n > 0 {
      assert Nobody(n)[..n - 1] == Nobody(n - 1);
      CostsNobody(n - 1);
    }
  }

  predicate IsWork(e: Event) {
    e.Spawn? || e.Fetch? || e.Output? || e.Leave?
  }

  function WorkIn(es: seq<Event>): nat {
    if es == [] then 0 else WorkIn(Front(es)) + if IsWork(Last(es)) then 1 else 0
  }

  function WorkLeft(c: Config, s: State): nat {
    2 * (c.threads - Min(s.next, c.threads)) + Costs(s.workers)
  }

  lemma WorkShrinks(c: Config, s: State, e: Event)
    requires Sized(c, s) && Enabled(c, s, e)
    ensures WorkLeft(c, Step(c, s, e)) + (if IsWork(e) then 1 else 0) <= WorkLeft(c, s)
  {
    var s' := Step(c, s, e);
    match e
    case Spawn => CostsUpdate(s.workers, s.spawned, Claiming);
    case Fetch(t) => CostsUpdate(s.workers, t, s'.workers[t]);
    case Output(t) => CostsUpdate(s.workers, t, Claiming);
    case Leave(t) => CostsUpdate(s.workers, t, Gone);
    case _ =>
  }

  /** However the steps interleave, and however long the main thread polls, the workers take at most
  five steps per partition. */
  lemma {:induction false} RunsAreShort(c: Config, es: seq<Event>, s: State)
    requires Run(c, es, s)
    ensures WorkIn(es) + WorkLeft(c, s) <= 5 * c.threads
    decreases |es|
  {
    if es == [] {
      CostsNobody(c.threads);
    } else {
      var before :| Run(c, Front(es), before) && Leads(c, before, Last(es), s);
      RunsAreShort(c, Front(es), before);
      RunsKeepInv(c, Front(es), before);
      WorkShrinks(c, before, Last(es));
    }
  }

  /** An unfinished pool is never stuck; while partitions are unclaimed, the main thread's polling
  never waits for itself, because some worker or spawn can go on. */
  lemma NeverStuck(c: Config, es: seq<Event>, s: State)
    requires Run(c, es, s) && s.boss != Finished
    ensures exists e :: Enabled(c, s, e) && !e.SiblingTakes? && !e.SiblingReturns?
    ensures s.next < c.threads && (s.boss.Polling? || s.boss.Acquiring?) ==> exists e :: Enabled(c, s, e) && IsWork(e)
  {
    RunsKeepInv(c, es, s);
    var e := WorkEvent(c, s);
    if s.boss.Joining? {
      if forall t :: 0 <= t < |s.workers| && t < s.spawned ==> s.workers[t] == Gone { assert Enabled(c, s, Join); }
    } else {
      var b := BossEvent(c, s);
    }
  }

  lemma WorkEvent(c: Config, s: State) returns (e: Event)
    requires Inv(c, s)
    ensures (exists t :: 0 <= t < |s.workers| && t < s.spawned && s.workers[t] != Gone) ==> Enabled(c, s, e) && IsWork(e)
    ensures s.next < c.threads && s.spawned > 0 ==> Enabled(c, s, e) && IsWork(e)
  {
    e := Join;
    if t :| 0 <= t < |s.workers| && t < s.spawned && s.workers[t] != Gone {
      if s.workers[t] == Claiming { e := Fetch(t); }
      else if s.workers[t].Compiling? { e := Output(t); }
      else { BusySome(s.workers, t); e := Leave(t); }
    } else if s.spawned > 0 {
      assert s.workers[0] == Gone;
    }
  }

  lemma BossEvent(c: Config, s: State) returns (e: Event)
    requires Inv(c, s) && s.boss != Finished && !s.boss.Joining?
    ensures Enabled(c, s, e) && !e.SiblingTakes? && !e.SiblingReturns?
  {
    match s.boss
    case Starting(_, _) => e := if !c.jobserver then Begin else if Asks(c, s.boss) then Refuse else EndTake;
    case Acquiring(_, _, _) => e := if Asks(c, s.boss) then Refuse else EndTake;
    case Crediting(_) => e := Credit;
    case Spawning(left) => e := if left > 0 then Spawn else EndSpawn;
    case Polling => e := Poll;
    case Joining =>
    case Finished =>
  }
}
