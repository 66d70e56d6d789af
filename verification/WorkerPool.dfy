/** The counters of add_output's worker pool (src/aotcompile.cpp), changed by the steps of
PoolProtocol. */
module WorkerPool {
  import opened PoolProtocol

  /** Steps of the worker threads and of sibling processes. */
  predicate ByOthers(e: Event) {
    e.Fetch? || e.Output? || e.Leave? || e.SiblingTakes? || e.SiblingReturns?
  }

  /** The steps of the thread that runs add_output. */
  function Own(es: seq<Event>): seq<Event> {
    if es == [] then []
    else Own(Front(es)) + if ByOthers(Last(es)) then [] else [Last(es)]
  }

  lemma OwnPush(es: seq<Event>, e: Event)
    ensures Own(es + [e]) == Own(es) + if ByOthers(e) then [] else [e]
  {
    assert Front(es + [e]) == es && Last(es + [e]) == e;
  }

  function Times(n: nat, e: Event): (es: seq<Event>)
    ensures |es| == n && forall k :: 0 <= k < n ==> es[k] == e
  {
    seq(n, _ => e)
  }

  lemma RunExtends(c: Config, es: seq<Event>, s: State, e: Event)
    requires Run(c, es, s) && Enabled(c, s, e)
    ensures Run(c, es + [e], Step(c, s, e))
  {
    assert Front(es + [e]) == es && Last(es + [e]) == e;
    assert Leads(c, s, e, Step(c, s, e));
  }

  class Pool {
    const threads: nat
    const jobserver: bool
    var free: nat            // the semaphore's count
    var held: nat            // held_tokens
    var live: nat            // live_threads
    var spawned: nat
    var next: nat            // next_partition
    var workers: seq<Worker>
    var boss: Boss
    var outside: nat         // tokens that sibling processes hold
    ghost const config: Config
    ghost var log: seq<Claim>
    ghost var outputs: set<nat>
    ghost var trace: seq<Event> // what happened so far

    ghost function Current(): State
      reads this
    {
      State(free, outside, held, live, spawned, next, workers, boss, log, outputs)
    }

    /** The fields are where some run of the protocol leads. */
    ghost predicate Valid()
      reads this
    {
      && config.threads == threads > 0 && config.jobserver == jobserver
      && Run(config, trace, Current())
    }

    constructor (threads: nat, jobserver: bool, free: nat, outside: nat)
      requires threads > 0
      ensures Valid() && trace == [] && this.threads == threads && this.jobserver == jobserver && this.free == free
    {
      this.threads, this.jobserver, this.free := threads, jobserver, free;
      config := Config(threads, jobserver, free + outside);
      this.outside := outside;
      held, live, spawned, next := 0, 0, 0, 0;
      workers, boss := Nobody(threads), Starting(0, false);
      log, outputs, trace := [], {}, [];
    }

    /** A worker asks for the next partition: it gets one that nobody else gets, or none is left. */
    method FetchPartition(t: nat) returns (i: nat)
      requires Valid() && t < |workers| && workers[t] == Claiming
      modifies this
      ensures Valid() && Current() == Step(config, old(Current()), Fetch(t)) && trace == old(trace) + [Fetch(t)]
      ensures i < threads ==> forall u :: 0 <= u < |workers| && u != t ==> workers[u] != Compiling(i)
      ensures i < threads <==> workers[t] == Compiling(i)
    {
      hide Run;
      RunExtends(config, trace, Current(), Fetch(t));
      i := next;
      next := next + 1;
      if i >= threads {
        workers := workers[t := Leaving];
      } else {
        workers := workers[t := Compiling(i)];
        log := log + [Claim(t, i)];
      }
      trace := trace + [Fetch(t)];
      if i < threads { FetchedAlone(config, trace, Current(), t, i); }
    }

    method WriteOutput(t: nat)
      requires Valid() && t < |workers| && workers[t].Compiling?
      modifies this
      ensures Valid() && Current() == Step(config, old(Current()), Output(t)) && trace == old(trace) + [Output(t)]
    {
      RunExtends(config, trace, Current(), Output(t));
      outputs := outputs + {workers[t].i};
      workers := workers[t := Claiming];
      trace := trace + [Output(t)];
    }

    /** The critical section of a worker that is out of work.  Afterwards at most one token is
    surplus, and with nobody left there is none. */
    method LeavePool(t: nat)
      requires Valid() && t < |workers| && workers[t] == Leaving
      modifies this
      ensures old(live) > 0 && Valid()
      ensures Current() == Step(config, old(Current()), Leave(t)) && trace == old(trace) + [Leave(t)]
      ensures jobserver ==> live == old(live) - 1 && live <= held + 1 && held <= live
      ensures jobserver && old(held) + 1 == old(live) ==> held == if live == 0 then 0 else live - 1
      ensures jobserver && old(held) == old(live) ==> held == live
      ensures free + held == old(free + held)
    {
      hide Run;
      LeaverIsLive(config, trace, Current(), t);
      RunExtends(config, trace, Current(), Leave(t));
      if jobserver {
        live := live - 1;
        if held > 0 && held >= live {
          held := held - 1;
          free := free + 1;
        }
      }
      workers := workers[t := Gone];
      trace := trace + [Leave(t)];
    }

    /** What the workers and the sibling processes do in the meantime: any steps, in any order. */
    method Others()
      requires Valid()
      modifies this
      ensures Valid() && Own(trace) == Own(old(trace)) && boss == old(boss) && spawned == old(spawned)
      ensures next >= old(next)
    {
      hide Run, Own;
      var steps: int := *;
      while steps > 0
        invariant Valid() && Own(trace) == Own(old(trace)) && boss == old(boss) && spawned == old(spawned)
        invariant next >= old(next)
        decreases steps
      {
        steps := steps - 1;
        var e: Event := *;
        OwnPush(trace, e);
        match e
        case Fetch(t) => if t < |workers| && workers[t] == Claiming { var _ := FetchPartition(t); }
        case Output(t) => if t < |workers| && workers[t].Compiling? { WriteOutput(t); }
        case Leave(t) => if t < |workers| && workers[t] == Leaving { LeavePool(t); }
        case SiblingTakes => if free > 0 { Sibling(e); }
        case SiblingReturns => if outside > 0 { Sibling(e); }
        case _ =>
      }
    }

    method Sibling(e: Event)
      requires Valid() && (e == SiblingTakes || e == SiblingReturns) && Enabled(config, Current(), e)
      modifies this`free, this`outside, this`trace
      ensures Valid() && trace == old(trace) + [e]
    {
      hide Run;
      RunExtends(config, trace, Current(), e);
      if e == SiblingTakes {
        free, outside := free - 1, outside + 1;
      } else {
        free, outside := free + 1, outside - 1;
      }
      trace := trace + [e];
    }

    /** A trywait: it takes a token, or fails, which it may also do with tokens there. */
    method TryWait() returns (ok: bool)
      requires Valid() && Asks(config, boss)
      modifies this`free, this`boss, this`trace
      ensures Valid() && trace == old(trace) + [if ok then Take else Refuse]
      ensures boss == if ok then old(boss).(got := old(boss).got + 1) else old(boss).(refused := true)
      ensures old(free) == free + if ok then 1 else 0
    {
      hide Run;
      ok := *;
      if free == 0 { ok := false; }
      RunExtends(config, trace, Current(), if ok then Take else Refuse);
      if ok {
        free := free - 1;
        boss := boss.(got := boss.got + 1);
      } else {
        boss := boss.(refused := true);
      }
      trace := trace + [if ok then Take else Refuse];
    }

    /** JobserverClient::acquire: trywaits, until one fails or there are enough tokens.  Others may take
    and return tokens all the while. */
    method Acquire(want: nat) returns (got: nat)
      requires Valid() && jobserver
      requires boss == Acquiring(want, 0, false) || (boss == Starting(0, false) && want == threads - 1)
      modifies this
      ensures Valid() && got <= want && boss == old(boss).(got := got, refused := got < want)
      ensures spawned == old(spawned) && next >= old(next)
      ensures Own(trace) == Own(old(trace)) + Taking(got, got < want)
    {
      hide Run, Own;
      got := 0;
      while got < want
        invariant Valid() && got <= want && boss == old(boss).(got := got)
        invariant spawned == old(spawned) && next >= old(next)
        invariant Own(trace) == Own(old(trace)) + Times(got, Take)
        decreases want - got
      {
        Others();
        OwnPush(trace, Take);
        OwnPush(trace, Refuse);
        var ok := TryWait();
        if !ok {
          break;
        }
        got := got + 1;
        assert Times(got, Take) == Times(got - 1, Take) + [Take];
      }
    }

    /** The protocol's steps for `got` tokens taken, and then a trywait that failed or not. */
    ghost function Taking(got: nat, refused: bool): seq<Event> {
      Times(got, Take) + if refused then [Refuse] else []
    }

    /** Before the pool exists: the baseline thread, and one for every token that was to be had, so that
    there are fewer threads than partitions only if a trywait failed. */
    method OpenPool() returns (ghost got: nat)
      requires Valid() && boss == Starting(0, false)
      modifies this
      ensures Valid() && got <= threads - 1 && spawned == old(spawned)
      ensures boss == Spawning(if jobserver then 1 + got else threads)
      ensures live == boss.left && held == if jobserver then got else 0
      ensures Own(trace) ==
              Own(old(trace)) + if jobserver then Taking(got, got < threads - 1) + [EndTake] else [Begin]
    {
      hide Run, Own;
      var initialPool := threads;
      got := 0;
      if jobserver {
        var taken := Acquire(threads - 1);
        NothingHeld(config, trace, Current());
        RunExtends(config, trace, Current(), EndTake);
        OwnPush(trace, EndTake);
        got := taken;
        held := taken;
        initialPool := 1 + held;
        trace := trace + [EndTake];
      } else {
        NothingHeld(config, trace, Current());
        RunExtends(config, trace, Current(), Begin);
        OwnPush(trace, Begin);
        trace := trace + [Begin];
      }
      live := initialPool;
      boss := Spawning(initialPool);
    }

    method SpawnWorker()
      requires Valid() && boss.Spawning? && boss.left > 0
      modifies this`workers, this`spawned, this`boss, this`trace
      ensures old(spawned) < old(|workers|) == threads && Valid()
      ensures Current() == Step(config, old(Current()), Spawn) && trace == old(trace) + [Spawn]
    {
      hide Run;
      RoomToSpawn(config, trace, Current());
      RunExtends(config, trace, Current(), Spawn);
      workers := workers[spawned := Claiming];
      spawned := spawned + 1;
      boss := Spawning(boss.left - 1);
      trace := trace + [Spawn];
    }

    /** Those that are spawned may be at work, or gone, before the last one is. */
    method SpawnAll() returns (ghost count: nat)
      requires Valid() && boss.Spawning?
      modifies this
      ensures Valid() && count == old(boss.left) && spawned == old(spawned) + count && boss == Polling
      ensures next >= old(next)
      ensures Own(trace) == Own(old(trace)) + Times(count, Spawn) + [EndSpawn]
    {
      hide Run, Own;
      count := 0;
      while boss.left > 0
        invariant Valid() && boss.Spawning? && count + boss.left == old(boss.left) && spawned == old(spawned) + count
        invariant next >= old(next)
        invariant Own(trace) == Own(old(trace)) + Times(count, Spawn)
        decreases boss.left
      {
        OwnPush(trace, Spawn);
        SpawnWorker();
        count := count + 1;
        assert Times(count, Spawn) == Times(count - 1, Spawn) + [Spawn];
        Others();
      }
      RunExtends(config, trace, Current(), EndSpawn);
      OwnPush(trace, EndSpawn);
      boss := Polling;
      trace := trace + [EndSpawn];
    }

    /** The protocol's steps for a growth of the pool by `got` workers. */
    ghost function Growth(got: nat): seq<Event> {
      if got == 0 then [] else [Credit] + Times(got, Spawn) + [EndSpawn]
    }

    /** One round of the scale-up loop, with the workers and siblings acting at any point of it.  It ends
    the loop, or grows the pool by as many workers as there were tokens to be had: by one for every
    partition that nobody had asked for, as far as there is room, unless a trywait failed. */
    method ScaleUp() returns (more: bool, ghost got: nat, ghost unclaimed: nat)
      requires Valid() && boss == Polling
      modifies this
      ensures Valid() && boss == if more then Polling else Joining
      ensures !more ==> (!jobserver || spawned >= threads || next >= threads) && Own(trace) == Own(old(trace)) + [Poll]
      ensures spawned == old(spawned) + (if more then got else 0) && next >= old(next)
      ensures more ==> jobserver && threads - next <= unclaimed <= threads - old(next) && unclaimed > 0
      ensures more ==> got <= unclaimed && spawned <= threads
      ensures more ==>
                var refused := got < unclaimed && spawned < threads;
                Own(trace) == Own(old(trace)) + [Poll] + (Taking(got, refused) + [EndTake] + Growth(got))
    {
      hide Run, Own;
      got, unclaimed := 0, 0;
      Others();
      RunExtends(config, trace, Current(), Poll);
      OwnPush(trace, Poll);
      trace := trace + [Poll];
      if !jobserver || spawned >= threads || next >= threads {
        boss := Joining;
        more := false;
        return;
      }
      unclaimed := threads - next;
      var want := Min(threads - next, threads - spawned);
      boss := Acquiring(want, 0, false);
      got := Grow(want);
      more := true;
    }

    /** The pool takes up to `want` tokens and grows by as many workers. */
    method Grow(want: nat) returns (ghost got: nat)
      requires Valid() && jobserver && boss == Acquiring(want, 0, false)
      modifies this
      ensures Valid() && got <= want && boss == Polling && spawned == old(spawned) + got && next >= old(next)
      ensures Own(trace) == Own(old(trace)) + (Taking(got, got < want) + [EndTake] + Growth(got))
    {
      hide Run, Own;
      var taken := Acquire(want);
      got := taken;
      RunExtends(config, trace, Current(), EndTake);
      OwnPush(trace, EndTake);
      trace := trace + [EndTake];
      if taken > 0 {
        boss := Crediting(taken);
        CreditAndSpawn(taken);
      } else {
        boss := Polling;
      }
    }

    method CreditAndSpawn(got: nat)
      requires Valid() && boss == Crediting(got)
      modifies this
      ensures Valid() && boss == Polling && spawned == old(spawned) + got && next >= old(next)
      ensures Own(trace) == Own(old(trace)) + [Credit] + Times(got, Spawn) + [EndSpawn]
    {
      hide Run, Own;
      Others();
      RunExtends(config, trace, Current(), Credit);
      OwnPush(trace, Credit);
      trace := trace + [Credit];
      held := held + got;
      live := live + got;
      boss := Spawning(got);
      ghost var _ := SpawnAll();
    }

    /** After the joins the tokens are back (asserted by the source) and every partition is compiled. */
    method JoinAll()
      requires Valid() && boss == Joining && forall t :: 0 <= t < spawned && t < |workers| ==> workers[t] == Gone
      modifies this`boss, this`trace
      ensures Valid() && boss == Finished
      ensures held == 0 && forall i: nat :: i in outputs <==> i < threads
    {
      hide Run;
      RunExtends(config, trace, Current(), Join);
      boss := Finished;
      trace := trace + [Join];
      AllDoneAtTheEnd(config, trace, Current());
    }
  }

  lemma FetchedAlone(c: Config, es: seq<Event>, s: State, t: nat, i: nat)
    requires Run(c, es, s) && t < |s.workers| && s.workers[t] == Compiling(i)
    ensures forall u :: 0 <= u < |s.workers| && u != t ==> s.workers[u] != Compiling(i)
  {
    forall u | 0 <= u < |s.workers| && u != t ensures s.workers[u] != Compiling(i) {
      if s.workers[u] == Compiling(i) { ClaimedOnce(c, es, s, t, u); }
    }
  }

  lemma NothingHeld(c: Config, es: seq<Event>, s: State)
    requires Run(c, es, s) && s.boss.Starting?
    ensures s.held == 0
  {
    RunsKeepInv(c, es, s);
  }

  lemma RoomToSpawn(c: Config, es: seq<Event>, s: State)
    requires Run(c, es, s)
    ensures |s.workers| == c.threads && s.spawned + Pending(s.boss) <= c.threads
  {
    RunsKeepInv(c, es, s);
  }

  /** A worker that is about to leave is counted. */
  lemma LeaverIsLive(c: Config, es: seq<Event>, s: State, t: nat)
    requires Run(c, es, s) && t < |s.workers| && s.workers[t] == Leaving
    ensures s.live > 0 && (c.jobserver ==> s.held <= s.live <= s.held + 1)
  {
    RunsKeepInv(c, es, s);
    BusySome(s.workers, t);
  }
}
