/** The engine object of src/engine.c: the shared tables, changed under `engine_lock`. */
module LeaseEngine {
  import opened LeaseProtocol

  ghost predicate MeetsAny(leases: map<Key, Lease>, awaiting: seq<Option<Key>>, t: Tid, target: Tid) {
    exists n: nat :: Meets(leases, awaiting, t, target, n)
  }

  /** One hop of the walk keeps the answer to "does the chain come back to `target`?" */
  lemma MeetsHop(leases: map<Key, Lease>, awaiting: seq<Option<Key>>, t: Tid, target: Tid)
    requires t != target
    ensures MeetsAny(leases, awaiting, t, target)
      <==> var next := WaitsFor(leases, awaiting, t); next.Some? && MeetsAny(leases, awaiting, next.value, target)
  {
    var next := WaitsFor(leases, awaiting, t);
    if MeetsAny(leases, awaiting, t, target) {
      var n: nat :| Meets(leases, awaiting, t, target, n);
      assert Meets(leases, awaiting, next.value, target, n - 1);
    }
    if next.Some? && MeetsAny(leases, awaiting, next.value, target) {
      var n: nat :| Meets(leases, awaiting, next.value, target, n);
      assert Meets(leases, awaiting, t, target, n + 1);
    }
  }

  lemma {:induction false} SelfWaitNeverEnds(leases: map<Key, Lease>, awaiting: seq<Option<Key>>, t: Tid, n: nat)
    requires WaitsFor(leases, awaiting, t) == Some(t)
    ensures !Ends(leases, awaiting, t, n)
    decreases n
  {
    if n > 0 { SelfWaitNeverEnds(leases, awaiting, t, n - 1); }
  }

  /** The leases in `done` are gone and their holders' counters adjusted; nothing else moved. */
  ghost predicate SweptSoFar(before: State, done: set<Key>, leases: map<Key, Lease>, nqueued: map<Tid, int>) {
    && leases == before.leases - done
    && forall t: Tid :: Queued(nqueued, t) == Queued(before.nqueued, t) - |done * LeasesOf(before.leases, t)|
  }

  lemma SweptNone(before: State)
    ensures SweptSoFar(before, {}, before.leases, before.nqueued)
  {
    forall t: Tid ensures Queued(before.nqueued, t) == Queued(before.nqueued, t) - |{} * LeasesOf(before.leases, t)| {
      assert {} * LeasesOf(before.leases, t) == {};
    }
  }

  lemma SweptLeaves(before: State, done: set<Key>, leases: map<Key, Lease>, nqueued: map<Tid, int>, key: Key)
    requires SweptSoFar(before, done, leases, nqueued) && key in before.leases && key !in done
    ensures key in leases && leases[key] == before.leases[key]
  {
  }

  lemma OneMore(done: set<Key>, key: Key, held: set<Key>)
    requires key !in done
    ensures |(done + {key}) * held| == |done * held| + if key in held then 1 else 0
  {
    if key in held {
      assert (done + {key}) * held == done * held + {key};
    } else {
      assert (done + {key}) * held == done * held;
    }
  }

  lemma SweepOne(before: State, done: set<Key>, key: Key, leases: map<Key, Lease>, nqueued: map<Tid, int>)
    requires SweptSoFar(before, done, leases, nqueued)
    requires key in leases
    ensures SweptSoFar(before, done + {key}, leases - {key}, Bump(nqueued, leases[key].tid, -1))
  {
    forall t: Tid ensures Queued(Bump(nqueued, leases[key].tid, -1), t)
      == Queued(before.nqueued, t) - |(done + {key}) * LeasesOf(before.leases, t)|
    {
      OneMore(done, key, LeasesOf(before.leases, t));
      assert Queued(nqueued, t) == Queued(before.nqueued, t) - |done * LeasesOf(before.leases, t)|;
    }
    assert leases - {key} == before.leases - (done + {key});
  }

  /** What is left, and whether anything went. */
  lemma SweptExactly(before: State, dead: set<nat>, leases: map<Key, Lease>, nqueued: map<Tid, int>)
    requires SweptSoFar(before, DeadKeys(before.leases, dead), leases, nqueued)
    ensures forall k :: k in leases <==> k in before.leases && before.leases[k].ci !in dead
    ensures forall k :: k in leases ==> leases[k] == before.leases[k]
    ensures DeadKeys(before.leases, dead) != {} <==> exists k :: k in before.leases && before.leases[k].ci in dead
  {
    if k :| k in before.leases && before.leases[k].ci in dead { assert k in DeadKeys(before.leases, dead); }
  }

  lemma SweptAny(leases: map<Key, Lease>, before: map<Key, Lease>, dead: set<nat>)
    ensures DeadKeys(before, dead) != {} <==> exists k :: k in before && before[k].ci in dead
  {
    if k :| k in before && before[k].ci in dead { assert k in DeadKeys(before, dead); }
  }

  /** A whole sweep is a step. */
  lemma SweepTaken(before: State, dead: set<nat>, leases: map<Key, Lease>, nqueued: map<Tid, int>, calls: map<Tid, Call>)
    requires Inv(before) && SweptSoFar(before, DeadKeys(before.leases, dead), leases, nqueued)
    requires calls == if DeadKeys(before.leases, dead) == {} then before.calls else Wake(before.calls)
    ensures var s' := before.(leases := leases, nqueued := nqueued, calls := calls);
      Next(before, Sweep(dead), s') && Inv(s')
  {
    hide Inv, DeadKeys, Wake;
    NextKeepsInv(before, Sweep(dead), before.(leases := leases, nqueued := nqueued, calls := calls));
  }

  /** How one critical section of `jl_engine_reserve` ends. */
  datatype Outcome = GotLease | CycleFound | MustSleep

  /** A thread that calls for the first time is not registered; one that wakes up is. */
  lemma OwnSlot(s: State, t: Tid)
    requires Inv(s) && t in s.calls
    ensures s.calls[t].phase == Entered <==> AwaitedBy(s.awaiting, t).None?
    ensures s.calls[t].ci < |s.made|
  {
    assert IsMade(s, s.calls[t].ci, Placeholder(t, s.calls[t].key, Pending));
  }

  /** What the walk over the chain of waits from `start` relies on. */
  ghost predicate WalkReady(leases: map<Key, Lease>, awaiting: seq<Option<Key>>, start: Tid, n: nat) {
    && Ends(leases, awaiting, start, n)
    && start < |awaiting|
    && forall k :: k in leases ==> leases[k].tid < |awaiting|
  }

  lemma HolderChain(s: State, t: Tid, key: Key) returns (n: nat)
    requires Inv(s)
    ensures key in s.leases ==> WalkReady(s.leases, Grow(s.awaiting, t)[t := None], s.leases[key].tid, n)
  {
    if key !in s.leases { return 0; }
    var awaiting := Grow(s.awaiting, t)[t := None];
    ResumeAcyclic(s, t);
    assert Finite(s.leases, awaiting, s.leases[key].tid);
    n :| Ends(s.leases, awaiting, s.leases[key].tid, n);
  }

  /** The three ways a critical section ends, field by field. */
  lemma AttemptCases(s: State, t: Tid, key: Key, ci: nat, awaiting: seq<Option<Key>>)
    requires t in s.calls && s.calls[t].key == key && s.calls[t].ci == ci < |s.made|
    requires awaiting == Grow(s.awaiting, t)[t := None]
    ensures key !in s.leases ==>
      AttemptStep(s, t) == State(s.leases[key := Lease(t, ci)], awaiting, s.nqueued, s.calls - {t}, s.made[ci := Placeholder(t, key, Leased)])
    ensures key in s.leases && MeetsAny(s.leases, awaiting, s.leases[key].tid, t) ==>
      AttemptStep(s, t) == State(s.leases, awaiting, Bump(s.nqueued, t, -1), s.calls - {t}, s.made[ci := Placeholder(t, key, Refused)])
    ensures key in s.leases && !MeetsAny(s.leases, awaiting, s.leases[key].tid, t) ==>
      AttemptStep(s, t) == State(s.leases, awaiting[t := Some(key)], s.nqueued, s.calls[t := Call(key, ci, Asleep)], s.made)
  {
  }

  class Engine {
    var reservations: map<Key, Lease>
    var awaiting: seq<Option<Key>>
    var nqueued: map<Tid, int>
    var created: nat // placeholders handed out by the allocator
    ghost var calls: map<Tid, Call>
    ghost var made: seq<Placeholder>

    ghost function Abs(): State
      reads this
    {
      State(reservations, awaiting, nqueued, calls, made)
    }

    ghost predicate Valid()
      reads this
    {
      Inv(Abs()) && created == |made|
    }

    constructor ()
      ensures Valid() && Abs() == Init
    {
      reservations, awaiting, nqueued, created := map[], [], map[], 0;
      calls, made := map[], [];
      new;
      forall t: Tid ensures Finite(reservations, awaiting, t) {
        assert Ends(reservations, awaiting, t, 0);
      }
    }

    /** jl_engine_reserve up to its first lock: count the call, allocate the placeholder. */
    method EnterReserve(tid: Tid, key: Key) returns (ci: nat)
      requires Valid() && Enabled(Abs(), Enter(tid, key))
      modifies this
      ensures Valid() && Next(old(Abs()), Enter(tid, key), Abs())
      ensures ci == old(|made|) && calls[tid] == Call(key, ci, Entered)
    {
      nqueued := Bump(nqueued, tid, 1);
      ci := created;
      created := created + 1;
      calls := calls[tid := Call(key, ci, Entered)];
      made := made + [Placeholder(tid, key, Pending)];
      NextKeepsInv(old(Abs()), Enter(tid, key), Abs());
    }

    /** The deadlock check of jl_engine_reserve: does the chain of waits from `start` come
    back to `tid`?  It terminates because the chain is finite, which is the invariant. */
    method WalkChain(tid: Tid, start: Tid, ghost length: nat) returns (cond: bool)
      requires WalkReady(reservations, awaiting, start, length)
      ensures cond <==> MeetsAny(reservations, awaiting, start, tid)
    {
      var waitTid: Tid := start;
      ghost var n := length;
      while true
        invariant Ends(reservations, awaiting, waitTid, n)
        invariant waitTid < |awaiting|
        invariant MeetsAny(reservations, awaiting, start, tid) <==> MeetsAny(reservations, awaiting, waitTid, tid)
        decreases n
      {
        if waitTid == tid {
          assert Meets(reservations, awaiting, waitTid, tid, 0);
          return true;
        }
        MeetsHop(reservations, awaiting, waitTid, tid);
        if |awaiting| <= waitTid {
          assert false; // called unreachable in the source: every holder has been through reserve
        }
        if awaiting[waitTid].None? {
          return false; // no cycle, since it is running
        }
        var key2 := awaiting[waitTid].value;
        if key2 !in reservations {
          return false; // no cycle, since it is about to resume
        }
        if waitTid == reservations[key2].tid {
          SelfWaitNeverEnds(reservations, awaiting, waitTid, n);
        }
        assert waitTid != reservations[key2].tid; // asserted by the source
        waitTid, n := reservations[key2].tid, n - 1;
      }
    }

    /** Make room for `tid` in `awaiting`, or clear its entry after a wait. */
    method PrepareSlot(tid: Tid, resumed: bool)
      requires if resumed then tid < |awaiting| else AwaitedBy(awaiting, tid).None?
      modifies this`awaiting
      ensures awaiting == Grow(old(awaiting), tid)[tid := None]
    {
      if resumed {
        awaiting := awaiting[tid := None];
      } else {
        awaiting := Grow(awaiting, tid);
      }
    }

    /** The free key is taken. */
    method Insert(tid: Tid, key: Key, ci: nat)
      requires key !in reservations && ci < |made|
      modifies this`reservations, this`calls, this`made
      ensures Abs() == State(old(reservations)[key := Lease(tid, ci)], awaiting, nqueued, old(calls) - {tid},
                             old(made)[ci := Placeholder(tid, key, Leased)])
    {
      reservations := reservations[key := Lease(tid, ci)];
      calls := calls - {tid};
      made := made[ci := Placeholder(tid, key, Leased)];
    }

    /** A cycle was found: give up, and uncount the call. */
    method Refuse(tid: Tid, key: Key, ci: nat)
      requires ci < |made|
      modifies this`nqueued, this`calls, this`made
      ensures Abs() == State(reservations, awaiting, Bump(old(nqueued), tid, -1), old(calls) - {tid},
                             old(made)[ci := Placeholder(tid, key, Refused)])
    {
      nqueued := Bump(nqueued, tid, -1);
      calls := calls - {tid};
      made := made[ci := Placeholder(tid, key, Refused)];
    }

    /** Register and go to sleep. */
    method FallAsleep(tid: Tid, key: Key, ci: nat)
      requires tid < |awaiting|
      modifies this`awaiting, this`calls
      ensures Abs() == State(reservations, old(awaiting)[tid := Some(key)], nqueued,
                             old(calls)[tid := Call(key, ci, Asleep)], made)
    {
      awaiting := awaiting[tid := Some(key)];
      calls := calls[tid := Call(key, ci, Asleep)];
    }

    /** One critical section of jl_engine_reserve: from taking the lock, or from waking up in
    uv_cond_wait, to the insertion of the lease, the detection of a cycle, or the next wait. */
    method Attempt(tid: Tid, key: Key, ci: nat, resumed: bool) returns (outcome: Outcome)
      requires Valid() && tid in calls
      requires calls[tid].key == key && calls[tid].ci == ci
      requires resumed <==> calls[tid].phase != Entered
      modifies this
      ensures Valid() && Next(old(Abs()), Event.Attempt(tid), Abs())
      ensures outcome == GotLease <==> key !in old(reservations)
      ensures outcome == MustSleep <==> tid in calls
    {
      hide Inv, Next, AttemptStep;
      OwnSlot(Abs(), tid);
      AttemptTaken(Abs(), tid);
      ghost var n := HolderChain(Abs(), tid, key);
      outcome := CriticalSection(tid, key, ci, resumed, n);
    }

    /** The code between two waits, apart from the invariant; `n` bounds the chain of waits
    behind the holder of `key`. */
    method CriticalSection(tid: Tid, key: Key, ci: nat, resumed: bool, ghost n: nat) returns (outcome: Outcome)
      requires tid in calls && calls[tid].key == key && calls[tid].ci == ci < |made|
      requires if resumed then tid < |awaiting| else AwaitedBy(awaiting, tid).None?
      requires key in reservations ==> WalkReady(reservations, Grow(awaiting, tid)[tid := None], reservations[key].tid, n)
      modifies this`reservations, this`awaiting, this`nqueued, this`calls, this`made
      ensures Abs() == AttemptStep(old(Abs()), tid) && |made| == old(|made|)
      ensures outcome == GotLease <==> key !in old(reservations)
      ensures outcome == MustSleep <==> tid in calls
    {
      hide AttemptStep, WalkReady, MeetsAny, Grow;
      ghost var before := Abs();
      PrepareSlot(tid, resumed);
      AttemptCases(before, tid, key, ci, awaiting);

      if key !in reservations { // try_insert_reservation
        Insert(tid, key, ci);
        return GotLease;
      }

      var cond := WalkChain(tid, reservations[key].tid, n);
      if cond {
        Refuse(tid, key, ci);
        outcome := CycleFound;
      } else {
        FallAsleep(tid, key, ci);
        outcome := MustSleep;
      }
    }

    /** jl_engine_hasreserved */
    method HasReserved(tid: Tid, key: Key) returns (found: bool)
      ensures found <==> key in LeasesOf(reservations, tid)
    {
      found := key in reservations && reservations[key].tid == tid;
    }

    /** jl_engine_fulfill, called by thread `tid` for its placeholder `ci`, which has `key` in its fields. */
    method Fulfill(tid: Tid, ci: nat, key: Key)
      requires Valid() && Enabled(Abs(), Event.Fulfill(tid, ci)) && key == made[ci].key
      modifies this
      ensures Valid() && Next(old(Abs()), Event.Fulfill(tid, ci), Abs())
    {
      if key !in reservations || reservations[key].ci != ci {
        return;
      }
      FulfillerHolds(Abs(), tid, ci);
      assert tid == reservations[key].tid; // asserted by the source
      nqueued := Bump(nqueued, tid, -1);
      reservations := reservations - {key};
      calls := Wake(calls);
      NextKeepsInv(old(Abs()), Event.Fulfill(tid, ci), Abs());
    }

    /** sweep_reservations: visit every lease once, drop those with a dead placeholder. */
    method SweepReservations(dead: set<nat>) returns (any: bool)
      modifies this`reservations, this`nqueued
      ensures SweptSoFar(old(Abs()), DeadKeys(old(reservations), dead), reservations, nqueued)
      ensures forall k :: k in reservations <==> k in old(reservations) && old(reservations)[k].ci !in dead
      ensures forall k :: k in reservations ==> reservations[k] == old(reservations)[k]
      ensures any <==> exists k :: k in old(reservations) && old(reservations)[k].ci in dead
    {
      hide SweptSoFar;
      ghost var before, gone := Abs(), DeadKeys(reservations, dead);
      SweptNone(before);
      ghost var done: set<Key> := {};
      var todo := reservations.Keys;
      any := false;
      while todo != {}
        invariant todo <= before.leases.Keys
        invariant todo !! done && done <= gone <= done + todo
        invariant SweptSoFar(before, done, reservations, nqueued)
        invariant any <==> done != {}
        decreases todo
      {
        var key :| key in todo;
        todo := todo - {key};
        SweptLeaves(before, done, reservations, nqueued, key);
        if reservations[key].ci in dead {
          SweepOne(before, done, key, reservations, nqueued);
          done := done + {key};
          var tid := reservations[key].tid;
          reservations := reservations - {key};
          nqueued := Bump(nqueued, tid, -1);
          any := true;
        }
      }
      assert done == gone;
      SweptExactly(before, dead, reservations, nqueued);
    }

    /** jl_engine_sweep */
    method Sweep(dead: set<nat>)
      requires Valid()
      modifies this
      ensures Valid() && Next(old(Abs()), Event.Sweep(dead), Abs())
      ensures forall k :: k in reservations <==> k in old(reservations) && old(reservations)[k].ci !in dead
    {
      hide SweptSoFar, Inv, Next, DeadKeys;
      var any := SweepReservations(dead);
      if any {
        calls := Wake(calls);
      }
      SweptAny(reservations, old(reservations), dead);
      SweepTaken(old(Abs()), dead, reservations, nqueued, calls);
    }
  }
}
