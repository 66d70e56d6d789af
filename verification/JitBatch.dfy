/** The batch protocol of JLJITLinkMemoryManager (src/cgmemmgr.cpp): allocations in flight share the
blocks of the allocators, and page protections wait until none is left.  The methods are the critical
sections of the manager's mutex; callbacks run outside of it. */
module JitBatch {
  import opened JitBlocks
  import opened JitAllocators

  /** What became of an InFlightAlloc.  Open is the one that is not `Completed`. */
  datatype Status = Open | Finalized | Abandoned

  datatype Handle = Handle(roAllocs: seq<Allocation>, exeAllocs: seq<Allocation>, status: Status)

  datatype Kind = NoAlloc | ReadWrite | ReadOnly | ReadExec

  datatype Segment = Segment(kind: Kind, size: nat, align: nat)

  function OpenCount(handles: seq<Handle>): nat {
    if handles == [] then 0 else
      OpenCount(handles[..|handles| - 1]) + if handles[|handles| - 1].status == Open then 1 else 0
  }

  lemma {:induction false} OpenUpdate(handles: seq<Handle>, h: nat, status: Status)
    requires h < |handles| && handles[h].status == Open && status != Open
    ensures OpenCount(handles) > 0
    ensures OpenCount(handles[h := handles[h].(status := status)]) == OpenCount(handles) - 1
  {
    var n := |handles| - 1;
    var handles' := handles[h := handles[h].(status := status)];
    if h < n {
      assert handles'[..n] == handles[..n][h := handles[h].(status := status)];
      OpenUpdate(handles[..n], h, status);
    } else {
      assert handles'[..n] == handles[..n];
    }
  }

  lemma OpenAdded(handles: seq<Handle>, x: Handle)
    ensures OpenCount(handles + [x]) == OpenCount(handles) + if x.status == Open then 1 else 0
  {
    assert (handles + [x])[..|handles|] == handles;
  }

  lemma {:induction false} NoneOpen(handles: seq<Handle>, h: nat)
    requires OpenCount(handles) == 0 && h < |handles|
    ensures handles[h].status != Open
  {
    if h < |handles| - 1 { NoneOpen(handles[..|handles| - 1], h); }
  }

  // ---------------------------------------------------------------- the bookkeeping

  /** A callback is waiting for the batch, about to run, or has run: one of the three, once, and only
  if its allocation was finalized. */
  ghost predicate Booked(handles: seq<Handle>, inFlight: nat, waiting: seq<nat>, ready: multiset<nat>, ran: multiset<nat>) {
    && inFlight == OpenCount(handles)
    && (forall h: nat :: multiset(waiting)[h] + ready[h] + ran[h]
          == if h < |handles| && handles[h].status == Finalized then 1 else 0)
    && (inFlight == 0 ==> waiting == [])
    && (forall k :: 0 <= k < |waiting| ==> waiting[k] < |handles| && handles[waiting[k]].exeAllocs != [])
  }

  /** The write address of an allocation is on the list of those in use. */
  ghost predicate Listed(a: Allocation, writes: seq<Range>) {
    exists k :: 0 <= k < |writes| && writes[k].region == a.wrRegion && writes[k].start == a.wr && writes[k].size == a.size
  }

  ghost predicate AllListed(allocs: seq<Allocation>, writes: seq<Range>) {
    forall k :: 0 <= k < |allocs| ==> Listed(allocs[k], writes)
  }

  predicate InCode(a: Allocation, maps: seq<Mapping>) {
    a.region < |maps| && maps[a.region].use == Run
  }

  ghost predicate AllInCode(allocs: seq<Allocation>, maps: seq<Mapping>) {
    forall k :: 0 <= k < |allocs| ==> InCode(allocs[k], maps)
  }

  /** The pages of all these allocations are executable. */
  ghost predicate Executable(allocs: seq<Allocation>, maps: seq<Mapping>) {
    forall k :: 0 <= k < |allocs| ==> InCode(allocs[k], maps) && maps[allocs[k].region].prot == RX
  }

  ghost predicate Backed(handles: seq<Handle>, exeMaps: seq<Mapping>, roWrites: seq<Range>, exeWrites: seq<Range>,
                         ready: multiset<nat>, ran: multiset<nat>) {
    forall h :: 0 <= h < |handles| ==> HandleOk(handles[h], exeMaps, roWrites, exeWrites, ready[h] + ran[h] > 0)
  }

  /** An open allocation owns its write addresses; once its callback may run, its code is executable. */
  ghost predicate HandleOk(x: Handle, exeMaps: seq<Mapping>, roWrites: seq<Range>, exeWrites: seq<Range>, released: bool) {
    && AllInCode(x.exeAllocs, exeMaps)
    && (x.status == Open ==> AllListed(x.roAllocs, roWrites) && AllListed(x.exeAllocs, exeWrites))
    && (released ==> Executable(x.exeAllocs, exeMaps))
  }

  /** Regions of different allocators do not overlap. */
  ghost predicate Apart(m: seq<Mapping>, n: seq<Mapping>) {
    forall i, j :: 0 <= i < |m| && 0 <= j < |n| ==> Separate(m[i], n[j])
  }

  lemma ApartGrows(m: seq<Mapping>, m': seq<Mapping>, n: seq<Mapping>, at: nat, size: nat, page: nat)
    requires Apart(m, n) && Grows(m, m', at, size) && (|m'| > |m| ==> Offered(n, at, size, page))
    ensures Apart(m', n) && Apart(n, m')
  {
    forall i, j | 0 <= i < |m'| && 0 <= j < |n| ensures Separate(m'[i], n[j]) && Separate(n[j], m'[i]) {
      if i < |m| { assert Separate(m[i], n[j]); } else { assert Separate(n[j], Mapping(at, at + size, RW, Run)); }
    }
  }

  lemma AdvancesGrows(m: seq<Mapping>, m': seq<Mapping>, final: Prot, at: nat, size: nat)
    requires Advances(m, m', final, at, size)
    ensures Grows(m, m', at, size)
  {
    forall i | 0 <= i < |m| ensures m'[i].lo == m[i].lo && m'[i].hi <= m[i].hi { assert Aged(m[i], m'[i], final); }
  }

  /** Code that is executable stays so, and handles stay backed, while the mappings advance and more
  writes are listed. */
  lemma BackedAdvances(handles: seq<Handle>, maps: seq<Mapping>, maps': seq<Mapping>, roWrites: seq<Range>, roWrites': seq<Range>,
                       exeWrites: seq<Range>, exeWrites': seq<Range>, ready: multiset<nat>, ran: multiset<nat>, at: nat, size: nat)
    requires Backed(handles, maps, roWrites, exeWrites, ready, ran) && Advances(maps, maps', RX, at, size)
    requires roWrites <= roWrites' && exeWrites <= exeWrites'
    ensures Backed(handles, maps', roWrites', exeWrites', ready, ran)
  {
    forall h | 0 <= h < |handles| ensures HandleOk(handles[h], maps', roWrites', exeWrites', ready[h] + ran[h] > 0) {
      assert HandleOk(handles[h], maps, roWrites, exeWrites, ready[h] + ran[h] > 0);
      CodeStays(handles[h].exeAllocs, maps, maps', at, size);
      ListedMore(handles[h].roAllocs, roWrites, roWrites');
      ListedMore(handles[h].exeAllocs, exeWrites, exeWrites');
    }
  }

  lemma CodeStays(allocs: seq<Allocation>, maps: seq<Mapping>, maps': seq<Mapping>, at: nat, size: nat)
    requires AllInCode(allocs, maps) && Advances(maps, maps', RX, at, size)
    ensures AllInCode(allocs, maps') && (Executable(allocs, maps) ==> Executable(allocs, maps'))
  {
    forall k | 0 <= k < |allocs|
      ensures InCode(allocs[k], maps')
      ensures maps[allocs[k].region].prot == RX ==> maps'[allocs[k].region].prot == RX
    {
      assert InCode(allocs[k], maps);
      assert Aged(maps[allocs[k].region], maps'[allocs[k].region], RX);
    }
  }

  lemma ListedMore(allocs: seq<Allocation>, writes: seq<Range>, writes': seq<Range>)
    requires writes <= writes'
    ensures AllListed(allocs, writes) ==> AllListed(allocs, writes')
  {
    if AllListed(allocs, writes) {
      forall i | 0 <= i < |allocs| ensures Listed(allocs[i], writes') {
        assert Listed(allocs[i], writes);
        var k :| 0 <= k < |writes| && writes[k].region == allocs[i].wrRegion && writes[k].start == allocs[i].wr && writes[k].size == allocs[i].size;
        assert writes'[k] == writes[k];
      }
    }
  }

  // ---------------------------------------------------------------- the end of a batch

  /** No allocation is open, and every region of code has its final protection: all callbacks may run. */
  lemma BatchEnds(handles: seq<Handle>, maps: seq<Mapping>, maps': seq<Mapping>, roWrites: seq<Range>, exeWrites: seq<Range>,
                  ready: multiset<nat>, ran: multiset<nat>, ready': multiset<nat>)
    requires Backed(handles, maps, roWrites, exeWrites, ready, ran) && OpenCount(handles) == 0
    requires Advances(maps, maps', RX, 0, 0) && forall r :: 0 <= r < |maps'| ==> AtRest(maps'[r], RX)
    ensures Backed(handles, maps', [], [], ready', ran)
  {
    forall h | 0 <= h < |handles| ensures HandleOk(handles[h], maps', [], [], ready'[h] + ran[h] > 0) {
      assert HandleOk(handles[h], maps, roWrites, exeWrites, ready[h] + ran[h] > 0);
      NoneOpen(handles, h);
      CodeStays(handles[h].exeAllocs, maps, maps', 0, 0);
      AtRestRuns(handles[h].exeAllocs, maps');
    }
  }

  lemma AtRestRuns(allocs: seq<Allocation>, maps: seq<Mapping>)
    requires AllInCode(allocs, maps) && forall r :: 0 <= r < |maps| ==> AtRest(maps[r], RX)
    ensures Executable(allocs, maps)
  {
    forall k | 0 <= k < |allocs| ensures maps[allocs[k].region].prot == RX {
      assert InCode(allocs[k], maps) && AtRest(maps[allocs[k].region], RX);
    }
  }

  /** All that was handed out is in memory with this protection. */
  ghost predicate Protected(given: seq<Range>, maps: seq<Mapping>, prot: Prot) {
    forall k :: 0 <= k < |given| ==> given[k].region < |maps| && maps[given[k].region].prot == prot
  }

  ghost predicate AllAtRest(maps: seq<Mapping>, final: Prot) {
    forall r :: 0 <= r < |maps| ==> AtRest(maps[r], final)
  }

  lemma GrowsNot(maps: seq<Mapping>)
    ensures Grows(maps, maps, 0, 0)
  {
  }

  lemma ApartBatch(ro: seq<Mapping>, ro': seq<Mapping>, exe: seq<Mapping>, exe': seq<Mapping>, rw: seq<Mapping>)
    requires Apart(rw, ro) && Apart(rw, exe) && Apart(ro, exe)
    requires Grows(ro, ro', 0, 0) && |ro'| == |ro| && Grows(exe, exe', 0, 0) && |exe'| == |exe|
    ensures Apart(rw, ro') && Apart(rw, exe') && Apart(ro', exe')
  {
    ApartSym(rw, ro);
    ApartSym(rw, exe);
    ApartGrows(ro, ro', rw, 0, 0, 1);
    ApartGrows(exe, exe', rw, 0, 0, 1);
    ApartGrows(ro, ro', exe, 0, 0, 1);
    ApartGrows(exe, exe', ro', 0, 0, 1);
  }

  lemma ApartSym(m: seq<Mapping>, n: seq<Mapping>)
    requires Apart(m, n)
    ensures Apart(n, m)
  {
    forall i, j | 0 <= i < |n| && 0 <= j < |m| ensures Separate(n[i], m[j]) { assert Separate(m[j], n[i]); }
  }

  /** The books at the end of a critical section that leaves n allocations open: at the end of a batch
  the waiting callbacks are released. */
  ghost predicate BookedAfter(handles: seq<Handle>, n: nat, waiting: seq<nat>, ready: multiset<nat>, ran: multiset<nat>) {
    if n > 0 then Booked(handles, n, waiting, ready, ran)
    else Booked(handles, 0, [], ready + multiset(waiting), ran)
  }

  lemma BookFinalize(handles: seq<Handle>, inFlight: nat, waiting: seq<nat>, ready: multiset<nat>, ran: multiset<nat>, h: nat)
    requires Booked(handles, inFlight, waiting, ready, ran) && h < |handles| && handles[h].status == Open
    ensures inFlight > 0 && ran[h] == 0
    ensures var handles' := handles[h := handles[h].(status := Finalized)];
      && OpenCount(handles') == inFlight - 1
      && (handles[h].exeAllocs != [] ==> BookedAfter(handles', inFlight - 1, waiting + [h], ready, ran))
      && (handles[h].exeAllocs == [] ==> BookedAfter(handles', inFlight - 1, waiting, ready + multiset{h}, ran))
  {
    hide OpenCount;
    OpenUpdate(handles, h, Finalized);
    assert multiset(waiting)[h] + ready[h] + ran[h] == 0;
    assert multiset(waiting + [h]) == multiset(waiting) + multiset{h};
    if handles[h].exeAllocs != [] { BookMoves(handles, inFlight, waiting, ready, ran, h, waiting + [h], ready); }
    BookMoves(handles, inFlight, waiting, ready, ran, h, waiting, ready + multiset{h});
  }

  /** The books when the allocation h is finalized and its callback joins the others. */
  lemma BookMoves(handles: seq<Handle>, inFlight: nat, waiting: seq<nat>, ready: multiset<nat>, ran: multiset<nat>, h: nat,
                  waiting': seq<nat>, ready': multiset<nat>)
    requires Booked(handles, inFlight, waiting, ready, ran) && h < |handles| && handles[h].status == Open
    requires var handles' := handles[h := handles[h].(status := Finalized)]; OpenCount(handles') == inFlight - 1
    requires multiset(waiting') + ready' == multiset(waiting) + ready + multiset{h}
    requires forall k :: 0 <= k < |waiting'| ==> waiting'[k] < |handles| && handles[waiting'[k]].exeAllocs != []
    requires inFlight > 0
    ensures var handles' := handles[h := handles[h].(status := Finalized)];
      BookedAfter(handles', inFlight - 1, waiting', ready', ran)
  {
    var handles' := handles[h := handles[h].(status := Finalized)];
    forall i: nat ensures multiset(waiting')[i] + ready'[i] + ran[i]
      == if i < |handles'| && handles'[i].status == Finalized then 1 else 0
    {
      assert (multiset(waiting') + ready')[i] == (multiset(waiting) + ready + multiset{h})[i];
      assert multiset(waiting)[i] + ready[i] + ran[i] == if i < |handles| && handles[i].status == Finalized then 1 else 0;
    }
  }

  lemma BookAbandon(handles: seq<Handle>, inFlight: nat, waiting: seq<nat>, ready: multiset<nat>, ran: multiset<nat>, h: nat)
    requires Booked(handles, inFlight, waiting, ready, ran) && h < |handles| && handles[h].status == Open
    ensures inFlight > 0
    ensures var handles' := handles[h := handles[h].(status := Abandoned)];
      OpenCount(handles') == inFlight - 1 && BookedAfter(handles', inFlight - 1, waiting, ready, ran)
  {
    hide OpenCount;
    OpenUpdate(handles, h, Abandoned);
    assert multiset(waiting)[h] + ready[h] + ran[h] == 0;
  }

  /** Where the callback of a finalized allocation that has not run is. */
  lemma CallbackIsSomewhere(handles: seq<Handle>, n: nat, waiting: seq<nat>, ready: multiset<nat>, ran: multiset<nat>, h: nat)
    requires Booked(handles, n, waiting, ready, ran) && h < |handles| && handles[h].status == Finalized && ran[h] == 0
    ensures handles[h].exeAllocs == [] || n == 0 ==> ready[h] == 1
    ensures h in waiting <==> ready[h] == 0
  {
    assert h in waiting <==> multiset(waiting)[h] > 0;
  }

  lemma BackChanged(handles: seq<Handle>, maps: seq<Mapping>, roWrites: seq<Range>, exeWrites: seq<Range>,
                    ready: multiset<nat>, ran: multiset<nat>, h: nat, status: Status)
    requires Backed(handles, maps, roWrites, exeWrites, ready, ran) && h < |handles| && status != Open
    ensures Backed(handles[h := handles[h].(status := status)], maps, roWrites, exeWrites, ready, ran)
    ensures handles[h].exeAllocs == [] ==>
      Backed(handles[h := handles[h].(status := status)], maps, roWrites, exeWrites, ready + multiset{h}, ran)
  {
    var handles' := handles[h := handles[h].(status := status)];
    forall i | 0 <= i < |handles'|
      ensures HandleOk(handles'[i], maps, roWrites, exeWrites, ready[i] + ran[i] > 0)
      ensures handles[h].exeAllocs == [] ==>
        HandleOk(handles'[i], maps, roWrites, exeWrites, (ready + multiset{h})[i] + ran[i] > 0)
    {
      assert HandleOk(handles[i], maps, roWrites, exeWrites, ready[i] + ran[i] > 0);
    }
  }

  lemma FinalizeKeeps(handles: seq<Handle>, inFlight: nat, waiting: seq<nat>, ready: multiset<nat>, ran: multiset<nat>,
                      maps: seq<Mapping>, roWrites: seq<Range>, exeWrites: seq<Range>, h: nat)
    requires Booked(handles, inFlight, waiting, ready, ran) && h < |handles| && handles[h].status == Open
    requires Backed(handles, maps, roWrites, exeWrites, ready, ran)
    ensures inFlight > 0 && ran[h] == 0
    ensures var handles' := handles[h := handles[h].(status := Finalized)];
      var waiting' := if handles[h].exeAllocs != [] then waiting + [h] else waiting;
      var ready' := if handles[h].exeAllocs != [] then ready else ready + multiset{h};
      && OpenCount(handles') == inFlight - 1 && BookedAfter(handles', inFlight - 1, waiting', ready', ran)
      && Backed(handles', maps, roWrites, exeWrites, ready', ran)
  {
    hide Booked, BookedAfter, Backed, OpenCount;
    BookFinalize(handles, inFlight, waiting, ready, ran, h);
    BackChanged(handles, maps, roWrites, exeWrites, ready, ran, h, Finalized);
  }

  // ---------------------------------------------------------------- segments and their memory

  /** The memory of a segment at run time, and where it is written. */
  function RangeOf(a: Allocation, s: Segment): Range { Range(a.region, a.rt, s.size, s.align) }

  function WriteOf(a: Allocation, s: Segment): Range { Range(a.wrRegion, a.wr, s.size, s.align) }

  /** `at` lists, in order, those of the first n segments that are of the given kind. */
  ghost predicate Those(segments: seq<Segment>, n: nat, kind: Kind, at: seq<nat>) {
    && n <= |segments|
    && (forall i, j :: 0 <= i < j < |at| ==> at[i] < at[j])
    && (forall i :: 0 <= i < |at| ==> at[i] < n && segments[at[i]].kind == kind)
    && forall k: nat :: k < n && segments[k].kind == kind ==> k in at
  }

  /** One more range was handed out for each of the segments `at`, where it was placed. */
  ghost predicate Handed(given: seq<Range>, given': seq<Range>, segments: seq<Segment>, at: seq<nat>, placed: seq<Option<Allocation>>) {
    && |given'| == |given| + |at| && given'[..|given|] == given && |placed| <= |segments|
    && forall i :: 0 <= i < |at| ==>
         at[i] < |placed| && placed[at[i]].Some? && placed[at[i]].value.size == segments[at[i]].size
         && given'[|given| + i] == RangeOf(placed[at[i]].value, segments[at[i]])
  }

  ghost predicate Written(writes: seq<Range>, writes': seq<Range>, segments: seq<Segment>, at: seq<nat>, placed: seq<Option<Allocation>>) {
    && |writes'| == |writes| + |at| && writes'[..|writes|] == writes && |placed| <= |segments|
    && forall i :: 0 <= i < |at| ==>
         at[i] < |placed| && placed[at[i]].Some? && writes'[|writes| + i] == WriteOf(placed[at[i]].value, segments[at[i]])
  }

  ghost predicate Kept(placed: seq<Option<Allocation>>, at: seq<nat>, allocs: seq<Allocation>) {
    |allocs| == |at| && forall i :: 0 <= i < |at| ==> at[i] < |placed| && placed[at[i]] == Some(allocs[i])
  }

  /** The list with segment k added, if it is of the kind. */
  function Noted(at: seq<nat>, k: nat, mine: bool): seq<nat> { if mine then at + [k] else at }

  lemma ThoseNext(segments: seq<Segment>, k: nat, kind: Kind, at: seq<nat>)
    requires k < |segments| && Those(segments, k, kind, at)
    ensures Those(segments, k + 1, kind, Noted(at, k, segments[k].kind == kind))
  {
    var mine := segments[k].kind == kind;
    var at' := Noted(at, k, mine);
    if mine { assert at'[|at|] == k; }
    forall i: nat | i < k + 1 && segments[i].kind == kind ensures i in at' {
      if i < k { assert i in at; }
    }
  }

  lemma HandedNext(given: seq<Range>, given': seq<Range>, segments: seq<Segment>, at: seq<nat>, placed: seq<Option<Allocation>>,
                   a: Option<Allocation>, mine: bool)
    requires Handed(given, given', segments, at, placed) && |placed| < |segments|
    requires mine ==> a.Some? && a.value.size == segments[|placed|].size
    ensures Handed(given, given' + (if mine then [RangeOf(a.value, segments[|placed|])] else []), segments,
                   Noted(at, |placed|, mine), placed + [a])
  {
  }

  lemma WrittenNext(writes: seq<Range>, writes': seq<Range>, segments: seq<Segment>, at: seq<nat>, placed: seq<Option<Allocation>>,
                    a: Option<Allocation>, mine: bool)
    requires Written(writes, writes', segments, at, placed) && |placed| < |segments|
    requires mine ==> a.Some?
    ensures Written(writes, writes' + (if mine then [WriteOf(a.value, segments[|placed|])] else []), segments,
                    Noted(at, |placed|, mine), placed + [a])
  {
  }

  lemma KeptNext(placed: seq<Option<Allocation>>, at: seq<nat>, allocs: seq<Allocation>, a: Option<Allocation>, mine: bool)
    requires Kept(placed, at, allocs) && (mine ==> a.Some?)
    ensures Kept(placed + [a], Noted(at, |placed|, mine), allocs + (if mine then [a.value] else []))
  {
  }

  /** What is read and written in one place. */
  ghost predicate InPlace(at: seq<nat>, placed: seq<Option<Allocation>>) {
    forall i :: 0 <= i < |at| ==> at[i] < |placed| && placed[at[i]].Some? && placed[at[i]].value.wr == placed[at[i]].value.rt
  }

  lemma InPlaceNext(at: seq<nat>, placed: seq<Option<Allocation>>, a: Option<Allocation>, mine: bool)
    requires InPlace(at, placed) && (mine ==> a.Some? && a.value.wr == a.value.rt)
    ensures InPlace(Noted(at, |placed|, mine), placed + [a])
  {
  }

  lemma AnyOfThem(segments: seq<Segment>, kind: Kind, at: seq<nat>, placed: seq<Option<Allocation>>, allocs: seq<Allocation>)
    requires Those(segments, |segments|, kind, at) && Kept(placed, at, allocs)
    ensures allocs != [] <==> exists k :: 0 <= k < |segments| && segments[k].kind == kind
  {
    if allocs != [] { assert segments[at[0]].kind == kind; }
  }

  lemma NothingYet(segments: seq<Segment>, given: seq<Range>, kind: Kind)
    ensures Those(segments, 0, kind, []) && Handed(given, given, segments, [], []) && Written(given, given, segments, [], [])
    ensures Kept([], [], []) && InPlace([], [])
  {
  }

  // ---------------------------------------------------------------- the manager

  /** The highest address in use. */
  function Highest(maps: seq<Mapping>): (top: nat)
    ensures forall i :: 0 <= i < |maps| ==> maps[i].hi <= top
  {
    if maps == [] then 0 else
      var top := Highest(maps[..|maps| - 1]);
      if maps[|maps| - 1].hi > top then maps[|maps| - 1].hi else top
  }

  lemma BeyondIsFree(maps: seq<Mapping>, at: nat, size: nat, page: nat)
    requires page > 0 && at > 0 && at % page == 0 && Highest(maps) <= at
    ensures Offered(maps, at, size, page)
  {
  }

  class MemoryManager {
    const page: nat
    const rw: RWAllocator
    const ro: ROAllocator
    const exe: ROAllocator
    var inFlight: nat            // InFlight
    var waiting: seq<nat>        // FinalizedCallbacks, each known by its allocation
    var handles: seq<Handle>     // every InFlightAlloc handed out
    var ready: multiset<nat>     // callbacks on their way to be run by some thread
    ghost var ran: multiset<nat> // callbacks that were run

    ghost predicate Valid()
      reads this, rw, ro, exe
    {
      && ro != exe && exe.exec && !ro.exec && rw.page == page && ro.page == page && exe.page == page
      && rw.Valid() && ro.Valid() && exe.Valid()
      && Apart(rw.maps, ro.maps) && Apart(rw.maps, exe.maps) && Apart(ro.maps, exe.maps)
      && Booked(handles, inFlight, waiting, ready, ran)
      && Backed(handles, exe.maps, ro.writes, exe.writes, ready, ran)
    }

    constructor (page: nat, dual: bool)
      requires page > 0
      ensures Valid() && fresh(rw) && fresh(ro) && fresh(exe) && inFlight == 0 && handles == []
    {
      this.page := page;
      rw := new RWAllocator(page);
      ro := new ROAllocator(page, dual, false);
      exe := new ROAllocator(page, dual, true);
      inFlight, waiting, handles, ready, ran := 0, [], [], multiset{}, multiset{};
    }

    /** The system offers free pages.  Callers rely on no more than that; this body picks pages above
    all others. */
    method FreePages(ghost size: nat) returns (at: nat)
      requires page > 0
      ensures Offered(rw.maps, at, size, page) && Offered(ro.maps, at, size, page) && Offered(exe.maps, at, size, page)
    {
      var top := Highest(rw.maps) + Highest(ro.maps) + Highest(exe.maps) + 1;
      AlignDownIsMultiple(top + page - 1, page);
      at := AlignUp(top, page);
      BeyondIsFree(rw.maps, at, size, page);
      BeyondIsFree(ro.maps, at, size, page);
      BeyondIsFree(exe.maps, at, size, page);
    }

    /** The deferred callbacks are collected and may run. */
    method ReleaseWaiting()
      modifies this`waiting, this`ready
      ensures waiting == [] && ready == old(ready) + multiset(old(waiting))
    {
      ghost var ready0, all := ready, waiting;
      for k := 0 to |waiting|
        invariant waiting == all && ready == ready0 + multiset(all[..k])
      {
        ready := ready + multiset{waiting[k]};
        assert all[..k + 1] == all[..k] + [all[k]];
      }
      assert all[..|all|] == all;
      waiting := [];
    }

    /** completeBatch: the last one to complete applies the protections and releases the callbacks. */
    method CompleteBatch()
      requires inFlight > 0 && ro != exe && exe.exec && !ro.exec && ro.page == page && exe.page == page
      requires ro.Valid() && exe.Valid() && OpenCount(handles) == inFlight - 1
      requires Backed(handles, exe.maps, ro.writes, exe.writes, ready, ran)
      modifies this`inFlight, this`waiting, this`ready, ro, exe
      ensures ro.Valid() && exe.Valid() && inFlight == old(inFlight) - 1
      ensures inFlight > 0 ==> waiting == old(waiting) && ready == old(ready) && unchanged(ro) && unchanged(exe)
      ensures inFlight == 0 ==> waiting == [] && ready == old(ready) + multiset(old(waiting))
      ensures inFlight == 0 ==> AllAtRest(ro.maps, RO) && AllAtRest(exe.maps, RX)
      ensures inFlight == 0 ==> Protected(ro.given, ro.maps, RO) && Protected(exe.given, exe.maps, RX)
      ensures Backed(handles, exe.maps, ro.writes, exe.writes, ready, ran)
      ensures Grows(old(ro.maps), ro.maps, 0, 0) && |ro.maps| == |old(ro.maps)|
      ensures Grows(old(exe.maps), exe.maps, 0, 0) && |exe.maps| == |old(exe.maps)|
    {
      hide Good, Backed, Advances, AtRest, Grows;
      inFlight := inFlight - 1;
      if inFlight > 0 {
        GrowsNot(ro.maps);
        GrowsNot(exe.maps);
        return;
      }
      ghost var exeMaps, roWrites, exeWrites := exe.maps, ro.writes, exe.writes;
      ghost var roMaps := ro.maps;
      ro.Finalize();
      exe.Finalize();
      AdvancesGrows(roMaps, ro.maps, RO, 0, 0);
      AdvancesGrows(exeMaps, exe.maps, RX, 0, 0);
      ghost var ready0 := ready;
      ReleaseWaiting();
      BatchEnds(handles, exeMaps, exe.maps, roWrites, exeWrites, ready0, ran, ready);
    }

    /** One segment of a link graph gets its memory. */
    method PlaceReadWrite(size: nat, align: nat) returns (a: Allocation)
      requires Valid() && align > 0 && page % align == 0
      modifies rw
      ensures Valid() && a.size == size && a.wr == a.rt && a.wrRegion == a.region
      ensures rw.given == old(rw.given) + [Range(a.region, a.rt, size, align)]
    {
      hide Booked, Backed, Good, Apart, Offered, Grows, AllPlaced, AllSeparate, Stacked;
      var at := FreePages(BlockSize(size, page));
      ghost var maps := rw.maps;
      a := rw.Allocate(size, align, at);
      ApartGrows(maps, rw.maps, ro.maps, at, BlockSize(size, page), page);
      ApartGrows(maps, rw.maps, exe.maps, at, BlockSize(size, page), page);
    }

    method PlaceReadOnly(size: nat, align: nat) returns (a: Allocation)
      requires Valid() && align > 0 && page % align == 0
      modifies ro
      ensures Valid() && Listed(a, ro.writes) && a.size == size
      ensures ro.given == old(ro.given) + [Range(a.region, a.rt, size, align)]
      ensures ro.writes == old(ro.writes) + [Range(a.wrRegion, a.wr, size, align)]
    {
      hide Booked, Backed, Good, Apart, Offered, Advances, Grows, Listed, AllPlaced, AllSeparate, Stacked;
      var at := FreePages(BlockSize(size, page));
      var wrAt := FreePages(ro.WriteSize(size));
      ghost var maps, writes, wrSize := ro.maps, ro.writes, ro.WriteSize(size);
      a := ro.Allocate(size, align, at, wrAt);
      ApartPlaced(rw.maps, maps, ro.maps, exe.maps, RO, at, BlockSize(size, page), wrAt, wrSize, page);
      LastListed(writes, a, align);
      ListedStays(handles, exe.maps, writes, ro.writes, exe.writes, ready, ran);
    }

    method PlaceReadExec(size: nat, align: nat) returns (a: Allocation)
      requires Valid() && align > 0 && page % align == 0
      modifies exe
      ensures Valid() && Listed(a, exe.writes) && InCode(a, exe.maps) && a.size == size
      ensures exe.given == old(exe.given) + [Range(a.region, a.rt, size, align)]
      ensures exe.writes == old(exe.writes) + [Range(a.wrRegion, a.wr, size, align)]
      ensures Ages(old(exe.maps), exe.maps)
    {
      hide Booked, Backed, Good, Apart, Offered, Advances, Grows, Listed, InCode, AllPlaced, AllSeparate, Stacked;
      var at := FreePages(BlockSize(size, page));
      var wrAt := FreePages(exe.WriteSize(size));
      ghost var maps, writes, wrSize := exe.maps, exe.writes, exe.WriteSize(size);
      a := exe.Allocate(size, align, at, wrAt);
      ApartPlaced(rw.maps, maps, exe.maps, ro.maps, RX, at, BlockSize(size, page), wrAt, wrSize, page);
      LastListed(writes, a, align);
      LastInCode(exe, a, align);
      if Advances(maps, exe.maps, RX, at, BlockSize(size, page)) {
        BackedAdvances(handles, maps, exe.maps, ro.writes, ro.writes, writes, exe.writes, ready, ran, at, BlockSize(size, page));
        AdvancesAge(maps, exe.maps, at, BlockSize(size, page));
      } else {
        BackedAdvances(handles, maps, exe.maps, ro.writes, ro.writes, writes, exe.writes, ready, ran, wrAt, wrSize);
        AdvancesAge(maps, exe.maps, wrAt, wrSize);
      }
    }

    /** JLJITLinkMemoryManager::allocate.  `placed` is what becomes of the segments' addresses; `fails` says
    whether applying the layout fails, in which case nothing is in flight because of this call.  The segments
    rwAt, roAt and exeAt are those of each kind, in order. */
    method Allocate(segments: seq<Segment>, fails: bool)
      returns (h: Option<nat>, placed: seq<Option<Allocation>>, ghost rwAt: seq<nat>, ghost roAt: seq<nat>, ghost exeAt: seq<nat>)
      requires Valid()
      requires forall k :: 0 <= k < |segments| && segments[k].kind != NoAlloc ==> segments[k].align > 0 && page % segments[k].align == 0
      modifies this`inFlight, this`handles, rw, ro, exe
      ensures Valid()
      ensures fails ==> h == None && inFlight == old(inFlight) && handles == old(handles)
      ensures !fails ==> h == Some(|old(handles)|) && inFlight == old(inFlight) + 1
      ensures !fails ==> |handles| == |old(handles)| + 1 && handles[..|old(handles)|] == old(handles) && handles[h.value].status == Open
      // one range for each segment that wants memory, from the allocator for its kind
      ensures Those(segments, |segments|, ReadWrite, rwAt) && Those(segments, |segments|, ReadOnly, roAt)
      ensures Those(segments, |segments|, ReadExec, exeAt)
      ensures Handed(old(rw.given), rw.given, segments, rwAt, placed) && Handed(old(ro.given), ro.given, segments, roAt, placed)
      ensures Handed(old(exe.given), exe.given, segments, exeAt, placed)
      ensures Written(old(ro.writes), ro.writes, segments, roAt, placed) && Written(old(exe.writes), exe.writes, segments, exeAt, placed)
      ensures |placed| == |segments| && InPlace(rwAt, placed)
      ensures forall k :: 0 <= k < |segments| && segments[k].kind == NoAlloc ==> placed[k] == None
      // the handle keeps those that get their protection later
      ensures !fails ==> Kept(placed, roAt, handles[h.value].roAllocs) && Kept(placed, exeAt, handles[h.value].exeAllocs)
      ensures !fails ==> (handles[h.value].exeAllocs != [] <==> exists k :: 0 <= k < |segments| && segments[k].kind == ReadExec)
    {
      hide Booked, Backed, Good, Apart, Listed, AllListed, AllInCode, InCode, AllPlaced, AllSeparate, Stacked, Those, Handed, Written, Kept, InPlace, Noted,
        RangeOf, WriteOf;
      var roAllocs: seq<Allocation>, exeAllocs: seq<Allocation> := [], [];
      placed, rwAt, roAt, exeAt := [], [], [], [];
      NothingListed(ro.writes, exe.writes, exe.maps);
      NothingYet(segments, rw.given, ReadWrite);
      NothingYet(segments, ro.given, ReadOnly);
      NothingYet(segments, ro.writes, ReadOnly);
      NothingYet(segments, exe.given, ReadExec);
      NothingYet(segments, exe.writes, ReadExec);
      for k := 0 to |segments|
        invariant Valid() && inFlight == old(inFlight) && handles == old(handles) && |placed| == k
        invariant AllListed(roAllocs, ro.writes) && AllListed(exeAllocs, exe.writes) && AllInCode(exeAllocs, exe.maps)
        invariant Those(segments, k, ReadWrite, rwAt) && Those(segments, k, ReadOnly, roAt) && Those(segments, k, ReadExec, exeAt)
        invariant Handed(old(rw.given), rw.given, segments, rwAt, placed) && Handed(old(ro.given), ro.given, segments, roAt, placed)
        invariant Handed(old(exe.given), exe.given, segments, exeAt, placed)
        invariant Written(old(ro.writes), ro.writes, segments, roAt, placed) && Written(old(exe.writes), exe.writes, segments, exeAt, placed)
        invariant InPlace(rwAt, placed)
        invariant forall i :: 0 <= i < k && segments[i].kind == NoAlloc ==> placed[i] == None
        invariant Kept(placed, roAt, roAllocs) && Kept(placed, exeAt, exeAllocs)
      {
        ghost var kind := segments[k].kind;
        ThoseNext(segments, k, ReadWrite, rwAt);
        ThoseNext(segments, k, ReadOnly, roAt);
        ThoseNext(segments, k, ReadExec, exeAt);
        ghost var rwGiven, roGiven, exeGiven, roWrites, exeWrites := rw.given, ro.given, exe.given, ro.writes, exe.writes;
        ghost var roAllocs0, exeAllocs0 := roAllocs, exeAllocs;
        var a: Option<Allocation>;
        a, roAllocs, exeAllocs := PlaceSegment(segments[k], roAllocs, exeAllocs);
        HandedNext(old(rw.given), rwGiven, segments, rwAt, placed, a, kind == ReadWrite);
        HandedNext(old(ro.given), roGiven, segments, roAt, placed, a, kind == ReadOnly);
        HandedNext(old(exe.given), exeGiven, segments, exeAt, placed, a, kind == ReadExec);
        WrittenNext(old(ro.writes), roWrites, segments, roAt, placed, a, kind == ReadOnly);
        WrittenNext(old(exe.writes), exeWrites, segments, exeAt, placed, a, kind == ReadExec);
        KeptNext(placed, roAt, roAllocs0, a, kind == ReadOnly);
        KeptNext(placed, exeAt, exeAllocs0, a, kind == ReadExec);
        InPlaceNext(rwAt, placed, a, kind == ReadWrite);
        placed := placed + [a];
        rwAt, roAt, exeAt := Noted(rwAt, k, kind == ReadWrite), Noted(roAt, k, kind == ReadOnly), Noted(exeAt, k, kind == ReadExec);
      }
      if fails {
        return None, placed, rwAt, roAt, exeAt;
      }
      AnyOfThem(segments, ReadExec, exeAt, placed, exeAllocs);
      HandleAdded(handles, inFlight, waiting, ready, ran, exe.maps, ro.writes, exe.writes, roAllocs, exeAllocs);
      inFlight := inFlight + 1;
      h := Some(|handles|);
      handles := handles + [Handle(roAllocs, exeAllocs, Open)];
    }

    /** A segment gets memory from the allocator for its protection, and nothing else is touched. */
    method PlaceSegment(s: Segment, roAllocs: seq<Allocation>, exeAllocs: seq<Allocation>)
      returns (placed: Option<Allocation>, roAllocs': seq<Allocation>, exeAllocs': seq<Allocation>)
      requires Valid() && (s.kind != NoAlloc ==> s.align > 0 && page % s.align == 0)
      requires AllListed(roAllocs, ro.writes) && AllListed(exeAllocs, exe.writes) && AllInCode(exeAllocs, exe.maps)
      modifies rw, ro, exe
      ensures Valid()
      ensures AllListed(roAllocs', ro.writes) && AllListed(exeAllocs', exe.writes) && AllInCode(exeAllocs', exe.maps)
      ensures placed == None <==> s.kind == NoAlloc
      ensures s.kind == ReadWrite ==> placed.value.wr == placed.value.rt
      ensures rw.given == old(rw.given) + (if s.kind == ReadWrite then [RangeOf(placed.value, s)] else [])
      ensures ro.given == old(ro.given) + (if s.kind == ReadOnly then [RangeOf(placed.value, s)] else [])
      ensures exe.given == old(exe.given) + (if s.kind == ReadExec then [RangeOf(placed.value, s)] else [])
      ensures ro.writes == old(ro.writes) + (if s.kind == ReadOnly then [WriteOf(placed.value, s)] else [])
      ensures exe.writes == old(exe.writes) + (if s.kind == ReadExec then [WriteOf(placed.value, s)] else [])
      ensures roAllocs' == roAllocs + (if s.kind == ReadOnly then [placed.value] else [])
      ensures exeAllocs' == exeAllocs + (if s.kind == ReadExec then [placed.value] else [])
      ensures placed.Some? ==> placed.value.size == s.size
    {
      hide Booked, Backed, Good, Apart, Listed, AllListed, AllInCode, InCode, AllPlaced, AllSeparate, Stacked, Ages;
      placed, roAllocs', exeAllocs' := None, roAllocs, exeAllocs;
      ghost var roWrites, exeWrites, exeMaps := ro.writes, exe.writes, exe.maps;
      match s.kind
      case NoAlloc =>
      case ReadWrite =>
        var a := PlaceReadWrite(s.size, s.align);
        placed := Some(a);
      case ReadOnly =>
        var a := PlaceReadOnly(s.size, s.align);
        ListedOneMore(roAllocs, a, roWrites, ro.writes);
        placed, roAllocs' := Some(a), roAllocs + [a];
      case ReadExec =>
        var a := PlaceReadExec(s.size, s.align);
        ListedOneMore(exeAllocs, a, exeWrites, exe.writes);
        InCodeOneMore(exeAllocs, a, exeMaps, exe.maps);
        placed, exeAllocs' := Some(a), exeAllocs + [a];
    }

    /** Within a critical section: one allocation is closed, but still counted. */
    ghost predicate Closing()
      reads this, rw, ro, exe
    {
      && ro != exe && exe.exec && !ro.exec && rw.page == page && ro.page == page && exe.page == page
      && rw.Valid() && ro.Valid() && exe.Valid()
      && Apart(rw.maps, ro.maps) && Apart(rw.maps, exe.maps) && Apart(ro.maps, exe.maps)
      && inFlight > 0 && OpenCount(handles) == inFlight - 1
      && BookedAfter(handles, inFlight - 1, waiting, ready, ran)
      && Backed(handles, exe.maps, ro.writes, exe.writes, ready, ran)
    }

    method CloseSection()
      requires Closing()
      modifies this`inFlight, this`waiting, this`ready, ro, exe
      ensures Valid() && inFlight == old(inFlight) - 1
      ensures inFlight > 0 ==> unchanged(ro) && unchanged(exe) && waiting == old(waiting) && ready == old(ready)
      ensures inFlight == 0 ==> waiting == [] && AllAtRest(ro.maps, RO) && AllAtRest(exe.maps, RX)
      ensures inFlight == 0 ==> Protected(ro.given, ro.maps, RO) && Protected(exe.given, exe.maps, RX)
    {
      hide Booked, Backed, Good, Grows, AllAtRest, OpenCount, Apart;
      ghost var roMaps, exeMaps := ro.maps, exe.maps;
      CompleteBatch();
      ApartBatch(roMaps, ro.maps, exeMaps, exe.maps, rw.maps);
    }

    /** The callback of an allocation with executable memory waits for the end of the batch; any other
    may run at once. */
    method DeferOrRelease(h: nat)
      requires Booked(handles, inFlight, waiting, ready, ran) && Backed(handles, exe.maps, ro.writes, exe.writes, ready, ran)
      requires h < |handles| && handles[h].status == Open
      modifies this`waiting, this`ready, this`handles
      ensures handles == old(handles)[h := old(handles[h]).(status := Finalized)] && ran[h] == 0
      ensures inFlight > 0 && OpenCount(handles) == inFlight - 1 && BookedAfter(handles, inFlight - 1, waiting, ready, ran)
      ensures Backed(handles, exe.maps, ro.writes, exe.writes, ready, ran)
    {
      hide Booked, BookedAfter, Backed, OpenCount;
      FinalizeKeeps(handles, inFlight, waiting, ready, ran, exe.maps, ro.writes, exe.writes, h);
      handles := handles[h := handles[h].(status := Finalized)];
      if handles[h].exeAllocs != [] {
        waiting := waiting + [h];
      } else {
        ready := ready + multiset{h};
      }
    }

    /** InFlightAlloc::finalize */
    method Finalize(h: nat)
      requires Valid() && h < |handles| && handles[h].status == Open // asserted by the source
      modifies this`inFlight, this`waiting, this`ready, this`handles, ro, exe
      ensures Valid() && handles == old(handles)[h := old(handles[h]).(status := Finalized)]
      ensures old(inFlight) > 0 && inFlight == old(inFlight) - 1
      ensures handles[h].exeAllocs == [] || inFlight == 0 ==> ready[h] == 1
      ensures h in waiting <==> ready[h] == 0
      ensures inFlight > 0 ==> unchanged(ro) && unchanged(exe)
      ensures inFlight == 0 ==> waiting == [] && AllAtRest(ro.maps, RO) && AllAtRest(exe.maps, RX)
      ensures inFlight == 0 ==> Protected(ro.given, ro.maps, RO) && Protected(exe.given, exe.maps, RX)
    {
      hide Booked, BookedAfter, Backed, Good, AllAtRest, OpenCount, Apart;
      DeferOrRelease(h);
      CloseSection();
      CallbackIsSomewhere(handles, inFlight, waiting, ready, ran, h);
    }

    /** InFlightAlloc::abandon */
    method Abandon(h: nat)
      requires Valid() && h < |handles| && handles[h].status == Open // asserted by the source
      modifies this`inFlight, this`waiting, this`ready, this`handles, ro, exe
      ensures Valid() && handles == old(handles)[h := old(handles[h]).(status := Abandoned)]
      ensures old(inFlight) > 0 && inFlight == old(inFlight) - 1
      ensures inFlight > 0 ==> unchanged(ro) && unchanged(exe) && waiting == old(waiting) && ready == old(ready)
      ensures inFlight == 0 ==> waiting == [] && AllAtRest(ro.maps, RO) && AllAtRest(exe.maps, RX)
      ensures inFlight == 0 ==> Protected(ro.given, ro.maps, RO) && Protected(exe.given, exe.maps, RX)
    {
      hide Booked, BookedAfter, Backed, Good, AllAtRest, OpenCount, Apart;
      BookAbandon(handles, inFlight, waiting, ready, ran, h);
      BackChanged(handles, exe.maps, ro.writes, exe.writes, ready, ran, h, Abandoned);
      handles := handles[h := handles[h].(status := Abandoned)];
      CloseSection();
    }

    /** The destructor of InFlightAlloc: an allocation that was neither finalized nor abandoned is
    abandoned now. */
    method Drop(h: nat)
      requires Valid() && h < |handles|
      modifies this`inFlight, this`waiting, this`ready, this`handles, ro, exe
      ensures Valid()
      ensures handles == if old(handles[h]).status == Open then old(handles)[h := old(handles[h]).(status := Abandoned)] else old(handles)
      ensures inFlight == old(inFlight) - if old(handles[h]).status == Open then 1 else 0
    {
      hide Booked, Backed, Good, Apart;
      if handles[h].status == Open {
        Abandon(h);
      }
    }

    /** runCallbacks, one callback: it has not run before, and its code is executable by now. */
    method RunCallback(h: nat)
      requires Valid() && ready[h] > 0
      modifies this`ready, this`ran
      ensures h < |handles| && handles[h].status == Finalized && Executable(handles[h].exeAllocs, exe.maps)
      ensures old(ran)[h] == 0 && ran == old(ran) + multiset{h} && ready == old(ready) - multiset{h}
      ensures Valid()
    {
      CallbackRun(handles, inFlight, waiting, ready, ran, exe.maps, ro.writes, exe.writes, h);
      hide Booked, Backed, Good, Apart;
      ready := ready - multiset{h};
      ran := ran + multiset{h};
    }
  }

  lemma CallbackRun(handles: seq<Handle>, n: nat, waiting: seq<nat>, ready: multiset<nat>, ran: multiset<nat>,
                    maps: seq<Mapping>, roWrites: seq<Range>, exeWrites: seq<Range>, h: nat)
    requires Booked(handles, n, waiting, ready, ran) && Backed(handles, maps, roWrites, exeWrites, ready, ran) && ready[h] > 0
    ensures h < |handles| && handles[h].status == Finalized && Executable(handles[h].exeAllocs, maps) && ran[h] == 0
    ensures Booked(handles, n, waiting, ready - multiset{h}, ran + multiset{h})
    ensures Backed(handles, maps, roWrites, exeWrites, ready - multiset{h}, ran + multiset{h})
  {
    var ready', ran' := ready - multiset{h}, ran + multiset{h};
    assert multiset(waiting)[h] + ready[h] + ran[h] <= 1;
    assert HandleOk(handles[h], maps, roWrites, exeWrites, ready[h] + ran[h] > 0);
    forall i: nat ensures ready'[i] + ran'[i] == ready[i] + ran[i] {}
    forall i | 0 <= i < |handles| ensures HandleOk(handles[i], maps, roWrites, exeWrites, ready'[i] + ran'[i] > 0) {
      assert HandleOk(handles[i], maps, roWrites, exeWrites, ready[i] + ran[i] > 0);
    }
  }

  // ---------------------------------------------------------------- handing out

  lemma ApartPlaced(rw: seq<Mapping>, m: seq<Mapping>, m': seq<Mapping>, other: seq<Mapping>, final: Prot,
                    at: nat, size: nat, wrAt: nat, wrSize: nat, page: nat)
    requires Apart(rw, m) && (Apart(m, other) || Apart(other, m))
    requires Advances(m, m', final, at, size) || Advances(m, m', final, wrAt, wrSize)
    requires Offered(rw, at, size, page) && Offered(rw, wrAt, wrSize, page)
    requires Offered(other, at, size, page) && Offered(other, wrAt, wrSize, page)
    ensures Apart(rw, m') && Apart(m', other) && Apart(other, m')
  {
    hide Apart, Offered, Advances, Grows;
    ApartSym(rw, m);
    if Apart(other, m) { ApartSym(other, m); }
    if Advances(m, m', final, at, size) {
      AdvancesGrows(m, m', final, at, size);
      ApartGrows(m, m', rw, at, size, page);
      ApartGrows(m, m', other, at, size, page);
    } else {
      AdvancesGrows(m, m', final, wrAt, wrSize);
      ApartGrows(m, m', rw, wrAt, wrSize, page);
      ApartGrows(m, m', other, wrAt, wrSize, page);
    }
  }

  /** Regions keep their use. */
  ghost predicate Ages(m: seq<Mapping>, m': seq<Mapping>) {
    |m| <= |m'| && forall r :: 0 <= r < |m| ==> m'[r].use == m[r].use
  }

  lemma AdvancesAge(m: seq<Mapping>, m': seq<Mapping>, at: nat, size: nat)
    requires Advances(m, m', RX, at, size)
    ensures Ages(m, m')
  {
    forall r | 0 <= r < |m| ensures m'[r].use == m[r].use { assert Aged(m[r], m'[r], RX); }
  }

  lemma LastListed(writes: seq<Range>, a: Allocation, align: nat)
    ensures Listed(a, writes + [Range(a.wrRegion, a.wr, a.size, align)])
  {
    var writes' := writes + [Range(a.wrRegion, a.wr, a.size, align)];
    assert writes'[|writes|].region == a.wrRegion;
  }

  lemma LastInCode(u: ROAllocator, a: Allocation, align: nat)
    requires u.Valid() && u.given != [] && u.given[|u.given| - 1] == Range(a.region, a.rt, a.size, align)
    ensures InCode(a, u.maps)
  {
  }

  lemma ListedStays(handles: seq<Handle>, maps: seq<Mapping>, roWrites: seq<Range>, roWrites': seq<Range>, exeWrites: seq<Range>,
                    ready: multiset<nat>, ran: multiset<nat>)
    requires Backed(handles, maps, roWrites, exeWrites, ready, ran) && roWrites <= roWrites'
    ensures Backed(handles, maps, roWrites', exeWrites, ready, ran)
  {
    forall h | 0 <= h < |handles| ensures HandleOk(handles[h], maps, roWrites', exeWrites, ready[h] + ran[h] > 0) {
      assert HandleOk(handles[h], maps, roWrites, exeWrites, ready[h] + ran[h] > 0);
      ListedMore(handles[h].roAllocs, roWrites, roWrites');
    }
  }

  lemma NothingListed(roWrites: seq<Range>, exeWrites: seq<Range>, maps: seq<Mapping>)
    ensures AllListed([], roWrites) && AllListed([], exeWrites) && AllInCode([], maps)
  {
  }

  lemma ListedOneMore(allocs: seq<Allocation>, a: Allocation, writes: seq<Range>, writes': seq<Range>)
    requires AllListed(allocs, writes) && writes <= writes' && Listed(a, writes')
    ensures AllListed(allocs + [a], writes')
  {
    ListedMore(allocs, writes, writes');
  }

  lemma InCodeOneMore(allocs: seq<Allocation>, a: Allocation, maps: seq<Mapping>, maps': seq<Mapping>)
    requires AllInCode(allocs, maps) && Ages(maps, maps') && InCode(a, maps')
    ensures AllInCode(allocs + [a], maps')
  {
    forall k | 0 <= k < |allocs| ensures InCode(allocs[k], maps') { assert InCode(allocs[k], maps); }
  }

  lemma HandleAdded(handles: seq<Handle>, inFlight: nat, waiting: seq<nat>, ready: multiset<nat>, ran: multiset<nat>,
                    maps: seq<Mapping>, roWrites: seq<Range>, exeWrites: seq<Range>, roAllocs: seq<Allocation>, exeAllocs: seq<Allocation>)
    requires Booked(handles, inFlight, waiting, ready, ran) && Backed(handles, maps, roWrites, exeWrites, ready, ran)
    requires AllListed(roAllocs, roWrites) && AllListed(exeAllocs, exeWrites) && AllInCode(exeAllocs, maps)
    ensures var handles' := handles + [Handle(roAllocs, exeAllocs, Open)];
      Booked(handles', inFlight + 1, waiting, ready, ran) && Backed(handles', maps, roWrites, exeWrites, ready, ran)
  {
    hide AllListed, AllInCode, OpenCount;
    var x := Handle(roAllocs, exeAllocs, Open);
    OpenAdded(handles, x);
    var handles' := handles + [x];
    assert multiset(waiting)[|handles|] + ready[|handles|] + ran[|handles|] == 0;
    forall h | 0 <= h < |handles'| ensures HandleOk(handles'[h], maps, roWrites, exeWrites, ready[h] + ran[h] > 0) {
      if h < |handles| { assert HandleOk(handles[h], maps, roWrites, exeWrites, ready[h] + ran[h] > 0); }
    }
  }
}
