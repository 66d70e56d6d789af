/** The allocator for read-only data and code (ROAllocator, DualMapAllocator and SelfMemAllocator in
src/cgmemmgr.cpp).  A block starts out writable.  Once it got its final protection, later
allocations in it are written through a second map of the block, or through a temporary buffer. */
module JitAllocators {
  import opened JitBlocks

  /** The bits of SplitPtrBlock::State. */
  datatype State = State(initAlloc: bool, alloc: bool, wrInit: bool, wrReady: bool)

  const Unused := State(false, false, false, false)

  datatype SplitBlock = SplitBlock(block: Block, wrPtr: nat, wrRegion: nat, state: State)

  const NoSplit := SplitBlock(NoBlock, 0, 0, Unused)

  function Final(exec: bool): Prot { if exec then RX else RO }

  // ---------------------------------------------------------------- the invariant

  /** The states a block can be in: writable from the start; or, with a second map, possibly with that
  map made, and with that map writable if and only if the block is in use. */
  predicate StateOk(dual: bool, s: State) {
    if s.initAlloc then s == State(true, true, false, false)
    else if dual then s.alloc == s.wrReady && (s.wrReady ==> s.wrInit)
    else !s.wrInit && !s.wrReady
  }

  /** The second map of b, as a block that fills up along with b. */
  function ShadowBlock(b: SplitBlock): Block {
    Block(b.wrPtr, b.block.total, b.block.avail, b.wrRegion)
  }

  predicate ShadowOk(maps: seq<Mapping>, b: SplitBlock, page: nat) {
    && page > 0 && b.wrPtr > 0 && b.wrPtr % page == 0 && b.wrRegion < |maps|
    && maps[b.wrRegion] == Mapping(b.wrPtr, b.wrPtr + b.block.total, if b.state.wrReady then RW else NO, Shadow(b.block.region))
  }

  ghost predicate BlockOk(maps: seq<Mapping>, given: seq<Range>, b: SplitBlock, page: nat, dual: bool, final: Prot) {
    && IsBlock(b.block, page) && Covers(maps, b.block) && BelowTop(given, b.block)
    && maps[b.block.region].use == Run
    && maps[b.block.region].prot == (if b.state.initAlloc then RW else final)
    && StateOk(dual, b.state)
    && (b.state.wrInit ==> ShadowOk(maps, b, page))
  }

  /** How a region looks when nobody writes to it. */
  predicate AtRest(m: Mapping, final: Prot) {
    match m.use
    case Run => m.prot == final
    case Shadow(_) => m.prot == NO || m.hi <= m.lo
    case Temp => true
  }

  /** The two reasons why a region is not at rest: it is a block in its initial state, or the writable
  second map of one. */
  predicate Raw(b: SplitBlock, region: nat) {
    (b.block.region == region && b.state.initAlloc) || (b.wrRegion == region && b.state.wrReady)
  }

  ghost predicate ProtOk(maps: seq<Mapping>, cur: SplitBlock, completed: seq<SplitBlock>, final: Prot) {
    forall r :: 0 <= r < |maps| && !AtRest(maps[r], final) ==>
      Raw(cur, r) || exists i :: 0 <= i < |completed| && Raw(completed[i], r)
  }

  ghost predicate BlocksOk(maps: seq<Mapping>, given: seq<Range>, cur: SplitBlock, completed: seq<SplitBlock>,
                           page: nat, dual: bool, final: Prot) {
    && (cur == NoSplit || BlockOk(maps, given, cur, page, dual, final))
    && (forall i :: 0 <= i < |completed| ==> BlockOk(maps, given, completed[i], page, dual, final))
    && (forall i, j :: 0 <= i < j < |completed| ==> completed[i].block.region != completed[j].block.region)
    && (cur != NoSplit ==> forall i :: 0 <= i < |completed| ==> completed[i].block.region != cur.block.region)
    && ProtOk(maps, cur, completed, final)
  }

  predicate TempOk(maps: seq<Mapping>, t: Block, page: nat) {
    IsBlock(t, page) && Covers(maps, t) && maps[t.region].use == Temp && maps[t.region].prot == RW
  }

  ghost predicate TempsOk(maps: seq<Mapping>, writes: seq<Range>, temp: seq<Block>, page: nat) {
    && (forall i :: 0 <= i < |temp| ==> TempOk(maps, temp[i], page) && BelowTop(writes, temp[i]))
    && forall i, j :: 0 <= i < j < |temp| ==> temp[i].region != temp[j].region
  }

  /** The range that a write through the second map of region `of` goes to. */
  function Behind(maps: seq<Mapping>, w: Range, of: nat): Range
    requires of < |maps| && w.region < |maps| && maps[w.region].lo <= w.start
  {
    Range(of, maps[of].lo + (w.start - maps[w.region].lo), w.size, w.align)
  }

  /** The ranges being written since the last finalization are writable, and except in temporary buffers
  they are what was handed out, in place or in the second map. */
  predicate OpenWrite(maps: seq<Mapping>, given: seq<Range>, w: Range) {
    && w.region < |maps| && maps[w.region].prot == RW
    && match maps[w.region].use
       case Run => w in given
       case Shadow(of) => of < |maps| && maps[w.region].lo <= w.start && Behind(maps, w, of) in given
       case Temp => true
  }

  ghost predicate WritesOk(maps: seq<Mapping>, given: seq<Range>, writes: seq<Range>, cur: SplitBlock, completed: seq<SplitBlock>) {
    && AllPlaced(maps, writes) && Stacked(writes)
    && (forall k :: 0 <= k < |writes| ==> OpenWrite(maps, given, writes[k]))
    && (cur.state.wrInit ==> BelowTop(writes, ShadowBlock(cur)))
  }

  /** What is handed out for running code or keeping data lies in regions for that. */
  ghost predicate RunOnly(maps: seq<Mapping>, given: seq<Range>) {
    forall k :: 0 <= k < |given| ==> given[k].region < |maps| && maps[given[k].region].use == Run
  }

  ghost predicate Good(maps: seq<Mapping>, given: seq<Range>, writes: seq<Range>, cur: SplitBlock, completed: seq<SplitBlock>,
                       temp: seq<Block>, page: nat, dual: bool, final: Prot) {
    && (final == RO || final == RX) && RunOnly(maps, given)
    && AllSeparate(maps) && AllPlaced(maps, given) && Stacked(given)
    && BlocksOk(maps, given, cur, completed, page, dual, final)
    && TempsOk(maps, writes, temp, page)
    && WritesOk(maps, given, writes, cur, completed)
  }

  // ---------------------------------------------------------------- allocating

  /** Space is taken from the block in slot 0. */
  lemma TakeRuntime(maps: seq<Mapping>, given: seq<Range>, writes: seq<Range>, cur: SplitBlock, completed: seq<SplitBlock>,
                    temp: seq<Block>, page: nat, dual: bool, final: Prot, size: nat, align: nat)
    requires Good(maps, given, writes, cur, completed, temp, page, dual, final) && cur != NoSplit
    requires align > 0 && page > 0 && page % align == 0
    ensures cur.block.avail <= cur.block.total
    ensures var (p, b') := Alloc(cur.block, size, align); p.Some? ==>
      var r := Range(cur.block.region, p.value, size, align);
      && Good(maps, given + [r], writes, cur.(block := b'), completed, temp, page, dual, final)
      && (cur.state.initAlloc ==> forall k :: 0 <= k < |writes| && writes[k].region == r.region ==> EndOf(writes[k]) <= r.start)
      && (cur.state.wrInit ==>
            forall k :: 0 <= k < |writes| && writes[k].region == cur.wrRegion ==> EndOf(writes[k]) <= cur.wrPtr + (r.start - cur.block.ptr))
  {
    AllocPlaces(cur.block, size, align, page);
    if Alloc(cur.block, size, align).0.Some? {
      var (p, b') := Alloc(cur.block, size, align);
      var r := Range(cur.block.region, p.value, size, align);
      Pushed(maps, given, cur.block, size, align, page);
      TakeBlocks(maps, given, r, cur, b', completed, page, dual, final);
      forall k | 0 <= k < |writes|
        ensures OpenWrite(maps, given + [r], writes[k])
        ensures cur.state.initAlloc && writes[k].region == r.region ==> EndOf(writes[k]) <= r.start
      {
        assert OpenWrite(maps, given, writes[k]);
      }
    }
  }

  lemma TakeBlocks(maps: seq<Mapping>, given: seq<Range>, r: Range, cur: SplitBlock, b': Block, completed: seq<SplitBlock>,
                   page: nat, dual: bool, final: Prot)
    requires BlocksOk(maps, given, cur, completed, page, dual, final) && cur != NoSplit
    requires r.region == cur.block.region && b' == cur.block.(avail := b'.avail) && IsBlock(b', page)
    requires Covers(maps, b') && BelowTop(given + [r], b')
    ensures BlocksOk(maps, given + [r], cur.(block := b'), completed, page, dual, final)
  {
    forall i | 0 <= i < |completed| ensures BlockOk(maps, given + [r], completed[i], page, dual, final) {
      assert BlockOk(maps, given, completed[i], page, dual, final);
    }
    assert forall x: nat :: Raw(cur.(block := b'), x) <==> Raw(cur, x);
  }

  /** One more write: above the earlier ones of its region, in a writable place, and not within the
  current block's second map or a temporary buffer unless below their tops. */
  lemma AddWrite(maps: seq<Mapping>, given: seq<Range>, writes: seq<Range>, cur: SplitBlock, completed: seq<SplitBlock>,
                 temp: seq<Block>, page: nat, dual: bool, final: Prot, w: Range)
    requires Good(maps, given, writes, cur, completed, temp, page, dual, final)
    requires Placed(maps, w) && OpenWrite(maps, given, w)
    requires forall k :: 0 <= k < |writes| && writes[k].region == w.region ==> EndOf(writes[k]) <= w.start
    requires cur.state.wrInit && w.region == cur.wrRegion ==> EndOf(w) <= Top(ShadowBlock(cur))
    requires forall i :: 0 <= i < |temp| && temp[i].region == w.region ==> EndOf(w) <= Top(temp[i])
    ensures Good(maps, given, writes + [w], cur, completed, temp, page, dual, final)
  {
    hide BlocksOk;
  }

  /** The second map is made on first use, writable. */
  function WithShadow(cur: SplitBlock, at: nat, region: nat): SplitBlock {
    cur.(wrPtr := at, wrRegion := region, state := State(false, true, true, true))
  }

  lemma MakeShadow(maps: seq<Mapping>, given: seq<Range>, writes: seq<Range>, cur: SplitBlock, completed: seq<SplitBlock>,
                   temp: seq<Block>, page: nat, final: Prot, at: nat)
    requires Good(maps, given, writes, cur, completed, temp, page, true, final) && cur != NoSplit
    requires !cur.state.wrInit && !cur.state.initAlloc && Offered(maps, at, cur.block.total, page)
    ensures Good(Mmap(maps, at, cur.block.total, Shadow(cur.block.region)), given, writes, WithShadow(cur, at, |maps|),
                 completed, temp, page, true, final)
    ensures forall k :: 0 <= k < |writes| ==> writes[k].region != |maps|
  {
    MmapKeeps(maps, given, at, cur.block.total, Shadow(cur.block.region), page);
    MmapKeeps(maps, writes, at, cur.block.total, Shadow(cur.block.region), page);
    MmapBlocks(maps, given, cur, completed, page, true, final, at, cur.block.total, Shadow(cur.block.region));
    MmapWrites(maps, given, writes, temp, at, cur.block.total, Shadow(cur.block.region), page);
    var maps' := Mmap(maps, at, cur.block.total, Shadow(cur.block.region));
    assert BlockOk(maps', given, WithShadow(cur, at, |maps|), page, true, final);
    assert forall x: nat :: !Raw(cur, x);
    assert Raw(WithShadow(cur, at, |maps|), |maps|);
  }

  /** A new region other than for running code or keeping data leaves the blocks alone. */
  lemma MmapBlocks(maps: seq<Mapping>, given: seq<Range>, cur: SplitBlock, completed: seq<SplitBlock>,
                   page: nat, dual: bool, final: Prot, at: nat, size: nat, use: Use)
    requires BlocksOk(maps, given, cur, completed, page, dual, final) && use != Run
    ensures use == Temp ==> BlocksOk(Mmap(maps, at, size, use), given, cur, completed, page, dual, final)
    ensures forall i :: 0 <= i < |completed| ==> BlockOk(Mmap(maps, at, size, use), given, completed[i], page, dual, final)
  {
    var maps' := Mmap(maps, at, size, use);
    forall i | 0 <= i < |completed| ensures BlockOk(maps', given, completed[i], page, dual, final) {
      assert BlockOk(maps, given, completed[i], page, dual, final);
    }
  }

  lemma MmapWrites(maps: seq<Mapping>, given: seq<Range>, writes: seq<Range>, temp: seq<Block>, at: nat, size: nat, use: Use, page: nat)
    requires TempsOk(maps, writes, temp, page)
    requires forall k :: 0 <= k < |writes| ==> OpenWrite(maps, given, writes[k])
    ensures var maps' := Mmap(maps, at, size, use);
      && TempsOk(maps', writes, temp, page)
      && forall k :: 0 <= k < |writes| ==> OpenWrite(maps', given, writes[k])
  {
    var maps' := Mmap(maps, at, size, use);
    forall k | 0 <= k < |writes| ensures OpenWrite(maps', given, writes[k]) {
      assert OpenWrite(maps, given, writes[k]);
    }
    forall i | 0 <= i < |temp| ensures TempOk(maps', temp[i], page) {
      assert TempOk(maps, temp[i], page);
    }
  }

  /** The second map was made before: it only has to be made writable again. */
  lemma OpenShadow(maps: seq<Mapping>, given: seq<Range>, writes: seq<Range>, cur: SplitBlock, completed: seq<SplitBlock>,
                   temp: seq<Block>, page: nat, final: Prot)
    requires Good(maps, given, writes, cur, completed, temp, page, true, final) && cur != NoSplit
    requires cur.state.wrInit && !cur.state.wrReady
    ensures cur.wrRegion < |maps|
    ensures Good(Protect(maps, cur.wrRegion, RW), given, writes, cur.(state := State(false, true, true, true)), completed, temp, page, true, final)
  {
    var maps', cur' := Protect(maps, cur.wrRegion, RW), cur.(state := State(false, true, true, true));
    ProtectKeeps(maps, given, cur.wrRegion, RW);
    ProtectKeeps(maps, writes, cur.wrRegion, RW);
    forall i | 0 <= i < |completed| ensures BlockOk(maps', given, completed[i], page, true, final) {
      assert BlockOk(maps, given, completed[i], page, true, final);
    }
    assert forall x: nat :: Raw(cur, x) ==> Raw(cur', x);
    assert Raw(cur', cur.wrRegion);
    forall k | 0 <= k < |writes| ensures OpenWrite(maps', given, writes[k]) {
      assert OpenWrite(maps, given, writes[k]);
    }
    forall i | 0 <= i < |temp| ensures TempOk(maps', temp[i], page) {
      assert TempOk(maps, temp[i], page);
    }
  }

  lemma ProtectKeeps(maps: seq<Mapping>, given: seq<Range>, region: nat, prot: Prot)
    requires AllSeparate(maps) && AllPlaced(maps, given) && region < |maps|
    ensures AllSeparate(Protect(maps, region, prot)) && AllPlaced(Protect(maps, region, prot), given)
  {
    var maps' := Protect(maps, region, prot);
    forall i, j | 0 <= i < j < |maps'| ensures Separate(maps'[i], maps'[j]) {
      assert Separate(maps[i], maps[j]);
    }
    forall k | 0 <= k < |given| ensures Placed(maps', given[k]) { assert Placed(maps, given[k]); }
  }

  /** Where the second map shows the bytes at rt. */
  function ShadowRange(cur: SplitBlock, rt: nat, size: nat, align: nat): Range
    requires cur.block.ptr <= rt
  {
    Range(cur.wrRegion, cur.wrPtr + (rt - cur.block.ptr), size, align)
  }

  lemma ShadowWrite(maps: seq<Mapping>, given: seq<Range>, writes: seq<Range>, cur: SplitBlock, completed: seq<SplitBlock>,
                    temp: seq<Block>, page: nat, final: Prot, r: Range)
    requires Good(maps, given, writes, cur, completed, temp, page, true, final) && cur != NoSplit && cur.state.wrReady
    requires r in given && r.region == cur.block.region && page > 0 && r.align > 0 && page % r.align == 0
    requires forall k :: 0 <= k < |writes| && writes[k].region == cur.wrRegion ==>
      cur.block.ptr <= r.start && EndOf(writes[k]) <= cur.wrPtr + (r.start - cur.block.ptr)
    ensures cur.block.ptr <= r.start
    ensures Good(maps, given, writes + [ShadowRange(cur, r.start, r.size, r.align)], cur, completed, temp, page, true, final)
  {
    var k :| 0 <= k < |given| && given[k] == r;
    assert Placed(maps, r) && EndOf(r) <= Top(cur.block);
    Coarser(cur.block.ptr, page, r.align);
    Coarser(cur.wrPtr, page, r.align);
    Difference(r.start, cur.block.ptr, r.align);
    SumOfMultiples(cur.wrPtr, r.start - cur.block.ptr, r.align);
    var w := ShadowRange(cur, r.start, r.size, r.align);
    assert Behind(maps, w, cur.block.region) == r;
    forall i | 0 <= i < |temp| ensures temp[i].region != w.region { assert TempOk(maps, temp[i], page); }
    AddWrite(maps, given, writes, cur, completed, temp, page, true, final, w);
  }

  /** A write through temporary buffer i. */
  lemma TempWrite(maps: seq<Mapping>, given: seq<Range>, writes: seq<Range>, cur: SplitBlock, completed: seq<SplitBlock>,
                  temp: seq<Block>, page: nat, dual: bool, final: Prot, i: nat, size: nat, align: nat)
    requires Good(maps, given, writes, cur, completed, temp, page, dual, final)
    requires i < |temp| && align > 0 && page > 0 && page % align == 0
    ensures temp[i].avail <= temp[i].total
    ensures var (p, b') := Alloc(temp[i], size, align);
      p.Some? ==> Good(maps, given, writes + [Range(temp[i].region, p.value, size, align)], cur, completed, temp[i := b'], page, dual, final)
  {
    assert TempOk(maps, temp[i], page);
    AllocPlaces(temp[i], size, align, page);
    if Alloc(temp[i], size, align).0.Some? {
      var (p, b') := Alloc(temp[i], size, align);
      var w := Range(temp[i].region, p.value, size, align);
      Pushed(maps, writes, temp[i], size, align, page);
      assert cur != NoSplit && cur.state.wrInit ==> maps[cur.wrRegion].use.Shadow?;
      hide BlocksOk;
      var temp' := temp[i := b'];
      forall j | 0 <= j < |temp| ensures TempOk(maps, temp'[j], page) && BelowTop(writes + [w], temp'[j]) {
        assert TempOk(maps, temp[j], page) && BelowTop(writes, temp[j]);
      }
    }
  }

  /** Another temporary buffer. */
  lemma MakeTemp(maps: seq<Mapping>, given: seq<Range>, writes: seq<Range>, cur: SplitBlock, completed: seq<SplitBlock>,
                 temp: seq<Block>, page: nat, dual: bool, final: Prot, at: nat, size: nat)
    requires Good(maps, given, writes, cur, completed, temp, page, dual, final)
    requires Offered(maps, at, size, page) && size % page == 0
    ensures Good(Mmap(maps, at, size, Temp), given, writes, cur, completed, temp + [Block(at, size, size, |maps|)], page, dual, final)
  {
    hide BlocksOk;
    MmapKeeps(maps, given, at, size, Temp, page);
    MmapKeeps(maps, writes, at, size, Temp, page);
    MmapBlocks(maps, given, cur, completed, page, dual, final, at, size, Temp);
    MmapWrites(maps, given, writes, temp, at, size, Temp, page);
    forall i | 0 <= i < |temp| ensures temp[i].region != |maps| { assert TempOk(maps, temp[i], page); }
  }

  /** A block that is written through temporary buffers is marked as used. */
  lemma MarkUsed(maps: seq<Mapping>, given: seq<Range>, writes: seq<Range>, cur: SplitBlock, completed: seq<SplitBlock>,
                 temp: seq<Block>, page: nat, dual: bool, final: Prot)
    requires Good(maps, given, writes, cur, completed, temp, page, dual, final) && cur != NoSplit
    requires dual ==> cur.state.wrReady
    ensures Good(maps, given, writes, cur.(state := cur.state.(alloc := true)), completed, temp, page, dual, final)
  {
    var cur' := cur.(state := cur.state.(alloc := true));
    assert forall x: nat :: Raw(cur', x) <==> Raw(cur, x);
  }

  // ---------------------------------------------------------------- replacing a block

  function NewSplit(at: nat, size: nat, region: nat): SplitBlock {
    SplitBlock(Block(at, size, size, region), 0, 0, State(true, true, false, false))
  }

  /** A new block takes the place of a full one, which is completed or, if nothing was allocated in it
  since the last finalization and it has no second map, dropped. */
  lemma ReplaceBlock(maps: seq<Mapping>, given: seq<Range>, writes: seq<Range>, cur: SplitBlock, completed: seq<SplitBlock>,
                     temp: seq<Block>, page: nat, dual: bool, final: Prot, at: nat, size: nat)
    requires Good(maps, given, writes, cur, completed, temp, page, dual, final)
    requires cur == NoSplit || cur.state != Unused
    requires Offered(maps, at, size, page) && size % page == 0
    ensures Good(Mmap(maps, at, size, Run), given, writes, NewSplit(at, size, |maps|),
                 if cur == NoSplit then completed else completed + [cur], temp, page, dual, final)
  {
    hide BlocksOk, TempsOk;
    MmapKeeps(maps, given, at, size, Run, page);
    MmapKeeps(maps, writes, at, size, Run, page);
    MmapWrites(maps, given, writes, temp, at, size, Run, page);
    ReplaceBlocks(maps, given, cur, completed, page, dual, final, at, size);
  }

  lemma ReplaceBlocks(maps: seq<Mapping>, given: seq<Range>, cur: SplitBlock, completed: seq<SplitBlock>,
                      page: nat, dual: bool, final: Prot, at: nat, size: nat)
    requires BlocksOk(maps, given, cur, completed, page, dual, final) && AllPlaced(maps, given)
    requires cur == NoSplit || cur.state != Unused
    requires Offered(maps, at, size, page) && size % page == 0
    ensures BlocksOk(Mmap(maps, at, size, Run), given, NewSplit(at, size, |maps|),
                     if cur == NoSplit then completed else completed + [cur], page, dual, final)
  {
    hide ProtOk, StateOk;
    var maps', completed' := Mmap(maps, at, size, Run), if cur == NoSplit then completed else completed + [cur];
    ReplaceProt(maps, cur, completed, final, at, size);
    forall i | 0 <= i < |completed'| ensures BlockOk(maps', given, completed'[i], page, dual, final) {
      assert BlockOk(maps, given, completed'[i], page, dual, final);
    }
    forall k | 0 <= k < |given| ensures given[k].region != |maps| { assert Placed(maps, given[k]); }
    assert BlockOk(maps', given, NewSplit(at, size, |maps|), page, dual, final) by { NewStateOk(dual); }
  }

  lemma NewStateOk(dual: bool)
    ensures StateOk(dual, State(true, true, false, false))
  {
  }

  lemma ReplaceProt(maps: seq<Mapping>, cur: SplitBlock, completed: seq<SplitBlock>, final: Prot, at: nat, size: nat)
    requires ProtOk(maps, cur, completed, final)
    ensures ProtOk(Mmap(maps, at, size, Run), NewSplit(at, size, |maps|),
                   if cur == NoSplit then completed else completed + [cur], final)
  {
    var maps', completed' := Mmap(maps, at, size, Run), if cur == NoSplit then completed else completed + [cur];
    assert Raw(NewSplit(at, size, |maps|), |maps|);
    forall r | 0 <= r < |maps'| && !AtRest(maps'[r], final)
      ensures Raw(NewSplit(at, size, |maps|), r) || exists i :: 0 <= i < |completed'| && Raw(completed'[i], r)
    {
      if r < |maps| {
        if Raw(cur, r) {
          assert Raw(completed'[|completed|], r);
        } else {
          var i :| 0 <= i < |completed| && Raw(completed[i], r);
          assert Raw(completed'[i], r);
        }
      }
    }
  }

  lemma DropBlock(maps: seq<Mapping>, given: seq<Range>, writes: seq<Range>, cur: SplitBlock, completed: seq<SplitBlock>,
                  temp: seq<Block>, page: nat, dual: bool, final: Prot)
    requires Good(maps, given, writes, cur, completed, temp, page, dual, final) && cur != NoSplit && cur.state == Unused
    ensures Good(Cut(maps, cur.block.region, ResetCut(cur.block, page)), given, writes, NoSplit, completed, temp, page, dual, final)
    ensures forall at: nat, size: nat ::
      Offered(maps, at, size, page) ==> Offered(Cut(maps, cur.block.region, ResetCut(cur.block, page)), at, size, page)
  {
    CutKeeps(maps, given, cur.block, page);
    CutRest(maps, given, writes, completed, temp, page, dual, final, cur.block.region, ResetCut(cur.block, page));
    CutAboveTop(cur.block, page);
  }

  /** Cutting the region of a block that is given up, at rest, leaves the rest as it is. */
  lemma CutRest(maps: seq<Mapping>, given: seq<Range>, writes: seq<Range>, completed: seq<SplitBlock>, temp: seq<Block>,
                page: nat, dual: bool, final: Prot, region: nat, hi: nat)
    requires region < |maps| && maps[region].prot != RW && maps[region].lo <= hi <= maps[region].hi
    requires forall i :: 0 <= i < |completed| ==> BlockOk(maps, given, completed[i], page, dual, final)
    requires forall i :: 0 <= i < |completed| ==> completed[i].block.region != region
    requires forall i :: 0 <= i < |completed| && completed[i].state.wrInit ==> completed[i].wrRegion != region
    requires TempsOk(maps, writes, temp, page) && AllPlaced(maps, writes)
    requires forall k :: 0 <= k < |writes| ==> OpenWrite(maps, given, writes[k])
    ensures var maps' := Cut(maps, region, hi);
      && (forall i :: 0 <= i < |completed| ==> BlockOk(maps', given, completed[i], page, dual, final))
      && TempsOk(maps', writes, temp, page) && AllPlaced(maps', writes)
      && forall k :: 0 <= k < |writes| ==> OpenWrite(maps', given, writes[k])
  {
    var maps' := Cut(maps, region, hi);
    forall i | 0 <= i < |completed| ensures BlockOk(maps', given, completed[i], page, dual, final) {
      assert BlockOk(maps, given, completed[i], page, dual, final);
    }
    forall i | 0 <= i < |temp| ensures TempOk(maps', temp[i], page) { assert TempOk(maps, temp[i], page); }
    forall k | 0 <= k < |writes| ensures OpenWrite(maps', given, writes[k]) && Placed(maps', writes[k]) {
      assert OpenWrite(maps, given, writes[k]) && Placed(maps, writes[k]);
    }
  }

  // ---------------------------------------------------------------- finalizing

  /** Nobody writes any more. */
  lemma WritesEnd(maps: seq<Mapping>, given: seq<Range>, writes: seq<Range>, cur: SplitBlock, completed: seq<SplitBlock>,
                  temp: seq<Block>, page: nat, dual: bool, final: Prot)
    requires Good(maps, given, writes, cur, completed, temp, page, dual, final)
    ensures Good(maps, given, [], cur, completed, temp, page, dual, final)
  {
    hide BlocksOk;
    forall i | 0 <= i < |temp| ensures TempOk(maps, temp[i], page) && BelowTop([], temp[i]) {
      assert TempOk(maps, temp[i], page);
    }
  }

  /** Only the regions of block b changed, and they are at rest now. */
  ghost predicate Settles(maps: seq<Mapping>, maps': seq<Mapping>, b: SplitBlock, final: Prot) {
    && |maps'| == |maps| && b.block.region < |maps|
    && (forall r :: 0 <= r < |maps| ==> r == b.block.region || (b.state.wrInit && r == b.wrRegion) || maps'[r] == maps[r])
    && AtRest(maps'[b.block.region], final)
    && (b.state.wrInit ==> b.wrRegion < |maps| && AtRest(maps'[b.wrRegion], final))
  }

  /** A completed block may be forgotten once its regions are at rest. */
  lemma Forget(maps: seq<Mapping>, maps': seq<Mapping>, given: seq<Range>, cur: SplitBlock, b: SplitBlock, rest: seq<SplitBlock>,
               temp: seq<Block>, page: nat, dual: bool, final: Prot)
    requires Good(maps, given, [], cur, [b] + rest, temp, page, dual, final) && Settles(maps, maps', b, final)
    requires AllSeparate(maps') && AllPlaced(maps', given) && RunOnly(maps', given)
    ensures Good(maps', given, [], cur, rest, temp, page, dual, final)
  {
    assert ([b] + rest)[0] == b;
    assert BlockOk(maps, given, b, page, dual, final);
    ForgetBlocks(maps, maps', given, cur, b, rest, page, dual, final);
    RunAndShadow(maps, given, b, page, dual, final);
    hide BlocksOk, BlockOk;
    forall i | 0 <= i < |temp| ensures TempOk(maps', temp[i], page) && BelowTop([], temp[i]) {
      assert TempOk(maps, temp[i], page);
    }
  }

  lemma ForgetBlocks(maps: seq<Mapping>, maps': seq<Mapping>, given: seq<Range>, cur: SplitBlock, b: SplitBlock, rest: seq<SplitBlock>,
                     page: nat, dual: bool, final: Prot)
    requires BlocksOk(maps, given, cur, [b] + rest, page, dual, final) && Settles(maps, maps', b, final)
    ensures BlocksOk(maps', given, cur, rest, page, dual, final)
  {
    var all := [b] + rest;
    assert all[0] == b && forall i :: 0 <= i < |rest| ==> all[i + 1] == rest[i];
    assert BlockOk(maps, given, b, page, dual, final);
    assert StateOk(dual, b.state);
    ForgetDistinct(b, rest);
    ForgetProt(maps, maps', cur, b, rest, final);
    hide ProtOk, BlockOk, StateOk, Settles;
    forall i | 0 <= i < |rest|
      ensures BlockOk(maps', given, rest[i], page, dual, final)
      ensures cur != NoSplit ==> rest[i].block.region != cur.block.region
    {
      assert all[i + 1] == rest[i];
      OthersKept(maps, maps', given, b, rest[i], page, dual, final);
    }
    if cur != NoSplit { OthersKept(maps, maps', given, b, cur, page, dual, final); }
  }

  lemma RunAndShadow(maps: seq<Mapping>, given: seq<Range>, b: SplitBlock, page: nat, dual: bool, final: Prot)
    requires BlockOk(maps, given, b, page, dual, final)
    ensures b.block.region < |maps| && maps[b.block.region].use == Run
    ensures b.state.wrInit ==> b.wrRegion < |maps| && maps[b.wrRegion].use == Shadow(b.block.region)
  {
  }

  lemma ForgetDistinct(b: SplitBlock, rest: seq<SplitBlock>)
    requires var all := [b] + rest;
      forall i, j :: 0 <= i < j < |all| ==> all[i].block.region != all[j].block.region
    ensures forall i, j :: 0 <= i < j < |rest| ==> rest[i].block.region != rest[j].block.region
    ensures forall i :: 0 <= i < |rest| ==> rest[i].block.region != b.block.region
  {
    var all := [b] + rest;
    forall i, j | 0 <= i < j < |rest| ensures rest[i].block.region != rest[j].block.region {
      assert all[i + 1] == rest[i] && all[j + 1] == rest[j];
    }
    forall i | 0 <= i < |rest| ensures rest[i].block.region != b.block.region {
      assert all[0] == b && all[i + 1] == rest[i];
    }
  }

  lemma OthersKept(maps: seq<Mapping>, maps': seq<Mapping>, given: seq<Range>, b: SplitBlock, other: SplitBlock,
                   page: nat, dual: bool, final: Prot)
    requires BlockOk(maps, given, b, page, dual, final) && BlockOk(maps, given, other, page, dual, final)
    requires Settles(maps, maps', b, final) && b.block.region != other.block.region
    ensures BlockOk(maps', given, other, page, dual, final)
  {
  }

  lemma ForgetProt(maps: seq<Mapping>, maps': seq<Mapping>, cur: SplitBlock, b: SplitBlock, rest: seq<SplitBlock>, final: Prot)
    requires ProtOk(maps, cur, [b] + rest, final) && Settles(maps, maps', b, final) && (b.state.wrReady ==> b.state.wrInit)
    ensures ProtOk(maps', cur, rest, final)
  {
    forall r | 0 <= r < |maps'| && !AtRest(maps'[r], final) && !Raw(cur, r)
      ensures exists i :: 0 <= i < |rest| && Raw(rest[i], r)
    {
      var i :| 0 <= i < |[b] + rest| && Raw(([b] + rest)[i], r);
      assert i > 0 && Raw(rest[i - 1], r);
    }
  }

  /** What finalizing a completed block does to the mappings: see FinalizeBlock and reset. */
  function Finished(maps: seq<Mapping>, b: SplitBlock, page: nat, dual: bool, final: Prot): seq<Mapping>
    requires IsBlock(b.block, page) && b.block.region < |maps| && (b.state.wrInit ==> b.wrRegion < |maps|)
  {
    var maps1 :=
      if b.state.initAlloc then Protect(maps, b.block.region, final)
      else if b.state.wrInit then Cut(maps, b.wrRegion, b.wrPtr)
      else maps;
    Cut(maps1, b.block.region, ResetCut(b.block, page))
  }

  lemma FinishCompleted(maps: seq<Mapping>, given: seq<Range>, cur: SplitBlock, b: SplitBlock, rest: seq<SplitBlock>,
                        temp: seq<Block>, page: nat, dual: bool, final: Prot)
    requires Good(maps, given, [], cur, [b] + rest, temp, page, dual, final)
    ensures BlockOk(maps, given, b, page, dual, final)
    ensures Good(Finished(maps, b, page, dual, final), given, [], cur, rest, temp, page, dual, final)
  {
    hide Finished, Settles;
    assert ([b] + rest)[0] == b;
    assert BlockOk(maps, given, b, page, dual, final);
    FinishedKeeps(maps, given, b, page, dual, final);
    FinishedSettles(maps, given, b, page, dual, final);
    Forget(maps, Finished(maps, b, page, dual, final), given, cur, b, rest, temp, page, dual, final);
  }

  lemma FinishedSettles(maps: seq<Mapping>, given: seq<Range>, b: SplitBlock, page: nat, dual: bool, final: Prot)
    requires BlockOk(maps, given, b, page, dual, final)
    ensures Settles(maps, Finished(maps, b, page, dual, final), b, final)
  {
  }

  lemma FinishedKeeps(maps: seq<Mapping>, given: seq<Range>, b: SplitBlock, page: nat, dual: bool, final: Prot)
    requires BlockOk(maps, given, b, page, dual, final)
    requires AllSeparate(maps) && AllPlaced(maps, given) && RunOnly(maps, given)
    ensures var maps' := Finished(maps, b, page, dual, final);
      AllSeparate(maps') && AllPlaced(maps', given) && RunOnly(maps', given)
  {
    if b.state.initAlloc {
      ProtectKeeps(maps, given, b.block.region, final);
      CutKeeps(Protect(maps, b.block.region, final), given, b.block, page);
    } else if b.state.wrInit {
      CutShadow(maps, given, b.wrRegion, b.wrPtr);
      CutKeeps(Cut(maps, b.wrRegion, b.wrPtr), given, b.block, page);
    } else {
      CutKeeps(maps, given, b.block, page);
    }
  }

  lemma CutShadow(maps: seq<Mapping>, given: seq<Range>, region: nat, hi: nat)
    requires AllSeparate(maps) && AllPlaced(maps, given) && RunOnly(maps, given)
    requires region < |maps| && maps[region].use != Run && hi <= maps[region].hi
    ensures AllSeparate(Cut(maps, region, hi)) && AllPlaced(Cut(maps, region, hi), given)
  {
    var maps' := Cut(maps, region, hi);
    forall k | 0 <= k < |given| ensures Placed(maps', given[k]) { assert Placed(maps, given[k]); }
    forall i, j | 0 <= i < j < |maps'| ensures Separate(maps'[i], maps'[j]) {
      assert Separate(maps[i], maps[j]);
    }
  }

  /** The current block stays: it gets its final protection, or its second map is closed. */
  function Paused(maps: seq<Mapping>, b: SplitBlock, final: Prot): (seq<Mapping>, SplitBlock)
    requires b.block.region < |maps| && (b.state.wrInit ==> b.wrRegion < |maps|)
  {
    if b.state.initAlloc then (Protect(maps, b.block.region, final), b.(state := Unused))
    else if b.state.alloc && b.state.wrInit then (Protect(maps, b.wrRegion, NO), b.(state := State(false, false, true, false)))
    else (maps, b)
  }

  lemma PauseCurrent(maps: seq<Mapping>, given: seq<Range>, cur: SplitBlock, completed: seq<SplitBlock>,
                     temp: seq<Block>, page: nat, dual: bool, final: Prot)
    requires Good(maps, given, [], cur, completed, temp, page, dual, final) && cur != NoSplit
    ensures cur.block.region < |maps| && (cur.state.wrInit ==> cur.wrRegion < |maps|)
    ensures var (maps', cur') := Paused(maps, cur, final);
      Good(maps', given, [], cur', completed, temp, page, dual, final) && forall r: nat :: !Raw(cur', r)
  {
    var (maps', cur') := Paused(maps, cur, final);
    if cur.state.initAlloc { ProtectKeeps(maps, given, cur.block.region, final); }
    else if cur.state.alloc && cur.state.wrInit { ProtectKeeps(maps, given, cur.wrRegion, NO); }
    forall i | 0 <= i < |completed| ensures BlockOk(maps', given, completed[i], page, dual, final) {
      assert BlockOk(maps, given, completed[i], page, dual, final);
    }
    forall i | 0 <= i < |temp| ensures TempOk(maps', temp[i], page) && BelowTop([], temp[i]) {
      assert TempOk(maps, temp[i], page);
    }
  }

  /** The first temporary buffer is kept and starts over. */
  lemma RewindTemp(maps: seq<Mapping>, given: seq<Range>, cur: SplitBlock, completed: seq<SplitBlock>,
                   temp: seq<Block>, page: nat, dual: bool, final: Prot)
    requires Good(maps, given, [], cur, completed, temp, page, dual, final) && temp != []
    ensures Good(maps, given, [], cur, completed, temp[0 := temp[0].(avail := temp[0].total)], page, dual, final)
  {
    hide BlocksOk;
    var temp' := temp[0 := temp[0].(avail := temp[0].total)];
    forall i | 0 <= i < |temp'| ensures TempOk(maps, temp'[i], page) && BelowTop([], temp'[i]) {
      assert TempOk(maps, temp[i], page);
    }
  }

  /** The others are unmapped. */
  lemma DropTemp(maps: seq<Mapping>, given: seq<Range>, cur: SplitBlock, completed: seq<SplitBlock>,
                 first: Block, t: Block, rest: seq<Block>, page: nat, dual: bool, final: Prot)
    requires Good(maps, given, [], cur, completed, [first, t] + rest, page, dual, final)
    ensures t.region < |maps| && maps[t.region].lo == t.ptr <= maps[t.region].hi && maps[t.region].use == Temp
    ensures Good(Cut(maps, t.region, t.ptr), given, [], cur, completed, [first] + rest, page, dual, final)
  {
    assert ([first, t] + rest)[1] == t;
    assert TempOk(maps, t, page);
    CutShadow(maps, given, t.region, t.ptr);
    CutTempBlocks(maps, given, cur, completed, page, dual, final, t.region, t.ptr);
    DropTempRest(maps, first, t, rest, page);
    hide BlocksOk, TempsOk;
  }

  lemma DropTempRest(maps: seq<Mapping>, first: Block, t: Block, rest: seq<Block>, page: nat)
    requires TempsOk(maps, [], [first, t] + rest, page) && t.region < |maps|
    ensures TempsOk(Cut(maps, t.region, t.ptr), [], [first] + rest, page)
  {
    hide TempOk;
    var all, left := [first, t] + rest, [first] + rest;
    var maps' := Cut(maps, t.region, t.ptr);
    forall i | 0 <= i < |left| ensures TempOk(maps', left[i], page) && BelowTop([], left[i]) {
      var k := Skip(first, t, rest, i);
      KeptTemp(maps, all, page, k, t.region, t.ptr);
    }
    forall i, j | 0 <= i < j < |left| ensures left[i].region != left[j].region {
      var k := Skip(first, t, rest, i);
      var l := Skip(first, t, rest, j);
      assert all[k].region != all[l].region;
    }
  }

  /** Where an entry was before the second one was taken out. */
  lemma Skip(first: Block, t: Block, rest: seq<Block>, i: nat) returns (k: nat)
    requires i <= |rest|
    ensures k == (if i == 0 then 0 else i + 1) < |[first, t] + rest| && ([first, t] + rest)[k] == ([first] + rest)[i]
    ensures ([first, t] + rest)[1] == t
  {
    k := if i == 0 then 0 else i + 1;
  }

  lemma KeptTemp(maps: seq<Mapping>, temp: seq<Block>, page: nat, k: nat, region: nat, hi: nat)
    requires TempsOk(maps, [], temp, page) && k < |temp| && |temp| > 1 && k != 1 && temp[1].region == region < |maps|
    ensures TempOk(Cut(maps, region, hi), temp[k], page)
  {
    assert TempOk(maps, temp[k], page);
    assert temp[if k < 1 then k else 1].region != temp[if k < 1 then 1 else k].region;
  }

  lemma CutTempBlocks(maps: seq<Mapping>, given: seq<Range>, cur: SplitBlock, completed: seq<SplitBlock>,
                      page: nat, dual: bool, final: Prot, region: nat, hi: nat)
    requires BlocksOk(maps, given, cur, completed, page, dual, final) && region < |maps| && maps[region].use == Temp
    ensures BlocksOk(Cut(maps, region, hi), given, cur, completed, page, dual, final)
  {
    var maps' := Cut(maps, region, hi);
    forall i | 0 <= i < |completed| ensures BlockOk(maps', given, completed[i], page, dual, final) {
      assert BlockOk(maps, given, completed[i], page, dual, final);
    }
  }

  // ---------------------------------------------------------------- the allocator object

  /** What an allocator may do to its mappings between two points in time: regions keep their place and
  use, they only get shorter, those that have their final protection keep it, and new ones lie
  where the system offered them. */
  ghost predicate Advances(maps: seq<Mapping>, maps': seq<Mapping>, final: Prot, at: nat, size: nat) {
    && |maps| <= |maps'|
    && (forall r :: 0 <= r < |maps| ==> Aged(maps[r], maps'[r], final))
    && forall r :: |maps| <= r < |maps'| ==> maps'[r].lo == at && maps'[r].hi == at + size
  }

  predicate Aged(m: Mapping, m': Mapping, final: Prot) {
    m'.lo == m.lo && m'.hi <= m.hi && m'.use == m.use && (m.use == Run && m.prot == final ==> m'.prot == final)
  }

  class ROAllocator {
    const page: nat
    const dual: bool // DualMapAllocator, or else SelfMemAllocator
    const exec: bool
    var blocks: seq<SplitBlock>
    var completed: seq<SplitBlock>
    var temp: seq<Block>
    var maps: seq<Mapping>
    ghost var given: seq<Range>  // all that was handed out, at its runtime address
    ghost var writes: seq<Range> // where what was handed out since the last finalization is written

    ghost predicate Valid()
      reads this
    {
      && page > 0 && |blocks| == 8 && (forall i :: 1 <= i < 8 ==> blocks[i] == NoSplit)
      && Good(maps, given, writes, blocks[0], completed, temp, page, dual, Final(exec))
    }

    constructor (page: nat, dual: bool, exec: bool)
      requires page > 0
      ensures Valid() && this.page == page && this.dual == dual && this.exec == exec
      ensures maps == [] && given == [] && writes == [] && blocks[0] == NoSplit
    {
      this.page, this.dual, this.exec := page, dual, exec;
      blocks := [NoSplit, NoSplit, NoSplit, NoSplit, NoSplit, NoSplit, NoSplit, NoSplit];
      completed, temp, maps, given, writes := [], [], [], [], [];
    }

    /** How large a second map or temporary buffer would be. */
    ghost function WriteSize(size: nat): nat
      requires page > 0 && |blocks| == 8
      reads this
    {
      if dual then blocks[0].block.total else BlockSize(size, page)
    }

    /** The two conditional steps of DualMapAllocator::get_wr_ptr: afterwards the second map is there and
    writable. */
    method PrepareShadow(b: SplitBlock, at: nat) returns (b': SplitBlock)
      requires dual && b != NoSplit && !b.state.initAlloc && page > 0
      requires Good(maps, given, writes, b, completed, temp, page, dual, Final(exec))
      requires Offered(maps, at, b.block.total, page)
      modifies this`maps
      ensures b'.block == b.block && b'.state.(alloc := true) == State(false, true, true, true)
      ensures Good(maps, given, writes, b'.(state := State(false, true, true, true)), completed, temp, page, dual, Final(exec))
      ensures Advances(old(maps), maps, Final(exec), at, b.block.total)
      ensures b.state.wrInit ==> b'.wrRegion == b.wrRegion && b'.wrPtr == b.wrPtr
      ensures !b.state.wrInit ==> forall k :: 0 <= k < |writes| ==> writes[k].region != b'.wrRegion
    {
      hide Good, Offered;
      ShadowCases(maps, given, writes, b, completed, temp, page, Final(exec), at);
      b' := b;
      if !b'.state.wrInit {
        b' := b'.(wrPtr := at, wrRegion := |maps|, state := b'.state.(wrInit := true));
        maps := Mmap(maps, at, b.block.total, Shadow(b.block.region));
      }
      if !b'.state.wrReady {
        maps := Protect(maps, b'.wrRegion, RW);
        b' := b'.(state := b'.state.(wrReady := true));
      }
    }

    /** DualMapAllocator::get_wr_ptr */
    method DualWrPtr(b: SplitBlock, ghost r: Range, rt: nat, at: nat) returns (b': SplitBlock, wr: nat)
      requires dual && b != NoSplit && !b.state.initAlloc && page > 0
      requires Good(maps, given, writes, b, completed, temp, page, dual, Final(exec))
      requires r in given && r.region == b.block.region && r.start == rt && r.align > 0 && page % r.align == 0
      requires b.block.ptr <= rt && rt + r.size == Top(b.block) && b.block.avail <= b.block.total
      requires b.state.wrInit ==>
        forall k :: 0 <= k < |writes| && writes[k].region == b.wrRegion ==> EndOf(writes[k]) <= b.wrPtr + (rt - b.block.ptr)
      requires Offered(maps, at, b.block.total, page)
      modifies this`maps, this`writes
      ensures b'.block == b.block && b'.state.(alloc := true) == State(false, true, true, true)
      ensures Good(maps, given, writes, b'.(state := State(false, true, true, true)), completed, temp, page, dual, Final(exec))
      ensures writes == old(writes) + [Range(b'.wrRegion, wr, r.size, r.align)]
      ensures Advances(old(maps), maps, Final(exec), at, b.block.total)
    {
      hide Good, Offered, Advances;
      // the source asserts b.block.ptr <= rt < End(b.block); see WrPtrAssertIff for when it does not hold
      assert b.block.ptr <= rt && (rt < End(b.block) <==> r.size > 0 || b.block.avail > 0);
      b' := PrepareShadow(b, at);
      ShadowWrite(maps, given, writes, b'.(state := State(false, true, true, true)), completed, temp, page, Final(exec), r);
      wr := b'.wrPtr + (rt - b'.block.ptr);
      writes := writes + [ShadowRange(b', rt, r.size, r.align)];
    }

    /** SelfMemAllocator::get_wr_ptr */
    method TempWrPtr(ghost b: SplitBlock, size: nat, align: nat, at: nat) returns (wr: nat, wrRegion: nat)
      requires Good(maps, given, writes, b, completed, temp, page, dual, Final(exec))
      requires align > 0 && page > 0 && page % align == 0
      requires Offered(maps, at, BlockSize(size, page), page)
      modifies this`maps, this`temp, this`writes
      ensures Good(maps, given, writes, b, completed, temp, page, dual, Final(exec))
      ensures writes == old(writes) + [Range(wrRegion, wr, size, align)]
      ensures Advances(old(maps), maps, Final(exec), at, BlockSize(size, page))
    {
      hide Good;
      for i := 0 to |temp|
        invariant Good(maps, given, writes, b, completed, temp, page, dual, Final(exec))
        invariant maps == old(maps) && temp == old(temp) && writes == old(writes)
      {
        TempWrite(maps, given, writes, b, completed, temp, page, dual, Final(exec), i, size, align);
        var (r, t) := Alloc(temp[i], size, align);
        if r.Some? {
          temp := temp[i := t];
          writes := writes + [Range(t.region, r.value, size, align)];
          return r.value, t.region;
        }
      }
      var blockSize := BlockSize(size, page);
      BlockSizeFits(size, page);
      MakeTemp(maps, given, writes, b, completed, temp, page, dual, Final(exec), at, blockSize);
      temp := temp + [Block(at, blockSize, blockSize, |maps|)];
      maps := Mmap(maps, at, blockSize, Temp);
      var last := |temp| - 1;
      FreshHasRoom(temp[last], size, align, page);
      TempWrite(maps, given, writes, b, completed, temp, page, dual, Final(exec), last, size, align);
      var (r, t) := Alloc(temp[last], size, align);
      temp := temp[last := t];
      writes := writes + [Range(t.region, r.value, size, align)];
      wr, wrRegion := r.value, t.region;
    }
  
    /** One successful allocation from the block in slot 0, at runtime address rt. */
    method Serve(rt: nat, b: Block, size: nat, align: nat, wrAt: nat) returns (a: Allocation)
      requires Valid() && blocks[0] != NoSplit && align > 0 && page % align == 0
      requires blocks[0].block.avail <= blocks[0].block.total && Alloc(blocks[0].block, size, align) == (Some(rt), b)
      requires Offered(maps, wrAt, WriteSize(size), page)
      modifies this
      ensures Valid() && a.rt == rt && a.size == size && a.region == b.region
      ensures given == old(given) + [Range(a.region, rt, size, align)]
      ensures writes == old(writes) + [Range(a.wrRegion, a.wr, size, align)]
      ensures Advances(old(maps), maps, Final(exec), wrAt, old(WriteSize(size))) && completed == old(completed)
    {
      hide Good, Offered, Advances, Alloc, BlockOk;
      ghost var r := Range(b.region, rt, size, align);
      SlotFacts(maps, given, writes, blocks[0], completed, temp, page, dual, Final(exec), size, align);
      SameMaps(maps, Final(exec), wrAt, WriteSize(size));
      given := given + [r];
      var sb := blocks[0].(block := b);
      var wr, wrRegion := rt, b.region;
      if sb.state.initAlloc {
        writes := writes + [r];
      } else if dual {
        sb, wr := DualWrPtr(sb, r, rt, wrAt);
        wrRegion := sb.wrRegion;
      } else {
        assert !sb.state.initAlloc; // asserted by the source
        wr, wrRegion := TempWrPtr(sb, size, align, wrAt);
        MarkUsed(maps, given, writes, sb, completed, temp, page, dual, Final(exec));
      }
      sb := sb.(state := sb.state.(alloc := true));
      blocks := blocks[0 := sb];
      a := Allocation(wr, rt, size, b.region, wrRegion);
    }

    /** alloc_block and what becomes of the block it replaces in slot 0. */
    method MakeBlock(at: nat, blockSize: nat) returns (newBlock: SplitBlock)
      requires Valid() && Offered(maps, at, blockSize, page) && blockSize % page == 0
      modifies this`maps, this`completed
      ensures newBlock == NewSplit(at, blockSize, |old(maps)|)
      ensures blocks[0] != NoSplit && blocks[0].state == Unused ==> Trimmed(maps, blocks[0].block, page)
      ensures completed == old(completed) + if blocks[0].state != Unused then [blocks[0]] else []
      ensures Good(maps, given, writes, newBlock, completed, temp, page, dual, Final(exec))
      ensures Advances(old(maps), maps, Final(exec), at, blockSize)
    {
      hide Good, Offered, Advances;
      ReplaceCases(maps, given, writes, blocks[0], completed, temp, page, dual, Final(exec), at, blockSize);
      var before := blocks[0];
      newBlock := NewSplit(at, blockSize, |maps|);
      maps := Mmap(maps, at, blockSize, Run);
      if before.state != Unused {
        completed := completed + [before];
      } else if before.block.ptr != 0 {
        maps := Cut(maps, before.block.region, ResetCut(before.block, page));
      }
    }

    /** The block in slot 0 is full: a new one takes its place, writable for a start. */
    method Replace(size: nat, align: nat, at: nat) returns (a: Allocation)
      requires Valid() && align > 0 && page % align == 0
      requires Offered(maps, at, BlockSize(size, page), page)
      modifies this
      ensures Valid() && a.size == size
      ensures given == old(given) + [Range(a.region, a.rt, size, align)]
      ensures writes == old(writes) + [Range(a.wrRegion, a.wr, size, align)]
      ensures Advances(old(maps), maps, Final(exec), at, BlockSize(size, page))
      ensures blocks[0] == FirstUse(at, |old(maps)|, size, align, page) && a.region == |old(maps)| && a.rt == a.wr == at
      ensures old(blocks[0]) != NoSplit && old(blocks[0]).state == Unused ==> Trimmed(maps, old(blocks[0]).block, page)
      ensures completed == old(completed) + if old(blocks[0]).state != Unused then [old(blocks[0])] else []
    {
      var blockSize := BlockSize(size, page);
      BlockSizeFits(size, page);
      FreshFacts(at, blockSize, |maps|, size, align, page);
      hide Good, Alloc, Advances, Offered, BlockSize;
      var newBlock := MakeBlock(at, blockSize);
      SlotFacts(maps, given, writes, newBlock, completed, temp, page, dual, Final(exec), size, align);
      var (r, b) := Alloc(newBlock.block, size, align);
      given := given + [Range(b.region, r.value, size, align)];
      writes := writes + [Range(b.region, r.value, size, align)];
      blocks := blocks[0 := newBlock.(block := b)];
      a := Allocation(r.value, r.value, size, b.region, b.region);
    }

    /** ROAllocator::alloc; `at` is where the system would map another block, `wrAt` where it would map
    a second view of a block or a temporary buffer. */
    method Allocate(size: nat, align: nat, at: nat, wrAt: nat) returns (a: Allocation)
      requires Valid() && align > 0 && page % align == 0
      requires Offered(maps, at, BlockSize(size, page), page) && Offered(maps, wrAt, WriteSize(size), page)
      modifies this
      ensures Valid() && a.size == size
      ensures given == old(given) + [Range(a.region, a.rt, size, align)]
      ensures writes == old(writes) + [Range(a.wrRegion, a.wr, size, align)]
      ensures Advances(old(maps), maps, Final(exec), at, BlockSize(size, page))
           || Advances(old(maps), maps, Final(exec), wrAt, old(WriteSize(size)))
      ensures old(blocks[0]) == NoSplit ==> blocks[0] == FirstUse(at, |old(maps)|, size, align, page)
      // as for RWAllocator: the lowest place in the old block, or else a new block
      ensures old(blocks[0]) != NoSplit && HasPlace(old(blocks[0]).block, size, align) ==>
                a.region == old(blocks[0]).block.region && completed == old(completed)
                && forall p: nat :: IsPlace(old(blocks[0]).block, size, align, p) ==> a.rt <= p
      ensures old(blocks[0]) == NoSplit || !HasPlace(old(blocks[0]).block, size, align) ==>
                a.region == |old(maps)| && a.rt == a.wr == at
                && completed == old(completed) + (if old(blocks[0]).state != Unused then [old(blocks[0])] else [])
                && (old(blocks[0]) != NoSplit && old(blocks[0]).state == Unused ==> Trimmed(maps, old(blocks[0]).block, page))
    {
      hide Good, Offered, Advances, Alloc, FirstUse;
      SlotIsBlock(maps, given, writes, blocks[0], completed, temp, page, dual, Final(exec));
      var minSize: nat, minId: nat := 0xFFFF_FFFF_FFFF_FFFF, 0;
      var i: nat := 0;
      while i < 8 && blocks[i].block.ptr != 0
        invariant i <= 1 && minId == 0 && Valid() && given == old(given) && maps == old(maps) && writes == old(writes)
        invariant blocks == old(blocks) && completed == old(completed)
        invariant i > 0 ==> !HasPlace(blocks[0].block, size, align)
        decreases 8 - i
      {
        assert i == 0;
        AllocFailing(blocks[i].block, size, align);
        SlotPlaces(maps, given, writes, blocks[0], completed, temp, page, dual, Final(exec), size, align);
        var (r, b) := Alloc(blocks[i].block, size, align);
        if r.Some? {
          a := Serve(r.value, b, size, align, wrAt);
          return;
        }
        if blocks[i].block.avail < minSize {
          minSize := blocks[i].block.avail;
          minId := i;
        }
        i := i + 1;
      }
      a := Replace(size, align, at);
    }

    /** finalize_block: the block gets its final protection, or its second map is closed; if it is given
    up (`reset`), that map goes. */
    method FinalizeBlock(b: SplitBlock, reset: bool) returns (b': SplitBlock)
      requires page > 0 && (b == NoSplit || exists rs :: BlockOk(maps, rs, b, page, dual, Final(exec)))
      modifies this`maps
      ensures b == NoSplit ==> b' == b && maps == old(maps)
      ensures b != NoSplit && !reset ==> (maps, b') == Paused(old(maps), b, Final(exec))
      ensures b != NoSplit && reset ==>
        b'.block == b.block && b.block.region < |maps| &&
        Cut(maps, b.block.region, ResetCut(b.block, page)) == Finished(old(maps), b, page, dual, Final(exec))
    {
      b' := b;
      if !b.state.alloc {
        if b.state.wrInit && reset {
          maps := Cut(maps, b.wrRegion, b.wrPtr);
        }
        return;
      }
      if b.state.initAlloc {
        assert !(b.state.wrReady || b.state.wrInit); // asserted by the source
        maps := Protect(maps, b.block.region, Final(exec));
        b' := b.(state := Unused);
      } else if dual {
        assert b.state.wrInit && b.state.wrReady; // asserted by the source
        if reset {
          maps := Cut(maps, b.wrRegion, b.wrPtr);
        } else {
          maps := Protect(maps, b.wrRegion, NO);
          b' := b.(state := State(false, false, true, false));
        }
      }
    }

    /** The first loop of finalize: the blocks that stay. */
    method PauseBlocks()
      requires Valid() && writes == []
      modifies this`maps, this`blocks
      ensures Valid() && Advances(old(maps), maps, Final(exec), 0, 0) && |maps| == |old(maps)|
      ensures forall r: nat :: !Raw(blocks[0], r)
      ensures blocks[0].block == old(blocks[0].block) && !blocks[0].state.initAlloc
    {
      var final := Final(exec);
      if blocks[0] != NoSplit {
        PauseCurrent(maps, given, blocks[0], completed, temp, page, dual, final);
        PausedAdvances(maps, given, blocks[0], page, dual, final);
        SlotOk(maps, given, writes, blocks[0], completed, temp, page, dual, final);
      }
      ghost var maps0, cur0 := maps, blocks[0];
      hide Good, Advances, BlockOk, Paused;
      SameMaps(maps, final, 0, 0);
      var i := 0;
      while i < 8
        invariant 0 <= i <= 8 && |blocks| == 8 && (forall j :: 1 <= j < 8 ==> blocks[j] == NoSplit)
        invariant i == 0 ==> maps == maps0 && blocks[0] == cur0
        invariant i > 0 && cur0 == NoSplit ==> maps == maps0 && blocks[0] == cur0
        invariant i > 0 && cur0 != NoSplit ==>
          cur0.block.region < |maps0| && (cur0.state.wrInit ==> cur0.wrRegion < |maps0|) && (maps, blocks[0]) == Paused(maps0, cur0, final)
      {
        var b := FinalizeBlock(blocks[i], false);
        blocks := blocks[i := b];
        i := i + 1;
      }
    }

    /** The second loop: completed blocks get their final protection, lose their second map, and their
    unused pages are unmapped. */
    method ReleaseCompleted()
      requires Valid() && writes == []
      modifies this`maps, this`completed
      ensures Valid() && completed == [] && Advances(old(maps), maps, Final(exec), 0, 0) && |maps| == |old(maps)|
      ensures forall k :: 0 <= k < |old(completed)| ==> Trimmed(maps, old(completed)[k].block, page)
    {
      hide Good, Advances, BlockOk, Finished, Trimmed;
      ghost var maps0 := maps;
      SameMaps(maps, Final(exec), 0, 0);
      assert completed[0..] == completed;
      var i: nat := 0;
      while i < |completed|
        invariant i <= |completed| && completed == old(completed) && |maps| == |maps0|
        invariant Good(maps, given, [], blocks[0], completed[i..], temp, page, dual, Final(exec))
        invariant Advances(maps0, maps, Final(exec), 0, 0)
        invariant forall k :: 0 <= k < i ==> Trimmed(maps, completed[k].block, page)
      {
        assert completed[i..] == [completed[i]] + completed[i + 1..];
        ghost var before := maps;
        FinishCompleted(maps, given, blocks[0], completed[i], completed[i + 1..], temp, page, dual, Final(exec));
        FinishedAdvances(maps0, maps, given, completed[i], page, dual, Final(exec));
        OfBlock(maps, given, completed[i], page, dual, Final(exec));
        var b := FinalizeBlock(completed[i], true);
        maps := Cut(maps, b.block.region, ResetCut(b.block, page));
        FinishedTrims(before, given, completed, i, page, dual, Final(exec));
        i := i + 1;
      }
      assert completed[|completed|..] == [];
      completed := [];
    }

    /** Only the first temporary buffer is kept, and starts over. */
    method ClearTemp()
      requires Valid() && writes == [] && completed == []
      modifies this`maps, this`temp
      ensures Valid() && |temp| <= 1 && Advances(old(maps), maps, Final(exec), 0, 0) && |maps| == |old(maps)|
    {
      hide Good, Advances;
      ghost var maps0 := maps;
      SameMaps(maps, Final(exec), 0, 0);
      if temp == [] {
        return;
      }
      RewindTemp(maps, given, blocks[0], completed, temp, page, dual, Final(exec));
      temp := temp[0 := temp[0].(avail := temp[0].total)];
      ghost var all := temp;
      assert temp == [temp[0]] + temp[1..];
      var i: nat := 1;
      while i < |temp|
        invariant 1 <= i <= |temp| && temp == all && |maps| == |maps0|
        invariant Good(maps, given, [], blocks[0], [], [temp[0]] + temp[i..], page, dual, Final(exec))
        invariant Advances(maps0, maps, Final(exec), 0, 0)
      {
        assert [temp[0]] + temp[i..] == [temp[0], temp[i]] + temp[i + 1..];
        DropTemp(maps, given, blocks[0], [], temp[0], temp[i], temp[i + 1..], page, dual, Final(exec));
        CutAdvances(maps0, maps, temp[i].region, temp[i].ptr, Final(exec));
        maps := Cut(maps, temp[i].region, temp[i].ptr);
        i := i + 1;
      }
      assert [temp[0]] + temp[|temp|..] == [temp[0]];
      temp := [temp[0]];
    }

    /** finalize, called when nothing is in flight.  Afterwards every region that code runs in, or
    constants are read from, has its final protection, and every second map is closed or gone. */
    method Finalize()
      requires Valid()
      modifies this
      ensures Valid() && writes == [] && completed == [] && given == old(given)
      ensures forall r :: 0 <= r < |maps| ==> AtRest(maps[r], Final(exec))
      ensures forall r :: 0 <= r < |maps| && maps[r].use == Run ==> maps[r].prot == if exec then RX else RO
      ensures forall r :: 0 <= r < |maps| && maps[r].use.Shadow? ==> maps[r].prot == NO || maps[r].hi <= maps[r].lo
      ensures forall k :: 0 <= k < |given| ==> given[k].region < |maps| && maps[given[k].region].prot == if exec then RX else RO
      ensures forall k :: 0 <= k < |old(completed)| ==> Trimmed(maps, old(completed)[k].block, page)
      ensures |maps| == |old(maps)| && Advances(old(maps), maps, Final(exec), 0, 0)
      ensures blocks[0].block == old(blocks[0].block) && !blocks[0].state.initAlloc
    {
      hide Good, Advances, AtRest, Trimmed;
      ghost var maps0, old0 := maps, completed;
      WritesEnd(maps, given, writes, blocks[0], completed, temp, page, dual, Final(exec));
      writes := [];
      PauseBlocks();
      ghost var maps1 := maps;
      ReleaseCompleted();
      AdvancesTwice(maps0, maps1, maps, Final(exec));
      ghost var maps2 := maps;
      if !dual {
        ClearTemp();
        AdvancesTwice(maps0, maps2, maps, Final(exec));
        StillTrimmed(maps2, maps, old0, |old0|, page, Final(exec));
      }
      NothingRaw(maps, given, blocks[0], temp, page, dual, Final(exec));
      WhatRestMeans(maps, given, blocks[0], temp, page, dual, Final(exec));
    }
  }

  /** The ways Replace can find slot 0. */
  lemma ReplaceCases(maps: seq<Mapping>, given: seq<Range>, writes: seq<Range>, cur: SplitBlock, completed: seq<SplitBlock>,
                     temp: seq<Block>, page: nat, dual: bool, final: Prot, at: nat, size: nat)
    requires Good(maps, given, writes, cur, completed, temp, page, dual, final)
    requires Offered(maps, at, size, page) && size % page == 0
    ensures cur.block.ptr == 0 <==> cur == NoSplit
    ensures var maps' := Mmap(maps, at, size, Run);
      && (cur != NoSplit && cur.state == Unused ==>
            IsBlock(cur.block, page) && cur.block.region < |maps| &&
            Good(Cut(maps', cur.block.region, ResetCut(cur.block, page)), given, writes, NewSplit(at, size, |maps|), completed, temp, page, dual, final)
            && Advances(maps, Cut(maps', cur.block.region, ResetCut(cur.block, page)), final, at, size))
      && (cur == NoSplit ==> Good(maps', given, writes, NewSplit(at, size, |maps|), completed, temp, page, dual, final))
      && (cur.state != Unused ==> Good(maps', given, writes, NewSplit(at, size, |maps|), completed + [cur], temp, page, dual, final))
      && Advances(maps, maps', final, at, size)
  {
    if cur == NoSplit || cur.state != Unused {
      ReplaceBlock(maps, given, writes, cur, completed, temp, page, dual, final, at, size);
    } else {
      var cut := ResetCut(cur.block, page);
      DropBlock(maps, given, writes, cur, completed, temp, page, dual, final);
      CutAboveTop(cur.block, page);
      assert Offered(Cut(maps, cur.block.region, cut), at, size, page);
      ReplaceBlock(Cut(maps, cur.block.region, cut), given, writes, NoSplit, completed, temp, page, dual, final, at, size);
      assert Mmap(Cut(maps, cur.block.region, cut), at, size, Run) == Cut(Mmap(maps, at, size, Run), cur.block.region, cut);
    }
  }

  /** A new block after its first allocation. */
  function FirstUse(at: nat, region: nat, size: nat, align: nat, page: nat): SplitBlock
    requires page > 0 && align > 0
  {
    var b := NewSplit(at, BlockSize(size, page), region);
    b.(block := Alloc(b.block, size, align).1)
  }

  lemma FreshFacts(at: nat, blockSize: nat, region: nat, size: nat, align: nat, page: nat)
    requires page > 0 && at > 0 && at % page == 0 && blockSize % page == 0 && blockSize >= size && align > 0 && page % align == 0
    ensures Alloc(NewSplit(at, blockSize, region).block, size, align).0 == Some(at)
  {
    FreshHasRoom(NewSplit(at, blockSize, region).block, size, align, page);
  }

  lemma SlotIsBlock(maps: seq<Mapping>, given: seq<Range>, writes: seq<Range>, cur: SplitBlock, completed: seq<SplitBlock>,
                    temp: seq<Block>, page: nat, dual: bool, final: Prot)
    requires Good(maps, given, writes, cur, completed, temp, page, dual, final)
    ensures cur.block.ptr == 0 <==> cur == NoSplit
    ensures cur.block.avail <= cur.block.total
  {
  }

  lemma SlotPlaces(maps: seq<Mapping>, given: seq<Range>, writes: seq<Range>, cur: SplitBlock, completed: seq<SplitBlock>,
                   temp: seq<Block>, page: nat, dual: bool, final: Prot, size: nat, align: nat)
    requires Good(maps, given, writes, cur, completed, temp, page, dual, final) && cur != NoSplit
    requires align > 0 && page > 0 && page % align == 0
    ensures cur.block.avail <= cur.block.total
    ensures var (p, b') := Alloc(cur.block, size, align);
      && (p.Some? <==> HasPlace(cur.block, size, align)) && b'.region == cur.block.region
      && (p.Some? ==> forall at: nat :: IsPlace(cur.block, size, align, at) ==> p.value <= at)
  {
    SlotOk(maps, given, writes, cur, completed, temp, page, dual, final);
    hide Good, HasPlace, IsPlace;
    AllocIsFirstFit(cur.block, size, align, page);
  }

  lemma SlotOk(maps: seq<Mapping>, given: seq<Range>, writes: seq<Range>, cur: SplitBlock, completed: seq<SplitBlock>,
               temp: seq<Block>, page: nat, dual: bool, final: Prot)
    requires Good(maps, given, writes, cur, completed, temp, page, dual, final) && cur != NoSplit
    ensures BlockOk(maps, given, cur, page, dual, final)
  {
  }

  lemma AllocFailing(b: Block, size: nat, align: nat)
    requires b.avail <= b.total && align > 0
    ensures Alloc(b, size, align).0.None? ==> Alloc(b, size, align).1 == b
  {
  }

  lemma PausedAdvances(maps: seq<Mapping>, given: seq<Range>, b: SplitBlock, page: nat, dual: bool, final: Prot)
    requires BlockOk(maps, given, b, page, dual, final)
    ensures Advances(maps, Paused(maps, b, final).0, final, 0, 0) && |Paused(maps, b, final).0| == |maps|
  {
  }

  lemma OfBlock(maps: seq<Mapping>, given: seq<Range>, b: SplitBlock, page: nat, dual: bool, final: Prot)
    requires BlockOk(maps, given, b, page, dual, final)
    ensures IsBlock(b.block, page) && b != NoSplit
  {
  }

  lemma NothingRaw(maps: seq<Mapping>, given: seq<Range>, cur: SplitBlock, temp: seq<Block>, page: nat, dual: bool, final: Prot)
    requires Good(maps, given, [], cur, [], temp, page, dual, final) && forall r: nat :: !Raw(cur, r)
    ensures forall r :: 0 <= r < |maps| ==> AtRest(maps[r], final)
  {
  }

  lemma WhatRestMeans(maps: seq<Mapping>, given: seq<Range>, cur: SplitBlock, temp: seq<Block>, page: nat, dual: bool, final: Prot)
    requires Good(maps, given, [], cur, [], temp, page, dual, final) && forall r :: 0 <= r < |maps| ==> AtRest(maps[r], final)
    ensures forall r :: 0 <= r < |maps| && maps[r].use == Run ==> maps[r].prot == final
    ensures forall r :: 0 <= r < |maps| && maps[r].use.Shadow? ==> maps[r].prot == NO || maps[r].hi <= maps[r].lo
    ensures forall k :: 0 <= k < |given| ==> given[k].region < |maps| && maps[given[k].region].prot == final
  {
    forall k | 0 <= k < |given| ensures given[k].region < |maps| && maps[given[k].region].prot == final {
      assert AtRest(maps[given[k].region], final);
    }
  }

  lemma AdvancesTwice(maps: seq<Mapping>, maps': seq<Mapping>, maps'': seq<Mapping>, final: Prot)
    requires Advances(maps, maps', final, 0, 0) && Advances(maps', maps'', final, 0, 0)
    requires |maps| == |maps'| == |maps''|
    ensures Advances(maps, maps'', final, 0, 0)
  {
    forall r | 0 <= r < |maps| ensures Aged(maps[r], maps''[r], final) {
      assert Aged(maps[r], maps'[r], final) && Aged(maps'[r], maps''[r], final);
    }
  }

  lemma FinishedAdvances(maps0: seq<Mapping>, maps: seq<Mapping>, given: seq<Range>, b: SplitBlock, page: nat, dual: bool, final: Prot)
    requires Advances(maps0, maps, final, 0, 0) && |maps0| == |maps| && BlockOk(maps, given, b, page, dual, final)
    ensures |Finished(maps, b, page, dual, final)| == |maps| && Advances(maps0, Finished(maps, b, page, dual, final), final, 0, 0)
  {
    CutAboveTop(b.block, page);
    var maps' := Finished(maps, b, page, dual, final);
    forall r | 0 <= r < |maps0| ensures Aged(maps0[r], maps'[r], final) {
      assert Aged(maps0[r], maps[r], final);
    }
  }

  lemma StillTrimmed(maps: seq<Mapping>, maps': seq<Mapping>, done: seq<SplitBlock>, n: nat, page: nat, final: Prot)
    requires Advances(maps, maps', final, 0, 0) && n <= |done| && forall k :: 0 <= k < n ==> Trimmed(maps, done[k].block, page)
    ensures forall k :: 0 <= k < n ==> Trimmed(maps', done[k].block, page)
  {
    forall k | 0 <= k < n ensures Trimmed(maps', done[k].block, page) {
      assert Trimmed(maps, done[k].block, page) && Aged(maps[done[k].block.region], maps'[done[k].block.region], final);
    }
  }

  /** The block that is given up next is trimmed too. */
  lemma FinishedTrims(maps: seq<Mapping>, given: seq<Range>, done: seq<SplitBlock>, n: nat, page: nat, dual: bool, final: Prot)
    requires n < |done| && BlockOk(maps, given, done[n], page, dual, final)
    requires forall k :: 0 <= k < n ==> Trimmed(maps, done[k].block, page)
    ensures var maps' := Finished(maps, done[n], page, dual, final);
      forall k :: 0 <= k <= n ==> Trimmed(maps', done[k].block, page)
  {
    var maps' := Finished(maps, done[n], page, dual, final);
    assert Trimmed(maps', done[n].block, page) by {
      CutAboveTop(done[n].block, page);
    }
    SameMaps(maps, final, 0, 0);
    FinishedAdvances(maps, maps, given, done[n], page, dual, final);
    hide Finished, Advances, BlockOk, Trimmed;
    StillTrimmed(maps, maps', done, n, page, final);
  }

  lemma CutAdvances(maps0: seq<Mapping>, maps: seq<Mapping>, region: nat, hi: nat, final: Prot)
    requires Advances(maps0, maps, final, 0, 0) && |maps0| == |maps| && region < |maps| && hi <= maps[region].hi
    ensures Advances(maps0, Cut(maps, region, hi), final, 0, 0)
  {
    forall r | 0 <= r < |maps0| ensures Aged(maps0[r], Cut(maps, region, hi)[r], final) {
      assert Aged(maps0[r], maps[r], final);
    }
  }

  lemma SameMaps(maps: seq<Mapping>, final: Prot, at: nat, size: nat)
    ensures Advances(maps, maps, final, at, size)
  {
  }

  /** What Serve needs to know about the block it allocates from. */
  lemma SlotFacts(maps: seq<Mapping>, given: seq<Range>, writes: seq<Range>, cur: SplitBlock, completed: seq<SplitBlock>,
                  temp: seq<Block>, page: nat, dual: bool, final: Prot, size: nat, align: nat)
    requires Good(maps, given, writes, cur, completed, temp, page, dual, final) && cur != NoSplit
    requires align > 0 && page > 0 && page % align == 0
    requires cur.block.avail <= cur.block.total && Alloc(cur.block, size, align).0.Some?
    ensures var (p, b') := Alloc(cur.block, size, align);
      var r := Range(cur.block.region, p.value, size, align);
      var given' := given + [r];
      var cur' := cur.(block := b');
      && b'.region == cur.block.region && b'.ptr == cur.block.ptr <= p.value && b'.total == cur.block.total
      && p.value + size == Top(b') && b'.avail <= b'.total
      && r in given' && cur' != NoSplit
      && Good(maps, given', writes, cur', completed, temp, page, dual, final)
      && (cur.state.initAlloc ==>
            cur.state.alloc && Good(maps, given', writes + [r], cur', completed, temp, page, dual, final))
      && (!cur.state.initAlloc && cur.state.wrInit ==>
            forall k :: 0 <= k < |writes| && writes[k].region == cur.wrRegion ==> EndOf(writes[k]) <= cur.wrPtr + (p.value - cur.block.ptr))
  {
    var (p, b') := Alloc(cur.block, size, align);
    var r := Range(cur.block.region, p.value, size, align);
    TakeRuntime(maps, given, writes, cur, completed, temp, page, dual, final, size, align);
    AllocPlaces(cur.block, size, align, page);
    assert BlockOk(maps, given, cur, page, dual, final) && StateOk(dual, cur.state);
    assert (given + [r])[|given|] == r;
    if cur.state.initAlloc {
      assert Placed(maps, r);
      RunAndTemps(maps, writes, cur, temp, page);
      AddWrite(maps, given + [r], writes, cur.(block := b'), completed, temp, page, dual, final, r);
    }
  }

  lemma RunAndTemps(maps: seq<Mapping>, writes: seq<Range>, cur: SplitBlock, temp: seq<Block>, page: nat)
    requires TempsOk(maps, writes, temp, page) && cur.block.region < |maps| && maps[cur.block.region].use == Run
    ensures forall i :: 0 <= i < |temp| ==> temp[i].region != cur.block.region
  {
    forall i | 0 <= i < |temp| ensures temp[i].region != cur.block.region { assert TempOk(maps, temp[i], page); }
  }

  /** The three ways get_wr_ptr can find the second map. */
  lemma ShadowCases(maps: seq<Mapping>, given: seq<Range>, writes: seq<Range>, b: SplitBlock, completed: seq<SplitBlock>,
                    temp: seq<Block>, page: nat, final: Prot, at: nat)
    requires Good(maps, given, writes, b, completed, temp, page, true, final) && b != NoSplit && !b.state.initAlloc
    requires Offered(maps, at, b.block.total, page)
    ensures b.state.alloc == b.state.wrReady && (b.state.wrReady ==> b.state.wrInit)
    ensures !b.state.wrInit ==>
      var maps' := Mmap(maps, at, b.block.total, Shadow(b.block.region));
      && Protect(maps', |maps|, RW) == maps'
      && Good(maps', given, writes, WithShadow(b, at, |maps|), completed, temp, page, true, final)
      && forall k :: 0 <= k < |writes| ==> writes[k].region != |maps|
    ensures b.state.wrInit ==> b.wrRegion < |maps| && maps[b.wrRegion].use != Run
    ensures b.state.wrInit && !b.state.wrReady ==>
      Good(Protect(maps, b.wrRegion, RW), given, writes, b.(state := State(false, true, true, true)), completed, temp, page, true, final)
  {
    assert BlockOk(maps, given, b, page, true, final) && StateOk(true, b.state);
    if !b.state.wrInit {
      MakeShadow(maps, given, writes, b, completed, temp, page, final, at);
    } else {
      ShadowUse(maps, given, writes, b, completed, temp, page, final);
      if !b.state.wrReady { OpenShadow(maps, given, writes, b, completed, temp, page, final); }
    }
  }

  lemma ShadowUse(maps: seq<Mapping>, given: seq<Range>, writes: seq<Range>, cur: SplitBlock, completed: seq<SplitBlock>,
                  temp: seq<Block>, page: nat, final: Prot)
    requires Good(maps, given, writes, cur, completed, temp, page, true, final) && cur != NoSplit && cur.state.wrInit
    ensures cur.wrRegion < |maps| && maps[cur.wrRegion].use != Run
  {
  }

  // ---------------------------------------------------------------- what holds between calls

  /** Nothing is handed out twice, and what was handed out stays mapped. */
  lemma HandedOutApart(u: ROAllocator, i: nat, j: nat, byte: nat)
    requires u.Valid() && i < |u.given| && j < |u.given| && i != j
    ensures Placed(u.maps, u.given[i])
    ensures !(u.given[i].start <= byte < EndOf(u.given[i]) && u.given[j].start <= byte < EndOf(u.given[j]))
  {
    RangesApart(u.maps, u.given, i, j, byte);
  }

  /** The region whose memory an address of region r shows. */
  function Shown(maps: seq<Mapping>, r: nat): nat
    requires r < |maps|
  {
    match maps[r].use case Shadow(of) => of case _ => r
  }

  /** The address x of region r and the address y of region s show the same byte of memory. */
  predicate SameByte(maps: seq<Mapping>, r: nat, x: nat, s: nat, y: nat)
    requires r < |maps| && s < |maps|
  {
    Shown(maps, r) == Shown(maps, s) && x - maps[r].lo == y - maps[s].lo
  }

  predicate Within(x: nat, w: Range) { w.start <= x < EndOf(w) }

  /** A writable region that is not empty belongs to a block. */
  lemma Owner(maps: seq<Mapping>, given: seq<Range>, cur: SplitBlock, completed: seq<SplitBlock>,
              page: nat, dual: bool, final: Prot, r: nat) returns (b: SplitBlock)
    requires BlocksOk(maps, given, cur, completed, page, dual, final) && final != RW
    requires r < |maps| && maps[r].prot == RW && maps[r].use != Temp && maps[r].lo < maps[r].hi
    ensures (b == cur && cur != NoSplit) || b in completed
    ensures BlockOk(maps, given, b, page, dual, final) && b.block.region == Shown(maps, r)
    ensures r == if b.state.initAlloc then b.block.region else b.wrRegion
  {
    assert !AtRest(maps[r], final);
    if Raw(cur, r) {
      b := cur;
    } else {
      var i :| 0 <= i < |completed| && Raw(completed[i], r);
      b := completed[i];
    }
    assert BlockOk(maps, given, b, page, dual, final) && StateOk(dual, b.state);
  }

  /** Only one region at a time is writable that shows the memory of a given one. */
  lemma OneWritableView(maps: seq<Mapping>, given: seq<Range>, cur: SplitBlock, completed: seq<SplitBlock>,
                        page: nat, dual: bool, final: Prot, r: nat, s: nat)
    requires BlocksOk(maps, given, cur, completed, page, dual, final) && final != RW
    requires r < |maps| && maps[r].prot == RW && maps[r].use != Temp && maps[r].lo < maps[r].hi
    requires s < |maps| && maps[s].prot == RW && maps[s].use != Temp && maps[s].lo < maps[s].hi
    requires Shown(maps, r) == Shown(maps, s)
    ensures r == s
  {
    var b := Owner(maps, given, cur, completed, page, dual, final, r);
    var c := Owner(maps, given, cur, completed, page, dual, final, s);
    hide BlockOk, ProtOk;
    assert b == c;
  }

  /** What is written since the last finalization is written to different bytes of memory, whichever of
  the two views of a block is used. */
  lemma BytesApart(maps: seq<Mapping>, given: seq<Range>, writes: seq<Range>, cur: SplitBlock, completed: seq<SplitBlock>,
                   temp: seq<Block>, page: nat, dual: bool, final: Prot, i: nat, j: nat, x: nat, y: nat)
    requires Good(maps, given, writes, cur, completed, temp, page, dual, final)
    requires i < j < |writes| && Within(x, writes[i]) && Within(y, writes[j])
    ensures writes[i].region < |maps| && writes[j].region < |maps|
    ensures !SameByte(maps, writes[i].region, x, writes[j].region, y)
  {
    hide BlocksOk, TempsOk;
    var v, w := writes[i], writes[j];
    assert Placed(maps, v) && Placed(maps, w);
    assert OpenWrite(maps, given, v) && OpenWrite(maps, given, w);
    if Shown(maps, v.region) == Shown(maps, w.region) && v.region != w.region {
      TempShowsItself(maps, given, v);
      TempShowsItself(maps, given, w);
      OneWritableView(maps, given, cur, completed, page, dual, final, v.region, w.region);
    }
  }

  lemma TempShowsItself(maps: seq<Mapping>, given: seq<Range>, w: Range)
    requires OpenWrite(maps, given, w) && RunOnly(maps, given)
    ensures var s := Shown(maps, w.region);
      s < |maps| && (maps[w.region].use == Temp <==> maps[s].use == Temp) && (maps[w.region].use == Temp ==> s == w.region)
  {
  }

  /** The allocations since the last finalization are written at writable addresses; those written in
  place, or through a second map, go to the range that was handed out, at the same offset of the block;
  and no two are written to the same byte of memory. */
  lemma WritesApart(u: ROAllocator, i: nat, j: nat, x: nat, y: nat)
    requires u.Valid() && i < |u.writes| && j < |u.writes| && i != j
    ensures Placed(u.maps, u.writes[i]) && Placed(u.maps, u.writes[j]) && OpenWrite(u.maps, u.given, u.writes[i])
    ensures Within(x, u.writes[i]) && Within(y, u.writes[j]) ==>
      x != y && !SameByte(u.maps, u.writes[i].region, x, u.writes[j].region, y)
  {
    if Within(x, u.writes[i]) && Within(y, u.writes[j]) {
      RangesApart(u.maps, u.writes, i, j, x);
      var (k, l) := if i < j then (i, j) else (j, i);
      BytesApart(u.maps, u.given, u.writes, u.blocks[0], u.completed, u.temp, u.page, u.dual, Final(u.exec),
                 k, l, if i < j then x else y, if i < j then y else x);
    }
  }

  // ---------------------------------------------------------------- an assertion that can fail

  /** The assertion at the start of DualMapAllocator::get_wr_ptr, that the runtime address lies within the
  block, holds for an allocation from a block past its first finalization exactly when bytes are asked
  for, or some aligned space is left in the block. */
  lemma WrPtrAssertIff(u: ROAllocator, size: nat, align: nat)
    requires u.Valid() && u.dual && u.blocks[0] != NoSplit && !u.blocks[0].state.initAlloc
    requires align > 0 && u.page % align == 0
    ensures var b := u.blocks[0].block;
      && b.avail <= b.total
      && var rt := Alloc(b, size, align).0;
         rt.Some? ==> (b.ptr <= rt.value < End(b) <==> size > 0 || AlignDown(b.avail, align) > 0)
  {
    SlotIsBlock(u.maps, u.given, u.writes, u.blocks[0], u.completed, u.temp, u.page, u.dual, Final(u.exec));
  }

  /** It fails in a state that the allocator reaches: all of the first block is handed out, its
  protection is set, and then no bytes at all are asked for. */
  method WrPtrAssertFails(page: nat, exec: bool, at: nat) returns (u: ROAllocator)
    requires page > 0 && at > 0 && at % page == 0
    ensures fresh(u) && u.Valid() && u.page == page && u.dual && u.blocks[0] != NoSplit && !u.blocks[0].state.initAlloc
    ensures var b := u.blocks[0].block;
      b.avail <= b.total == 256 * page && Alloc(b, 0, 1).0 == Some(End(b))
  {
    hide Good, Offered, FirstUse, Advances, Alloc, AlignDown, BlockSize, AtRest;
    var size := 256 * page;
    FullAtOnce(at, page, size);
    u := new ROAllocator(page, true, exec);
    SlotIsBlock(u.maps, u.given, u.writes, u.blocks[0], u.completed, u.temp, page, true, Final(exec));
    EmptyOffered(at, size, page);
    EmptyOffered(at, 0, page);
    var a := u.Allocate(size, 1, at, at);
    u.Finalize();
  }

  lemma EmptyOffered(at: nat, size: nat, page: nat)
    requires page > 0 && at > 0 && at % page == 0
    ensures Offered([], at, size, page)
  {
  }

  lemma FullAtOnce(at: nat, page: nat, size: nat)
    requires page > 0 && at > 0 && size == 256 * page
    ensures BlockSize(size, page) == size && page % 1 == 0
    ensures var b := FirstUse(at, 0, size, 1, page).block;
      b == Block(at, size, 0, 0) && Alloc(b, 0, 1).0 == Some(End(b))
  {
  }
}
