/** The bump allocator under the JIT's memory pools (struct Block and RWAllocator in
src/cgmemmgr.cpp).

The address space is a list of mappings, one for every region obtained from the system; a region is
known by its place in that list.  Protecting and unmapping act on whole regions or cut off their
ends, as in the source. */
module JitBlocks {
  import opened Bits

  datatype Option<T> = None | Some(value: T)

  datatype Prot = RW | RX | RO | NO

  /** What a region is for: the addresses code runs at, a second, writable view of such a region, or
  a temporary write buffer. */
  datatype Use = Run | Shadow(of: nat) | Temp

  /** [lo, hi) is mapped; the end moves down when pages are unmapped. */
  datatype Mapping = Mapping(lo: nat, hi: nat, prot: Prot, use: Use)

  datatype Block = Block(ptr: nat, total: nat, avail: nat, region: nat)

  /** A range that was handed out. */
  datatype Range = Range(region: nat, start: nat, size: nat, align: nat)

  /** What alloc returns: where to write, and where the memory is at run time. */
  datatype Allocation = Allocation(wr: nat, rt: nat, size: nat, region: nat, wrRegion: nat)

  const NoBlock := Block(0, 0, 0, 0)

  predicate Separate(m: Mapping, n: Mapping) {
    m.hi <= m.lo || n.hi <= n.lo || m.hi <= n.lo || n.hi <= m.lo
  }

  ghost predicate AllSeparate(maps: seq<Mapping>) {
    forall i, j :: 0 <= i < j < |maps| ==> Separate(maps[i], maps[j])
  }

  // ---------------------------------------------------------------- alignment

  /** `x & -align` in a 64-bit word (see MaskAligns). */
  function AlignDown(x: nat, align: nat): (r: nat)
    requires align > 0
    ensures r <= x < r + align
  {
    x - x % align
  }

  /** LLT_ALIGN */
  function AlignUp(x: nat, align: nat): (r: nat)
    requires align > 0
    ensures x <= r < x + align
  {
    AlignDown(x + align - 1, align)
  }

  /** For an alignment that is a power of two, the mask is exactly that. */
  lemma MaskAligns(x: nat, k: nat)
    requires k <= 64 && x < Pow2(64)
    ensures Pow2(k) <= Pow2(64) && And(x, Pow2(64) - Pow2(k)) == AlignDown(x, Pow2(k))
  {
    hide And, Pow2;
    AndHigh(x, 64, k);
  }

  lemma MultipleOf(q: nat, d: nat)
    requires d > 0
    ensures q * d % d == 0
  {
    DivModUnique(q * d, d, q, 0);
  }

  lemma AlignDownIsMultiple(x: nat, align: nat)
    requires align > 0
    ensures AlignDown(x, align) % align == 0
  {
    Euclid(x, align);
    MultipleOf(x / align, align);
  }

  lemma Difference(x: nat, y: nat, d: nat)
    requires d > 0 && x % d == 0 && y % d == 0 && y <= x
    ensures (x - y) % d == 0
  {
    Euclid(x, d);
    Euclid(y, d);
    Distribute(x / d, y / d, d);
    DivModUnique(x - y, d, x / d - y / d, 0);
  }

  lemma SumOfMultiples(x: nat, y: nat, d: nat)
    requires d > 0 && x % d == 0 && y % d == 0
    ensures (x + y) % d == 0
  {
    Euclid(x, d);
    Euclid(y, d);
    Distribute(x / d, y / d, d);
    DivModUnique(x + y, d, x / d + y / d, 0);
  }

  lemma Coarser(x: nat, page: nat, align: nat)
    requires align > 0 && page > 0 && x % page == 0 && page % align == 0
    ensures x % align == 0
  {
    Euclid(x, page);
    Euclid(page, align);
    Assoc(x / page, page / align, align);
    MultipleOf(x / page * (page / align), align);
  }

  // ---------------------------------------------------------------- struct Block

  function End(b: Block): nat { b.ptr + b.total }

  /** The first byte not handed out. */
  function Top(b: Block): int { b.ptr + b.total - b.avail }

  /** A block that holds a region: its addresses are those of the mapping, in whole pages. */
  predicate IsBlock(b: Block, page: nat) {
    page > 0 && b.ptr > 0 && b.ptr % page == 0 && b.total % page == 0 && b.avail <= b.total
  }

  /** Block::alloc */
  function Alloc(b: Block, size: nat, align: nat): (r: (Option<nat>, Block))
    requires align > 0 && b.avail <= b.total
  {
    var alignedAvail := AlignDown(b.avail, align);
    if alignedAvail < size then (None, b)
    else (Some(b.ptr + b.total - alignedAvail), b.(avail := alignedAvail - size))
  }

  /** An allocation lies between the old and the new top, within the block, and is aligned. */
  lemma AllocPlaces(b: Block, size: nat, align: nat, page: nat)
    requires IsBlock(b, page) && align > 0 && page % align == 0
    ensures var (p, b') := Alloc(b, size, align);
      && b' == b.(avail := b'.avail) && IsBlock(b', page)
      && (p.Some? ==> Top(b) <= p.value && p.value + size == Top(b') <= End(b) && p.value % align == 0 && p.value > 0)
      && (p.None? ==> b' == b)
  {
    AlignDownIsMultiple(b.avail, align);
    SumOfMultiples(b.ptr, b.total, page);
    Coarser(End(b), page, align);
    Difference(End(b), AlignDown(b.avail, align), align);
  }

  /** An aligned place for `size` bytes in the unused part of b. */
  predicate IsPlace(b: Block, size: nat, align: nat, at: nat)
    requires align > 0
  {
    at % align == 0 && Top(b) <= at && at + size <= End(b)
  }

  ghost predicate HasPlace(b: Block, size: nat, align: nat)
    requires align > 0
  {
    exists at: nat :: IsPlace(b, size, align, at)
  }

  /** An allocation fails exactly if the block has no place for it, and else takes the lowest. */
  lemma AllocIsFirstFit(b: Block, size: nat, align: nat, page: nat)
    requires IsBlock(b, page) && align > 0 && page % align == 0
    ensures var p := Alloc(b, size, align).0;
      && (p.Some? <==> HasPlace(b, size, align))
      && (p.Some? ==> IsPlace(b, size, align, p.value) && forall at: nat :: IsPlace(b, size, align, at) ==> p.value <= at)
  {
    hide AlignDown, Alloc;
    AllocPlaces(b, size, align, page);
    var p := Alloc(b, size, align).0;
    forall at: nat | IsPlace(b, size, align, at) ensures p.Some? && p.value <= at {
      AllocFinds(b, size, align, page, at);
    }
    if p.Some? { assert IsPlace(b, size, align, p.value); }
  }

  lemma AllocFinds(b: Block, size: nat, align: nat, page: nat, at: nat)
    requires IsBlock(b, page) && align > 0 && page % align == 0 && IsPlace(b, size, align, at)
    ensures var p := Alloc(b, size, align).0; p.Some? && p.value <= at
  {
    hide AlignDown;
    SumOfMultiples(b.ptr, b.total, page);
    Coarser(End(b), page, align);
    Difference(End(b), at, align);
    AlignDownIsMost(b.avail, End(b) - at, align);
  }

  /** No multiple lies between. */
  lemma AlignDownIsMost(x: nat, m: nat, align: nat)
    requires align > 0 && m % align == 0 && m <= x
    ensures m <= AlignDown(x, align)
  {
    AlignDownIsMultiple(x, align);
    if m > AlignDown(x, align) {
      Difference(m, AlignDown(x, align), align);
      SmallMod(m - AlignDown(x, align), align);
    }
  }

  /** A fresh block has room. */
  lemma FreshHasRoom(b: Block, size: nat, align: nat, page: nat)
    requires IsBlock(b, page) && align > 0 && page % align == 0 && b.avail == b.total >= size
    ensures Alloc(b, size, align).0 == Some(b.ptr)
  {
    Coarser(b.total, page, align);
  }

  /** Where Block::reset cuts the old region: the part from here to the end is unmapped, if anything. */
  function ResetCut(b: Block, page: nat): (cut: nat)
    requires IsBlock(b, page)
  {
    if b.avail >= page then AlignUp(b.ptr + b.total - b.avail, page) else b.ptr + b.total
  }

  /** The cut is at a page boundary above everything handed out, and less than a page of unused
  space stays mapped; the source asserts that a cut region is not empty. */
  lemma CutAboveTop(b: Block, page: nat)
    requires IsBlock(b, page)
    ensures Top(b) <= ResetCut(b, page) <= End(b)
    ensures ResetCut(b, page) % page == 0 && ResetCut(b, page) - Top(b) < page
    ensures b.avail >= page ==> ResetCut(b, page) < End(b)
  {
    AlignDownIsMultiple(b.ptr + b.total - b.avail + page - 1, page);
    SumOfMultiples(b.ptr, b.total, page);
    if b.avail >= page { RoomForPage(ResetCut(b, page), End(b), page); }
  }

  lemma RoomForPage(cut: nat, end: nat, page: nat)
    requires page > 0 && cut % page == 0 && end % page == 0 && cut < end
    ensures cut + page <= end
  {
    Difference(end, cut, page);
    if end - cut < page { SmallMod(end - cut, page); }
  }

  /** get_block_size */
  function BlockSize(size: nat, page: nat): nat
    requires page > 0
  {
    if size > page * 256 then AlignUp(size, page) else page * 256
  }

  lemma BlockSizeFits(size: nat, page: nat)
    requires page > 0
    ensures BlockSize(size, page) >= size && BlockSize(size, page) % page == 0
    ensures BlockSize(size, page) >= 256 * page > 0
  {
    AlignDownIsMultiple(size + page - 1, page);
    MultipleOf(256, page);
    Commute(256, page);
    Larger(256, page);
  }

  /** No smaller number of whole pages, from 256 on, would do. */
  lemma BlockSizeIsLeast(size: nat, page: nat, n: nat)
    requires page > 0 && n % page == 0 && n >= size && n >= 256 * page
    ensures BlockSize(size, page) <= n
  {
    if size > 256 * page {
      AlignDownIsMultiple(size + page - 1, page);
      if AlignUp(size, page) > n { RoomForPage(n, AlignUp(size, page), page); }
    }
  }

  lemma Commute(a: int, b: int)
    ensures a * b == b * a
  {
  }

  // ---------------------------------------------------------------- ranges handed out

  function EndOf(r: Range): nat { r.start + r.size }

  /** A range is aligned, and its bytes are mapped. */
  predicate Placed(maps: seq<Mapping>, r: Range) {
    && r.region < |maps| && r.align > 0 && r.start % r.align == 0
    && maps[r.region].lo <= r.start && EndOf(r) <= maps[r.region].hi
  }

  ghost predicate AllPlaced(maps: seq<Mapping>, given: seq<Range>) {
    forall k :: 0 <= k < |given| ==> Placed(maps, given[k])
  }

  /** Ranges of one region were handed out upwards. */
  ghost predicate Stacked(given: seq<Range>) {
    forall i, j :: 0 <= i < j < |given| && given[i].region == given[j].region ==> EndOf(given[i]) <= given[j].start
  }

  /** What was handed out of block b lies below its top. */
  ghost predicate BelowTop(given: seq<Range>, b: Block) {
    forall k :: 0 <= k < |given| && given[k].region == b.region ==> EndOf(given[k]) <= Top(b)
  }

  /** b is the block over its region. */
  predicate Covers(maps: seq<Mapping>, b: Block) {
    b.region < |maps| && maps[b.region].lo == b.ptr && maps[b.region].hi == End(b)
  }

  /** Ranges handed out never overlap: no byte is in two of them. */
  lemma RangesApart(maps: seq<Mapping>, given: seq<Range>, i: nat, j: nat, byte: nat)
    requires AllPlaced(maps, given) && Stacked(given) && AllSeparate(maps)
    requires i < |given| && j < |given| && i != j
    ensures !(given[i].start <= byte < EndOf(given[i]) && given[j].start <= byte < EndOf(given[j]))
  {
    var a, b := given[if i < j then i else j], given[if i < j then j else i];
    assert Placed(maps, a) && Placed(maps, b);
    if a.region < b.region {
      assert Separate(maps[a.region], maps[b.region]);
    } else if b.region < a.region {
      assert Separate(maps[b.region], maps[a.region]);
    }
  }

  /** The ranges after one more allocation from b. */
  lemma Pushed(maps: seq<Mapping>, given: seq<Range>, b: Block, size: nat, align: nat, page: nat)
    requires IsBlock(b, page) && align > 0 && page % align == 0 && Covers(maps, b)
    requires AllPlaced(maps, given) && Stacked(given) && BelowTop(given, b)
    requires Alloc(b, size, align).0.Some?
    ensures var (p, b') := Alloc(b, size, align);
      var given' := given + [Range(b.region, p.value, size, align)];
      && AllPlaced(maps, given') && Stacked(given') && BelowTop(given', b') && Covers(maps, b') && IsBlock(b', page)
  {
    AllocPlaces(b, size, align, page);
  }

  /** A new region, and the end of another one cut off. */
  predicate Offered(maps: seq<Mapping>, at: nat, size: nat, page: nat) {
    && page > 0 && at > 0 && at % page == 0
    && forall i :: 0 <= i < |maps| ==> Separate(maps[i], Mapping(at, at + size, RW, Run))
  }

  function Mmap(maps: seq<Mapping>, at: nat, size: nat, use: Use): seq<Mapping> {
    maps + [Mapping(at, at + size, RW, use)]
  }

  function Cut(maps: seq<Mapping>, region: nat, hi: nat): seq<Mapping>
    requires region < |maps|
  {
    maps[region := maps[region].(hi := hi)]
  }

  function Protect(maps: seq<Mapping>, region: nat, prot: Prot): seq<Mapping>
    requires region < |maps|
  {
    maps[region := maps[region].(prot := prot)]
  }

  lemma MmapKeeps(maps: seq<Mapping>, given: seq<Range>, at: nat, size: nat, use: Use, page: nat)
    requires AllSeparate(maps) && AllPlaced(maps, given) && Offered(maps, at, size, page)
    ensures AllSeparate(Mmap(maps, at, size, use)) && AllPlaced(Mmap(maps, at, size, use), given)
  {
  }

  /** Cutting a block's region above its top keeps everything handed out mapped. */
  lemma CutKeeps(maps: seq<Mapping>, given: seq<Range>, b: Block, page: nat)
    requires AllSeparate(maps) && AllPlaced(maps, given) && IsBlock(b, page) && Covers(maps, b) && BelowTop(given, b)
    ensures var maps' := Cut(maps, b.region, ResetCut(b, page));
      AllSeparate(maps') && AllPlaced(maps', given) && Grows(maps, maps', 0, 0)
    ensures forall at: nat, size: nat ::
      Offered(maps, at, size, page) ==> Offered(Cut(maps, b.region, ResetCut(b, page)), at, size, page)
  {
    CutAboveTop(b, page);
    var maps' := Cut(maps, b.region, ResetCut(b, page));
    forall k | 0 <= k < |given| ensures Placed(maps', given[k]) {
      assert Placed(maps, given[k]);
    }
    forall i, j | 0 <= i < j < |maps'| ensures Separate(maps'[i], maps'[j]) {
      assert Separate(maps[i], maps[j]);
    }
  }

  /** What one allocator may do to the mappings: add regions where it was offered some, cut regions
  short, change protections. */
  ghost predicate Grows(maps: seq<Mapping>, maps': seq<Mapping>, at: nat, size: nat) {
    && |maps| <= |maps'|
    && (forall i :: 0 <= i < |maps| ==> maps'[i].lo == maps[i].lo && maps'[i].hi <= maps[i].hi)
    && forall i :: |maps| <= i < |maps'| ==> maps'[i].lo == at && maps'[i].hi == at + size
  }

  /** Less than a page of b's unused space is mapped: b was given up. */
  predicate Trimmed(maps: seq<Mapping>, b: Block, page: nat) {
    b.region < |maps| && maps[b.region].hi < Top(b) + page
  }

  // ---------------------------------------------------------------- RWAllocator

  class RWAllocator {
    const page: nat
    var blocks: seq<Block>
    var maps: seq<Mapping>      // the regions obtained so far
    ghost var given: seq<Range>

    ghost predicate Valid()
      reads this
    {
      && page > 0 && |blocks| == 8
      && AllSeparate(maps) && AllPlaced(maps, given) && Stacked(given)
      // alloc never looks past the first slot that is empty, and never fills another than slot 0
      && (forall i :: 1 <= i < 8 ==> blocks[i] == NoBlock)
      && (blocks[0] == NoBlock || (IsBlock(blocks[0], page) && Covers(maps, blocks[0]) && BelowTop(given, blocks[0])))
    }

    constructor (page: nat)
      requires page > 0
      ensures Valid() && this.page == page && maps == [] && given == []
    {
      this.page := page;
      blocks := [NoBlock, NoBlock, NoBlock, NoBlock, NoBlock, NoBlock, NoBlock, NoBlock];
      maps, given := [], [];
    }

    /** RWAllocator::alloc; `at` is where the system would map another block. */
    method Allocate(size: nat, align: nat, at: nat) returns (a: Allocation)
      requires Valid() && align > 0 && page % align == 0
      requires Offered(maps, at, BlockSize(size, page), page)
      modifies this
      ensures Valid() && Grows(old(maps), maps, at, BlockSize(size, page))
      ensures given == old(given) + [Range(a.region, a.rt, size, align)]
      ensures a.size == size && a.wr == a.rt && a.wrRegion == a.region
      // the system is asked for a block exactly if the old one has no place left, and else the lowest place is taken
      ensures old(blocks[0]) != NoBlock && HasPlace(old(blocks[0]), size, align) ==>
                maps == old(maps) && a.region == old(blocks[0]).region
                && forall p: nat :: IsPlace(old(blocks[0]), size, align, p) ==> a.rt <= p
      ensures old(blocks[0]) == NoBlock || !HasPlace(old(blocks[0]), size, align) ==>
                a.region == |old(maps)| && |maps| == |old(maps)| + 1 && a.rt == at
                && (old(blocks[0]) != NoBlock ==> Trimmed(maps, old(blocks[0]), page))
    {
      var minSize: nat, minId: nat := 0xFFFF_FFFF_FFFF_FFFF, 0;
      var i: nat := 0;
      while i < 8 && blocks[i].ptr != 0
        invariant i <= 1 && minId == 0 && Valid() && given == old(given) && maps == old(maps) && blocks[0] == old(blocks[0])
        invariant i > 0 ==> blocks[0] != NoBlock && !HasPlace(blocks[0], size, align)
        decreases 8 - i
      {
        AllocIsFirstFit(blocks[0], size, align, page);
        if i == 0 && Alloc(blocks[0], size, align).0.Some? { Pushed(maps, given, blocks[0], size, align, page); }
        var (r, b) := Alloc(blocks[i], size, align);
        blocks := blocks[i := b];
        if r.Some? {
          given := given + [Range(b.region, r.value, size, align)];
          return Allocation(r.value, r.value, size, b.region, b.region);
        }
        if blocks[i].avail < minSize {
          minSize := blocks[i].avail;
          minId := i;
        }
        i := i + 1;
      }
      a := Replace(size, align, at);
    }

    /** The last lines of alloc: the block in slot 0 gives way to a new one. */
    method Replace(size: nat, align: nat, at: nat) returns (a: Allocation)
      requires Valid() && align > 0 && page % align == 0
      requires Offered(maps, at, BlockSize(size, page), page)
      modifies this
      ensures Valid() && Grows(old(maps), maps, at, BlockSize(size, page))
      ensures given == old(given) + [Range(a.region, a.rt, size, align)]
      ensures a.size == size && a.wr == a.rt && a.wrRegion == a.region
      ensures a.region == |old(maps)| && |maps| == |old(maps)| + 1 && a.rt == at
      ensures old(blocks[0]) != NoBlock ==> Trimmed(maps, old(blocks[0]), page)
    {
      hide Alloc, AlignDown, BlockSize, ResetCut, AllSeparate, AllPlaced, Stacked, BelowTop, IsBlock, Offered;
      var blockSize := BlockSize(size, page);
      BlockSizeFits(size, page);
      if blocks[0] != NoBlock {
        CutKeeps(maps, given, blocks[0], page);
        CutAboveTop(blocks[0], page);
        maps := Cut(maps, blocks[0].region, ResetCut(blocks[0], page));
      }
      FirstOfBlock(maps, given, at, blockSize, size, align, page);
      var newBlock := Block(at, blockSize, blockSize, |maps|);
      maps := Mmap(maps, at, blockSize, Run);
      var (r, b) := Alloc(newBlock, size, align);
      blocks := blocks[0 := b];
      given := given + [Range(b.region, r.value, size, align)];
      a := Allocation(r.value, r.value, size, b.region, b.region);
    }
  }

  /** A new block, and the first allocation from it. */
  lemma FirstOfBlock(maps: seq<Mapping>, given: seq<Range>, at: nat, blockSize: nat, size: nat, align: nat, page: nat)
    requires AllSeparate(maps) && AllPlaced(maps, given) && Stacked(given) && Offered(maps, at, blockSize, page)
    requires align > 0 && page > 0 && page % align == 0 && blockSize % page == 0 && blockSize >= size
    ensures var maps' := Mmap(maps, at, blockSize, Run);
      var (p, b') := Alloc(Block(at, blockSize, blockSize, |maps|), size, align);
      && p == Some(at) && b'.region == |maps|
      && var given' := given + [Range(|maps|, at, size, align)];
      && AllSeparate(maps') && AllPlaced(maps', given') && Stacked(given')
      && BelowTop(given', b') && Covers(maps', b') && IsBlock(b', page)
  {
    hide Alloc, AlignDown, AllSeparate, Stacked;
    var newBlock := Block(at, blockSize, blockSize, |maps|);
    MmapKeeps(maps, given, at, blockSize, Run, page);
    FreshHasRoom(newBlock, size, align, page);
    AllocPlaces(newBlock, size, align, page);
    Pushed(Mmap(maps, at, blockSize, Run), given, newBlock, size, align, page);
  }
}
