/** The fast CRC-32C forms of src/crc32c.c. */
module Crc32cFast {
  import opened Bits
  import opened Crc32c
  import opened Crc32cTables

  /* Slicing by eight (jl_crc32c_sw) and three interleaved streams (crc32c_armv8) are proved equal to the
  bit-at-a-time reference. */

  const LONG: nat := 8192
  const SHORT: nat := 256

  /** Moving on in the buffer. */
  lemma FoldMore(c: nat, buf: seq<Byte>, pos: nat, next: nat)
    requires pos <= next <= |buf|
    ensures Fold(c, buf[..next]) == Fold(Fold(c, buf[..pos]), buf[pos..next])
  {
    assert buf[..next] == buf[..pos] + buf[pos..next];
    FoldConcat(c, buf[..pos], buf[pos..next]);
  }

  lemma FoldBound(c: Word32, msg: seq<Byte>)
    ensures Fold(c, msg) < 0x1_0000_0000
  {
    CrcBitsBound(c, MessageBits(msg));
  }

  lemma Complement(w: Word32)
    ensures Xor(w, 0xffff_ffff) == Not32(w)
  {
    Pow2Values();
    XorOnes(w, 32);
  }

  // ---------------------------------------------------------------- slicing by eight

  /** One byte enters through table 0: the byte only touches the low end of the register. */
  lemma ByteEnters(table: array2<Word32>, crc: Word32, b: Byte)
    requires IsSlicingTable(table)
    ensures Xor(table[0, Xor(crc, b) % 0x100], crc / 0x100) == Fold(crc, [b])
  {
    hide Steps, Xor, Pow2;
    Pow2Values();
    HighUntouched(crc, b, 8);
    TableStep(Xor(crc, b));
    FoldAsSteps(crc, [b]);
    assert LoadLE([b]) == b;
  }

  lemma {:induction false} HighUntouched(a: nat, b: nat, k: nat)
    requires b < Pow2(k)
    ensures Xor(a, b) / Pow2(k) == a / Pow2(k)
  {
    if k == 0 {
      XorZero(a);
    } else {
      HighUntouched(a / 2, b / 2, k - 1);
      XorStep(a, b);
      DivPow2(Xor(a, b), k);
      DivPow2(a, k);
    }
  }

  /** Exclusive or over the bytes of w, the lowest having the most steps to go. */
  function Sliced(acc: nat, k: nat, w: nat): nat
    decreases k
  {
    if k == 0 then acc else Sliced(Xor(acc, Steps(8 * k, w % 0x100)), k - 1, w / 0x100)
  }

  lemma {:induction false} SlicedIsSteps(acc: nat, k: nat, w: nat)
    requires w < Pow2(8 * k)
    ensures Sliced(acc, k, w) == Xor(acc, Steps(8 * k, w))
    decreases k
  {
    hide Xor, Steps, Pow2;
    SmallPowers();
    if k == 0 {
      XorZero(acc);
      NoSteps(w);
    } else {
      var low, high := w % 0x100, w / 0x100;
      Pow2Add(8, 8 * (k - 1));
      SlicedIsSteps(Xor(acc, Steps(8 * k, low)), k - 1, high);
      StepsSplit(8, 8 * (k - 1), low, high);
      XorAssoc(acc, Steps(8 * k, low), Steps(8 * (k - 1), high));
    }
  }

  lemma NoSteps(w: nat)
    ensures Steps(0, w) == w
  {
  }

  /** Eight table lookups, as written in the 64-bit branch of jl_crc32c_sw. */
  function EightLookups(table: array2<Word32>, w: nat): nat
    requires table.Length0 == 8 && table.Length1 == 256
    requires w < 0x1_0000_0000_0000_0000
    reads table
  {
    Xor(Xor(Xor(Xor(Xor(Xor(Xor(
      table[7, w % 0x100],
      table[6, w / 0x100 % 0x100]),
      table[5, w / 0x1_0000 % 0x100]),
      table[4, w / 0x100_0000 % 0x100]),
      table[3, w / 0x1_0000_0000 % 0x100]),
      table[2, w / 0x100_0000_0000 % 0x100]),
      table[1, w / 0x1_0000_0000_0000 % 0x100]),
      table[0, w / 0x100_0000_0000_0000])
  }

  /** Shifting by whole bytes one at a time. */
  lemma ByteShifts(w: nat)
    ensures w / 0x1_0000 == w / 0x100 / 0x100
    ensures w / 0x100_0000 == w / 0x100 / 0x100 / 0x100
    ensures w / 0x1_0000_0000 == w / 0x100 / 0x100 / 0x100 / 0x100
    ensures w / 0x100_0000_0000 == w / 0x100 / 0x100 / 0x100 / 0x100 / 0x100
    ensures w / 0x1_0000_0000_0000 == w / 0x100 / 0x100 / 0x100 / 0x100 / 0x100 / 0x100
    ensures w / 0x100_0000_0000_0000 == w / 0x100 / 0x100 / 0x100 / 0x100 / 0x100 / 0x100 / 0x100
  {
  }

  lemma LookupsAreSliced(table: array2<Word32>, w: nat)
    requires IsSlicingTable(table) && w < 0x1_0000_0000_0000_0000
    ensures EightLookups(table, w) == Sliced(table[7, w % 0x100], 7, w / 0x100)
  {
    hide Xor, Steps;
    var w1 := w / 0x100;
    ByteShifts(w);
    var w2 := w1 / 0x100;
    var w3 := w2 / 0x100;
    var w4 := w3 / 0x100;
    var w5 := w4 / 0x100;
    var w6 := w5 / 0x100;
    var a7 := table[7, w % 0x100];
    var a6 := OneLookup(table, a7, 7, w1);
    var a5 := OneLookup(table, a6, 6, w2);
    var a4 := OneLookup(table, a5, 5, w3);
    var a3 := OneLookup(table, a4, 4, w4);
    var a2 := OneLookup(table, a3, 3, w5);
    var a1 := OneLookup(table, a2, 2, w6);
    var a0 := OneLookup(table, a1, 1, w6 / 0x100);
  }

  lemma OneLookup(table: array2<Word32>, acc: nat, k: nat, w: nat) returns (next: nat)
    requires IsSlicingTable(table) && 1 <= k <= 8
    ensures next == Xor(acc, table[k - 1, w % 0x100])
    ensures Sliced(acc, k, w) == Sliced(next, k - 1, w / 0x100)
  {
    next := Xor(acc, table[k - 1, w % 0x100]);
  }

  /** Eight bytes enter at once. */
  lemma EightBytesEnter(table: array2<Word32>, crc: Word32, bytes: seq<Byte>)
    requires IsSlicingTable(table) && |bytes| == 8
    ensures LoadLE(bytes) < 0x1_0000_0000_0000_0000
    ensures Xor(crc, LoadLE(bytes)) < 0x1_0000_0000_0000_0000
    ensures EightLookups(table, Xor(crc, LoadLE(bytes))) == Fold(crc, bytes)
  {
    LoadBits(bytes);
    Pow2Values();
    XorBound(crc, LoadLE(bytes), 64);
    var w := Xor(crc, LoadLE(bytes));
    LookupsAreSliced(table, w);
    XorZero(Steps(64, w % 0x100));
    assert Sliced(0, 8, w) == Sliced(table[7, w % 0x100], 7, w / 0x100);
    SlicedIsSteps(0, 8, w);
    XorZero(Steps(64, w));
    FoldAsSteps(crc, bytes);
  }

  /** The same lookups in the branch for machines without 64-bit words, which keeps the two halves
  apart. */
  function HalvesLookups(table: array2<Word32>, low: nat, high: nat): nat
    requires table.Length0 == 8 && table.Length1 == 256
    requires high < 0x1_0000_0000
    reads table
  {
    Xor(Xor(Xor(Xor(Xor(Xor(Xor(
      table[7, low % 0x100],
      table[6, low / 0x100 % 0x100]),
      table[5, low / 0x1_0000 % 0x100]),
      table[4, low / 0x100_0000 % 0x100]),
      table[3, high % 0x100]),
      table[2, high / 0x100 % 0x100]),
      table[1, high / 0x1_0000 % 0x100]),
      table[0, high / 0x100_0000])
  }

  lemma HalvesAreWord(table: array2<Word32>, low: Word32, high: Word32)
    requires table.Length0 == 8 && table.Length1 == 256
    ensures HalvesLookups(table, low, high) == EightLookups(table, low + high * 0x1_0000_0000)
  {
    hide Xor;
    BytesOfHalves(low, high);
  }

  lemma BytesOfHalves(low: Word32, high: Word32)
    ensures var w := low + high * 0x1_0000_0000;
      && w % 0x100 == low % 0x100 && w / 0x100 % 0x100 == low / 0x100 % 0x100
      && w / 0x1_0000 % 0x100 == low / 0x1_0000 % 0x100 && w / 0x100_0000 % 0x100 == low / 0x100_0000 % 0x100
      && w / 0x1_0000_0000 == high && w / 0x100_0000_0000 == high / 0x100
      && w / 0x1_0000_0000_0000 == high / 0x1_0000 && w / 0x100_0000_0000_0000 == high / 0x100_0000
  {
    LowByte(low, high, 1, 0x100_0000);
    LowByte(low, high, 0x100, 0x1_0000);
    LowByte(low, high, 0x1_0000, 0x100);
    LowByte(low, high, 0x100_0000, 1);
    DivModUnique(low + high * 0x1_0000_0000, 0x1_0000_0000, high, low);
    DivDiv(low + high * 0x1_0000_0000, 0x1_0000_0000, 0x100);
    DivDiv(low + high * 0x1_0000_0000, 0x1_0000_0000, 0x1_0000);
    DivDiv(low + high * 0x1_0000_0000, 0x1_0000_0000, 0x100_0000);
  }

  lemma LowByte(low: nat, high: nat, p: nat, q: nat)
    requires p > 0 && 0x100 * q * p == 0x1_0000_0000
    ensures (low + high * 0x1_0000_0000) / p % 0x100 == low / p % 0x100
  {
    var d, r := low / p, low % p;
    QuotientIsNat(low, p);
    assert (d + high * (0x100 * q)) * p == d * p + high * (0x100 * q * p);
    DivModUnique(low + high * 0x1_0000_0000, p, d + high * (0x100 * q), r);
    assert high * (0x100 * q) == high * q * 0x100;
    DivModUnique(d + high * q * 0x100, 0x100, d / 0x100 + high * q, d % 0x100);
  }

  lemma {:induction false} LoadSplit(bytes: seq<Byte>, k: nat)
    requires k <= |bytes|
    ensures LoadLE(bytes) == LoadLE(bytes[..k]) + LoadLE(bytes[k..]) * Pow2(8 * k)
  {
    hide Pow2;
    if k == 0 {
      assert bytes[k..] == bytes;
      SmallPowers();
    } else {
      LoadSplit(bytes[1..], k - 1);
      assert bytes[1..][..k - 1] == bytes[..k][1..] && bytes[1..][k - 1..] == bytes[k..];
      Pow2Add(8, 8 * (k - 1));
      SmallPowers();
      NextByte(bytes[0], LoadLE(bytes[..k][1..]), LoadLE(bytes[k..]), Pow2(8 * (k - 1)));
    }
  }

  lemma NextByte(b: nat, x: nat, y: nat, p: nat)
    ensures b + 0x100 * (x + y * p) == b + 0x100 * x + y * (0x100 * p)
  {
    Assoc(y, 0x100, p);
  }

  /** The register only touches the lower half of the word. */
  lemma HalvesEnter(crc: Word32, bytes: seq<Byte>)
    requires |bytes| == 8
    ensures LoadLE(bytes[..4]) < 0x1_0000_0000 && LoadLE(bytes[4..]) < 0x1_0000_0000
    ensures Xor(crc, LoadLE(bytes[..4])) < 0x1_0000_0000
    ensures Xor(crc, LoadLE(bytes)) == Xor(crc, LoadLE(bytes[..4])) + LoadLE(bytes[4..]) * 0x1_0000_0000
  {
    hide Xor, LoadLE, Pow2;
    FourBytesBound(bytes[..4]);
    FourBytesBound(bytes[4..]);
    LoadSplit(bytes, 4);
    XorLowHalf(crc, LoadLE(bytes[..4]), LoadLE(bytes[4..]), Pow2(32));
  }

  lemma FourBytesBound(bytes: seq<Byte>)
    requires |bytes| == 4
    ensures LoadLE(bytes) < 0x1_0000_0000
  {
    hide LoadLE, Pow2;
    Pow2Values();
    LoadBits(bytes);
  }

  lemma HalvesLookUp(table: array2<Word32>, crc: Word32, bytes: seq<Byte>)
    requires IsSlicingTable(table) && |bytes| == 8
    ensures LoadLE(bytes[4..]) < 0x1_0000_0000
    ensures HalvesLookups(table, Xor(crc, LoadLE(bytes[..4])), LoadLE(bytes[4..])) == Fold(crc, bytes)
  {
    hide Xor, LoadLE, Fold, HalvesLookups, EightLookups;
    HalvesEnter(crc, bytes);
    HalvesAreWord(table, Xor(crc, LoadLE(bytes[..4])), LoadLE(bytes[4..]));
    EightBytesEnter(table, crc, bytes);
  }

  lemma XorLowHalf(crc: Word32, low: Word32, high: Word32, p: nat)
    requires p == Pow2(32)
    ensures high * p == high * 0x1_0000_0000
    ensures Xor(crc, low) < 0x1_0000_0000 && Xor(crc, low + high * p) == Xor(crc, low) + high * p
  {
    hide Xor, Pow2;
    Pow2Values();
    XorBound(crc, low, 32);
    XorDisjoint(high, low, 32);
    XorDisjoint(high, Xor(crc, low), 32);
    XorAssoc(crc, low, high * p);
  }

  /** jl_crc32c_sw; `addr` is the address of the buffer, `wide` says that words have 64 bits. */
  method SoftwareCrc(table: array2<Word32>, crci: Word32, buf: seq<Byte>, addr: nat, wide: bool) returns (r: Word32)
    requires IsSlicingTable(table)
    ensures r == Crc(crci, buf)
  {
    ghost var c := Not32(crci);
    Complement(crci);
    var crc := Xor(crci, 0xffff_ffff);
    var pos: nat, len: nat := 0, |buf|;
    while len != 0 && (addr + pos) % 8 != 0
      invariant pos + len == |buf|
      invariant crc == Fold(c, buf[..pos]) < 0x1_0000_0000
    {
      crc := OneByte(table, crc, buf, pos, c);
      pos, len := pos + 1, len - 1;
    }
    while len >= 8
      invariant pos + len == |buf|
      invariant crc == Fold(c, buf[..pos]) < 0x1_0000_0000
    {
      crc := EightBytes(table, crc, buf, pos, wide, c);
      pos, len := pos + 8, len - 8;
    }
    while len != 0
      invariant pos + len == |buf|
      invariant crc == Fold(c, buf[..pos]) < 0x1_0000_0000
    {
      crc := OneByte(table, crc, buf, pos, c);
      pos, len := pos + 1, len - 1;
    }
    assert buf[..pos] == buf;
    Complement(crc);
    r := Xor(crc, 0xffff_ffff);
  }

  /** The body of the two byte loops. */
  method OneByte(table: array2<Word32>, crc: Word32, buf: seq<Byte>, pos: nat, ghost c: nat) returns (r: Word32)
    requires IsSlicingTable(table)
    requires pos < |buf| && crc == Fold(c, buf[..pos])
    ensures r == Fold(c, buf[..pos + 1])
  {
    ByteEnters(table, crc, buf[pos]);
    FoldMore(c, buf, pos, pos + 1);
    assert buf[pos..pos + 1] == [buf[pos]];
    FoldBound(crc, [buf[pos]]);
    r := Xor(table[0, Xor(crc, buf[pos]) % 0x100], crc / 0x100);
  }

  /** The body of the eight-byte loop. */
  method EightBytes(table: array2<Word32>, crc: Word32, buf: seq<Byte>, pos: nat, wide: bool, ghost c: nat) returns (r: Word32)
    requires IsSlicingTable(table)
    requires pos + 8 <= |buf| && crc == Fold(c, buf[..pos])
    ensures r == Fold(c, buf[..pos + 8])
  {
    hide Xor, LoadLE, Fold, HalvesLookups, EightLookups;
    var bytes := buf[pos..pos + 8];
    FoldMore(c, buf, pos, pos + 8);
    FoldBound(crc, bytes);
    if wide {
      EightBytesEnter(table, crc, bytes);
      r := EightLookups(table, Xor(crc, LoadLE(bytes)));
    } else {
      HalvesLookUp(table, crc, bytes);
      r := HalvesLookups(table, Xor(crc, LoadLE(bytes[..4])), LoadLE(bytes[4..]));
    }
  }

  // ---------------------------------------------------------------- interleaved streams

  /** crc32cx/w/h/b fed with an unaligned load of `width` bytes. */
  method Feed(crc: Word32, buf: seq<Byte>, pos: nat, width: nat, ghost c: nat) returns (r: Word32)
    requires pos + width <= |buf|
    requires crc == Fold(c, buf[..pos])
    ensures r == Fold(c, buf[..pos + width])
  {
    InstructionIsFold(crc, buf[pos..pos + width]);
    FoldMore(c, buf, pos, pos + width);
    r := CrcInstruction(crc, LoadLE(buf[pos..pos + width]), 8 * width);
  }

  /** `crc32c_shift(zeros, crc) ^ crc1` joins two streams. */
  method JoinStreams(zeros: array2<Word32>, crc: Word32, crc1: Word32, ghost c: nat, ghost a: seq<Byte>, ghost b: seq<Byte>)
    returns (r: Word32)
    requires IsZerosTable(zeros, 8 * |b|)
    requires crc == Fold(c, a) && crc1 == Fold(0, b)
    ensures r == Fold(c, a + b)
  {
    Join(c, a, b);
    ShiftIsSteps(zeros, 8 * |b|, crc);
    StepsBound(8 * |b|, crc);
    Pow2Values();
    XorBound(Steps(8 * |b|, crc), crc1, 32);
    r := Xor(Shift(zeros, crc), crc1);
  }

  lemma EmptyStreams(c: Word32, buf1: seq<Byte>, buf2: seq<Byte>, buf3: seq<Byte>)
    ensures Fold(c, buf1[..0]) == c && Fold(0, buf2[..0]) == 0 && Fold(0, buf3[..0]) == 0
  {
  }

  /** The inner loop: three independent streams, the second and third from a zero register. */
  method ThreeStreams(crc0: Word32, buf1: seq<Byte>, buf2: seq<Byte>, buf3: seq<Byte>)
    returns (crc: Word32, crc1: Word32, crc2: Word32)
    requires |buf1| == |buf2| == |buf3| > 0 && |buf1| % 8 == 0
    ensures crc == Fold(crc0, buf1) && crc1 == Fold(0, buf2) && crc2 == Fold(0, buf3)
  {
    hide Fold;
    EmptyStreams(crc0, buf1, buf2, buf3);
    crc, crc1, crc2 := crc0, 0, 0;
    var i := 0;
    while true
      invariant 0 <= i < |buf1| && i % 8 == 0
      invariant crc == Fold(crc0, buf1[..i]) && crc1 == Fold(0, buf2[..i]) && crc2 == Fold(0, buf3[..i])
      decreases |buf1| - i
    {
      crc := Feed(crc, buf1, i, 8, crc0);
      crc1 := Feed(crc1, buf2, i, 8, 0);
      crc2 := Feed(crc2, buf3, i, 8, 0);
      i := i + 8;
      if i >= |buf1| { break; }
    }
    assert buf1[..i] == buf1 && buf2[..i] == buf2 && buf3[..i] == buf3;
  }

  /** One round of the LONG*3 or SHORT*3 loop, on three neighbouring blocks. */
  method ThreeBlocks(zeros: array2<Word32>, crc0: Word32, buf1: seq<Byte>, buf2: seq<Byte>, buf3: seq<Byte>)
    returns (crc: Word32)
    requires |buf1| == |buf2| == |buf3| > 0 && |buf1| % 8 == 0
    requires IsZerosTable(zeros, 8 * |buf1|)
    ensures crc == Fold(crc0, buf1 + buf2 + buf3)
  {
    var crc1, crc2;
    crc, crc1, crc2 := ThreeStreams(crc0, buf1, buf2, buf3);
    crc := JoinStreams(zeros, crc, crc1, crc0, buf1, buf2);
    crc := JoinStreams(zeros, crc, crc2, crc0, buf1 + buf2, buf3);
  }

  /** The SHORT*2 step. */
  method TwoBlocks(zeros: array2<Word32>, crc0: Word32, buf1: seq<Byte>, buf2: seq<Byte>) returns (crc: Word32)
    requires |buf1| == |buf2| > 0 && |buf1| % 8 == 0
    requires IsZerosTable(zeros, 8 * |buf1|)
    ensures crc == Fold(crc0, buf1 + buf2)
  {
    hide Fold;
    EmptyStreams(crc0, buf1, buf2, []);
    crc := crc0;
    var crc1: Word32 := 0;
    var i := 0;
    while true
      invariant 0 <= i < |buf1| && i % 8 == 0
      invariant crc == Fold(crc0, buf1[..i])
      invariant crc1 == Fold(0, buf2[..i])
      decreases |buf1| - i
    {
      crc := Feed(crc, buf1, i, 8, crc0);
      crc1 := Feed(crc1, buf2, i, 8, 0);
      i := i + 8;
      if i >= |buf1| { break; }
    }
    assert buf1[..i] == buf1 && buf2[..i] == buf2;
    crc := JoinStreams(zeros, crc, crc1, crc0, buf1, buf2);
  }

  /** The loop over rounds of three blocks: as many as fit. */
  method Rounds(zeros: array2<Word32>, block: nat, crc0: Word32, buf: seq<Byte>, pos0: nat, ghost c: nat)
    returns (crc: Word32, pos: nat)
    requires block > 0 && block % 8 == 0 && IsZerosTable(zeros, 8 * block)
    requires pos0 <= |buf| && crc0 == Fold(c, buf[..pos0])
    ensures pos0 <= pos <= |buf| < pos + 3 * block
    ensures crc == Fold(c, buf[..pos])
  {
    hide Fold;
    crc, pos := crc0, pos0;
    while |buf| - pos >= 3 * block
      invariant pos0 <= pos <= |buf|
      invariant crc == Fold(c, buf[..pos])
    {
      var p2, p3, next := pos + block, pos + 2 * block, pos + 3 * block;
      FoldMore(c, buf, pos, next);
      assert buf[pos..next] == buf[pos..p2] + buf[p2..p3] + buf[p3..next];
      crc := ThreeBlocks(zeros, crc, buf[pos..p2], buf[p2..p3], buf[p3..next]);
      pos := next;
    }
  }

  /** crc32c_armv8 */
  method HardwareCrc(long: array2<Word32>, short: array2<Word32>, crci: Word32, buf: seq<Byte>) returns (r: Word32)
    requires IsZerosTable(long, 8 * LONG) && IsZerosTable(short, 8 * SHORT)
    ensures r == Crc(crci, buf)
  {
    ghost var c := Not32(crci);
    var crc := Not32(crci);
    var pos: nat := 0;
    crc, pos := Rounds(long, LONG, crc, buf, pos, c);
    crc, pos := Rounds(short, SHORT, crc, buf, pos, c);
    if |buf| - pos >= 2 * SHORT {
      var p2, next := pos + SHORT, pos + 2 * SHORT;
      FoldMore(c, buf, pos, next);
      assert buf[pos..next] == buf[pos..p2] + buf[p2..next];
      crc := TwoBlocks(short, crc, buf[pos..p2], buf[p2..next]);
      pos := next;
    }
    crc := Tail(crc, buf, pos, c);
    r := Not32(crc);
  }

  lemma LowBits(len: nat)
    ensures len % 8 == len / 4 % 2 * 4 + len / 2 % 2 * 2 + len % 2
  {
    var h, g := len / 2, len / 4;
    assert g == h / 2;
    DivModUnique(len, 8, g / 2, g % 2 * 4 + h % 2 * 2 + len % 2);
  }

  /** The last bytes: whole words, then 4, 2 and 1 bytes as the bits of the length say. */
  method Tail(crc0: Word32, buf: seq<Byte>, pos0: nat, ghost c: nat) returns (crc: Word32)
    requires pos0 <= |buf| && crc0 == Fold(c, buf[..pos0])
    ensures crc == Fold(c, buf)
  {
    hide Fold;
    crc := crc0;
    var pos: nat := pos0;
    var len := |buf| - pos;
    var end := pos + len - 8;
    ghost var words := 0;
    while pos <= end
      invariant pos == pos0 + 8 * words <= |buf|
      invariant crc == Fold(c, buf[..pos])
    {
      crc := Feed(crc, buf, pos, 8, c);
      pos, words := pos + 8, words + 1;
    }
    DivModUnique(len, 8, words, |buf| - pos);
    LowBits(len);
    var four, two, one := len / 4 % 2, len / 2 % 2, len % 2; // len & 4, len & 2, len & 1
    crc := TailBits(crc, buf, pos, four, two, one, c);
  }

  method TailBits(crc0: Word32, buf: seq<Byte>, pos0: nat, four: nat, two: nat, one: nat, ghost c: nat) returns (crc: Word32)
    requires pos0 + 4 * four + 2 * two + one == |buf| && four <= 1 && two <= 1 && one <= 1
    requires crc0 == Fold(c, buf[..pos0])
    ensures crc == Fold(c, buf)
  {
    crc := crc0;
    var pos: nat := pos0;
    if four == 1 {
      crc := Feed(crc, buf, pos, 4, c);
      pos := pos + 4;
    }
    if two == 1 {
      crc := Feed(crc, buf, pos, 2, c);
      pos := pos + 2;
    }
    if one == 1 {
      crc := Feed(crc, buf, pos, 1, c);
      pos := pos + 1;
    }
    assert buf[..pos] == buf;
  }

  /** Both forms, run on the tables that the generators build, give the same checksum. */
  method BothForms(crci: Word32, buf: seq<Byte>, addr: nat, wide: bool) returns (soft: Word32, hard: Word32)
    ensures soft == hard == Crc(crci, buf)
  {
    assert Pow2(13) == LONG && Pow2(8) == SHORT;
    FloorPow2OfPow2(13);
    FloorPow2OfPow2(8);
    var table := InitSw();
    var long := Zeros(LONG);
    var short := Zeros(SHORT);
    soft := SoftwareCrc(table, crci, buf, addr, wide);
    hard := HardwareCrc(long, short, crci, buf);
  }
}
