/** CRC-32C one bit at a time (section 12.1 of RFC 3720). */
module Crc32c {
  import opened Bits

  /* The algebra behind the fast forms of src/crc32c.c: the register is a polynomial over GF(2), a step is
  linear, and a message enters by exclusive or. */

  type Byte = b: nat | b < 0x100
  type Word32 = w: nat | w < 0x1_0000_0000

  /** The CRC-32C polynomial in reversed bit order. */
  const POLY: Word32 := 0x82f63b78

  /** One shift of the register. */
  function Step(c: nat): nat {
    if c % 2 == 1 then Xor(c / 2, POLY) else c / 2
  }

  function Steps(n: nat, c: nat): nat
    decreases n
  {
    if n == 0 then c else Steps(n - 1, Step(c))
  }

  // ---------------------------------------------------------------- the reference

  /** One message bit: the bit is added to the low end of the register, then the register is shifted. */
  function BitStep(c: nat, bit: bool): nat {
    if (c % 2 == 1) != bit then Xor(c / 2, POLY) else c / 2
  }

  function CrcBits(c: nat, bits: seq<bool>): nat
    decreases |bits|
  {
    if bits == [] then c else CrcBits(BitStep(c, bits[0]), bits[1..])
  }

  /** The n low bits of v, least significant first. */
  function ValueBits(v: nat, n: nat): (bits: seq<bool>)
    ensures |bits| == n
    decreases n
  {
    if n == 0 then [] else [v % 2 == 1] + ValueBits(v / 2, n - 1)
  }

  function MessageBits(msg: seq<Byte>): (bits: seq<bool>)
    ensures |bits| == 8 * |msg|
  {
    if msg == [] then [] else ValueBits(msg[0], 8) + MessageBits(msg[1..])
  }

  /** The register after `msg`, without the final complement. */
  function Fold(c: nat, msg: seq<Byte>): nat {
    CrcBits(c, MessageBits(msg))
  }

  function Not32(w: Word32): Word32 {
    0xffff_ffff - w
  }

  /** The CRC-32C of `msg` continuing from `crc`, bit at a time. */
  function Crc(crc: Word32, msg: seq<Byte>): Word32 {
    CrcBitsBound(Not32(crc), MessageBits(msg));
    Not32(Fold(Not32(crc), msg))
  }

  /** A CRC instruction: `width` bits of `val`, least significant first, enter the register. */
  function CrcInstruction(crc: Word32, val: nat, width: nat): Word32 {
    CrcBitsBound(crc, ValueBits(val, width));
    CrcBits(crc, ValueBits(val, width))
  }

  /** A little-endian load. */
  function LoadLE(bytes: seq<Byte>): nat {
    if bytes == [] then 0 else bytes[0] + 0x100 * LoadLE(bytes[1..])
  }

  // ---------------------------------------------------------------- bounds

  lemma StepBound(c: nat)
    requires c < 0x1_0000_0000
    ensures Step(c) < 0x1_0000_0000
  {
    Pow2Values();
    XorBound(c / 2, POLY, 32);
  }

  lemma {:induction false} StepsBound(n: nat, c: nat)
    requires c < 0x1_0000_0000
    ensures Steps(n, c) < 0x1_0000_0000
    decreases n
  {
    if n > 0 {
      StepBound(c);
      StepsBound(n - 1, Step(c));
    }
  }

  lemma {:induction false} CrcBitsBound(c: nat, bits: seq<bool>)
    requires c < 0x1_0000_0000
    ensures CrcBits(c, bits) < 0x1_0000_0000
    decreases |bits|
  {
    if bits != [] {
      Pow2Values();
      XorBound(c / 2, POLY, 32);
      CrcBitsBound(BitStep(c, bits[0]), bits[1..]);
    }
  }

  // ---------------------------------------------------------------- composition

  lemma {:induction false} CrcBitsConcat(c: nat, a: seq<bool>, b: seq<bool>)
    ensures CrcBits(c, a + b) == CrcBits(CrcBits(c, a), b)
    decreases |a|
  {
    if a == [] {
      assert a + b == b;
    } else {
      assert (a + b)[1..] == a[1..] + b;
      CrcBitsConcat(BitStep(c, a[0]), a[1..], b);
    }
  }

  lemma {:induction false} MessageBitsConcat(a: seq<Byte>, b: seq<Byte>)
    ensures MessageBits(a + b) == MessageBits(a) + MessageBits(b)
  {
    if a == [] {
      assert a + b == b;
    } else {
      assert (a + b)[1..] == a[1..] + b;
      MessageBitsConcat(a[1..], b);
    }
  }

  lemma FoldConcat(c: nat, a: seq<Byte>, b: seq<Byte>)
    ensures Fold(c, a + b) == Fold(Fold(c, a), b)
  {
    MessageBitsConcat(a, b);
    CrcBitsConcat(c, MessageBits(a), MessageBits(b));
  }

  /** A CRC can be continued: this is what the starting value is for. */
  lemma CrcConcat(crc: Word32, a: seq<Byte>, b: seq<Byte>)
    ensures Crc(Crc(crc, a), b) == Crc(crc, a + b)
  {
    FoldConcat(Not32(crc), a, b);
  }

  // ---------------------------------------------------------------- linearity

  lemma StepLinear(x: nat, y: nat)
    ensures Step(Xor(x, y)) == Xor(Step(x), Step(y))
  {
    XorStep(x, y);
    var p, q := x / 2, y / 2;
    XorZero(p);
    XorZero(q);
    if x % 2 == 1 && y % 2 == 1 {
      XorSwap(p, POLY, q, POLY);
      XorSelf(POLY);
      XorZero(Xor(p, q));
    } else if x % 2 == 1 {
      XorAssoc(p, POLY, q);
      XorComm(POLY, q);
      XorAssoc(p, q, POLY);
    } else {
      XorAssoc(p, q, POLY);
    }
  }

  lemma {:induction false} StepsLinear(n: nat, x: nat, y: nat)
    ensures Steps(n, Xor(x, y)) == Xor(Steps(n, x), Steps(n, y))
    decreases n
  {
    if n > 0 {
      StepLinear(x, y);
      StepsLinear(n - 1, Step(x), Step(y));
    }
  }

  lemma {:induction false} StepsAdd(m: nat, n: nat, x: nat)
    ensures Steps(m + n, x) == Steps(n, Steps(m, x))
    decreases m
  {
    if m > 0 { StepsAdd(m - 1, n, Step(x)); }
  }

  lemma {:induction false} StepsOfZero(n: nat)
    ensures Steps(n, 0) == 0
  {
    if n > 0 { StepsOfZero(n - 1); }
  }

  /** A register whose low k bits are zero is just shifted by k steps. */
  lemma {:induction false} StepsShift(k: nat, y: nat)
    ensures Steps(k, y * Pow2(k)) == y
    decreases k
  {
    if k > 0 {
      Shifted(y, k);
      StepsShift(k - 1, y);
    }
  }

  /** The low k bits of a word have k more steps to go than the rest. */
  lemma StepsSplit(k: nat, n: nat, low: nat, high: nat)
    requires low < Pow2(k)
    ensures Steps(k + n, low + high * Pow2(k)) == Xor(Steps(k + n, low), Steps(n, high))
  {
    var shifted := high * Pow2(k);
    XorDisjoint(high, low, k);
    StepsLinear(k + n, low, shifted);
    StepsAdd(k, n, shifted);
    StepsShift(k, high);
  }

  // ---------------------------------------------------------------- messages as words

  function BitsValue(bits: seq<bool>): nat {
    if bits == [] then 0 else (if bits[0] then 1 else 0) + 2 * BitsValue(bits[1..])
  }

  lemma BitStepIsStep(c: nat, bit: bool, rest: nat)
    ensures Step(Xor(c, (if bit then 1 else 0) + 2 * rest)) == Xor(BitStep(c, bit), rest)
  {
    var v := (if bit then 1 else 0) + 2 * rest;
    assert v / 2 == rest && (v % 2 == 1) == bit;
    XorStep(c, v);
    if (c % 2 == 1) != bit {
      XorAssoc(c / 2, rest, POLY);
      XorComm(rest, POLY);
      XorAssoc(c / 2, POLY, rest);
    }
  }

  /** Feeding bits one at a time is adding them all at once and then shifting. */
  lemma {:induction false} CrcBitsAsSteps(c: nat, bits: seq<bool>)
    ensures CrcBits(c, bits) == Steps(|bits|, Xor(c, BitsValue(bits)))
    decreases |bits|
  {
    if bits == [] {
      XorZero(c);
    } else {
      BitStepIsStep(c, bits[0], BitsValue(bits[1..]));
      CrcBitsAsSteps(BitStep(c, bits[0]), bits[1..]);
    }
  }

  lemma {:induction false} BitsValueOfValueBits(v: nat, n: nat)
    requires v < Pow2(n)
    ensures BitsValue(ValueBits(v, n)) == v
    decreases n
  {
    if n > 0 { BitsValueOfValueBits(v / 2, n - 1); }
  }

  lemma {:induction false} ValueBitsConcat(low: nat, m: nat, high: nat, n: nat)
    requires low < Pow2(m)
    ensures ValueBits(low + high * Pow2(m), m + n) == ValueBits(low, m) + ValueBits(high, n)
    decreases m
  {
    if m > 0 {
      Shifted(high, m);
      ValueBitsConcat(low / 2, m - 1, high, n);
      var v := low + high * Pow2(m);
      assert v / 2 == low / 2 + high * Pow2(m - 1) && v % 2 == low % 2;
    }
  }

  lemma EmptyBits()
    ensures ValueBits(0, 0) == [] && Pow2(0) == 1
  {
  }

  lemma {:induction false} LoadBits(bytes: seq<Byte>)
    ensures MessageBits(bytes) == ValueBits(LoadLE(bytes), 8 * |bytes|)
    ensures LoadLE(bytes) < Pow2(8 * |bytes|)
  {
    hide ValueBits, Pow2;
    if bytes == [] {
      EmptyBits();
    } else {
      var rest, n := LoadLE(bytes[1..]), 8 * |bytes[1..]|;
      LoadBits(bytes[1..]);
      Pow2Values();
      ValueBitsConcat(bytes[0], 8, rest, n);
      assert LoadLE(bytes) == bytes[0] + rest * Pow2(8) && 8 * |bytes| == 8 + n;
      Pow2Add(8, n);
    }
  }

  /** The whole message as one big word: add it to the register, then shift it out. */
  lemma FoldAsSteps(c: nat, msg: seq<Byte>)
    ensures Fold(c, msg) == Steps(8 * |msg|, Xor(c, LoadLE(msg)))
  {
    LoadBits(msg);
    CrcBitsAsSteps(c, MessageBits(msg));
    BitsValueOfValueBits(LoadLE(msg), 8 * |msg|);
  }

  /** A CRC instruction fed with a load is as good as the bytes one by one. */
  lemma InstructionIsFold(crc: Word32, bytes: seq<Byte>)
    ensures CrcInstruction(crc, LoadLE(bytes), 8 * |bytes|) == Fold(crc, bytes)
  {
    LoadBits(bytes);
  }

  /** Two streams joined: run `b` from a zero register on its own, and push the register
  of `a` through as many zero bytes as `b` is long. */
  lemma Join(c: nat, a: seq<Byte>, b: seq<Byte>)
    ensures Fold(c, a + b) == Xor(Steps(8 * |b|, Fold(c, a)), Fold(0, b))
  {
    FoldConcat(c, a, b);
    FoldAsSteps(Fold(c, a), b);
    FoldAsSteps(0, b);
    StepsLinear(8 * |b|, Fold(c, a), LoadLE(b));
    XorZero(LoadLE(b));
  }
}
