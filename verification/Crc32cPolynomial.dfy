/** The CRC as a remainder of polynomials over GF(2) (section 12.1 of RFC 3720). */
module Crc32cPolynomial {
  import opened Bits
  import opened Crc32c

  /* A number stands for a polynomial: bit k is the coefficient of x^k, and Xor is the sum.  Product and
  remainder are those of any textbook; neither mentions the register or its steps. */

  /** The CRC-32C generator of RFC 3720: x^32 and 0x1edc6f41. */
  const GENERATOR: nat := 0x1_1edc_6f41

  function Product(a: nat, b: nat): nat
    decreases a
  {
    if a == 0 then 0 else Xor(if a % 2 == 1 then b else 0, 2 * Product(a / 2, b))
  }

  ghost predicate IsRemainder(r: nat, a: nat, g: nat) {
    r < Pow2(32) && exists q :: a == Xor(Product(q, g), r)
  }

  /** The message as a polynomial: the bit that comes first is the highest coefficient. */
  function Poly(bits: seq<bool>): nat {
    if bits == [] then 0
    else 2 * Poly(bits[..|bits| - 1]) + if bits[|bits| - 1] then 1 else 0
  }

  /** The n low bits of c in reversed order, below those of acc. */
  function Reversed(c: nat, n: nat, acc: nat): nat
    decreases n
  {
    if n == 0 then acc else Reversed(c / 2, n - 1, 2 * acc + c % 2)
  }

  /** The message, then 32 zero bits; the register's start is added to its first 32 bits. */
  function Dividend(start: nat, bits: seq<bool>): nat {
    Xor(Poly(bits) * Pow2(32), Reversed(start, 32, 0) * Pow2(|bits|))
  }

  // ---------------------------------------------------------------- reversed registers

  lemma ReversedNext(c: nat, half: nat, low: nat, n: nat, acc: nat)
    requires n > 0 && c / 2 == half && c % 2 == low
    ensures Reversed(c, n, acc) == Reversed(half, n - 1, 2 * acc + low)
  {
  }

  lemma PushXor(s: nat, t: nat, d: nat, e: nat)
    requires d <= 1 && e <= 1
    ensures Xor(2 * s + d, 2 * t + e) == 2 * Xor(s, t) + if d == e then 0 else 1
  {
    XorStep(2 * s + d, 2 * t + e);
  }

  lemma {:induction false} ReversedXor(a: nat, b: nat, n: nat, s: nat, t: nat)
    ensures Reversed(Xor(a, b), n, Xor(s, t)) == Xor(Reversed(a, n, s), Reversed(b, n, t))
    decreases n
  {
    if n > 0 {
      hide Xor, Reversed;
      XorStep(a, b);
      PushXor(s, t, a % 2, b % 2);
      ReversedNext(a, a / 2, a % 2, n, s);
      ReversedNext(b, b / 2, b % 2, n, t);
      ReversedNext(Xor(a, b), Xor(a / 2, b / 2), Xor(a, b) % 2, n, Xor(s, t));
      ReversedXor(a / 2, b / 2, n - 1, 2 * s + a % 2, 2 * t + b % 2);
    }
  }

  lemma {:induction false} ReversedBelow(c: nat, n: nat, acc: nat)
    ensures Reversed(c, n, acc) == acc * Pow2(n) + Reversed(c, n, 0)
    ensures Reversed(c, n, 0) < Pow2(n)
    decreases n
  {
    if n > 0 {
      ReversedBelow(c / 2, n - 1, 2 * acc + c % 2);
      ReversedBelow(c / 2, n - 1, c % 2);
      Carried(acc, c % 2, Pow2(n - 1), Reversed(c / 2, n - 1, 0));
    }
  }

  lemma Carried(acc: nat, bit: nat, p: nat, rest: nat)
    requires bit <= 1 && rest < p
    ensures (2 * acc + bit) * p + rest == acc * (2 * p) + (bit * p + rest)
    ensures bit * p + rest < 2 * p
  {
    if bit == 1 {
      assert (2 * acc + 1) * p == acc * (2 * p) + p;
    } else {
      assert 2 * acc * p == acc * (2 * p);
    }
  }

  /** A register with room at its high end. */
  lemma {:induction false} ReversedRoom(c: nat, n: nat, acc: nat)
    requires n > 0 && c < Pow2(n - 1)
    ensures Reversed(c, n, acc) == 2 * Reversed(c, n - 1, acc)
    decreases n
  {
    if n == 1 {
      assert Reversed(c, 1, acc) == Reversed(c / 2, 0, 2 * acc + c % 2);
    } else {
      ReversedRoom(c / 2, n - 1, 2 * acc + c % 2);
    }
  }

  /** A shift of the register is a product with x, of which the highest coefficient falls out. */
  lemma ReversedShift(r: nat, n: nat)
    requires n > 0 && r < Pow2(n)
    ensures 2 * Reversed(r, n, 0) == Xor(Reversed(r / 2, n, 0), r % 2 * Pow2(n))
    ensures Reversed(r / 2, n, 0) < Pow2(n)
  {
    hide Xor, Reversed, Pow2;
    NextPower(n);
    ReversedNext(r, r / 2, r % 2, n, 0);
    ReversedBelow(r / 2, n - 1, r % 2);
    ReversedRoom(r / 2, n, 0);
    ReversedBelow(r / 2, n, 0);
    XorDisjoint(r % 2, Reversed(r / 2, n, 0), n);
    Doubles(r % 2, Pow2(n - 1));
  }

  // ---------------------------------------------------------------- sums

  lemma XorDouble(a: nat, b: nat)
    ensures 2 * Xor(a, b) == Xor(2 * a, 2 * b)
  {
    XorStep(2 * a, 2 * b);
  }

  lemma {:induction false} XorShl(a: nat, b: nat, k: nat)
    ensures Xor(a, b) * Pow2(k) == Xor(a * Pow2(k), b * Pow2(k))
  {
    if k > 0 {
      Shifted(a, k);
      Shifted(b, k);
      Shifted(Xor(a, b), k);
      XorStep(a * Pow2(k), b * Pow2(k));
      XorShl(a, b, k - 1);
    }
  }

  lemma XorSwapLast(a: nat, b: nat, c: nat)
    ensures Xor(Xor(a, b), c) == Xor(Xor(a, c), b)
  {
    XorAssoc(a, b, c);
    XorComm(b, c);
    XorAssoc(a, c, b);
  }

  lemma XorCancel(p: nat, low: nat, g: nat, h: nat)
    ensures Xor(Xor(Xor(g, h), p), Xor(low, g)) == Xor(p, Xor(low, h))
  {
    hide Xor;
    XorSwapLast(g, h, p);
    XorSwap(Xor(g, p), h, low, g);
    XorComm(g, p);
    XorAssoc(p, g, low);
    XorComm(g, low);
    XorComm(h, g);
    XorAssoc(p, Xor(low, g), Xor(g, h));
    XorAssoc(low, g, Xor(g, h));
    XorAssoc(g, g, h);
    XorSelf(g);
    XorZero(h);
  }

  // ---------------------------------------------------------------- one bit of long division

  lemma ProductNext(q: nat, g: nat, bit: nat)
    requires bit <= 1
    ensures Product(2 * q + bit, g) == Xor(if bit == 1 then g else 0, 2 * Product(q, g))
  {
    assert (2 * q + bit) / 2 == q && (2 * q + bit) % 2 == bit;
    XorZero(0);
  }

  /** The next bit of the message is brought down; the quotient's next bit is 1 if the register's low bit
  and that bit differ, and then the generator is subtracted. */
  lemma DivisionStep(q: nat, a: nat, r: nat, bit: bool)
    requires r < Pow2(32) && a == Xor(Product(q, GENERATOR), Reversed(r, 32, 0))
    ensures var top := if (r % 2 == 1) != bit then 1 else 0;
      Xor(2 * a, (if bit then 1 else 0) * Pow2(32))
      == Xor(Product(2 * q + top, GENERATOR), Reversed(BitStep(r, bit), 32, 0))
  {
    hide Xor, Product, Reversed, Pow2;
    var b, top := if bit then 1 else 0, if (r % 2 == 1) != bit then 1 else 0;
    var p, low := 2 * Product(q, GENERATOR), Reversed(r / 2, 32, 0);
    var x32 := Pow2(32);
    XorDouble(Product(q, GENERATOR), Reversed(r, 32, 0));
    ReversedShift(r, 32);
    ProductNext(q, GENERATOR, top);
    XorAssoc(p, Xor(low, r % 2 * x32), b * x32);
    XorAssoc(low, r % 2 * x32, b * x32);
    TopBit(r % 2, b, x32);
    assert Xor(2 * a, b * x32) == Xor(p, Xor(low, top * x32));
    if top == 1 {
      GeneratorReversed();
      ReversedXor(r / 2, POLY, 32, 0, 0);
      XorZero(0);
      XorCancel(p, low, Reversed(POLY, 32, 0), x32);
    } else {
      XorZero(p);
      XorZero(low);
    }
  }

  lemma TopBit(t: nat, b: nat, p: nat)
    requires t <= 1 && b <= 1
    ensures Xor(t * p, b * p) == (if t != b then 1 else 0) * p
  {
    hide Xor;
    XorZero(p);
    XorZero(0);
    XorSelf(p);
  }

  /** Long division of the message keeps the register as its remainder. */
  lemma {:induction false} Division(c: nat, bits: seq<bool>) returns (q: nat)
    requires c < Pow2(32)
    ensures Dividend(c, bits) == Xor(Product(q, GENERATOR), Reversed(CrcBits(c, bits), 32, 0))
    decreases |bits|
  {
    hide Xor, Product, Reversed, BitStep;
    if bits == [] {
      q := 0;
      NothingDivided(c);
    } else {
      var n := |bits| - 1;
      var before, bit := bits[..n], bits[n];
      var q' := Division(c, before);
      Pow2Values();
      CrcBitsBound(c, before);
      CrcBitsConcat(c, before, [bit]);
      assert before + [bit] == bits && CrcBits(CrcBits(c, before), [bit]) == BitStep(CrcBits(c, before), bit);
      DivisionStep(q', Dividend(c, before), CrcBits(c, before), bit);
      DividendNext(c, before, bit);
      q := 2 * q' + if (CrcBits(c, before) % 2 == 1) != bit then 1 else 0;
    }
  }

  lemma NothingDivided(c: nat)
    ensures Dividend(c, []) == Xor(Product(0, GENERATOR), Reversed(c, 32, 0))
  {
    hide Xor, Reversed;
    XorZero(Reversed(c, 32, 0));
  }

  lemma DividendNext(c: nat, bits: seq<bool>, bit: bool)
    ensures Dividend(c, bits + [bit]) == Xor(2 * Dividend(c, bits), (if bit then 1 else 0) * Pow2(32))
  {
    hide Xor, Reversed, Pow2;
    assert (bits + [bit])[..|bits|] == bits;
    NextPower(|bits| + 1);
    BroughtDown(Poly(bits), if bit then 1 else 0, Reversed(c, 32, 0), Pow2(|bits|), 32);
  }

  lemma BroughtDown(m: nat, b: nat, start: nat, p: nat, k: nat)
    requires b <= 1
    ensures Xor((2 * m + b) * Pow2(k), start * (2 * p)) == Xor(2 * Xor(m * Pow2(k), start * p), b * Pow2(k))
  {
    hide Xor, Pow2;
    var x := Pow2(k);
    NonNegative(m, x);
    NonNegative(start, p);
    NonNegative(b, x);
    Appended(m, b);
    XorShl(2 * m, b, k);
    XorDouble(m * x, start * p);
    Doubles(m, x);
    Doubles(start, p);
    XorSwapLast(2 * (m * x), b * x, 2 * (start * p));
  }

  lemma Appended(m: nat, b: nat)
    requires b <= 1
    ensures Xor(2 * m, b) == 2 * m + b
  {
    XorStep(2 * m, b);
    XorZero(m);
  }

  lemma Doubles(m: nat, p: nat)
    ensures 2 * (m * p) == 2 * m * p == m * (2 * p)
  {
  }

  // ---------------------------------------------------------------- there is one remainder

  lemma {:induction false} ProductSum(a: nat, b: nat, g: nat)
    ensures Product(Xor(a, b), g) == Xor(Product(a, g), Product(b, g))
    decreases a + b
  {
    hide Xor;
    XorStep(a, b);
    XorZero(0);
    XorZero(g);
    XorSelf(g);
    if a + b > 0 {
      ProductSum(a / 2, b / 2, g);
      ProductNext(a / 2, g, a % 2);
      ProductNext(b / 2, g, b % 2);
      ProductNext(Xor(a, b) / 2, g, Xor(a, b) % 2);
      XorDouble(Product(a / 2, g), Product(b / 2, g));
      XorSwap(if a % 2 == 1 then g else 0, 2 * Product(a / 2, g), if b % 2 == 1 then g else 0, 2 * Product(b / 2, g));
    }
  }

  lemma ShrStep(x: nat, k: nat)
    requires k > 0
    ensures Shr(x, k) == Shr(x / 2, k - 1)
  {
    DivPow2(x, k);
  }

  lemma ShrNone(x: nat)
    ensures Shr(x, 0) == x
  {
  }

  lemma {:induction false} XorShr(a: nat, b: nat, k: nat)
    ensures Shr(Xor(a, b), k) == Xor(Shr(a, k), Shr(b, k))
    decreases k
  {
    hide Xor, Shr;
    if k == 0 {
      ShrNone(a);
      ShrNone(b);
      ShrNone(Xor(a, b));
    } else {
      ShrStep(a, k);
      ShrStep(b, k);
      ShrStep(Xor(a, b), k);
      XorStep(a, b);
      XorShr(a / 2, b / 2, k - 1);
    }
  }

  /** A multiple of the generator is no remainder, unless it is zero. */
  lemma {:induction false} ProductLarge(a: nat)
    requires a > 0
    ensures Product(a, GENERATOR) >= Pow2(32)
    decreases a
  {
    hide Xor, Product, Pow2, Shr;
    Pow2Values();
    NextPower(33);
    ProductNext(a / 2, GENERATOR, a % 2);
    var low, p := if a % 2 == 1 then GENERATOR else 0, Product(a / 2, GENERATOR);
    if a == 1 {
      ProductOfZero(GENERATOR);
      XorZero(GENERATOR);
    } else {
      ProductLarge(a / 2);
      XorShr(low, 2 * p, 33);
      ShrStep(2 * p, 33);
      XorZero(Shr(p, 32));
      ShrPositive(p, 32);
      ShrPositive(low, 33);
      ShrPositive(Xor(low, 2 * p), 33);
    }
  }

  lemma ShrPositive(x: nat, k: nat)
    ensures Shr(x, k) > 0 <==> x >= Pow2(k)
  {
    hide Pow2;
    Euclid(x, Pow2(k));
    if x < Pow2(k) {
      DivModUnique(x, Pow2(k), 0, x);
    } else if x / Pow2(k) == 0 {
      assert false;
    }
  }

  lemma ProductOfZero(g: nat)
    ensures Product(0, g) == 0
  {
  }

  lemma {:induction false} XorIsZero(a: nat, b: nat)
    requires Xor(a, b) == 0
    ensures a == b
    decreases a + b
  {
    if a + b > 0 { XorIsZero(a / 2, b / 2); }
  }

  lemma OneRemainder(a: nat, r: nat, r': nat)
    requires IsRemainder(r, a, GENERATOR) && IsRemainder(r', a, GENERATOR)
    ensures r == r'
  {
    hide Xor, Product, Pow2;
    var q :| a == Xor(Product(q, GENERATOR), r);
    var q' :| a == Xor(Product(q', GENERATOR), r');
    var p, p' := Product(q, GENERATOR), Product(q', GENERATOR);
    ProductSum(q, q', GENERATOR);
    XorSwap(p, r, p', r');
    XorSelf(a);
    XorIsZero(Xor(p, p'), Xor(r, r'));
    XorBound(r, r', 32);
    if Xor(q, q') > 0 { ProductLarge(Xor(q, q')); }
    ProductOfZero(GENERATOR);
    XorIsZero(r, r');
  }

  /** The CRC-32C of a message is what RFC 3720 says: without the complements at its two ends, and in
  reversed bit order, it is the remainder of the message by the generator, and nothing else is. */
  lemma CrcIsRemainder(crc: Word32, msg: seq<Byte>, r: nat)
    ensures IsRemainder(r, Dividend(0xffff_ffff - crc, MessageBits(msg)), GENERATOR)
            <==> r == Reversed(0xffff_ffff - Crc(crc, msg), 32, 0)
  {
    hide Xor, Product, Reversed, Pow2, Dividend;
    Pow2Values();
    var q := Division(0xffff_ffff - crc, MessageBits(msg));
    var answer := Reversed(0xffff_ffff - Crc(crc, msg), 32, 0);
    ReversedBelow(0xffff_ffff - Crc(crc, msg), 32, 0);
    assert IsRemainder(answer, Dividend(0xffff_ffff - crc, MessageBits(msg)), GENERATOR);
    if IsRemainder(r, Dividend(0xffff_ffff - crc, MessageBits(msg)), GENERATOR) {
      OneRemainder(Dividend(0xffff_ffff - crc, MessageBits(msg)), r, answer);
    }
  }

  // ---------------------------------------------------------------- literals

  /* Literals are worked out on bit vectors, whose bits are read off one by one. */

  function Bit(x: bv32, mask: bv32): nat {
    if x & mask == 0 then 0 else 1
  }

  function Octet(x: bv32, mask: bv32): nat {
    Bit(x, mask) + 2 * Bit(x, 2 * mask) + 4 * Bit(x, 4 * mask) + 8 * Bit(x, 8 * mask)
    + 16 * Bit(x, 16 * mask) + 32 * Bit(x, 32 * mask) + 64 * Bit(x, 64 * mask) + 128 * Bit(x, 128 * mask)
  }

  function Number(x: bv32): nat {
    Octet(x, 1) + 0x100 * Octet(x, 0x100) + 0x1_0000 * Octet(x, 0x1_0000) + 0x100_0000 * Octet(x, 0x100_0000)
  }

  lemma BitHalf(x: bv32, mask: bv32)
    requires mask < 0x8000_0000
    ensures Bit(x / 2, mask) == Bit(x, 2 * mask)
  {
  }

  lemma OctetHalf(x: bv32, mask: bv32)
    requires mask == 1 || mask == 0x100 || mask == 0x1_0000
    ensures Octet(x, mask) + 0x100 * Bit(x, 256 * mask) == Bit(x, mask) + 2 * Octet(x / 2, mask)
  {
    hide Bit;
    BitHalf(x, mask);
    BitHalf(x, 2 * mask);
    BitHalf(x, 4 * mask);
    BitHalf(x, 8 * mask);
    BitHalf(x, 16 * mask);
    BitHalf(x, 32 * mask);
    BitHalf(x, 64 * mask);
    BitHalf(x, 128 * mask);
  }

  lemma TopHalf(x: bv32)
    ensures Octet(x, 0x100_0000) == Bit(x, 0x100_0000) + 2 * Octet(x / 2, 0x100_0000)
  {
  }

  lemma NumberHalf(x: bv32)
    ensures Number(x) == Bit(x, 1) + 2 * Number(x / 2)
  {
    hide Bit, Octet;
    OctetHalf(x, 1);
    OctetHalf(x, 0x100);
    OctetHalf(x, 0x1_0000);
    TopHalf(x);
  }

  lemma NumberDigits(x: bv32)
    ensures Number(x) / 2 == Number(x / 2) && Number(x) % 2 == Bit(x, 1) <= 1
  {
    hide Number;
    NumberHalf(x);
  }

  lemma BitsGone(x: bv32)
    requires x != 0
    ensures Bit(x, 1) == 1 || x / 2 != 0
    ensures x / 2 < x
  {
  }

  lemma {:induction false} NumberZero(x: bv32)
    ensures Number(x) == 0 <==> x == 0
    decreases x
  {
    hide Number, Bit;
    if x == 0 {
      ZeroNumber();
    } else {
      NumberHalf(x);
      BitsGone(x);
      NumberZero(x / 2);
    }
  }

  lemma ZeroNumber()
    ensures Number(0) == 0
  {
  }

  lemma {:induction false} NumberXor(x: bv32, y: bv32)
    ensures Number(x ^ y) == Xor(Number(x), Number(y))
    decreases Number(x) + Number(y)
  {
    hide Number, Bit, Xor;
    NumberZero(x);
    NumberZero(y);
    if x == 0 && y == 0 {
      ZeroNumber();
      XorZero(0);
    } else {
      NumberDigits(x);
      NumberDigits(y);
      NumberDigits(x ^ y);
      HalfXor(x, y);
      NumberXor(x / 2, y / 2);
      XorStep(Number(x), Number(y));
    }
  }

  lemma HalfXor(x: bv32, y: bv32)
    ensures (x ^ y) / 2 == (x / 2) ^ (y / 2)
    ensures Bit(x ^ y, 1) == if Bit(x, 1) == Bit(y, 1) then 0 else 1
  {
  }

  // ---------------------------------------------------------------- POLY

  lemma ReversedBit(x: bv32, y: bv32, low: nat, n: nat, acc: nat)
    requires n > 0 && y == x / 2 && low == Bit(x, 1)
    ensures Reversed(Number(x), n, acc) == Reversed(Number(y), n - 1, 2 * acc + low)
  {
    hide Number, Bit, Reversed;
    NumberDigits(x);
    ReversedNext(Number(x), Number(y), low, n, acc);
  }

  lemma PairBits(x: bv32)
    ensures Bit(x / 2, 1) == Bit(x, 2) && x / 2 / 2 == x / 4
  {
  }

  lemma NibbleBits(x: bv32)
    ensures Bit(x / 4, 1) == Bit(x, 4) && Bit(x / 4, 2) == Bit(x, 8) && x / 4 / 4 == x / 16
  {
  }

  function Mirrored(x: bv32): nat {
    8 * Bit(x, 1) + 4 * Bit(x, 2) + 2 * Bit(x, 4) + Bit(x, 8)
  }

  lemma ReversedPair(x: bv32, y: bv32, n: nat, acc: nat)
    requires n >= 2 && y == x / 4
    ensures Reversed(Number(x), n, acc) == Reversed(Number(y), n - 2, 4 * acc + 2 * Bit(x, 1) + Bit(x, 2))
  {
    hide Number, Reversed, Bit;
    PairBits(x);
    ReversedBit(x, x / 2, Bit(x, 1), n, acc);
    ReversedBit(x / 2, y, Bit(x, 2), n - 1, 2 * acc + Bit(x, 1));
  }

  lemma ReversedNibble(x: bv32, y: bv32, n: nat, acc: nat, digit: nat)
    requires n >= 4 && Mirrored(x) == digit && y == x / 16
    ensures Reversed(Number(x), n, acc) == Reversed(Number(y), n - 4, 16 * acc + digit)
  {
    hide Number, Reversed, Bit;
    NibbleBits(x);
    ReversedPair(x, x / 4, n, acc);
    ReversedPair(x / 4, y, n - 2, 4 * acc + 2 * Bit(x, 1) + Bit(x, 2));
  }

  lemma PolyNumber()
    ensures Number(0x82f6_3b78) == POLY
  {
    assert Octet(0x82f6_3b78, 1) == 0x78;
    assert Octet(0x82f6_3b78, 0x100) == 0x3b;
    assert Octet(0x82f6_3b78, 0x1_0000) == 0xf6;
    assert Octet(0x82f6_3b78, 0x100_0000) == 0x82;
  }

  /** POLY is the polynomial of RFC 3720 with its coefficients in reversed order. */
  lemma GeneratorReversed()
    ensures Reversed(POLY, 32, 0) == 0x1edc_6f41
    ensures GENERATOR == Xor(Reversed(POLY, 32, 0), Pow2(32))
  {
    hide Reversed, Number, Xor;
    PolyNumber();
    ReversedNibble(0x82f6_3b78, 0x82f6_3b7, 32, 0, 0x1);
    ReversedNibble(0x82f6_3b7, 0x82f6_3b, 28, 0x1, 0xe);
    ReversedNibble(0x82f6_3b, 0x82f6_3, 24, 0x1e, 0xd);
    ReversedNibble(0x82f6_3, 0x82f6, 20, 0x1ed, 0xc);
    ReversedNibble(0x82f6, 0x82f, 16, 0x1edc, 0x6);
    ReversedNibble(0x82f, 0x82, 12, 0x1edc6, 0xf);
    ReversedNibble(0x82, 0x8, 8, 0x1edc6f, 0x4);
    ReversedNibble(0x8, 0x0, 4, 0x1edc6f4, 0x1);
    ReversedEnds(0x1edc6f41);
    Pow2Values();
    XorDisjoint(1, 0x1edc_6f41, 32);
  }

  lemma ReversedEnds(acc: nat)
    ensures Reversed(Number(0), 0, acc) == acc
  {
  }

  // ---------------------------------------------------------------- the check value

  function StepOf(x: bv32): bv32 {
    if x & 1 == 0 then x / 2 else (x / 2) ^ 0x82f6_3b78
  }

  lemma StepIs(x: bv32)
    ensures Step(Number(x)) == Number(StepOf(x))
  {
    hide Number, Xor;
    NumberDigits(x);
    NumberXor(x / 2, 0x82f6_3b78);
    PolyNumber();
  }

  function FourSteps(x: bv32): bv32 {
    StepOf(StepOf(StepOf(StepOf(x))))
  }

  lemma FourStepsAre(x: bv32)
    ensures Steps(4, Number(x)) == Number(FourSteps(x))
  {
    hide Number, Step, StepOf;
    StepIs(x);
    StepIs(StepOf(x));
    StepIs(StepOf(StepOf(x)));
    StepIs(StepOf(StepOf(StepOf(x))));
    StepsOneByOne(Number(x));
  }

  lemma StepsOneByOne(c: nat)
    ensures Steps(4, c) == Step(Step(Step(Step(c))))
  {
    hide Step;
    assert Steps(4, c) == Steps(2, Step(Step(c)));
  }

  /** "123456789", whose CRC is the customary check value. */
  const CHECK: seq<Byte> := [0x31, 0x32, 0x33, 0x34, 0x35, 0x36, 0x37, 0x38, 0x39]

  lemma DigitNumber(b: bv32, n: nat)
    requires 0x30 <= b < 0x40 && n == 8 * Bit(b, 8) + 4 * Bit(b, 4) + 2 * Bit(b, 2) + Bit(b, 1)
    ensures Number(b) == 0x30 + n
  {
  }

  /** One more byte, which takes the register from c to d. */
  lemma NextByte(c: bv32, d: bv32, b: bv32, k: nat)
    requires k < |CHECK| && 0x30 <= b < 0x40
    requires CHECK[k] == 0x30 + 8 * Bit(b, 8) + 4 * Bit(b, 4) + 2 * Bit(b, 2) + Bit(b, 1)
    requires FourSteps(FourSteps(c ^ b)) == d
    ensures Fold(Number(c), CHECK[k..]) == Fold(Number(d), CHECK[k + 1..])
  {
    hide Number, FourSteps, Xor, Steps, CrcBits, MessageBits, Bit;
    DigitNumber(b, CHECK[k] - 0x30);
    assert CHECK[k..] == [CHECK[k]] + CHECK[k + 1..];
    FoldConcat(Number(c), [CHECK[k]], CHECK[k + 1..]);
    FoldAsSteps(Number(c), [CHECK[k]]);
    LoadOne(CHECK[k]);
    NumberXor(c, b);
    StepsAdd(4, 4, Number(c ^ b));
    FourStepsAre(c ^ b);
    FourStepsAre(FourSteps(c ^ b));
  }

  lemma LoadOne(byte: Byte)
    ensures LoadLE([byte]) == byte
  {
  }

  lemma FoldNothing(c: nat)
    ensures Fold(c, []) == c
  {
  }

  lemma FoldCheck()
    ensures Fold(Number(0xffff_ffff), CHECK) == Number(0x1cf9_6d7c)
  {
    hide Number, Fold;
    FoldNothing(Number(0x1cf9_6d7c));
    assert CHECK[0..] == CHECK && CHECK[9..] == [];
    NextByte(0xffff_ffff, 0x6f0a_661c, 0x31, 0);
    NextByte(0x6f0a_661c, 0x8caa_3b9f, 0x32, 1);
    NextByte(0x8caa_3b9f, 0xef84_d04d, 0x33, 2);
    NextByte(0xef84_d04d, 0x09c5_0b11, 0x34, 3);
    NextByte(0x09c5_0b11, 0xe72e_dcca, 0x35, 4);
    NextByte(0xe72e_dcca, 0xbeca_8e79, 0x36, 5);
    NextByte(0xbeca_8e79, 0xedbd_6815, 0x37, 6);
    NextByte(0xedbd_6815, 0x9f78_7f65, 0x38, 7);
    NextByte(0x9f78_7f65, 0x1cf9_6d7c, 0x39, 8);
  }

  /** The check value of CRC-32C. */
  lemma CheckValue()
    ensures Crc(0, CHECK) == 0xe306_9283
  {
    hide Number, Fold;
    FoldCheck();
    CheckNumbers();
  }

  lemma CheckNumbers()
    ensures Number(0xffff_ffff) == 0xffff_ffff && Number(0x1cf9_6d7c) == 0x1cf9_6d7c
  {
    assert Octet(0x1cf9_6d7c, 1) == 0x7c;
    assert Octet(0x1cf9_6d7c, 0x100) == 0x6d;
    assert Octet(0x1cf9_6d7c, 0x1_0000) == 0xf9;
    assert Octet(0x1cf9_6d7c, 0x100_0000) == 0x1c;
  }
}
