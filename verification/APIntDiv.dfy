/** Binary long division and truncating signed division at any bit width (src/APInt.c). */
module APIntDiv {
  import opened Bits
  import opened Words
  import opened APIntArith

  // ---------------------------------------------------------------- shifting the remainder

  /** t is s shifted left by one bit, the top bit falling off. */
  ghost predicate IsDoubled(s: seq<Word>, t: seq<Word>) {
    && |t| == |s|
    && forall j :: 0 <= j < |s| ==> t[j] == DoubledWord(s, j)
  }

  function DoubledWord(s: seq<Word>, j: nat): Word
    requires j < |s|
  {
    s[j] * 2 % B + if j == 0 then 0 else s[j - 1] / 0x8000_0000_0000_0000
  }

  lemma DoubleDigit(w: Word, c: nat, c': nat, d: nat, p: nat)
    requires c' == w / 0x8000_0000_0000_0000 && d == w * 2 % B + c
    ensures d * p + c' * (B * p) == 2 * (w * p) + c * p
  {
    assert d + c' * B == 2 * w + c;
    assert (d + c' * B) * p == d * p + c' * (B * p);
    assert (2 * w + c) * p == 2 * (w * p) + c * p;
  }

  function TopBit(s: seq<Word>): nat {
    if s == [] then 0 else s[|s| - 1] / 0x8000_0000_0000_0000
  }

  lemma {:induction false} DoubledValue(s: seq<Word>, t: seq<Word>)
    requires IsDoubled(s, t)
    ensures Val(t) + TopBit(s) * BPow(|s|) == 2 * Val(s)
  {
    hide BPow;
    if s != [] {
      var n := |s| - 1;
      var s', t' := s[..n], t[..n];
      assert forall j :: 0 <= j < n ==> DoubledWord(s', j) == DoubledWord(s, j);
      DoubledValue(s', t');
      BPowStep(n);
      DoubleDigit(s[n], TopBit(s'), TopBit(s), t[n], BPow(n));
    }
  }

  /** rem <<= 1, as long as the top bit is clear */
  method ShiftLeftOne(rem: array<Word>)
    requires rem.Length > 0 && 2 * Val(rem[..]) < BPow(rem.Length)
    modifies rem
    ensures Val(rem[..]) == 2 * old(Val(rem[..]))
  {
    hide BPow, Val;
    ghost var s := rem[..];
    var j := rem.Length - 1;
    while j > 0
      invariant 0 <= j < rem.Length
      invariant forall k :: 0 <= k <= j ==> rem[k] == s[k]
      invariant forall k :: j < k < rem.Length ==> rem[k] == DoubledWord(s, k)
    {
      JoinHalves(rem[j], rem[j - 1]);
      rem[j] := Or(rem[j] * 2 % B, rem[j - 1] / 0x8000_0000_0000_0000);
      j := j - 1;
    }
    rem[0] := rem[0] * 2 % B;
    DoubledValue(s, rem[..]);
    NoTopBit(Val(rem[..]), TopBit(s), BPow(rem.Length), Val(s));
  }

  lemma JoinHalves(w: Word, below: Word)
    ensures Or(w * 2 % B, below / 0x8000_0000_0000_0000) == w * 2 % B + below / 0x8000_0000_0000_0000
  {
    OrEven(w * 2 % B, below / 0x8000_0000_0000_0000);
  }

  lemma NoTopBit(v: nat, top: nat, p: nat, x: nat)
    requires v + top * p == 2 * x < p
    ensures v == 2 * x
  {
    if top > 0 { MulMono(1, top, p); }
  }

  /** rem |= bit, the lowest bit being clear */
  method SetLowBit(rem: array<Word>, bit: nat)
    requires rem.Length > 0 && bit <= 1 && Val(rem[..]) % 2 == 0
    modifies rem
    ensures Val(rem[..]) == old(Val(rem[..])) + bit
  {
    ghost var s := rem[..];
    LowBitSet(s, bit);
    rem[0] := Or(rem[0], bit);
    assert rem[..] == s[0 := s[0] + bit];
  }

  lemma LowBitSet(s: seq<Word>, bit: nat)
    requires s != [] && bit <= 1 && Val(s) % 2 == 0
    ensures Or(s[0], bit) == s[0] + bit < B
    ensures Val(s[0 := s[0] + bit]) == Val(s) + bit
  {
    hide Pow2, BPow, Val, Or;
    BitAt(s, 0);
    OnePow2(Val(s), 0);
    OnePow2(s[0], 0);
    OrEven(s[0], bit);
    ValUpdate(s, 0, s[0] + bit);
    BPowStep(0);
  }

  /** q |= 1 << i, the bit being clear */
  method SetBit(q: array<Word>, i: nat)
    requires i / 64 < q.Length && Val(q[..]) / Pow2(i) % 2 == 0
    modifies q
    ensures Val(q[..]) == old(Val(q[..])) + Pow2(i)
  {
    ghost var s := q[..];
    BitWord(s, i);
    q[i / 64] := Or(q[i / 64], Pow2(i % 64));
    assert q[..] == s[i / 64 := s[i / 64] + Pow2(i % 64)];
  }

  lemma BitWord(s: seq<Word>, i: nat)
    requires i / 64 < |s| && Val(s) / Pow2(i) % 2 == 0
    ensures Or(s[i / 64], Pow2(i % 64)) == s[i / 64] + Pow2(i % 64) < B
    ensures Val(s[i / 64 := s[i / 64] + Pow2(i % 64)]) == Val(s) + Pow2(i)
  {
    hide Pow2, BPow, Val, Or;
    var w, j := i / 64, i % 64;
    BitAt(s, i);
    OrBit(s[w], j);
    Pow2Values();
    SmallPow2(j);
    OrBound(s[w], Pow2(j), 64);
    ValUpdate(s, w, s[w] + Pow2(j));
    SplitPow2(i, w, j);
    AddDigit(s[w], Pow2(j), BPow(w));
  }

  lemma SmallPow2(j: nat)
    requires j < 64
    ensures Pow2(j) < Pow2(64)
  {
    Pow2Mono(j, 63);
  }

  lemma AddDigit(x: nat, y: nat, p: nat)
    ensures (x + y) * p == x * p + y * p
  {
  }

  // ---------------------------------------------------------------- unsigned division

  /** One round of long division; q and r are the quotient and remainder of the bits above bit i. */
  lemma DivisionRound(a: nat, d: nat, i: nat, q: nat, r: nat)
    requires r < d && a / Pow2(i + 1) == q * d + r
    ensures var r2 := 2 * r + a / Pow2(i) % 2;
      && a / Pow2(i) == 2 * q * d + r2 == (2 * q + 1) * d + (r2 - d)
      && r2 <= a && r2 < 2 * d
  {
    hide Pow2;
    DivDiv(a, Pow2(i), 2);
    NextPower(i + 1);
    var high := a / Pow2(i);
    assert high / 2 == q * d + r;
    assert 2 * (q * d) == 2 * q * d && (2 * q + 1) * d == 2 * q * d + d;
    NonNegative(q, d);
    Shrinks(a, Pow2(i));
  }

  lemma Shrinks(a: nat, p: nat)
    requires p > 0
    ensures a / p <= a
  {
    if a / p > a {
      MulMono(a + 1, a / p, p);
      MulMono(1, p, a + 1);
    }
  }

  lemma NothingAbove(a: nat, p: nat)
    requires a < p
    ensures a / p == 0
  {
  }

  /** A quotient with nothing below bit i + 1, seen at bit i. */
  lemma QuotientAt(v: nat, q: nat, i: nat)
    requires v == q * Pow2(i + 1)
    ensures v == 2 * q * Pow2(i) && v / Pow2(i) % 2 == 0
    ensures v + Pow2(i) == (2 * q + 1) * Pow2(i)
  {
    hide Pow2;
    NextPower(i + 1);
    var p := Pow2(i);
    assert q * (p * 2) == 2 * q * p;
    DivModUnique(v, p, 2 * q, 0);
    assert (2 * q + 1) * p == 2 * q * p + p;
  }

  /** udivrem: `q` and `rem` are new arrays of the length of `a` and `b`. */
  method UDivRem(a: array<Word>, b: array<Word>, numbits: nat) returns (q: array<Word>, rem: array<Word>)
    requires Holds(a[..], numbits) && Holds(b[..], numbits) && Val(b[..]) > 0
    ensures fresh(q) && fresh(rem) && q != rem && q.Length == rem.Length == a.Length
    ensures Val(a[..]) == Val(q[..]) * Val(b[..]) + Val(rem[..])
    ensures Val(rem[..]) < Val(b[..])
  {
    hide BPow, Val, Pow2;
    var nw := a.Length;
    q := new Word[nw](_ => 0);
    rem := new Word[nw](_ => 0);
    ValZeros(q[..]);
    ValZeros(rem[..]);
    ghost var x, d := Val(a[..]), Val(b[..]);
    ghost var quotient: nat := 0;
    NothingAbove(x, Pow2(numbits));
    ValBound(a[..]);
    var i: int := numbits - 1;
    while i >= 0
      invariant -1 <= i < numbits
      invariant a[..] == old(a[..]) && b[..] == old(b[..])
      invariant Val(rem[..]) < d
      invariant x / Pow2(i + 1) == quotient * d + Val(rem[..])
      invariant Val(q[..]) == quotient * Pow2(i + 1)
    {
      DivisionRound(x, d, i, quotient, Val(rem[..]));
      QuotientAt(Val(q[..]), quotient, i);
      ghost var r := Val(rem[..]);
      ShiftLeftOne(rem); // never loses a bit: 2 * r <= x
      BitAt(a[..], i);
      var bit := a[i / 64] / Pow2(i % 64) % 2;
      SetLowBit(rem, bit);
      quotient := 2 * quotient;
      var c := CompareWords(rem, b);
      if c >= 0 {
        ghost var r2 := Val(rem[..]);
        var carry := AddSubWords(rem, rem, b, true);
        ValBound(rem[..]);
        Borrow(Val(rem[..]), carry, BPow(nw), r2 - d);
        SetBit(q, i);
        quotient := quotient + 1;
      }
      i := i - 1;
    }
    OnePow2(x, quotient);
  }

  lemma OnePow2(x: nat, q: nat)
    ensures x / Pow2(0) == x && q * Pow2(0) == q
  {
  }

  /** A subtraction that does not go below zero ends with the carry set. */
  lemma Borrow(v: nat, carry: nat, p: nat, diff: int)
    requires carry <= 1 && v < p && diff >= 0 && v + carry * p == diff + p
    ensures v == diff
  {
  }

  // ---------------------------------------------------------------- truncating signed division

  function Abs(x: int): nat {
    if x < 0 then -x else x
  }

  /** Division that rounds towards zero, as in C. */
  function TDiv(x: int, y: int): int
    requires y != 0
  {
    if (x < 0) == (y < 0) then Abs(x) / Abs(y) else -(Abs(x) / Abs(y) as int)
  }

  function TRem(x: int, y: int): int
    requires y != 0
  {
    if x < 0 then -(Abs(x) % Abs(y) as int) else Abs(x) % Abs(y)
  }

  /** What truncating division means: the remainder is smaller than the divisor and has the
  sign of the dividend, and nothing else does. */
  lemma TruncatingDivision(x: int, y: int, q: int, r: int)
    requires y != 0
    ensures q == TDiv(x, y) && r == TRem(x, y)
      <==> x == q * y + r && Abs(r) < Abs(y) && (r == 0 || (r < 0 <==> x < 0))
  {
    TruncatedParts(x, y);
    if x == q * y + r && Abs(r) < Abs(y) && (r == 0 || (r < 0 <==> x < 0)) {
      TruncatedUnique(x, y, q, r);
    }
  }

  lemma TruncatedParts(x: int, y: int)
    requires y != 0
    ensures x == TDiv(x, y) * y + TRem(x, y) && Abs(TRem(x, y)) < Abs(y) && (TRem(x, y) == 0 || (TRem(x, y) < 0 <==> x < 0))
  {
    var a, d := Abs(x), Abs(y);
    Euclid(a, d);
    Signs(a / d, d, a % d, x, y);
  }

  lemma TruncatedUnique(x: int, y: int, q: int, r: int)
    requires y != 0 && x == q * y + r && Abs(r) < Abs(y) && (r == 0 || (r < 0 <==> x < 0))
    ensures q == TDiv(x, y) && r == TRem(x, y)
  {
    var a, d := Abs(x), Abs(y);
    var q1 := if (x < 0) == (y < 0) then q else -q;
    Signs(q1, d, Abs(r), x, y);
    assert a == q1 * d + Abs(r);
    DivModUnique(a, d, q1, Abs(r));
  }

  /** Moving the signs of x and y in and out of x == q * y + r. */
  lemma Signs(q: int, d: nat, r: nat, x: int, y: int)
    requires d == Abs(y)
    ensures var q' := if (x < 0) == (y < 0) then q else -q;
      var r' := if x < 0 then -(r as int) else r;
      q' * y + r' == if x < 0 then -(q * d + r) else q * d + r
  {
    if y < 0 {
      assert q * d == -(q * y) && (-q) * y == -(q * y);
    } else {
      assert (-q) * y == -(q * y);
    }
  }

  /** negate_words and mask_top together; `r` may be `a`. */
  method NegateMasked(r: array<Word>, a: array<Word>, numbits: nat)
    requires r.Length == a.Length && Holds(a[..], numbits)
    modifies r
    ensures Holds(r[..], numbits)
    ensures Val(r[..]) == Wrap(0 - old(Val(a[..])), numbits)
  {
    hide BPow, Val, Pow2;
    ghost var x: int := Val(a[..]);
    NegateWords(r, a);
    WordsVanish(-x, if x == 0 then 0 else 1, numbits, r.Length);
    MaskTop(r, numbits);
  }

  lemma WrapNegation(x: nat, numbits: nat)
    requires 0 < x < Pow2(numbits)
    ensures Wrap(0 - x, numbits) == Pow2(numbits) - x
  {
    WrapIs(0 - x, numbits, 1);
  }

  lemma WrapSmall(x: nat, numbits: nat)
    requires x < Pow2(numbits)
    ensures Wrap(x, numbits) == x
  {
    WrapIs(x, numbits, 0);
  }

  /** The magnitude of a signed number. */
  method Magnitude(a: array<Word>, numbits: nat) returns (r: array<Word>, neg: bool)
    requires Holds(a[..], numbits)
    ensures fresh(r) && Holds(r[..], numbits)
    ensures neg <==> Signed(Val(a[..]), numbits) < 0
    ensures Val(r[..]) == Abs(Signed(Val(a[..]), numbits))
  {
    ghost var x := Val(a[..]);
    neg := IsNegative(a, numbits);
    SignBit(x, numbits);
    r := new Word[a.Length](i requires 0 <= i < a.Length reads a => a[i]);
    assert r[..] == a[..];
    if neg {
      WrapNegation(x, numbits);
      NegateMasked(r, a, numbits);
    }
  }

  /** sdivrem */
  method SDivRem(a: array<Word>, b: array<Word>, numbits: nat) returns (q: array<Word>, rem: array<Word>)
    requires Holds(a[..], numbits) && Holds(b[..], numbits) && Val(b[..]) > 0
    ensures fresh(q) && fresh(rem) && Holds(q[..], numbits) && Holds(rem[..], numbits)
    ensures var x, y := Signed(Val(a[..]), numbits), Signed(Val(b[..]), numbits);
      y != 0 && Val(q[..]) == Wrap(TDiv(x, y), numbits) && Val(rem[..]) == Wrap(TRem(x, y), numbits)
  {
    hide Val, Wrap, Pow2, TDiv, TRem;
    ghost var x, y := Signed(Val(a[..]), numbits), Signed(Val(b[..]), numbits);
    SignedNonZero(Val(b[..]), numbits);
    var absA, negA := Magnitude(a, numbits);
    var absB, negB := Magnitude(b, numbits);
    q, rem := UDivRem(absA, absB, numbits);
    QuotientFits(Abs(x), Abs(y), Val(q[..]), Val(rem[..]), numbits);
    ByMagnitude(x, y, numbits);
    if negA != negB {
      NegateMasked(q, q, numbits);
    }
    if negA {
      NegateMasked(rem, rem, numbits);
    }
  }

  lemma SignedNonZero(v: nat, numbits: nat)
    requires numbits > 0 && 0 < v < Pow2(numbits)
    ensures Signed(v, numbits) != 0
  {
  }

  lemma QuotientFits(a: nat, d: nat, q: nat, r: nat, numbits: nat)
    requires a == q * d + r && r < d && a < Pow2(numbits)
    ensures q == a / d && r == a % d && q < Pow2(numbits) && r < Pow2(numbits)
  {
    DivModUnique(a, d, q, r);
    MulMono(1, d, q);
  }

  /** Truncating division from the magnitudes. */
  lemma ByMagnitude(x: int, y: int, numbits: nat)
    requires y != 0 && Abs(x) < Pow2(numbits)
    ensures var q, r := Abs(x) / Abs(y), Abs(x) % Abs(y);
      && Wrap(TDiv(x, y), numbits) == (if (x < 0) != (y < 0) then Wrap(0 - q, numbits) else q)
      && Wrap(TRem(x, y), numbits) == (if x < 0 then Wrap(0 - r, numbits) else r)
  {
    hide Wrap, Pow2;
    var q, r := Abs(x) / Abs(y), Abs(x) % Abs(y);
    Euclid(Abs(x), Abs(y));
    QuotientFits(Abs(x), Abs(y), q, r, numbits);
    WrapSmall(q, numbits);
    WrapSmall(r, numbits);
  }

  // ---------------------------------------------------------------- the checked interface

  /** The number of zero bits below the lowest set bit, as __builtin_ctzll counts them. */
  function TrailingZeros(w: nat): nat
    requires w > 0
  {
    if w % 2 == 1 then 0 else 1 + TrailingZeros(w / 2)
  }

  /** w is an odd multiple of 2^TrailingZeros(w). */
  lemma {:induction false} TrailingZerosIs(w: nat) returns (odd: nat)
    requires w > 0
    ensures odd % 2 == 1 && w == odd * Pow2(TrailingZeros(w))
  {
    hide Pow2;
    if w % 2 == 1 {
      odd := w;
      OnePow2(odd, odd);
    } else {
      odd := TrailingZerosIs(w / 2);
      NextPower(TrailingZeros(w / 2) + 1);
      Twice(odd, Pow2(TrailingZeros(w / 2)));
    }
  }

  lemma Twice(x: nat, p: nat)
    ensures x * (p * 2) == 2 * (x * p)
  {
  }

  /** countr for zeros: the trailing zeros of the whole number, or `numbits` if it is zero. */
  method CountTrailingZeros(a: array<Word>, numbits: nat) returns (count: nat)
    ensures count == if Val(a[..]) == 0 then numbits else TrailingZeros(Val(a[..]))
  {
    hide Val, TrailingZeros;
    for i := 0 to a.Length
      invariant forall j :: 0 <= j < i ==> a[j] == 0
    {
      if a[i] != 0 {
        LowestWord(a[..], i);
        return 64 * i + TrailingZeros(a[i]);
      }
    }
    ValZeros(a[..]);
    return numbits;
  }

  lemma LowestWord(s: seq<Word>, i: nat)
    requires i < |s| && s[i] != 0
    requires forall j :: 0 <= j < i ==> s[j] == 0
    ensures Val(s) > 0 && TrailingZeros(Val(s)) == 64 * i + TrailingZeros(s[i])
  {
    hide BPow, Val, TrailingZeros, Pow2;
    WordAt(s, i);
    ValZeros(s[..i]);
    BPowStep(i);
    var high := Val(s[i + 1..]);
    BPowIs(i);
    WordAndAbove(s[i], high, BPow(i), Val(s));
    TrailingZerosScaled(s[i] + high * B, 64 * i);
    var k := TrailingZeros(s[i]);
    var odd := TrailingZerosIs(s[i]);
    TrailingZerosBelow(s[i], high);
  }

  lemma WordAndAbove(w: nat, high: nat, p: nat, v: nat)
    requires p > 0 && w > 0 && v == w * p + high * (B * p)
    ensures v == (w + high * B) * p && w + high * B > 0
  {
  }

  lemma {:induction false} TrailingZerosScaled(x: nat, k: nat)
    requires x > 0
    ensures x * Pow2(k) > 0 && TrailingZeros(x * Pow2(k)) == k + TrailingZeros(x)
  {
    MulMono(1, x, Pow2(k));
    if k > 0 {
      TrailingZerosScaled(x, k - 1);
      Shifted(x, k);
    }
  }

  /** Adding a multiple of 2^64 above a non-zero word leaves its lowest set bit alone. */
  lemma TrailingZerosBelow(w: Word, high: nat)
    requires w > 0
    ensures TrailingZeros(w + high * B) == TrailingZeros(w)
  {
    Pow2Values();
    TrailingZerosLow(w, high, 64);
  }

  lemma {:induction false} TrailingZerosLow(w: nat, high: nat, m: nat)
    requires 0 < w < Pow2(m)
    ensures TrailingZeros(w + high * Pow2(m)) == TrailingZeros(w)
    decreases m
  {
    if m > 0 {
      Shifted(high, m);
      var h, h' := high * Pow2(m), high * Pow2(m - 1);
      if w % 2 == 0 {
        HalfBelow(w, m);
        TrailingZerosLow(w / 2, high, m - 1);
        hide Pow2;
        HalveSum(w, h);
      } else {
        hide Pow2;
        OddSum(w, h);
      }
    }
  }

  lemma OddSum(a: nat, b: nat)
    requires a % 2 == 1 && b % 2 == 0
    ensures (a + b) % 2 == 1
  {
  }

  lemma HalveSum(a: nat, b: nat)
    requires a % 2 == 0 && b % 2 == 0
    ensures (a + b) / 2 == a / 2 + b / 2 && (a + b) % 2 == 0
  {
  }

  /** is_min_int */
  method IsMinInt(a: array<Word>, numbits: nat) returns (yes: bool)
    requires Holds(a[..], numbits)
    ensures yes <==> Val(a[..]) == Pow2(numbits - 1)
  {
    hide Val, Pow2, TrailingZeros;
    SignBit(Val(a[..]), numbits);
    MinIntZeros(Val(a[..]), numbits);
    var neg := IsNegative(a, numbits);
    if !neg { return false; }
    var zeros := CountTrailingZeros(a, numbits);
    return zeros == numbits - 1;
  }

  lemma MinIntZeros(v: nat, numbits: nat)
    requires numbits > 0 && v < Pow2(numbits)
    ensures v >= Pow2(numbits - 1) && TrailingZeros(v) == numbits - 1 ==> v == Pow2(numbits - 1)
    ensures Pow2(numbits - 1) > 0 && TrailingZeros(Pow2(numbits - 1)) == numbits - 1
  {
    if v >= Pow2(numbits - 1) && TrailingZeros(v) == numbits - 1 {
      var odd := TrailingZerosIs(v);
      if odd >= 2 { MulMono(2, odd, Pow2(numbits - 1)); }
    }
    TrailingZerosScaled(1, numbits - 1);
  }

  /** is_neg_one */
  method IsNegOne(a: array<Word>, numbits: nat) returns (yes: bool)
    requires Holds(a[..], numbits)
    ensures yes <==> Val(a[..]) == Pow2(numbits) - 1
  {
    hide Val, Pow2, TopWordMask;
    for i := 0 to a.Length - 1
      invariant forall j :: 0 <= j < i ==> a[j] == B - 1
    {
      if a[i] != B - 1 {
        AllOnes(a[..], numbits);
        return false;
      }
    }
    AllOnes(a[..], numbits);
    return a[a.Length - 1] == TopWordMask(numbits);
  }

  /** -1 is the number whose words are all ones, up to the top mask. */
  lemma AllOnes(s: seq<Word>, numbits: nat)
    requires Holds(s, numbits)
    ensures Val(s) == Pow2(numbits) - 1
      <==> s[|s| - 1] == TopWordMask(numbits) && forall j :: 0 <= j < |s| - 1 ==> s[j] == B - 1
  {
    hide Val, BPow, Pow2, TopWordMask;
    var n := |s| - 1;
    ValNext(s, n);
    ValWhole(s);
    ValBound(s[..n]);
    TopMaskIs(numbits);
    OnesExactly(s[..n]);
    TopOnes(Val(s[..n]), s[n], TopWordMask(numbits), BPow(n));
    assert forall j :: 0 <= j < n ==> s[..n][j] == s[j];
  }

  lemma TopOnes(low: nat, w: nat, mask: nat, p: nat)
    requires low < p
    ensures low + w * p == mask * p + p - 1 <==> low == p - 1 && w == mask
  {
    if w < mask {
      MulMono(w + 1, mask, p);
      assert (w + 1) * p == w * p + p;
    } else if w > mask {
      MulMono(mask + 1, w, p);
      assert (mask + 1) * p == mask * p + p;
    }
  }

  lemma TopMaskIs(numbits: nat)
    requires numbits > 0
    ensures Pow2(numbits) == TopWordMask(numbits) * BPow(NWords(numbits) - 1) + BPow(NWords(numbits) - 1)
  {
    hide Pow2;
    var n := NWords(numbits) - 1;
    var k := if numbits % 64 == 0 then 64 else numbits % 64;
    assert numbits == 64 * n + k;
    Pow2Values();
    SplitPow2(numbits, n, k);
    MaskPlusOne(TopWordMask(numbits), BPow(n));
  }

  lemma MaskPlusOne(mask: nat, p: nat)
    ensures p * (mask + 1) == mask * p + p
  {
  }

  /** is_zero */
  method IsZero(a: array<Word>) returns (yes: bool)
    ensures yes <==> Val(a[..]) == 0
  {
    hide Val;
    for i := 0 to a.Length
      invariant forall j :: 0 <= j < i ==> a[j] == 0
    {
      if a[i] != 0 {
        LowestWord(a[..], i);
        return false;
      }
    }
    ValZeros(a[..]);
    return true;
  }

  /** The only quotient that does not fit is SMIN / -1. */
  lemma OnlyOverflow(x: int, y: int, numbits: nat)
    requires numbits > 0 && Fits(x, numbits, true) && Fits(y, numbits, true) && y != 0
    ensures Fits(TDiv(x, y), numbits, true) <==> !(x == -(Pow2(numbits - 1) as int) && y == -1)
    ensures Fits(TRem(x, y), numbits, true)
  {
    hide Pow2, TDiv, TRem;
    var q, r := SignedParts(x, y);
    WhatFits(x, y, q, r, Pow2(numbits - 1));
  }

  /** The quotient of the magnitudes, and their remainder. */
  lemma SignedParts(x: int, y: int) returns (q: nat, r: nat)
    requires y != 0
    ensures TDiv(x, y) == (if (x < 0) == (y < 0) then q else 0 - q) && TRem(x, y) == if x < 0 then 0 - r else r
    ensures q <= Abs(x) && r < Abs(y)
    ensures Abs(y) == 1 ==> q == Abs(x) && r == 0
    ensures Abs(y) >= 2 && x != 0 ==> q < Abs(x)
  {
    QuotientIsNat(Abs(x), Abs(y));
    QuotientShrinks(Abs(x), Abs(y));
    q, r := Abs(x) / Abs(y), Abs(x) % Abs(y);
  }

  /** The case analysis, with quotient and remainder named. */
  lemma WhatFits(x: int, y: int, q: nat, r: nat, h: nat)
    requires 0 <= x + h < 2 * h && 0 <= y + h < 2 * h && y != 0
    requires q <= Abs(x) && r < Abs(y)
    requires Abs(y) == 1 ==> q == Abs(x) && r == 0
    requires Abs(y) >= 2 && x != 0 ==> q < Abs(x)
    ensures 0 <= (if (x < 0) == (y < 0) then q else 0 - q) + h < 2 * h <==> !(x == 0 - h && y == -1)
    ensures 0 <= (if x < 0 then 0 - r else r) + h < 2 * h
  {
  }

  lemma QuotientShrinks(a: nat, d: nat)
    requires d > 0
    ensures a / d <= a && a % d < d
    ensures d == 1 ==> a / d == a && a % d == 0
    ensures d >= 2 && a > 0 ==> a / d < a
  {
    Euclid(a, d);
    var q := a / d;
    MulMono(1, d, q);
    if d >= 2 { MulMono(2, d, q); }
  }

  lemma SignedFits(v: nat, numbits: nat)
    requires numbits > 0 && v < Pow2(numbits)
    ensures Fits(Signed(v, numbits), numbits, true)
    ensures v == Pow2(numbits - 1) <==> Signed(v, numbits) == -(Pow2(numbits - 1) as int)
    ensures v == Pow2(numbits) - 1 <==> Signed(v, numbits) == -1
    ensures Signed(v, numbits) == 0 <==> v == 0
  {
  }

  /** Unsigned quotients always fit; they are truncating quotients of non-negative numbers. */
  lemma UnsignedDivision(a: nat, d: nat, q: nat, r: nat, numbits: nat)
    requires numbits > 0 && a == q * d + r && r < d && a < Pow2(numbits)
    ensures q == Wrap(TDiv(a, d), numbits) && r == Wrap(TRem(a, d), numbits)
    ensures Fits(TDiv(a, d), numbits, false)
    ensures q < Pow2(numbits) && r < Pow2(numbits)
  {
    QuotientFits(a, d, q, r, numbits);
    WrapSmall(q, numbits);
    WrapSmall(r, numbits);
  }

  /** APInt_divrem.  Division by zero stores nothing; otherwise the requested results are
  stored, and overflow is flagged exactly when a requested quotient does not fit. */
  method DivRem(numbits: nat, pa: seq<Word>, pb: seq<Word>, wantQ: bool, wantR: bool, isSigned: bool)
    returns (flag: bool, q: array?<Word>, rem: array?<Word>)
    requires numbits > 0 && |pa| == |pb| == NWords(numbits)
    ensures var x := Reading(Wrap(Val(pa), numbits), numbits, isSigned);
      var y := Reading(Wrap(Val(pb), numbits), numbits, isSigned);
      if y == 0 then
        flag && q == null && rem == null
      else
        && (flag <==> wantQ && !Fits(TDiv(x, y), numbits, isSigned))
        && (if wantQ then q != null && Holds(q[..], numbits) && Val(q[..]) == Wrap(TDiv(x, y), numbits) else q == null)
        && (if wantR then rem != null && Holds(rem[..], numbits) && Val(rem[..]) == Wrap(TRem(x, y), numbits) else rem == null)
  {
    hide Val, Pow2, Signed, Fits, TDiv, TRem;
    q, rem := null, null;
    var a := Load(pa, numbits);
    var b := Load(pb, numbits);
    ghost var x, y := Val(a[..]), Val(b[..]);
    SignedFits(x, numbits);
    SignedFits(y, numbits);
    var zero := IsZero(b);
    if zero {
      return true, null, null;
    }
    flag := false;
    var q0, r0;
    if isSigned {
      if wantQ {
        var minInt := IsMinInt(a, numbits);
        var negOne := IsNegOne(b, numbits);
        flag := minInt && negOne;
      }
      q0, r0 := SDivRem(a, b, numbits);
      OnlyOverflow(Signed(x, numbits), Signed(y, numbits), numbits);
    } else {
      q0, r0 := UDivRem(a, b, numbits);
      UnsignedDivision(x, y, Val(q0[..]), Val(r0[..]), numbits);
    }
    WrapSmall(Val(q0[..]), numbits);
    WrapSmall(Val(r0[..]), numbits);
    MaskTop(q0, numbits);
    MaskTop(r0, numbits);
    if wantQ { q := q0; }
    if wantR { rem := r0; }
  }
}
