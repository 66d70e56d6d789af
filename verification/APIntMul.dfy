/** Multi-word multiplication through the portable limb product, and the exact overflow test
(src/APInt.c). */
module APIntMul {
  import opened Bits
  import opened Words
  import opened APIntArith

  const H: nat := 0x1_0000_0000

  // ---------------------------------------------------------------- limbs

  /** The four half-word products of mul64, put together.  All intermediate sums are taken
  modulo 2^64 as in the source, and the last one is shown not to overflow. */
  lemma HalvesMultiply(a0: nat, a1: nat, b0: nat, b1: nat, p00: nat, p01: nat, p10: nat, p11: nat)
    requires a0 < H && a1 < H && b0 < H && b1 < H
    requires p00 == a0 * b0 && p01 == a0 * b1 && p10 == a1 * b0 && p11 == a1 * b1
    ensures p00 < B && p01 < B && p10 < B && p11 < B
    ensures var mid := (p01 + p10) % B;
      var midCarry := if mid < p01 then 1 else 0;
      var lo := (p00 + mid * H % B) % B;
      var loCarry := if lo < p00 then 1 else 0;
      var hi := p11 + mid / H + midCarry * H + loCarry;
      hi < B && lo + hi * B == (a0 + a1 * H) * (b0 + b1 * H)
  {
    HalfProduct(a0, b0);
    HalfProduct(a0, b1);
    HalfProduct(a1, b0);
    HalfProduct(a1, b1);
    Expand(a0, a1, b0, b1);
    Assemble(p00, p01, p10, p11);
  }

  lemma HalfProduct(x: nat, y: nat)
    requires x < H && y < H
    ensures x * y <= (H - 1) * (H - 1)
  {
    MulMono(x, H - 1, y);
    MulMono(y, H - 1, H - 1);
  }

  lemma Expand(a0: nat, a1: nat, b0: nat, b1: nat)
    ensures (a0 + a1 * H) * (b0 + b1 * H) == a0 * b0 + (a0 * b1 + a1 * b0) * H + a1 * b1 * B
  {
    var x := a0 + a1 * H;
    assert x * (b0 + b1 * H) == x * b0 + x * b1 * H;
    assert x * b0 == a0 * b0 + a1 * b0 * H;
    assert x * b1 == a0 * b1 + a1 * b1 * H;
  }

  lemma Assemble(p00: nat, p01: nat, p10: nat, p11: nat)
    requires p00 <= (H - 1) * (H - 1) && p01 <= (H - 1) * (H - 1) && p10 <= (H - 1) * (H - 1) && p11 <= (H - 1) * (H - 1)
    ensures var mid := (p01 + p10) % B;
      var midCarry := if mid < p01 then 1 else 0;
      var lo := (p00 + mid * H % B) % B;
      var loCarry := if lo < p00 then 1 else 0;
      var hi := p11 + mid / H + midCarry * H + loCarry;
      hi < B && lo + hi * B == p00 + (p01 + p10) * H + p11 * B
  {
    CarryOut(p01, p10);
    var mid := (p01 + p10) % B;
    Halves(mid);
    CarryOut(p00, mid % H * H);
  }

  /** What is left of a word shifted up by half a word. */
  lemma Halves(mid: Word)
    ensures mid == mid % H + mid / H * H && mid % H * H < B && mid / H < H
    ensures mid * H % B == mid % H * H
  {
    DivModUnique(mid * H, B, mid / H, mid % H * H);
  }

  /** mul64, the branch without 128-bit integers */
  method Mul64(a: Word, b: Word) returns (lo: Word, hi: Word)
    ensures lo + hi * B == a * b
  {
    var a0, a1 := a % H, a / H;
    var b0, b1 := b % H, b / H;
    HalvesMultiply(a0, a1, b0, b1, a0 * b0, a0 * b1, a1 * b0, a1 * b1);
    var p00: Word, p01: Word, p10: Word, p11: Word := a0 * b0, a0 * b1, a1 * b0, a1 * b1;
    var mid: Word := (p01 + p10) % B;
    var midCarry := if mid < p01 then 1 else 0;
    var loResult: Word := (p00 + mid * H % B) % B;
    var loCarry := if loResult < p00 then 1 else 0;
    lo := loResult;
    hi := p11 + mid / H + midCarry * H + loCarry;
  }

  /** mac_limb: the carry never overflows. */
  method MacLimb(rword: Word, carry: Word, a: Word, b: Word) returns (rword': Word, carry': Word)
    ensures rword' + carry' * B == a * b + rword + carry
  {
    var plo, phi := Mul64(a, b);
    var s1: Word := (plo + rword) % B;
    var c1 := if s1 < plo then 1 else 0;
    var s2: Word := (s1 + carry) % B;
    var c2 := if s2 < s1 then 1 else 0;
    MacFits(a, b, rword, carry);
    MacStep(a * b, plo, phi, rword, carry);
    rword' := s2;
    carry' := phi + c1 + c2;
  }

  lemma CarryOut(x: Word, y: Word)
    ensures var s := (x + y) % B;
      x + y == s + (if s < x then B else 0)
  {
  }

  lemma MacStep(ab: nat, plo: Word, phi: Word, r: Word, c: Word)
    requires plo + phi * B == ab && ab + r + c < B * B
    ensures var s1 := (plo + r) % B;
      var c1 := if s1 < plo then 1 else 0;
      var s2 := (s1 + c) % B;
      var c2 := if s2 < s1 then 1 else 0;
      phi + c1 + c2 < B && s2 + (phi + c1 + c2) * B == ab + r + c
  {
    CarryOut(plo, r);
    CarryOut((plo + r) % B, c);
  }

  lemma MacFits(a: Word, b: Word, r: Word, c: Word)
    ensures a * b + r + c < B * B
  {
    MulMono(a, B - 1, b);
    MulMono(b, B - 1, B - 1);
  }

  // ---------------------------------------------------------------- rows

  lemma RowDigit(x: nat, c: nat, w: nat, d: nat, old_: nat, c': nat, p: nat)
    requires x + c' * B == w * d + old_ + c
    ensures x * p + c' * (B * p) == w * (d * p) + old_ * p + c * p
  {
    assert (x + c' * B) * p == x * p + c' * (B * p);
    assert (w * d + old_ + c) * p == w * d * p + old_ * p + c * p;
    assert w * d * p == w * (d * p);
  }

  /** One more limb of a row: word j of b goes to word i + j of r. */
  lemma RowNext(low: seq<Word>, digit: Word, r0: seq<Word>, w: Word, b: seq<Word>, i: nat, j: nat, carry: nat, carry': nat)
    requires i + j < |r0| && j < |b| && |low| == i + j
    requires digit + carry' * B == w * b[j] + r0[i + j] + carry
    requires Val(low) + carry * BPow(i + j) == Val(r0[..i + j]) + w * (BPow(i) * Val(b[..j]))
    ensures Val(low + [digit]) + carry' * BPow(i + j + 1)
         == Val(r0[..i + j + 1]) + w * (BPow(i) * Val(b[..j + 1]))
  {
    hide BPow, Val;
    var p := BPow(i + j);
    ValPush(low, digit);
    ValNext(r0, i + j);
    ValNext(b, j);
    BPowStep(i + j);
    BPowAdd(i, j);
    RowDigit(digit, carry, w, b[j], r0[i + j], carry', p);
    RowScale(BPow(i), Val(b[..j]), b[j], BPow(j), w);
    RowSum(Val(low), digit * p, carry * p, carry' * (B * p), Val(r0[..i + j]), r0[i + j] * p,
           w * (BPow(i) * Val(b[..j])), w * (b[j] * p));
  }

  /** The sum of a row and one more of its digits, with every product named. */
  lemma RowSum(low: nat, digit: nat, carry: nat, carry': nat, r: nat, old_: nat, row: nat, product: nat)
    requires low + carry == r + row && digit + carry' == product + old_ + carry
    ensures low + digit + carry' == r + old_ + (row + product)
  {
  }

  lemma RowScale(p: nat, v: nat, d: nat, q: nat, w: nat)
    ensures w * (p * (v + d * q)) == w * (p * v) + w * (d * (p * q))
  {
    assert p * (v + d * q) == p * v + p * (d * q);
    assert p * (d * q) == d * (p * q);
    assert w * (p * v + d * (p * q)) == w * (p * v) + w * (d * (p * q));
  }

  /** The inner loop of mul_words: r += w * b * 2^(64 i), cut to the words of r. */
  method AddRow(r: array<Word>, i: nat, w: Word, b: array<Word>) returns (ghost k: nat)
    requires r.Length == b.Length && i <= r.Length && r != b
    modifies r
    ensures Val(r[..]) + k * BPow(r.Length) == old(Val(r[..])) + w * (BPow(i) * Val(b[..]))
  {
    hide BPow, Val;
    ghost var r0, b0 := r[..], b[..];
    var nw := r.Length;
    var carry: Word := 0;
    RowStart(r0, b0, w, i);
    assert r[..i] == r0[..i];
    for j := 0 to nw - i
      invariant b[..] == b0
      invariant forall k :: i + j <= k < nw ==> r[k] == r0[k]
      invariant Val(r[..i + j]) + carry * BPow(i + j) == Val(r0[..i + j]) + w * (BPow(i) * Val(b0[..j]))
    {
      var x, c := MacLimb(r[i + j], carry, w, b[j]);
      ghost var low := r[..i + j];
      RowNext(low, x, r0, w, b0, i, j, carry, c);
      r[i + j] := x;
      carry := c;
      assert r[..i + j + 1] == low + [x];
    }
    assert r[..nw] == r[..] && r0[..nw] == r0;
    k := carry + w * Val(b0[nw - i..]);
    RowEnd(b0, nw - i, i, w, carry);
  }

  lemma RowStart(r0: seq<Word>, b: seq<Word>, w: Word, i: nat)
    requires i <= |r0|
    ensures Val(r0[..i]) + 0 * BPow(i) == Val(r0[..i]) + w * (BPow(i) * Val(b[..0]))
  {
  }

  /** The limbs that fall off the top only contribute multiples of the modulus. */
  lemma RowEnd(b: seq<Word>, m: nat, i: nat, w: nat, carry: nat)
    requires m + i == |b|
    ensures (carry + w * Val(b[m..])) * BPow(|b|) + w * (BPow(i) * Val(b[..m]))
         == carry * BPow(|b|) + w * (BPow(i) * Val(b))
  {
    hide BPow, Val;
    ValSplit(b, m);
    BPowAdd(i, m);
    RowScale(BPow(i), Val(b[..m]), Val(b[m..]), BPow(m), w);
    AddProduct(carry, w, Val(b[m..]), BPow(|b|));
  }

  lemma AddProduct(c: nat, w: nat, v: nat, p: nat)
    ensures (c + w * v) * p == c * p + w * (v * p)
  {
    assert w * v * p == w * (v * p);
  }

  /** mul_words: the product modulo the size of the arrays. */
  method MulWords(a: array<Word>, b: array<Word>) returns (r: array<Word>)
    requires a.Length == b.Length
    ensures fresh(r) && r.Length == a.Length
    ensures Val(r[..]) == Val(a[..]) * Val(b[..]) % BPow(a.Length)
  {
    hide BPow, Val;
    var nw := a.Length;
    r := new Word[nw](_ => 0);
    ValZeros(r[..]);
    ghost var x, y := a[..], b[..];
    ghost var k: nat := 0;
    ValEmpty();
    assert x[..0] == [];
    for i := 0 to nw
      invariant a[..] == x && b[..] == y
      invariant Val(r[..]) + k * BPow(nw) == Val(x[..i]) * Val(y)
    {
      ValNext(x, i);
      ProductNext(Val(x[..i]), x[i], BPow(i), Val(y));
      if a[i] != 0 {
        ghost var k' := AddRow(r, i, a[i], b);
        SumMultiples(k, k', BPow(nw));
        k := k + k';
      }
    }
    assert x[..nw] == x;
    ValBound(r[..]);
    DivModUnique(Val(x) * Val(y), BPow(nw), k, Val(r[..]));
  }

  lemma ProductNext(v: nat, w: nat, p: nat, y: nat)
    ensures (v + w * p) * y == v * y + w * (p * y)
  {
    assert w * p * y == w * (p * y);
  }

  lemma SumMultiples(k: nat, k': nat, p: nat)
    ensures (k + k') * p == k * p + k' * p
  {
  }

  // ---------------------------------------------------------------- the overflow-checked product

  /** The number a signed or unsigned operand stands for, as a number of `nw` words. */
  function Extended(x: int, nw: nat): nat {
    x % BPow(nw)
  }

  lemma ExtendedIs(x: int, nw: nat)
    requires -(BPow(nw) as int) <= x < BPow(nw)
    ensures Extended(x, nw) == if x < 0 then x + BPow(nw) else x
  {
    var p := BPow(nw);
    if x < 0 {
      DivModUnique(x, p, -1, x + p);
    } else {
      DivModUnique(x, p, 0, x);
    }
  }

  /** load into the low words of a longer array, whose other words are left as they are */
  method LoadWide(src: seq<Word>, numbits: nat, total: nat) returns (dst: array<Word>)
    requires numbits > 0 && |src| == NWords(numbits) <= total
    ensures fresh(dst) && dst.Length == total && Holds(dst[..|src|], numbits)
    ensures Val(dst[..|src|]) == Val(src) % Pow2(numbits)
  {
    hide BPow, Val, Pow2;
    dst := new Word[total];
    var low := Load(src, numbits);
    ghost var words := low[..];
    for i := 0 to |src|
      invariant low[..] == words
      invariant dst[..i] == words[..i]
    {
      dst[i] := low[i];
      assert dst[..i + 1] == dst[..i] + [words[i]];
    }
    assert words[..|src|] == words;
  }

  /** The words from `from` on are all `w`. */
  ghost predicate FilledFrom(s: seq<Word>, from: nat, w: Word) {
    forall j :: from <= j < |s| ==> s[j] == w
  }

  /** The fill loop of extend. */
  method FillFrom(a: array<Word>, from: nat, w: Word)
    requires from <= a.Length
    modifies a
    ensures a[..from] == old(a[..from]) && FilledFrom(a[..], from, w)
  {
    ghost var low := a[..from];
    for i := from to a.Length
      invariant a[..from] == low
      invariant forall j :: from <= j < i ==> a[j] == w
    {
      a[i] := w;
    }
  }

  /** `a[orig_nw - 1] |= ~top_word_mask(numbits)` */
  method FillTopWord(a: array<Word>, numbits: nat)
    requires numbits % 64 > 0 && NWords(numbits) <= a.Length && Holds(a[..NWords(numbits)], numbits)
    modifies a
    ensures Val(a[..NWords(numbits)])
         == old(Val(a[..NWords(numbits)])) + BPow(NWords(numbits)) - Pow2(numbits)
  {
    hide Val, BPow, Pow2, TopWordMask;
    var nw := NWords(numbits);
    ghost var low := a[..nw];
    FillTop(low, numbits);
    a[nw - 1] := Or(a[nw - 1], B - 1 - TopWordMask(numbits));
    assert a[..nw] == low[nw - 1 := Or(low[nw - 1], B - 1 - TopWordMask(numbits))];
  }

  /** extend: zero- or sign-extend to all words of `a`. */
  method Extend(a: array<Word>, numbits: nat, isSign: bool)
    requires 0 < numbits && NWords(numbits) <= a.Length && Holds(a[..NWords(numbits)], numbits)
    modifies a
    ensures Val(a[..]) == Extended(Reading(old(Val(a[..NWords(numbits)])), numbits, isSign), a.Length)
  {
    hide BPow, Val, Pow2, Extended, TopWordMask, Reading, Signed, FilledFrom;
    var nw := NWords(numbits);
    ghost var v := Val(a[..nw]);
    ReadingIs(v, numbits, isSign);
    SignBit(v, numbits);
    LowSignBit(a[..], numbits);
    assert a[..][..nw] == a[..nw];
    var neg := IsNegative(a, numbits);
    var fill: Word := if isSign && neg then B - 1 else 0;
    var topBits := numbits % 64;
    if topBits > 0 && fill != 0 {
      FillTopWord(a, numbits);
    }
    BPowIs(nw);
    FillFrom(a, nw, fill);
    assert a[..][..nw] == a[..nw];
    ExtendedValue(a[..], v, numbits, isSign && neg);
  }

  lemma ReadingIs(v: nat, numbits: nat, isSign: bool)
    requires numbits > 0
    ensures Reading(v, numbits, isSign) == if isSign && v >= Pow2(numbits - 1) then v - Pow2(numbits) else v
  {
  }

  /** The sign bit only depends on the low words. */
  lemma LowSignBit(s: seq<Word>, numbits: nat)
    requires numbits > 0 && NWords(numbits) <= |s|
    ensures Val(s) / Pow2(numbits - 1) % 2 == Val(s[..NWords(numbits)]) / Pow2(numbits - 1) % 2
  {
    BitAt(s, numbits - 1);
    BitAt(s[..NWords(numbits)], numbits - 1);
  }

  /** Setting every bit of the top word from `numbits` on. */
  lemma FillTop(low: seq<Word>, numbits: nat)
    requires Holds(low, numbits) && numbits % 64 > 0
    ensures Or(low[|low| - 1], B - 1 - TopWordMask(numbits)) < B
    ensures Val(low[|low| - 1 := Or(low[|low| - 1], B - 1 - TopWordMask(numbits))])
         == Val(low) + BPow(|low|) - Pow2(numbits)
  {
    hide Val, BPow, Pow2, Or, TopWordMask;
    var n, k := |low| - 1, numbits % 64;
    TopWordSmall(low, numbits);
    FilledWord(low[n], numbits);
    SplitPow2(numbits, n, k);
    ValUpdate(low, n, low[n] + (B - Pow2(k)));
    BPowStep(n);
    FillDigit(low[n], Pow2(k), BPow(n));
  }

  lemma FilledWord(w: Word, numbits: nat)
    requires numbits % 64 > 0 && w < Pow2(numbits % 64)
    ensures Pow2(numbits % 64) <= B
    ensures Or(w, B - 1 - TopWordMask(numbits)) == w + (B - Pow2(numbits % 64)) < B
  {
    hide Pow2, Or;
    var k := numbits % 64;
    MaskValue(numbits);
    ComplementMask(k);
    OrComm(w, B - Pow2(k));
    OrDisjoint(Pow2(64 - k) - 1, w, k);
  }

  lemma MaskValue(numbits: nat)
    requires numbits % 64 > 0
    ensures TopWordMask(numbits) == Pow2(numbits % 64) - 1
  {
  }

  lemma ComplementMask(k: nat)
    requires k <= 64
    ensures Pow2(k) <= B && (Pow2(64 - k) - 1) * Pow2(k) == B - Pow2(k)
  {
    hide Pow2;
    Pow2Values();
    Pow2Mono(k, 64);
    Pow2Add(64 - k, k);
    OnesScaled(Pow2(64 - k), Pow2(k));
  }

  lemma FillDigit(w: nat, q: nat, p: nat)
    requires q <= B
    ensures (w + (B - q)) * p == w * p + B * p - p * q
  {
    assert (w + (B - q)) * p == w * p + (B - q) * p;
    assert (B - q) * p == B * p - q * p;
  }

  lemma TopWordSmall(low: seq<Word>, numbits: nat)
    requires Holds(low, numbits) && numbits % 64 > 0
    ensures low[|low| - 1] < Pow2(numbits % 64)
  {
    hide Pow2, BPow;
    var n, k := |low| - 1, numbits % 64;
    SplitPow2(numbits, n, k);
    ValNext(low, n);
    ValWhole(low);
    if low[n] >= Pow2(k) { MulMono(Pow2(k), low[n], BPow(n)); }
  }

  lemma ExtendedValue(s: seq<Word>, v: nat, numbits: nat, ones: bool)
    requires numbits > 0 && NWords(numbits) <= |s| && v < Pow2(numbits)
    requires ones ==> v >= Pow2(numbits - 1)
    requires Val(s[..NWords(numbits)]) == if ones then v + BPow(NWords(numbits)) - Pow2(numbits) else v
    requires FilledFrom(s, NWords(numbits), if ones then B - 1 else 0)
    ensures Val(s) == Extended(if ones then v - Pow2(numbits) else v, |s|)
  {
    hide Val, BPow;
    var nw := NWords(numbits);
    Pow2Mono(numbits, 64 * |s|);
    BPowIs(|s|);
    ExtendedIs(if ones then v - Pow2(numbits) else v, |s|);
    ValSplit(s, nw);
    BPowAdd(|s| - nw, nw);
    if ones {
      OnesExactly(s[nw..]);
      OnesScaled(BPow(|s| - nw), BPow(nw));
    } else {
      ValZeros(s[nw..]);
    }
  }

  lemma OnesScaled(p: nat, q: nat)
    ensures (p - 1) * q == p * q - q
  {
  }

  /** check_overflow: are the bits from `numbits` on all like `expected`? */
  method CheckOverflow(r: array<Word>, numbits: nat, ones: bool) returns (overflow: bool)
    requires 0 < numbits && NWords(numbits) <= r.Length
    ensures overflow <==> Val(r[..]) / Pow2(numbits) != if ones then HighOnes(numbits, r.Length) else 0
  {
    hide BPow, Val, Pow2, HighOnes;
    var nw := NWords(numbits);
    var topBits := numbits % 64;
    HighBits(r[..], numbits, ones);
    if topBits > 0 {
      var high := r[nw - 1] / Pow2(topBits);
      var expHigh := if ones then (B - 1) / Pow2(topBits) else 0;
      if high != expHigh { return true; }
    }
    for i := nw to r.Length
      invariant forall j :: nw <= j < i ==> r[j] == if ones then B - 1 else 0
    {
      if r[i] != if ones then B - 1 else 0 { return true; }
    }
    return false;
  }

  /** All bits from `numbits` up in a number of `total` words. */
  function HighOnes(numbits: nat, total: nat): nat
    requires numbits <= 64 * total
  {
    Pow2(64 * total - numbits) - 1
  }

  /** The high bits are all zeros or all ones exactly when the top part of word nw - 1 and the
  words above it are. */
  lemma HighBits(s: seq<Word>, numbits: nat, ones: bool)
    requires 0 < numbits && NWords(numbits) <= |s|
    ensures Val(s) / Pow2(numbits) == (if ones then HighOnes(numbits, |s|) else 0) <==>
      && (numbits % 64 > 0 ==>
            s[NWords(numbits) - 1] / Pow2(numbits % 64) == if ones then (B - 1) / Pow2(numbits % 64) else 0)
      && FilledFrom(s, NWords(numbits), if ones then B - 1 else 0)
  {
    hide Val, BPow, Pow2, HighOnes, FilledFrom;
    WordsAbove(s, NWords(numbits), ones);
    if numbits % 64 == 0 {
      WholeWordsAbove(s, numbits);
    } else {
      HighBitsInWord(s, numbits, ones);
    }
  }

  lemma HighBitsInWord(s: seq<Word>, numbits: nat, ones: bool)
    requires 0 < numbits && NWords(numbits) <= |s| && numbits % 64 > 0
    ensures var nw, k := NWords(numbits), numbits % 64;
      Val(s) / Pow2(numbits) == (if ones then HighOnes(numbits, |s|) else 0) <==>
      && s[nw - 1] / Pow2(k) == (if ones then (B - 1) / Pow2(k) else 0)
      && Val(s[nw..]) == if ones then BPow(|s| - nw) - 1 else 0
  {
    hide Val, BPow, Pow2, HighOnes, FilledFrom;
    var nw, k := NWords(numbits), numbits % 64;
    WordsAbove(s, nw, ones);
    HighPart(s, numbits);
    TopPart(s[nw - 1], k);
    HighLimit(numbits, |s|, k);
    QuotientIsNat(s[nw - 1], Pow2(k));
    TwoPartsEqual(s[nw - 1] / Pow2(k), Val(s[nw..]), Pow2(64 - k), BPow(|s| - nw), ones);
  }

  lemma WordsAbove(s: seq<Word>, nw: nat, ones: bool)
    requires nw <= |s|
    ensures Val(s[nw..]) < BPow(|s| - nw)
    ensures Val(s[nw..]) == (if ones then BPow(|s| - nw) - 1 else 0) <==> FilledFrom(s, nw, if ones then B - 1 else 0)
  {
    hide Val, BPow;
    ValBound(s[nw..]);
    if ones { OnesExactly(s[nw..]); } else { ZerosExactly(s[nw..]); }
    assert forall j :: nw <= j < |s| ==> s[j] == s[nw..][j - nw];
  }

  lemma WholeWordsAbove(s: seq<Word>, numbits: nat)
    requires 0 < numbits && NWords(numbits) <= |s| && numbits % 64 == 0
    ensures Val(s) / Pow2(numbits) == Val(s[NWords(numbits)..])
    ensures HighOnes(numbits, |s|) == BPow(|s| - NWords(numbits)) - 1
  {
    hide Val, BPow, Pow2, HighOnes;
    HighOnesWhole(numbits, |s|);
    WholeWords(s, NWords(numbits), numbits);
  }

  lemma HighOnesWhole(numbits: nat, total: nat)
    requires 0 < numbits && NWords(numbits) <= total && numbits % 64 == 0
    ensures HighOnes(numbits, total) == BPow(total - NWords(numbits)) - 1 && numbits == 64 * NWords(numbits)
  {
    hide Pow2, BPow;
    assert 64 * total - numbits == 64 * (total - NWords(numbits));
    BPowIs(total - NWords(numbits));
  }

  lemma WholeWords(s: seq<Word>, nw: nat, numbits: nat)
    requires nw <= |s| && numbits == 64 * nw
    ensures Val(s) / Pow2(numbits) == Val(s[nw..])
  {
    hide Val, Pow2, BPow;
    WordsFrom(s, nw);
    BPowIs(nw);
    assert Pow2(numbits) == BPow(nw);
  }

  lemma WordsFrom(s: seq<Word>, nw: nat)
    requires nw <= |s|
    ensures Val(s) / BPow(nw) == Val(s[nw..])
  {
    hide Val, BPow, Pow2;
    ValSplit(s, nw);
    ValBound(s[..nw]);
    DivModUnique(Val(s), BPow(nw), Val(s[nw..]), Val(s[..nw]));
  }

  lemma HighPart(s: seq<Word>, numbits: nat)
    requires 0 < numbits && NWords(numbits) <= |s| && numbits % 64 > 0
    ensures var nw, k := NWords(numbits), numbits % 64;
      Val(s) / Pow2(numbits) == s[nw - 1] / Pow2(k) + Val(s[nw..]) * Pow2(64 - k)
  {
    hide Val, BPow, Pow2;
    var nw, k := NWords(numbits), numbits % 64;
    WordAt(s, nw - 1);
    ValBound(s[..nw - 1]);
    BPowStep(nw - 1);
    SplitPow2(numbits, nw - 1, k);
    Pow2Values();
    Pow2Add(64 - k, k);
    ShiftParts(Val(s[..nw - 1]), s[nw - 1], Val(s[nw..]), BPow(nw - 1), Pow2(k), Pow2(64 - k));
  }

  lemma ShiftParts(low: nat, w: nat, high: nat, p: nat, q: nat, q': nat)
    requires low < p && q > 0 && q' * q == B
    ensures p * q > 0 && (low + w * p + high * (B * p)) / (p * q) == w / q + high * q'
  {
    var top := w + high * B;
    assert top * p == w * p + high * (B * p);
    DivDiv(low + top * p, p, q);
    DivModUnique(low + top * p, p, top, low);
    ShiftWord(w, high, q, q');
  }

  lemma ShiftWord(w: nat, high: nat, q: nat, q': nat)
    requires q > 0 && q' * q == B
    ensures (w + high * B) / q == w / q + high * q'
  {
    var d, r := w / q, w % q;
    assert w == d * q + r;
    assert high * B == high * q' * q;
    assert (d + high * q') * q == d * q + high * q' * q;
    DivModUnique(w + high * B, q, d + high * q', r);
  }

  lemma TopPart(w: Word, k: nat)
    requires 0 < k < 64
    ensures w / Pow2(k) < Pow2(64 - k) && (B - 1) / Pow2(k) == Pow2(64 - k) - 1
  {
    hide Pow2;
    Pow2Values();
    Pow2Add(64 - k, k);
    DivBound(w, Pow2(k), Pow2(64 - k));
    OnesDivided(Pow2(k), Pow2(64 - k));
  }

  lemma DivBound(w: nat, p: nat, q: nat)
    requires p > 0 && w < q * p
    ensures w / p < q
  {
    var d := w / p;
    if d >= q { MulMono(q, d, p); }
  }

  lemma OnesDivided(p: nat, q: nat)
    requires p > 0 && q > 0
    ensures (q * p - 1) / p == q - 1
  {
    OnesScaled(q, p);
    DivModUnique(q * p - 1, p, q - 1, p - 1);
  }

  lemma HighLimit(numbits: nat, total: nat, k: nat)
    requires k == numbits % 64 > 0 && NWords(numbits) <= total
    ensures HighOnes(numbits, total) == Pow2(64 - k) * BPow(total - NWords(numbits)) - 1
  {
    hide Pow2, BPow;
    var above := total - NWords(numbits);
    assert 64 * total - numbits == 64 - k + 64 * above;
    BPowIs(above);
    Pow2Add(64 - k, 64 * above);
  }

  lemma TwoPartsEqual(top: nat, above: nat, q: nat, p: nat, ones: bool)
    requires top < q && above < p
    ensures top + above * q == (if ones then q * p - 1 else 0)
      <==> top == (if ones then q - 1 else 0) && above == (if ones then p - 1 else 0)
  {
    OnesScaled(p, q);
    if above < p - 1 {
      MulMono(above + 1, p - 1, q);
      assert (above + 1) * q == above * q + q;
    }
    if above > 0 { MulMono(1, above, q); }
  }

  /** A product of two n-bit numbers, known modulo the 2 nw words it was computed in: the sign
  bit and the high bits tell whether it fits n bits. */
  lemma ProductFits(v: nat, x: int, y: int, numbits: nat, isSigned: bool)
    requires numbits > 0 && Fits(x, numbits, isSigned) && Fits(y, numbits, isSigned)
    requires v == Extended(x * y, 2 * NWords(numbits))
    ensures v % Pow2(numbits) == Wrap(x * y, numbits)
    ensures var ones := isSigned && v / Pow2(numbits - 1) % 2 == 1;
      var expected := if ones then HighOnes(numbits, 2 * NWords(numbits)) else 0;
      Fits(x * y, numbits, isSigned) <==> v / Pow2(numbits) == expected
  {
    hide Pow2, BPow, Extended;
    var total := 2 * NWords(numbits);
    var h, m := Pow2(numbits - 1), Pow2(64 * total - numbits);
    WidthFactors(numbits, total);
    ProductInWidth(x, y, h, m, isSigned);
    ExtendedIs(x * y, total);
    MultipleVanishes(x * y, if x * y < 0 then 1 else 0, 2 * h, m);
    ProductDecided(v, x, y, h, m, isSigned);
  }

  /** The double width in factors. */
  lemma WidthFactors(numbits: nat, total: nat)
    requires numbits > 0 && 64 * total >= 2 * numbits
    ensures var h, m := Pow2(numbits - 1), Pow2(64 * total - numbits);
      && Pow2(numbits) == 2 * h && m >= 2 * h && BPow(total) == 2 * h * m
  {
    hide Pow2, BPow;
    BPowIs(total);
    NextPower(numbits);
    Pow2Mono(numbits, 64 * total - numbits);
    Pow2Add(numbits, 64 * total - numbits);
  }

  lemma ProductInWidth(x: int, y: int, h: nat, m: nat, isSigned: bool)
    requires h > 0 && m >= 2 * h
    requires if isSigned then 0 <= x + h < 2 * h && 0 <= y + h < 2 * h else 0 <= x < 2 * h && 0 <= y < 2 * h
    ensures -(2 * h * m as int) <= x * y < 2 * h * m
  {
    ProductBound(x, y, h, isSigned);
    Squares(h, m);
    InWidth(x * y, h, h * h, 2 * h * m, 2 * h * (2 * h), isSigned);
  }

  lemma InWidth(p: int, h: nat, hh: nat, all: nat, square: nat, isSigned: bool)
    requires all >= square == 4 * hh && hh >= h > 0
    requires isSigned ==> 0 <= p + hh && p <= hh
    requires !isSigned ==> 0 <= p < square
    ensures -(all as int) <= p < all
  {
  }

  lemma ProductDecided(v: nat, x: int, y: int, h: nat, m: nat, isSigned: bool)
    requires h > 0 && m >= 2 * h
    requires if isSigned then 0 <= x + h < 2 * h && 0 <= y + h < 2 * h else 0 <= x < 2 * h && 0 <= y < 2 * h
    requires v == if x * y < 0 then x * y + 2 * h * m else x * y
    ensures var ones := isSigned && v / h % 2 == 1;
      var expected := if ones then m - 1 else 0;
      (if isSigned then 0 <= x * y + h < 2 * h else 0 <= x * y < 2 * h) <==> v / (2 * h) == expected
  {
    ProductBound(x, y, h, isSigned);
    DecideFits(v, x * y, h, m, isSigned);
  }

  /** |x * y| stays within the double width. */
  lemma ProductBound(x: int, y: int, h: nat, isSigned: bool)
    requires if isSigned then 0 <= x + h < 2 * h && 0 <= y + h < 2 * h else 0 <= x < 2 * h && 0 <= y < 2 * h
    ensures isSigned ==> 0 <= x * y + h * h && x * y <= h * h
    ensures !isSigned ==> 0 <= x * y < 2 * h * (2 * h)
  {
    if isSigned {
      var a, d := if x < 0 then -x else x, if y < 0 then -y else y;
      MulMono(a, h, d);
      MulMono(d, h, h);
      assert x * y == a * d || x * y == -(a * d);
      NonNegative(a, d);
    } else {
      NonNegative(x, y);
      if x > 0 {
        MulMono(y + 1, 2 * h, x);
        MulMono(x, 2 * h, 2 * h);
        assert (y + 1) * x == x * y + x;
      }
    }
  }

  lemma Squares(h: nat, m: nat)
    requires h > 0 && m >= 2 * h
    ensures 2 * h * m >= 2 * h * (2 * h) == 4 * (h * h)
    ensures h * h >= h
  {
    MulMono(2 * h, m, 2 * h);
    MulMono(1, h, h);
  }

  /** Where high * d lies with respect to m * d. */
  lemma Multiples(high: nat, m: nat, d: nat)
    requires d > 0 && m > 0
    ensures high == 0 ==> high * d == 0
    ensures high > 0 ==> high * d >= d
    ensures high < m - 1 ==> high * d + 2 * d <= d * m
    ensures high == m - 1 ==> high * d + d == d * m
    ensures high >= m ==> high * d >= d * m
  {
    if high > 0 { MulMono(1, high, d); }
    if high < m - 1 {
      MulMono(high + 2, m, d);
      assert (high + 2) * d == high * d + 2 * d;
    }
    if high == m - 1 { assert (high + 1) * d == high * d + d; }
    if high >= m { MulMono(m, high, d); }
  }

  /** The bits of v above and at the sign position. */
  lemma Parts(v: nat, h: nat) returns (high: nat, bit: nat)
    requires h > 0
    ensures high == v / (2 * h) && bit == v / h % 2 <= 1
    ensures high * (2 * h) + bit * h <= v < high * (2 * h) + bit * h + h
  {
    DivDiv(v, h, 2);
    assert h * 2 == 2 * h;
    QuotientIsNat(v, 2 * h);
    QuotientIsNat(v, h);
    high, bit := v / (2 * h), v / h % 2;
    var r := v % h;
    assert v / h == 2 * high + bit;
    assert v == (2 * high + bit) * h + r;
    assert (2 * high + bit) * h == high * (2 * h) + bit * h;
  }

  lemma DecideFits(v: nat, product: int, h: nat, m: nat, isSigned: bool)
    requires h > 0 && m >= 2 * h
    requires v == if product < 0 then product + 2 * h * m else product
    requires isSigned ==> 0 <= product + h * h && product <= h * h
    requires !isSigned ==> 0 <= product < 2 * h * (2 * h)
    ensures var ones := isSigned && v / h % 2 == 1;
      var expected := if ones then m - 1 else 0;
      (if isSigned then 0 <= product + h < 2 * h else 0 <= product < 2 * h) <==> v / (2 * h) == expected
  {
    Squares(h, m);
    var high, bit := Parts(v, h);
    Multiples(high, m, 2 * h);
    Decide(v, product, h, h * h, 2 * h * m, high, high * (2 * h), m, bit, isSigned);
  }

  /** The case analysis, with every product named. */
  lemma Decide(v: nat, product: int, h: nat, hh: nat, all: nat, high: nat, base: nat, m: nat, bit: nat, isSigned: bool)
    requires 0 < h <= hh && all >= 4 * hh && m > 0 && bit <= 1
    requires v == if product < 0 then product + all else product
    requires isSigned ==> 0 <= product + hh && product <= hh
    requires !isSigned ==> 0 <= product
    requires base + bit * h <= v < base + bit * h + h
    requires high == 0 ==> base == 0
    requires high > 0 ==> base >= 2 * h
    requires high < m - 1 ==> base + 4 * h <= all
    requires high == m - 1 ==> base + 2 * h == all
    requires high >= m ==> base >= all
    ensures var expected := if isSigned && bit == 1 then m - 1 else 0;
      (if isSigned then 0 <= product + h < 2 * h else 0 <= product < 2 * h) <==> high == expected
  {
  }

  lemma LowWordsOnly(s: seq<Word>, numbits: nat)
    requires numbits > 0 && NWords(numbits) <= |s|
    ensures Val(s[..NWords(numbits)]) % Pow2(numbits) == Val(s) % Pow2(numbits)
  {
    hide Val, BPow, Pow2;
    var nw := NWords(numbits);
    ValSplit(s, nw);
    WordsVanish(Val(s[..nw]), Val(s[nw..]), numbits, nw);
  }

  lemma ReadingFits(v: nat, numbits: nat, isSigned: bool)
    requires numbits > 0 && v < Pow2(numbits)
    ensures Fits(Reading(v, numbits, isSigned), numbits, isSigned)
  {
  }

  /** The two extended operands multiply to the extended product. */
  lemma ExtendedProduct(x: int, y: int, n: nat)
    ensures Extended(x, n) * Extended(y, n) % BPow(n) == Extended(x * y, n)
  {
    hide BPow;
    var p := BPow(n);
    var qx, qy, rx, ry := x / p, y / p, x % p, y % p;
    var k := qx * y + rx * qy;
    assert x == qx * p + rx && y == qy * p + ry;
    assert x * y == qx * p * y + rx * y;
    assert rx * y == rx * qy * p + rx * ry;
    assert qx * p * y == qx * y * p;
    assert x * y == rx * ry + k * p;
    MultipleVanishes(rx * ry, k, p, 1);
  }

  /** APInt_mul_ov: the product modulo 2^numbits, and overflow exactly when it does not fit. */
  method MulOv(numbits: nat, pa: seq<Word>, pb: seq<Word>, isSigned: bool) returns (res: array<Word>, overflow: bool)
    requires numbits > 0 && |pa| == |pb| == NWords(numbits)
    ensures Holds(res[..], numbits)
    ensures var x := Reading(Wrap(Val(pa), numbits), numbits, isSigned);
      var y := Reading(Wrap(Val(pb), numbits), numbits, isSigned);
      Val(res[..]) == Wrap(x * y, numbits) && (overflow <==> !Fits(x * y, numbits, isSigned))
  {
    hide Val, BPow, Pow2, Extended, Fits, Reading, HighOnes;
    var nw := NWords(numbits);
    var nw2 := 2 * nw;
    ghost var x := Reading(Wrap(Val(pa), numbits), numbits, isSigned);
    ghost var y := Reading(Wrap(Val(pb), numbits), numbits, isSigned);
    ReadingFits(Wrap(Val(pa), numbits), numbits, isSigned);
    ReadingFits(Wrap(Val(pb), numbits), numbits, isSigned);
    var a := LoadWide(pa, numbits, nw2);
    Extend(a, numbits, isSigned);
    var b := LoadWide(pb, numbits, nw2);
    Extend(b, numbits, isSigned);
    var r := MulWords(a, b);
    ExtendedProduct(x, y, nw2);
    ghost var v := Val(r[..]);
    ProductFits(v, x, y, numbits, isSigned);
    var negR := IsNegative(r, numbits);
    overflow := CheckOverflow(r, numbits, isSigned && negR);
    LowWordsOnly(r[..], numbits);
    res := new Word[nw](i requires 0 <= i < nw && nw <= r.Length reads r => r[i]);
    assert res[..] == r[..nw] == r[..][..nw];
    MaskTop(res, numbits);
  }
}
