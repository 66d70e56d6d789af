/** Word-level addition, subtraction, negation and comparison, and checked addition and
subtraction at any bit width (src/APInt.c). */
module APIntArith {
  import opened Bits
  import opened Words

  function NWords(numbits: nat): nat {
    (numbits + 63) / 64
  }

  /** As few words as will do. */
  lemma NWordsIsLeast(numbits: nat)
    ensures numbits <= 64 * NWords(numbits) < numbits + 64
  {
  }

  /** `numbits` bits, held in as many words as it takes. */
  ghost predicate Holds(s: seq<Word>, numbits: nat) {
    numbits > 0 && |s| == NWords(numbits) && Val(s) < Pow2(numbits)
  }

  /** Two's complement reading. */
  function Signed(v: int, numbits: nat): int
    requires numbits > 0
  {
    if v >= Pow2(numbits - 1) then v - Pow2(numbits) else v
  }

  /** The n-bit word that represents x. */
  function Wrap(x: int, numbits: nat): (r: nat)
    ensures r < Pow2(numbits)
  {
    x % Pow2(numbits)
  }

  lemma WrapIs(x: int, numbits: nat, k: int)
    requires 0 <= x + k * Pow2(numbits) < Pow2(numbits)
    ensures Wrap(x, numbits) == x + k * Pow2(numbits)
  {
    var p := Pow2(numbits);
    var r := x + k * p;
    assert x == (-k) * p + r;
    DivModUnique(x, p, -k, r);
  }

  // ---------------------------------------------------------------- masks and signs

  /** top_word_mask */
  function TopWordMask(numbits: nat): Word {
    var r := numbits % 64;
    Pow2Values();
    Pow2Mono(r, 64);
    if r != 0 then Pow2(r) - 1 else B - 1
  }

  /** Masking the top word cuts the number to `numbits` bits. */
  lemma MaskCuts(s: seq<Word>, numbits: nat)
    requires numbits > 0 && |s| == NWords(numbits)
    ensures And(s[|s| - 1], TopWordMask(numbits)) < B
    ensures Val(s[|s| - 1 := And(s[|s| - 1], TopWordMask(numbits))]) == Val(s) % Pow2(numbits)
  {
    hide Pow2, Val, And, TopWordMask;
    var i := |s| - 1;
    var k := if numbits % 64 == 0 then 64 else numbits % 64;
    assert numbits == k + 64 * i;
    MaskedWord(s[i], k, numbits);
    MaskCutsAt(s, i, k, s[i] % Pow2(k), numbits);
  }

  lemma MaskCutsAt(s: seq<Word>, i: nat, k: nat, w: Word, numbits: nat)
    requires i + 1 == |s| && w == s[i] % Pow2(k) && numbits == 64 * i + k
    ensures Val(s[i := w]) == Val(s) % Pow2(numbits)
  {
    hide Pow2, Val, BPow;
    var t := s[i := w];
    LowAndTop(s, i);
    LowAndTop(t, i);
    assert t[..i] == s[..i];
    ValBound(s[..i]);
    SplitPow2(numbits, i, k);
    CutValue(Val(s), Val(t), Val(s[..i]), s[i], BPow(i), Pow2(k), Pow2(numbits));
  }

  lemma CutValue(v: nat, v': nat, low: nat, w: nat, p: nat, k: nat, m: nat)
    requires v == low + w * p && low < p && k > 0 && v' == low + w % k * p && m == p * k
    ensures m > 0 && v' == v % m
  {
    CutTop(low, w, p, k);
    Swap(p, k);
  }

  lemma LowAndTop(s: seq<Word>, i: nat)
    requires i + 1 == |s|
    ensures Val(s) == Val(s[..i]) + s[i] * BPow(i)
  {
  }

  /** The mask keeps the low k bits of a word. */
  lemma MaskedWord(w: Word, k: nat, numbits: nat)
    requires k == if numbits % 64 == 0 then 64 else numbits % 64
    ensures And(w, TopWordMask(numbits)) == w % Pow2(k) < B
  {
    hide And;
    Pow2Values();
    AndOnes(w, k);
    Pow2Mono(k, 64);
  }

  /** Cutting a number of the form low + w * p, low below p, to the modulus k * p. */
  lemma CutTop(low: nat, w: nat, p: nat, k: nat)
    requires low < p && k > 0
    ensures k * p > 0
    ensures (low + w * p) % (k * p) == low + w % k * p
  {
    MulMono(1, k, p);
    Euclid(w, k);
    CutDigits(low, w, p, k, w / k, w % k);
    DivModUnique(low + w * p, k * p, w / k, low + w % k * p);
  }

  lemma CutDigits(low: nat, w: nat, p: nat, k: nat, q: nat, r: nat)
    requires low < p && w == q * k + r && r < k
    ensures low + w * p == q * (k * p) + (low + r * p) && low + r * p < k * p
  {
    MulMono(r + 1, k, p);
    TwoDigits(q, k, r, p, low);
    Swap(p, k);
  }

  /** mask_top */
  method MaskTop(a: array<Word>, numbits: nat)
    requires numbits > 0 && a.Length == NWords(numbits)
    modifies a
    ensures Holds(a[..], numbits)
    ensures Val(a[..]) == old(Val(a[..])) % Pow2(numbits)
  {
    ghost var s := a[..];
    MaskCuts(s, numbits);
    a[a.Length - 1] := And(a[a.Length - 1], TopWordMask(numbits));
    assert a[..] == s[|s| - 1 := And(s[|s| - 1], TopWordMask(numbits))];
  }

  /** load: copy an operand and clear whatever its storage holds above `numbits`. */
  method Load(src: seq<Word>, numbits: nat) returns (dst: array<Word>)
    requires numbits > 0 && |src| == NWords(numbits)
    ensures fresh(dst) && Holds(dst[..], numbits)
    ensures Val(dst[..]) == Val(src) % Pow2(numbits)
  {
    dst := new Word[|src|](i requires 0 <= i < |src| => src[i]);
    assert dst[..] == src;
    MaskTop(dst, numbits);
  }

  /** is_negative: the sign bit of a number that may have more words than `numbits` needs. */
  method IsNegative(a: array<Word>, numbits: nat) returns (neg: bool)
    requires numbits > 0 && a.Length >= NWords(numbits)
    ensures neg <==> Val(a[..]) / Pow2(numbits - 1) % 2 == 1
  {
    var nw := NWords(numbits);
    var signbit := (numbits - 1) % 64;
    BitAt(a[..], numbits - 1);
    assert nw - 1 == (numbits - 1) / 64;
    neg := a[nw - 1] / Pow2(signbit) % 2 == 1;
  }

  lemma SignBit(v: nat, numbits: nat)
    requires numbits > 0 && v < Pow2(numbits)
    ensures v / Pow2(numbits - 1) % 2 == 1 <==> v >= Pow2(numbits - 1)
  {
    var p := Pow2(numbits - 1);
    if v >= p {
      DivModUnique(v, p, 1, v - p);
    } else {
      DivModUnique(v, p, 0, v);
    }
  }

  // ---------------------------------------------------------------- addition and subtraction

  /** The complement of every word. */
  function Flip(s: seq<Word>): (r: seq<Word>)
    ensures |r| == |s|
    ensures forall i :: 0 <= i < |s| ==> r[i] == B - 1 - s[i]
  {
    if s == [] then [] else Flip(s[..|s| - 1]) + [B - 1 - s[|s| - 1]]
  }

  lemma {:induction false} FlipValue(s: seq<Word>)
    ensures Val(Flip(s)) == BPow(|s|) - 1 - Val(s)
  {
    hide BPow;
    if s == [] {
      BPowStep(0);
    } else {
      var n := |s| - 1;
      FlipValue(s[..n]);
      BPowStep(n);
      assert Flip(s)[..n] == Flip(s[..n]);
      FlipDigit(s[n], BPow(n));
    }
  }

  lemma FlipDigit(w: Word, p: nat)
    ensures (B - 1 - w) * p == B * p - p - w * p
  {
  }

  /** One word of the adder: the two carries are never both set. */
  lemma AdderStep(a: Word, b: Word, carry: nat)
    requires carry <= 1
    ensures var s := (a + b) % B;
      var s2 := (s + carry) % B;
      var carry' := if s < a || s2 < s then 1 else 0;
      a + b + carry == s2 + carry' * B
  {
  }

  lemma DigitSum(a: nat, b: nat, s: nat, c: nat, c': nat, p: nat)
    requires a + b + c == s + c' * B
    ensures a * p + b * p + c * p == s * p + c' * (B * p)
  {
    assert (a + b + c) * p == a * p + b * p + c * p;
    assert (s + c' * B) * p == s * p + c' * (B * p);
  }

  /** One more word of the sum. */
  lemma SumNext(low: seq<Word>, digit: Word, x: seq<Word>, y: seq<Word>, i: nat, carry: nat, carry': nat, c0: nat)
    requires i < |x| == |y| && |low| == i
    requires x[i] + y[i] + carry == digit + carry' * B
    requires Val(low) + carry * BPow(i) == Val(x[..i]) + Val(y[..i]) + c0
    ensures Val(low + [digit]) + carry' * BPow(i + 1) == Val(x[..i + 1]) + Val(y[..i + 1]) + c0
  {
    hide BPow;
    ValPush(low, digit);
    ValNext(x, i);
    ValNext(y, i);
    BPowStep(i);
    DigitSum(x[i], y[i], digit, carry, carry', BPow(i));
  }

  /** addsub_words; `r` may be `a` or `b`. */
  method AddSubWords(r: array<Word>, a: array<Word>, b: array<Word>, negateB: bool) returns (carry: nat)
    requires r.Length == a.Length == b.Length
    modifies r
    ensures carry <= 1
    ensures !negateB ==> Val(r[..]) + carry * BPow(r.Length) == old(Val(a[..])) + old(Val(b[..]))
    ensures negateB ==> Val(r[..]) + carry * BPow(r.Length) == old(Val(a[..])) - old(Val(b[..])) + BPow(r.Length)
  {
    hide BPow, Val, Flip;
    ghost var x, y := a[..], if negateB then Flip(b[..]) else b[..];
    ghost var c0: nat := if negateB then 1 else 0;
    FlipValue(b[..]);
    BPowStep(0);
    ValEmpty();
    carry := if negateB then 1 else 0;
    for i := 0 to r.Length
      invariant carry <= 1
      invariant forall j :: i <= j < a.Length ==> x[j] == a[j]
      invariant forall j :: i <= j < b.Length ==> y[j] == if negateB then B - 1 - b[j] else b[j]
      invariant Val(r[..i]) + carry * BPow(i) == Val(x[..i]) + Val(y[..i]) + c0
    {
      var bw := if negateB then B - 1 - b[i] else b[i];
      var s := (a[i] + bw) % B;
      var c1 := s < a[i];
      var s2 := (s + carry) % B;
      var c2 := s2 < s;
      AdderStep(a[i], bw, carry);
      assert x[i] == a[i] && y[i] == bw;
      var carry1 := if c1 || c2 then 1 else 0;
      ghost var low := r[..i];
      SumNext(low, s2, x, y, i, carry, carry1, c0);
      r[i] := s2;
      carry := carry1;
      assert r[..i + 1] == low + [s2];
    }
    assert r[..r.Length] == r[..] && x[..r.Length] == x && y[..r.Length] == y;
  }

  /** negate_words; `r` may be `a`. */
  method NegateWords(r: array<Word>, a: array<Word>)
    requires r.Length == a.Length
    modifies r
    ensures Val(r[..]) == (if old(Val(a[..])) == 0 then 0 else BPow(r.Length) - old(Val(a[..])))
  {
    hide BPow;
    ghost var x := a[..];
    var carry := 1;
    BPowStep(0);
    for i := 0 to r.Length
      invariant carry <= 1
      invariant carry == 1 <==> Val(x[..i]) == 0
      invariant forall j :: i <= j < a.Length ==> a[j] == x[j]
      invariant Val(r[..i]) + Val(x[..i]) == (1 - carry) * BPow(i)
    {
      var val := (B - 1 - a[i] + carry) % B;
      NegateNext(r[..i], val, x, i, carry);
      ghost var low := r[..i];
      carry := if a[i] == 0 && carry == 1 then 1 else 0;
      r[i] := val;
      assert r[..i + 1] == low + [val];
    }
    assert r[..r.Length] == r[..] && x[..r.Length] == x;
  }

  lemma NegateNext(low: seq<Word>, digit: Word, x: seq<Word>, i: nat, carry: nat)
    requires i < |x| && |low| == i && carry <= 1
    requires carry == 1 <==> Val(x[..i]) == 0
    requires digit == (B - 1 - x[i] + carry) % B
    requires Val(low) + Val(x[..i]) == (1 - carry) * BPow(i)
    ensures var carry' := if x[i] == 0 && carry == 1 then 1 else 0;
      && (carry' == 1 <==> Val(x[..i + 1]) == 0)
      && Val(low + [digit]) + Val(x[..i + 1]) == (1 - carry') * BPow(i + 1)
  {
    hide BPow;
    ValPush(low, digit);
    ValNext(x, i);
    BPowStep(i);
    NegateDigit(x[i], digit, carry, if x[i] == 0 && carry == 1 then 1 else 0, BPow(i));
    ZeroDigit(Val(x[..i]), x[i], BPow(i));
  }

  lemma NegateDigit(w: Word, v: nat, c: nat, c': nat, p: nat)
    requires c <= 1 && v == (B - 1 - w + c) % B
    requires c' == if w == 0 && c == 1 then 1 else 0
    ensures v * p + w * p + (1 - c) * p == (1 - c') * (B * p)
  {
    if w == 0 && c == 1 {
      assert v == 0;
    } else {
      assert v == B - 1 - w + c;
      assert (v + w + (1 - c)) * p == v * p + w * p + (1 - c) * p;
    }
  }

  /** compare_words */
  method CompareWords(a: array<Word>, b: array<Word>) returns (c: int)
    requires a.Length == b.Length
    ensures c == if Val(a[..]) < Val(b[..]) then -1 else if Val(a[..]) > Val(b[..]) then 1 else 0
  {
    var i := a.Length - 1;
    assert a[a.Length..] == b[b.Length..];
    while i >= 0
      invariant -1 <= i < a.Length
      invariant a[i + 1..] == b[i + 1..]
    {
      if a[i] < b[i] {
        FirstDifference(a[..], b[..], i);
        return -1;
      }
      if a[i] > b[i] {
        FirstDifference(b[..], a[..], i);
        return 1;
      }
      assert a[i..] == [a[i]] + a[i + 1..] && b[i..] == [b[i]] + b[i + 1..];
      i := i - 1;
    }
    assert a[..] == a[0..] && b[..] == b[0..];
    return 0;
  }

  /** The highest differing word decides. */
  lemma FirstDifference(a: seq<Word>, b: seq<Word>, i: nat)
    requires |a| == |b| && i < |a| && a[i] < b[i] && a[i + 1..] == b[i + 1..]
    ensures Val(a) < Val(b)
  {
    hide BPow, Val;
    WordAt(a, i);
    WordAt(b, i);
    ValBound(a[..i]);
    SmallerDigit(Val(a[..i]), a[i], Val(b[..i]), b[i], BPow(i));
  }

  lemma SmallerDigit(low: nat, w: nat, low': nat, w': nat, p: nat)
    requires low < p && w < w'
    ensures low + w * p < low' + w' * p
  {
    MulMono(w + 1, w', p);
    assert (w + 1) * p == w * p + p;
  }

  // ---------------------------------------------------------------- checked addition and subtraction

  /** Whole words beyond `numbits` do not matter modulo 2^numbits. */
  lemma WordsVanish(v: int, c: int, numbits: nat, nw: nat)
    requires numbits <= 64 * nw
    ensures (v + c * BPow(nw)) % Pow2(numbits) == v % Pow2(numbits)
  {
    Pow2Add(numbits, 64 * nw - numbits);
    var p, k := Pow2(numbits), Pow2(64 * nw - numbits);
    MultipleVanishes(v, c, p, k);
  }

  lemma MultipleVanishes(v: int, c: int, p: nat, k: nat)
    requires p > 0
    ensures (v + c * (p * k)) % p == v % p
  {
    var q, r := v / p, v % p;
    assert c * (p * k) == c * k * p;
    assert v + c * k * p == (q + c * k) * p + r;
    DivModUnique(v + c * (p * k), p, q + c * k, r);
  }

  predicate Fits(x: int, numbits: nat, isSigned: bool)
    requires numbits > 0
  {
    if isSigned then -(Pow2(numbits - 1) as int) <= x < Pow2(numbits - 1) else 0 <= x < Pow2(numbits)
  }

  /** What the operand bits stand for. */
  function Reading(v: int, numbits: nat, isSigned: bool): int
    requires numbits > 0
  {
    if isSigned then Signed(v, numbits) else v
  }

  function Exact(x: int, y: int, isSub: bool): int {
    if isSub then x - y else x + y
  }

  /** The overflow tests on the three sign bits. */
  predicate OverflowTest(negA: bool, negB: bool, negR: bool, isSub: bool, isSigned: bool) {
    if isSigned then negA == negB && negA != negR
    else ((negA && negB) || ((negA || negB) && !negR)) != isSub
  }

  /** The tests are exact, with h = 2^(numbits-1). */
  lemma SignTests(x: nat, y: nat, h: nat, isSub: bool, r: nat)
    requires h > 0 && x < 2 * h && y < 2 * h
    requires r == Exact(x, y, isSub) % (2 * h)
    ensures var negA, negB, negR := x >= h, (y >= h) != isSub, r >= h;
      var sx, sy := if x >= h then x - 2 * h else x, if y >= h then y - 2 * h else y;
      && (OverflowTest(negA, negB, negR, isSub, false) <==> !(0 <= Exact(x, y, isSub) < 2 * h))
      && (OverflowTest(negA, negB, negR, isSub, true) <==> !(0 <= Exact(sx, sy, isSub) + h < 2 * h))
  {
    var exact := Exact(x, y, isSub);
    if exact < 0 {
      DivModUnique(exact, 2 * h, -1, exact + 2 * h);
    } else if exact >= 2 * h {
      DivModUnique(exact, 2 * h, 1, exact - 2 * h);
    } else {
      DivModUnique(exact, 2 * h, 0, exact);
    }
  }

  /** Reading the operands as signed changes the exact result by a multiple of 2^numbits. */
  lemma SignedSameBits(x: int, y: int, numbits: nat, isSub: bool)
    requires numbits > 0
    ensures Wrap(Exact(Signed(x, numbits), Signed(y, numbits), isSub), numbits) == Wrap(Exact(x, y, isSub), numbits)
  {
    var p, exact := Pow2(numbits), Exact(x, y, isSub);
    var dx, dy := if x >= Pow2(numbits - 1) then -1 else 0, if y >= Pow2(numbits - 1) then -1 else 0;
    var k := Exact(dx, dy, isSub);
    assert Exact(Signed(x, numbits), Signed(y, numbits), isSub) == exact + k * p;
    MultipleVanishes(exact, k, p, 1);
  }

  lemma AddSubCorrect(x: nat, y: nat, numbits: nat, isSub: bool, isSigned: bool, r: nat)
    requires numbits > 0 && x < Pow2(numbits) && y < Pow2(numbits)
    requires r == Wrap(Exact(x, y, isSub), numbits)
    ensures var h := Pow2(numbits - 1);
      var exact := Exact(Reading(x, numbits, isSigned), Reading(y, numbits, isSigned), isSub);
      && r == Wrap(exact, numbits)
      && (OverflowTest(x >= h, (y >= h) != isSub, r >= h, isSub, isSigned) <==> !Fits(exact, numbits, isSigned))
  {
    SignTests(x, y, Pow2(numbits - 1), isSub, r);
    SignedSameBits(x, y, numbits, isSub);
  }

  /** What the adder leaves, cut to `numbits` bits. */
  lemma CutSum(v: nat, carry: nat, exact: int, isSub: bool, numbits: nat, nw: nat)
    requires v + carry * BPow(nw) == exact + if isSub then BPow(nw) else 0
    requires numbits <= 64 * nw
    ensures v % Pow2(numbits) == Wrap(exact, numbits)
  {
    hide BPow;
    var p := BPow(nw);
    var c: int := (if isSub then 1 else 0) - carry;
    assert c * p == (if isSub then p else 0) - carry * p;
    WordsVanish(exact, c, numbits, nw);
  }

  /** APInt_addsub_ov */
  method AddSubOv(numbits: nat, pa: seq<Word>, pb: seq<Word>, isSub: bool, isSigned: bool)
    returns (r: array<Word>, overflow: bool)
    requires numbits > 0 && |pa| == |pb| == NWords(numbits)
    ensures Holds(r[..], numbits)
    ensures var x := Reading(Wrap(Val(pa), numbits), numbits, isSigned);
      var y := Reading(Wrap(Val(pb), numbits), numbits, isSigned);
      && Val(r[..]) == Wrap(Exact(x, y, isSub), numbits)
      && (overflow <==> !Fits(Exact(x, y, isSub), numbits, isSigned))
  {
    hide BPow, Val, Pow2, Exact, Fits, Signed;
    var a := Load(pa, numbits);
    var b := Load(pb, numbits);
    var negA := IsNegative(a, numbits);
    var negB := IsNegative(b, numbits);
    ghost var x, y := Val(a[..]), Val(b[..]);
    SignBit(x, numbits);
    SignBit(y, numbits);
    if isSub {
      negB := !negB;
    }
    r := new Word[a.Length];
    var carry := AddSubWords(r, a, b, isSub);
    ExactIs(x, y, isSub);
    CutSum(Val(r[..]), carry, Exact(x, y, isSub), isSub, numbits, r.Length);
    MaskTop(r, numbits);
    var negR := IsNegative(r, numbits);
    SignBit(Val(r[..]), numbits);
    AddSubCorrect(x, y, numbits, isSub, isSigned, Val(r[..]));
    if isSigned {
      overflow := negA == negB && negA != negR;
    } else {
      var carryOut := (negA && negB) || ((negA || negB) && !negR);
      overflow := if isSub then !carryOut else carryOut;
    }
  }

  lemma ExactIs(x: int, y: int, isSub: bool)
    ensures Exact(x, y, isSub) == if isSub then x - y else x + y
  {
  }
}
