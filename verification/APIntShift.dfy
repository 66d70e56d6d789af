/** Multi-word shifts (src/APInt.c): the words of the result are those of the product with, or the
quotient by, a power of two. */
module APIntShift {
  import opened Bits
  import opened Words
  import opened APIntArith
  import opened APIntMul
  import opened APIntFloat

  /** Word i of a number. */
  function Digit(x: nat, i: nat): Word {
    x / BPow(i) % B
  }

  lemma ModNext(x: nat, p: nat)
    requires p > 0
    ensures B * p > 0 && x % (B * p) == x % p + x / p % B * p
  {
    Euclid(x, p);
    QuotientIsNat(x, p);
    Euclid(x / p, B);
    NextDigit(x, p, x / p, x % p, x / p / B, x / p % B);
    DivModUnique(x, B * p, x / p / B, x % p + x / p % B * p);
  }

  lemma NextDigit(x: nat, p: nat, q: nat, r: nat, h: nat, d: nat)
    requires x == q * p + r && q == h * B + d && r < p && d < B
    ensures x == h * (B * p) + (r + d * p) && r + d * p < B * p
  {
    TopDigit(d, r, p);
    assert (h * B + d) * p == h * B * p + d * p;
    assert h * B * p == h * (B * p);
  }

  /** Words that are the digits of x make up x, as far as they go. */
  lemma {:induction false} DigitsGive(s: seq<Word>, x: nat)
    requires forall i :: 0 <= i < |s| ==> s[i] == Digit(x, i)
    ensures Val(s) == x % BPow(|s|)
  {
    hide BPow, Digit;
    if s == [] {
      BPowStep(0);
    } else {
      var n := |s| - 1;
      forall i | 0 <= i < n ensures s[..n][i] == Digit(x, i) { assert s[i] == Digit(x, i); }
      DigitsGive(s[..n], x);
      DigitIs(x, n);
      BPowStep(n);
      ModNext(x, BPow(n));
    }
  }

  lemma DigitIs(x: nat, i: nat)
    ensures Digit(x, i) == x / BPow(i) % B
  {
  }

  // ---------------------------------------------------------------- two neighbouring words

  /** The source's `(w << k) | c`, where c fills the k bits that come free. */
  function Joined(w: Word, c: nat, k: nat): nat {
    Or(Shl(w, k) % B, c)
  }

  /** A shifted word has room for the bits that come in, and nothing else is left of it modulo B. */
  lemma JoinWords(w: Word, c: nat, high: nat, k: nat)
    requires k <= 64 && c < Pow2(k)
    ensures Joined(w, c, k) == (Shl(w, k) + c + high * B) % B
  {
    hide Pow2, Or;
    Pow2Values();
    Pow2Add(64 - k, k);
    var h, l := Split(w, Pow2(64 - k));
    RoomBelow(w, h, l, Pow2(k), Pow2(64 - k), c, high);
    OrDisjoint(l, c, k);
  }

  lemma Split(x: nat, d: nat) returns (q: nat, r: nat)
    requires d > 0
    ensures x == q * d + r && r < d
    ensures x / d == q && x % d == r
  {
    QuotientIsNat(x, d);
    Euclid(x, d);
    q, r := x / d, x % d;
  }

  lemma RoomBelow(w: nat, h: nat, l: nat, q: nat, q': nat, c: nat, high: nat)
    requires w == h * q' + l && l < q' && q' * q == B && c < q
    ensures w * q % B == l * q && (w * q + c + high * B) % B == l * q + c
  {
    assert (h * q' + l) * q == h * (q' * q) + l * q;
    MulMono(l + 1, q', q);
    assert (l + 1) * q == l * q + q;
    DivModUnique(w * q, B, h, l * q);
    DivModUnique(w * q + c + high * B, B, h + high, l * q + c);
  }

  // ---------------------------------------------------------------- a window on neighbouring words

  lemma ShrIs(x: nat, k: nat)
    ensures x / Pow2(k) == Shr(x, k)
  {
  }

  lemma DivSwap(x: nat, p: nat, q: nat)
    requires p > 0 && q > 0
    ensures x / p >= 0 && x / q >= 0 && x / p / q == x / q / p
  {
    QuotientIsNat(x, p);
    QuotientIsNat(x, q);
    DivDiv(x, p, q);
    DivDiv(x, q, p);
    Swap(p, q);
  }

  /** Word i of z >> k, for k up to a whole word, comes from words i and i + 1 of z. */
  lemma Window(z: seq<Word>, k: nat, i: nat)
    requires k <= 64 && i + 1 < |z|
    ensures Digit(Shr(Val(z), k), i) == Joined(z[i + 1], Shr(z[i], k), 64 - k)
  {
    hide Val, Pow2, BPow, Joined;
    DivSwap(Val(z), Pow2(k), BPow(i));
    WordsFrom(z, i);
    TwoWords(z[i..]);
    assert z[i..][1..][1..] == z[i..][2..];
    WindowOf(z[i], z[i + 1], Val(z[i..][2..]), k);
  }

  lemma TwoWords(s: seq<Word>)
    requires |s| >= 2
    ensures Val(s) == s[0] + (s[1] + Val(s[2..]) * B) * B
  {
    LowWord(s);
    LowWord(s[1..]);
    assert s[1..][1..] == s[2..];
  }

  lemma WindowOf(w: Word, next: Word, rest: nat, k: nat)
    requires k <= 64
    ensures (w + (next + rest * B) * B) / Pow2(k) % B == Joined(next, Shr(w, k), 64 - k)
  {
    hide Pow2, Joined, Shl, Shr;
    Pow2Values();
    Pow2Add(64 - k, k);
    ShrIs(w, k);
    ShlIsProduct(next, 64 - k);
    var high := Pieces(w, Shr(w, k), next, rest, Pow2(k), Pow2(64 - k));
    JoinWords(next, Shr(w, k), high, 64 - k);
  }

  /** Dividing three words by q: c of the lowest is left, and the middle one moves down. */
  lemma Pieces(w: Word, c: nat, next: nat, rest: nat, q: nat, q': nat) returns (high: nat)
    requires q > 0 && q' * q == B && c == w / q
    ensures c < q' && (w + (next + rest * B) * B) / q == next * q' + c + high * B
  {
    high := rest * q';
    ShiftWord(w, next + rest * B, q, q');
    QuotientBetween(w, q, 0, q');
    MovedDown(next, rest, q');
  }

  lemma MovedDown(next: nat, rest: nat, q: nat)
    ensures (next + rest * B) * q == next * q + rest * q * B
  {
  }

  /** A shift by whole words takes one word or the other. */
  lemma WholeWordShift(w: Word, next: Word)
    ensures Joined(next, Shr(w, 64), 0) == next && Joined(next, Shr(w, 0), 64) == w
  {
    hide Pow2, Or;
    Pow2Values();
    Pow2Zero();
    OrZero(next);
    OrZero(w);
    DivModUnique(w, B, 0, w);
    DivModUnique(w, 1, w, 0);
    DivModUnique(next * B, B, next, 0);
    SmallMod(next, B);
  }

  function Copies(w: Word, n: nat): (s: seq<Word>)
    ensures |s| == n && forall i :: 0 <= i < n ==> s[i] == w
  {
    seq(n, _ => w)
  }

  // ---------------------------------------------------------------- shifting left

  /** Shifting left is shifting the number right that has zero words below it. */
  lemma LeftIsWindow(a: seq<Word>, ws: nat, bs: nat)
    requires bs < 64
    ensures Shr(Val(Copies(0, ws + 1) + a), 64 - bs) == Shl(Val(a), 64 * ws + bs)
  {
    hide Val, Pow2;
    var zeros := Copies(0, ws + 1);
    var z := zeros + a;
    ValSplit(z, ws + 1);
    assert z[..ws + 1] == zeros && z[ws + 1..] == a;
    ValZeros(zeros);
    BPowIs(ws + 1);
    Pow2Add(64 * ws + bs, 64 - bs);
    ExactQuotient(Val(a), Pow2(64 * ws + bs), Pow2(64 - bs));
  }

  lemma ExactQuotient(v: nat, p: nat, q: nat)
    requires q > 0
    ensures v * (p * q) / q == v * p
  {
    assert v * (p * q) == v * p * q;
    DivModUnique(v * (p * q), q, v * p, 0);
  }

  /** shl_n; `r` may be `a`. */
  method ShlN(r: array<Word>, a: array<Word>, shift: nat)
    requires r.Length == a.Length
    modifies r
    ensures Val(r[..]) == Shl(old(Val(a[..])), shift) % BPow(r.Length)
  {
    hide Val, Pow2, BPow, Shl, Shr, Or, Digit;
    var ws, bs := shift / 64, shift % 64;
    ghost var x := a[..];
    ghost var z := Copies(0, ws + 1) + x;
    LeftIsWindow(x, ws, bs);
    var i := r.Length - 1;
    while i >= 0
      invariant -1 <= i < r.Length
      invariant forall j :: 0 <= j <= i ==> a[j] == x[j]
      invariant forall j :: i < j < r.Length ==> r[j] == Digit(Shl(Val(x), shift), j)
    {
      var lo := if i >= ws then a[i - ws] else 0;
      var hi := if i > ws then a[i - ws - 1] else 0;
      Window(z, 64 - bs, i);
      assert z[i] == hi && z[i + 1] == lo;
      if bs == 0 { WholeWordShift(hi, lo); }
      r[i] := if bs == 0 then lo else Joined(lo, Shr(hi, 64 - bs), bs);
      i := i - 1;
    }
    DigitsGive(r[..], Shl(Val(x), shift));
  }

  // ---------------------------------------------------------------- shifting right

  /** x >> k for a number of either sign, rounding down. */
  function Sar(x: int, k: nat): int {
    x / Pow2(k)
  }

  /** Copying a fill word on top: zeros leave the number, ones make it negative. */
  function Filled(v: int, ones: bool, nw: nat): int {
    if ones then v - BPow(nw) else v
  }

  /** A word array with copies of the fill word on top stands for the filled number, up to a
  multiple of its own width. */
  lemma CopiesOnTop(a: seq<Word>, ones: bool, n: nat)
    ensures Val(a + Copies(if ones then B - 1 else 0, n))
         == Filled(Val(a), ones, |a|) + if ones then BPow(|a| + n) else 0
  {
    hide Val, BPow;
    var top := Copies(if ones then B - 1 else 0, n);
    ValSplit(a + top, |a|);
    assert (a + top)[..|a|] == a && (a + top)[|a|..] == top;
    BPowAdd(n, |a|);
    if ones {
      OnesExactly(top);
      OnesScaled(BPow(n), BPow(|a|));
    } else {
      ValZeros(top);
    }
  }

  /** A shift by whole words drops words. */
  lemma RightIsWindow(z: seq<Word>, ws: nat, bs: nat)
    requires ws <= |z|
    ensures Shr(Val(z[ws..]), bs) == Shr(Val(z), 64 * ws + bs)
  {
    hide Val, BPow, Pow2;
    WordsFrom(z, ws);
    SplitPow2(64 * ws + bs, ws, bs);
    ShiftTwice(Val(z), 64 * ws + bs, BPow(ws), bs);
  }

  /** What lies above the words that are kept does not matter. */
  lemma FilledShift(v: nat, ones: bool, nw: nat, ws: nat, bs: nat)
    requires bs < 64 && v < BPow(nw)
    ensures Filled(v, ones, nw) + (if ones then BPow(nw + ws + 1) else 0) >= 0
    ensures Shr(Filled(v, ones, nw) + (if ones then BPow(nw + ws + 1) else 0), 64 * ws + bs) % BPow(nw)
         == Sar(Filled(v, ones, nw), 64 * ws + bs) % BPow(nw)
  {
    if ones {
      var k := 64 * ws + bs;
      Pow2Add(64 * nw + (64 - bs), k);
      Pow2Add(64 * nw, 64 - bs);
      Pow2Mono(64 * nw, 64 * (nw + ws + 1));
      BPowIs(nw);
      BPowIs(nw + ws + 1);
      hide Pow2, BPow;
      FilledQuotient(v - BPow(nw), Pow2(k), BPow(nw), Pow2(64 - bs));
    }
  }

  lemma FilledQuotient(x: int, d: nat, p: nat, e: nat)
    requires d > 0 && p > 0
    ensures (x + p * e * d) / d % p == x / d % p
  {
    var q, r := x / d, x % d;
    assert x == q * d + r;
    assert (q + p * e) * d == q * d + p * e * d;
    DivModUnique(x + p * e * d, d, q + p * e, r);
    MultipleVanishes(q, e, p, 1);
    assert e * (p * 1) == p * e;
  }

  /** shr_n; `r` may be `a`. */
  method ShrN(r: array<Word>, a: array<Word>, shift: nat, ones: bool)
    requires r.Length == a.Length
    modifies r
    ensures Val(r[..]) == Sar(Filled(old(Val(a[..])), ones, r.Length), shift) % BPow(r.Length)
  {
    hide Val, Pow2, BPow, Shl, Shr, Or, Digit, Sar, Filled;
    var nw := a.Length;
    var fill: Word := if ones then B - 1 else 0;
    var ws, bs := shift / 64, shift % 64;
    ghost var x := a[..];
    ghost var z := x + Copies(fill, ws + 1);
    RightIsWindow(z, ws, bs);
    for i := 0 to nw
      invariant forall j :: i <= j < nw ==> a[j] == x[j]
      invariant forall j :: 0 <= j < i ==> r[j] == Digit(Shr(Val(z), shift), j)
    {
      var hi := if i + ws < nw then a[i + ws] else fill;
      var lo := if i + ws + 1 < nw then a[i + ws + 1] else fill;
      Window(z[ws..], bs, i);
      assert z[ws..][i] == hi && z[ws..][i + 1] == lo;
      if bs == 0 { WholeWordShift(hi, lo); }
      r[i] := if bs == 0 then hi else Joined(lo, Shr(hi, bs), 64 - bs);
    }
    DigitsGive(r[..], Shr(Val(z), shift));
    CopiesOnTop(x, ones, ws + 1);
    ValBound(x);
    FilledShift(Val(x), ones, nw, ws, bs);
  }

  // ---------------------------------------------------------------- shifts at any width

  /** extract_shift: the shift count, or the width when the count is at least that.  The width is a C
  `unsigned`, so a count that needs a second word is above it. */
  method ExtractShift(b: array<Word>, numbits: nat) returns (shift: nat)
    requires 0 < numbits < 0x1_0000_0000 && b.Length == NWords(numbits)
    ensures shift == if Val(b[..]) >= numbits then numbits else Val(b[..])
  {
    hide Val;
    LowWord(b[..]);
    for i := 1 to b.Length
      invariant forall j :: 1 <= j < i ==> b[j] == 0
    {
      if b[i] != 0 {
        ZerosExactly(b[1..]);
        assert b[1..][i - 1] == b[i];
        return numbits;
      }
    }
    ValZeros(b[1..]);
    shift := if b[0] >= numbits then numbits else b[0];
  }

  /** Shifting out every bit. */
  lemma AllShiftedOut(x: nat, numbits: nat, k: nat)
    requires k >= numbits
    ensures Shl(x, k) % Pow2(numbits) == 0
  {
    hide Pow2;
    Pow2Add(k - numbits, numbits);
    assert Shl(x, k) == x * (Pow2(k - numbits) * Pow2(numbits));
    ZeroModulo(x, Pow2(k - numbits), Pow2(numbits));
  }

  lemma ZeroModulo(x: nat, y: nat, p: nat)
    requires p > 0
    ensures x * (y * p) % p == 0
  {
    assert x * (y * p) == x * y * p;
    DivModUnique(x * (y * p), p, x * y, 0);
  }

  /** Cutting to whole words first changes nothing. */
  lemma CutTwice(x: int, numbits: nat, nw: nat)
    requires numbits <= 64 * nw
    ensures x % BPow(nw) % Pow2(numbits) == Wrap(x, numbits)
  {
    hide Pow2, BPow;
    var p := BPow(nw);
    var q, r := x / p, x % p;
    assert x == r + q * p;
    WordsVanish(r, q, numbits, nw);
  }

  /** APInt_shl */
  method ShiftLeft(numbits: nat, pa: seq<Word>, pb: seq<Word>) returns (r: array<Word>)
    requires 0 < numbits < 0x1_0000_0000 && |pa| == |pb| == NWords(numbits)
    ensures Holds(r[..], numbits)
    ensures Val(r[..]) == Wrap(Shl(Wrap(Val(pa), numbits), Wrap(Val(pb), numbits)), numbits)
  {
    hide Val, Pow2, BPow, Shl;
    var a := Load(pa, numbits);
    var b := Load(pb, numbits);
    ghost var x, n := Val(a[..]), Val(b[..]);
    var shift := ExtractShift(b, numbits);
    r := new Word[a.Length];
    ShlN(r, a, shift);
    CutTwice(Shl(x, shift), numbits, r.Length);
    MaskTop(r, numbits);
    if n >= numbits {
      AllShiftedOut(x, numbits, numbits);
      AllShiftedOut(x, numbits, n);
    }
  }

  /** Shifting out every bit of a number of either sign leaves its sign. */
  lemma OnlySignLeft(x: int, numbits: nat, k: nat)
    requires -(Pow2(numbits) as int) <= x < Pow2(numbits) && k >= numbits
    ensures Sar(x, k) == if x < 0 then -1 else 0
  {
    Pow2Mono(numbits, k);
    var p := Pow2(k);
    DivModUnique(x, p, if x < 0 then -1 else 0, if x < 0 then x + p else x);
  }

  lemma ReadingInWidth(v: nat, numbits: nat, isSigned: bool)
    requires numbits > 0 && v < Pow2(numbits)
    ensures -(Pow2(numbits) as int) <= Reading(v, numbits, isSigned) < Pow2(numbits)
  {
  }

  /** APInt_lshr and APInt_ashr */
  method ShiftRight(numbits: nat, pa: seq<Word>, pb: seq<Word>, isSigned: bool) returns (r: array<Word>)
    requires 0 < numbits < 0x1_0000_0000 && |pa| == |pb| == NWords(numbits)
    ensures Holds(r[..], numbits)
    ensures Val(r[..]) == Wrap(Sar(Reading(Wrap(Val(pa), numbits), numbits, isSigned), Wrap(Val(pb), numbits)), numbits)
  {
    hide Val, Pow2, BPow, Sar, Extended, Filled;
    var a := Load(pa, numbits);
    var b := Load(pb, numbits);
    ghost var x, n := Val(a[..]), Val(b[..]);
    ghost var reading := Reading(x, numbits, isSigned);
    var shift := ExtractShift(b, numbits);
    var signBit := IsNegative(a, numbits);
    SignBit(x, numbits);
    var neg := isSigned && signBit;
    if neg {
      assert a[..NWords(numbits)] == a[..];
      Extend(a, numbits, isSigned);
    }
    SignFill(x, numbits, isSigned, a.Length, Val(a[..]));
    r := new Word[a.Length];
    ShrN(r, a, shift, neg);
    CutTwice(Sar(reading, shift), numbits, r.Length);
    MaskTop(r, numbits);
    if n >= numbits {
      ReadingInWidth(x, numbits, isSigned);
      OnlySignLeft(reading, numbits, numbits);
      OnlySignLeft(reading, numbits, n);
    }
  }

  /** The sign-extended words, with ones above them, stand for the signed number. */
  lemma SignFill(x: nat, numbits: nat, isSigned: bool, nw: nat, v: nat)
    requires numbits > 0 && x < Pow2(numbits) && numbits <= 64 * nw
    requires v == if isSigned && x >= Pow2(numbits - 1) then Extended(Reading(x, numbits, isSigned), nw) else x
    ensures Filled(v, isSigned && x >= Pow2(numbits - 1), nw) == Reading(x, numbits, isSigned)
  {
    hide Pow2, BPow;
    ReadingInWidth(x, numbits, isSigned);
    Pow2Mono(numbits, 64 * nw);
    BPowIs(nw);
    ExtendedIs(Reading(x, numbits, isSigned), nw);
  }
}
