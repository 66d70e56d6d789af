/** Converting a multi-word integer to floating point with a single rounding (src/APInt.c). */
module APIntFloat {
  import opened Bits
  import opened Words
  import opened APIntArith
  import opened Rounding

  /** sig * 2^exp == v */
  predicate SameNumber(sig: nat, exp: int, v: nat) {
    if exp >= 0 then sig * Pow2(exp) == v else sig == v * Pow2(-exp)
  }

  lemma CancelPowers(s: nat, up: nat, v: nat, down: nat)
    requires s * Pow2(up) == v * Pow2(down)
    ensures SameNumber(s, up - down, v)
  {
    hide Pow2;
    if up >= down {
      Pow2Add(up - down, down);
      Cancel(s, Pow2(up - down), Pow2(down), v);
    } else {
      Pow2Add(down - up, up);
      Cancel(v, Pow2(down - up), Pow2(up), s);
    }
  }

  lemma Cancel(x: nat, a: nat, b: nat, y: nat)
    requires b > 0 && x * (a * b) == y * b
    ensures x * a == y
  {
    Assoc(x, a, b);
    CompareScaled(x * a, y, b);
  }

  /** __builtin_clzll */
  function LeadingZeros(w: Word): nat
    requires w > 0
  {
    BitLenSmall(w, 64);
    Pow2Values();
    64 - BitLen(w)
  }

  // ---------------------------------------------------------------- normalization

  /** Shifting a two-part number left: what leaves the low part enters the high part. */
  lemma ShiftLow(lo: Word, low2: nat, p: nat, lz: nat)
    requires low2 < p && lz < 64
    ensures var s, low := Pow2(lz), low2 + lo * p;
      && low * s / (B * p) == Shr(lo, 64 - lz)
      && (low * s % (B * p) == 0 <==> lo * s % B == 0 && low2 == 0)
  {
    hide Pow2;
    Pow2Values();
    Pow2Add(64 - lz, lz);
    var s, t := Pow2(lz), Pow2(64 - lz);
    var u, w := lo / t, lo % t;
    Euclid(lo, t);
    ShiftedWord(u, w, s, t, lo);
    ShiftedPair(u, w, low2, s, t, p, lo);
  }

  lemma ShiftedWord(u: nat, w: nat, s: nat, t: nat, lo: nat)
    requires s > 0 && w < t && t * s == B && lo == u * t + w
    ensures lo * s == u * B + w * s && w * s + s <= B && lo * s % B == w * s
    ensures w * s == 0 <==> w == 0
  {
    assert (u * t + w) * s == u * (t * s) + w * s;
    MulMono(w + 1, t, s);
    assert (w + 1) * s == w * s + s;
    DivModUnique(lo * s, B, u, w * s);
    if w > 0 { MulMono(1, w, s); }
  }

  lemma ShiftedPair(u: nat, w: nat, low2: nat, s: nat, t: nat, p: nat, lo: nat)
    requires s > 0 && low2 < p && lo * s == u * B + w * s && w * s + s <= B
    requires w * s == 0 <==> w == 0
    ensures (low2 + lo * p) * s / (B * p) == u
    ensures (low2 + lo * p) * s % (B * p) == 0 <==> w == 0 && low2 == 0
  {
    var x := w * s;
    PairSum(low2, lo, p, s, u, x);
    PairRest(low2, p, s, x);
    DivModUnique((low2 + lo * p) * s, B * p, u, x * p + low2 * s);
  }

  lemma PairSum(low2: nat, lo: nat, p: nat, s: nat, u: nat, x: nat)
    requires lo * s == u * B + x
    ensures (low2 + lo * p) * s == u * (B * p) + (x * p + low2 * s)
  {
    assert (low2 + lo * p) * s == low2 * s + lo * p * s;
    assert lo * p * s == lo * s * p;
    assert (u * B + x) * p == u * B * p + x * p;
    assert u * B * p == u * (B * p);
  }

  lemma PairRest(low2: nat, p: nat, s: nat, x: nat)
    requires s > 0 && low2 < p && x + s <= B
    ensures x * p + low2 * s < B * p
    ensures x * p + low2 * s == 0 <==> x == 0 && low2 == 0
  {
    MulMono(x + s, B, p);
    assert (x + s) * p == x * p + s * p;
    MulMono(low2 + 1, p, s);
    assert (low2 + 1) * s == low2 * s + s;
    assert s * p == p * s;
    if x > 0 { MulMono(1, x, p); }
    if low2 > 0 { MulMono(1, low2, s); }
  }

  /** The normalized number in three parts: kept bits, dropped bits of the top word, the rest. */
  lemma NormalizedParts(hi: nat, low: nat, p: nat, lz: nat)
    requires p > 0
    ensures Shl(low + hi * p, lz) == (Shl(hi, lz) + Shl(low, lz) / p) * p + Shl(low, lz) % p
  {
    hide Pow2;
    PartsSum(hi, low, p, Pow2(lz));
  }

  lemma PartsSum(hi: nat, low: nat, p: nat, s: nat)
    requires p > 0
    ensures (low + hi * p) * s == (hi * s + low * s / p) * p + low * s % p
  {
    Euclid(low * s, p);
    var c := low * s / p;
    assert (low + hi * p) * s == low * s + hi * p * s;
    assert hi * p * s == hi * s * p;
    assert (hi * s + c) * p == hi * s * p + c * p;
  }

  lemma KeptAndDropped(top: nat, below: nat, p: nat, unit: nat) returns (t: nat, rest: nat)
    requires below < p && unit > 0
    ensures t == top / unit && rest < unit * p
    ensures top * p + below == t * (unit * p) + rest
    ensures rest == 0 <==> top % unit == 0 && below == 0
  {
    var d := top % unit;
    t, rest := top / unit, d * p + below;
    Euclid(top, unit);
    assert (t * unit + d) * p == t * unit * p + d * p;
    assert t * unit * p == t * (unit * p);
    MulMono(d + 1, unit, p);
    assert (d + 1) * p == d * p + p;
    if d > 0 { MulMono(1, d, p); }
  }

  /** A 64-bit word with its top bit set, shifted right, keeps exactly the bits asked for. */
  lemma KeptBits(top: nat, kept: nat)
    requires 0 < kept <= 64 && BitLen(top) == 64
    ensures BitLen(top / Pow2(64 - kept)) == kept
  {
    hide Pow2, BitLen;
    BitLenBounds(top);
    var unit, t := Pow2(64 - kept), top / Pow2(64 - kept);
    Pow2Add(kept - 1, 64 - kept);
    Pow2Add(kept, 64 - kept);
    Pow2Mono(kept - 1, 63);
    QuotientBetween(top, unit, Pow2(kept - 1), Pow2(kept));
    BitLenIs(t, kept);
  }

  lemma QuotientBetween(x: nat, d: nat, a: nat, b: nat)
    requires d > 0 && a * d <= x < b * d
    ensures a <= x / d < b
  {
    var q := x / d;
    Euclid(x, d);
    assert (q + 1) * d == q * d + d;
    if q < a { MulMono(q + 1, a, d); }
    if q >= b { MulMono(b, q, d); }
  }

  /** hi << lz puts the top bit of hi at bit 63; the bits that come in below leave it there. */
  lemma TopNormalized(hi: Word, lz: nat, c: nat)
    requires hi > 0 && lz == LeadingZeros(hi) && c < Pow2(lz)
    ensures lz < 64 && Shl(hi, lz) + c < B && BitLen(Shl(hi, lz) + c) == 64
  {
    hide Pow2, BitLen;
    BitLenBounds(hi);
    Pow2Values();
    BitLenSmall(hi, 64);
    LongerBits(hi, c, lz);
    BitLenSmall(Shl(hi, lz) + c, 64);
  }

  lemma IncomingBits(lo: Word, lz: nat)
    requires lz < 64
    ensures Shr(lo, 64 - lz) < Pow2(lz)
  {
    hide Pow2;
    Pow2Values();
    Pow2Add(lz, 64 - lz);
    QuotientBetween(lo, Pow2(64 - lz), 0, Pow2(lz));
  }

  // ---------------------------------------------------------------- the conversion

  /** The words above `hw` are zero, word `hw` is not, and `low2` stands for the words below
  word hw - 1, which only matter through the sticky bit. */
  ghost predicate TopTwo(v: nat, hw: nat, hi: Word, lo: Word, low2: nat) {
    && hi > 0
    && v == LowPart(hw, lo, low2) + hi * BPow(hw)
    && (if hw == 0 then lo == 0 && low2 == 0 else low2 < BPow(hw - 1))
  }

  ghost function LowPart(hw: nat, lo: Word, low2: nat): nat {
    if hw == 0 then 0 else low2 + lo * BPow(hw - 1)
  }

  /** What the code extracts from the top two words is the normalized number with its low
  bits replaced by a sticky bit: t has mbits + 2 bits, and rest is what is below them. */
  lemma ExtractIsJam(v: nat, hw: nat, hi: Word, lo: Word, low2: nat, lz: nat, c: nat, mbits: nat)
    returns (t: nat, rest: nat)
    requires TopTwo(v, hw, hi, lo, low2) && 0 < mbits <= 53
    requires lz == LeadingZeros(hi) < 64 && c == Shr(lo, 64 - lz)
    ensures var top, unit := Shl(hi, lz) + c, Pow2(62 - mbits);
      && top < B && t == top / unit && BitLen(t) == mbits + 2
      && rest < Pow2(64 * hw + 62 - mbits)
      && Shl(v, lz) == Shl(t, 64 * hw + 62 - mbits) + rest
      && (rest > 0 <==> top % unit != 0 || Shl(lo, lz) % B != 0 || low2 != 0)
  {
    hide Pow2, BitLen, LeadingZeros, Shl, LowPart, BPow;
    var p, low, unit := BPow(hw), LowPart(hw, lo, low2), Pow2(62 - mbits);
    IncomingBits(lo, lz);
    TopNormalized(hi, lz, c);
    var top := Shl(hi, lz) + c;
    KeptBits(top, mbits + 2);
    ShiftLowPart(hw, lo, low2, lz);
    NormalizedParts(hi, low, p, lz);
    t, rest := KeptAndDropped(top, Shl(low, lz) % p, p, unit);
    SplitPow2(64 * hw + 62 - mbits, hw, 62 - mbits);
    ShlIs(t, 64 * hw + 62 - mbits, unit, p);
  }

  lemma ShlIs(t: nat, k: nat, unit: nat, p: nat)
    requires Pow2(k) == p * unit
    ensures Shl(t, k) == t * (unit * p) && Pow2(k) == unit * p
  {
  }

  lemma ShiftLowPart(hw: nat, lo: Word, low2: nat, lz: nat)
    requires lz < 64
    requires if hw == 0 then lo == 0 && low2 == 0 else low2 < BPow(hw - 1)
    ensures var low := Shl(LowPart(hw, lo, low2), lz);
      && low / BPow(hw) == Shr(lo, 64 - lz)
      && (low % BPow(hw) == 0 <==> Shl(lo, lz) % B == 0 && low2 == 0)
  {
    hide Pow2, BPow;
    if hw > 0 {
      BPowStep(hw - 1);
      ShiftLow(lo, low2, BPow(hw - 1), lz);
    } else {
      BPowStep(0);
      ZeroOver(Pow2(64 - lz));
    }
  }

  lemma ZeroOver(d: nat)
    requires d > 0
    ensures 0 / d == 0
  {
  }

  /** One rounding: the extracted bits, rounded to a double and then to `mbits` bits, give the
  integer itself rounded to `mbits` bits. */
  lemma SingleRounding(v: nat, lz: nat, k: nat, t: nat, rest: nat, mbits: nat)
    requires v > 0 && 0 < mbits <= 53 && BitLen(t) == mbits + 2 && rest < Pow2(k)
    requires Shl(v, lz) == Shl(t, k) + rest
    ensures SameNumber(Round(mbits, Round(53, Jam(t, rest))), k - lz, Round(mbits, v))
  {
    hide BitLen, Pow2, Round, Jam, SameNumber;
    JamBits(t, rest, mbits);
    JamRounds(mbits, t, rest, k);
    RoundScaled(mbits, v, lz);
    DoubleKeepsRounding(mbits, Jam(t, rest));
    CancelPowers(Round(mbits, Jam(t, rest)), k, Round(mbits, v), lz);
  }

  /** The search for the highest non-zero word. */
  method HighestWord(a: array<Word>) returns (hw: int)
    ensures -1 <= hw < a.Length
    ensures hw == -1 ==> Val(a[..]) == 0
    ensures hw >= 0 ==> a[hw] != 0 && Val(a[..]) == Val(a[..hw]) + a[hw] * BPow(hw)
  {
    hide Val, BPow;
    hw := a.Length - 1;
    while hw >= 0 && a[hw] == 0
      invariant -1 <= hw < a.Length
      invariant forall i :: hw < i < a.Length ==> a[i] == 0
    {
      hw := hw - 1;
    }
    ZerosAbove(a[..], hw + 1);
    if hw >= 0 {
      ValNext(a[..], hw);
      assert a[..][..hw] == a[..hw];
    }
  }

  lemma ZerosAbove(s: seq<Word>, n: nat)
    requires n <= |s| && forall i :: n <= i < |s| ==> s[i] == 0
    ensures Val(s) == Val(s[..n])
    ensures n == 0 ==> Val(s) == 0
  {
    hide BPow;
    ValSplit(s, n);
    ValZeros(s[n..]);
  }

  /** The loop that looks for bits below the top two words. */
  method AnyBelow(a: array<Word>, n: nat) returns (any: bool)
    requires n <= a.Length
    ensures any <==> Val(a[..n]) != 0
  {
    hide Val;
    ZerosExactly(a[..n]);
    var i := n - 1;
    while i >= 0
      invariant -1 <= i < n
      invariant forall j :: i < j < n ==> a[j] == 0
    {
      if a[i] != 0 {
        assert a[..n][i] != 0;
        return true;
      }
      i := i - 1;
    }
    assert forall j :: 0 <= j < n ==> a[..n][j] == a[j];
    return false;
  }

  /** uint_to_fp: the double sig * 2^exp, which rounds to `mbits` bits like the integer. */
  method UintToFp(a: array<Word>, mbits: nat) returns (sig: nat, exp: int)
    requires 0 < mbits <= 53
    ensures Val(a[..]) == 0 ==> sig == 0
    ensures Val(a[..]) > 0 ==> SameNumber(Round(mbits, sig), exp, Round(mbits, Val(a[..])))
    ensures Round(53, sig) == sig
    ensures Representable(mbits, sig) <==> FitsLosslessly(mbits, Val(a[..]))
  {
    hide Val, BPow, Pow2, Round, SameNumber, Jam, LeadingZeros, TopTwo, BitLen, Shl, Shr;
    var hw := HighestWord(a);
    if hw < 0 {
      RoundOfZero(53);
      RoundOfZero(mbits);
      return 0, 0;
    }
    var hi := a[hw];
    var lo := if hw > 0 then a[hw - 1] else 0;
    ghost var low2 := if hw > 1 then Val(a[..hw - 1]) else 0;
    SplitTop(a[..], hw, hi, lo, low2);
    var lz := LeadingZeros(hi);
    var shift := 64 - mbits - 2;
    var m, sticky := TopBits(hi, lo, lz, shift);
    if !sticky && hw > 1 {
      sticky := AnyBelow(a, hw - 1);
    }
    ghost var t, rest := ExtractIsJam(Val(a[..]), hw, hi, lo, low2, lz, Shr(lo, 64 - lz), mbits);
    JamIsOr(m, rest);
    m := Or(m, if sticky then 1 else 0);
    SingleRounding(Val(a[..]), lz, 64 * hw + 62 - mbits, t, rest, mbits);
    LosslessExactly(Val(a[..]), lz, 64 * hw + 62 - mbits, t, rest, mbits);
    RoundTwice(m);
    sig := Round(53, m);
    exp := hw * 64 + shift - lz;
  }

  /** The top two words are normalized, and the upper bits extracted. */
  method TopBits(hi: Word, lo: Word, lz: nat, shift: nat) returns (m: nat, sticky: bool)
    requires hi > 0 && lz == LeadingZeros(hi)
    ensures lz < 64
    ensures var top := Shl(hi, lz) + Shr(lo, 64 - lz);
      m == top / Pow2(shift) && (sticky <==> top % Pow2(shift) != 0 || Shl(lo, lz) % B != 0)
  {
    hide Pow2, LeadingZeros, BitLen, Shl, Shr, Or;
    if lz > 0 {
      Normalize(hi, lo, lz);
      m, sticky := Extract(Or(Shl(hi, lz) % B, Shr(lo, 64 - lz)), Shl(lo, lz) % B, shift);
    } else {
      NoShift(hi, lo, lz);
      m, sticky := Extract(hi, lo, shift);
    }
  }

  /** The kept bits of the normalized top word, and whether anything else was seen so far. */
  method Extract(hiN: nat, loN: nat, shift: nat) returns (m: nat, sticky: bool)
    ensures m == hiN / Pow2(shift)
    ensures sticky <==> hiN % Pow2(shift) != 0 || loN != 0
  {
    hide Pow2, And;
    AndOnes(hiN, shift);
    m := hiN / Pow2(shift);
    sticky := And(hiN, Pow2(shift) - 1) != 0 || loN != 0;
  }

  lemma SplitTop(s: seq<Word>, hw: nat, hi: Word, lo: Word, low2: nat)
    requires hw < |s| && hi == s[hw] > 0 && Val(s) == Val(s[..hw]) + hi * BPow(hw)
    requires lo == if hw > 0 then s[hw - 1] else 0
    requires low2 == if hw > 1 then Val(s[..hw - 1]) else 0
    ensures TopTwo(Val(s), hw, hi, lo, low2) && Val(s) > 0
  {
    MulMono(1, hi, BPow(hw));
    if hw > 0 {
      ValNext(s, hw - 1);
      ValBound(s[..hw - 1]);
    }
  }

  /** The shifts of the top two words, as the code writes them. */
  lemma Normalize(hi: Word, lo: Word, lz: nat)
    requires hi > 0 && lz == LeadingZeros(hi) && lz > 0
    ensures lz < 64 && Or(Shl(hi, lz) % B, Shr(lo, 64 - lz)) == Shl(hi, lz) + Shr(lo, 64 - lz)
  {
    hide Pow2, BitLen, Or, Shl, Shr, LeadingZeros;
    TopNormalized(hi, lz, 0);
    IncomingBits(lo, lz);
    JoinBits(hi, Shr(lo, 64 - lz), lz);
  }

  lemma JoinBits(hi: nat, c: nat, lz: nat)
    requires c < Pow2(lz) && Shl(hi, lz) < B
    ensures Or(Shl(hi, lz) % B, c) == Shl(hi, lz) + c
  {
    hide Pow2, Or, Shl;
    OrDisjoint(hi, c, lz);
    ShlIsProduct(hi, lz);
    SmallMod(Shl(hi, lz), B);
  }

  lemma ShlIsProduct(x: nat, k: nat)
    ensures Shl(x, k) == x * Pow2(k)
  {
  }

  lemma NoShift(hi: Word, lo: Word, lz: nat)
    requires hi > 0 && lz == LeadingZeros(hi) == 0
    ensures hi == Shl(hi, lz) + Shr(lo, 64 - lz) && lo == Shl(lo, lz) % B
  {
    hide Pow2, LeadingZeros;
    Pow2Values();
    Pow2Zero();
    DivModUnique(lo, B, 0, lo);
  }

  lemma JamIsOr(m: nat, rest: nat)
    ensures Or(m, if rest > 0 then 1 else 0) == Jam(m, rest)
  {
    OrZero(m);
    OrZero(m / 2);
  }

  lemma RoundTwice(m: nat)
    ensures Round(53, Round(53, m)) == Round(53, m)
  {
    if BitLen(m) <= 53 {
      RoundShort(53, m);
    } else {
      BitLenBounds(m);
      RoundLong(m, BitLen(m) - 53);
    }
  }

  lemma RoundLong(m: nat, e: nat)
    requires BitLen(m) == 53 + e && m < Pow2(53 + e)
    ensures Round(53, Round(53, m)) == Round(53, m)
  {
    hide Pow2, BitLen, Round, RoundTo;
    Pow2Add(53, e);
    RoundIs(53, m, e, Pow2(e));
    RoundToIs(m, Pow2(e));
    QuotientBetween(m, Pow2(e), 0, Pow2(53));
    RoundExact(53, m / Pow2(e), e);
    RoundExact(53, m / Pow2(e) + 1, e);
  }

  lemma RoundToIs(v: nat, unit: nat)
    requires unit > 0
    ensures RoundTo(v, unit) == v / unit * unit || RoundTo(v, unit) == (v / unit + 1) * unit
  {
  }

  // ---------------------------------------------------------------- what the result is not

  /* The comment above uint_to_fp says that the double fits `mbits` bits without loss.  It does not: two
  extra bits are kept, and the cast that follows is what rounds. */

  /** x has no more than p significant bits. */
  predicate Representable(p: nat, x: nat) {
    Round(p, x) == x
  }

  /** When the comment is right.  At 53 bits the double itself is the result.  At 52 bits it rounds away
  the last bit, and what is left fits except for integers of exactly 53 bits.  Below, the double does not
  round, so that only what fits already does. */
  predicate FitsLosslessly(mbits: nat, v: nat) {
    if mbits == 53 then true
    else if mbits == 52 then Representable(52, v) || !Representable(53, v)
    else Representable(mbits, v)
  }

  lemma RoundToFixed(x: nat, unit: nat)
    requires unit > 0
    ensures RoundTo(x, unit) == x <==> x % unit == 0
  {
    var q, r := x / unit, x % unit;
    assert (q + 1) * unit == q * unit + unit;
  }

  lemma RemainderOf(t: nat, rest: nat, s: nat, n: nat)
    requires rest < s && n > 0
    ensures n * s > 0 && (t * s + rest) % (n * s) == 0 <==> t % n == 0 && rest == 0
  {
    var q, d := t / n, t % n;
    ScaledDigits(q, d, n, s);
    MulMono(d + 1, n, s);
    assert (d + 1) * s == d * s + s;
    DivModUnique(t * s + rest, n * s, q, d * s + rest);
    if d > 0 { MulMono(1, d, s); }
  }

  /** An integer fits p + i bits exactly if nothing was dropped from, or below, the bits t that are kept. */
  lemma RepresentableExactly(v: nat, lz: nat, k: nat, t: nat, rest: nat, p: nat, i: nat)
    requires v > 0 && p > 0 && i <= 2 && BitLen(t) == p + i && rest < Pow2(k) && Shl(v, lz) == Shl(t, k) + rest
    ensures Representable(p, v) <==> t % Pow2(i) == 0 && rest == 0
  {
    hide BitLen, Pow2, Round, RoundTo;
    var x := t * Pow2(k) + rest;
    RoundScaled(p, v, lz);
    CompareScaled(Round(p, v), v, Pow2(lz));
    LongerBits(t, rest, k);
    Pow2Add(i, k);
    RoundIs(p, x, i + k, Pow2(i + k));
    RoundToFixed(x, Pow2(i + k));
    RemainderOf(t, rest, Pow2(k), Pow2(i));
  }

  lemma JamRemainder(t: nat, rest: nat)
    ensures Jam(t, rest) % 4 == 0 <==> t % 4 == 0 && rest == 0
    ensures Jam(t, rest) % 4 == 2 <==> t % 4 == 2 && rest == 0
  {
    var h, b := t / 2, t % 2;
    FourWays(h, b);
    FourWays(h, 1);
  }

  lemma FourWays(h: nat, b: nat)
    requires b < 2
    ensures (2 * h + b) % 4 == 2 * (h % 2) + b
  {
  }

  /** Rounding to multiples of 2 gives what rounding to multiples of 4 gives, except half-way. */
  lemma HalfWay(j: nat)
    ensures RoundTo(j, 4) == RoundTo(j, 2) <==> j % 4 != 2
  {
    var q, d := j / 4, j % 4;
    DivModUnique(j, 2, 2 * q + d / 2, d % 2);
  }

  /** The comment's exact condition, on the integer that is converted. */
  lemma LosslessExactly(v: nat, lz: nat, k: nat, t: nat, rest: nat, mbits: nat)
    requires v > 0 && 0 < mbits <= 53 && BitLen(t) == mbits + 2 && rest < Pow2(k)
    requires Shl(v, lz) == Shl(t, k) + rest
    ensures Representable(mbits, Round(53, Jam(t, rest))) <==> FitsLosslessly(mbits, v)
  {
    hide BitLen, Pow2, Round, Jam, Shl, Representable;
    JamBits(t, rest, mbits);
    RepresentableExactly(v, lz, k, t, rest, mbits, 2);
    JamRemainder(t, rest);
    SmallPowers();
    if mbits == 52 {
      RepresentableExactly(v, lz, k, t, rest, 53, 1);
      Halved4(t);
      RoundedAt52(Jam(t, rest));
    } else {
      RoundedElsewhere(mbits, Jam(t, rest));
    }
  }

  lemma Halved4(t: nat)
    ensures t % 2 == 0 <==> t % 4 == 0 || t % 4 == 2
  {
  }

  lemma RoundedAt52(j: nat)
    requires BitLen(j) == 54
    ensures Representable(52, Round(53, j)) <==> j % 4 != 2
  {
    hide BitLen, Pow2, Round, RoundTo;
    SmallPowers();
    DoubleKeepsRounding(52, j);
    RoundIs(52, j, 2, 4);
    RoundIs(53, j, 1, 2);
    HalfWay(j);
  }

  lemma RoundedElsewhere(mbits: nat, j: nat)
    requires 0 < mbits <= 53 && mbits != 52 && BitLen(j) == mbits + 2
    ensures Representable(mbits, Round(53, j)) <==> mbits == 53 || j % 4 == 0
  {
    hide BitLen, Pow2, Round, RoundTo;
    SmallPowers();
    DoubleKeepsRounding(mbits, j);
    RoundIs(mbits, j, 2, 4);
    if mbits <= 51 {
      RoundShort(53, j);
      RoundToFixed(j, 4);
    }
  }

  lemma Width26()
    ensures Pow2(25) == 0x200_0000 && Pow2(26) == 0x400_0000 && Pow2(0) == 1 && Pow2(2) == 4
  {
    Pow2Values();
    Pow2Add(24, 1);
    Pow2Add(24, 2);
  }

  /** 2^25 + 1 does not fit the 24 bits of a single. */
  lemma TooLongForSingle()
    ensures !FitsLosslessly(24, 0x200_0001)
  {
    hide Pow2, Round, BitLen;
    Width26();
    BitLenIs(0x200_0001, 26);
    RoundIs(24, 0x200_0001, 2, 4);
    RoundToFixed(0x200_0001, 4);
  }

  /** Converting 2^25 + 1 for a single keeps all 26 bits. */
  method NotLossless() returns (sig: nat, exp: int)
    ensures !Representable(24, sig)
  {
    hide Val, BPow, Pow2, Round, SameNumber;
    var a := new Word[1];
    a[0] := 0x200_0001;
    OneWord(a[..]);
    TooLongForSingle();
    sig, exp := UintToFp(a, 24);
  }

  lemma OneWord(s: seq<Word>)
    requires |s| == 1
    ensures Val(s) == s[0]
  {
    BPowStep(0);
    ValEmpty();
    assert s[..0] == [];
  }
}
