/** Rounding a natural number to p significant bits, ties to even (section 4.3.1 of
IEEE 754-2008), with an unbounded exponent range. */
module Rounding {
  import opened Bits

  function BitLen(v: nat): nat {
    if v == 0 then 0 else 1 + BitLen(v / 2)
  }

  /** The multiple of `unit` that is nearest to v, the even multiple if two are equally near. */
  function RoundTo(v: nat, unit: nat): nat
    requires unit > 0
  {
    var q, r := v / unit, v % unit;
    if 2 * r > unit || (2 * r == unit && q % 2 == 1) then (q + 1) * unit else q * unit
  }

  function RoundAt(v: nat, e: nat): nat {
    RoundTo(v, Pow2(e))
  }

  /** v rounded to p significant bits. */
  function Round(p: nat, v: nat): nat {
    RoundAt(v, if BitLen(v) <= p then 0 else BitLen(v) - p)
  }

  function Distance(x: int, y: int): nat {
    if x < y then y - x else x - y
  }

  /** What rounding means: the result is a multiple of the unit, no other multiple is nearer, and
  a multiple that is as near is the odd one. */
  lemma RoundToIsNearest(v: nat, unit: nat, k: nat) returns (n: nat)
    requires unit > 0
    ensures RoundTo(v, unit) == n * unit
    ensures Distance(n * unit, v) <= Distance(k * unit, v)
    ensures n != k && Distance(n * unit, v) == Distance(k * unit, v) ==> k % 2 == 1 && n % 2 == 0
  {
    Euclid(v, unit);
    n := NearestMultiple(v, unit, v / unit, v % unit, k);
  }

  lemma NearestMultiple(v: nat, unit: nat, q: nat, r: nat, k: nat) returns (n: nat)
    requires v == q * unit + r && r < unit
    ensures n == if 2 * r > unit || (2 * r == unit && q % 2 == 1) then q + 1 else q
    ensures Distance(n * unit, v) <= Distance(k * unit, v)
    ensures n != k && Distance(n * unit, v) == Distance(k * unit, v) ==> k % 2 == 1 && n % 2 == 0
  {
    n := if 2 * r > unit || (2 * r == unit && q % 2 == 1) then q + 1 else q;
    Neighbours(q, k, unit);
    Nearest(v, q * unit, r, unit, k * unit, q, k);
  }

  /** The case analysis, with every product named. */
  lemma Nearest(v: nat, base: nat, r: nat, unit: nat, other: nat, q: nat, k: nat)
    requires v == base + r && r < unit
    requires k < q ==> other + unit <= base
    requires k == q ==> other == base
    requires k == q + 1 ==> other == base + unit
    requires k > q + 1 ==> base + 2 * unit <= other
    ensures var up := 2 * r > unit || (2 * r == unit && q % 2 == 1);
      var n, rounded := if up then q + 1 else q, if up then base + unit else base;
      && Distance(rounded, v) <= Distance(other, v)
      && (n != k && Distance(rounded, v) == Distance(other, v) ==> k % 2 == 1 && n % 2 == 0)
  {
  }

  lemma Neighbours(q: nat, k: nat, unit: nat)
    ensures (q + 1) * unit == q * unit + unit
    ensures k < q ==> k * unit + unit <= q * unit
    ensures k > q + 1 ==> q * unit + 2 * unit <= k * unit
  {
    if k < q { MulMono(k + 1, q, unit); assert (k + 1) * unit == k * unit + unit; }
    if k > q + 1 { MulMono(q + 2, k, unit); assert (q + 2) * unit == q * unit + 2 * unit; }
  }

  // ---------------------------------------------------------------- bit lengths

  lemma {:induction false} BitLenBounds(v: nat)
    requires v > 0 || BitLen(v) > 0
    ensures v > 0 && BitLen(v) > 0 && Pow2(BitLen(v) - 1) <= v < Pow2(BitLen(v))
  {
    if v > 1 { BitLenBounds(v / 2); }
  }

  lemma {:induction false} BitLenIs(v: nat, n: nat)
    requires n > 0 && Pow2(n - 1) <= v < Pow2(n)
    ensures BitLen(v) == n
  {
    if n > 1 { BitLenIs(v / 2, n - 1); }
  }

  lemma {:induction false} BitLenSmall(v: nat, n: nat)
    ensures v < Pow2(n) <==> BitLen(v) <= n
  {
    if v > 0 && n > 0 { BitLenSmall(v / 2, n - 1); }
  }

  lemma {:induction false} BitLenShifted(v: nat, k: nat)
    requires v > 0
    ensures v * Pow2(k) > 0 && BitLen(v * Pow2(k)) == BitLen(v) + k
  {
    MulMono(1, v, Pow2(k));
    if k > 0 {
      BitLenShifted(v, k - 1);
      Shifted(v, k);
    }
  }

  // ---------------------------------------------------------------- scaling

  lemma RoundAtZero(v: nat)
    ensures RoundAt(v, 0) == v
  {
    assert Pow2(0) == 1;
  }

  lemma RoundAtMultiple(q: nat, e: nat)
    ensures RoundAt(q * Pow2(e), e) == q * Pow2(e)
  {
    DivModUnique(q * Pow2(e), Pow2(e), q, 0);
  }

  lemma ScaledDigits(q: nat, r: nat, p: nat, s: nat)
    requires r < p && s > 0
    ensures (q * p + r) * s == q * (p * s) + r * s && r * s < p * s
    ensures (q + 1) * (p * s) == (q + 1) * p * s && q * (p * s) == q * p * s
    ensures 2 * (r * s) == 2 * r * s
  {
    MulMono(r + 1, p, s);
    assert (r + 1) * s == r * s + s;
    assert (q * p + r) * s == q * p * s + r * s;
    assert q * p * s == q * (p * s);
    assert (q + 1) * p * s == (q + 1) * (p * s);
  }

  lemma CompareScaled(x: nat, y: nat, s: nat)
    requires s > 0
    ensures x > y <==> x * s > y * s
    ensures x == y <==> x * s == y * s
  {
    if x > y { MulMono(y + 1, x, s); assert (y + 1) * s == y * s + s; }
    if x < y { MulMono(x + 1, y, s); assert (x + 1) * s == x * s + s; }
  }

  lemma RoundToScaled(v: nat, p: nat, s: nat)
    requires p > 0 && s > 0
    ensures p * s > 0 && RoundTo(v * s, p * s) == RoundTo(v, p) * s
  {
    var q, r := v / p, v % p;
    assert v == q * p + r;
    ScaledDigits(q, r, p, s);
    DivModUnique(v * s, p * s, q, r * s);
    CompareScaled(2 * r, p, s);
  }

  /** Rounding does not depend on the position of the binary point. */
  lemma RoundScaled(p: nat, v: nat, k: nat)
    requires v > 0
    ensures Round(p, v * Pow2(k)) == Round(p, v) * Pow2(k)
  {
    hide Pow2, RoundTo, BitLen, Round;
    BitLenShifted(v, k);
    var n := BitLen(v);
    if n > p {
      RoundToScaled(v, Pow2(n - p), Pow2(k));
      Pow2Add(n - p, k);
      RoundIs(p, v, n - p, Pow2(n - p));
      RoundIs(p, v * Pow2(k), n - p + k, Pow2(n - p + k));
    } else {
      RoundShort(p, v);
      if n + k <= p {
        RoundShort(p, v * Pow2(k));
      } else {
        var e := n + k - p;
        Pow2Add(k - e, e);
        Assoc(v, Pow2(k - e), Pow2(e));
        RoundAtMultiple(v * Pow2(k - e), e);
        RoundIs(p, v * Pow2(k), e, Pow2(e));
      }
    }
  }

  /** Numbers with at most p significant bits stay as they are. */
  lemma RoundExact(p: nat, q: nat, e: nat)
    requires q <= Pow2(p) && p > 0
    ensures Round(p, q * Pow2(e)) == q * Pow2(e)
  {
    hide RoundAt, Pow2, BitLen;
    RoundOfZero(p);
    if q > 0 {
      RoundScaled(p, q, e);
      if q == Pow2(p) {
        RoundOfOne(p);
        RoundScaled(p, 1, p);
      } else {
        BitLenSmall(q, p);
        RoundAtZero(q);
      }
    }
  }

  lemma RoundOfOne(p: nat)
    requires p > 0
    ensures Round(p, 1) == 1
  {
    RoundAtZero(1);
  }

  lemma RoundOfZero(p: nat)
    ensures Round(p, 0) == 0
  {
    RoundAtZero(0);
  }

  /** Rounding a number that has e bits too many. */
  lemma RoundIs(p: nat, v: nat, e: nat, unit: nat)
    requires BitLen(v) == p + e && unit == Pow2(e)
    ensures Round(p, v) == RoundTo(v, unit)
  {
  }

  lemma RoundShort(p: nat, v: nat)
    requires BitLen(v) <= p
    ensures Round(p, v) == v
  {
    RoundAtZero(v);
  }

  // ---------------------------------------------------------------- the sticky bit

  /** The low bits of a number replaced by a single bit that says whether there were any. */
  function Jam(top: nat, rest: nat): nat {
    if rest > 0 && top % 2 == 0 then top + 1 else top
  }

  lemma JamBits(t: nat, rest: nat, p: nat)
    requires BitLen(t) == p + 2
    ensures BitLen(Jam(t, rest)) == p + 2
  {
    hide Pow2, BitLen, Jam;
    BitLenBounds(t);
    FourTimes(p);
    JamBelow(t, rest, Pow2(p));
    BitLenIs(Jam(t, rest), p + 2);
  }

  lemma JamBelow(t: nat, rest: nat, p: nat)
    requires t < 4 * p
    ensures t <= Jam(t, rest) < 4 * p
  {
    if t % 2 == 0 {
      var h := t / 2;
      assert t == 2 * h && h < 2 * p;
    }
  }

  /** The last two bits, jammed. */
  lemma JamDigits(t: nat, rest: nat) returns (q: nat, d: nat, e: nat)
    ensures t == 4 * q + d && d < 4 && t / 4 == q && t % 4 == d
    ensures e == (if rest > 0 && (d == 0 || d == 2) then d + 1 else d)
    ensures Jam(t, rest) == 4 * q + e && Jam(t, rest) / 4 == q && Jam(t, rest) % 4 == e
  {
    q, d := t / 4, t % 4;
    e := if rest > 0 && (d == 0 || d == 2) then d + 1 else d;
    JamOf(t, rest, q, d);
    DivModUnique(4 * q + e, 4, q, e);
  }

  lemma JamOf(t: nat, rest: nat, q: nat, d: nat)
    requires t == 4 * q + d && d < 4
    ensures Jam(t, rest) == 4 * q + if rest > 0 && (d == 0 || d == 2) then d + 1 else d
  {
    DivModUnique(t, 2, 2 * q + d / 2, d % 2);
  }

  /** The case analysis on the two bits below the last kept one, s standing for 2^K. */
  lemma JamDecides(t: nat, rest: nat, s: nat)
    requires rest < s
    ensures RoundTo(t * s + rest, 4 * s) == RoundTo(Jam(t, rest), 4) * s
  {
    hide Jam;
    var q, d, e := JamDigits(t, rest);
    QuarterDigits(q, d, rest, s);
    DivModUnique(t * s + rest, 4 * s, q, d * s + rest);
    HalfOfQuarter(d, e, rest, s);
  }

  lemma HalfOfQuarter(d: nat, e: nat, rest: nat, s: nat)
    requires d < 4 && rest < s && e == if rest > 0 && (d == 0 || d == 2) then d + 1 else d
    ensures 2 * e > 4 <==> 2 * (d * s + rest) > 4 * s
    ensures 2 * e == 4 <==> 2 * (d * s + rest) == 4 * s
  {
    if d == 0 {
      assert d * s == 0;
    } else if d == 1 {
      assert d * s == s;
    } else if d == 2 {
      assert d * s == 2 * s;
    } else {
      assert d * s == 3 * s;
    }
  }

  lemma QuarterDigits(q: nat, d: nat, rest: nat, s: nat)
    requires rest < s && d < 4
    ensures (4 * q + d) * s + rest == q * (4 * s) + (d * s + rest)
    ensures d * s + rest < 4 * s
    ensures q * 4 * s == q * (4 * s) && (q + 1) * 4 * s == (q + 1) * (4 * s)
  {
    assert (4 * q + d) * s == q * (4 * s) + d * s;
    MulMono(d + 1, 4, s);
    assert (d + 1) * s == d * s + s;
  }

  /** Jamming keeps the result of rounding: two extra bits are enough. */
  lemma JamRounds(p: nat, t: nat, rest: nat, k: nat)
    requires p > 0 && BitLen(t) == p + 2 && rest < Pow2(k)
    ensures Round(p, Jam(t, rest)) * Pow2(k) == Round(p, t * Pow2(k) + rest)
  {
    hide Pow2, BitLen, RoundTo, Jam, Round;
    JamBits(t, rest, p);
    LongerBits(t, rest, k);
    FourTimes(k);
    SmallPowers();
    JamDecides(t, rest, Pow2(k));
    RoundIs(p, Jam(t, rest), 2, 4);
    RoundIs(p, t * Pow2(k) + rest, k + 2, Pow2(k + 2));
  }

  lemma FourTimes(k: nat)
    ensures Pow2(k + 2) == 4 * Pow2(k)
  {
  }

  lemma LongerBits(t: nat, rest: nat, k: nat)
    requires BitLen(t) > 0 && rest < Pow2(k)
    ensures BitLen(t * Pow2(k) + rest) == BitLen(t) + k
  {
    hide BitLen;
    BitLenBounds(t);
    var n := BitLen(t);
    Pow2Add(n - 1, k);
    Pow2Add(n, k);
    MulMono(Pow2(n - 1), t, Pow2(k));
    MulMono(t + 1, Pow2(n), Pow2(k));
    assert (t + 1) * Pow2(k) == t * Pow2(k) + Pow2(k);
    BitLenIs(t * Pow2(k) + rest, n + k);
  }

  /** Rounding to 53 bits first does no harm to a jammed number of p + 2 bits, p <= 53. */
  lemma DoubleKeepsRounding(p: nat, m: nat)
    requires 0 < p <= 53 && BitLen(m) == p + 2
    ensures Round(p, Round(53, m)) == Round(p, m)
  {
    hide BitLen, Pow2, RoundTo, Round;
    if p <= 51 {
      RoundShort(53, m);
    } else {
      BitLenBounds(m);
      SmallPowers();
      QuarterSmall(m, p);
      var q := m / 4;
      RoundExact(p, q, 2);
      RoundExact(p, q + 1, 2);
      RoundIs(p, m, 2, 4);
      if p == 53 {
        RoundToChoices(m);
      } else {
        RoundIs(53, m, 1, 2);
        OneBitAway(m);
      }
    }
  }

  lemma QuarterSmall(m: nat, p: nat)
    requires m < Pow2(p + 2)
    ensures m / 4 + 1 <= Pow2(p)
  {
    assert Pow2(p + 2) == 4 * Pow2(p);
  }

  lemma RoundToChoices(m: nat)
    ensures RoundTo(m, 4) == m / 4 * 4 || RoundTo(m, 4) == (m / 4 + 1) * 4
  {
  }

  /** At 52 bits the double itself rounds away one bit, and that does no harm either. */
  lemma OneBitAway(m: nat)
    ensures var q := m / 4;
      || (RoundTo(m, 2) == m)
      || (RoundTo(m, 2) == RoundTo(m, 4) == q * 4)
      || (RoundTo(m, 2) == RoundTo(m, 4) == (q + 1) * 4)
  {
  }
}
