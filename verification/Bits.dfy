/** Bitwise operations on natural numbers, with the few laws the rest of the project needs.
A C word of width w is a natural number below Pow2(w); `x >> k` is x / Pow2(k) and `x << k`
is x * Pow2(k), reduced modulo Pow2(w) where the C type cuts it off.

The bitwise operators are defined by recursion over the binary digits, lowest first, so that their
laws hold for numbers of any length; products and quotients by powers of two are kept in lemmas of
their own, with the power as a plain number. */
module Bits {

  function Pow2(n: nat): (r: nat)
    ensures r >= 1
  {
    if n == 0 then 1 else 2 * Pow2(n - 1)
  }

  lemma {:induction false} Pow2Add(m: nat, n: nat)
    ensures Pow2(m + n) == Pow2(m) * Pow2(n)
  {
    if m == 0 {
    } else {
      Pow2Add(m - 1, n);
      assert Pow2(m) * Pow2(n) == 2 * (Pow2(m - 1) * Pow2(n));
    }
  }

  lemma {:induction false} Pow2Mono(m: nat, n: nat)
    requires m <= n
    ensures Pow2(m) <= Pow2(n)
  {
    if m < n { Pow2Mono(m, n - 1); }
  }

  /** x << k, without a limit on the width. */
  function Shl(x: nat, k: nat): nat {
    x * Pow2(k)
  }

  /** x >> k, so written where the quotient is beside the point. */
  function Shr(x: nat, k: nat): nat {
    QuotientIsNat(x, Pow2(k));
    x / Pow2(k)
  }

  lemma QuotientIsNat(x: nat, d: nat)
    requires d > 0
    ensures x / d >= 0
  {
    var q: int, r: int := x / d, x % d;
    WholeQuotient(x, d, q, r);
  }

  lemma WholeQuotient(x: nat, d: nat, q: int, r: int)
    requires d > 0 && x == q * d + r && r < d
    ensures q >= 0
  {
    if q < 0 {
      Larger(0 - q, d);
      Opposite(q, d);
    }
  }

  lemma Opposite(q: int, d: int)
    ensures (0 - q) * d == 0 - q * d
  {
  }

  lemma Pow2Values()
    ensures Pow2(8) == 0x100
    ensures Pow2(16) == 0x1_0000
    ensures Pow2(24) == 0x100_0000
    ensures Pow2(32) == 0x1_0000_0000
    ensures Pow2(64) == 0x1_0000_0000_0000_0000
  {
    assert Pow2(4) == 0x10;
    Pow2Add(4, 4);
    Pow2Add(8, 8);
    Pow2Add(16, 8);
    Pow2Add(16, 16);
    Pow2Add(32, 32);
  }

  lemma SmallPowers()
    ensures Pow2(0) == 1 && Pow2(1) == 2 && Pow2(2) == 4 && Pow2(6) == 64 && Pow2(8) == 256
  {
    Pow2Add(2, 4);
    Pow2Values();
  }

  /** Quotient and remainder are unique. */
  lemma DivModUnique(x: int, d: int, q: int, r: int)
    requires 0 <= r < d && x == q * d + r
    ensures x / d == q && x % d == r
  {
    var q', r' := x / d, x % d;
    assert x == q' * d + r' && 0 <= r' < d;
    assert (q - q') * d == q * d - q' * d == r' - r;
    if q > q' {
      Larger(q - q', d);
    } else if q < q' {
      Larger(q' - q, d);
    }
  }

  lemma Euclid(a: nat, d: nat)
    requires d > 0
    ensures a == a / d * d + a % d
  {
  }

  lemma Larger(k: int, d: int)
    requires k >= 1 && d >= 0
    ensures k * d >= d
  {
  }

  lemma Halved(p: nat)
    requires p > 0
    ensures (2 * p - 1) / 2 == p - 1 && (2 * p - 1) % 2 == 1
  {
  }

  /** Dividing by 2 * p one binary digit at a time. */
  lemma DivModDouble(x: nat, p: nat)
    requires p > 0
    ensures x / (2 * p) == x / 2 / p
    ensures x % (2 * p) == 2 * (x / 2 % p) + x % 2
  {
    var h := x / 2;
    var q, r := h / p, h % p;
    assert h == q * p + r;
    assert q * (2 * p) == 2 * (q * p);
    DivModUnique(x, 2 * p, q, 2 * r + x % 2);
  }

  /** x >> k is x >> 1 >> (k - 1) */
  lemma DivPow2(x: nat, k: nat)
    requires k > 0
    ensures x / Pow2(k) == x / 2 / Pow2(k - 1)
  {
    DivModDouble(x, Pow2(k - 1));
  }

  /** The low k bits, lowest first. */
  lemma ModPow2(x: nat, k: nat)
    requires k > 0
    ensures x % Pow2(k) == 2 * (x / 2 % Pow2(k - 1)) + x % 2
  {
    DivModDouble(x, Pow2(k - 1));
  }

  lemma NonNegative(a: nat, b: nat)
    ensures a * b >= 0
  {
  }

  lemma Assoc(a: nat, b: nat, c: nat)
    ensures a * (b * c) == a * b * c
  {
  }

  lemma Distribute(a: int, b: int, d: int)
    ensures (a - b) * d == a * d - b * d
    ensures (a + b) * d == a * d + b * d
  {
  }

  lemma MulMono(a: nat, b: nat, c: nat)
    requires a <= b
    ensures a * c <= b * c
  {
  }

  /** Shifting twice. */
  lemma DivDiv(x: nat, a: nat, b: nat)
    requires a > 0 && b > 0
    ensures a * b > 0 && x / (a * b) == x / a / b
  {
    Larger(a, b);
    Euclid(x, a);
    Euclid(x / a, b);
    TwoLevels(x, a, b, x / a, x % a, x / a / b, x / a % b);
    DivModUnique(x, a * b, x / a / b, x / a % b * a + x % a);
  }

  lemma TwoLevels(x: nat, a: nat, b: nat, q: nat, r: nat, q': nat, r': nat)
    requires x == q * a + r && q == q' * b + r' && r < a && r' < b
    ensures x == q' * (a * b) + (r' * a + r) && r' * a + r < a * b
  {
    TwoDigits(q', b, r', a, r);
    MulMono(r' + 1, b, a);
    Swap(a, b);
  }

  lemma Swap(a: nat, b: nat)
    ensures a * b == b * a
  {
  }

  lemma TwoDigits(q: nat, b: nat, r: nat, a: nat, low: nat)
    ensures (q * b + r) * a + low == q * (a * b) + (r * a + low)
    ensures (r + 1) * a == r * a + a
  {
    assert (q * b + r) * a == q * b * a + r * a;
    assert q * b * a == q * (a * b);
  }

  // ---------------------------------------------------------------- exclusive or

  function Xor(a: nat, b: nat): nat
    decreases a + b
  {
    if a == 0 && b == 0 then 0 else 2 * Xor(a / 2, b / 2) + (if a % 2 == b % 2 then 0 else 1)
  }

  lemma XorStep(a: nat, b: nat)
    ensures Xor(a, b) / 2 == Xor(a / 2, b / 2)
    ensures Xor(a, b) % 2 == if a % 2 == b % 2 then 0 else 1
  {
  }

  lemma {:induction false} XorZero(a: nat)
    ensures Xor(a, 0) == a && Xor(0, a) == a
  {
    if a > 0 { XorZero(a / 2); }
  }

  lemma {:induction false} XorSelf(a: nat)
    ensures Xor(a, a) == 0
  {
    if a > 0 { XorSelf(a / 2); }
  }

  lemma {:induction false} XorComm(a: nat, b: nat)
    ensures Xor(a, b) == Xor(b, a)
    decreases a + b
  {
    if a + b > 0 { XorComm(a / 2, b / 2); }
  }

  lemma {:induction false} XorAssoc(a: nat, b: nat, c: nat)
    ensures Xor(Xor(a, b), c) == Xor(a, Xor(b, c))
    decreases a + b + c
  {
    if a + b + c > 0 {
      XorStep(a, b);
      XorStep(b, c);
      XorStep(Xor(a, b), c);
      XorStep(a, Xor(b, c));
      XorAssoc(a / 2, b / 2, c / 2);
    }
  }

  /** (a ^ b) ^ (c ^ d) == (a ^ c) ^ (b ^ d) */
  lemma XorSwap(a: nat, b: nat, c: nat, d: nat)
    ensures Xor(Xor(a, b), Xor(c, d)) == Xor(Xor(a, c), Xor(b, d))
  {
    XorAssoc(a, b, Xor(c, d));
    XorAssoc(b, c, d);
    XorComm(b, c);
    XorAssoc(c, b, d);
    XorAssoc(a, c, Xor(b, d));
  }

  lemma {:induction false} XorBound(a: nat, b: nat, k: nat)
    requires a < Pow2(k) && b < Pow2(k)
    ensures Xor(a, b) < Pow2(k)
  {
    if k > 0 { XorBound(a / 2, b / 2, k - 1); }
  }

  lemma Shifted(x: nat, k: nat)
    requires k > 0
    ensures x * Pow2(k) % 2 == 0 && x * Pow2(k) / 2 == x * Pow2(k - 1)
  {
    var y := x * Pow2(k - 1);
    assert x * Pow2(k) == 2 * y;
  }

  /** Words without common bits: ^ is +. */
  lemma {:induction false} XorDisjoint(high: nat, low: nat, k: nat)
    requires low < Pow2(k)
    ensures Xor(low, high * Pow2(k)) == low + high * Pow2(k)
  {
    if k == 0 {
      XorZero(high);
    } else {
      XorDisjoint(high, low / 2, k - 1);
      Shifted(high, k);
    }
  }

  /** Complementing the low k bits. */
  lemma {:induction false} XorOnes(a: nat, k: nat)
    requires a < Pow2(k)
    ensures Xor(a, Pow2(k) - 1) == Pow2(k) - 1 - a
  {
    if k > 0 {
      XorOnes(a / 2, k - 1);
      assert (Pow2(k) - 1) / 2 == Pow2(k - 1) - 1;
    }
  }

  // ---------------------------------------------------------------- inclusive or

  function Or(a: nat, b: nat): nat
    decreases a + b
  {
    if a == 0 && b == 0 then 0 else 2 * Or(a / 2, b / 2) + (if a % 2 == 1 || b % 2 == 1 then 1 else 0)
  }

  lemma {:induction false} OrComm(a: nat, b: nat)
    ensures Or(a, b) == Or(b, a)
    decreases a + b
  {
    if a + b > 0 { OrComm(a / 2, b / 2); }
  }

  lemma {:induction false} OrZero(a: nat)
    ensures Or(a, 0) == a && Or(0, a) == a
  {
    if a > 0 { OrZero(a / 2); }
  }

  /** Words without common bits: | is +. */
  lemma {:induction false} OrDisjoint(high: nat, low: nat, k: nat)
    requires low < Pow2(k)
    ensures Or(high * Pow2(k), low) == high * Pow2(k) + low
  {
    if k == 0 {
      OrZero(high);
    } else {
      OrDisjoint(high, low / 2, k - 1);
      Shifted(high, k);
    }
  }

  lemma OrEven(x: nat, bit: nat)
    requires x % 2 == 0 && bit <= 1
    ensures Or(x, bit) == x + bit
  {
    OrZero(x / 2);
  }

  lemma {:induction false} OrBound(a: nat, b: nat, k: nat)
    requires a < Pow2(k) && b < Pow2(k)
    ensures Or(a, b) < Pow2(k)
  {
    if k > 0 { OrBound(a / 2, b / 2, k - 1); }
  }

  /** Setting a clear bit. */
  lemma {:induction false} OrBit(x: nat, k: nat)
    requires x / Pow2(k) % 2 == 0
    ensures Or(x, Pow2(k)) == x + Pow2(k)
  {
    if k == 0 {
      OrZero(x / 2);
    } else {
      DivPow2(x, k);
      OrBit(x / 2, k - 1);
    }
  }

  // ---------------------------------------------------------------- and

  function And(a: nat, b: nat): nat
    decreases a
  {
    if a == 0 then 0 else 2 * And(a / 2, b / 2) + (if a % 2 == 1 && b % 2 == 1 then 1 else 0)
  }

  /** Masking the low k bits. */
  lemma {:induction false} AndOnes(a: nat, k: nat)
    ensures And(a, Pow2(k) - 1) == a % Pow2(k)
  {
    if k == 0 {
      AndZero(a);
    } else {
      AndOnes(a / 2, k - 1);
      ModPow2(a, k);
      Halved(Pow2(k - 1));
    }
  }

  lemma {:induction false} AndZero(a: nat)
    ensures And(a, 0) == 0
  {
    if a > 0 { AndZero(a / 2); }
  }

  /** Masking all but the low k bits. */
  lemma {:induction false} AndHigh(x: nat, n: nat, k: nat)
    requires k <= n && x < Pow2(n)
    ensures Pow2(k) <= Pow2(n) && And(x, Pow2(n) - Pow2(k)) == x - x % Pow2(k)
  {
    hide And, Pow2;
    Pow2Mono(k, n);
    if k == 0 {
      AllOnes(x, n);
    } else {
      NextPower(n);
      NextPower(k);
      Pow2Mono(k - 1, n - 1);
      HalfBelow(x, n);
      AndHigh(x / 2, n - 1, k - 1);
      AndHighStep(x, Pow2(n - 1), Pow2(k - 1));
    }
  }

  lemma AndHighStep(x: nat, high: nat, low: nat)
    requires 0 < low <= high && And(x / 2, high - low) == x / 2 - x / 2 % low
    ensures And(x, 2 * high - 2 * low) == x - x % (2 * low)
  {
    hide And;
    AndDoubled(x, high - low);
    DivModDouble(x, low);
    Doubled(x, x / 2 % low);
  }

  lemma AllOnes(x: nat, n: nat)
    requires x < Pow2(n)
    ensures And(x, Pow2(n) - Pow2(0)) == x && x % Pow2(0) == 0
  {
    AndOnes(x, n);
    SmallMod(x, Pow2(n));
  }

  lemma NextPower(n: nat)
    requires n > 0
    ensures Pow2(n) == 2 * Pow2(n - 1)
  {
  }

  lemma Doubled(x: nat, r: nat)
    ensures 2 * (x / 2 - r) == x - (2 * r + x % 2)
  {
  }

  lemma HalfBelow(x: nat, n: nat)
    requires n > 0 && x < Pow2(n)
    ensures x / 2 < Pow2(n - 1)
  {
  }

  lemma AndDoubled(x: nat, m: nat)
    ensures And(x, 2 * m) == 2 * And(x / 2, m)
  {
    assert 2 * m / 2 == m && 2 * m % 2 == 0;
    AndEven(x, 2 * m);
  }

  lemma AndEven(x: nat, b: nat)
    requires b % 2 == 0
    ensures And(x, b) == 2 * And(x / 2, b / 2)
  {
  }

  lemma SmallMod(x: nat, d: nat)
    requires x < d
    ensures x % d == x
  {
  }
}
