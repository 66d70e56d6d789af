/** Little-endian arrays of 64-bit words and the natural numbers they stand for (src/APInt.c). */
module Words {
  import opened Bits

  const B: nat := 0x1_0000_0000_0000_0000

  type Word = w: nat | w < 0x1_0000_0000_0000_0000

  /* Word i of an array has the weight BPow(i) = 2^(64 i), and Val adds the words up with their weights.
  The lemmas take a number apart at a word, find a word or a single bit of it, and say what replacing a
  word changes. */

  /** The weight of word i. */
  function BPow(i: nat): (r: nat)
    ensures r >= 1
  {
    Pow2(64 * i)
  }

  function Val(s: seq<Word>): nat {
    if s == [] then 0 else Val(s[..|s| - 1]) + s[|s| - 1] * BPow(|s| - 1)
  }

  lemma BPowStep(i: nat)
    ensures BPow(i + 1) == B * BPow(i)
    ensures BPow(0) == 1
  {
    Pow2Values();
    Pow2Add(64, 64 * i);
  }

  lemma BPowAdd(i: nat, j: nat)
    ensures BPow(i + j) == BPow(i) * BPow(j)
  {
    Pow2Add(64 * i, 64 * j);
  }

  lemma ValNext(s: seq<Word>, i: nat)
    requires i < |s|
    ensures Val(s[..i + 1]) == Val(s[..i]) + s[i] * BPow(i)
  {
    assert s[..i + 1][..i] == s[..i];
  }

  lemma ValEmpty()
    ensures Val([]) == 0
  {
  }

  lemma ValPush(s: seq<Word>, w: Word)
    ensures Val(s + [w]) == Val(s) + w * BPow(|s|)
  {
    assert (s + [w])[..|s|] == s;
  }

  lemma ValWhole(s: seq<Word>)
    ensures s[..|s|] == s
  {
  }

  lemma TopDigit(w: Word, low: nat, p: nat)
    requires low < p
    ensures low + w * p < B * p
  {
    MulMono(w + 1, B, p);
    assert (w + 1) * p == w * p + p;
  }

  lemma {:induction false} ValBound(s: seq<Word>)
    ensures Val(s) < BPow(|s|)
  {
    if s != [] {
      ValBound(s[..|s| - 1]);
      BPowStep(|s| - 1);
      TopDigit(s[|s| - 1], Val(s[..|s| - 1]), BPow(|s| - 1));
    }
  }

  lemma ValZeros(s: seq<Word>)
    requires forall i :: 0 <= i < |s| ==> s[i] == 0
    ensures Val(s) == 0
  {
    if s != [] { ValZeros(s[..|s| - 1]); }
  }

  lemma ZerosExactly(s: seq<Word>)
    ensures Val(s) == 0 <==> forall j :: 0 <= j < |s| ==> s[j] == 0
  {
    if s != [] {
      ZerosExactly(s[..|s| - 1]);
      ZeroDigit(Val(s[..|s| - 1]), s[|s| - 1], BPow(|s| - 1));
      assert forall j :: 0 <= j < |s| - 1 ==> s[..|s| - 1][j] == s[j];
    }
  }

  lemma ZeroDigit(low: nat, w: nat, p: nat)
    requires p > 0
    ensures low + w * p == 0 <==> low == 0 && w == 0
  {
    if w > 0 { MulMono(1, w, p); }
  }

  /** All words full of ones. */
  lemma {:induction false} OnesExactly(s: seq<Word>)
    ensures Val(s) == BPow(|s|) - 1 <==> forall j :: 0 <= j < |s| ==> s[j] == B - 1
  {
    hide BPow;
    if s == [] {
      BPowStep(0);
    } else {
      var n := |s| - 1;
      OnesExactly(s[..n]);
      ValBound(s[..n]);
      BPowStep(n);
      OnesDigit(Val(s[..n]), s[n], BPow(n));
      assert forall j :: 0 <= j < n ==> s[..n][j] == s[j];
    }
  }

  lemma OnesDigit(low: nat, w: Word, p: nat)
    requires low < p
    ensures low + w * p == B * p - 1 <==> low == p - 1 && w == B - 1
  {
    assert (B - 1) * p == B * p - p;
    if w < B - 1 { MulMono(w + 1, B - 1, p); assert (w + 1) * p == w * p + p; }
  }

  lemma BPowIs(i: nat)
    ensures BPow(i) == Pow2(64 * i)
  {
  }

  /** The words from i on, seen from word i. */
  lemma {:induction false} ValSplit(s: seq<Word>, i: nat)
    requires i <= |s|
    ensures Val(s) == Val(s[..i]) + Val(s[i..]) * BPow(i)
    decreases |s|
  {
    hide BPow;
    if i == |s| {
      assert s[..i] == s && s[i..] == [];
    } else {
      var n := |s| - 1;
      var t := s[..n];
      ValSplit(t, i);
      assert t[..i] == s[..i];
      assert s[i..][..n - i] == t[i..];
      BPowAdd(n - i, i);
      Distr(Val(t[i..]), s[n], BPow(n - i), BPow(i));
    }
  }

  lemma Distr(v: nat, w: nat, p: nat, q: nat)
    ensures (v + w * p) * q == v * q + w * (p * q)
  {
    assert w * p * q == w * (p * q);
  }

  /** The lowest word, and the others. */
  lemma LowWord(s: seq<Word>)
    requires |s| >= 1
    ensures Val(s) == s[0] + Val(s[1..]) * B
  {
    hide BPow, Val;
    ValSplit(s, 1);
    ValNext(s, 0);
    BPowStep(0);
    assert s[..0] == [];
    ValEmpty();
  }

  /** The middle digit of a number in base B. */
  lemma MiddleDigit(low: nat, w: Word, high: nat, p: nat)
    requires low < p
    ensures (low + w * p + high * (B * p)) / p % B == w
  {
    var q := w + high * B;
    assert q * p == w * p + high * (B * p);
    DivModUnique(q * p + low, p, q, low);
    DivModUnique(q, B, high, w);
  }

  lemma WordAt(s: seq<Word>, i: nat)
    requires i < |s|
    ensures s[i] == Val(s) / BPow(i) % B
    ensures Val(s) == Val(s[..i]) + s[i] * BPow(i) + Val(s[i + 1..]) * BPow(i + 1)
  {
    hide BPow;
    ValSplit(s, i + 1);
    ValNext(s, i);
    ValBound(s[..i]);
    BPowStep(i);
    MiddleDigit(Val(s[..i]), s[i], Val(s[i + 1..]), BPow(i));
  }

  lemma ValUpdate(s: seq<Word>, i: nat, w: Word)
    requires i < |s|
    ensures Val(s[i := w]) + s[i] * BPow(i) == Val(s) + w * BPow(i)
  {
    WordAt(s, i);
    WordAt(s[i := w], i);
    assert s[i := w][..i] == s[..i] && s[i := w][i + 1..] == s[i + 1..];
  }

  /** Bit k of the number is bit k % 64 of word k / 64. */
  lemma BitAt(s: seq<Word>, k: nat)
    requires k / 64 < |s|
    ensures Val(s) / Pow2(k) % 2 == s[k / 64] / Pow2(k % 64) % 2
  {
    hide Pow2, Val, BPow;
    var i, j := k / 64, k % 64;
    WordAt(s, i);
    SplitPow2(k, i, j);
    ShiftTwice(Val(s), k, BPow(i), j);
    Pow2Values();
    BitOfResidue(Val(s) / BPow(i), j, 64);
  }

  lemma SplitPow2(k: nat, i: nat, j: nat)
    requires k == 64 * i + j
    ensures Pow2(k) == BPow(i) * Pow2(j)
  {
    Pow2Add(64 * i, j);
  }

  lemma ShiftTwice(x: nat, k: nat, p: nat, j: nat)
    requires p > 0 && Pow2(k) == p * Pow2(j)
    ensures x / Pow2(k) == x / p / Pow2(j)
  {
    DivDiv(x, p, Pow2(j));
  }

  lemma Pow2Zero()
    ensures Pow2(0) == 1
  {
  }

  lemma LowestBitOfResidue(x: nat, m: nat)
    requires m > 0
    ensures x / Pow2(0) % 2 == x % Pow2(m) / Pow2(0) % 2
  {
    hide Pow2;
    Pow2Zero();
    ModPow2(x, m);
    LowBit(x % Pow2(m), x / 2 % Pow2(m - 1), x);
  }

  lemma LowBit(y: nat, h: nat, x: nat)
    requires y == 2 * h + x % 2
    ensures y / 1 % 2 == x / 1 % 2 && y / 2 == h
  {
  }

  lemma HalfOfResidue(x: nat, m: nat)
    requires m > 0
    ensures x % Pow2(m) / 2 == x / 2 % Pow2(m - 1)
  {
    hide Pow2;
    ModPow2(x, m);
    LowBit(x % Pow2(m), x / 2 % Pow2(m - 1), x);
  }

  lemma {:induction false} BitOfResidue(x: nat, j: nat, m: nat)
    requires j < m
    ensures x / Pow2(j) % 2 == x % Pow2(m) / Pow2(j) % 2
    decreases j
  {
    hide Pow2;
    if j == 0 {
      LowestBitOfResidue(x, m);
    } else {
      BitOfResidue(x / 2, j - 1, m - 1);
      HalfOfResidue(x, m);
      BitAtNextPlace(x, x / 2, j);
      BitAtNextPlace(x % Pow2(m), x / 2 % Pow2(m - 1), j);
    }
  }

  lemma BitAtNextPlace(x: nat, h: nat, j: nat)
    requires j > 0 && h == x / 2
    ensures x / Pow2(j) % 2 == h / Pow2(j - 1) % 2
  {
    hide Pow2;
    DivPow2(x, j);
  }
}
