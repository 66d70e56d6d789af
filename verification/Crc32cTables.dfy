/** The table generators of src/crc32c.c. */
module Crc32cTables {
  import opened Bits
  import opened Crc32c

  /* The slicing tables of the software form, and the GF(2) "append zeros" operator of the three-stream form,
  built by repeated squaring. */

  // ---------------------------------------------------------------- slicing tables

  /** Entry n of table k is the byte n followed by k zero bytes. */
  ghost predicate IsSlicingTable(table: array2<Word32>)
    reads table
  {
    && table.Length0 == 8 && table.Length1 == 256
    && forall k, n :: 0 <= k < 8 && 0 <= n < 256 ==> table[k, n] == Steps(8 * (k + 1), n)
  }

  /** One byte step through table 0. */
  lemma TableStep(c: nat)
    ensures Steps(8, c) == Xor(Steps(8, c % 0x100), c / 0x100)
  {
    hide Steps, Xor, Pow2;
    Pow2Values();
    StepsSplit(8, 0, c % 0x100, c / 0x100);
    NoSteps(c / 0x100);
  }

  lemma NoSteps(c: nat)
    ensures Steps(0, c) == c
  {
  }

  ghost predicate IsFirstTable(table: array2<Word32>)
    reads table
  {
    && table.Length0 == 8 && table.Length1 == 256
    && forall n :: 0 <= n < 256 ==> table[0, n] == Steps(8, n)
  }

  method EightSteps(n: Word32) returns (crc: Word32)
    ensures crc == Steps(8, n)
  {
    crc := n;
    for bit := 0 to 8 // written out eight times in the source
      invariant Steps(8 - bit, crc) == Steps(8, n)
    {
      StepBound(crc);
      crc := if crc % 2 == 1 then Xor(crc / 2, POLY) else crc / 2;
    }
  }

  /** `crc = crc32c_table[0][crc & 0xff] ^ (crc >> 8)` */
  method TableByte(table: array2<Word32>, crc: Word32, ghost k: nat, ghost n: nat) returns (next: Word32)
    requires IsFirstTable(table) && crc == Steps(k, n)
    ensures next == Steps(k + 8, n)
  {
    TableStep(crc);
    StepsAdd(k, 8, n);
    StepsBound(8, crc);
    next := Xor(table[0, crc % 0x100], crc / 0x100);
  }

  /** crc32c_init_sw */
  method InitSw() returns (table: array2<Word32>)
    ensures fresh(table) && IsSlicingTable(table)
  {
    table := new Word32[8, 256];
    for n := 0 to 256
      invariant forall i :: 0 <= i < n ==> table[0, i] == Steps(8, i)
    {
      var crc := EightSteps(n);
      table[0, n] := crc;
    }
    for n := 0 to 256
      invariant IsFirstTable(table)
      invariant forall k, i :: 0 <= k < 8 && 0 <= i < n ==> table[k, i] == Steps(8 * (k + 1), i)
    {
      FillColumn(table, n);
    }
  }

  /** The inner loop of crc32c_init_sw. */
  method FillColumn(table: array2<Word32>, n: nat)
    requires IsFirstTable(table) && n < 256
    modifies table
    ensures IsFirstTable(table)
    ensures forall k :: 0 <= k < 8 ==> table[k, n] == Steps(8 * (k + 1), n)
    ensures forall k, i :: 0 <= k < 8 && 0 <= i < 256 && i != n ==> table[k, i] == old(table[k, i])
  {
    var crc := table[0, n];
    for k := 1 to 8
      invariant IsFirstTable(table) && crc == Steps(8 * k, n)
      invariant forall j :: 0 <= j < k ==> table[j, n] == Steps(8 * (j + 1), n)
      invariant forall j, i :: 0 <= j < 8 && 0 <= i < 256 && i != n ==> table[j, i] == old(table[j, i])
    {
      crc := TableByte(table, crc, 8 * k, n);
      table[k, n] := crc;
    }
  }

  // ---------------------------------------------------------------- matrices over GF(2)

  /** The product of a matrix (given by its columns) and a vector over GF(2). */
  function Times(mat: seq<Word32>, vec: nat): nat
    requires vec < Pow2(|mat|)
    decreases |mat|
  {
    if vec == 0 then 0 else Xor(if vec % 2 == 1 then mat[0] else 0, Times(mat[1..], vec / 2))
  }

  lemma {:induction false} TimesBound(mat: seq<Word32>, vec: nat)
    requires vec < Pow2(|mat|)
    ensures Times(mat, vec) < 0x1_0000_0000
    decreases |mat|
  {
    if vec != 0 {
      TimesBound(mat[1..], vec / 2);
      Pow2Values();
      XorBound(if vec % 2 == 1 then mat[0] else 0, Times(mat[1..], vec / 2), 32);
    }
  }

  lemma TimesNone(mat: seq<Word32>)
    ensures Times(mat, 0) == 0
  {
  }

  /** One turn of the loop in gf2_matrix_times. */
  lemma TimesMore(mat: seq<Word32>, vec: nat, sum: Word32)
    requires 0 < vec < Pow2(|mat|)
    ensures |mat| > 0 && vec / 2 < Pow2(|mat| - 1)
    ensures var sum' := if vec % 2 == 1 then Xor(sum, mat[0]) else sum;
      sum' < 0x1_0000_0000 && Xor(sum', Times(mat[1..], vec / 2)) == Xor(sum, Times(mat, vec))
  {
    hide Xor;
    var term := if vec % 2 == 1 then mat[0] else 0;
    XorAssoc(sum, term, Times(mat[1..], vec / 2));
    Pow2Values();
    XorBound(sum, term, 32);
    XorZero(sum);
  }

  /** gf2_matrix_times */
  method MatrixTimes(mat: array<Word32>, vec: Word32) returns (sum: Word32)
    requires vec < Pow2(mat.Length)
    ensures sum == Times(mat[..], vec)
  {
    hide Xor, Times;
    sum := 0;
    var v: nat, i: nat := vec, 0;
    XorZero(Times(mat[..], vec));
    while v != 0
      invariant 0 <= i <= mat.Length && v < Pow2(mat.Length - i)
      invariant Xor(sum, Times(mat[i..], v)) == Times(mat[..], vec)
      decreases v
    {
      TimesMore(mat[i..], v, sum);
      assert mat[i..][1..] == mat[i + 1..];
      if v % 2 == 1 {
        sum := Xor(sum, mat[i]);
      }
      v := v / 2;
      i := i + 1;
    }
    TimesNone(mat[i..]);
    XorZero(sum);
  }

  /** gf2_matrix_square */
  method MatrixSquare(square: array<Word32>, mat: array<Word32>)
    requires square != mat && square.Length == mat.Length == 32
    modifies square
    ensures forall n :: 0 <= n < 32 ==> mat[n] < Pow2(32) && square[n] == Times(mat[..], mat[n])
  {
    Pow2Values();
    for n := 0 to 32
      invariant forall i :: 0 <= i < n ==> square[i] == Times(mat[..], mat[i])
    {
      square[n] := MatrixTimes(mat, mat[n]);
    }
  }

  // ---------------------------------------------------------------- the zeros operator

  /** `mat` is the matrix of n steps of the register. */
  ghost predicate IsStepsMatrix(mat: seq<Word32>, n: nat) {
    |mat| == 32 && forall i: nat :: i < 32 ==> mat[i] == Steps(n, Pow2(i))
  }

  lemma DigitsTimes(half: nat, bit: nat, p: nat)
    ensures (2 * half + bit) * p == bit * p + half * (2 * p)
  {
  }

  /** Taking off the lowest bit of a vector. */
  lemma LowestBit(vec: nat, from: nat)
    ensures Shl(vec, from) == Xor(if vec % 2 == 1 then Pow2(from) else 0, Shl(vec / 2, from + 1))
  {
    var p, half, bit := Pow2(from), vec / 2, vec % 2;
    XorDisjoint(half, bit * p, from + 1);
    DigitsTimes(half, bit, p);
  }

  /** Column by column, a steps matrix acts as the steps themselves. */
  lemma {:induction false} TimesIsSteps(mat: seq<Word32>, n: nat, from: nat, vec: nat)
    requires IsStepsMatrix(mat, n) && from <= 32
    requires vec < Pow2(32 - from)
    ensures Times(mat[from..], vec) == Steps(n, Shl(vec, from))
    decreases 32 - from
  {
    StepsOfZero(n);
    if vec != 0 {
      assert mat[from..][1..] == mat[from + 1..];
      TimesIsSteps(mat, n, from + 1, vec / 2);
      LowestBit(vec, from);
      StepsLinear(n, if vec % 2 == 1 then Pow2(from) else 0, Shl(vec / 2, from + 1));
    }
  }

  lemma TimesIsStepsOf(mat: seq<Word32>, n: nat, vec: Word32)
    requires IsStepsMatrix(mat, n)
    ensures vec < Pow2(32) && Times(mat, vec) == Steps(n, vec)
  {
    Pow2Values();
    TimesIsSteps(mat, n, 0, vec);
    assert mat[0..] == mat;
  }

  lemma SquareDoubles(mat: seq<Word32>, n: nat, square: seq<Word32>)
    requires IsStepsMatrix(mat, n) && |square| == 32
    requires forall i :: 0 <= i < 32 ==> mat[i] < Pow2(32) && square[i] == Times(mat, mat[i])
    ensures IsStepsMatrix(square, 2 * n)
  {
    forall i: nat | i < 32 ensures square[i] == Steps(2 * n, Pow2(i)) {
      TimesIsStepsOf(mat, n, mat[i]);
      StepsAdd(n, n, Pow2(i));
    }
  }

  /** The length that `crc32c_zeros_op` really works with: the largest power of two not above
  `len`, and 1 for `len` 0. */
  function FloorPow2(len: nat): nat {
    if len <= 1 then 1 else 2 * FloorPow2(len / 2)
  }

  lemma {:induction false} FloorPow2Is(len: nat) returns (k: nat)
    ensures FloorPow2(len) == Pow2(k)
    ensures len >= 1 ==> Pow2(k) <= len < Pow2(k + 1)
  {
    k := 0;
    if len > 1 {
      k := FloorPow2Is(len / 2);
      k := k + 1;
    }
  }

  lemma {:induction false} FloorPow2OfPow2(k: nat)
    ensures FloorPow2(Pow2(k)) == Pow2(k)
  {
    if k > 0 { FloorPow2OfPow2(k - 1); }
  }

  lemma Regroup(n: nat, f: nat)
    ensures 2 * n * (2 * f) == 2 * (2 * n) * f
  {
  }

  /** One squaring per halving of the length keeps the goal in sight. */
  lemma Halve(l: nat, n: nat, goal: nat)
    requires 2 * n * FloorPow2(l) == goal
    ensures l / 2 == 0 ==> 2 * n == goal
    ensures l / 2 != 0 ==> 2 * (2 * n) * FloorPow2(l / 2) == goal
  {
    if l / 2 != 0 {
      Regroup(n, FloorPow2(l / 2));
    }
  }

  lemma OneStepMatrix(odd: seq<Word32>)
    requires |odd| == 32 && odd[0] == POLY
    requires forall n: nat :: 1 <= n < 32 ==> odd[n] == Pow2(n - 1)
    ensures IsStepsMatrix(odd, 1)
  {
    hide Pow2, Steps;
    forall i: nat | i < 32 ensures odd[i] == Steps(1, Pow2(i)) {
      OneStep(i);
    }
  }

  lemma OneStep(i: nat)
    ensures Steps(1, Pow2(i)) == if i == 0 then POLY else Pow2(i - 1)
  {
    hide Xor;
    assert Steps(1, Pow2(i)) == Step(Pow2(i));
    XorZero(POLY);
  }

  method SquareSteps(square: array<Word32>, mat: array<Word32>, ghost n: nat)
    requires square != mat && square.Length == 32 && IsStepsMatrix(mat[..], n)
    modifies square
    ensures IsStepsMatrix(square[..], 2 * n)
  {
    MatrixSquare(square, mat);
    SquareDoubles(mat[..], n, square[..]);
  }

  /** crc32c_zeros_op: the operator of 8 * 2^k zero bits, with 2^k the largest power of two not
  above `len`, computed in two matrices that take turns. */
  method ZerosOp(even: array<Word32>, len: nat)
    requires even.Length == 32
    modifies even
    ensures IsStepsMatrix(even[..], 8 * FloorPow2(len))
  {
    var odd := OneBitOperator();
    SquareSteps(even, odd, 1);
    SquareSteps(odd, even, 2);
    var l := len;
    ghost var n: nat, goal := 4, 8 * FloorPow2(len);
    while true
      invariant IsStepsMatrix(odd[..], n)
      invariant 2 * n * FloorPow2(l) == goal
      decreases l
    {
      SquareSteps(even, odd, n);
      Halve(l, n, goal);
      l := l / 2;
      if l == 0 {
        return;
      }
      n := 2 * n;
      SquareSteps(odd, even, n);
      Halve(l, n, goal);
      l := l / 2;
      n := 2 * n;
      if l == 0 {
        break;
      }
    }
    // the answer ended up in odd
    CopyMatrix(even, odd);
  }

  lemma RowDoubles(n: nat)
    requires 1 <= n <= 32
    ensures Pow2(n) == 2 * Pow2(n - 1) && Pow2(n - 1) < 0x1_0000_0000 && Pow2(0) == 1
  {
    Pow2Values();
    Pow2Mono(n - 1, 31);
  }

  /** The operator for one zero bit. */
  method OneBitOperator() returns (odd: array<Word32>)
    ensures fresh(odd) && odd.Length == 32 && IsStepsMatrix(odd[..], 1)
  {
    hide Pow2;
    odd := new Word32[32];
    odd[0] := POLY;
    RowDoubles(1);
    var row := 1;
    for n := 1 to 32
      invariant odd[0] == POLY && row == Pow2(n - 1)
      invariant forall i: nat :: 1 <= i < n ==> odd[i] == Pow2(i - 1)
    {
      RowDoubles(n);
      odd[n] := row;
      row := row * 2;
    }
    OneStepMatrix(odd[..]);
  }

  method CopyMatrix(dst: array<Word32>, src: array<Word32>)
    requires dst != src && dst.Length == src.Length
    modifies dst
    ensures dst[..] == src[..]
  {
    for i := 0 to src.Length
      invariant dst[..i] == src[..i]
    {
      dst[i] := src[i];
    }
    assert dst[..] == dst[..src.Length] && src[..] == src[..src.Length];
  }

  /** Table j applies the operator of `len` zero bytes to byte j of a register. */
  ghost predicate IsZerosTable(zeros: array2<Word32>, n: nat)
    reads zeros
  {
    && zeros.Length0 == 4 && zeros.Length1 == 256
    && (forall i: nat :: i < 256 ==> zeros[0, i] == Steps(n, i))
    && (forall i: nat :: i < 256 ==> zeros[1, i] == Steps(n, i * 0x100))
    && (forall i: nat :: i < 256 ==> zeros[2, i] == Steps(n, i * 0x1_0000))
    && (forall i: nat :: i < 256 ==> zeros[3, i] == Steps(n, i * 0x100_0000))
  }

  /** crc32c_zeros */
  method Zeros(len: nat) returns (zeros: array2<Word32>)
    ensures fresh(zeros) && IsZerosTable(zeros, 8 * FloorPow2(len))
  {
    zeros := new Word32[4, 256];
    var op := new Word32[32];
    ghost var n := 8 * FloorPow2(len);
    ZerosOp(op, len);
    ghost var matrix := op[..];
    for i: nat := 0 to 256
      invariant op[..] == matrix
      invariant forall j: nat :: j < i ==> zeros[0, j] == Steps(n, j)
      invariant forall j: nat :: j < i ==> zeros[1, j] == Steps(n, j * 0x100)
      invariant forall j: nat :: j < i ==> zeros[2, j] == Steps(n, j * 0x1_0000)
      invariant forall j: nat :: j < i ==> zeros[3, j] == Steps(n, j * 0x100_0000)
    {
      FillZeros(zeros, op, n, i);
    }
  }

  /** The loop body of crc32c_zeros. */
  method FillZeros(zeros: array2<Word32>, op: array<Word32>, ghost n: nat, i: nat)
    requires zeros.Length0 == 4 && zeros.Length1 == 256 && i < 256
    requires op.Length == 32 && IsStepsMatrix(op[..], n)
    modifies zeros
    ensures zeros[0, i] == Steps(n, i)
    ensures zeros[1, i] == Steps(n, i * 0x100)
    ensures zeros[2, i] == Steps(n, i * 0x1_0000)
    ensures zeros[3, i] == Steps(n, i * 0x100_0000)
    ensures forall k, j :: 0 <= k < 4 && 0 <= j < 256 && j != i ==> zeros[k, j] == old(zeros[k, j])
  {
    var z0 := ApplyOp(op, n, i);
    var z1 := ApplyOp(op, n, i * 0x100);
    var z2 := ApplyOp(op, n, i * 0x1_0000);
    var z3 := ApplyOp(op, n, i * 0x100_0000);
    zeros[0, i], zeros[1, i], zeros[2, i], zeros[3, i] := z0, z1, z2, z3;
  }

  method ApplyOp(op: array<Word32>, ghost n: nat, vec: Word32) returns (r: Word32)
    requires op.Length == 32 && IsStepsMatrix(op[..], n)
    ensures r == Steps(n, vec)
  {
    TimesIsStepsOf(op[..], n, vec);
    r := MatrixTimes(op, vec);
  }

  /** crc32c_shift */
  function Shift(zeros: array2<Word32>, crc: Word32): nat
    requires zeros.Length0 == 4 && zeros.Length1 == 256
    reads zeros
  {
    Xor(Xor(Xor(zeros[0, crc % 0x100], zeros[1, crc / 0x100 % 0x100]), zeros[2, crc / 0x1_0000 % 0x100]),
        zeros[3, crc / 0x100_0000])
  }

  lemma Bytes(w: nat)
    ensures w == w % 0x100 + w / 0x100 % 0x100 * 0x100 + w / 0x1_0000 % 0x100 * 0x1_0000 + w / 0x100_0000 * 0x100_0000
  {
    assert w / 0x1_0000 == w / 0x100 / 0x100;
    assert w / 0x100_0000 == w / 0x1_0000 / 0x100;
  }

  /** Splitting off the top part of a word. */
  lemma StepsTop(n: nat, low: nat, high: nat, k: nat, shifted: nat)
    requires low < Pow2(k) && shifted == high * Pow2(k)
    ensures Steps(n, low + shifted) == Xor(Steps(n, low), Steps(n, shifted))
  {
    XorDisjoint(high, low, k);
    StepsLinear(n, low, shifted);
  }

  /** A linear operator acts on each byte of a word separately. */
  lemma StepsBytewise(n: nat, b0: Byte, b1: Byte, b2: Byte, b3: Byte)
    ensures Steps(n, b0 + b1 * 0x100 + b2 * 0x1_0000 + b3 * 0x100_0000)
      == Xor(Xor(Xor(Steps(n, b0), Steps(n, b1 * 0x100)), Steps(n, b2 * 0x1_0000)), Steps(n, b3 * 0x100_0000))
  {
    hide Steps, Xor, Pow2;
    var w1 := b0 + b1 * 0x100;
    Pow2Values();
    StepsTop(n, b0, b1, 8, b1 * 0x100);
    StepsTop(n, w1, b2, 16, b2 * 0x1_0000);
    StepsTop(n, w1 + b2 * 0x1_0000, b3, 24, b3 * 0x100_0000);
  }

  /** The four byte tables reassemble the operator on every 32-bit register. */
  lemma ShiftIsSteps(zeros: array2<Word32>, n: nat, crc: Word32)
    requires IsZerosTable(zeros, n)
    ensures Shift(zeros, crc) == Steps(n, crc)
  {
    Bytes(crc);
    StepsBytewise(n, crc % 0x100, crc / 0x100 % 0x100, crc / 0x1_0000 % 0x100, crc / 0x100_0000);
  }
}
