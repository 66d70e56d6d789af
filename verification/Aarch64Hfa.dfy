/** How AArch64 passes aggregates (src/abi_aarch64.cpp). */
module Aarch64Hfa {

  /* A homogeneous aggregate of up to four floating-point numbers or short vectors travels in vector
  registers, section 5.4 of AAPCS64.  The types here have no padding and hold no pointers, so the size
  of an aggregate is that of its fields. */

  datatype Option<T> = None | Some(value: T)

  /** A bits type.  `full` says that a primitive type uses all bits of its bytes; Inline is a field whose
  type is not a DataType. */
  datatype Type =
    | Prim(id: nat, size: nat, isFloat: bool, full: bool)
    | Tuple(fields: seq<Type>)
    | Named(name: nat, fields: seq<Type>)
    | VecElement(elem: Type)
    | Inline(id: nat, size: nat)

  /** What an aggregate is made of: a number, a short vector (by size, whatever its elements), or anything
  else. */
  datatype Leaf = Fp(size: nat) | Vec(size: nat) | Other

  function Fields(t: Type): seq<Type> {
    match t
    case Tuple(fields) => fields
    case Named(_, fields) => fields
    case VecElement(elem) => [elem]
    case _ => []
  }

  /** The number of terms in t. */
  function Terms(t: Type): (n: nat)
    ensures n > 0
    decreases t, 0
  {
    match t
    case Tuple(fields) => 1 + TermsOf(fields)
    case Named(_, fields) => 1 + TermsOf(fields)
    case VecElement(elem) => 1 + Terms(elem)
    case _ => 1
  }

  function TermsOf(ts: seq<Type>): nat
    decreases ts, 0
  {
    if ts == [] then 0 else Terms(ts[0]) + TermsOf(ts[1..])
  }

  lemma {:induction false} FieldHasFewerTerms(ts: seq<Type>, i: nat)
    requires i < |ts|
    ensures Terms(ts[i]) <= TermsOf(ts)
  {
    if i > 0 { FieldHasFewerTerms(ts[1..], i - 1); }
  }

  lemma FieldIsSmaller(t: Type, i: nat)
    requires i < |Fields(t)|
    ensures Terms(Fields(t)[i]) < Terms(t)
  {
    match t
    case Tuple(fields) => FieldHasFewerTerms(fields, i);
    case Named(_, fields) => FieldHasFewerTerms(fields, i);
    case VecElement(_) =>
    case _ =>
  }

  /** jl_datatype_size */
  function Size(t: Type): nat
    decreases Terms(t), 0
  {
    match t
    case Prim(_, size, _, _) => size
    case Inline(_, size) => size
    case _ => SizeFrom(t, 0)
  }

  /** The size of the fields from i on. */
  function SizeFrom(t: Type, i: nat): nat
    requires i <= |Fields(t)|
    decreases Terms(t), 0, |Fields(t)| - i
  {
    if i == |Fields(t)| then 0 else
      FieldIsSmaller(t, i);
      Size(Fields(t)[i]) + SizeFrom(t, i + 1)
  }

  // ---------------------------------------------------------------- numbers and short vectors

  /** get_llvm_fptype */
  function FpType(t: Type): Option<Leaf>
    requires Fields(t) == []
  {
    if Size(t) in {2, 4, 8, 16} && t.Prim? && t.isFloat then Some(Fp(Size(t))) else None
  }

  /** All fields have the type of the first. */
  predicate SameFields(t: Type)
    requires Fields(t) != []
  {
    forall i :: 1 <= i < |Fields(t)| ==> Fields(t)[i] == Fields(t)[0]
  }

  /** get_llvm_vectype: a tuple of 8 or 16 bytes, made of VecElements of one type without fields. */
  function VecType(t: Type): (v: Option<Leaf>)
    requires Fields(t) != []
    ensures v.Some? ==> v.value == Vec(Size(t))
  {
    if !t.Tuple? then None
    else if Size(t) != 8 && Size(t) != 16 then None
    else
      var ft0 := t.fields[0];
      if !ft0.VecElement? then None
      else if ft0.elem.Inline? || Fields(ft0.elem) != [] then None
      else if !SameFields(t) then None
      else Some(Vec(Size(t)))
  }

  predicate IsPowerOfTwo(n: nat) {
    n == 1 || (n > 0 && n % 2 == 0 && IsPowerOfTwo(n / 2))
  }

  /** is_vector_type: a tuple that is lowered as a vector, of whatever size. */
  predicate IsVector(t: Type) {
    t.Tuple? && t.fields != [] && SameFields(t) && t.fields[0].VecElement?
    && var e := t.fields[0].elem; e.Prim? && IsPowerOfTwo(e.size) && e.full
  }

  // ---------------------------------------------------------------- the specification: flattening

  /** What t is made of, through members of nonzero size. */
  function Leaves(t: Type): seq<Leaf>
    decreases Terms(t), 0
  {
    if t.Inline? then [Other]
    else if Fields(t) == [] then [match FpType(t) { case Some(fp) => fp case None => Other }]
    else if VecType(t).Some? then [VecType(t).value]
    else if IsVector(t) then [Other]
    else LeavesFrom(t, 0)
  }

  function LeavesFrom(t: Type, i: nat): seq<Leaf>
    requires i <= |Fields(t)|
    decreases Terms(t), 0, |Fields(t)| - i
  {
    if i == |Fields(t)| then []
    else
      FieldIsSmaller(t, i);
      var f := Fields(t)[i];
      (if Size(f) == 0 then [] else Leaves(f)) + LeavesFrom(t, i + 1)
  }

  /** Homogeneous: one to four leaves, all the same number or short vector. */
  ghost predicate Homogeneous(leaves: seq<Leaf>) {
    1 <= |leaves| <= 4 && leaves[0] != Other && forall k :: 0 <= k < |leaves| ==> leaves[k] == leaves[0]
  }

  /** More leaves fit behind the n that were found to be `ele`. */
  ghost predicate Fits(n: nat, ele: Option<Leaf>, leaves: seq<Leaf>) {
    n + |leaves| <= 4 && leaves != [] && leaves[0] != Other
    && (forall k :: 0 <= k < |leaves| ==> leaves[k] == leaves[0]) && (ele.Some? ==> ele.value == leaves[0])
  }

  lemma FitsBoth(n: nat, ele: Option<Leaf>, a: seq<Leaf>, b: seq<Leaf>)
    requires a != []
    ensures b != [] ==> (Fits(n, ele, a + b) <==> Fits(n, ele, a) && Fits(n + |a|, Some(a[0]), b))
    ensures b == [] ==> a + b == a
    ensures (a + b)[0] == a[0]
  {
    if b != [] {
      assert forall k :: 0 <= k < |b| ==> (a + b)[|a| + k] == b[k];
      assert forall k :: 0 <= k < |a| ==> (a + b)[k] == a[k];
    }
  }

  lemma {:induction false} LeavesNotEmpty(t: Type)
    requires Size(t) > 0
    ensures Leaves(t) != []
    decreases Terms(t), 0
  {
    if !t.Inline? && Fields(t) != [] && VecType(t).None? && !IsVector(t) {
      LeavesFromNotEmpty(t, 0);
    }
  }

  lemma {:induction false} LeavesFromNotEmpty(t: Type, i: nat)
    requires i <= |Fields(t)| && SizeFrom(t, i) > 0
    ensures LeavesFrom(t, i) != []
    decreases Terms(t), 0, |Fields(t)| - i
  {
    FieldIsSmaller(t, i);
    if Size(Fields(t)[i]) > 0 {
      LeavesNotEmpty(Fields(t)[i]);
    } else {
      LeavesFromNotEmpty(t, i + 1);
    }
  }

  lemma {:induction false} NoLeaves(t: Type, i: nat)
    requires i <= |Fields(t)| && SizeFrom(t, i) == 0
    ensures LeavesFrom(t, i) == []
    decreases |Fields(t)| - i
  {
    if i < |Fields(t)| { NoLeaves(t, i + 1); }
  }

  // ---------------------------------------------------------------- isHFAorHVA

  /** The first member of nonzero size. */
  method FirstMember(t: Type) returns (i: nat)
    requires Size(t) > 0 && Fields(t) != []
    ensures i < |Fields(t)| && Size(Fields(t)[i]) > 0
    ensures LeavesFrom(t, 0) == LeavesFrom(t, i) && SizeFrom(t, i) == Size(t)
  {
    i := 0;
    while Size(Fields(t)[i]) == 0
      invariant i < |Fields(t)| && LeavesFrom(t, 0) == LeavesFrom(t, i) && SizeFrom(t, i) == Size(t)
      decreases |Fields(t)| - i
    {
      i := i + 1;
    }
  }

  /** A member as large as the whole is all there is. */
  lemma OnlyMember(t: Type, i: nat)
    requires i < |Fields(t)| && Size(Fields(t)[i]) == SizeFrom(t, i) > 0
    ensures LeavesFrom(t, i) == Leaves(Fields(t)[i])
  {
    NoLeaves(t, i + 1);
  }

  /** isHFAorHVA: succeeds exactly when the leaves of dt continue what was found so far, and then counts
  them. */
  method Continue(dt: Type, dsz: nat, nele: nat, ele: Option<Leaf>) returns (ok: bool, nele': nat, ele': Option<Leaf>)
    requires dsz == Size(dt) && nele <= 3 && !dt.Inline? && (dsz > 0 || Fields(dt) == [])
    ensures ok <==> Fits(nele, ele, Leaves(dt))
    ensures ok ==> nele' == nele + |Leaves(dt)| && ele' == Some(Leaves(dt)[0])
    decreases Terms(dt)
  {
    var cur := dt;
    nele', ele' := nele, ele;
    while |Fields(cur)| > 0
      invariant Size(cur) == dsz && !cur.Inline? && Leaves(cur) == Leaves(dt) && Terms(cur) <= Terms(dt)
      invariant dsz > 0 || Fields(cur) == []
      decreases Terms(cur)
    {
      var vec := VecType(cur);
      if vec.Some? {
        if ele.Some? && (ele.value.Other? || ele.value.size != dsz || ele != vec) {
          return false, nele', ele';
        }
        return true, nele + 1, vec;
      }
      if IsVector(cur) {
        return false, nele', ele';
      }
      var i := FirstMember(cur);
      var member := Fields(cur)[i];
      FieldIsSmaller(cur, i);
      if Size(member) == dsz {
        OnlyMember(cur, i);
        cur := member;
        if cur.Inline? {
          return false, nele', ele';
        }
        continue;
      }
      ok, nele', ele' := Members(cur, i, nele, ele);
      return;
    }
    if ele.Some? && (ele.value.Other? || ele.value.size != dsz) {
      return false, nele', ele';
    }
    var fp := FpType(cur);
    if fp.Some? && (ele.None? || ele == fp) {
      return true, nele + 1, fp;
    }
    ok := false;
  }

  /** The leaves in `done` were found after nele leaves `ele`, and were all right. */
  ghost predicate SoFar(nele: nat, ele: Option<Leaf>, done: seq<Leaf>, nele': nat, ele': Option<Leaf>) {
    nele' == nele + |done| && if done == [] then ele' == ele && nele <= 3 else Fits(nele, ele, done) && ele' == Some(done[0])
  }

  lemma SoFarNext(nele: nat, ele: Option<Leaf>, done: seq<Leaf>, nele': nat, ele': Option<Leaf>, ls: seq<Leaf>, rest: seq<Leaf>)
    requires SoFar(nele, ele, done, nele', ele') && ls != []
    ensures nele' > 3 || !Fits(nele', ele', ls) ==> !Fits(nele, ele, done + (ls + rest))
    ensures Fits(nele', ele', ls) ==> SoFar(nele, ele, done + ls, nele' + |ls|, Some(ls[0]))
    ensures done + (ls + rest) == done + ls + rest
  {
    FitsBoth(nele', ele', ls, rest);
    if done != [] {
      FitsBoth(nele, ele, done, ls + rest);
      FitsBoth(nele, ele, done, ls);
    } else {
      assert done + ls == ls && done + (ls + rest) == ls + rest;
    }
  }

  /** The loop over the members from i on. */
  method Members(t: Type, i0: nat, nele: nat, ele: Option<Leaf>) returns (ok: bool, nele': nat, ele': Option<Leaf>)
    requires i0 < |Fields(t)| && Size(Fields(t)[i0]) > 0 && nele <= 3
    ensures ok <==> Fits(nele, ele, LeavesFrom(t, i0))
    ensures ok ==> nele' == nele + |LeavesFrom(t, i0)| && ele' == Some(LeavesFrom(t, i0)[0])
    decreases Terms(t), 0
  {
    nele', ele' := nele, ele;
    ghost var done: seq<Leaf>, all := [], LeavesFrom(t, i0);
    assert all == done + LeavesFrom(t, i0);
    var i := i0;
    while i < |Fields(t)|
      invariant i0 <= i <= |Fields(t)| && all == done + LeavesFrom(t, i)
      invariant SoFar(nele, ele, done, nele', ele') && (done == [] ==> i == i0)
      decreases |Fields(t)| - i
    {
      var field := Fields(t)[i];
      var fieldsz := Size(field);
      SkipEmpty(t, i);
      if fieldsz == 0 {
        i := i + 1;
        continue;
      }
      FieldIsSmaller(t, i);
      LeavesNotEmpty(field);
      InlineIsOther(field, nele', ele');
      ghost var ls, rest := Leaves(field), LeavesFrom(t, i + 1);
      SoFarNext(nele, ele, done, nele', ele', ls, rest);
      hide SoFar, Leaves, LeavesFrom, Fits;
      if field.Inline? {
        return false, nele', ele';
      }
      if nele' > 3 {
        return false, nele', ele';
      }
      var more;
      more, nele', ele' := Continue(field, fieldsz, nele', ele');
      if !more {
        return false, nele', ele';
      }
      done := done + ls;
      i := i + 1;
    }
    AllDone(nele, ele, done, nele', ele', t, all);
    ok := true;
  }

  lemma SkipEmpty(t: Type, i: nat)
    requires i < |Fields(t)|
    ensures LeavesFrom(t, i) == (if Size(Fields(t)[i]) == 0 then [] else Leaves(Fields(t)[i])) + LeavesFrom(t, i + 1)
    ensures Size(Fields(t)[i]) == 0 ==> LeavesFrom(t, i) == LeavesFrom(t, i + 1)
  {
    FieldIsSmaller(t, i);
  }

  lemma InlineIsOther(t: Type, n: nat, ele: Option<Leaf>)
    ensures t.Inline? ==> !Fits(n, ele, Leaves(t))
  {
  }

  lemma AllDone(nele: nat, ele: Option<Leaf>, done: seq<Leaf>, nele': nat, ele': Option<Leaf>, t: Type, all: seq<Leaf>)
    requires SoFar(nele, ele, done, nele', ele') && done != [] && all == done + LeavesFrom(t, |Fields(t)|)
    ensures Fits(nele, ele, all) && nele' == nele + |all| && ele' == Some(all[0])
  {
    assert all == done;
  }

  // ---------------------------------------------------------------- how large a homogeneous aggregate is

  function LeafSize(l: Leaf): nat {
    match l case Fp(size) => size case Vec(size) => size case Other => 0
  }

  function Total(leaves: seq<Leaf>): nat {
    if leaves == [] then 0 else LeafSize(leaves[0]) + Total(leaves[1..])
  }

  lemma {:induction false} TotalOfBoth(a: seq<Leaf>, b: seq<Leaf>)
    ensures Total(a + b) == Total(a) + Total(b)
  {
    if a == [] {
      assert a + b == b;
    } else {
      assert (a + b)[1..] == a[1..] + b;
      TotalOfBoth(a[1..], b);
    }
  }

  /** Numbers and short vectors account for every byte. */
  lemma {:induction false} LeavesFill(t: Type)
    requires Other !in Leaves(t)
    ensures Total(Leaves(t)) == Size(t) && forall l :: l in Leaves(t) ==> LeafSize(l) <= 16
    decreases Terms(t), 0
  {
    if !t.Inline? && Fields(t) != [] && VecType(t).None? && !IsVector(t) {
      LeavesFromFill(t, 0);
    }
  }

  lemma {:induction false} LeavesFromFill(t: Type, i: nat)
    requires i <= |Fields(t)| && Other !in LeavesFrom(t, i)
    ensures Total(LeavesFrom(t, i)) == SizeFrom(t, i) && forall l :: l in LeavesFrom(t, i) ==> LeafSize(l) <= 16
    decreases Terms(t), 0, |Fields(t)| - i
  {
    if i < |Fields(t)| {
      FieldIsSmaller(t, i);
      SkipEmpty(t, i);
      LeavesFromFill(t, i + 1);
      if Size(Fields(t)[i]) > 0 {
        LeavesFill(Fields(t)[i]);
        TotalOfBoth(Leaves(Fields(t)[i]), LeavesFrom(t, i + 1));
      }
    }
  }

  lemma {:induction false} TotalOfSame(leaves: seq<Leaf>, l: Leaf)
    requires forall k :: 0 <= k < |leaves| ==> leaves[k] == l
    ensures Total(leaves) == |leaves| * LeafSize(l)
  {
    if leaves != [] { TotalOfSame(leaves[1..], l); }
  }

  /** A homogeneous aggregate is as large as its leaves together, so at most 64 bytes: rewriting it to an
  array of its leaves keeps its size. */
  lemma HomogeneousSize(t: Type)
    requires Homogeneous(Leaves(t))
    ensures Size(t) == |Leaves(t)| * LeafSize(Leaves(t)[0]) <= 64
  {
    var ls := Leaves(t);
    assert Other !in ls;
    LeavesFill(t);
    TotalOfSame(ls, ls[0]);
    assert ls[0] in ls;
    AtMost(|ls|, LeafSize(ls[0]));
  }

  lemma AtMost(n: nat, size: nat)
    requires n <= 4 && size <= 16
    ensures n * size <= 64
  {
    assert n * size <= 4 * size;
  }

  // ---------------------------------------------------------------- classification

  /** A type with what its layout says: `plain` is a type with a layout, no pointers and no padding. */
  datatype DataType = DataType(t: Type, size: nat, align: nat, mutabl: bool, plain: bool)

  /** A zero-sized type that has fields never gets here. */
  predicate IsDataType(d: DataType) {
    !d.t.Inline? && (d.plain ==> d.size == Size(d.t)) && (Size(d.t) > 0 || Fields(d.t) == [])
  }

  datatype Rewrite = Element(leaf: Leaf) | Int128 | Int64

  /** The two-argument isHFAorHVA: finds the element type of exactly the homogeneous types. */
  method ElementType(d: DataType) returns (elt: Option<Leaf>, nele: nat)
    requires IsDataType(d)
    ensures elt.Some? <==> d.plain && Homogeneous(Leaves(d.t))
    ensures elt.Some? ==> elt.value == Leaves(d.t)[0] && nele == |Leaves(d.t)|
  {
    if Homogeneous(Leaves(d.t)) { HomogeneousSize(d.t); }
    if d.size > 64 || !d.plain {
      return None, 0;
    }
    var ok, n, ele := Continue(d.t, d.size, 0, None);
    nele := n;
    elt := if ok then ele else None;
  }

  /** get_llvm_fp_or_vectype */
  function FpOrVecType(d: DataType): Option<Leaf> {
    if d.mutabl || !d.plain then None
    else if Fields(d.t) != [] then VecType(d.t)
    else FpType(d.t)
  }

  lemma NumbersAreHomogeneous(d: DataType)
    requires IsDataType(d) && FpOrVecType(d).Some?
    ensures Homogeneous(Leaves(d.t)) && Leaves(d.t) == [FpOrVecType(d).value]
  {
  }

  // ---------------------------------------------------------------- common types, from the type alone

  /** All of ts, one or more, are f. */
  ghost predicate Copies(ts: seq<Type>, f: Type) {
    ts != [] && forall i :: 0 <= i < |ts| ==> ts[i] == f
  }

  /** A half-, single-, double- or quad-precision number. */
  predicate IsNumber(t: Type) {
    t.Prim? && t.isFloat && (t.size == 2 || t.size == 4 || t.size == 8 || t.size == 16)
  }

  lemma {:induction false} SizeOfCopies(t: Type, f: Type, i: nat)
    requires Copies(Fields(t), f) && i <= |Fields(t)|
    ensures SizeFrom(t, i) == (|Fields(t)| - i) * Size(f)
    decreases |Fields(t)| - i
  {
    hide Size;
    if i < |Fields(t)| {
      SizeOfCopies(t, f, i + 1);
      OneMore(|Fields(t)| - i - 1, Size(f));
    } else {
      OneMore(0, Size(f));
    }
  }

  lemma OneMore(n: nat, size: nat)
    ensures (n + 1) * size == size + n * size && 0 * size == 0
  {
  }

  /** A primitive type is homogeneous exactly if it is a number, and then it is one of its size. */
  lemma PrimitiveLeaf(t: Type)
    requires t.Prim?
    ensures Homogeneous(Leaves(t)) <==> IsNumber(t)
    ensures Leaves(t) == [if IsNumber(t) then Fp(t.size) else Other]
  {
  }

  /** A tuple of VecElements is a short vector exactly if it takes 8 or 16 bytes. */
  lemma ShortVector(t: Type, elem: Type)
    requires t.Tuple? && Copies(t.fields, VecElement(elem)) && !elem.Inline? && Fields(elem) == []
    ensures Size(t) == |t.fields| * Size(elem)
    ensures VecType(t).Some? <==> |t.fields| * Size(elem) == 8 || |t.fields| * Size(elem) == 16
  {
    SizeOfCopies(t, VecElement(elem), 0);
    SizeOfCopies(VecElement(elem), elem, 0);
  }

  lemma {:induction false} LeavesOfCopies(t: Type, f: Type, leaf: Leaf, i: nat)
    requires Copies(Fields(t), f) && Leaves(f) == [leaf] && Size(f) > 0 && i <= |Fields(t)|
    ensures |LeavesFrom(t, i)| == |Fields(t)| - i
    ensures forall k :: 0 <= k < |LeavesFrom(t, i)| ==> LeavesFrom(t, i)[k] == leaf
    decreases |Fields(t)| - i
  {
    if i < |Fields(t)| {
      SkipEmpty(t, i);
      LeavesOfCopies(t, f, leaf, i + 1);
    }
  }

  /** An aggregate of equal primitive fields is homogeneous exactly if these are numbers, and four at most. */
  lemma EqualNumbers(t: Type, f: Type)
    requires (t.Tuple? || t.Named?) && Copies(Fields(t), f) && f.Prim? && f.size > 0
    ensures Homogeneous(Leaves(t)) <==> IsNumber(f) && |Fields(t)| <= 4
    ensures |Leaves(t)| == |Fields(t)| && Leaves(t)[0] == (if IsNumber(f) then Fp(f.size) else Other)
    ensures VecType(t).None?
  {
    PrimitiveLeaf(f);
    LeavesOfCopies(t, f, if IsNumber(f) then Fp(f.size) else Other, 0);
    assert LeavesFrom(t, 0) == Leaves(t);
  }

  /** Tuples of VecElements that are lowered as vectors of another size are not homogeneous; those that are
  not lowered as vectors are aggregates like others. */
  lemma OtherVectors(t: Type, elem: Type)
    requires t.Tuple? && Copies(t.fields, VecElement(elem)) && elem.Prim? && elem.size > 0
    ensures Homogeneous(Leaves(t)) <==>
            || |t.fields| * elem.size == 8 || |t.fields| * elem.size == 16
            || (IsNumber(elem) && !elem.full && |t.fields| <= 4)
  {
    ShortVector(t, elem);
    if VecType(t).None? && !IsVector(t) {
      var f, leaf := VecElement(elem), if IsNumber(elem) then Fp(elem.size) else Other;
      PrimitiveLeaf(elem);
      SizeOfCopies(f, elem, 0);
      SkipEmpty(f, 0);
      assert Leaves(f) == [leaf];
      LeavesOfCopies(t, f, leaf, 0);
      assert LeavesFrom(t, 0) == Leaves(t);
      assert IsPowerOfTwo(2) && IsPowerOfTwo(4) && IsPowerOfTwo(8) && IsPowerOfTwo(16);
    } else if VecType(t).None? {
      PrimitiveLeaf(elem);
    }
  }

  lemma CommonTypes(t: Type)
    ensures t.Prim? ==> (FpType(t).Some? <==> IsNumber(t)) && (Homogeneous(Leaves(t)) <==> IsNumber(t))
    ensures forall f :: t.Tuple? && Copies(t.fields, VecElement(f)) && !f.Inline? && Fields(f) == [] ==>
              (VecType(t).Some? <==> |t.fields| * Size(f) == 8 || |t.fields| * Size(f) == 16)
    ensures forall f :: (t.Tuple? || t.Named?) && Copies(Fields(t), f) && f.Prim? && f.size > 0 ==>
              (Homogeneous(Leaves(t)) <==> IsNumber(f) && |Fields(t)| <= 4) && VecType(t).None?
              && |Leaves(t)| == |Fields(t)| && Leaves(t)[0] == if IsNumber(f) then Fp(f.size) else Other
  {
    if t.Prim? { PrimitiveLeaf(t); }
    hide Homogeneous, Leaves, VecType, FpType;
    forall f | t.Tuple? && Copies(t.fields, VecElement(f)) && !f.Inline? && Fields(f) == []
      ensures VecType(t).Some? <==> |t.fields| * Size(f) == 8 || |t.fields| * Size(f) == 16
    {
      ShortVector(t, f);
    }
    forall f | (t.Tuple? || t.Named?) && Copies(Fields(t), f) && f.Prim? && f.size > 0
      ensures (Homogeneous(Leaves(t)) <==> IsNumber(f) && |Fields(t)| <= 4) && VecType(t).None?
      ensures |Leaves(t)| == |Fields(t)| && Leaves(t)[0] == if IsNumber(f) then Fp(f.size) else Other
    {
      EqualNumbers(t, f);
    }
  }

  /** needPassByRef */
  method NeedPassByRef(d: DataType) returns (r: bool)
    requires IsDataType(d)
    ensures r <==> d.size > 16 && !(d.plain && Homogeneous(Leaves(d.t)))
  {
    var elt, nele := ElementType(d);
    if elt.Some? {
      return false;
    }
    return d.size > 16;
  }

  /** classify_arg: vector registers for what is homogeneous, the stack for what else is larger than two
  words, and otherwise general registers, as many as the argument needs.  The class of these is plain from
  the type: a number or a short vector is passed as it is, and up to four equal numbers as an array. */
  method ClassifyArg(d: DataType) returns (rewrite: Option<Rewrite>, fpreg: bool, onstack: bool, rewriteLen: nat)
    requires IsDataType(d)
    ensures fpreg <==> d.plain && Homogeneous(Leaves(d.t))
    ensures onstack <==> d.size > 16 && !fpreg
    ensures fpreg && rewrite.Some? ==> rewrite.value == Element(Leaves(d.t)[0]) && 1 <= rewriteLen == |Leaves(d.t)| <= 4
    ensures fpreg && rewrite.None? ==> |Leaves(d.t)| == 1
    ensures onstack ==> rewrite.None?
    ensures rewrite == Some(Int64) ==> 8 * (rewriteLen - 1) < d.size <= 8 * rewriteLen <= 16
    ensures rewrite == Some(Int128) ==> d.size == 16 && d.align == 16 && rewriteLen == 1
    ensures d.t.Prim? && d.plain && !d.mutabl ==> (fpreg <==> IsNumber(d.t)) && (fpreg ==> rewrite.None?)
    ensures forall f :: d.t.Tuple? && Copies(d.t.fields, VecElement(f)) && !f.Inline? && Fields(f) == [] && d.plain && !d.mutabl ==>
              (fpreg && rewrite.None? <==> |d.t.fields| * Size(f) == 8 || |d.t.fields| * Size(f) == 16)
    ensures forall f :: (d.t.Tuple? || d.t.Named?) && Copies(Fields(d.t), f) && f.Prim? && f.size > 0 && d.plain ==>
              (fpreg <==> IsNumber(f) && |Fields(d.t)| <= 4)
              && (fpreg ==> rewrite == Some(Element(Fp(f.size))) && rewriteLen == |Fields(d.t)|)
    ensures !fpreg && !onstack && rewrite.None? ==> d.size == 0 || (Fields(d.t) == [] && d.size in {1, 2, 4, 8, 16})
  {
    CommonTypes(d.t);
    rewrite, fpreg, onstack, rewriteLen := None, false, false, 0;
    if FpOrVecType(d).Some? {
      NumbersAreHomogeneous(d);
      fpreg := true;
      return;
    }
    var elt, nele := ElementType(d);
    rewriteLen := nele;
    if elt.Some? {
      assert 0 < rewriteLen <= 4; // asserted by the source
      fpreg := true;
      rewrite := Some(Element(elt.value));
      return;
    }
    if d.size > 16 {
      onstack := true;
      return;
    }
    if !d.mutabl && Fields(d.t) == [] && d.size in {1, 2, 4, 8, 16} {
      return;
    }
    if d.size == 16 && d.align == 16 {
      rewriteLen := 1;
      rewrite := Some(Int128);
      return;
    }
    assert d.size <= 16; // asserted by the source
    rewriteLen := (d.size + 7) / 8;
    rewrite := if d.size > 0 then Some(Int64) else None;
  }

  /** use_sret: a result is returned through memory exactly when an argument of its type would be passed
  by reference. */
  method UseSret(d: DataType) returns (r: bool)
    requires IsDataType(d)
    ensures r <==> d.size > 16 && !(d.plain && Homogeneous(Leaves(d.t)))
  {
    var rewrite, fpreg, onstack, rewriteLen := ClassifyArg(d);
    r := onstack;
  }
}
