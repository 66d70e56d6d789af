/** When egal_types (src/builtins.c) goes by more than the canonical form, exactly. */
module TypeEgalExact {
  import opened TypeEgality

  /* A binder may bind a TypeVar that is bound around it already.  type_object_id_ takes the inner binder
  for an occurrence of it; egal_types only asks for a pair with the right TypeVar, which the outer binder
  gives as well.  So every occurrence under two binders of its own has two readings, and the type Outer(b)
  below, whose binders are all new, is egal to b by the other one. */

  // ---------------------------------------------------------------- the other reading

  /** The outermost binder of a variable. */
  function Outermost(env: seq<nat>, id: nat): (d: nat)
    requires id in env
    ensures d < |env| && env[d] == id && forall j :: d < j < |env| ==> env[j] != id
  {
    if env[|env| - 1] == id then |env| - 1 else Outermost(env[..|env| - 1], id)
  }

  /** The variables that occur in t without a binder. */
  function Free(t: Type, env: seq<nat>): set<nat>
    decreases Size(t), 0
  {
    match t
    case DataType(_, params, _, _) => FreeList(params, env)
    case TypeVar(id) => if id in env then {} else {id}
    case UnionAll(id, _, lb, ub, body) => Free(lb, env) + Free(ub, env) + Free(body, [id] + env)
    case Union(a, b) => Free(a, env) + Free(b, env)
    case TypeEq(T) => Free(T, env)
    case TypeEgal(T) => Free(T, env)
    case Vararg(elem, count) => Free(ElemOf(elem), env) + if count.Some? then Free(count.value, env) else {}
    case Leaf(_) => {}
  }

  function FreeList(ts: Types, env: seq<nat>): set<nat>
    decreases ListSize(ts), 1
  {
    match ts case Nil => {} case Cons(t, rest) => Free(t, env) + FreeList(rest, env)
  }

  /** t with new binders, numbered from lo on, and every variable at its outermost binder.  env pairs the
  new binders with those of t. */
  function Outer(t: Type, env: Pairs, lo: nat): Type
    decreases Size(t), 0
  {
    match t
    case DataType(name, params, concrete, hash) => DataType(name, OuterList(params, env, lo), concrete, hash)
    case TypeVar(id) => if id in Seconds(env) then TypeVar(env[Outermost(Seconds(env), id)].0) else t
    case UnionAll(id, name, lb, ub, body) =>
      UnionAll(lo, name, Outer(lb, env, lo + 1), Outer(ub, env, lo + 1 + Size(lb)),
               Outer(body, [(lo, id)] + env, lo + 1 + Size(lb) + Size(ub)))
    case Union(a, b) => Union(Outer(a, env, lo), Outer(b, env, lo + Size(a)))
    case TypeEq(T) => TypeEq(Outer(T, env, lo))
    case TypeEgal(T) => TypeEgal(Outer(T, env, lo))
    case Vararg(elem, count) =>
      Vararg(if elem.Some? then Some(Outer(elem.value, env, lo)) else None,
             if count.Some? then Some(Outer(count.value, env, lo + Size(ElemOf(elem)))) else None)
    case Leaf(_) => t
  }

  function OuterList(ts: Types, env: Pairs, lo: nat): Types
    decreases ListSize(ts), 1
  {
    match ts case Nil => Nil case Cons(t, rest) => Cons(Outer(t, env, lo), OuterList(rest, env, lo + Size(t)))
  }

  lemma OuterElem(elem: Option<Type>, env: Pairs, lo: nat)
    ensures ElemOf(if elem.Some? then Some(Outer(elem.value, env, lo)) else None) == Outer(ElemOf(elem), env, lo)
  {
    if elem.None? { assert OuterList(Nil, env, lo) == Nil; }
  }

  /** The new binders around t: all different, from base on and below lo, and none a variable of t. */
  ghost predicate New(vars: set<nat>, env: Pairs, base: nat, lo: nat) {
    && base <= lo
    && (forall x :: x in vars ==> x < base)
    && (forall i :: 0 <= i < |env| ==> base <= env[i].0 < lo)
    && forall i, j :: 0 <= i < j < |env| ==> env[i].0 != env[j].0
  }

  /** A new binder stands at the place where it is looked up. */
  lemma NewDepth(env: Pairs, d: nat, base: nat, lo: nat)
    requires New({}, env, base, lo) && d < |env|
    ensures env[d].0 in Firsts(env) && Depth(Firsts(env), env[d].0) == d
  {
    assert Firsts(env)[d] == env[d].0;
    var e := Depth(Firsts(env), env[d].0);
    assert Firsts(env)[e] == env[d].0;
  }

  lemma OuterVar(id: nat, env: Pairs, names: bool, base: nat, lo: nat)
    requires New({id}, env, base, lo)
    ensures var a, b := Outer(TypeVar(id), env, lo), TypeVar(id);
      && Egal(a, b, env, names)
      && (Canon(a, Firsts(env), names) == Canon(b, Seconds(env), names) <==> Once(Seconds(env), id))
  {
    var s := Seconds(env);
    if id in s {
      var d := Outermost(s, id);
      NewDepth(env, d, base, lo);
      PairedAtDepth(env, env[d].0, TypeVar(id));
      OnceIfOutermost(s, id);
    } else {
      assert id !in Firsts(env);
      assert forall i :: 0 <= i < |s| ==> s[i] != id;
    }
  }

  /** A variable has one binder if and only if the innermost is the outermost. */
  lemma OnceIfOutermost(s: seq<nat>, id: nat)
    requires id in s
    ensures Once(s, id) <==> Depth(s, id) == Outermost(s, id)
  {
    var d, e := Depth(s, id), Outermost(s, id);
    assert d <= e;
    if d < e { assert s[d] == id && s[e] == id; }
  }

  lemma StillNew(vars: set<nat>, part: set<nat>, env: Pairs, base: nat, lo: nat, lo': nat)
    requires New(vars, env, base, lo) && part <= vars && lo <= lo'
    ensures New(part, env, base, lo')
  {
  }

  lemma UnderNew(vars: set<nat>, env: Pairs, base: nat, lo: nat, lo': nat, id: nat)
    requires New(vars, env, base, lo) && lo < lo'
    ensures New(vars, [(lo, id)] + env, base, lo')
    ensures Firsts([(lo, id)] + env) == [lo] + Firsts(env) && Seconds([(lo, id)] + env) == [id] + Seconds(env)
  {
  }

  /** The parts of a UnionAll keep to the numbers left for them. */
  lemma NewParts(t: Type, env: Pairs, base: nat, lo: nat)
    requires t.UnionAll? && New(Vars(t), env, base, lo)
    ensures var lo1, lo2, lo3 := lo + 1, lo + 1 + Size(t.lb), lo + 1 + Size(t.lb) + Size(t.ub);
      var env3 := [(lo, t.id)] + env;
      && New(Vars(t.lb), env, base, lo1) && New(Vars(t.ub), env, base, lo2) && New(Vars(t.body), env3, base, lo3)
      && Firsts(env3) == [lo] + Firsts(env) && Seconds(env3) == [t.id] + Seconds(env)
      && Size(t) == 1 + Size(t.lb) + Size(t.ub) + Size(t.body)
      && Outer(t, env, lo) == UnionAll(lo, t.name, Outer(t.lb, env, lo1), Outer(t.ub, env, lo2), Outer(t.body, env3, lo3))
  {
    hide New, Firsts, Seconds;
    var lo3 := lo + 1 + Size(t.lb) + Size(t.ub);
    StillNew(Vars(t), Vars(t.lb), env, base, lo, lo + 1);
    StillNew(Vars(t), Vars(t.ub), env, base, lo, lo + 1 + Size(t.lb));
    StillNew(Vars(t), Vars(t.body), env, base, lo, lo);
    UnderNew(Vars(t.body), env, base, lo, lo3, t.id);
  }

  /** Whatever t is, the other reading of it is egal to t; and it is one with t exactly if no variable
  of t occurs under two binders of its own. */
  lemma {:induction false} OuterIsEgal(t: Type, env: Pairs, names: bool, base: nat, lo: nat)
    requires New(Vars(t), env, base, lo)
    ensures Read(t, env, names, lo)
    decreases Size(t), 0
  {
    hide New, Firsts, Seconds, Once, PairedWith, Outermost, Depth;
    match t
    case DataType(_, params, _, _) => OuterIsEgalList(params, env, names, base, lo);
    case TypeVar(id) => OuterVar(id, env, names, base, lo);
    case UnionAll(_, _, _, _, _) => OuterUnionAll(t, env, names, base, lo);
    case Union(a, b) =>
      StillNew(Vars(t), Vars(a), env, base, lo, lo);
      StillNew(Vars(t), Vars(b), env, base, lo, lo + Size(a));
      OuterIsEgal(a, env, names, base, lo);
      OuterIsEgal(b, env, names, base, lo + Size(a));
    case TypeEq(T) => OuterIsEgal(T, env, names, base, lo);
    case TypeEgal(T) => OuterIsEgal(T, env, true, base, lo);
    case Vararg(_, _) => OuterVararg(t, env, names, base, lo);
    case Leaf(_) =>
  }

  lemma {:induction false} OuterVararg(t: Type, env: Pairs, names: bool, base: nat, lo: nat)
    requires t.Vararg? && New(Vars(t), env, base, lo)
    ensures Egal(Outer(t, env, lo), t, env, names)
    ensures Canon(Outer(t, env, lo), Firsts(env), names) == Canon(t, Seconds(env), names) <==> BoundOnce(t, Seconds(env))
    decreases Size(t), -1
  {
    hide New, Firsts, Seconds, Once;
    var e := ElemOf(t.elem);
    OuterElem(t.elem, env, lo);
    StillNew(Vars(t), Vars(e), env, base, lo, lo);
    OuterIsEgal(e, env, names, base, lo);
    if t.count.Some? {
      StillNew(Vars(t), Vars(t.count.value), env, base, lo, lo + Size(e));
      OuterIsEgal(t.count.value, env, names, base, lo + Size(e));
    }
  }

  /** Outer(t) is egal to t, and one with it exactly if no variable is bound twice. */
  ghost predicate Read(t: Type, env: Pairs, names: bool, lo: nat) {
    && Egal(Outer(t, env, lo), t, env, names)
    && (Canon(Outer(t, env, lo), Firsts(env), names) == Canon(t, Seconds(env), names) <==> BoundOnce(t, Seconds(env)))
  }

  lemma {:induction false} OuterUnionAll(t: Type, env: Pairs, names: bool, base: nat, lo: nat)
    requires t.UnionAll? && New(Vars(t), env, base, lo)
    ensures Read(t, env, names, lo)
    decreases Size(t), -1
  {
    hide New, Firsts, Seconds, Outer, Vars, Read, Size;
    NewParts(t, env, base, lo);
    ReadUnionAll(t, env, names, lo);
    var lo1, lo2, lo3 := lo + 1, lo + 1 + Size(t.lb), lo + 1 + Size(t.lb) + Size(t.ub);
    OuterIsEgal(t.lb, env, names, base, lo1);
    OuterIsEgal(t.ub, env, names, base, lo2);
    OuterIsEgal(t.body, [(lo, t.id)] + env, names, base, lo3);
  }

  lemma ReadUnionAll(t: Type, env: Pairs, names: bool, lo: nat)
    requires t.UnionAll?
    requires var env3 := [(lo, t.id)] + env;
      Firsts(env3) == [lo] + Firsts(env) && Seconds(env3) == [t.id] + Seconds(env)
    ensures var lo1, lo2, lo3 := lo + 1, lo + 1 + Size(t.lb), lo + 1 + Size(t.lb) + Size(t.ub);
      Read(t.lb, env, names, lo1) && Read(t.ub, env, names, lo2) && Read(t.body, [(lo, t.id)] + env, names, lo3)
      ==> Read(t, env, names, lo)
  {
    hide Firsts, Seconds, Egal, Canon, BoundOnce;
    UnionAllParts(Outer(t, env, lo), t, env, names);
  }

  /** What makes two binders egal, and one in canonical form. */
  lemma UnionAllParts(a: Type, b: Type, env: Pairs, names: bool)
    requires a.UnionAll? && b.UnionAll? && a.name == b.name
    ensures Egal(a, b, env, names)
      <==> Egal(a.lb, b.lb, env, names) && Egal(a.ub, b.ub, env, names) && Egal(a.body, b.body, [(a.id, b.id)] + env, names)
    ensures Canon(a, Firsts(env), names) == Canon(b, Seconds(env), names)
      <==> && Canon(a.lb, Firsts(env), names) == Canon(b.lb, Seconds(env), names)
           && Canon(a.ub, Firsts(env), names) == Canon(b.ub, Seconds(env), names)
           && Canon(a.body, [a.id] + Firsts(env), names) == Canon(b.body, [b.id] + Seconds(env), names)
    ensures BoundOnce(b, Seconds(env))
      <==> BoundOnce(b.lb, Seconds(env)) && BoundOnce(b.ub, Seconds(env)) && BoundOnce(b.body, [b.id] + Seconds(env))
  {
    hide Firsts, Seconds;
  }

  lemma {:induction false} OuterIsEgalList(ts: Types, env: Pairs, names: bool, base: nat, lo: nat)
    requires New(ListVars(ts), env, base, lo)
    ensures EgalList(OuterList(ts, env, lo), ts, env, names)
    ensures CanonList(OuterList(ts, env, lo), Firsts(env), names) == CanonList(ts, Seconds(env), names)
      <==> BoundOnceList(ts, Seconds(env))
    decreases ListSize(ts), 1
  {
    hide New, Firsts, Seconds;
    if ts.Cons? {
      StillNew(ListVars(ts), Vars(ts.head), env, base, lo, lo);
      StillNew(ListVars(ts), ListVars(ts.tail), env, base, lo, lo + Size(ts.head));
      OuterIsEgal(ts.head, env, names, base, lo);
      OuterIsEgalList(ts.tail, env, names, base, lo + Size(ts.head));
    }
  }

  // ---------------------------------------------------------------- what Outer(t) is made of

  /** No two binders of t bind one TypeVar. */
  ghost predicate Apart(t: Type)
    decreases Size(t), 0
  {
    match t
    case DataType(_, params, _, _) => ApartList(params)
    case UnionAll(id, _, lb, ub, body) =>
      && id !in Binders(lb) + Binders(ub) + Binders(body)
      && Binders(lb) !! Binders(ub) && Binders(lb) + Binders(ub) !! Binders(body)
      && Apart(lb) && Apart(ub) && Apart(body)
    case Union(a, b) => Binders(a) !! Binders(b) && Apart(a) && Apart(b)
    case TypeEq(T) => Apart(T)
    case TypeEgal(T) => Apart(T)
    case Vararg(elem, count) =>
      Apart(ElemOf(elem)) && (count.Some? ==> Binders(ElemOf(elem)) !! Binders(count.value) && Apart(count.value))
    case _ => true
  }

  ghost predicate ApartList(ts: Types)
    decreases ListSize(ts), 1
  {
    match ts case Nil => true
    case Cons(t, rest) => Binders(t) !! ListBinders(rest) && Apart(t) && ApartList(rest)
  }

  ghost predicate Between(s: set<nat>, lo: nat, hi: nat) {
    forall x :: x in s ==> lo <= x < hi
  }

  lemma BetweenApart(s: set<nat>, u: set<nat>, lo: nat, mid: nat, hi: nat)
    requires Between(s, lo, mid) && Between(u, mid, hi) && lo <= mid <= hi
    ensures s !! u && Between(s + u, lo, hi)
  {
  }

  /** The binders of Outer(t) are new, and all different. */
  lemma {:induction false} OuterBinders(t: Type, env: Pairs, lo: nat)
    ensures Between(Binders(Outer(t, env, lo)), lo, lo + Size(t)) && Apart(Outer(t, env, lo))
    decreases Size(t), 0
  {
    match t
    case DataType(_, params, _, _) => OuterListBinders(params, env, lo);
    case UnionAll(_, _, _, _, _) => OuterAllBinders(t, env, lo);
    case Union(a, b) =>
      OuterBinders(a, env, lo);
      OuterBinders(b, env, lo + Size(a));
      BetweenApart(Binders(Outer(a, env, lo)), Binders(Outer(b, env, lo + Size(a))), lo, lo + Size(a), lo + Size(a) + Size(b));
    case TypeEq(T) => OuterBinders(T, env, lo);
    case TypeEgal(T) => OuterBinders(T, env, lo);
    case Vararg(_, _) => OuterVarargBinders(t, env, lo);
    case _ =>
  }

  lemma {:induction false} OuterVarargBinders(t: Type, env: Pairs, lo: nat)
    requires t.Vararg?
    ensures Between(Binders(Outer(t, env, lo)), lo, lo + Size(t)) && Apart(Outer(t, env, lo))
    decreases Size(t), -1
  {
    var e := ElemOf(t.elem);
    OuterElem(t.elem, env, lo);
    OuterBinders(e, env, lo);
    if t.count.Some? {
      var c, mid := t.count.value, lo + Size(e);
      OuterBinders(c, env, mid);
      BetweenApart(Binders(Outer(e, env, lo)), Binders(Outer(c, env, mid)), lo, mid, mid + Size(c));
    }
  }

  lemma {:induction false} OuterAllBinders(t: Type, env: Pairs, lo: nat)
    requires t.UnionAll?
    ensures Between(Binders(Outer(t, env, lo)), lo, lo + Size(t)) && Apart(Outer(t, env, lo))
    decreases Size(t), -1
  {
    var lo1, lo2, lo3, hi := lo + 1, lo + 1 + Size(t.lb), lo + 1 + Size(t.lb) + Size(t.ub), lo + Size(t);
    OuterBinders(t.lb, env, lo1);
    OuterBinders(t.ub, env, lo2);
    OuterBinders(t.body, [(lo, t.id)] + env, lo3);
    hide Size;
    ApartParts(Outer(t, env, lo), lo, lo1, lo2, lo3, hi);
  }

  lemma ApartParts(t: Type, lo: nat, lo1: nat, lo2: nat, lo3: nat, hi: nat)
    requires t.UnionAll? && t.id == lo < lo1 <= lo2 <= lo3 < hi
    requires Between(Binders(t.lb), lo1, lo2) && Between(Binders(t.ub), lo2, lo3) && Between(Binders(t.body), lo3, hi)
    requires Apart(t.lb) && Apart(t.ub) && Apart(t.body)
    ensures Between(Binders(t), lo, hi) && Apart(t)
  {
    BetweenApart(Binders(t.lb), Binders(t.ub), lo1, lo2, lo3);
    BetweenApart(Binders(t.lb) + Binders(t.ub), Binders(t.body), lo1, lo3, hi);
  }

  lemma {:induction false} OuterListBinders(ts: Types, env: Pairs, lo: nat)
    ensures Between(ListBinders(OuterList(ts, env, lo)), lo, lo + ListSize(ts)) && ApartList(OuterList(ts, env, lo))
    decreases ListSize(ts), 1
  {
    if ts.Cons? {
      var mid := lo + Size(ts.head);
      OuterBinders(ts.head, env, lo);
      OuterListBinders(ts.tail, env, mid);
      BetweenApart(Binders(Outer(ts.head, env, lo)), ListBinders(OuterList(ts.tail, env, mid)), lo, mid, lo + ListSize(ts));
    }
  }

  ghost predicate OldAreFree(vars: set<nat>, free: set<nat>, base: nat) {
    forall x :: x in vars && x < base ==> x in free
  }

  lemma OldUnion(vars: set<nat>, free: set<nat>, vars': set<nat>, free': set<nat>, base: nat)
    requires OldAreFree(vars, free, base) && OldAreFree(vars', free', base)
    ensures OldAreFree(vars + vars', free + free', base)
  {
  }

  lemma OuterVarVars(id: nat, env: Pairs, base: nat, lo: nat)
    requires forall i :: 0 <= i < |env| ==> base <= env[i].0
    ensures OldAreFree(Vars(Outer(TypeVar(id), env, lo)), Free(TypeVar(id), Seconds(env)), base)
  {
  }

  lemma NoOldVars(t: Type, env: Pairs, base: nat, lo: nat)
    requires t.Leaf?
    ensures OldAreFree(Vars(Outer(t, env, lo)), Free(t, Seconds(env)), base)
  {
  }

  lemma SecondsNext(x: nat, y: nat, env: Pairs)
    ensures Seconds([(x, y)] + env) == [y] + Seconds(env)
  {
    assert ([(x, y)] + env)[1..] == env;
  }

  /** The variables that Outer(t) takes over from t are free there. */
  lemma {:induction false} OuterVars(t: Type, env: Pairs, base: nat, lo: nat)
    requires base <= lo && forall i :: 0 <= i < |env| ==> base <= env[i].0
    ensures OldAreFree(Vars(Outer(t, env, lo)), Free(t, Seconds(env)), base)
    decreases Size(t), 0
  {
    hide Seconds, Outermost, OldAreFree;
    match t
    case DataType(_, params, _, _) => OuterListVars(params, env, base, lo);
    case TypeVar(id) => OuterVarVars(id, env, base, lo);
    case UnionAll(id, _, lb, ub, body) =>
      var lo2, lo3, env3 := lo + 1 + Size(lb), lo + 1 + Size(lb) + Size(ub), [(lo, id)] + env;
      OuterVars(lb, env, base, lo + 1);
      OuterVars(ub, env, base, lo2);
      OuterVars(body, env3, base, lo3);
      SecondsNext(lo, id, env);
      var x, y, z := Vars(Outer(lb, env, lo + 1)), Vars(Outer(ub, env, lo2)), Vars(Outer(body, env3, lo3));
      var f, g := Free(lb, Seconds(env)), Free(ub, Seconds(env));
      OldUnion(x, f, y, g, base);
      OldUnion(x + y, f + g, z, Free(body, Seconds(env3)), base);
    case Union(a, b) =>
      OuterVars(a, env, base, lo);
      OuterVars(b, env, base, lo + Size(a));
      OldUnion(Vars(Outer(a, env, lo)), Free(a, Seconds(env)), Vars(Outer(b, env, lo + Size(a))), Free(b, Seconds(env)), base);
    case TypeEq(T) => OuterVars(T, env, base, lo);
    case TypeEgal(T) => OuterVars(T, env, base, lo);
    case Vararg(elem, count) => OuterVarargVars(elem, count, env, base, lo);
    case Leaf(_) => NoOldVars(t, env, base, lo);
  }

  lemma {:induction false} OuterVarargVars(elem: Option<Type>, count: Option<Type>, env: Pairs, base: nat, lo: nat)
    requires base <= lo && forall i :: 0 <= i < |env| ==> base <= env[i].0
    ensures OldAreFree(Vars(Outer(Vararg(elem, count), env, lo)), Free(Vararg(elem, count), Seconds(env)), base)
    decreases Size(Vararg(elem, count)), -1
  {
    hide Seconds, Outermost, OldAreFree;
    var e := ElemOf(elem);
    OuterElem(elem, env, lo);
    OuterVars(e, env, base, lo);
    VarargVars(elem, count, env, lo);
    if count.Some? {
      var c, mid := count.value, lo + Size(e);
      OuterVars(c, env, base, mid);
      OldUnion(Vars(Outer(e, env, lo)), Free(e, Seconds(env)), Vars(Outer(c, env, mid)), Free(c, Seconds(env)), base);
    }
  }

  lemma VarargVars(elem: Option<Type>, count: Option<Type>, env: Pairs, lo: nat)
    ensures var e, mid := ElemOf(elem), lo + Size(ElemOf(elem));
      && Vars(Outer(Vararg(elem, count), env, lo))
         == Vars(Outer(e, env, lo)) + (if count.Some? then Vars(Outer(count.value, env, mid)) else {})
      && Free(Vararg(elem, count), Seconds(env))
         == Free(e, Seconds(env)) + (if count.Some? then Free(count.value, Seconds(env)) else {})
      && (count.None? ==> Vars(Outer(Vararg(elem, count), env, lo)) == Vars(Outer(e, env, lo)))
      && (count.None? ==> Free(Vararg(elem, count), Seconds(env)) == Free(e, Seconds(env)))
  {
    hide Seconds;
    OuterElem(elem, env, lo);
  }

  lemma {:induction false} OuterListVars(ts: Types, env: Pairs, base: nat, lo: nat)
    requires base <= lo && forall i :: 0 <= i < |env| ==> base <= env[i].0
    ensures OldAreFree(ListVars(OuterList(ts, env, lo)), FreeList(ts, Seconds(env)), base)
    decreases ListSize(ts), 1
  {
    hide Seconds, Outermost;
    if ts.Cons? {
      OuterVars(ts.head, env, base, lo);
      OuterListVars(ts.tail, env, base, lo + Size(ts.head));
    }
  }

  lemma SomethingAbove(s: set<nat>) returns (n: nat)
    ensures forall x: nat :: x in s ==> x < n
  {
    if s == {} {
      n := 0;
    } else {
      var y: nat :| y in s;
      n := SomethingAbove(s - {y});
      assert forall x: nat :: x in s ==> x == y || x in s - {y};
      n := if n > y then n else y + 1;
    }
  }

  /** Every type in which no variable is both free and bound has an egal one that shares no bound TypeVar
  with it and binds each of its own once, whose canonical form is another if some variable occurs under
  two binders of its own. */
  lemma OtherReading(b: Type, names: bool, base: nat)
    requires Free(b, []) !! Binders(b) && forall x: nat :: x in Vars(b) + Binders(b) ==> x < base
    ensures var a := Outer(b, [], base);
      && Apart(a) && Separate(a, b) && Egal(a, b, [], names)
      && (Canon(a, [], names) == Canon(b, [], names) <==> BoundOnce(b, []))
      && (Free(b, []) == {} ==> Vars(a) !! Vars(b))
  {
    assert forall x: nat :: x in Vars(b) ==> x in Vars(b) + Binders(b);
    assert New(Vars(b), [], base, base);
    OuterIsEgal(b, [], names, base, base);
    OuterBinders(b, [], base);
    OuterVars(b, [], base, base);
  }

  /** The exact condition on b: egal_types takes b for no type with another canonical form, of all those
  that share no bound TypeVar with b, if and only if no variable of b occurs under two binders of its
  own. */
  lemma EgalIsCanonExactly(b: Type, names: bool)
    requires Free(b, []) !! Binders(b)
    ensures (forall a :: Separate(a, b) && Egal(a, b, [], names) ==> Canon(a, [], names) == Canon(b, [], names))
      <==> BoundOnce(b, [])
  {
    if BoundOnce(b, []) {
      forall a | Separate(a, b) && Egal(a, b, [], names) ensures Canon(a, [], names) == Canon(b, [], names) {
        EgalIsCanonEquality(a, b, names, _ => false);
        ShortcutSaves(a, b, [], names, [], _ => false);
      }
    } else {
      var base := SomethingAbove(Vars(b) + Binders(b));
      OtherReading(b, names, base);
    }
  }

  // ---------------------------------------------------------------- shared variables

  /* Where a variable of the first type is the very TypeVar of the second, egal_types does not ask what
  binds it.  So a type that binds x everywhere, and is otherwise t itself, is egal to t. */

  /** t with x in the place of every binder's variable. */
  function Capture(t: Type, x: nat): Type
    decreases Size(t), 0
  {
    match t
    case DataType(name, params, concrete, hash) => DataType(name, CaptureList(params, x), concrete, hash)
    case UnionAll(_, name, lb, ub, body) => UnionAll(x, name, Capture(lb, x), Capture(ub, x), Capture(body, x))
    case Union(a, b) => Union(Capture(a, x), Capture(b, x))
    case TypeEq(T) => TypeEq(Capture(T, x))
    case TypeEgal(T) => TypeEgal(Capture(T, x))
    case Vararg(elem, count) =>
      Vararg(if elem.Some? then Some(Capture(elem.value, x)) else None, if count.Some? then Some(Capture(count.value, x)) else None)
    case _ => t
  }

  function CaptureList(ts: Types, x: nat): Types
    decreases ListSize(ts), 1
  {
    match ts case Nil => Nil case Cons(t, rest) => Cons(Capture(t, x), CaptureList(rest, x))
  }

  lemma CaptureElem(elem: Option<Type>, x: nat)
    ensures ElemOf(if elem.Some? then Some(Capture(elem.value, x)) else None) == Capture(ElemOf(elem), x)
  {
    if elem.None? { assert CaptureList(Nil, x) == Nil; }
  }

  lemma {:induction false} CaptureIsEgal(t: Type, x: nat, env: Pairs, names: bool)
    ensures Egal(Capture(t, x), t, env, names)
    decreases Size(t), 0
  {
    match t
    case DataType(_, params, _, _) => CaptureIsEgalList(params, x, env, names);
    case UnionAll(id, _, lb, ub, body) =>
      CaptureIsEgal(lb, x, env, names);
      CaptureIsEgal(ub, x, env, names);
      CaptureIsEgal(body, x, [(x, id)] + env, names);
    case Union(a, b) =>
      CaptureIsEgal(a, x, env, names);
      CaptureIsEgal(b, x, env, names);
    case TypeEq(T) => CaptureIsEgal(T, x, env, names);
    case TypeEgal(T) => CaptureIsEgal(T, x, env, true);
    case Vararg(elem, count) =>
      CaptureElem(elem, x);
      CaptureIsEgal(ElemOf(elem), x, env, names);
      if count.Some? { CaptureIsEgal(count.value, x, env, names); }
    case _ =>
  }

  lemma {:induction false} CaptureIsEgalList(ts: Types, x: nat, env: Pairs, names: bool)
    ensures EgalList(CaptureList(ts, x), ts, env, names)
    decreases ListSize(ts), 1
  {
    if ts.Cons? {
      CaptureIsEgal(ts.head, x, env, names);
      CaptureIsEgalList(ts.tail, x, env, names);
    }
  }

  /** Every variable of t stands outside of all binders, if `under` says whether there is one around t. */
  predicate Outside(t: Type, under: bool)
    decreases Size(t), 0
  {
    match t
    case DataType(_, params, _, _) => OutsideList(params, under)
    case TypeVar(_) => !under
    case UnionAll(_, _, lb, ub, body) => Outside(lb, under) && Outside(ub, under) && Outside(body, true)
    case Union(a, b) => Outside(a, under) && Outside(b, under)
    case TypeEq(T) => Outside(T, under)
    case TypeEgal(T) => Outside(T, under)
    case Vararg(elem, count) => Outside(ElemOf(elem), under) && (count.Some? ==> Outside(count.value, under))
    case Leaf(_) => true
  }

  predicate OutsideList(ts: Types, under: bool)
    decreases ListSize(ts), 1
  {
    match ts case Nil => true case Cons(t, rest) => Outside(t, under) && OutsideList(rest, under)
  }

  /** How the canonical forms of t and of all its captures compare, below binders env. */
  ghost predicate NeverCaptured(t: Type, env: seq<nat>, names: bool) {
    forall x :: Canon(Capture(t, x), Xs(x, |env|), names) == Canon(t, env, names)
  }

  ghost predicate NeverCapturedList(ts: Types, env: seq<nat>, names: bool) {
    forall x :: CanonList(CaptureList(ts, x), Xs(x, |env|), names) == CanonList(ts, env, names)
  }

  function Xs(x: nat, n: nat): (s: seq<nat>)
    ensures |s| == n && forall i :: 0 <= i < n ==> s[i] == x
  {
    if n == 0 then [] else [x] + Xs(x, n - 1)
  }

  /** A variable below a binder is captured by itself, or lost. */
  lemma CapturedVar(id: nat, env: seq<nat>, names: bool)
    requires NeverCaptured(TypeVar(id), env, names)
    ensures env == []
  {
    assert Capture(TypeVar(id), id) == TypeVar(id) == Capture(TypeVar(id), id + 1);
    assert Canon(TypeVar(id), Xs(id, |env|), names) == Canon(TypeVar(id), env, names);
    assert Canon(TypeVar(id), Xs(id + 1, |env|), names) == Canon(TypeVar(id), env, names);
    assert id !in Xs(id + 1, |env|);
  }

  lemma {:induction false} CaptureTells(t: Type, env: seq<nat>, names: bool)
    requires NeverCaptured(t, env, names)
    ensures Outside(t, env != [])
    decreases Size(t), 0
  {
    match t
    case DataType(_, params, _, _) =>
      forall x ensures CanonList(CaptureList(params, x), Xs(x, |env|), names) == CanonList(params, env, names) {
        assert Canon(Capture(t, x), Xs(x, |env|), names) == Canon(t, env, names);
      }
      CaptureTellsList(params, env, names);
    case TypeVar(id) => CapturedVar(id, env, names);
    case UnionAll(id, _, lb, ub, body) =>
      forall x
        ensures Canon(Capture(lb, x), Xs(x, |env|), names) == Canon(lb, env, names)
        ensures Canon(Capture(ub, x), Xs(x, |env|), names) == Canon(ub, env, names)
        ensures Canon(Capture(body, x), Xs(x, |[id] + env|), names) == Canon(body, [id] + env, names)
      {
        assert Canon(Capture(t, x), Xs(x, |env|), names) == Canon(t, env, names);
      }
      CaptureTells(lb, env, names);
      CaptureTells(ub, env, names);
      CaptureTells(body, [id] + env, names);
    case Union(a, b) =>
      forall x
        ensures Canon(Capture(a, x), Xs(x, |env|), names) == Canon(a, env, names)
        ensures Canon(Capture(b, x), Xs(x, |env|), names) == Canon(b, env, names)
      {
        assert Canon(Capture(t, x), Xs(x, |env|), names) == Canon(t, env, names);
      }
      CaptureTells(a, env, names);
      CaptureTells(b, env, names);
    case TypeEq(T) =>
      forall x ensures Canon(Capture(T, x), Xs(x, |env|), names) == Canon(T, env, names) {
        assert Canon(Capture(t, x), Xs(x, |env|), names) == Canon(t, env, names);
      }
      CaptureTells(T, env, names);
    case TypeEgal(T) =>
      forall x ensures Canon(Capture(T, x), Xs(x, |env|), true) == Canon(T, env, true) {
        assert Canon(Capture(t, x), Xs(x, |env|), names) == Canon(t, env, names);
      }
      CaptureTells(T, env, true);
    case Vararg(_, _) => CaptureTellsVararg(t, env, names);
    case Leaf(_) =>
  }

  lemma {:induction false} CaptureTellsVararg(t: Type, env: seq<nat>, names: bool)
    requires t.Vararg? && NeverCaptured(t, env, names)
    ensures Outside(t, env != [])
    decreases Size(t), -1
  {
    var e := ElemOf(t.elem);
    forall x
      ensures Canon(Capture(e, x), Xs(x, |env|), names) == Canon(e, env, names)
      ensures t.count.Some? ==> Canon(Capture(t.count.value, x), Xs(x, |env|), names) == Canon(t.count.value, env, names)
    {
      CaptureElem(t.elem, x);
      assert Canon(Capture(t, x), Xs(x, |env|), names) == Canon(t, env, names);
    }
    CaptureTells(e, env, names);
    if t.count.Some? { CaptureTells(t.count.value, env, names); }
  }

  lemma {:induction false} CaptureTellsList(ts: Types, env: seq<nat>, names: bool)
    requires NeverCapturedList(ts, env, names)
    ensures OutsideList(ts, env != [])
    decreases ListSize(ts), 1
  {
    if ts.Cons? {
      forall x
        ensures Canon(Capture(ts.head, x), Xs(x, |env|), names) == Canon(ts.head, env, names)
        ensures CanonList(CaptureList(ts.tail, x), Xs(x, |env|), names) == CanonList(ts.tail, env, names)
      {
        assert CanonList(CaptureList(ts, x), Xs(x, |env|), names) == CanonList(ts, env, names);
      }
      CaptureTells(ts.head, env, names);
      CaptureTellsList(ts.tail, env, names);
    }
  }

  /** Variables outside of all binders only match themselves. */
  lemma {:induction false} OutsideGivesCanon(a: Type, b: Type, env: Pairs, names: bool)
    requires Egal(a, b, env, names) && Outside(b, env != [])
    ensures Canon(a, Firsts(env), names) == Canon(b, Seconds(env), names)
    decreases Size(a), 0
  {
    match a
    case DataType(_, params, _, _) => OutsideGivesCanonList(params, b.params, env, names);
    case TypeVar(_) =>
    case UnionAll(id, _, lb, ub, body) =>
      OutsideGivesCanon(lb, b.lb, env, names);
      OutsideGivesCanon(ub, b.ub, env, names);
      OutsideGivesCanon(body, b.body, [(id, b.id)] + env, names);
    case Union(x, y) =>
      OutsideGivesCanon(x, b.a, env, names);
      OutsideGivesCanon(y, b.b, env, names);
    case TypeEq(T) => OutsideGivesCanon(T, b.T, env, names);
    case TypeEgal(T) => OutsideGivesCanon(T, b.T, env, true);
    case Vararg(elem, count) =>
      OutsideGivesCanon(ElemOf(elem), ElemOf(b.elem), env, names);
      if count.Some? { OutsideGivesCanon(count.value, b.count.value, env, names); }
    case Leaf(_) =>
  }

  lemma {:induction false} OutsideGivesCanonList(a: Types, b: Types, env: Pairs, names: bool)
    requires EgalList(a, b, env, names) && OutsideList(b, env != [])
    ensures CanonList(a, Firsts(env), names) == CanonList(b, Seconds(env), names)
    decreases ListSize(a), 1
  {
    if a.Cons? {
      OutsideGivesCanon(a.head, b.head, env, names);
      OutsideGivesCanonList(a.tail, b.tail, env, names);
    }
  }

  /** egal_types takes b for no type with another canonical form. */
  ghost predicate NeverMistaken(b: Type, names: bool) {
    forall a :: Egal(a, b, [], names) ==> Canon(a, [], names) == Canon(b, [], names)
  }

  /** The exact condition if nothing is said about shared variables: egal_types takes b for no type with
  another canonical form at all if and only if no variable of b stands below a binder. */
  lemma SharingExactly(b: Type, names: bool)
    ensures NeverMistaken(b, names) <==> Outside(b, false)
  {
    if Outside(b, false) {
      forall a | Egal(a, b, [], names) ensures Canon(a, [], names) == Canon(b, [], names) {
        OutsideGivesCanon(a, b, [], names);
      }
    }
    if NeverMistaken(b, names) {
      forall x ensures Canon(Capture(b, x), Xs(x, 0), names) == Canon(b, [], names) {
        CaptureIsEgal(b, x, [], names);
      }
      CaptureTells(b, [], names);
    }
  }

  // ---------------------------------------------------------------- what the hash makes of it

  /** No type in t carries a cached hash. */
  predicate NoCached(t: Type)
    decreases Size(t), 0
  {
    match t
    case DataType(_, params, concrete, _) => !concrete && NoCachedList(params)
    case UnionAll(_, _, lb, ub, body) => NoCached(lb) && NoCached(ub) && NoCached(body)
    case Union(a, b) => NoCached(a) && NoCached(b)
    case TypeEq(T) => NoCached(T)
    case TypeEgal(T) => NoCached(T)
    case Vararg(elem, count) => NoCached(ElemOf(elem)) && (count.Some? ==> NoCached(count.value))
    case _ => true
  }

  predicate NoCachedList(ts: Types)
    decreases ListSize(ts), 1
  {
    match ts case Nil => true case Cons(t, rest) => NoCached(t) && NoCachedList(rest)
  }

  /** A mixing function under which no depth gets lost. */
  ghost predicate Adds(m: Hasher) {
    forall x: nat, y: nat :: m.mix(x, y) == x + y
  }

  lemma {:induction false} HashListAdds(m: Hasher, h: nat, ts: Types, env: seq<nat>)
    requires Adds(m)
    ensures HashList(m, h, ts, env) == h + HashList(m, 0, ts, env)
    decreases ListSize(ts)
  {
    if ts.Cons? {
      var k := Hash(m, ts.head, env);
      HashListAdds(m, m.mix(h, k), ts.tail, env);
      HashListAdds(m, m.mix(0, k), ts.tail, env);
    }
  }

  /** x is at least y, and equal to it exactly if `once`. */
  ghost predicate AtLeast(x: nat, y: nat, once: bool) {
    x >= y && (x == y <==> once)
  }

  /** The other reading puts variables deeper. */
  ghost predicate Deeper(m: Hasher, t: Type, env: Pairs, lo: nat) {
    && NoCached(Outer(t, env, lo))
    && AtLeast(Hash(m, Outer(t, env, lo), Firsts(env)), Hash(m, t, Seconds(env)), BoundOnce(t, Seconds(env)))
  }

  ghost predicate DeeperList(m: Hasher, ts: Types, env: Pairs, lo: nat) {
    && NoCachedList(OuterList(ts, env, lo))
    && AtLeast(HashList(m, 0, OuterList(ts, env, lo), Firsts(env)), HashList(m, 0, ts, Seconds(env)), BoundOnceList(ts, Seconds(env)))
  }

  lemma OuterVarHash(m: Hasher, id: nat, env: Pairs, base: nat, lo: nat)
    requires New({id}, env, base, lo)
    ensures Deeper(m, TypeVar(id), env, lo)
  {
    var s := Seconds(env);
    if id in s {
      NewDepth(env, Outermost(s, id), base, lo);
      OnceIfOutermost(s, id);
    } else {
      assert id !in Firsts(env);
      assert forall i :: 0 <= i < |s| ==> s[i] != id;
    }
  }

  /** What a node adds to the hashes of its parts. */
  function NodeHash(m: Hasher, t: Type): nat {
    match t
    case DataType(name, _, _, _) => m.dataName(name)
    case UnionAll(_, name, _, _, _) => m.varName(name)
    case Union(_, _) => m.union
    case TypeEq(_) => m.typeEq
    case TypeEgal(_) => m.typeEgal
    case Vararg(_, count) => if count.Some? then 0 else m.nothing
    case _ => 0
  }

  lemma HashIsSum(m: Hasher, t: Type, env: seq<nat>)
    requires Adds(m) && NoCached(t)
    ensures t.DataType? ==> Hash(m, t, env) == NodeHash(m, t) + HashList(m, 0, t.params, env)
    ensures t.UnionAll? ==>
      Hash(m, t, env) == NodeHash(m, t) + Hash(m, t.lb, env) + Hash(m, t.ub, env) + Hash(m, t.body, [t.id] + env)
    ensures t.Union? ==> Hash(m, t, env) == NodeHash(m, t) + Hash(m, t.a, env) + Hash(m, t.b, env)
    ensures t.TypeEq? || t.TypeEgal? ==> Hash(m, t, env) == NodeHash(m, t) + Hash(m, t.T, env)
    ensures t.Vararg? ==>
      Hash(m, t, env) == NodeHash(m, t) + Hash(m, ElemOf(t.elem), env) + if t.count.Some? then Hash(m, t.count.value, env) else 0
  {
    if t.DataType? { HashListAdds(m, m.dataName(t.name), t.params, env); }
  }

  lemma {:induction false} OuterHash(m: Hasher, t: Type, env: Pairs, base: nat, lo: nat)
    requires Adds(m) && NoCached(t) && New(Vars(t), env, base, lo)
    ensures Deeper(m, t, env, lo)
    decreases Size(t), 0
  {
    hide New, Firsts, Seconds, Once, Outermost, Depth, Adds, Hash, HashList, AtLeast, NodeHash;
    match t
    case DataType(_, params, _, _) =>
      OuterHashList(m, params, env, base, lo);
      HashIsSum(m, t, Seconds(env));
      HashIsSum(m, Outer(t, env, lo), Firsts(env));
      OuterNode(m, t, env, lo);
    case TypeVar(id) => OuterVarHash(m, id, env, base, lo);
    case UnionAll(_, _, _, _, _) => OuterAllHash(m, t, env, base, lo);
    case Union(_, _) => OuterUnionHash(m, t, env, base, lo);
    case TypeEq(T) =>
      OuterHash(m, T, env, base, lo);
      HashIsSum(m, t, Seconds(env));
      HashIsSum(m, Outer(t, env, lo), Firsts(env));
      OuterNode(m, t, env, lo);
    case TypeEgal(T) =>
      OuterHash(m, T, env, base, lo);
      HashIsSum(m, t, Seconds(env));
      HashIsSum(m, Outer(t, env, lo), Firsts(env));
      OuterNode(m, t, env, lo);
    case Vararg(_, _) => OuterVarargHash(m, t, env, base, lo);
    case Leaf(_) => OuterLeafHash(m, t, env, lo);
  }

  lemma OuterLeafHash(m: Hasher, t: Type, env: Pairs, lo: nat)
    requires t.Leaf?
    ensures Deeper(m, t, env, lo)
  {
  }

  /** A node adds the same on either side. */
  lemma OuterNode(m: Hasher, t: Type, env: Pairs, lo: nat)
    ensures NodeHash(m, Outer(t, env, lo)) == NodeHash(m, t)
    ensures forall x: nat, y: nat, p: bool :: AtLeast(x, y, p) ==> AtLeast(NodeHash(m, t) + x, NodeHash(m, t) + y, p)
  {
  }

  lemma OuterUnionHash(m: Hasher, t: Type, env: Pairs, base: nat, lo: nat)
    requires t.Union? && Adds(m) && NoCached(t) && New(Vars(t), env, base, lo)
    ensures Deeper(m, t, env, lo)
    decreases Size(t), -1
  {
    hide New, Firsts, Seconds, Adds, Hash, NodeHash;
    var x, y := Outer(t.a, env, lo), Outer(t.b, env, lo + Size(t.a));
    StillNew(Vars(t), Vars(t.a), env, base, lo, lo);
    StillNew(Vars(t), Vars(t.b), env, base, lo, lo + Size(t.a));
    OuterHash(m, t.a, env, base, lo);
    OuterHash(m, t.b, env, base, lo + Size(t.a));
    HashIsSum(m, t, Seconds(env));
    HashIsSum(m, Union(x, y), Firsts(env));
    OuterNode(m, t, env, lo);
  }

  lemma OuterVarargHash(m: Hasher, t: Type, env: Pairs, base: nat, lo: nat)
    requires t.Vararg? && Adds(m) && NoCached(t) && New(Vars(t), env, base, lo)
    ensures Deeper(m, t, env, lo)
    decreases Size(t), -1
  {
    hide New, Firsts, Seconds, Adds, Hash, NodeHash;
    var e := ElemOf(t.elem);
    OuterElem(t.elem, env, lo);
    StillNew(Vars(t), Vars(e), env, base, lo, lo);
    OuterHash(m, e, env, base, lo);
    if t.count.Some? {
      StillNew(Vars(t), Vars(t.count.value), env, base, lo, lo + Size(e));
      OuterHash(m, t.count.value, env, base, lo + Size(e));
    }
    HashIsSum(m, t, Seconds(env));
    HashIsSum(m, Outer(t, env, lo), Firsts(env));
    OuterNode(m, t, env, lo);
  }

  lemma OuterAllHash(m: Hasher, t: Type, env: Pairs, base: nat, lo: nat)
    requires t.UnionAll? && Adds(m) && NoCached(t) && New(Vars(t), env, base, lo)
    ensures Deeper(m, t, env, lo)
    decreases Size(t), -1
  {
    hide New, Firsts, Seconds, Adds, Hash, NodeHash, Vars;
    NewParts(t, env, base, lo);
    var lo1, lo2, lo3 := lo + 1, lo + 1 + Size(t.lb), lo + 1 + Size(t.lb) + Size(t.ub);
    var env3 := [(lo, t.id)] + env;
    var lb, ub, body := Outer(t.lb, env, lo1), Outer(t.ub, env, lo2), Outer(t.body, env3, lo3);
    OuterHash(m, t.lb, env, base, lo1);
    OuterHash(m, t.ub, env, base, lo2);
    OuterHash(m, t.body, env3, base, lo3);
    HashIsSum(m, t, Seconds(env));
    HashIsSum(m, UnionAll(lo, t.name, lb, ub, body), Firsts(env));
    OuterNode(m, t, env, lo);
  }

  lemma {:induction false} OuterHashList(m: Hasher, ts: Types, env: Pairs, base: nat, lo: nat)
    requires Adds(m) && NoCachedList(ts) && New(ListVars(ts), env, base, lo)
    ensures DeeperList(m, ts, env, lo)
    decreases ListSize(ts), 1
  {
    hide New, Firsts, Seconds, Adds, Hash;
    if ts.Cons? {
      var lo' := lo + Size(ts.head);
      StillNew(ListVars(ts), Vars(ts.head), env, base, lo, lo);
      StillNew(ListVars(ts), ListVars(ts.tail), env, base, lo, lo');
      OuterHash(m, ts.head, env, base, lo);
      OuterHashList(m, ts.tail, env, base, lo');
      HashListNext(m, Outer(ts.head, env, lo), OuterList(ts.tail, env, lo'), Firsts(env));
      HashListNext(m, ts.head, ts.tail, Seconds(env));
    }
  }

  lemma HashListNext(m: Hasher, t: Type, rest: Types, env: seq<nat>)
    requires Adds(m)
    ensures HashList(m, 0, Cons(t, rest), env) == Hash(m, t, env) + HashList(m, 0, rest, env)
  {
    HashListAdds(m, m.mix(0, Hash(m, t, env)), rest, env);
  }

  lemma {:induction false} NothingCached(t: Type, env: seq<nat>)
    requires NoCached(t)
    ensures WellCached(_ => None, t, env)
    decreases Size(t), 0
  {
    match t
    case DataType(_, params, _, _) => NothingCachedList(params, env);
    case UnionAll(id, _, lb, ub, body) =>
      NothingCached(lb, env);
      NothingCached(ub, env);
      NothingCached(body, [id] + env);
    case Union(a, b) =>
      NothingCached(a, env);
      NothingCached(b, env);
    case TypeEq(T) => NothingCached(T, env);
    case TypeEgal(T) => NothingCached(T, env);
    case Vararg(elem, count) =>
      NothingCached(ElemOf(elem), env);
      if count.Some? { NothingCached(count.value, env); }
    case _ =>
  }

  lemma {:induction false} NothingCachedList(ts: Types, env: seq<nat>)
    requires NoCachedList(ts)
    ensures WellCachedList(_ => None, ts, env)
    decreases ListSize(ts), 1
  {
    if ts.Cons? {
      NothingCached(ts.head, env);
      NothingCachedList(ts.tail, env);
    }
  }

  /** A mixing function under which no depth gets lost, and nothing else counts. */
  function Adder(): Hasher {
    Hasher((x: nat, y: nat) => x + y, _ => 0, _ => 0, _ => 0, _ => 0, 0, 0, 0, 0)
  }

  lemma BoundOnceHashesAlike(b: Type, a: Type, m: Hasher)
    requires BoundOnce(b, []) && NoCached(a) && NoCached(b) && Separate(a, b) && Egal(a, b, [], true)
    ensures Hash(m, a, []) == Hash(m, b, [])
  {
    ShortcutSaves(a, b, [], true, [], _ => false);
    NothingCached(a, []);
    NothingCached(b, []);
    EgalTypesHashAlike(m, _ => None, a, b, _ => false);
  }

  lemma OtherReadingHash(b: Type, base: nat)
    requires NoCached(b) && forall x: nat :: x in Vars(b) + Binders(b) ==> x < base
    ensures NoCached(Outer(b, [], base))
    ensures Hash(Adder(), Outer(b, [], base), []) == Hash(Adder(), b, []) <==> BoundOnce(b, [])
  {
    assert forall x: nat :: x in Vars(b) ==> x in Vars(b) + Binders(b);
    OuterHash(Adder(), b, [], base, base);
  }

  /** The same condition decides whether egality implies equal hashes, for types that carry no cached
  hash. */
  lemma EgalHashesAlikeExactly(b: Type)
    requires Free(b, []) !! Binders(b) && NoCached(b)
    ensures (forall a, m :: NoCached(a) && Separate(a, b) && Egal(a, b, [], true) ==> Hash(m, a, []) == Hash(m, b, []))
      <==> BoundOnce(b, [])
  {
    hide NoCached, Separate, Egal, Hash, BoundOnce, Adder;
    if BoundOnce(b, []) {
      forall a, m | NoCached(a) && Separate(a, b) && Egal(a, b, [], true) ensures Hash(m, a, []) == Hash(m, b, []) {
        BoundOnceHashesAlike(b, a, m);
      }
    } else {
      var base := SomethingAbove(Vars(b) + Binders(b));
      OtherReading(b, true, base);
      OtherReadingHash(b, base);
    }
  }

  // ---------------------------------------------------------------- the conditions are needed

  /** `body where T`, for a variable between the empty union and Any. */
  function All(id: nat, body: Type): Type { UnionAll(id, 0, Leaf(0), AnyType, body) }

  /** A parametric type with three parameters. */
  function D(x: Type, y: Type, z: Type): Type { DataType(1, Cons(x, Cons(y, Cons(z, Nil))), false, 0) }

  lemma UnderBinder(x: nat, a: Type, y: nat, b: Type, env: Pairs)
    ensures Egal(All(x, a), All(y, b), env, true) <==> Egal(a, b, [(x, y)] + env, true)
  {
    EgalItself(AnyType, env, true);
    assert Egal(Leaf(0), Leaf(0), env, true);
  }

  lemma UnderBinderHash(m: Hasher, x: nat, a: Type, env: seq<nat>)
    requires Adds(m)
    ensures Hash(m, All(x, a), env) == Hash(m, a, [x] + env) + m.varName(0) + m.leaf(0) + m.dataName(ANY_NAME)
  {
    assert Hash(m, AnyType, env) == HashList(m, m.dataName(ANY_NAME), Nil, env) == m.dataName(ANY_NAME);
  }

  lemma Params(x: Type, y: Type, z: Type, x': Type, y': Type, z': Type, env: Pairs)
    ensures Egal(D(x, y, z), D(x', y', z'), env, true)
      <==> Egal(x, x', env, true) && Egal(y, y', env, true) && Egal(z, z', env, true)
  {
    hide Egal;
    var ps, ps' := Cons(z, Nil), Cons(z', Nil);
    assert EgalList(Nil, Nil, env, true);
    assert EgalList(ps, ps', env, true) <==> Egal(z, z', env, true);
    assert EgalList(Cons(y, ps), Cons(y', ps'), env, true) <==> Egal(y, y', env, true) && Egal(z, z', env, true);
    assert EgalList(Cons(x, Cons(y, ps)), Cons(x', Cons(y', ps')), env, true)
      <==> Egal(x, x', env, true) && EgalList(Cons(y, ps), Cons(y', ps'), env, true);
    DIsEgal(Cons(x, Cons(y, ps)), Cons(x', Cons(y', ps')), env);
  }

  lemma DIsEgal(ps: Types, ps': Types, env: Pairs)
    ensures Egal(DataType(1, ps, false, 0), DataType(1, ps', false, 0), env, true) <==> EgalList(ps, ps', env, true)
  {
  }

  lemma ParamsHash(m: Hasher, x: Type, y: Type, z: Type, env: seq<nat>)
    requires Adds(m)
    ensures Hash(m, D(x, y, z), env) == m.dataName(1) + Hash(m, x, env) + Hash(m, y, env) + Hash(m, z, env)
  {
    HashIsSum3(m, x, y, z, env);
    HashListAdds(m, m.dataName(1), Cons(x, Cons(y, Cons(z, Nil))), env);
  }

  lemma HashIsSum3(m: Hasher, x: Type, y: Type, z: Type, env: seq<nat>)
    requires Adds(m)
    ensures HashList(m, 0, Cons(x, Cons(y, Cons(z, Nil))), env) == Hash(m, x, env) + Hash(m, y, env) + Hash(m, z, env)
  {
    hide Hash;
    HashListNext(m, x, Cons(y, Cons(z, Nil)), env);
    HashListNext(m, y, Cons(z, Nil), env);
    HashListNext(m, z, Nil, env);
    assert HashList(m, 0, Nil, env) == 0;
  }

  /** A variable under two binders. */
  lemma VarUnderTwo(x: nat, y: nat, x': nat, y': nat, v: nat, v': nat)
    ensures Egal(TypeVar(v), TypeVar(v'), [(y, y'), (x, x')], true)
      <==> v == v' || (if v == y then v' == y' else v == x && v' == x')
  {
    var env := [(y, y'), (x, x')];
    assert env[1..] == [(x, x')];
    assert PairedWith([(x, x')], v, TypeVar(v')) <==> v == x && v' == x';
  }

  lemma VarUnderTwoHash(m: Hasher, x: nat, y: nat, v: nat)
    requires v == x || v == y
    ensures Hash(m, TypeVar(v), [y, x]) == BoundHash(if v == y then 0 else 1)
  {
    DepthNext(y, [x], v);
    DepthNext(x, [], v);
    assert [y] + [x] == [y, x] && [x] + [] == [x];
  }

  function DVars(u: nat, v: nat, w: nat): Type { D(TypeVar(u), TypeVar(v), TypeVar(w)) }

  /** Three variables under two binders each. */
  lemma ThreeVars(x: nat, y: nat, x': nat, y': nat, u: nat, v: nat, w: nat, u': nat, v': nat, w': nat)
    ensures Egal(DVars(u, v, w), DVars(u', v', w'), [(y, y'), (x, x')], true)
      <==> && (u == u' || (if u == y then u' == y' else u == x && u' == x'))
           && (v == v' || (if v == y then v' == y' else v == x && v' == x'))
           && (w == w' || (if w == y then w' == y' else w == x && w' == x'))
  {
    hide Egal;
    Params(TypeVar(u), TypeVar(v), TypeVar(w), TypeVar(u'), TypeVar(v'), TypeVar(w'), [(y, y'), (x, x')]);
    VarUnderTwo(x, y, x', y', u, u');
    VarUnderTwo(x, y, x', y', v, v');
    VarUnderTwo(x, y, x', y', w, w');
  }

  lemma ThreeVarsHash(m: Hasher, x: nat, y: nat, u: nat, v: nat, w: nat)
    requires Adds(m) && u in {x, y} && v in {x, y} && w in {x, y}
    ensures Hash(m, DVars(u, v, w), [y, x])
         == m.dataName(1) + 3 * 42 + 256 * ((if u == y then 0 else 1) + (if v == y then 0 else 1) + (if w == y then 0 else 1))
  {
    hide Hash;
    ParamsHash(m, TypeVar(u), TypeVar(v), TypeVar(w), [y, x]);
    VarUnderTwoHash(m, x, y, u);
    VarUnderTwoHash(m, x, y, v);
    VarUnderTwoHash(m, x, y, w);
  }

  /** D{x, x, D{u, v, w} where y} where x */
  function Nested(x: nat, y: nat, u: nat, v: nat, w: nat): Type {
    All(x, D(TypeVar(x), TypeVar(x), All(y, DVars(u, v, w))))
  }

  lemma NestedEgal(x: nat, y: nat, u: nat, v: nat, w: nat, x': nat, y': nat, u': nat, v': nat, w': nat)
    ensures Egal(Nested(x, y, u, v, w), Nested(x', y', u', v', w'), [], true)
      <==> Egal(DVars(u, v, w), DVars(u', v', w'), [(y, y'), (x, x')], true)
  {
    var env := [(x, x')];
    assert env + [] == env && [(y, y')] + env == [(y, y'), (x, x')];
    assert Egal(TypeVar(x), TypeVar(x'), env, true);
    hide Egal;
    var inner, inner' := All(y, DVars(u, v, w)), All(y', DVars(u', v', w'));
    UnderBinder(x, D(TypeVar(x), TypeVar(x), inner), x', D(TypeVar(x'), TypeVar(x'), inner'), []);
    Params(TypeVar(x), TypeVar(x), inner, TypeVar(x'), TypeVar(x'), inner', env);
    UnderBinder(y, DVars(u, v, w), y', DVars(u', v', w'), env);
  }

  /** What the binders add to a hash. */
  function BinderHash(m: Hasher): nat { m.varName(0) + m.leaf(0) + m.dataName(ANY_NAME) }

  lemma NestedHash(m: Hasher, x: nat, y: nat, u: nat, v: nat, w: nat)
    requires Adds(m)
    ensures Hash(m, Nested(x, y, u, v, w), []) == Hash(m, DVars(u, v, w), [y, x]) + 2 * BinderHash(m) + m.dataName(1) + 2 * 42
  {
    assert [x] + [] == [x] && [y] + [x] == [y, x];
    assert Hash(m, TypeVar(x), [x]) == 42;
    hide Hash;
    var inner := All(y, DVars(u, v, w));
    UnderBinderHash(m, x, D(TypeVar(x), TypeVar(x), inner), []);
    ParamsHash(m, TypeVar(x), TypeVar(x), inner, [x]);
    UnderBinderHash(m, y, DVars(u, v, w), [x]);
  }

  /** A variable bound again within its scope: then egal_types is not symmetric, and the hashes of egal
  types may differ. */
  lemma RebindingMisleads(m: Hasher)
    requires Adds(m)
    ensures var a, b := Nested(1, 2, 1, 2, 2), Nested(3, 3, 3, 3, 3);
      && Egal(a, b, [], true) && !Egal(b, a, [], true)
      && Hash(m, a, []) != Hash(m, b, [])
  {
    hide Egal, Hash, Adds;
    NestedEgal(1, 2, 1, 2, 2, 3, 3, 3, 3, 3);
    NestedEgal(3, 3, 3, 3, 3, 1, 2, 1, 2, 2);
    ThreeVars(1, 2, 3, 3, 1, 2, 2, 3, 3, 3);
    ThreeVars(3, 3, 1, 2, 3, 3, 3, 1, 2, 2);
    NestedHash(m, 1, 2, 1, 2, 2);
    NestedHash(m, 3, 3, 3, 3, 3);
    ThreeVarsHash(m, 1, 2, 1, 2, 2);
    ThreeVarsHash(m, 3, 3, 3, 3, 3);
  }

  /** A TypeVar shared by two types and bound at different depths: the test for identical objects takes
  them for egal, and the hashes may differ. */
  lemma SharingMisleads(m: Hasher)
    requires Adds(m)
    ensures var a, b := All(1, All(2, DVars(1, 2, 1))), All(3, All(1, DVars(1, 1, 3)));
      && Egal(a, b, [], true) && BoundOnce(b, [])
      && Hash(m, a, []) != Hash(m, b, [])
  {
    hide Egal, Hash, BoundOnce, Adds;
    var body, body' := DVars(1, 2, 1), DVars(1, 1, 3);
    assert [(1, 3)] + [] == [(1, 3)] && [(2, 1)] + [(1, 3)] == [(2, 1), (1, 3)];
    assert [1] + [] == [1] && [3] + [] == [3] && [2] + [1] == [2, 1] && [1] + [3] == [1, 3];
    SharedBoundOnce();
    UnderBinder(1, All(2, body), 3, All(1, body'), []);
    UnderBinder(2, body, 1, body', [(1, 3)]);
    ThreeVars(1, 2, 3, 1, 1, 2, 1, 1, 1, 3);
    UnderBinderHash(m, 1, All(2, body), []);
    UnderBinderHash(m, 2, body, [1]);
    UnderBinderHash(m, 3, All(1, body'), []);
    UnderBinderHash(m, 1, body', [3]);
    ThreeVarsHash(m, 1, 2, 1, 2, 1);
    ThreeVarsHash(m, 3, 1, 1, 1, 3);
  }

  lemma SharedBoundOnce()
    ensures BoundOnce(All(3, All(1, DVars(1, 1, 3))), [])
  {
    assert [3] + [] == [3] && [1] + [3] == [1, 3];
    assert Once([1, 3], 1) && Once([1, 3], 3);
    assert BoundOnceList(Cons(TypeVar(3), Nil), [1, 3]);
    assert BoundOnceList(Cons(TypeVar(1), Cons(TypeVar(3), Nil)), [1, 3]);
    assert BoundOnce(DVars(1, 1, 3), [1, 3]);
    AnyBoundOnce([3]);
    AnyBoundOnce([]);
    assert BoundOnce(All(1, DVars(1, 1, 3)), [3]);
  }

  lemma AnyBoundOnce(env: seq<nat>)
    ensures BoundOnce(AnyType, env)
  {
    assert BoundOnceList(Nil, env);
  }
}
