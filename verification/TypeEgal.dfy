/** Egality of types and its hash (egal_types and type_object_id_ in src/builtins.c). */
module TypeEgality {

  /* egal_types compares two terms under an environment that pairs the type variables bound so far on
  either side.  type_object_id_ hashes one term under an environment that gives the depth of each
  binder.  Both are measured here against a third reading: the canonical form, in which a bound
  variable is replaced by the number of binders between it and its own. */

  datatype Option<T> = None | Some(value: T)

  /** A type.  A TypeVar object is known by its identity; its name and bounds sit at the UnionAll that
  binds it.  A DataType may carry a cached hash.  Leaf stands for every other value, with what
  jl_egal compares of it. */
  datatype Type =
    | DataType(name: nat, params: Types, concrete: bool, hash: nat)
    | TypeVar(id: nat)
    | UnionAll(id: nat, name: nat, lb: Type, ub: Type, body: Type)
    | Union(a: Type, b: Type)
    | TypeEq(T: Type)
    | TypeEgal(T: Type)
    | Vararg(elem: Option<Type>, count: Option<Type>)
    | Leaf(value: nat)

  datatype Types = Nil | Cons(head: Type, tail: Types)

  const ANY_NAME := 0

  /** jl_any_type, which an absent Vararg element stands for */
  const AnyType := DataType(ANY_NAME, Nil, false, 0)

  function ElemOf(elem: Option<Type>): Type {
    if elem.Some? then elem.value else AnyType
  }

  function Size(t: Type): (n: nat)
    ensures n > 0
    decreases t
  {
    match t
    case DataType(_, params, _, _) => 1 + ListSize(params)
    case UnionAll(_, _, lb, ub, body) => 1 + Size(lb) + Size(ub) + Size(body)
    case Union(a, b) => 1 + Size(a) + Size(b)
    case TypeEq(T) => 1 + Size(T)
    case TypeEgal(T) => 1 + Size(T)
    case Vararg(elem, count) =>
      1 + (if elem.Some? then Size(elem.value) else 1) + (if count.Some? then Size(count.value) else 1)
    case _ => 1
  }

  function ListSize(ts: Types): nat
    decreases ts
  {
    match ts case Nil => 0 case Cons(t, rest) => Size(t) + ListSize(rest)
  }

  // ---------------------------------------------------------------- egal_types

  type Pairs = seq<(nat, nat)> // innermost binder first

  /** The search for the innermost pair of variable `id`. */
  predicate PairedWith(env: Pairs, id: nat, b: Type) {
    if env == [] then false
    else if env[0].0 == id then b == TypeVar(env[0].1)
    else PairedWith(env[1..], id, b)
  }

  /** egal_types without the test for identical objects, except that a TypeVar is identical to an equal
  one. */
  predicate Egal(a: Type, b: Type, env: Pairs, names: bool)
    decreases Size(a), 0
  {
    if a == b && a.TypeVar? then true
    else match a
    case DataType(name, params, _, _) => b.DataType? && name == b.name && EgalList(params, b.params, env, names)
    case TypeVar(id) => b.TypeVar? && PairedWith(env, id, b)
    case UnionAll(id, name, lb, ub, body) =>
      b.UnionAll? && (names ==> name == b.name)
      && Egal(lb, b.lb, env, names) && Egal(ub, b.ub, env, names)
      && Egal(body, b.body, [(id, b.id)] + env, names)
    case Union(x, y) => b.Union? && Egal(x, b.a, env, names) && Egal(y, b.b, env, names)
    case TypeEq(T) => b.TypeEq? && Egal(T, b.T, env, names)
    case TypeEgal(T) => b.TypeEgal? && Egal(T, b.T, env, true)
    case Vararg(elem, count) =>
      b.Vararg? && Egal(ElemOf(elem), ElemOf(b.elem), env, names)
      && (if count.Some? && b.count.Some? then Egal(count.value, b.count.value, env, names)
          else count.None? && b.count.None?)
    case Leaf(value) => b == Leaf(value)
  }

  predicate EgalList(a: Types, b: Types, env: Pairs, names: bool)
    decreases ListSize(a), 1
  {
    match a
    case Nil => b == Nil
    case Cons(t, rest) => b.Cons? && Egal(t, b.head, env, names) && EgalList(rest, b.tail, env, names)
  }

  /** Which pairs of nodes are one object; a pair is known by the path that leads to it. */
  type Identity = seq<nat> -> bool

  /** egal_types.  The test for identical objects comes first; identical objects are equal terms, and a
  TypeVar is the same object as any equal one. */
  predicate EgalTypes(a: Type, b: Type, env: Pairs, names: bool, at: seq<nat>, same: Identity)
    decreases Size(a), 0
  {
    if a == b && (a.TypeVar? || same(at)) then true
    else match a
    case DataType(name, params, _, _) =>
      b.DataType? && name == b.name && EgalTypesList(params, b.params, env, names, at, 0, same)
    case TypeVar(id) => b.TypeVar? && PairedWith(env, id, b)
    case UnionAll(id, name, lb, ub, body) =>
      b.UnionAll? && (names ==> name == b.name)
      && EgalTypes(lb, b.lb, env, names, at + [0], same) && EgalTypes(ub, b.ub, env, names, at + [1], same)
      && EgalTypes(body, b.body, [(id, b.id)] + env, names, at + [2], same)
    case Union(x, y) =>
      b.Union? && EgalTypes(x, b.a, env, names, at + [0], same) && EgalTypes(y, b.b, env, names, at + [1], same)
    case TypeEq(T) => b.TypeEq? && EgalTypes(T, b.T, env, names, at + [0], same)
    case TypeEgal(T) => b.TypeEgal? && EgalTypes(T, b.T, env, true, at + [0], same)
    case Vararg(elem, count) =>
      b.Vararg? && EgalTypes(ElemOf(elem), ElemOf(b.elem), env, names, at + [0], same)
      && (if count.Some? && b.count.Some? then EgalTypes(count.value, b.count.value, env, names, at + [1], same)
          else count.None? && b.count.None?)
    case Leaf(value) => b == Leaf(value)
  }

  predicate EgalTypesList(a: Types, b: Types, env: Pairs, names: bool, at: seq<nat>, k: nat, same: Identity)
    decreases ListSize(a), 1
  {
    match a
    case Nil => b == Nil
    case Cons(t, rest) =>
      b.Cons? && EgalTypes(t, b.head, env, names, at + [k], same)
      && EgalTypesList(rest, b.tail, env, names, at, k + 1, same)
  }

  /** A type is egal to itself under every environment, so the test for identical objects only saves
  work. */
  lemma {:induction false} EgalItself(t: Type, env: Pairs, names: bool)
    ensures Egal(t, t, env, names)
    decreases Size(t), 0
  {
    match t
    case DataType(_, params, _, _) => EgalListItself(params, env, names);
    case UnionAll(id, _, lb, ub, body) =>
      EgalItself(lb, env, names);
      EgalItself(ub, env, names);
      EgalItself(body, [(id, id)] + env, names);
    case Union(x, y) =>
      EgalItself(x, env, names);
      EgalItself(y, env, names);
    case TypeEq(T) => EgalItself(T, env, names);
    case TypeEgal(T) => EgalItself(T, env, true);
    case Vararg(elem, count) =>
      EgalItself(ElemOf(elem), env, names);
      if count.Some? { EgalItself(count.value, env, names); }
    case _ =>
  }

  lemma {:induction false} EgalListItself(ts: Types, env: Pairs, names: bool)
    ensures EgalList(ts, ts, env, names)
    decreases ListSize(ts), 1
  {
    match ts
    case Nil =>
    case Cons(t, rest) =>
      EgalItself(t, env, names);
      EgalListItself(rest, env, names);
  }

  lemma {:induction false} ShortcutSaves(a: Type, b: Type, env: Pairs, names: bool, at: seq<nat>, same: Identity)
    ensures EgalTypes(a, b, env, names, at, same) == Egal(a, b, env, names)
    decreases Size(a), 0
  {
    if a == b && same(at) {
      EgalItself(a, env, names);
    } else {
      match a
      case DataType(_, params, _, _) =>
        if b.DataType? { ShortcutSavesList(params, b.params, env, names, at, 0, same); }
      case UnionAll(id, _, lb, ub, body) =>
        if b.UnionAll? {
          ShortcutSaves(lb, b.lb, env, names, at + [0], same);
          ShortcutSaves(ub, b.ub, env, names, at + [1], same);
          ShortcutSaves(body, b.body, [(id, b.id)] + env, names, at + [2], same);
        }
      case Union(x, y) =>
        if b.Union? {
          ShortcutSaves(x, b.a, env, names, at + [0], same);
          ShortcutSaves(y, b.b, env, names, at + [1], same);
        }
      case TypeEq(T) => if b.TypeEq? { ShortcutSaves(T, b.T, env, names, at + [0], same); }
      case TypeEgal(T) => if b.TypeEgal? { ShortcutSaves(T, b.T, env, true, at + [0], same); }
      case Vararg(elem, count) =>
        if b.Vararg? {
          ShortcutSaves(ElemOf(elem), ElemOf(b.elem), env, names, at + [0], same);
          if count.Some? && b.count.Some? {
            ShortcutSaves(count.value, b.count.value, env, names, at + [1], same);
          }
        }
      case _ =>
    }
  }

  lemma {:induction false} ShortcutSavesList(a: Types, b: Types, env: Pairs, names: bool, at: seq<nat>, k: nat, same: Identity)
    ensures EgalTypesList(a, b, env, names, at, k, same) == EgalList(a, b, env, names)
    decreases ListSize(a), 1
  {
    if a.Cons? && b.Cons? {
      ShortcutSaves(a.head, b.head, env, names, at + [k], same);
      ShortcutSavesList(a.tail, b.tail, env, names, at, k + 1, same);
    }
  }

  // ---------------------------------------------------------------- canonical form

  datatype Form =
    | FData(name: nat, params: Forms)
    | FBound(depth: nat)
    | FFree(id: nat)
    | FAll(name: nat, lb: Form, ub: Form, body: Form)
    | FUnion(a: Form, b: Form)
    | FTypeEq(T: Form)
    | FTypeEgal(T: Form)
    | FVararg(elem: Form, count: Option<Form>)
    | FLeaf(value: nat)

  datatype Forms = FNil | FCons(head: Form, tail: Forms)

  /** The number of binders between a variable and its own; |env| if it has none. */
  function Depth(env: seq<nat>, id: nat): (d: nat)
    ensures d <= |env| && (d < |env| ==> env[d] == id)
    ensures d == |env| <==> id !in env
    ensures forall i :: 0 <= i < d ==> env[i] != id
  {
    if env == [] || env[0] == id then 0 else 1 + Depth(env[1..], id)
  }

  /** The canonical form, with the names of bound variables or, outside TypeEgal, without. */
  function Canon(t: Type, env: seq<nat>, names: bool): Form
    decreases Size(t), 0
  {
    match t
    case DataType(name, params, _, _) => FData(name, CanonList(params, env, names))
    case TypeVar(id) => if id in env then FBound(Depth(env, id)) else FFree(id)
    case UnionAll(id, name, lb, ub, body) =>
      FAll(if names then name else 0, Canon(lb, env, names), Canon(ub, env, names), Canon(body, [id] + env, names))
    case Union(a, b) => FUnion(Canon(a, env, names), Canon(b, env, names))
    case TypeEq(T) => FTypeEq(Canon(T, env, names))
    case TypeEgal(T) => FTypeEgal(Canon(T, env, true))
    case Vararg(elem, count) =>
      FVararg(Canon(ElemOf(elem), env, names), if count.Some? then Some(Canon(count.value, env, names)) else None)
    case Leaf(value) => FLeaf(value)
  }

  function CanonList(ts: Types, env: seq<nat>, names: bool): Forms
    decreases ListSize(ts), 1
  {
    match ts case Nil => FNil case Cons(t, rest) => FCons(Canon(t, env, names), CanonList(rest, env, names))
  }

  function Firsts(env: Pairs): (s: seq<nat>)
    ensures |s| == |env| && forall i :: 0 <= i < |env| ==> s[i] == env[i].0
  {
    if env == [] then [] else [env[0].0] + Firsts(env[1..])
  }

  function Seconds(env: Pairs): (s: seq<nat>)
    ensures |s| == |env| && forall i :: 0 <= i < |env| ==> s[i] == env[i].1
  {
    if env == [] then [] else [env[0].1] + Seconds(env[1..])
  }

  lemma DepthNext(x: nat, rest: seq<nat>, id: nat)
    ensures Depth([x] + rest, id) == if x == id then 0 else 1 + Depth(rest, id)
  {
    assert ([x] + rest)[1..] == rest;
  }

  lemma {:induction false} PairedAtDepth(env: Pairs, id: nat, b: Type)
    ensures PairedWith(env, id, b) <==> id in Firsts(env) && b == TypeVar(Seconds(env)[Depth(Firsts(env), id)])
    decreases |env|
  {
    if env != [] {
      var rest := env[1..];
      PairedAtDepth(rest, id, b);
      DepthNext(env[0].0, Firsts(rest), id);
      hide Depth;
    }
  }

  /** Types with one canonical form are egal. */
  lemma {:induction false} CanonGivesEgal(a: Type, b: Type, env: Pairs, names: bool)
    requires Canon(a, Firsts(env), names) == Canon(b, Seconds(env), names)
    ensures Egal(a, b, env, names)
    decreases Size(a), 0
  {
    match a
    case DataType(_, params, _, _) => CanonGivesEgalList(params, b.params, env, names);
    case TypeVar(id) => PairedAtDepth(env, id, b);
    case UnionAll(id, _, lb, ub, body) =>
      CanonGivesEgal(lb, b.lb, env, names);
      CanonGivesEgal(ub, b.ub, env, names);
      CanonGivesEgal(body, b.body, [(id, b.id)] + env, names);
    case Union(x, y) =>
      CanonGivesEgal(x, b.a, env, names);
      CanonGivesEgal(y, b.b, env, names);
    case TypeEq(T) => CanonGivesEgal(T, b.T, env, names);
    case TypeEgal(T) => CanonGivesEgal(T, b.T, env, true);
    case Vararg(elem, count) =>
      CanonGivesEgal(ElemOf(elem), ElemOf(b.elem), env, names);
      if count.Some? { CanonGivesEgal(count.value, b.count.value, env, names); }
    case Leaf(_) =>
  }

  lemma {:induction false} CanonGivesEgalList(a: Types, b: Types, env: Pairs, names: bool)
    requires CanonList(a, Firsts(env), names) == CanonList(b, Seconds(env), names)
    ensures EgalList(a, b, env, names)
    decreases ListSize(a), 1
  {
    if a.Cons? {
      CanonGivesEgal(a.head, b.head, env, names);
      CanonGivesEgalList(a.tail, b.tail, env, names);
    }
  }

  // ---------------------------------------------------------------- from egality to the canonical form

  /** The variables that occur in t. */
  function Vars(t: Type): set<nat>
    decreases Size(t), 0
  {
    match t
    case DataType(_, params, _, _) => ListVars(params)
    case TypeVar(id) => {id}
    case UnionAll(_, _, lb, ub, body) => Vars(lb) + Vars(ub) + Vars(body)
    case Union(a, b) => Vars(a) + Vars(b)
    case TypeEq(T) => Vars(T)
    case TypeEgal(T) => Vars(T)
    case Vararg(elem, count) => Vars(ElemOf(elem)) + if count.Some? then Vars(count.value) else {}
    case Leaf(_) => {}
  }

  function ListVars(ts: Types): set<nat>
    decreases ListSize(ts), 1
  {
    match ts case Nil => {} case Cons(t, rest) => Vars(t) + ListVars(rest)
  }

  /** The variables that t binds. */
  function Binders(t: Type): set<nat>
    decreases Size(t), 0
  {
    match t
    case DataType(_, params, _, _) => ListBinders(params)
    case UnionAll(id, _, lb, ub, body) => {id} + Binders(lb) + Binders(ub) + Binders(body)
    case Union(a, b) => Binders(a) + Binders(b)
    case TypeEq(T) => Binders(T)
    case TypeEgal(T) => Binders(T)
    case Vararg(elem, count) => Binders(ElemOf(elem)) + if count.Some? then Binders(count.value) else {}
    case _ => {}
  }

  function ListBinders(ts: Types): set<nat>
    decreases ListSize(ts), 1
  {
    match ts case Nil => {} case Cons(t, rest) => Binders(t) + ListBinders(rest)
  }

  ghost predicate Once(env: seq<nat>, id: nat) {
    forall i, j :: 0 <= i < j < |env| ==> !(env[i] == id && env[j] == id)
  }

  /** No variable of t occurs under two binders of its own. */
  ghost predicate BoundOnce(t: Type, env: seq<nat>)
    decreases Size(t), 0
  {
    match t
    case DataType(_, params, _, _) => BoundOnceList(params, env)
    case TypeVar(id) => Once(env, id)
    case UnionAll(id, _, lb, ub, body) => BoundOnce(lb, env) && BoundOnce(ub, env) && BoundOnce(body, [id] + env)
    case Union(a, b) => BoundOnce(a, env) && BoundOnce(b, env)
    case TypeEq(T) => BoundOnce(T, env)
    case TypeEgal(T) => BoundOnce(T, env)
    case Vararg(elem, count) => BoundOnce(ElemOf(elem), env) && (count.Some? ==> BoundOnce(count.value, env))
    case Leaf(_) => true
  }

  ghost predicate BoundOnceList(ts: Types, env: seq<nat>)
    decreases ListSize(ts), 1
  {
    match ts case Nil => true case Cons(t, rest) => BoundOnce(t, env) && BoundOnceList(rest, env)
  }

  /** The two share no TypeVar that either of them binds. */
  ghost predicate Separate(a: Type, b: Type) {
    forall x :: x in Vars(a) && x in Vars(b) ==> x !in Binders(a) && x !in Binders(b)
  }

  /** No variable that a and b share is bound, in either of them or around them. */
  ghost predicate SharedAreFree(varsA: set<nat>, varsB: set<nat>, bindersA: set<nat>, bindersB: set<nat>, env: Pairs, bound: set<nat>) {
    && bindersA <= bound && bindersB <= bound
    && (forall i :: 0 <= i < |env| ==> env[i].0 in bound && env[i].1 in bound)
    && forall x :: x in varsA && x in varsB ==> x !in bound
  }

  ghost predicate Aligned(a: Type, b: Type, env: Pairs, bound: set<nat>) {
    SharedAreFree(Vars(a), Vars(b), Binders(a), Binders(b), env, bound) && BoundOnce(b, Seconds(env))
  }

  ghost predicate AlignedList(a: Types, b: Types, env: Pairs, bound: set<nat>) {
    SharedAreFree(ListVars(a), ListVars(b), ListBinders(a), ListBinders(b), env, bound) && BoundOnceList(b, Seconds(env))
  }

  lemma AlignedVars(a: nat, b: nat, env: Pairs, names: bool, bound: set<nat>)
    requires Aligned(TypeVar(a), TypeVar(b), env, bound)
    requires a == b || PairedWith(env, a, TypeVar(b))
    ensures Canon(TypeVar(a), Firsts(env), names) == Canon(TypeVar(b), Seconds(env), names)
  {
    PairedAtDepth(env, a, TypeVar(b));
    if a == b {
      assert a in Vars(TypeVar(a)) && b in Vars(TypeVar(b)) && a !in bound;
    } else {
      var d := Depth(Firsts(env), a);
      assert Seconds(env)[d] == b && b in Seconds(env);
      var e := Depth(Seconds(env), b);
      assert Seconds(env)[e] == b;
    }
  }

  lemma BinderAligned(a: Type, b: Type, env: Pairs, bound: set<nat>)
    requires a.UnionAll? && b.UnionAll? && Aligned(a, b, env, bound)
    ensures Aligned(a.lb, b.lb, env, bound) && Aligned(a.ub, b.ub, env, bound)
    ensures Aligned(a.body, b.body, [(a.id, b.id)] + env, bound)
  {
    assert Seconds([(a.id, b.id)] + env) == [b.id] + Seconds(env);
  }

  /** Egal types have one canonical form, unless a variable of the second occurs under two binders of its
  own, or one TypeVar is shared between the two and bound. */
  lemma {:induction false} EgalGivesCanon(a: Type, b: Type, env: Pairs, names: bool, bound: set<nat>)
    requires Egal(a, b, env, names) && Aligned(a, b, env, bound)
    ensures Canon(a, Firsts(env), names) == Canon(b, Seconds(env), names)
    decreases Size(a), 0
  {
    match a
    case DataType(_, params, _, _) => EgalGivesCanonList(params, b.params, env, names, bound);
    case TypeVar(id) => AlignedVars(id, b.id, env, names, bound);
    case UnionAll(id, _, lb, ub, body) =>
      BinderAligned(a, b, env, bound);
      hide Aligned, Vars, Binders, BoundOnce;
      EgalGivesCanon(lb, b.lb, env, names, bound);
      EgalGivesCanon(ub, b.ub, env, names, bound);
      EgalGivesCanon(body, b.body, [(id, b.id)] + env, names, bound);
    case Union(x, y) =>
      EgalGivesCanon(x, b.a, env, names, bound);
      EgalGivesCanon(y, b.b, env, names, bound);
    case TypeEq(T) => EgalGivesCanon(T, b.T, env, names, bound);
    case TypeEgal(T) => EgalGivesCanon(T, b.T, env, true, bound);
    case Vararg(elem, count) =>
      EgalGivesCanon(ElemOf(elem), ElemOf(b.elem), env, names, bound);
      if count.Some? { EgalGivesCanon(count.value, b.count.value, env, names, bound); }
    case Leaf(_) =>
  }

  lemma {:induction false} EgalGivesCanonList(a: Types, b: Types, env: Pairs, names: bool, bound: set<nat>)
    requires EgalList(a, b, env, names) && AlignedList(a, b, env, bound)
    ensures CanonList(a, Firsts(env), names) == CanonList(b, Seconds(env), names)
    decreases ListSize(a), 1
  {
    if a.Cons? {
      EgalGivesCanon(a.head, b.head, env, names, bound);
      EgalGivesCanonList(a.tail, b.tail, env, names, bound);
    }
  }

  /** egal_types decides whether two types have one canonical form, provided that no variable of b occurs
  under two binders of its own and that the two share no TypeVar that either of them binds. */
  lemma EgalIsCanonEquality(a: Type, b: Type, names: bool, same: Identity)
    requires BoundOnce(b, []) && Separate(a, b)
    ensures EgalTypes(a, b, [], names, [], same) <==> Canon(a, [], names) == Canon(b, [], names)
  {
    ShortcutSaves(a, b, [], names, [], same);
    if Egal(a, b, [], names) {
      EgalGivesCanon(a, b, [], names, Binders(a) + Binders(b));
    }
    if Canon(a, [], names) == Canon(b, [], names) {
      CanonGivesEgal(a, b, [], names);
    }
  }

  // ---------------------------------------------------------------- term by term

  /** t without cached hashes, and with every Vararg element written out. */
  function Bare(t: Type): Type
    decreases Size(t), 0
  {
    match t
    case DataType(name, params, _, _) => DataType(name, BareList(params), false, 0)
    case TypeVar(_) => t
    case UnionAll(id, name, lb, ub, body) => UnionAll(id, name, Bare(lb), Bare(ub), Bare(body))
    case Union(a, b) => Union(Bare(a), Bare(b))
    case TypeEq(T) => TypeEq(Bare(T))
    case TypeEgal(T) => TypeEgal(Bare(T))
    case Vararg(elem, count) => Vararg(Some(Bare(ElemOf(elem))), if count.Some? then Some(Bare(count.value)) else None)
    case Leaf(_) => t
  }

  function BareList(ts: Types): Types
    decreases ListSize(ts), 1
  {
    match ts case Nil => Nil case Cons(t, rest) => Cons(Bare(t), BareList(rest))
  }

  /** Where nothing is bound, egality is equality of the terms, in every part of them; neither the names of
  variables nor identity of objects matter then. */
  lemma {:induction false} EgalIsEquality(a: Type, b: Type, names: bool)
    requires Binders(a) == {}
    ensures Egal(a, b, [], names) <==> Bare(a) == Bare(b)
    decreases Size(a), 0
  {
    match a
    case DataType(_, params, _, _) => if b.DataType? { EgalIsEqualityList(params, b.params, names); }
    case Union(x, y) =>
      if b.Union? {
        EgalIsEquality(x, b.a, names);
        EgalIsEquality(y, b.b, names);
      }
    case TypeEq(T) => if b.TypeEq? { EgalIsEquality(T, b.T, names); }
    case TypeEgal(T) => if b.TypeEgal? { EgalIsEquality(T, b.T, true); }
    case Vararg(elem, count) =>
      if b.Vararg? {
        EgalIsEquality(ElemOf(elem), ElemOf(b.elem), names);
        if count.Some? && b.count.Some? { EgalIsEquality(count.value, b.count.value, names); }
      }
    case UnionAll(_, _, _, _, _) => assert false;
    case _ =>
  }

  lemma {:induction false} EgalIsEqualityList(a: Types, b: Types, names: bool)
    requires ListBinders(a) == {}
    ensures EgalList(a, b, [], names) <==> BareList(a) == BareList(b)
    decreases ListSize(a), 1
  {
    if a.Cons? && b.Cons? {
      EgalIsEquality(a.head, b.head, names);
      EgalIsEqualityList(a.tail, b.tail, names);
    }
  }

  /** Two binders with nothing bound in their bounds: the bounds have to agree, the name of the variable
  where names are told apart, and always within TypeEgal. */
  lemma EgalBinders(id: nat, n: nat, n': nat, lb: Type, ub: Type, lb': Type, ub': Type, body: Type, names: bool)
    requires Binders(lb) == {} && Binders(ub) == {}
    ensures var a, b := UnionAll(id, n, lb, ub, body), UnionAll(id, n', lb', ub', body);
      && (Egal(a, b, [], names) <==> (names ==> n == n') && Bare(lb) == Bare(lb') && Bare(ub) == Bare(ub'))
      && (Egal(TypeEq(a), TypeEq(b), [], names) <==> Egal(a, b, [], names))
      && (Egal(TypeEgal(a), TypeEgal(b), [], names) <==> Egal(a, b, [], true))
  {
    hide Bare, Binders;
    EgalIsEquality(lb, lb', names);
    EgalIsEquality(ub, ub', names);
    EgalIsEquality(lb, lb', true);
    EgalIsEquality(ub, ub', true);
    EgalItself(body, [(id, id)] + [], names);
    EgalItself(body, [(id, id)] + [], true);
    var a, b := UnionAll(id, n, lb, ub, body), UnionAll(id, n', lb', ub', body);
    assert Egal(a, b, [], names) <==> (names ==> n == n') && Egal(lb, lb', [], names) && Egal(ub, ub', [], names);
  }

  /** A bound variable is egal to the one bound at the same place; a free one only to itself. */
  lemma EgalVariables(x: nat, y: nat, n: nat, v: nat, w: nat, names: bool)
    requires x != v || y != w
    ensures var a, b := UnionAll(x, n, AnyType, AnyType, TypeVar(v)), UnionAll(y, n, AnyType, AnyType, TypeVar(w));
      Egal(a, b, [], names) <==> v == w
    ensures var a, b := UnionAll(x, n, AnyType, AnyType, TypeVar(x)), UnionAll(y, n, AnyType, AnyType, TypeVar(y));
      Egal(a, b, [], names)
  {
    EgalItself(AnyType, [], names);
    var env := [(x, y)] + [];
    assert env[0] == (x, y) && env[1..] == [];
    assert !PairedWith(env[1..], v, TypeVar(w));
    assert PairedWith(env, v, TypeVar(w)) <==> x == v && y == w;
    assert Egal(TypeVar(x), TypeVar(y), env, names) && (Egal(TypeVar(v), TypeVar(w), env, names) <==> v == w);
  }

  // ---------------------------------------------------------------- type_object_id_

  /** The mixing function, the hashes of names, objects and other values, and of the type constructors. */
  datatype Hasher = Hasher(
    mix: (nat, nat) -> nat,
    dataName: nat -> nat,
    varName: nat -> nat,
    free: nat -> nat,
    leaf: nat -> nat,
    union: nat,
    typeEq: nat,
    typeEgal: nat,
    nothing: nat
  )

  function BoundHash(depth: nat): nat { depth * 256 + 42 }

  /** type_object_id_; env lists the variables bound so far, innermost first. */
  function Hash(m: Hasher, t: Type, env: seq<nat>): nat
    decreases Size(t), 0
  {
    match t
    case TypeVar(id) => if id in env then BoundHash(Depth(env, id)) else m.free(id)
    case Union(a, b) => m.mix(m.mix(m.union, Hash(m, a, env)), Hash(m, b, env))
    case TypeEq(T) => m.mix(m.typeEq, Hash(m, T, env))
    case TypeEgal(T) => m.mix(m.typeEgal, Hash(m, T, env))
    case UnionAll(id, name, lb, ub, body) =>
      m.mix(m.mix(m.mix(m.varName(name), Hash(m, lb, env)), Hash(m, ub, env)), Hash(m, body, [id] + env))
    case DataType(name, params, concrete, hash) =>
      if concrete then hash else HashList(m, m.dataName(name), params, env)
    case Vararg(elem, count) =>
      m.mix(Hash(m, ElemOf(elem), env), if count.Some? then Hash(m, count.value, env) else m.nothing)
    case Leaf(value) => m.leaf(value)
  }

  function HashList(m: Hasher, h: nat, ts: Types, env: seq<nat>): nat
    decreases ListSize(ts), 1
  {
    match ts case Nil => h case Cons(t, rest) => HashList(m, m.mix(h, Hash(m, t, env)), rest, env)
  }

  type Cache = Form -> Option<nat>

  /** The cached hashes are consistent with egality: whether a DataType is concrete, and which hash it
  then carries, depends on its canonical form only. */
  ghost predicate WellCached(cache: Cache, t: Type, env: seq<nat>)
    decreases Size(t), 0
  {
    match t
    case DataType(_, params, concrete, hash) =>
      cache(Canon(t, env, true)) == (if concrete then Some(hash) else None) && WellCachedList(cache, params, env)
    case UnionAll(id, _, lb, ub, body) =>
      WellCached(cache, lb, env) && WellCached(cache, ub, env) && WellCached(cache, body, [id] + env)
    case Union(a, b) => WellCached(cache, a, env) && WellCached(cache, b, env)
    case TypeEq(T) => WellCached(cache, T, env)
    case TypeEgal(T) => WellCached(cache, T, env)
    case Vararg(elem, count) => WellCached(cache, ElemOf(elem), env) && (count.Some? ==> WellCached(cache, count.value, env))
    case _ => true
  }

  ghost predicate WellCachedList(cache: Cache, ts: Types, env: seq<nat>)
    decreases ListSize(ts), 1
  {
    match ts case Nil => true case Cons(t, rest) => WellCached(cache, t, env) && WellCachedList(cache, rest, env)
  }

  /** The hash of a canonical form. */
  function FormHash(m: Hasher, cache: Cache, f: Form): nat
    decreases f
  {
    match f
    case FBound(depth) => BoundHash(depth)
    case FFree(id) => m.free(id)
    case FUnion(a, b) => m.mix(m.mix(m.union, FormHash(m, cache, a)), FormHash(m, cache, b))
    case FTypeEq(T) => m.mix(m.typeEq, FormHash(m, cache, T))
    case FTypeEgal(T) => m.mix(m.typeEgal, FormHash(m, cache, T))
    case FAll(name, lb, ub, body) =>
      m.mix(m.mix(m.mix(m.varName(name), FormHash(m, cache, lb)), FormHash(m, cache, ub)), FormHash(m, cache, body))
    case FData(name, params) =>
      if cache(f).Some? then cache(f).value else FormHashList(m, cache, m.dataName(name), params)
    case FVararg(elem, count) =>
      m.mix(FormHash(m, cache, elem), if count.Some? then FormHash(m, cache, count.value) else m.nothing)
    case FLeaf(value) => m.leaf(value)
  }

  function FormHashList(m: Hasher, cache: Cache, h: nat, fs: Forms): nat
    decreases fs
  {
    match fs case FNil => h case FCons(f, rest) => FormHashList(m, cache, m.mix(h, FormHash(m, cache, f)), rest)
  }

  /** The hash sees no more of a type than its canonical form, with names. */
  lemma {:induction false} HashSeesCanon(m: Hasher, cache: Cache, t: Type, env: seq<nat>)
    requires WellCached(cache, t, env)
    ensures Hash(m, t, env) == FormHash(m, cache, Canon(t, env, true))
    decreases Size(t), 0
  {
    match t
    case DataType(name, params, concrete, _) => if !concrete { HashSeesCanonList(m, cache, m.dataName(name), params, env); }
    case UnionAll(id, _, lb, ub, body) =>
      HashSeesCanon(m, cache, lb, env);
      HashSeesCanon(m, cache, ub, env);
      HashSeesCanon(m, cache, body, [id] + env);
    case Union(a, b) =>
      HashSeesCanon(m, cache, a, env);
      HashSeesCanon(m, cache, b, env);
    case TypeEq(T) => HashSeesCanon(m, cache, T, env);
    case TypeEgal(T) => HashSeesCanon(m, cache, T, env);
    case Vararg(elem, count) =>
      HashSeesCanon(m, cache, ElemOf(elem), env);
      if count.Some? { HashSeesCanon(m, cache, count.value, env); }
    case _ =>
  }

  lemma {:induction false} HashSeesCanonList(m: Hasher, cache: Cache, h: nat, ts: Types, env: seq<nat>)
    requires WellCachedList(cache, ts, env)
    ensures HashList(m, h, ts, env) == FormHashList(m, cache, h, CanonList(ts, env, true))
    decreases ListSize(ts), 1
  {
    if ts.Cons? {
      HashSeesCanon(m, cache, ts.head, env);
      HashSeesCanonList(m, cache, m.mix(h, Hash(m, ts.head, env)), ts.tail, env);
    }
  }

  /** Egal types hash alike, whatever the mixing function. */
  lemma EgalTypesHashAlike(m: Hasher, cache: Cache, a: Type, b: Type, same: Identity)
    requires EgalTypes(a, b, [], true, [], same)
    requires BoundOnce(b, []) && Separate(a, b)
    requires WellCached(cache, a, []) && WellCached(cache, b, [])
    ensures Hash(m, a, []) == Hash(m, b, [])
  {
    EgalIsCanonEquality(a, b, true, same);
    HashSeesCanon(m, cache, a, []);
    HashSeesCanon(m, cache, b, []);
  }
}
