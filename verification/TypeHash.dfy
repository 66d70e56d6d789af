/** What type_object_id_ (src/builtins.c) tells apart. */
module TypeHashing {
  import opened Bits
  import opened TypeEgality

  /* Egal types have to hash alike; here is the other side.  With a mixing function that never collides the
  hash tells apart all types with different canonical forms, unless they use Vararg: a Vararg is hashed like
  its element type with the count as one more parameter. */

  /** What the hash of a type starts from. */
  datatype Atom =
    | AData(name: nat)
    | AVar(name: nat)
    | ABound(depth: nat)
    | AFree(id: nat)
    | ALeaf(value: nat)
    | AUnion
    | ATypeEq
    | ATypeEgal

  function AtomHash(m: Hasher, x: Atom): nat {
    match x
    case AData(name) => m.dataName(name)
    case AVar(name) => m.varName(name)
    case ABound(depth) => BoundHash(depth)
    case AFree(id) => m.free(id)
    case ALeaf(value) => m.leaf(value)
    case AUnion => m.union
    case ATypeEq => m.typeEq
    case ATypeEgal => m.typeEgal
  }

  /** No two things hash alike that need not. */
  ghost predicate Perfect(m: Hasher) {
    && (forall x: nat, y: nat, x': nat, y': nat :: m.mix(x, y) == m.mix(x', y') ==> x == x' && y == y')
    && (forall a: Atom, b: Atom :: AtomHash(m, a) == AtomHash(m, b) ==> a == b)
    && (forall a: Atom, x: nat, y: nat :: AtomHash(m, a) != m.mix(x, y))
  }

  function Pair(x: nat, y: nat): nat {
    Shl(2 * y + 1, x)
  }

  lemma {:induction false} PairTells(x: nat, y: nat, x': nat, y': nat)
    requires Pair(x, y) == Pair(x', y')
    ensures x == x' && y == y'
    decreases x
  {
    if x > 0 { Shifted(2 * y + 1, x); }
    if x' > 0 { Shifted(2 * y' + 1, x'); }
    if x > 0 && x' > 0 { PairTells(x - 1, y, x' - 1, y'); }
  }

  function Residue(a: Atom): nat {
    match a
    case AData(_) => 1 case AVar(_) => 2 case AFree(_) => 3 case ALeaf(_) => 4
    case AUnion => 5 case ATypeEq => 6 case ATypeEgal => 7 case ABound(_) => 10
  }

  function PairHasher(): Hasher {
    Hasher((x: nat, y: nat) => 16 * Pair(x, y), n => 16 * n + 1, n => 16 * n + 2, n => 16 * n + 3, n => 16 * n + 4, 5, 6, 7, 0)
  }

  lemma AtomResidue(a: Atom)
    ensures AtomHash(PairHasher(), a) % 16 == Residue(a)
  {
  }

  lemma AtomsApart(a: Atom, b: Atom)
    requires AtomHash(PairHasher(), a) == AtomHash(PairHasher(), b)
    ensures a == b
  {
    AtomResidue(a);
    AtomResidue(b);
  }

  lemma AtomIsNoPair(a: Atom, x: nat, y: nat)
    ensures AtomHash(PairHasher(), a) != PairHasher().mix(x, y)
  {
    hide AtomHash, Pair;
    AtomResidue(a);
  }

  lemma MixApart(x: nat, y: nat, x': nat, y': nat)
    requires PairHasher().mix(x, y) == PairHasher().mix(x', y')
    ensures x == x' && y == y'
  {
    hide Pair;
    PairTells(x, y, x', y');
  }

  /** There is a hasher like that. */
  lemma PerfectExists() returns (m: Hasher)
    ensures Perfect(m)
  {
    m := PairHasher();
    hide PairHasher, AtomHash;
    forall x: nat, y: nat, x': nat, y': nat | m.mix(x, y) == m.mix(x', y') ensures x == x' && y == y' {
      MixApart(x, y, x', y');
    }
    forall a: Atom, x: nat, y: nat ensures AtomHash(m, a) != m.mix(x, y) {
      AtomIsNoPair(a, x, y);
    }
    forall a: Atom, b: Atom | AtomHash(m, a) == AtomHash(m, b) ensures a == b {
      AtomsApart(a, b);
    }
  }

  /** A start, and the hashes of parts mixed into it one by one. */
  function Mixed(m: Hasher, h: nat, parts: seq<nat>): nat {
    if parts == [] then h else m.mix(Mixed(m, h, parts[..|parts| - 1]), parts[|parts| - 1])
  }

  lemma {:induction false} MixedTells(m: Hasher, a: Atom, s: seq<nat>, b: Atom, t: seq<nat>)
    requires Perfect(m) && Mixed(m, AtomHash(m, a), s) == Mixed(m, AtomHash(m, b), t)
    ensures a == b && s == t
    decreases |s|
  {
    if s != [] && t != [] {
      MixedTells(m, a, s[..|s| - 1], b, t[..|t| - 1]);
      assert s == s[..|s| - 1] + [s[|s| - 1]] && t == t[..|t| - 1] + [t[|t| - 1]];
    }
  }

  /** No Vararg occurs, and no cached hash. */
  predicate Spelled(t: Type)
    decreases Size(t), 0
  {
    match t
    case DataType(_, params, concrete, _) => !concrete && SpelledList(params)
    case UnionAll(_, _, lb, ub, body) => Spelled(lb) && Spelled(ub) && Spelled(body)
    case Union(a, b) => Spelled(a) && Spelled(b)
    case TypeEq(T) => Spelled(T)
    case TypeEgal(T) => Spelled(T)
    case Vararg(_, _) => false
    case _ => true
  }

  predicate SpelledList(ts: Types)
    decreases ListSize(ts), 1
  {
    match ts case Nil => true case Cons(t, rest) => Spelled(t) && SpelledList(rest)
  }

  function Head(t: Type, env: seq<nat>): Atom
    requires !t.Vararg?
  {
    match t
    case DataType(name, _, _, _) => AData(name)
    case TypeVar(id) => if id in env then ABound(Depth(env, id)) else AFree(id)
    case UnionAll(_, name, _, _, _) => AVar(name)
    case Union(_, _) => AUnion
    case TypeEq(_) => ATypeEq
    case TypeEgal(_) => ATypeEgal
    case Leaf(value) => ALeaf(value)
  }

  function Hashes(m: Hasher, ts: Types, env: seq<nat>): seq<nat> {
    match ts case Nil => [] case Cons(t, rest) => [Hash(m, t, env)] + Hashes(m, rest, env)
  }

  function PartHashes(m: Hasher, t: Type, env: seq<nat>): seq<nat> {
    match t
    case DataType(_, params, _, _) => Hashes(m, params, env)
    case UnionAll(id, _, lb, ub, body) => [Hash(m, lb, env), Hash(m, ub, env), Hash(m, body, [id] + env)]
    case Union(a, b) => [Hash(m, a, env), Hash(m, b, env)]
    case TypeEq(T) => [Hash(m, T, env)]
    case TypeEgal(T) => [Hash(m, T, env)]
    case _ => []
  }

  lemma {:induction false} HashListIsMixed(m: Hasher, h: nat, done: seq<nat>, ts: Types, env: seq<nat>)
    ensures HashList(m, Mixed(m, h, done), ts, env) == Mixed(m, h, done + Hashes(m, ts, env))
    decreases ts
  {
    match ts
    case Nil => assert done + [] == done;
    case Cons(t, rest) =>
      var next := done + [Hash(m, t, env)];
      assert next[..|done|] == done;
      HashListIsMixed(m, h, next, rest, env);
      assert next + Hashes(m, rest, env) == done + Hashes(m, ts, env);
  }

  lemma HashIsMixed(m: Hasher, t: Type, env: seq<nat>)
    requires Spelled(t)
    ensures Hash(m, t, env) == Mixed(m, AtomHash(m, Head(t, env)), PartHashes(m, t, env))
  {
    hide Mixed, Spelled, AtomHash, Hash, Hashes;
    SpelledTop(t);
    var h := AtomHash(m, Head(t, env));
    HashStep(m, t, env);
    match t
    case DataType(_, params, _, _) =>
      MixedNone(m, h);
      HashListIsMixed(m, h, [], params, env);
      assert [] + Hashes(m, params, env) == Hashes(m, params, env);
    case UnionAll(id, _, lb, ub, body) =>
      MixedThree(m, h, Hash(m, lb, env), Hash(m, ub, env), Hash(m, body, [id] + env));
    case Union(a, b) => MixedTwo(m, h, Hash(m, a, env), Hash(m, b, env));
    case TypeEq(T) => MixedOne(m, h, Hash(m, T, env));
    case TypeEgal(T) => MixedOne(m, h, Hash(m, T, env));
    case _ => MixedNone(m, h);
  }

  lemma SpelledTop(t: Type)
    requires Spelled(t)
    ensures !t.Vararg? && (t.DataType? ==> !t.concrete)
  {
  }

  /** One level of the hash. */
  lemma HashStep(m: Hasher, t: Type, env: seq<nat>)
    requires !t.Vararg? && (t.DataType? ==> !t.concrete)
    ensures var h := AtomHash(m, Head(t, env));
      && (t.DataType? ==> Hash(m, t, env) == HashList(m, h, t.params, env))
      && (t.UnionAll? ==> Hash(m, t, env) == m.mix(m.mix(m.mix(h, Hash(m, t.lb, env)), Hash(m, t.ub, env)), Hash(m, t.body, [t.id] + env)))
      && (t.Union? ==> Hash(m, t, env) == m.mix(m.mix(h, Hash(m, t.a, env)), Hash(m, t.b, env)))
      && (t.TypeEq? ==> Hash(m, t, env) == m.mix(h, Hash(m, t.T, env)))
      && (t.TypeEgal? ==> Hash(m, t, env) == m.mix(h, Hash(m, t.T, env)))
      && (t.TypeVar? || t.Leaf? ==> Hash(m, t, env) == h)
  {
  }

  lemma MixedNone(m: Hasher, h: nat)
    ensures Mixed(m, h, []) == h
  {
  }

  lemma MixedOne(m: Hasher, h: nat, x: nat)
    ensures Mixed(m, h, [x]) == m.mix(h, x)
  {
    assert [x][..0] == [];
  }

  lemma MixedTwo(m: Hasher, h: nat, x: nat, y: nat)
    ensures Mixed(m, h, [x, y]) == m.mix(m.mix(h, x), y)
  {
    MixedOne(m, h, x);
    assert [x, y][..1] == [x];
  }

  lemma MixedThree(m: Hasher, h: nat, x: nat, y: nat, z: nat)
    ensures Mixed(m, h, [x, y, z]) == m.mix(m.mix(m.mix(h, x), y), z)
  {
    MixedTwo(m, h, x, y);
    assert [x, y, z][..2] == [x, y];
  }

  /** Types that hash alike have one canonical form. */
  lemma {:induction false} HashTells(m: Hasher, a: Type, envA: seq<nat>, b: Type, envB: seq<nat>)
    requires Perfect(m) && Spelled(a) && Spelled(b) && Hash(m, a, envA) == Hash(m, b, envB)
    ensures Canon(a, envA, true) == Canon(b, envB, true)
    decreases Size(a), 0
  {
    HashIsMixed(m, a, envA);
    HashIsMixed(m, b, envB);
    MixedTells(m, Head(a, envA), PartHashes(m, a, envA), Head(b, envB), PartHashes(m, b, envB));
    SameParts(m, a, envA, b, envB);
    hide Perfect, Hash, Mixed, PartHashes;
    match a
    case DataType(_, params, _, _) => HashTellsList(m, params, envA, b.params, envB);
    case UnionAll(id, _, lb, ub, body) =>
      HashTells(m, lb, envA, b.lb, envB);
      HashTells(m, ub, envA, b.ub, envB);
      HashTells(m, body, [id] + envA, b.body, [b.id] + envB);
    case Union(x, y) =>
      HashTells(m, x, envA, b.a, envB);
      HashTells(m, y, envA, b.b, envB);
    case TypeEq(T) => HashTells(m, T, envA, b.T, envB);
    case TypeEgal(T) => HashTells(m, T, envA, b.T, envB);
    case _ =>
  }

  lemma SameParts(m: Hasher, a: Type, envA: seq<nat>, b: Type, envB: seq<nat>)
    requires !a.Vararg? && !b.Vararg? && Head(a, envA) == Head(b, envB) && PartHashes(m, a, envA) == PartHashes(m, b, envB)
    ensures a.DataType? ==> b.DataType? && Hashes(m, a.params, envA) == Hashes(m, b.params, envB)
    ensures a.UnionAll? ==>
      && b.UnionAll? && a.name == b.name && Hash(m, a.lb, envA) == Hash(m, b.lb, envB)
      && Hash(m, a.ub, envA) == Hash(m, b.ub, envB) && Hash(m, a.body, [a.id] + envA) == Hash(m, b.body, [b.id] + envB)
    ensures a.Union? ==> b.Union? && Hash(m, a.a, envA) == Hash(m, b.a, envB) && Hash(m, a.b, envA) == Hash(m, b.b, envB)
    ensures a.TypeEq? ==> b.TypeEq? && Hash(m, a.T, envA) == Hash(m, b.T, envB)
    ensures a.TypeEgal? ==> b.TypeEgal? && Hash(m, a.T, envA) == Hash(m, b.T, envB)
  {
    hide Hash;
    var s, t := PartHashes(m, a, envA), PartHashes(m, b, envB);
    assert |s| == |t| && (|s| > 0 ==> s[0] == t[0]) && (|s| > 1 ==> s[1] == t[1]) && (|s| > 2 ==> s[2] == t[2]);
  }

  lemma {:induction false} HashTellsList(m: Hasher, a: Types, envA: seq<nat>, b: Types, envB: seq<nat>)
    requires Perfect(m) && SpelledList(a) && SpelledList(b) && Hashes(m, a, envA) == Hashes(m, b, envB)
    ensures CanonList(a, envA, true) == CanonList(b, envB, true)
    decreases ListSize(a), 1
  {
    hide Perfect, Hash;
    if a.Cons? && b.Cons? {
      var s, t := Hashes(m, a, envA), Hashes(m, b, envB);
      assert s[0] == t[0] && s[1..] == Hashes(m, a.tail, envA) && t[1..] == Hashes(m, b.tail, envB);
      HashTells(m, a.head, envA, b.head, envB);
      HashTellsList(m, a.tail, envA, b.tail, envB);
    }
  }

  /** Without Vararg and cached hashes, the hash under a mixing function that never collides is as good as the
  canonical form. */
  lemma HashIsExact(m: Hasher, a: Type, b: Type)
    requires Perfect(m) && Spelled(a) && Spelled(b)
    ensures Hash(m, a, []) == Hash(m, b, []) <==> Canon(a, [], true) == Canon(b, [], true)
  {
    hide Perfect, Hash, Canon;
    if Hash(m, a, []) == Hash(m, b, []) { HashTells(m, a, [], b, []); }
    if Canon(a, [], true) == Canon(b, [], true) {
      SpelledCached(a, []);
      SpelledCached(b, []);
      HashSeesCanon(m, _ => None, a, []);
      HashSeesCanon(m, _ => None, b, []);
    }
  }

  lemma {:induction false} SpelledCached(t: Type, env: seq<nat>)
    requires Spelled(t)
    ensures WellCached(_ => None, t, env)
    decreases Size(t), 0
  {
    match t
    case DataType(_, params, _, _) => SpelledCachedList(params, env);
    case UnionAll(id, _, lb, ub, body) =>
      SpelledCached(lb, env);
      SpelledCached(ub, env);
      SpelledCached(body, [id] + env);
    case Union(a, b) =>
      SpelledCached(a, env);
      SpelledCached(b, env);
    case TypeEq(T) => SpelledCached(T, env);
    case TypeEgal(T) => SpelledCached(T, env);
    case _ =>
  }

  lemma {:induction false} SpelledCachedList(ts: Types, env: seq<nat>)
    requires SpelledList(ts)
    ensures WellCachedList(_ => None, ts, env)
    decreases ListSize(ts), 1
  {
    if ts.Cons? {
      SpelledCached(ts.head, env);
      SpelledCachedList(ts.tail, env);
    }
  }

  /** Whatever the mixing function, Vararg{D{p}, n} collides with D{p, n}. */
  lemma VarargCollides(m: Hasher, name: nat, p: Type, n: Type, env: seq<nat>)
    ensures var a := Vararg(Some(DataType(name, Cons(p, Nil), false, 0)), Some(n));
      var b := DataType(name, Cons(p, Cons(n, Nil)), false, 0);
      Hash(m, a, env) == Hash(m, b, env) && Canon(a, env, true) != Canon(b, env, true)
  {
    var h := Hash(m, p, env);
    assert HashList(m, m.dataName(name), Cons(p, Nil), env) == m.mix(m.dataName(name), h);
    assert HashList(m, m.mix(m.dataName(name), h), Cons(n, Nil), env) == m.mix(m.mix(m.dataName(name), h), Hash(m, n, env));
    assert HashList(m, m.dataName(name), Cons(p, Cons(n, Nil)), env) == m.mix(m.mix(m.dataName(name), h), Hash(m, n, env));
  }
}
