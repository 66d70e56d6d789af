/** partitionModule (src/aotcompile.cpp) as a whole. */
module ModulePartition {
  import opened ListScheduling
  import opened UnionFind
  import opened Partitioning

  /* What a finished partitioning guarantees, and how far from the best one it can be. */

  predicate IsCounter(m: Module, g: nat) {
    g < |m.globals| && !m.globals[g].isDeclaration && m.globals[g].isCounter
  }

  /** The defined coverage counters below n, in order. */
  function Counters(m: Module, n: nat): (s: seq<nat>)
    ensures forall i :: 0 <= i < |s| ==> s[i] < n && IsCounter(m, s[i])
    ensures forall g: nat :: g < n && IsCounter(m, g) ==> g in s
    ensures forall i, j :: 0 <= i < j < |s| ==> s[i] < s[j]
  {
    if n == 0 then [] else
      var s := Counters(m, n - 1);
      if IsCounter(m, n - 1) then s + [n - 1] else s
  }

  /** What a global adds to its partition: its weight, or 1 for a counter. */
  function WeightOf(m: Module, g: nat): nat {
    if IsNode(m, g) then m.globals[g].weight else if IsCounter(m, g) then 1 else 0
  }

  function Weights(m: Module, n: nat): (s: seq<nat>)
    ensures |s| == n && forall g :: 0 <= g < n ==> s[g] == WeightOf(m, g)
  {
    if n == 0 then [] else Weights(m, n - 1) + [WeightOf(m, n - 1)]
  }

  /** The entries of s at the given places. */
  function At(s: seq<nat>, places: seq<nat>): (r: seq<nat>)
    requires forall i :: 0 <= i < |places| ==> places[i] < |s|
    ensures |r| == |places| && forall i :: 0 <= i < |places| ==> r[i] == s[places[i]]
  {
    if places == [] then [] else At(s, places[..|places| - 1]) + [s[places[|places| - 1]]]
  }

  function Ones(n: nat): (r: seq<nat>)
    ensures |r| == n && forall i :: 0 <= i < n ==> r[i] == 1
  {
    if n == 0 then [] else Ones(n - 1) + [1]
  }

  // ---------------------------------------------------------------- what a partitioning promises

  /** home[g] is the partition of g. */
  ghost predicate IsHome(ps: seq<Partition>, home: seq<nat>) {
    forall g: nat, p: nat {:trigger g in ps[p].globals} | g < |home| && p < |ps| :: g in ps[p].globals <==> home[g] == p
  }

  /** Another way to distribute the globals of m over `threads` partitions: it too keeps globals
  linked by a use together, and its heaviest partition weighs `best` or less. */
  ghost predicate IsRival(m: Module, other: seq<nat>, threads: nat, best: nat) {
    && IsDistribution(Weights(m, |m.globals|), other, threads)
    && LinksKept(m, other)
    && forall q: nat :: q < threads ==> Load(Weights(m, |m.globals|), other, q) <= best
  }

  ghost predicate LinksKept(m: Module, other: seq<nat>) {
    |other| == |m.globals| &&
    forall g: nat, k: nat | g < |m.uses| && k < |m.uses[g]| && IsNode(m, g) && IsNode(m, m.uses[g][k]) ::
      other[g] == other[m.uses[g][k]]
  }

  lemma LoadNext(items: seq<nat>, bins: seq<nat>, w: nat, b: nat, p: nat)
    requires |items| == |bins|
    ensures Load(items + [w], bins + [b], p) == Load(items, bins, p) + if b == p then w else 0
  {
    assert (items + [w])[..|items|] == items && (bins + [b])[..|bins|] == bins;
  }

  lemma AtNext(h: seq<nat>, b: nat, places: seq<nat>)
    requires forall i :: 0 <= i < |places| ==> places[i] < |h|
    ensures At(h + [b], places) == At(h, places)
    ensures At(h + [b], places + [|h|]) == At(h, places) + [b]
  {
  }

  /** own holds the weights of the nodes. */
  ghost predicate OwnWeights(m: Module, n: nat, own: seq<nat>) {
    |own| == |Nodes(m, n)| && forall i :: 0 <= i < |own| ==> own[i] == WeightOf(m, Nodes(m, n)[i])
  }

  /** The weight of a distribution of all globals is that of its nodes and that of its counters. */
  lemma {:induction false} SplitLoad(m: Module, n: nat, home: seq<nat>, own: seq<nat>, p: nat)
    requires |home| == n && OwnWeights(m, n, own)
    ensures |own| == |Nodes(m, n)|
    ensures Load(Weights(m, n), home, p)
         == Load(own, At(home, Nodes(m, n)), p) + Load(Ones(|Counters(m, n)|), At(home, Counters(m, n)), p)
  {
    hide Load, IsNode, IsCounter, WeightOf, At, Nodes, Counters, Weights;
    if n == 0 {
      NothingSplit(m, home, own, p);
    } else {
      var h, b := home[..n - 1], home[n - 1];
      assert home == h + [b];
      OwnPrefix(m, n, own);
      SplitLoad(m, n - 1, h, own[..|Nodes(m, n - 1)|], p);
      SplitPlaces(m, n, h, b);
      LoadNext(Weights(m, n - 1), h, WeightOf(m, n - 1), b, p);
      SplitStep(m, n, own, At(h, Nodes(m, n - 1)), At(h, Counters(m, n - 1)), b, p);
    }
  }

  lemma NothingSplit(m: Module, home: seq<nat>, own: seq<nat>, p: nat)
    requires home == [] && OwnWeights(m, 0, own)
    ensures Load(Weights(m, 0), home, p)
         == Load(own, At(home, Nodes(m, 0)), p) + Load(Ones(|Counters(m, 0)|), At(home, Counters(m, 0)), p)
  {
  }

  lemma OwnPrefix(m: Module, n: nat, own: seq<nat>)
    requires n > 0 && OwnWeights(m, n, own)
    ensures |Nodes(m, n - 1)| <= |own| && OwnWeights(m, n - 1, own[..|Nodes(m, n - 1)|])
  {
  }

  lemma SplitPlaces(m: Module, n: nat, h: seq<nat>, b: nat)
    requires n > 0 && |h| == n - 1
    ensures Weights(m, n) == Weights(m, n - 1) + [WeightOf(m, n - 1)]
    ensures At(h + [b], Nodes(m, n)) == At(h, Nodes(m, n - 1)) + if IsNode(m, n - 1) then [b] else []
    ensures At(h + [b], Counters(m, n)) == At(h, Counters(m, n - 1)) + if IsCounter(m, n - 1) then [b] else []
    ensures WeightOf(m, n - 1)
      == (if IsNode(m, n - 1) then WeightOf(m, n - 1) else 0) + if IsCounter(m, n - 1) then 1 else 0
  {
    hide At;
    AtNext(h, b, Nodes(m, n - 1));
    AtNext(h, b, Counters(m, n - 1));
  }

  lemma SplitStep(m: Module, n: nat, own: seq<nat>, nodeBins: seq<nat>, counterBins: seq<nat>, b: nat, p: nat)
    requires n > 0 && OwnWeights(m, n, own) && |nodeBins| == |Nodes(m, n - 1)| && |counterBins| == |Counters(m, n - 1)|
    ensures |nodeBins| <= |own| == |nodeBins| + if IsNode(m, n - 1) then 1 else 0
    ensures |Counters(m, n)| == |counterBins| + if IsCounter(m, n - 1) then 1 else 0
    ensures Load(own, nodeBins + if IsNode(m, n - 1) then [b] else [], p)
         == Load(own[..|nodeBins|], nodeBins, p) + if IsNode(m, n - 1) && b == p then WeightOf(m, n - 1) else 0
    ensures Load(Ones(|Counters(m, n)|), counterBins + if IsCounter(m, n - 1) then [b] else [], p)
         == Load(Ones(|counterBins|), counterBins, p) + if IsCounter(m, n - 1) && b == p then 1 else 0
  {
    hide Load;
    var k := |nodeBins|;
    if IsNode(m, n - 1) {
      assert own == own[..k] + [WeightOf(m, n - 1)];
    } else {
      assert own == own[..k] && nodeBins + [] == nodeBins;
    }
    assert counterBins + [] == counterBins;
    LoadNext(own[..k], nodeBins, WeightOf(m, n - 1), b, p);
    LoadNext(Ones(|counterBins|), counterBins, 1, b, p);
  }

  lemma {:induction false} LoadAppend(a: seq<nat>, ab: seq<nat>, c: seq<nat>, cb: seq<nat>, p: nat)
    requires |a| == |ab| && |c| == |cb|
    ensures Load(a + c, ab + cb, p) == Load(a, ab, p) + Load(c, cb, p)
  {
    if c == [] {
      assert a + c == a && ab + cb == ab;
    } else {
      var n := |c| - 1;
      LoadAppend(a, ab, c[..n], cb[..n], p);
      assert (a + c)[..|a| + n] == a + c[..n] && (ab + cb)[..|a| + n] == ab + cb[..n];
    }
  }

  // ---------------------------------------------------------------- classes as items

  /** A labelling of the nodes that is the same on every class weighs what it weighs as a labelling
  of the classes. */
  lemma {:induction false} ClassesCounted(own: seq<nat>, root: seq<nat>, tag: seq<nat>, roots: seq<nat>, items: seq<nat>,
                                          none: nat, part: seq<nat>, q: nat)
    requires |own| == |root| == |tag| == |part| && |items| == |roots| && q != none
    requires AreClasses(own, root, roots, items) && InRange(roots, |root|)
    requires ByClass(root, tag)
    requires IsPart(root, tag, roots, none, part)
    ensures Load(own, part, q) == Load(items, At(tag, roots), q)
  {
    hide Load, IsPart, AreClasses, At;
    if roots == [] {
      NothingPlaced(own, root, tag, roots, none, part, q);
    } else {
      var n := |roots| - 1;
      var r := roots[n];
      ClassesPrefix(own, root, tag, roots, items, q);
      var before := PlaceClass(part, root, r, none);
      PartErased(root, tag, roots, none, part);
      ErasedBefore(root, tag, roots, none, before);
      ClassesCounted(own, root, tag, roots[..n], items[..n], none, before, q);
      ClassPlaced(own, before, root, r, tag[r], none, q);
    }
  }

  predicate InRange(s: seq<nat>, n: nat) {
    forall k :: 0 <= k < |s| ==> s[k] < n
  }

  lemma ClassesPrefix(own: seq<nat>, root: seq<nat>, tag: seq<nat>, roots: seq<nat>, items: seq<nat>, q: nat)
    requires AreClasses(own, root, roots, items) && InRange(roots, |root|) && |tag| == |root| && roots != []
    ensures var n := |roots| - 1;
      && AreClasses(own, root, roots[..n], items[..n])
      && Load(items, At(tag, roots), q)
        == Load(items[..n], At(tag, roots[..n]), q) + if tag[roots[n]] == q then Load(own, root, roots[n]) else 0
    ensures IsSet(roots)
  {
    var n := |roots| - 1;
    assert items == items[..n] + [items[n]];
    LoadNext(items[..n], At(tag, roots[..n]), items[n], tag[roots[n]], q);
  }

  ghost predicate IsSet(s: seq<nat>) {
    forall j, k :: 0 <= j < k < |s| ==> s[j] != s[k]
  }

  /** The items are the weights of some different classes. */
  ghost predicate AreClasses(own: seq<nat>, root: seq<nat>, roots: seq<nat>, items: seq<nat>) {
    && |own| == |root| && |items| == |roots|
    && (forall k :: 0 <= k < |roots| ==> roots[k] < |root| && items[k] == Load(own, root, roots[k]))
    && IsSet(roots)
  }

  predicate SameAsRoot(root: seq<nat>, tag: seq<nat>, j: nat) {
    j < |root| == |tag| && root[j] < |root| && tag[root[j]] == tag[j]
  }

  /** The labels of a node and of its representative agree. */
  ghost predicate ByClass(root: seq<nat>, tag: seq<nat>) {
    |root| == |tag| && forall j :: 0 <= j < |root| ==> SameAsRoot(root, tag, j)
  }

  /** `part` labels the given classes only. */
  ghost predicate IsPart(root: seq<nat>, tag: seq<nat>, roots: seq<nat>, none: nat, part: seq<nat>) {
    |part| == |tag| == |root| && forall j :: 0 <= j < |root| ==> part[j] == if root[j] in roots then tag[j] else none
  }

  lemma PartErased(root: seq<nat>, tag: seq<nat>, roots: seq<nat>, none: nat, part: seq<nat>)
    requires IsPart(root, tag, roots, none, part) && roots != []
    requires ByClass(root, tag)
    requires IsSet(roots)
    requires roots[|roots| - 1] < |root|
    ensures var n := |roots| - 1;
      var before := PlaceClass(part, root, roots[n], none);
      IsPart(root, tag, roots[..n], none, before) && PlaceClass(before, root, roots[n], tag[roots[n]]) == part
  {
    hide IsSet, PlaceClass;
    var n := |roots| - 1;
    var r := roots[n];
    LastIsNew(roots);
    var before := PlaceClass(part, root, r, none);
    forall j | 0 <= j < |root| ensures before[j] == if root[j] in roots[..n] then tag[j] else none {
      assert before[j] == if root[j] == r then none else part[j];
    }
    forall j | 0 <= j < |root| ensures PlaceClass(before, root, r, tag[r])[j] == part[j] {
      assert SameAsRoot(root, tag, j);
      assert before[j] == if root[j] == r then none else part[j];
    }
  }

  lemma ErasedBefore(root: seq<nat>, tag: seq<nat>, roots: seq<nat>, none: nat, before: seq<nat>)
    requires roots != [] && IsPart(root, tag, roots[..|roots| - 1], none, before)
    requires IsSet(roots)
    ensures forall j :: 0 <= j < |root| && root[j] == roots[|roots| - 1] ==> before[j] == none
  {
    LastIsNew(roots);
  }

  lemma LastIsNew(s: seq<nat>)
    requires s != [] && IsSet(s)
    ensures var n := |s| - 1;
      s[n] !in s[..n] && forall x: nat :: x in s <==> x in s[..n] || x == s[n]
  {
    assert s == s[..|s| - 1] + [s[|s| - 1]];
  }

  lemma NothingPlaced(own: seq<nat>, root: seq<nat>, tag: seq<nat>, roots: seq<nat>, none: nat, part: seq<nat>, q: nat)
    requires IsPart(root, tag, roots, none, part) && roots == [] && |own| == |root| && q != none
    ensures Load(own, part, q) == 0 == Load([], [], q)
  {
    Absent(own, part, q);
  }

  // ---------------------------------------------------------------- the bound

  /** What merging and placing leave behind: the nodes' weights, representatives and edges, and the
  greedy history of their classes. */
  ghost predicate Settled(m: Module, nodeMap: map<nat, nat>, own: seq<nat>, root: seq<nat>, edges: Edges, pr: Progress, threads: nat) {
    && OwnWeights(m, |m.globals|, own)
    && Lists(nodeMap, Nodes(m, |m.globals|))
    && Components(edges, root)
    && EdgesUpTo(edges, m, nodeMap, |own|, 0)
    && LabelsByClass(root, pr, threads)
    && ItemsAreClasses(own, root, pr)
    && forall i :: 0 <= i < |own| ==> i in pr.done
  }

  /** A rival gives all nodes of a class the same partition. */
  lemma RivalByClass(m: Module, nodeMap: map<nat, nat>, own: seq<nat>, root: seq<nat>, edges: Edges, pr: Progress, threads: nat,
                     other: seq<nat>, j: nat)
    requires Settled(m, nodeMap, own, root, edges, pr, threads) && LinksKept(m, other)
    requires j < |own|
    ensures |own| == |root| == |Nodes(m, |m.globals|)|
    ensures var tag := At(other, Nodes(m, |m.globals|)); root[j] < |own| && tag[root[j]] == tag[j]
  {
    var ns := Nodes(m, |m.globals|);
    var tag := At(other, ns);
    hide IsPath, At, Nodes;
    forall e | e in edges ensures e.0 < |tag| && e.1 < |tag| && tag[e.0] == tag[e.1] {
      var g: nat, l: nat :| UseAt(m, nodeMap, g, l, e.0, e.1);
      assert ns[e.0] == g && ns[e.1] == m.uses[g][l];
    }
    assert Connected(edges, j, root[j]);
    var p :| IsPath(edges, p) && p[0] == j && p[|p| - 1] == root[j];
    PathKeepsLabel(edges, tag, p);
  }

  lemma RivalLoad(m: Module, nodeMap: map<nat, nat>, own: seq<nat>, root: seq<nat>, edges: Edges, pr: Progress, threads: nat,
                  other: seq<nat>, q: nat)
    requires Settled(m, nodeMap, own, root, edges, pr, threads) && LinksKept(m, other)
    ensures |pr.roots| == |pr.items| && |own| == |Nodes(m, |m.globals|)| && InRange(pr.roots, |own|)
    ensures Load(own, At(other, Nodes(m, |m.globals|)), q) == Load(pr.items, At(At(other, Nodes(m, |m.globals|)), pr.roots), q)
  {
    var tag := At(other, Nodes(m, |m.globals|));
    ItemsClasses(own, root, pr);
    forall j | 0 <= j < |own| ensures SameAsRoot(root, tag, j) && root[j] in pr.roots {
      RivalByClass(m, nodeMap, own, root, edges, pr, threads, other, j);
      assert root[j] in pr.done && root[root[j]] == root[j];
    }
    hide Components, EdgesUpTo, LabelsByClass, ItemsAreClasses, Load, At;
    ClassesCounted(own, root, tag, pr.roots, pr.items, q + 1, tag, q);
  }

  lemma ItemsClasses(own: seq<nat>, root: seq<nat>, pr: Progress)
    requires ItemsAreClasses(own, root, pr)
    ensures |own| == |root| && AreClasses(own, root, pr.roots, pr.items) && InRange(pr.roots, |root|)
  {
    forall k | 0 <= k < |pr.roots| ensures pr.roots[k] < |root| && pr.items[k] == Load(own, root, pr.roots[k]) {
      assert ItemIsClass(own, root, pr, k);
    }
  }

  /** The rival's distribution of the items the placement was made of. */
  function RivalBins(m: Module, pr: Progress, other: seq<nat>): seq<nat>
    requires |other| == |m.globals| && InRange(pr.roots, |Nodes(m, |m.globals|)|)
  {
    At(At(other, Nodes(m, |m.globals|)), pr.roots) + At(other, Counters(m, |m.globals|))
  }

  lemma RivalItems(m: Module, nodeMap: map<nat, nat>, own: seq<nat>, root: seq<nat>, edges: Edges, pr: Progress, threads: nat,
                   other: seq<nat>, q: nat)
    requires Settled(m, nodeMap, own, root, edges, pr, threads) && LinksKept(m, other)
    ensures InRange(pr.roots, |Nodes(m, |m.globals|)|) && |pr.items| == |pr.roots|
    ensures Load(pr.items + Ones(|Counters(m, |m.globals|)|), RivalBins(m, pr, other), q) == Load(Weights(m, |m.globals|), other, q)
  {
    var n := |m.globals|;
    RivalLoad(m, nodeMap, own, root, edges, pr, threads, other, q);
    assert OwnWeights(m, n, own);
    hide Settled, OwnWeights, Load, At, Nodes, Counters, LinksKept;
    SplitLoad(m, n, other, own, q);
    LoadAppend(pr.items, At(At(other, Nodes(m, n)), pr.roots), Ones(|Counters(m, n)|), At(other, Counters(m, n)), q);
  }

  lemma RivalDistributes(m: Module, pr: Progress, other: seq<nat>, threads: nat, k: nat)
    requires |other| == |m.globals| && InRange(pr.roots, |Nodes(m, |m.globals|)|)
    requires forall g :: 0 <= g < |other| ==> other[g] < threads
    requires k < |RivalBins(m, pr, other)|
    ensures RivalBins(m, pr, other)[k] < threads
  {
  }

  /** No partition is heavier than (2 - 1/threads) times the heaviest partition of any rival. */
  lemma BoundedByRivals(m: Module, nodeMap: map<nat, nat>, own: seq<nat>, root: seq<nat>, edges: Edges, pr: Progress, threads: nat,
                        counterBins: seq<nat>, p: nat, other: seq<nat>, best: nat)
    requires Settled(m, nodeMap, own, root, edges, pr, threads) && threads > 0
    requires |counterBins| == |Counters(m, |m.globals|)| && |pr.items| == |pr.bins|
    requires IsGreedy(pr.items + Ones(|counterBins|), pr.bins + counterBins, threads)
    requires IsRival(m, other, threads, best)
    ensures threads * Load(pr.items + Ones(|counterBins|), pr.bins + counterBins, p) <= (2 * threads - 1) * best
  {
    hide Settled, IsGreedy, Load, At, Nodes, Counters, LinksKept, RivalBins, Weights;
    var items := pr.items + Ones(|counterBins|);
    RivalItems(m, nodeMap, own, root, edges, pr, threads, other, 0);
    var otherBins := RivalBins(m, pr, other);
    RivalLength(m, pr, other);
    forall q: nat | q < threads ensures Load(items, otherBins, q) <= best {
      RivalItems(m, nodeMap, own, root, edges, pr, threads, other, q);
    }
    forall k | 0 <= k < |otherBins| ensures otherBins[k] < threads {
      RivalDistributes(m, pr, other, threads, k);
    }
    hide IsRival;
    GreedyBound(items, pr.bins + counterBins, threads, p, otherBins, best);
  }

  lemma RivalLength(m: Module, pr: Progress, other: seq<nat>)
    requires |other| == |m.globals| && InRange(pr.roots, |Nodes(m, |m.globals|)|)
    ensures |RivalBins(m, pr, other)| == |pr.roots| + |Counters(m, |m.globals|)|
  {
  }

  // ---------------------------------------------------------------- coverage counters

  /** The counters below n are in `where`, and counterBins lists their partitions in order. */
  ghost predicate Whereabouts(m: Module, where: map<nat, nat>, counterBins: seq<nat>, n: nat) {
    && (forall g: nat :: g in where <==> g < n && IsCounter(m, g))
    && |counterBins| == |Counters(m, n)|
    && forall i :: 0 <= i < |counterBins| ==> Counters(m, n)[i] in where && where[Counters(m, n)[i]] == counterBins[i]
  }

  lemma WhereaboutsNext(m: Module, where: map<nat, nat>, counterBins: seq<nat>, n: nat, p: nat)
    requires Whereabouts(m, where, counterBins, n)
    ensures IsCounter(m, n) ==> n !in where && Whereabouts(m, where[n := p], counterBins + [p], n + 1)
    ensures !IsCounter(m, n) ==> Whereabouts(m, where, counterBins, n + 1)
  {
    hide Counters, IsCounter;
    CountersNext(m, n);
    if IsCounter(m, n) {
      var where', bins' := where[n := p], counterBins + [p];
      forall i | 0 <= i < |bins'| ensures Counters(m, n + 1)[i] in where' && where'[Counters(m, n + 1)[i]] == bins'[i] {
        if i < |counterBins| { assert Counters(m, n)[i] in where; }
      }
      assert forall g: nat :: g in where' <==> g < n + 1 && IsCounter(m, g);
    }
  }

  lemma CountersNext(m: Module, n: nat)
    ensures Counters(m, n + 1) == if IsCounter(m, n) then Counters(m, n) + [n] else Counters(m, n)
  {
  }

  lemma NoCounters(m: Module, ps: seq<Partition>)
    ensures Whereabouts(m, map[], [], 0) && Added(ps, ps, map[])
  {
  }

  /** ps is ps0 with the globals of `where` added. */
  ghost predicate Added(ps0: seq<Partition>, ps: seq<Partition>, where: map<nat, nat>) {
    && |ps| == |ps0| && (forall g :: g in where ==> where[g] < |ps|)
    && forall g: nat, p: nat {:trigger g in ps[p].globals} | p < |ps| :: g in ps[p].globals <==> g in ps0[p].globals || (g in where && where[g] == p)
  }

  lemma AddedNext(ps0: seq<Partition>, ps: seq<Partition>, where: map<nat, nat>, g: nat, p: nat, P: Partition)
    requires Added(ps0, ps, where) && p < |ps| && g !in where && P.globals == ps[p].globals + {g}
    ensures Added(ps0, ps[p := P], where[g := p])
  {
  }

  /** The partitions weigh what the items weigh. */
  ghost predicate WeighItems(ps: seq<Partition>, items: seq<nat>, bins: seq<nat>) {
    IsGreedy(items, bins, |ps|) && forall p: nat :: p < |ps| ==> ps[p].weight == Load(items, bins, p)
  }

  lemma ItemAdded(ps: seq<Partition>, items: seq<nat>, bins: seq<nat>, p: nat, P: Partition)
    requires WeighItems(ps, items, bins) && p < |ps| && P.weight == ps[p].weight + 1
    requires forall q :: 0 <= q < |ps| ==> ps[p].weight <= ps[q].weight
    ensures WeighItems(ps[p := P], items + [1], bins + [p])
  {
    forall q: nat | q < |ps| ensures Load(items, bins, p) <= Load(items, bins, q) {
      assert ps[p].weight == Load(items, bins, p) && ps[q].weight == Load(items, bins, q);
    }
    GreedyStep(items, bins, |ps|, 1, p);
  }

  /** One counter goes to the lightest partition. */
  method SpreadCounter(m: Module, ps: seq<Partition>, g: nat, ghost ps0: seq<Partition>, ghost where: map<nat, nat>,
                       ghost items: seq<nat>, ghost bins: seq<nat>) returns (ps': seq<Partition>, p: nat)
    requires ps != [] && WeighItems(ps, items, bins) && TablesFollow(ps, m) && WellFormed(m) && IsCounter(m, g)
    requires Added(ps0, ps, where) && g !in where
    ensures |ps'| == |ps| && WeighItems(ps', items + [1], bins + [p]) && TablesFollow(ps', m)
    ensures Added(ps0, ps', where[g := p])
  {
    hide WeighItems, Added, TablesFollow, WellFormed;
    p := Lightest(ps);
    var P := ps[p].(globals := ps[p].globals + {g}, weight := ps[p].weight + 1);
    AddedNext(ps0, ps, where, g, p, P);
    ItemAdded(ps, items, bins, p, P);
    CounterTables(ps, m, p, g);
    ps' := ps[p := P];
  }

  /** The history of the placement, with counters of weight 1 at the end. */
  ghost predicate Extends(its: seq<nat>, bs: seq<nat>, items: seq<nat>, bins: seq<nat>, counterBins: seq<nat>) {
    its == items + Ones(|counterBins|) && bs == bins + counterBins
  }

  lemma ExtendsNext(its: seq<nat>, bs: seq<nat>, items: seq<nat>, bins: seq<nat>, counterBins: seq<nat>, p: nat)
    ensures Extends(items, bins, items, bins, [])
    ensures Extends(its, bs, items, bins, counterBins) ==> Extends(its + [1], bs + [p], items, bins, counterBins + [p])
  {
    hide Ones;
    assert Ones(|counterBins| + 1) == Ones(|counterBins|) + [1];
    assert items + Ones(|counterBins|) + [1] == items + Ones(|counterBins| + 1);
  }

  /** The last loop: every defined coverage counter goes to the lightest partition. */
  method SpreadCounters(m: Module, ps0: seq<Partition>, ghost items: seq<nat>, ghost bins: seq<nat>)
    returns (ps: seq<Partition>, ghost where: map<nat, nat>, ghost counterBins: seq<nat>, ghost its: seq<nat>, ghost bs: seq<nat>)
    requires ps0 != [] && WeighItems(ps0, items, bins) && TablesFollow(ps0, m) && WellFormed(m)
    ensures Whereabouts(m, where, counterBins, |m.globals|) && Added(ps0, ps, where)
    ensures Extends(its, bs, items, bins, counterBins) && WeighItems(ps, its, bs)
    ensures |ps| == |ps0| && TablesFollow(ps, m)
  {
    hide WeighItems, Added, Whereabouts, TablesFollow, Counters, Extends, WellFormed;
    NoCounters(m, ps0);
    ps, where, counterBins, its, bs := ps0, map[], [], items, bins;
    ExtendsNext(its, bs, items, bins, counterBins, 0);
    for g: nat := 0 to |m.globals|
      invariant Whereabouts(m, where, counterBins, g) && Added(ps0, ps, where) && TablesFollow(ps, m) && |ps| == |ps0|
      invariant Extends(its, bs, items, bins, counterBins) && WeighItems(ps, its, bs)
    {
      WhereaboutsNext(m, where, counterBins, g, 0);
      if m.globals[g].isDeclaration || !m.globals[g].isCounter {
        continue;
      }
      var p;
      ps, p := SpreadCounter(m, ps, g, ps0, where, its, bs);
      WhereaboutsNext(m, where, counterBins, g, p);
      ExtendsNext(its, bs, items, bins, counterBins, p);
      where, counterBins, its, bs := where[g := p], counterBins + [p], its + [1], bs + [p];
    }
  }

  lemma CounterTables(ps: seq<Partition>, m: Module, p: nat, g: nat)
    requires TablesFollow(ps, m) && p < |ps| && WellFormed(m) && IsCounter(m, g)
    ensures TablesFollow(ps[p := ps[p].(globals := ps[p].globals + {g}, weight := ps[p].weight + 1)], m)
  {
    assert g !in m.fvars && g !in m.gvars;
    var P := ps[p].(globals := ps[p].globals + {g}, weight := ps[p].weight + 1);
    assert P.fvars == (map g | g in m.fvars && g in P.globals :: m.fvars[g]);
    assert P.gvars == (map g | g in m.gvars && g in P.globals :: m.gvars[g]);
  }

  // ---------------------------------------------------------------- the whole function

  /** Everything known once the counters are spread. */
  ghost predicate Finished(m: Module, ps: seq<Partition>, nodeMap: map<nat, nat>, own: seq<nat>, pr: Progress,
                           where: map<nat, nat>, counterBins: seq<nat>)
  {
    && OwnWeights(m, |m.globals|, own) && Lists(nodeMap, Nodes(m, |m.globals|))
    && (forall g: nat :: g in nodeMap <==> g < |m.globals| && IsNode(m, g))
    && |pr.labels| == |own| && (forall i :: 0 <= i < |own| ==> i in pr.done && pr.labels[i] < |ps|)
    && Whereabouts(m, where, counterBins, |m.globals|) && (forall g :: g in where ==> where[g] < |ps|)
    && forall g: nat, p: nat {:trigger g in ps[p].globals} | p < |ps| ::
      g in ps[p].globals <==> (g in nodeMap && pr.labels[nodeMap[g]] == p) || (g in where && where[g] == p)
  }

  /** The partition of g, or |ps| for a declaration. */
  ghost function HomeOf(ps: seq<Partition>, nodeMap: map<nat, nat>, labels: seq<nat>, where: map<nat, nat>, g: nat): nat
    requires forall h :: h in nodeMap ==> nodeMap[h] < |labels|
  {
    if g in nodeMap then labels[nodeMap[g]] else if g in where then where[g] else |ps|
  }

  ghost function Homes(ps: seq<Partition>, nodeMap: map<nat, nat>, labels: seq<nat>, where: map<nat, nat>, n: nat): (h: seq<nat>)
    requires forall h :: h in nodeMap ==> nodeMap[h] < |labels|
    ensures |h| == n && forall g :: 0 <= g < n ==> h[g] == HomeOf(ps, nodeMap, labels, where, g)
  {
    if n == 0 then [] else Homes(ps, nodeMap, labels, where, n - 1) + [HomeOf(ps, nodeMap, labels, where, n - 1)]
  }

  lemma HomeOfOne(m: Module, ps: seq<Partition>, nodeMap: map<nat, nat>, own: seq<nat>, pr: Progress,
                  where: map<nat, nat>, counterBins: seq<nat>, g: nat)
    requires Finished(m, ps, nodeMap, own, pr, where, counterBins) && g < |m.globals|
    ensures forall h :: h in nodeMap ==> nodeMap[h] < |pr.labels|
    ensures var home := HomeOf(ps, nodeMap, pr.labels, where, g);
      && (home < |ps| <==> !m.globals[g].isDeclaration)
      && forall p: nat :: p < |ps| ==> (g in ps[p].globals <==> home == p)
  {
    hide Nodes, Counters, OwnWeights;
    assert |own| == |Nodes(m, |m.globals|)| by { OwnLength(m, own); }
    assert IsNode(m, g) || IsCounter(m, g) <==> !m.globals[g].isDeclaration;
  }

  lemma OwnLength(m: Module, own: seq<nat>)
    requires OwnWeights(m, |m.globals|, own)
    ensures |own| == |Nodes(m, |m.globals|)|
  {
  }

  lemma HomesFound(m: Module, ps: seq<Partition>, nodeMap: map<nat, nat>, own: seq<nat>, pr: Progress,
                   where: map<nat, nat>, counterBins: seq<nat>) returns (home: seq<nat>)
    requires Finished(m, ps, nodeMap, own, pr, where, counterBins)
    ensures |home| == |m.globals| && IsHome(ps, home)
    ensures At(home, Nodes(m, |m.globals|)) == pr.labels && At(home, Counters(m, |m.globals|)) == counterBins
    ensures forall p, g: nat {:trigger g in ps[p].globals} :: 0 <= p < |ps| && g in ps[p].globals ==> g < |m.globals| && !m.globals[g].isDeclaration
    ensures forall g :: 0 <= g < |m.globals| && !m.globals[g].isDeclaration ==> home[g] < |ps|
  {
    hide Nodes, Counters, HomeOf;
    home := Homes(ps, nodeMap, pr.labels, where, |m.globals|);
    forall g | 0 <= g < |m.globals|
      ensures home[g] < |ps| <==> !m.globals[g].isDeclaration
      ensures forall p: nat :: p < |ps| ==> (g in ps[p].globals <==> home[g] == p)
    {
      HomeOfOne(m, ps, nodeMap, own, pr, where, counterBins, g);
    }
    HomesOfNodes(m, ps, nodeMap, own, pr, where, counterBins, home);
  }

  lemma HomesOfNodes(m: Module, ps: seq<Partition>, nodeMap: map<nat, nat>, own: seq<nat>, pr: Progress,
                     where: map<nat, nat>, counterBins: seq<nat>, home: seq<nat>)
    requires Finished(m, ps, nodeMap, own, pr, where, counterBins) && |home| == |m.globals|
    requires forall h :: h in nodeMap ==> nodeMap[h] < |pr.labels|
    requires forall g :: 0 <= g < |home| ==> home[g] == HomeOf(ps, nodeMap, pr.labels, where, g)
    ensures At(home, Nodes(m, |m.globals|)) == pr.labels && At(home, Counters(m, |m.globals|)) == counterBins
  {
    var n := |m.globals|;
    OwnLength(m, own);
    forall i | 0 <= i < |Nodes(m, n)| ensures home[Nodes(m, n)[i]] == pr.labels[i] {
      assert Nodes(m, n)[i] in nodeMap;
    }
    AtEquals(home, Nodes(m, n), pr.labels);
    forall i | 0 <= i < |counterBins| ensures home[Counters(m, n)[i]] == counterBins[i] {
      CounterHome(m, ps, nodeMap, pr.labels, where, counterBins, i);
    }
    hide Finished, HomeOf, At;
    AtEquals(home, Counters(m, n), counterBins);
  }

  lemma CounterHome(m: Module, ps: seq<Partition>, nodeMap: map<nat, nat>, labels: seq<nat>,
                    where: map<nat, nat>, counterBins: seq<nat>, i: nat)
    requires forall h :: h in nodeMap ==> nodeMap[h] < |labels| && IsNode(m, h)
    requires Whereabouts(m, where, counterBins, |m.globals|) && i < |counterBins|
    ensures i < |Counters(m, |m.globals|)|
    ensures HomeOf(ps, nodeMap, labels, where, Counters(m, |m.globals|)[i]) == counterBins[i]
  {
  }

  lemma AtEquals(home: seq<nat>, places: seq<nat>, vals: seq<nat>)
    requires |vals| == |places| && InRange(places, |home|)
    requires forall i :: 0 <= i < |places| ==> home[places[i]] == vals[i]
    ensures At(home, places) == vals
  {
  }

  lemma HomePlacesOnce(m: Module, ps: seq<Partition>, home: seq<nat>)
    requires |home| == |m.globals| && IsHome(ps, home)
    requires forall p, g: nat {:trigger g in ps[p].globals} :: 0 <= p < |ps| && g in ps[p].globals ==> g < |m.globals| && !m.globals[g].isDeclaration
    requires forall g :: 0 <= g < |m.globals| && !m.globals[g].isDeclaration ==> home[g] < |ps|
    ensures PlacedOnce(ps, m)
  {
    forall g | 0 <= g < |m.globals| && !m.globals[g].isDeclaration ensures exists p :: 0 <= p < |ps| && g in ps[p].globals {
      assert g in ps[home[g]].globals;
    }
    forall p, q, g: nat | 0 <= p < |ps| && 0 <= q < |ps| && g in ps[p].globals && g in ps[q].globals ensures p == q {
      assert home[g] == p && home[g] == q;
    }
  }

  /** Edges join nodes of one class, so globals linked by a use have one home. */
  lemma LinkedHomes(m: Module, ps: seq<Partition>, home: seq<nat>, nodeMap: map<nat, nat>, own: seq<nat>, root: seq<nat>,
                    edges: Edges, pr: Progress)
    requires Settled(m, nodeMap, own, root, edges, pr, |ps|)
    requires forall g: nat :: g in nodeMap <==> g < |m.globals| && IsNode(m, g)
    requires |home| == |m.globals| == |m.uses| && At(home, Nodes(m, |m.globals|)) == pr.labels
    ensures LinksKept(m, home)
  {
    var ns := Nodes(m, |m.globals|);
    hide Nodes, At, OwnWeights, ItemsAreClasses;
    forall g: nat, k: nat | g < |m.uses| && k < |m.uses[g]| && IsNode(m, g) && IsNode(m, m.uses[g][k])
      ensures home[g] == home[m.uses[g][k]]
    {
      var i, j := nodeMap[g], nodeMap[m.uses[g][k]];
      assert UseAt(m, nodeMap, g, k, i, j);
      assert (i, j) in edges;
      assert ns[i] == g && ns[j] == m.uses[g][k];
      HomeAt(home, ns, i);
      HomeAt(home, ns, j);
      assert pr.labels[i] == pr.labels[root[i]] == pr.labels[j];
    }
  }

  lemma HomeAt(home: seq<nat>, ns: seq<nat>, i: nat)
    requires i < |ns| && forall k :: 0 <= k < |ns| ==> ns[k] < |home|
    ensures |At(home, ns)| == |ns| && At(home, ns)[i] == home[ns[i]]
  {
  }

  lemma LinksTogether(m: Module, ps: seq<Partition>, home: seq<nat>)
    requires WellFormed(m) && LinksKept(m, home) && IsHome(ps, home)
    ensures UsesTogether(ps, m)
  {
  }

  /** A partition weighs what its globals weigh. */
  lemma HomeWeights(m: Module, ps: seq<Partition>, home: seq<nat>, own: seq<nat>, pr: Progress, counterBins: seq<nat>,
                    its: seq<nat>, bs: seq<nat>, p: nat)
    requires OwnWeights(m, |m.globals|, own) && |home| == |m.globals| && |pr.labels| == |own| && |pr.items| == |pr.bins|
    requires At(home, Nodes(m, |m.globals|)) == pr.labels && At(home, Counters(m, |m.globals|)) == counterBins
    requires Load(own, pr.labels, p) == Load(pr.items, pr.bins, p)
    requires Extends(its, bs, pr.items, pr.bins, counterBins)
    ensures |its| == |bs| && Load(its, bs, p) == Load(Weights(m, |m.globals|), home, p)
  {
    hide Load, OwnWeights, Weights, Nodes, Counters, At;
    SplitLoad(m, |m.globals|, home, own, p);
    LoadAppend(pr.items, pr.bins, Ones(|counterBins|), counterBins, p);
  }

  /** What the loops leave behind, in one place. */
  ghost predicate Loops(m: Module, ps: seq<Partition>, nodes: seq<Node>, nodeMap: map<nat, nat>, own: seq<nat>,
                        root: seq<nat>, rank: seq<nat>, edges: Edges, ps0: seq<Partition>, pr: Progress,
                        where: map<nat, nat>, counterBins: seq<nat>, its: seq<nat>, bs: seq<nat>)
  {
    && Collected(nodeMap, own, m, |m.globals|) && |own| == |nodes|
    && Components(edges, root) && EdgesUpTo(edges, m, nodeMap, |own|, 0)
    && Placing(nodes, nodeMap, own, root, rank, m, ps0, pr) && (forall i :: 0 <= i < |own| ==> i in pr.done)
    && Whereabouts(m, where, counterBins, |m.globals|) && Added(ps0, ps, where)
    && Extends(its, bs, pr.items, pr.bins, counterBins) && WeighItems(ps, its, bs)
  }

  lemma LoopsSettle(m: Module, ps: seq<Partition>, nodes: seq<Node>, nodeMap: map<nat, nat>, own: seq<nat>,
                    root: seq<nat>, rank: seq<nat>, edges: Edges, ps0: seq<Partition>, pr: Progress,
                    where: map<nat, nat>, counterBins: seq<nat>, its: seq<nat>, bs: seq<nat>)
    requires Loops(m, ps, nodes, nodeMap, own, root, rank, edges, ps0, pr, where, counterBins, its, bs)
    ensures Settled(m, nodeMap, own, root, edges, pr, |ps|)
    ensures forall g: nat :: g in nodeMap <==> g < |m.globals| && IsNode(m, g)
    ensures |counterBins| == |Counters(m, |m.globals|)| && |pr.items| == |pr.bins|
    ensures OwnWeights(m, |m.globals|, own) && |pr.labels| == |own| && Lists(nodeMap, Nodes(m, |m.globals|))
    ensures forall p: nat :: p < |ps| ==> Load(own, pr.labels, p) == Load(pr.items, pr.bins, p)
  {
    assert |ps| == |ps0|;
    hide NodesMarked, GlobalsPlaced, TablesFollow, ItemIsClass, EdgesUpTo, Components, Added, Extends, WeighItems, Load, IsGreedy;
    hide Nodes, Counters;
    assert WeightsAgree(ps0, own, pr);
  }

  lemma LoopsFinish(m: Module, ps: seq<Partition>, nodes: seq<Node>, nodeMap: map<nat, nat>, own: seq<nat>,
                    root: seq<nat>, rank: seq<nat>, edges: Edges, ps0: seq<Partition>, pr: Progress,
                    where: map<nat, nat>, counterBins: seq<nat>, its: seq<nat>, bs: seq<nat>)
    requires Loops(m, ps, nodes, nodeMap, own, root, rank, edges, ps0, pr, where, counterBins, its, bs)
    ensures Finished(m, ps, nodeMap, own, pr, where, counterBins)
  {
    LoopsSettle(m, ps, nodes, nodeMap, own, root, rank, edges, ps0, pr, where, counterBins, its, bs);
    assert GlobalsPlaced(ps0, nodeMap, pr) && LabelsByClass(root, pr, |ps|);
    OwnLength(m, own);
    hide NodesMarked, TablesFollow, ItemsAreClasses, EdgesUpTo, Components, WeightsAgree, Extends, WeighItems, Load, Nodes, Counters,
      Settled, OwnWeights, Collected, Whereabouts, IsNode, Lists, Placing, GlobalsPlaced, LabelsByClass, Added;
    LabelsBelow(root, pr, |ps|, |own|);
    PlacesTogether(ps0, ps, nodeMap, pr, where, Nodes(m, |m.globals|));
  }

  lemma LabelsBelow(root: seq<nat>, pr: Progress, threads: nat, n: nat)
    requires LabelsByClass(root, pr, threads) && |pr.labels| == n && forall i :: 0 <= i < n ==> i in pr.done
    ensures forall i :: 0 <= i < n ==> i in pr.done && pr.labels[i] < threads
  {
  }

  lemma PlacesTogether(ps0: seq<Partition>, ps: seq<Partition>, nodeMap: map<nat, nat>, pr: Progress, where: map<nat, nat>, gvs: seq<nat>)
    requires GlobalsPlaced(ps0, nodeMap, pr) && Added(ps0, ps, where)
    requires Lists(nodeMap, gvs) && |gvs| == |pr.labels| && forall i :: 0 <= i < |gvs| ==> i in pr.done
    ensures forall h :: h in nodeMap ==> nodeMap[h] < |pr.labels|
    ensures forall g :: g in where ==> where[g] < |ps|
    ensures forall g: nat, p: nat {:trigger g in ps[p].globals} | p < |ps| ::
      g in ps[p].globals <==> (g in nodeMap && pr.labels[nodeMap[g]] == p) || (g in where && where[g] == p)
  {
  }

  /** partitionModule.  `home` tells the partition of every global. */
  method PartitionModule(m: Module, threads: nat) returns (ps: seq<Partition>, ghost home: seq<nat>)
    requires WellFormed(m) && threads > 0
    ensures |ps| == threads && PlacedOnce(ps, m) && UsesTogether(ps, m) && TablesFollow(ps, m)
    ensures |home| == |m.globals| && IsHome(ps, home)
    ensures forall p: nat :: p < threads ==> ps[p].weight == Load(Weights(m, |m.globals|), home, p)
    ensures forall other, best: nat, p: nat | IsRival(m, other, threads, best) && p < threads ::
      threads * ps[p].weight <= (2 * threads - 1) * best
  {
    hide Forest, Mapped, Weighted, ClassesWeigh, Components, EdgesUpTo, Collected, Placing, Added, Extends, WeighItems, Whereabouts,
      WellFormed, TablesFollow, Load, IsRival, Weights, PlacedOnce, UsesTogether, IsHome;
    var u := Collect(m);
    MergeUses(u, m);
    ghost var nodeMap, own, root, rank, edges := u.nodeMap, u.own, u.root, u.rank, u.edges;
    ghost var pr, where, counterBins, its, bs;
    var ps0;
    ps0, pr := PlaceNodes(u, m, threads);
    ghost var nodes := u.nodes;
    PlacedItems(nodes, nodeMap, own, root, rank, m, ps0, pr);
    ps, where, counterBins, its, bs := SpreadCounters(m, ps0, pr.items, pr.bins);
    home := Conclude(m, ps, nodes, nodeMap, own, root, rank, edges, ps0, pr, where, counterBins, its, bs);
  }

  lemma PlacedItems(nodes: seq<Node>, nodeMap: map<nat, nat>, own: seq<nat>, root: seq<nat>, rank: seq<nat>, m: Module,
                    ps: seq<Partition>, pr: Progress)
    requires Placing(nodes, nodeMap, own, root, rank, m, ps, pr)
    ensures WeighItems(ps, pr.items, pr.bins) && TablesFollow(ps, m) && |own| == |nodes|
  {
  }

  lemma Conclude(m: Module, ps: seq<Partition>, nodes: seq<Node>, nodeMap: map<nat, nat>, own: seq<nat>,
                 root: seq<nat>, rank: seq<nat>, edges: Edges, ps0: seq<Partition>, pr: Progress,
                 where: map<nat, nat>, counterBins: seq<nat>, its: seq<nat>, bs: seq<nat>) returns (home: seq<nat>)
    requires WellFormed(m) && ps != []
    requires Loops(m, ps, nodes, nodeMap, own, root, rank, edges, ps0, pr, where, counterBins, its, bs)
    ensures PlacedOnce(ps, m) && UsesTogether(ps, m)
    ensures |home| == |m.globals| && IsHome(ps, home)
    ensures forall p: nat :: p < |ps| ==> ps[p].weight == Load(Weights(m, |m.globals|), home, p)
    ensures forall other, best: nat, p: nat | IsRival(m, other, |ps|, best) && p < |ps| ::
      |ps| * ps[p].weight <= (2 * |ps| - 1) * best
  {
    hide Settled, OwnWeights, Lists, IsHome, At, Nodes, Counters, Finished, PlacedOnce, UsesTogether, LinksKept, Load, IsRival,
      Whereabouts, Added, Placing, Collected, Components, EdgesUpTo, WeighItems, Extends;
    LoopsSettle(m, ps, nodes, nodeMap, own, root, rank, edges, ps0, pr, where, counterBins, its, bs);
    LoopsFinish(m, ps, nodes, nodeMap, own, root, rank, edges, ps0, pr, where, counterBins, its, bs);
    home := HomesFound(m, ps, nodeMap, own, pr, where, counterBins);
    HomePlacesOnce(m, ps, home);
    assert |m.uses| == |m.globals|;
    LinkedHomes(m, ps, home, nodeMap, own, root, edges, pr);
    LinksTogether(m, ps, home);
    HistoryWeighs(ps, its, bs, pr, counterBins);
    forall p: nat | p < |ps| ensures ps[p].weight == Load(Weights(m, |m.globals|), home, p) {
      HomeWeights(m, ps, home, own, pr, counterBins, its, bs, p);
    }
    forall other, best: nat, p: nat | IsRival(m, other, |ps|, best) && p < |ps|
      ensures |ps| * ps[p].weight <= (2 * |ps| - 1) * best
    {
      BoundedByRivals(m, nodeMap, own, root, edges, pr, |ps|, counterBins, p, other, best);
    }
  }

  lemma HistoryWeighs(ps: seq<Partition>, its: seq<nat>, bs: seq<nat>, pr: Progress, counterBins: seq<nat>)
    requires WeighItems(ps, its, bs) && Extends(its, bs, pr.items, pr.bins, counterBins)
    ensures |its| == |bs| && forall p: nat :: p < |ps| ==> ps[p].weight == Load(its, bs, p)
    ensures its == pr.items + Ones(|counterBins|) && bs == pr.bins + counterBins
    ensures IsGreedy(pr.items + Ones(|counterBins|), pr.bins + counterBins, |ps|)
  {
  }
}
