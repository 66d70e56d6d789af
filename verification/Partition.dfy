/** partitionModule (src/aotcompile.cpp), step by step. */
module Partitioning {
  import opened ListScheduling
  import opened UnionFind

  /* Use-linked globals are grouped by union-find, the groups are placed heaviest first on the lightest
  partition, and coverage counters are spread last. */

  /** A global value; its name is its index in the module. */
  datatype Global = Global(isDeclaration: bool, isCounter: bool, weight: nat)

  datatype Module = Module(
    globals: seq<Global>,
    uses: seq<seq<nat>>,   // uses[g]: the globals whose definitions mention g
    fvars: map<nat, nat>,
    gvars: map<nat, nat>
  )

  datatype Partition = Partition(globals: set<nat>, fvars: map<nat, nat>, gvars: map<nat, nat>, weight: nat)

  predicate IsNode(m: Module, g: nat) {
    g < |m.globals| && !m.globals[g].isDeclaration && !m.globals[g].isCounter
  }

  /** What LLVM and getFunctionWeight guarantee: definitions have positive weight, only definitions
  mention other globals, and fvars and gvars are definitions other than coverage counters. */
  ghost predicate WellFormed(m: Module) {
    && |m.uses| == |m.globals|
    && (forall g :: 0 <= g < |m.globals| && !m.globals[g].isDeclaration ==> m.globals[g].weight >= 1)
    && (forall g, k :: 0 <= g < |m.uses| && 0 <= k < |m.uses[g]| ==>
          m.uses[g][k] < |m.globals| && !m.globals[m.uses[g][k]].isDeclaration)
    && (forall g :: g in m.fvars ==> IsNode(m, g))
    && (forall g :: g in m.gvars ==> IsNode(m, g))
  }

  // ---------------------------------------------------------------- what verify_partitioning checks

  /** Every definition is in one partition, and no declaration is in any. */
  ghost predicate PlacedOnce(ps: seq<Partition>, m: Module) {
    && (forall p, g: nat {:trigger g in ps[p].globals} :: 0 <= p < |ps| && g in ps[p].globals ==> g < |m.globals| && !m.globals[g].isDeclaration)
    && (forall g :: 0 <= g < |m.globals| && !m.globals[g].isDeclaration ==> exists p :: 0 <= p < |ps| && g in ps[p].globals)
    && (forall p, q, g: nat :: 0 <= p < |ps| && 0 <= q < |ps| && g in ps[p].globals && g in ps[q].globals ==> p == q)
  }

  /** Globals linked by a use are in the same partition, coverage counters excepted. */
  ghost predicate UsesTogether(ps: seq<Partition>, m: Module) {
    forall g, k, p | 0 <= g < |m.uses| && 0 <= k < |m.uses[g]| && 0 <= p < |ps| ::
      IsNode(m, g) && IsNode(m, m.uses[g][k]) && g in ps[p].globals ==> m.uses[g][k] in ps[p].globals
  }

  /** Every table entry goes with its global. */
  ghost predicate TablesFollow(ps: seq<Partition>, m: Module) {
    forall p :: 0 <= p < |ps| ==>
      && ps[p].fvars == (map g | g in m.fvars && g in ps[p].globals :: m.fvars[g])
      && ps[p].gvars == (map g | g in m.gvars && g in ps[p].globals :: m.gvars[g])
  }

  // ---------------------------------------------------------------- collecting and merging

  /** The globals below n that become nodes, in order. */
  function Nodes(m: Module, n: nat): (s: seq<nat>)
    ensures forall i :: 0 <= i < |s| ==> s[i] < n && IsNode(m, s[i])
  {
    if n == 0 then [] else Nodes(m, n - 1) + if IsNode(m, n - 1) then [n - 1] else []
  }

  /** gvs lists the globals of the nodes. */
  ghost predicate Lists(nodeMap: map<nat, nat>, gvs: seq<nat>) {
    && (forall i :: 0 <= i < |gvs| ==> gvs[i] in nodeMap && nodeMap[gvs[i]] == i)
    && (forall g :: g in nodeMap ==> nodeMap[g] < |gvs| && gvs[nodeMap[g]] == g)
  }

  /** A node for every definition below n that is not a coverage counter, with its weight. */
  ghost predicate Collected(nodeMap: map<nat, nat>, own: seq<nat>, m: Module, n: nat) {
    && (forall g: nat :: g in nodeMap <==> g < n && IsNode(m, g))
    && Lists(nodeMap, Nodes(m, n)) && |own| == |Nodes(m, n)|
    && forall i :: 0 <= i < |own| ==> own[i] == m.globals[Nodes(m, n)[i]].weight
  }

  /** The first loop. */
  method Collect(m: Module) returns (u: Partitioner)
    requires WellFormed(m)
    ensures fresh(u) && u.Valid() && u.edges == {} && |u.nodes| == |u.own|
    ensures Collected(u.nodeMap, u.own, m, |m.globals|)
  {
    hide Forest, Mapped, Weighted, ClassesWeigh, Components, Collected, Nodes;
    u := new Partitioner();
    NothingCollected(m);
    for g: nat := 0 to |m.globals|
      invariant fresh(u) && u.Valid() && u.edges == {} && |u.nodes| == |u.own| && Collected(u.nodeMap, u.own, m, g)
    {
      CollectedNext(u.nodeMap, u.own, m, g);
      if m.globals[g].isDeclaration || m.globals[g].isCounter {
        continue;
      }
      var idx := u.Make(g, m.globals[g].weight);
    }
  }

  lemma NothingCollected(m: Module)
    ensures Collected(map[], [], m, 0)
  {
  }

  lemma CollectedNext(nodeMap: map<nat, nat>, own: seq<nat>, m: Module, g: nat)
    requires Collected(nodeMap, own, m, g) && g < |m.globals|
    ensures g !in nodeMap
    ensures !IsNode(m, g) ==> Collected(nodeMap, own, m, g + 1)
    ensures IsNode(m, g) ==> Collected(nodeMap[g := |own|], own + [m.globals[g].weight], m, g + 1)
  {
    hide Lists, Nodes, IsNode;
    ListsNext(nodeMap, Nodes(m, g), g);
    NodesNext(m, g);
    if IsNode(m, g) {
      OwnNext(own, m, Nodes(m, g), g);
    }
  }

  lemma OwnNext(own: seq<nat>, m: Module, gvs: seq<nat>, g: nat)
    requires |own| == |gvs| && g < |m.globals|
    requires forall i :: 0 <= i < |gvs| ==> gvs[i] < |m.globals| && own[i] == m.globals[gvs[i]].weight
    ensures var own', gvs' := own + [m.globals[g].weight], gvs + [g];
      forall i :: 0 <= i < |gvs'| ==> gvs'[i] < |m.globals| && own'[i] == m.globals[gvs'[i]].weight
  {
  }

  lemma NodesNext(m: Module, g: nat)
    ensures Nodes(m, g + 1) == if IsNode(m, g) then Nodes(m, g) + [g] else Nodes(m, g)
  {
  }

  lemma ListsNext(nodeMap: map<nat, nat>, gvs: seq<nat>, g: nat)
    requires Lists(nodeMap, gvs) && g !in nodeMap
    ensures Lists(nodeMap[g := |gvs|], gvs + [g])
  {
  }

  /** Use k of global g is by a node: g is node i, its user is node j. */
  ghost predicate UseAt(m: Module, nodeMap: map<nat, nat>, g: nat, k: nat, i: nat, j: nat) {
    && g in nodeMap && nodeMap[g] == i
    && g < |m.uses| && k < |m.uses[g]|
    && m.uses[g][k] in nodeMap && nodeMap[m.uses[g][k]] == j
  }

  /** The edges so far are uses, and the uses of nodes before i and the first k uses of node i
  are among them. */
  ghost predicate EdgesUpTo(edges: Edges, m: Module, nodeMap: map<nat, nat>, i: nat, k: nat) {
    && (forall e :: e in edges ==> exists g: nat, l: nat :: UseAt(m, nodeMap, g, l, e.0, e.1))
    && (forall g: nat, l: nat, a: nat, b: nat :: UseAt(m, nodeMap, g, l, a, b) && (a < i || (a == i && l < k)) ==> (a, b) in edges)
  }

  lemma EdgeAdded(edges: Edges, m: Module, nodeMap: map<nat, nat>, g: nat, i: nat, k: nat)
    requires EdgesUpTo(edges, m, nodeMap, i, k)
    requires g in nodeMap && nodeMap[g] == i && g < |m.uses| && k < |m.uses[g]|
    requires forall h :: h in nodeMap && nodeMap[h] == i ==> h == g
    ensures m.uses[g][k] in nodeMap ==> EdgesUpTo(edges + {(i, nodeMap[m.uses[g][k]])}, m, nodeMap, i, k + 1)
    ensures m.uses[g][k] !in nodeMap ==> EdgesUpTo(edges, m, nodeMap, i, k + 1)
  {
    if m.uses[g][k] in nodeMap {
      assert UseAt(m, nodeMap, g, k, i, nodeMap[m.uses[g][k]]);
    }
  }

  lemma NodeDone(edges: Edges, m: Module, nodeMap: map<nat, nat>, g: nat, i: nat)
    requires g in nodeMap && nodeMap[g] == i && g < |m.uses|
    requires forall h :: h in nodeMap && nodeMap[h] == i ==> h == g
    requires EdgesUpTo(edges, m, nodeMap, i, |m.uses[g]|)
    ensures EdgesUpTo(edges, m, nodeMap, i + 1, 0)
  {
  }

  /** The second loop: merge every node with the nodes that use it. */
  method MergeUses(u: Partitioner, m: Module)
    requires WellFormed(m) && u.Valid() && u.edges == {} && Collected(u.nodeMap, u.own, m, |m.globals|)
    modifies u
    ensures u.Valid() && u.own == old(u.own) && u.nodeMap == old(u.nodeMap) && |u.nodes| == old(|u.nodes|)
    ensures EdgesUpTo(u.edges, m, u.nodeMap, |u.nodes|, 0)
  {
    hide Forest, Weighted, ClassesWeigh, Components, EdgesUpTo;
    ghost var nodeMap := u.nodeMap;
    NoEdges(m, nodeMap);
    for i: nat := 0 to |u.nodes|
      invariant u.Valid() && u.own == old(u.own) && u.nodeMap == nodeMap && |u.nodes| == old(|u.nodes|)
      invariant EdgesUpTo(u.edges, m, nodeMap, i, 0)
    {
      var g := u.nodes[i].gv;
      for k: nat := 0 to |m.uses[g]|
        invariant u.Valid() && u.own == old(u.own) && u.nodeMap == nodeMap && |u.nodes| == old(|u.nodes|)
        invariant EdgesUpTo(u.edges, m, nodeMap, i, k)
      {
        EdgeAdded(u.edges, m, nodeMap, g, i, k);
        var val := m.uses[g][k];
        if val !in u.nodeMap {
          assert m.globals[val].isCounter; // asserted by the source
          continue;
        }
        var r := u.Merge(i, u.nodeMap[val]);
      }
      NodeDone(u.edges, m, nodeMap, g, i);
    }
  }

  lemma NoEdges(m: Module, nodeMap: map<nat, nat>)
    ensures EdgesUpTo({}, m, nodeMap, 0, 0)
  {
  }

  // ---------------------------------------------------------------- sorting

  /** The indices below n, each once, the heavier nodes first. */
  ghost predicate Sorted(nodes: seq<Node>, order: seq<nat>, n: nat)
    requires n <= |nodes|
  {
    && |order| == n
    && (forall k :: 0 <= k < n ==> order[k] < n)
    && (forall j, k :: 0 <= j < k < n ==> order[j] != order[k])
    && (forall j, k :: 0 <= j < k < n ==> nodes[order[j]].weight >= nodes[order[k]].weight)
    && (forall i :: 0 <= i < n ==> i in order)
  }

  function Insert(order: seq<nat>, n: nat, p: nat): (r: seq<nat>)
    requires p <= |order|
    ensures |r| == |order| + 1
    ensures r[p] == n
    ensures forall k {:trigger r[k]} :: 0 <= k < p ==> r[k] == order[k]
    ensures forall k {:trigger r[k]} :: p < k <= |order| ==> r[k] == order[k - 1]
  {
    order[..p] + [n] + order[p..]
  }

  lemma InsertedKeepsAll(order: seq<nat>, n: nat, p: nat, i: nat)
    requires p <= |order| && (i == n || i in order)
    ensures i in Insert(order, n, p)
  {
    hide Insert;
    var r := Insert(order, n, p);
    var j := p;
    if i != n {
      j := Position(order, i);
      if j >= p { j := j + 1; }
    }
    assert r[j] == i;
  }

  lemma Inserted(nodes: seq<Node>, order: seq<nat>, n: nat, p: nat)
    requires n < |nodes| && Sorted(nodes, order, n) && p <= n
    requires forall k :: 0 <= k < p ==> nodes[order[k]].weight >= nodes[n].weight
    requires p < n ==> nodes[order[p]].weight < nodes[n].weight
    ensures Sorted(nodes, Insert(order, n, p), n + 1)
  {
    hide Insert;
    forall i | 0 <= i <= n ensures i in Insert(order, n, p) { InsertedKeepsAll(order, n, p, i); }
    forall k | p <= k < n ensures nodes[order[k]].weight <= nodes[n].weight {
      assert nodes[order[p]].weight >= nodes[order[k]].weight;
    }
  }

  lemma Position(order: seq<nat>, i: nat) returns (k: nat)
    requires i in order
    ensures k < |order| && order[k] == i
  {
    k :| 0 <= k < |order| && order[k] == i;
  }

  /** std::sort by decreasing weight.  Callers only rely on Sorted, so equal weights may come in
  any order. */
  method SortByWeight(nodes: seq<Node>) returns (order: seq<nat>)
    ensures Sorted(nodes, order, |nodes|)
  {
    order := [];
    for n: nat := 0 to |nodes|
      invariant Sorted(nodes, order, n)
    {
      var p := 0;
      while p < n && nodes[order[p]].weight >= nodes[n].weight
        invariant 0 <= p <= n
        invariant forall k :: 0 <= k < p ==> nodes[order[k]].weight >= nodes[n].weight
      {
        p := p + 1;
      }
      Inserted(nodes, order, n, p);
      order := Insert(order, n, p);
    }
  }

  // ---------------------------------------------------------------- placing

  /** How far the placement has come: the nodes done, the partition of every class (`none` for
  those still to come), and the history of the greedy choices, one per class. */
  datatype Progress = Progress(done: set<nat>, labels: seq<nat>, roots: seq<nat>, items: seq<nat>, bins: seq<nat>)

  /** A node that is done has weight 0 and its partition in the size field. */
  ghost predicate NodesMarked(nodes: seq<Node>, rank: seq<nat>, pr: Progress, threads: nat) {
    && |rank| == |nodes| == |pr.labels|
    && forall i :: 0 <= i < |nodes| ==>
      if i in pr.done then nodes[i].weight == 0 && nodes[i].size == pr.labels[i] < threads
      else nodes[i].weight == rank[i]
  }

  /** A class has a partition as soon as its representative is done, and before its members are. */
  ghost predicate LabelsByClass(root: seq<nat>, pr: Progress, threads: nat) {
    && |root| == |pr.labels|
    && (forall i :: i in pr.done ==> i < |root| && root[i] in pr.done)
    && (forall i :: 0 <= i < |root| ==> root[i] < |root| && root[root[i]] == root[i] && pr.labels[i] == pr.labels[root[i]])
    && (forall i :: 0 <= i < |root| ==> if root[i] in pr.done then pr.labels[i] < threads else pr.labels[i] == threads)
  }

  ghost predicate GlobalsPlaced(ps: seq<Partition>, nodeMap: map<nat, nat>, pr: Progress) {
    forall p, g: nat | 0 <= p < |ps| ::
      g in ps[p].globals <==> g in nodeMap && nodeMap[g] in pr.done && nodeMap[g] < |pr.labels| && pr.labels[nodeMap[g]] == p
  }

  /** A partition weighs what its classes weigh, counted by member and by class. */
  ghost predicate WeightsAgree(ps: seq<Partition>, own: seq<nat>, pr: Progress) {
    && |own| == |pr.labels| && IsGreedy(pr.items, pr.bins, |ps|)
    && (forall p: nat :: p < |ps| ==> ps[p].weight == Load(own, pr.labels, p))
    && (forall p: nat :: p < |ps| ==> ps[p].weight == Load(pr.items, pr.bins, p))
  }

  /** The items are the classes done, each once. */
  ghost predicate ItemsAreClasses(own: seq<nat>, root: seq<nat>, pr: Progress) {
    && |own| == |root| == |pr.labels|
    && |pr.roots| == |pr.items| == |pr.bins|
    && (forall k :: 0 <= k < |pr.roots| ==> ItemIsClass(own, root, pr, k))
    && (forall j, k :: 0 <= j < k < |pr.roots| ==> pr.roots[j] != pr.roots[k])
    && (forall i :: i in pr.done && i < |root| && root[i] == i ==> i in pr.roots)
  }

  ghost predicate ItemIsClass(own: seq<nat>, root: seq<nat>, pr: Progress, k: nat)
    requires |own| == |root| == |pr.labels| && |pr.roots| == |pr.items| == |pr.bins| && k < |pr.roots|
  {
    var r := pr.roots[k];
    r < |root| && root[r] == r && r in pr.done && pr.items[k] == Load(own, root, r) && pr.bins[k] == pr.labels[r]
  }

  /** The class of i gets label p. */
  function PlaceClass(labels: seq<nat>, root: seq<nat>, i: nat, p: nat): (r: seq<nat>)
    requires |labels| == |root|
    ensures |r| == |labels| && forall j :: 0 <= j < |root| ==> r[j] == if root[j] == i then p else labels[j]
  {
    if labels == [] then [] else
      var n := |labels| - 1;
      PlaceClass(labels[..n], root[..n], i, p) + [if root[n] == i then p else labels[n]]
  }

  /** Placing a class adds its weight to one load and changes no other. */
  lemma {:induction false} ClassPlaced(own: seq<nat>, labels: seq<nat>, root: seq<nat>, i: nat, p: nat, none: nat, q: nat)
    requires |own| == |labels| == |root| && q != none
    requires forall j :: 0 <= j < |root| && root[j] == i ==> labels[j] == none
    ensures Load(own, PlaceClass(labels, root, i, p), q)
         == Load(own, labels, q) + if q == p then Load(own, root, i) else 0
  {
    if own != [] {
      var n := |own| - 1;
      var labels' := PlaceClass(labels, root, i, p);
      assert labels'[..n] == PlaceClass(labels[..n], root[..n], i, p);
      ClassPlaced(own[..n], labels[..n], root[..n], i, p, none, q);
    }
  }

  /** What both branches of the placement loop do to a partition. */
  function AddGlobal(P: Partition, m: Module, g: nat, weight: nat): Partition {
    Partition(P.globals + {g},
              if g in m.fvars then P.fvars[g := m.fvars[g]] else P.fvars,
              if g in m.gvars then P.gvars[g := m.gvars[g]] else P.gvars,
              P.weight + weight)
  }

  lemma TablesKept(ps: seq<Partition>, m: Module, p: nat, g: nat, weight: nat)
    requires TablesFollow(ps, m) && p < |ps|
    ensures TablesFollow(ps[p := AddGlobal(ps[p], m, g, weight)], m)
  {
  }

  ghost function RootDone(pr: Progress, root: seq<nat>, rank: seq<nat>, i: nat, p: nat): Progress
    requires i < |rank| && |root| == |pr.labels|
  {
    Progress(pr.done + {i}, PlaceClass(pr.labels, root, i, p), pr.roots + [i], pr.items + [rank[i]], pr.bins + [p])
  }

  /** The representative i goes to the lightest partition p, and takes its class with it. */
  lemma RootWeights(ps: seq<Partition>, own: seq<nat>, root: seq<nat>, rank: seq<nat>, pr: Progress, i: nat, p: nat, P: Partition)
    requires WeightsAgree(ps, own, pr) && LabelsByClass(root, pr, |ps|) && ClassesWeigh(own, root, rank)
    requires i < |root| && root[i] == i && i !in pr.done
    requires p < |ps| && P.weight == ps[p].weight + rank[i]
    requires forall q :: 0 <= q < |ps| ==> ps[p].weight <= ps[q].weight
    ensures WeightsAgree(ps[p := P], own, RootDone(pr, root, rank, i, p))
  {
    var pr' := RootDone(pr, root, rank, i, p);
    forall q: nat | q < |ps| ensures Load(own, pr'.labels, q) == Load(own, pr.labels, q) + if q == p then rank[i] else 0 {
      ClassPlaced(own, pr.labels, root, i, p, |ps|, q);
    }
    assert forall q: nat :: q < |ps| ==> Load(pr.items, pr.bins, p) <= Load(pr.items, pr.bins, q) by {
      assert forall q: nat :: q < |ps| ==> ps[q].weight == Load(pr.items, pr.bins, q);
    }
    GreedyStep(pr.items, pr.bins, |ps|, rank[i], p);
    hide Load, IsGreedy;
    var ps' := ps[p := P];
    forall q: nat | q < |ps| ensures ps'[q].weight == Load(own, pr'.labels, q) == Load(pr'.items, pr'.bins, q) {
      assert ps[q].weight == Load(own, pr.labels, q) == Load(pr.items, pr.bins, q);
    }
  }

  /** One more item on a lightest bin. */
  lemma GreedyStep(items: seq<nat>, bins: seq<nat>, m: nat, w: nat, p: nat)
    requires IsGreedy(items, bins, m) && p < m
    requires forall q: nat :: q < m ==> Load(items, bins, p) <= Load(items, bins, q)
    ensures IsGreedy(items + [w], bins + [p], m)
    ensures forall q: nat :: q < m ==> Load(items + [w], bins + [p], q) == Load(items, bins, q) + if q == p then w else 0
  {
    var n := |items|;
    assert (items + [w])[..n] == items && (bins + [p])[..n] == bins;
  }

  lemma RootLabels(root: seq<nat>, rank: seq<nat>, pr: Progress, i: nat, p: nat, threads: nat)
    requires LabelsByClass(root, pr, threads) && |rank| == |root|
    requires i < |root| && root[i] == i && i !in pr.done && p < threads
    ensures LabelsByClass(root, RootDone(pr, root, rank, i, p), threads)
  {
    var pr' := RootDone(pr, root, rank, i, p);
    forall j | 0 <= j < |root|
      ensures root[j] < |root| && pr'.labels[j] == pr'.labels[root[j]]
      ensures if root[j] in pr'.done then pr'.labels[j] < threads else pr'.labels[j] == threads
    {
      assert pr.labels[j] == pr.labels[root[j]];
    }
  }

  lemma RootItems(own: seq<nat>, root: seq<nat>, rank: seq<nat>, pr: Progress, i: nat, p: nat)
    requires ItemsAreClasses(own, root, pr) && ClassesWeigh(own, root, rank)
    requires i < |root| && root[i] == i && i !in pr.done
    ensures ItemsAreClasses(own, root, RootDone(pr, root, rank, i, p))
  {
    hide Load;
    var pr' := RootDone(pr, root, rank, i, p);
    forall k | 0 <= k < |pr'.roots| ensures ItemIsClass(own, root, pr', k) {
      if k < |pr.roots| { assert ItemIsClass(own, root, pr, k); }
    }
    forall k | 0 <= k < |pr.roots| ensures pr.roots[k] != i { assert ItemIsClass(own, root, pr, k); }
  }

  /** A member joins the partition of its class, which already has its weight. */
  lemma MemberPlaced(ps: seq<Partition>, own: seq<nat>, root: seq<nat>, pr: Progress, i: nat, p: nat, P: Partition, threads: nat)
    requires WeightsAgree(ps, own, pr) && LabelsByClass(root, pr, threads) && ItemsAreClasses(own, root, pr)
    requires i < |root| && root[i] != i && root[i] in pr.done && p < |ps| && P.weight == ps[p].weight
    ensures var pr' := pr.(done := pr.done + {i});
      WeightsAgree(ps[p := P], own, pr') && LabelsByClass(root, pr', threads) && ItemsAreClasses(own, root, pr')
  {
    hide Load, IsGreedy;
    var pr' := pr.(done := pr.done + {i});
    forall k | 0 <= k < |pr'.roots| ensures ItemIsClass(own, root, pr', k) {
      assert ItemIsClass(own, root, pr, k);
    }
  }

  /** Global g of node i is added to partition p. */
  lemma GlobalAdded(ps: seq<Partition>, m: Module, nodeMap: map<nat, nat>, pr: Progress, pr': Progress, i: nat, g: nat, p: nat, w: nat)
    requires GlobalsPlaced(ps, nodeMap, pr) && p < |ps|
    requires g in nodeMap && nodeMap[g] == i && forall h :: h in nodeMap && nodeMap[h] == i ==> h == g
    requires pr'.done == pr.done + {i} && i < |pr'.labels| == |pr.labels| && pr'.labels[i] == p
    requires forall j :: j in pr.done && j < |pr.labels| ==> pr'.labels[j] == pr.labels[j]
    requires i in pr.done ==> pr.labels[i] == p
    ensures GlobalsPlaced(ps[p := AddGlobal(ps[p], m, g, w)], nodeMap, pr')
  {
  }

  /** Marking a node as done. */
  function Mark(nodes: seq<Node>, i: nat, p: nat): seq<Node>
    requires i < |nodes|
  {
    nodes[i := nodes[i].(weight := 0, size := p)]
  }

  /** Everything the placement loop keeps. */
  ghost predicate Placing(nodes: seq<Node>, nodeMap: map<nat, nat>, own: seq<nat>, root: seq<nat>, rank: seq<nat>,
                          m: Module, ps: seq<Partition>, pr: Progress)
  {
    && NodesMarked(nodes, rank, pr, |ps|)
    && LabelsByClass(root, pr, |ps|)
    && GlobalsPlaced(ps, nodeMap, pr)
    && TablesFollow(ps, m)
    && WeightsAgree(ps, own, pr)
    && ItemsAreClasses(own, root, pr)
  }

  lemma MarkedRoot(nodes: seq<Node>, root: seq<nat>, rank: seq<nat>, pr: Progress, i: nat, p: nat, threads: nat)
    requires NodesMarked(nodes, rank, pr, threads) && LabelsByClass(root, pr, threads)
    requires i < |nodes| && root[i] == i && i !in pr.done && p < threads
    ensures |root| == |rank| == |nodes|
    ensures NodesMarked(Mark(nodes, i, p), rank, RootDone(pr, root, rank, i, p), threads)
  {
  }

  lemma MarkedMember(nodes: seq<Node>, root: seq<nat>, rank: seq<nat>, pr: Progress, i: nat, threads: nat)
    requires NodesMarked(nodes, rank, pr, threads) && LabelsByClass(root, pr, threads)
    requires i < |nodes| && root[i] in pr.done
    ensures root[i] < |nodes|
    ensures NodesMarked(Mark(nodes, i, nodes[root[i]].size), rank, pr.(done := pr.done + {i}), threads)
    ensures nodes[root[i]].size == pr.labels[i] < threads
  {
  }

  lemma MarkKeeps(nodes: seq<Node>, nodeMap: map<nat, nat>, root: seq<nat>, rank: seq<nat>, i: nat, p: nat)
    requires Forest(nodes, root, rank) && Mapped(nodes, nodeMap) && i < |nodes|
    ensures Forest(Mark(nodes, i, p), root, rank) && Mapped(Mark(nodes, i, p), nodeMap)
  {
    var nodes' := Mark(nodes, i, p);
    forall j | 0 <= j < |nodes| ensures GoodNode(nodes', root, rank, j) {
      assert GoodNode(nodes, root, rank, j);
    }
    assert forall j :: 0 <= j < |nodes| ==> nodes'[j].gv == nodes[j].gv;
  }

  lemma FindKeepsMarks(a: seq<Node>, b: seq<Node>, rank: seq<nat>, pr: Progress, threads: nat)
    requires SameButParents(a, b) && NodesMarked(a, rank, pr, threads)
    ensures NodesMarked(b, rank, pr, threads)
  {
    assert forall i :: 0 <= i < |a| ==> b[i].size == a[i].size && b[i].weight == a[i].weight;
  }

  /** Sorting by weight meets each representative before the other members of its class. */
  lemma RootFirst(sorted: seq<Node>, root: seq<nat>, rank: seq<nat>, order: seq<nat>, k: nat)
    requires Forest(sorted, root, rank) && Weighted(sorted, rank) && Sorted(sorted, order, |sorted|) && k < |order|
    ensures order[k] < |root| && (root[order[k]] == order[k] || root[order[k]] in order[..k])
  {
    var i := order[k];
    assert GoodNode(sorted, root, rank, i);
    var r := root[i];
    if r != i {
      assert GoodNode(sorted, root, rank, sorted[i].parent);
      assert rank[i] < rank[r];
      var j := Position(order, r);
      HeavierFirst(sorted, order, j, k);
    }
  }

  lemma HeavierFirst(nodes: seq<Node>, order: seq<nat>, j: nat, k: nat)
    requires Sorted(nodes, order, |nodes|) && j < |order| && k < |order|
    requires nodes[order[j]].weight > nodes[order[k]].weight
    ensures j < k
  {
  }

  /** pq.top(): some partition of least weight. */
  method Lightest(ps: seq<Partition>) returns (p: nat)
    requires ps != []
    ensures p < |ps| && forall q :: 0 <= q < |ps| ==> ps[p].weight <= ps[q].weight
  {
    p := 0;
    for q := 1 to |ps|
      invariant p < q && forall j :: 0 <= j < q ==> ps[p].weight <= ps[j].weight
    {
      if ps[q].weight < ps[p].weight { p := q; }
    }
  }

  /** One round of the placement loop: a representative goes to the lightest partition, a member
  follows its representative. */
  method PlaceNode(u: Partitioner, m: Module, ps: seq<Partition>, ghost pr: Progress, i: nat)
    returns (ps': seq<Partition>, ghost pr': Progress)
    requires Forest(u.nodes, u.root, u.rank) && Mapped(u.nodes, u.nodeMap) && ClassesWeigh(u.own, u.root, u.rank)
    requires ps != [] && Placing(u.nodes, u.nodeMap, u.own, u.root, u.rank, m, ps, pr)
    requires i < |u.nodes| == |u.root| && i !in pr.done && (u.root[i] == i || u.root[i] in pr.done)
    modifies u`nodes
    ensures Forest(u.nodes, u.root, u.rank) && Mapped(u.nodes, u.nodeMap)
    ensures |ps'| == |ps| && Placing(u.nodes, u.nodeMap, u.own, u.root, u.rank, m, ps', pr')
    ensures pr'.done == pr.done + {i}
  {
    hide Forest, Mapped, Weighted, ClassesWeigh, SameButParents, NodesMarked, LabelsByClass, GlobalsPlaced, TablesFollow,
      WeightsAgree, ItemsAreClasses, Mark, AddGlobal;
    ghost var before := u.nodes;
    var r := u.Find(i);
    FindKeepsMarks(before, u.nodes, u.rank, pr, |ps|);
    FindKeeps(before, u.nodes, u.rank, u.nodeMap);
    MarkState(u.nodes, u.rank, pr, |ps|);
    assert r == i || u.nodes[r].weight == 0; // asserted by the source
    PositiveRank(u.nodes, u.root, u.rank, i);
    ps', pr' := ps, pr;
    if u.nodes[r].weight != 0 {
      var p := Lightest(ps);
      RootStep(u.nodes, u.nodeMap, u.own, u.root, u.rank, m, ps, pr, i, p);
      MarkKeeps(u.nodes, u.nodeMap, u.root, u.rank, i, p);
      pr' := RootDone(pr, u.root, u.rank, i, p);
      ps' := ps[p := AddGlobal(ps[p], m, u.nodes[r].gv, u.nodes[r].weight)];
      u.nodes := Mark(u.nodes, r, p);
    }
    if r != i {
      assert u.nodes[i].weight != 0; // asserted by the source
      MemberStep(u.nodes, u.nodeMap, u.own, u.root, u.rank, m, ps, pr, i);
      var p := u.nodes[r].size;
      MarkKeeps(u.nodes, u.nodeMap, u.root, u.rank, i, p);
      pr' := pr.(done := pr.done + {i});
      ps' := ps[p := AddGlobal(ps[p], m, u.nodes[i].gv, 0)];
      u.nodes := Mark(u.nodes, i, p);
    }
  }

  lemma PositiveRank(nodes: seq<Node>, root: seq<nat>, rank: seq<nat>, i: nat)
    requires Forest(nodes, root, rank) && i < |nodes|
    ensures i < |rank| && rank[i] >= 1
  {
    assert GoodNode(nodes, root, rank, i);
  }

  ghost function Elements(s: seq<nat>): set<nat> {
    set i | i in s
  }

  lemma ElementsNext(s: seq<nat>, k: nat)
    requires k < |s|
    ensures Elements(s[..k + 1]) == Elements(s[..k]) + {s[k]}
  {
    assert s[..k + 1] == s[..k] + [s[k]];
  }

  /** The placement loop, over the nodes in order of decreasing weight. */
  method PlaceNodes(u: Partitioner, m: Module, threads: nat) returns (ps: seq<Partition>, ghost pr: Progress)
    requires u.Valid() && threads > 0
    modifies u`nodes
    ensures |ps| == threads && Placing(u.nodes, u.nodeMap, u.own, u.root, u.rank, m, ps, pr)
    ensures Mapped(u.nodes, u.nodeMap) && |u.nodes| == |u.root| && forall i :: 0 <= i < |u.nodes| ==> i in pr.done
  {
    ghost var sorted := u.nodes;
    ps, pr := NoPartitions(sorted, u.nodeMap, u.own, u.root, u.rank, m, threads);
    var order := SortByWeight(u.nodes);
    hide Forest, Weighted, ClassesWeigh, Components, NodesMarked, LabelsByClass, GlobalsPlaced, TablesFollow,
      WeightsAgree, ItemsAreClasses, Sorted, Mapped, Placing, Elements;
    for k: nat := 0 to |order|
      invariant Forest(u.nodes, u.root, u.rank) && Mapped(u.nodes, u.nodeMap)
      invariant |ps| == threads && Placing(u.nodes, u.nodeMap, u.own, u.root, u.rank, m, ps, pr)
      invariant pr.done == Elements(order[..k])
    {
      PlacingRange(sorted, u.nodes, u.nodeMap, u.own, u.root, u.rank, m, ps, pr);
      NextNode(sorted, u.root, u.rank, order, k);
      ps, pr := PlaceNode(u, m, ps, pr, order[k]);
    }
    AllPlaced(sorted, u.nodes, u.nodeMap, u.own, u.root, u.rank, m, ps, pr, order);
  }

  /** The next node in the order is still to be placed; its representative is placed, unless it is
  the node itself. */
  lemma NextNode(sorted: seq<Node>, root: seq<nat>, rank: seq<nat>, order: seq<nat>, k: nat)
    requires Forest(sorted, root, rank) && Weighted(sorted, rank) && Sorted(sorted, order, |sorted|) && k < |order|
    ensures order[k] < |sorted| == |root| && order[k] !in Elements(order[..k])
    ensures root[order[k]] == order[k] || root[order[k]] in Elements(order[..k])
    ensures Elements(order[..k + 1]) == Elements(order[..k]) + {order[k]}
  {
    RootsInRange(sorted, root, rank);
    SortedRange(sorted, order, k);
    RootFirst(sorted, root, rank, order, k);
    ElementsNext(order, k);
  }

  lemma AllPlaced(sorted: seq<Node>, nodes: seq<Node>, nodeMap: map<nat, nat>, own: seq<nat>, root: seq<nat>, rank: seq<nat>,
                  m: Module, ps: seq<Partition>, pr: Progress, order: seq<nat>)
    requires Placing(nodes, nodeMap, own, root, rank, m, ps, pr) && Forest(sorted, root, rank)
    requires Sorted(sorted, order, |sorted|) && pr.done == Elements(order[..|order|])
    ensures |nodes| == |root| && forall i :: 0 <= i < |nodes| ==> i in pr.done
  {
    PlacingRange(sorted, nodes, nodeMap, own, root, rank, m, ps, pr);
    assert order[..|order|] == order;
    AllDone(sorted, order, pr);
  }

  method NoPartitions(ghost nodes: seq<Node>, ghost nodeMap: map<nat, nat>, ghost own: seq<nat>, ghost root: seq<nat>,
                      ghost rank: seq<nat>, ghost m: Module, threads: nat)
    returns (ps: seq<Partition>, ghost pr: Progress)
    requires Forest(nodes, root, rank) && Weighted(nodes, rank) && ClassesWeigh(own, root, rank)
    ensures |ps| == threads && pr.done == {} && Placing(nodes, nodeMap, own, root, rank, m, ps, pr)
  {
    ps := [];
    for p := 0 to threads
      invariant |ps| == p && forall q :: 0 <= q < p ==> ps[q] == Partition({}, map[], map[], 0)
    {
      ps := ps + [Partition({}, map[], map[], 0)];
    }
    pr := NothingPlacedYet(nodes, nodeMap, own, root, rank, m, ps);
  }

  lemma NothingPlacedYet(nodes: seq<Node>, nodeMap: map<nat, nat>, own: seq<nat>, root: seq<nat>, rank: seq<nat>, m: Module,
                         ps: seq<Partition>) returns (pr: Progress)
    requires Forest(nodes, root, rank) && Weighted(nodes, rank) && ClassesWeigh(own, root, rank)
    requires forall q :: 0 <= q < |ps| ==> ps[q] == Partition({}, map[], map[], 0)
    ensures pr.done == {} && Placing(nodes, nodeMap, own, root, rank, m, ps, pr)
  {
    hide Forest, Load, GoodNode;
    var labels := Unplaced(|nodes|, |ps|);
    pr := Progress({}, labels, [], [], []);
    RootsInRange(nodes, root, rank);
    forall p: nat | p < |ps| ensures Load(own, labels, p) == 0 == Load([], [], p) {
      Absent(own, labels, p);
      NoLoad(p);
    }
  }

  lemma NoLoad(p: nat)
    ensures Load([], [], p) == 0
  {
  }

  function Unplaced(n: nat, none: nat): (labels: seq<nat>)
    ensures |labels| == n && forall i :: 0 <= i < n ==> labels[i] == none
  {
    if n == 0 then [] else Unplaced(n - 1, none) + [none]
  }

  lemma SortedRange(nodes: seq<Node>, order: seq<nat>, k: nat)
    requires Sorted(nodes, order, |nodes|) && k < |order|
    ensures order[k] < |nodes| && order[k] !in Elements(order[..k])
  {
  }

  lemma AllDone(nodes: seq<Node>, order: seq<nat>, pr: Progress)
    requires Sorted(nodes, order, |nodes|) && pr.done == Elements(order)
    ensures forall i :: 0 <= i < |nodes| ==> i in pr.done
  {
  }

  lemma PlacingRange(before: seq<Node>, nodes: seq<Node>, nodeMap: map<nat, nat>, own: seq<nat>, root: seq<nat>, rank: seq<nat>,
                     m: Module, ps: seq<Partition>, pr: Progress)
    requires Placing(nodes, nodeMap, own, root, rank, m, ps, pr) && Forest(before, root, rank)
    ensures |root| == |rank| == |nodes| == |before| == |pr.labels|
  {
  }

  /** The weight field tells whether a node is done. */
  lemma MarkState(nodes: seq<Node>, rank: seq<nat>, pr: Progress, threads: nat)
    requires NodesMarked(nodes, rank, pr, threads)
    ensures |rank| == |nodes| == |pr.labels|
    ensures forall i :: 0 <= i < |nodes| ==> nodes[i].weight == if i in pr.done then 0 else rank[i]
  {
  }

  lemma RootStep(nodes: seq<Node>, nodeMap: map<nat, nat>, own: seq<nat>, root: seq<nat>, rank: seq<nat>,
                 m: Module, ps: seq<Partition>, pr: Progress, i: nat, p: nat)
    requires Placing(nodes, nodeMap, own, root, rank, m, ps, pr) && Mapped(nodes, nodeMap) && ClassesWeigh(own, root, rank)
    requires i < |nodes| == |root| && root[i] == i && i !in pr.done
    requires p < |ps| && forall q :: 0 <= q < |ps| ==> ps[p].weight <= ps[q].weight
    ensures i < |rank| && |root| == |pr.labels|
    ensures Placing(Mark(nodes, i, p), nodeMap, own, root, rank, m,
                    ps[p := AddGlobal(ps[p], m, nodes[i].gv, nodes[i].weight)], RootDone(pr, root, rank, i, p))
  {
    var g := nodes[i].gv;
    MarkState(nodes, rank, pr, |ps|);
    MarkedRoot(nodes, root, rank, pr, i, p, |ps|);
    RootLabels(root, rank, pr, i, p, |ps|);
    LabelsKept(root, rank, pr, i, p, |ps|);
    GlobalAdded(ps, m, nodeMap, pr, RootDone(pr, root, rank, i, p), i, g, p, rank[i]);
    TablesKept(ps, m, p, g, rank[i]);
    RootWeights(ps, own, root, rank, pr, i, p, AddGlobal(ps[p], m, g, rank[i]));
    RootItems(own, root, rank, pr, i, p);
  }

  lemma LabelsKept(root: seq<nat>, rank: seq<nat>, pr: Progress, i: nat, p: nat, threads: nat)
    requires LabelsByClass(root, pr, threads) && |rank| == |root| && i < |root| && root[i] == i && i !in pr.done
    ensures var pr' := RootDone(pr, root, rank, i, p);
      && |pr'.labels| == |pr.labels| && pr'.labels[i] == p
      && forall j :: j in pr.done && j < |pr.labels| ==> pr'.labels[j] == pr.labels[j]
  {
  }

  lemma MemberStep(nodes: seq<Node>, nodeMap: map<nat, nat>, own: seq<nat>, root: seq<nat>, rank: seq<nat>,
                   m: Module, ps: seq<Partition>, pr: Progress, i: nat)
    requires Placing(nodes, nodeMap, own, root, rank, m, ps, pr) && Mapped(nodes, nodeMap)
    requires i < |nodes| == |root| && root[i] != i && root[i] in pr.done && i !in pr.done
    ensures root[i] < |nodes| && nodes[root[i]].size < |ps|
    ensures var p := nodes[root[i]].size;
      Placing(Mark(nodes, i, p), nodeMap, own, root, rank, m,
              ps[p := AddGlobal(ps[p], m, nodes[i].gv, 0)], pr.(done := pr.done + {i}))
  {
    hide NodesMarked;
    var g := nodes[i].gv;
    MarkedMember(nodes, root, rank, pr, i, |ps|);
    var p := nodes[root[i]].size;
    GlobalAdded(ps, m, nodeMap, pr, pr.(done := pr.done + {i}), i, g, p, 0);
    TablesKept(ps, m, p, g, 0);
    MemberPlaced(ps, own, root, pr, i, p, AddGlobal(ps[p], m, g, 0), |ps|);
  }
}
