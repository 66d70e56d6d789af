/** The union-find of partitionModule (src/aotcompile.cpp). */
module UnionFind {
  import opened ListScheduling

  /* Nodes are merged by size, `find` halves paths, and a node always weighs less than its parent. */

  datatype Node = Node(gv: nat, parent: nat, size: nat, weight: nat)

  // ---------------------------------------------------------------- connected nodes

  type Edges = set<(nat, nat)>

  predicate Adjacent(edges: Edges, i: nat, j: nat) {
    i == j || (i, j) in edges || (j, i) in edges
  }

  ghost predicate IsPath(edges: Edges, p: seq<nat>) {
    p != [] && forall k :: 0 <= k < |p| - 1 ==> Adjacent(edges, p[k], p[k + 1])
  }

  /** i and j are joined by edges, in whatever direction. */
  ghost predicate Connected(edges: Edges, i: nat, j: nat) {
    exists p :: IsPath(edges, p) && p[0] == i && p[|p| - 1] == j
  }

  lemma ConnectedSelf(edges: Edges, i: nat)
    ensures Connected(edges, i, i)
  {
    assert IsPath(edges, [i]);
  }

  lemma ConnectedEdge(edges: Edges, i: nat, j: nat)
    requires Adjacent(edges, i, j)
    ensures Connected(edges, i, j)
  {
    assert IsPath(edges, [i, j]);
  }

  lemma ConnectedTrans(edges: Edges, i: nat, j: nat, k: nat)
    requires Connected(edges, i, j) && Connected(edges, j, k)
    ensures Connected(edges, i, k)
  {
    var p :| IsPath(edges, p) && p[0] == i && p[|p| - 1] == j;
    var q :| IsPath(edges, q) && q[0] == j && q[|q| - 1] == k;
    assert IsPath(edges, p + q);
  }

  lemma {:induction false} Reversed(edges: Edges, p: seq<nat>) returns (r: seq<nat>)
    requires IsPath(edges, p)
    ensures IsPath(edges, r) && |r| == |p| && r[0] == p[|p| - 1] && r[|r| - 1] == p[0]
    decreases |p|
  {
    if |p| == 1 {
      r := p;
    } else {
      r := Reversed(edges, p[1..]);
      assert Adjacent(edges, p[0], p[1]);
      r := r + [p[0]];
    }
  }

  lemma ConnectedSym(edges: Edges, i: nat, j: nat)
    requires Connected(edges, i, j)
    ensures Connected(edges, j, i)
  {
    var p :| IsPath(edges, p) && p[0] == i && p[|p| - 1] == j;
    var r := Reversed(edges, p);
  }

  lemma ConnectedMore(edges: Edges, more: Edges, i: nat, j: nat)
    requires Connected(edges, i, j) && edges <= more
    ensures Connected(more, i, j)
  {
    var p :| IsPath(edges, p) && p[0] == i && p[|p| - 1] == j;
    assert IsPath(more, p);
  }

  /** A labelling that is equal along every edge is equal along every path. */
  lemma {:induction false} PathKeepsLabel(edges: Edges, root: seq<nat>, p: seq<nat>)
    requires IsPath(edges, p) && p[0] < |root|
    requires forall e :: e in edges ==> e.0 < |root| && e.1 < |root| && root[e.0] == root[e.1]
    ensures p[|p| - 1] < |root| && root[p[|p| - 1]] == root[p[0]]
    decreases |p|
  {
    if |p| > 1 {
      assert Adjacent(edges, p[0], p[1]);
      PathKeepsLabel(edges, root, p[1..]);
    }
  }

  // ---------------------------------------------------------------- weights of classes: Load(own, root, r)

  /** Relabelling class y as x. */
  ghost predicate IsMerged(root: seq<nat>, root': seq<nat>, x: nat, y: nat) {
    |root'| == |root| && forall i :: 0 <= i < |root| ==> root'[i] == if root[i] == y then x else root[i]
  }

  lemma {:induction false} MergedWeight(own: seq<nat>, root: seq<nat>, root': seq<nat>, x: nat, y: nat, r: nat)
    requires |own| == |root| && IsMerged(root, root', x, y) && x != y
    ensures Load(own, root', r)
      == if r == x then Load(own, root, x) + Load(own, root, y)
         else if r == y then 0 else Load(own, root, r)
  {
    if own != [] {
      var n := |own| - 1;
      MergedWeight(own[..n], root[..n], root'[..n], x, y, r);
    }
  }

  // ---------------------------------------------------------------- the structure

  /** `root` tells the representative of every node, and `rank` its weight; following parents
  leads to the representative because ranks strictly increase on the way. */
  ghost predicate Forest(nodes: seq<Node>, root: seq<nat>, rank: seq<nat>) {
    && |root| == |rank| == |nodes|
    && forall i :: 0 <= i < |nodes| ==> GoodNode(nodes, root, rank, i)
  }

  ghost predicate GoodNode(nodes: seq<Node>, root: seq<nat>, rank: seq<nat>, i: nat)
    requires |root| == |rank| == |nodes| && i < |nodes|
  {
    var p, r := nodes[i].parent, root[i];
    && p < |nodes| && r < |nodes| && root[r] == r
    && root[p] == r
    && (p == i <==> r == i)
    && (p != i ==> rank[i] < rank[p])
    && rank[i] <= rank[r]
    && rank[i] >= 1
  }

  /** The weights still stored in the nodes are the ranks. */
  ghost predicate Weighted(nodes: seq<Node>, rank: seq<nat>) {
    |rank| == |nodes| && forall i :: 0 <= i < |nodes| ==> nodes[i].weight == rank[i]
  }

  /** A representative weighs what the members of its class were made with. */
  ghost predicate ClassesWeigh(own: seq<nat>, root: seq<nat>, rank: seq<nat>) {
    |own| == |root| == |rank| && forall i :: 0 <= i < |root| && root[i] == i ==> rank[i] == Load(own, root, i)
  }

  /** Nodes have the same representative if merges connect them, and only then. */
  ghost predicate Components(edges: Edges, root: seq<nat>) {
    && (forall i :: 0 <= i < |root| ==> Connected(edges, i, root[i]))
    && (forall e :: e in edges ==> e.0 < |root| && e.1 < |root| && root[e.0] == root[e.1])
  }

  ghost predicate Mapped(nodes: seq<Node>, nodeMap: map<nat, nat>) {
    && (forall i :: 0 <= i < |nodes| ==> nodes[i].gv in nodeMap && nodeMap[nodes[i].gv] == i)
    && (forall g :: g in nodeMap ==> nodeMap[g] < |nodes| && nodes[nodeMap[g]].gv == g)
  }

  ghost predicate SameButParents(a: seq<Node>, b: seq<Node>) {
    |a| == |b| && forall i :: 0 <= i < |a| ==> b[i] == a[i].(parent := b[i].parent)
  }

  lemma FindKeeps(a: seq<Node>, b: seq<Node>, rank: seq<nat>, nodeMap: map<nat, nat>)
    requires SameButParents(a, b)
    ensures Weighted(a, rank) ==> Weighted(b, rank)
    ensures Mapped(a, nodeMap) ==> Mapped(b, nodeMap)
  {
    assert forall i :: 0 <= i < |a| ==> b[i].gv == a[i].gv && b[i].weight == a[i].weight;
  }

  class Partitioner {
    var nodes: seq<Node>
    var nodeMap: map<nat, nat>
    var merged: nat
    ghost var own: seq<nat>    // the weights the nodes were made with
    ghost var root: seq<nat>   // the representative of each node
    ghost var rank: seq<nat>   // the weight each node had when it was last a representative
    ghost var edges: Edges     // what was merged so far

    ghost predicate Valid()
      reads this
    {
      && Forest(nodes, root, rank)
      && Mapped(nodes, nodeMap)
      && Weighted(nodes, rank)
      && ClassesWeigh(own, root, rank)
      && Components(edges, root)
    }

    constructor ()
      ensures Valid() && nodes == [] && edges == {} && own == [] && nodeMap == map[]
    {
      nodes, nodeMap, merged := [], map[], 0;
      own, root, rank, edges := [], [], [], {};
    }

    /** make */
    method Make(gv: nat, weight: nat) returns (idx: nat)
      requires Valid() && gv !in nodeMap && weight >= 1
      modifies this
      ensures Valid()
      ensures idx == old(|nodes|)
      ensures own == old(own) + [weight] && root == old(root) + [idx] && edges == old(edges)
      ensures nodes == old(nodes) + [Node(gv, idx, 1, weight)] && nodeMap == old(nodeMap)[gv := idx]
    {
      hide Forest, ClassesWeigh, Components;
      idx := |nodes|;
      MakeKeeps(nodes, root, rank, own, edges, gv, weight);
      nodes := nodes + [Node(gv, idx, 1, weight)];
      nodeMap := nodeMap[gv := idx];
      own, root, rank := own + [weight], root + [idx], rank + [weight];
    }

    /** find, with path halving: only parents change, and no node changes its representative. */
    method Find(idx0: nat) returns (idx: nat)
      requires Forest(nodes, root, rank) && idx0 < |nodes|
      modifies this`nodes
      ensures Forest(nodes, root, rank) && SameButParents(old(nodes), nodes)
      ensures idx0 < |root| && idx == root[idx0] < |nodes| && root[idx] == idx
    {
      idx := idx0;
      RootsInRange(nodes, root, rank);
      ghost var r := root[idx0];
      while nodes[idx].parent != idx
        invariant Forest(nodes, root, rank) && SameButParents(old(nodes), nodes)
        invariant idx < |nodes| && root[idx] == r
        decreases rank[r] - rank[idx] as int
      {
        ghost var before := nodes;
        var p := nodes[idx].parent;
        assert GoodNode(before, root, rank, idx);
        HalvingKeeps(nodes, root, rank, idx);
        nodes := nodes[idx := nodes[idx].(parent := nodes[p].parent)];
        assert GoodNode(before, root, rank, p);
        idx := nodes[idx].parent;
        assert GoodNode(nodes, root, rank, idx);
      }
      assert GoodNode(nodes, root, rank, idx);
    }

    /** merge */
    method Merge(x0: nat, y0: nat) returns (r: nat)
      requires Valid() && x0 < |nodes| && y0 < |nodes|
      modifies this
      ensures Valid() && own == old(own) && nodeMap == old(nodeMap) && edges == old(edges) + {(x0, y0)}
      ensures |nodes| == old(|nodes|)
      ensures |root| == |nodes| && r == root[x0] == root[y0]
    {
      RootsInRange(nodes, root, rank);
      ghost var nodes0, root0, rank0 := nodes, root, rank;
      hide Connected, Load, Forest, Weighted, Mapped, SameButParents, ClassesWeigh, Components;
      var x := Find(x0);
      FindKeeps(nodes0, nodes, rank, nodeMap);
      ghost var nodes1 := nodes;
      var y := Find(y0);
      FindKeeps(nodes1, nodes, rank, nodeMap);
      SameLength(nodes, root, rank, nodes0);
      if x == y {
        ComponentsSame(edges, root, x0, y0);
        edges := edges + {(x0, y0)};
        return x;
      }
      if nodes[x].size < nodes[y].size {
        x, y := y, x;
      }
      Link(x, y, x0, y0);
      return x;
    }

    /** The assignments of merge: y hangs below x, which takes over its size and weight. */
    method Link(x: nat, y: nat, ghost x0: nat, ghost y0: nat)
      requires Valid() && x < |nodes| == |root| && y < |nodes| && x != y && root[x] == x && root[y] == y
      requires x0 < |root| && y0 < |root|
      requires (x == root[x0] && y == root[y0]) || (x == root[y0] && y == root[x0])
      modifies this
      ensures Valid() && own == old(own) && nodeMap == old(nodeMap) && edges == old(edges) + {(x0, y0)}
      ensures |nodes| == old(|nodes|) && IsMerged(old(root), root, x, y)
    {
      hide Connected, Load, Forest, Weighted, Mapped, ClassesWeigh, Components, IsMerged, Hung;
      SameLength(nodes, root, rank, nodes);
      ghost var root', rank' := Relabel(root, x, y), rank[x := rank[x] + rank[y]];
      LinkKeeps(nodes, root, rank, own, x, y, root', rank');
      LinkWeighs(nodes, rank, nodeMap, x, y);
      ComponentsLinked(edges, root, root', x0, y0, x, y);
      nodes := Hung(nodes, x, y);
      merged := merged + 1;
      root, rank, edges := root', rank', edges + {(x0, y0)};
    }
  }

  /** The three assignments of merge: y's parent, then the size and the weight of x. */
  function Hung(nodes: seq<Node>, x: nat, y: nat): seq<Node>
    requires x < |nodes| && y < |nodes|
  {
    var n1 := nodes[y := nodes[y].(parent := x)];
    var n2 := n1[x := n1[x].(size := n1[x].size + n1[y].size)];
    n2[x := n2[x].(weight := n2[x].weight + n2[y].weight)]
  }

  lemma SameLength(nodes: seq<Node>, root: seq<nat>, rank: seq<nat>, before: seq<Node>)
    requires Forest(nodes, root, rank) && |before| == |root|
    ensures |nodes| == |before| == |rank|
  {
  }

  lemma RootsInRange(nodes: seq<Node>, root: seq<nat>, rank: seq<nat>)
    requires Forest(nodes, root, rank)
    ensures |root| == |rank| == |nodes|
    ensures forall i :: 0 <= i < |nodes| ==> root[i] < |nodes| && root[root[i]] == root[i]
  {
    forall i | 0 <= i < |nodes| ensures root[i] < |nodes| && root[root[i]] == root[i] {
      assert GoodNode(nodes, root, rank, i);
    }
  }

  lemma MakeKeeps(nodes: seq<Node>, root: seq<nat>, rank: seq<nat>, own: seq<nat>, edges: Edges, gv: nat, w: nat)
    requires Forest(nodes, root, rank) && ClassesWeigh(own, root, rank) && Components(edges, root) && w >= 1
    ensures var idx := |nodes|;
      && Forest(nodes + [Node(gv, idx, 1, w)], root + [idx], rank + [w])
      && ClassesWeigh(own + [w], root + [idx], rank + [w])
      && Components(edges, root + [idx])
  {
    hide Connected, Load;
    var idx := |nodes|;
    var nodes', root', rank' := nodes + [Node(gv, idx, 1, w)], root + [idx], rank + [w];
    RootsInRange(nodes, root, rank);
    AddedWeights(own, root, w, idx);
    ConnectedSelf(edges, idx);
    forall i | 0 <= i < |nodes'| ensures GoodNode(nodes', root', rank', i) {
      if i < idx { assert GoodNode(nodes, root, rank, i); }
    }
  }

  function Relabel(root: seq<nat>, x: nat, y: nat): (r: seq<nat>)
    ensures IsMerged(root, r, x, y)
  {
    if root == [] then [] else
      Relabel(root[..|root| - 1], x, y) + [if root[|root| - 1] == y then x else root[|root| - 1]]
  }

  lemma AddedWeights(own: seq<nat>, root: seq<nat>, w: nat, idx: nat)
    requires |own| == |root| == idx && forall i :: 0 <= i < idx ==> root[i] < idx
    ensures Load(own + [w], root + [idx], idx) == w
    ensures forall r :: 0 <= r < idx ==> Load(own + [w], root + [idx], r) == Load(own, root, r)
  {
    assert (own + [w])[..idx] == own && (root + [idx])[..idx] == root;
    Absent(own, root, idx);
  }

  lemma {:induction false} Absent(own: seq<nat>, root: seq<nat>, r: nat)
    requires |own| == |root| && forall i :: 0 <= i < |root| ==> root[i] != r
    ensures Load(own, root, r) == 0
  {
    if own != [] { Absent(own[..|own| - 1], root[..|root| - 1], r); }
  }

  /** Pointing a node at its grandparent keeps the forest: the grandparent is heavier still. */
  lemma HalvingKeeps(nodes: seq<Node>, root: seq<nat>, rank: seq<nat>, idx: nat)
    requires Forest(nodes, root, rank) && idx < |nodes| && nodes[idx].parent != idx
    ensures var p := nodes[idx].parent;
      && p < |nodes| && nodes[p].parent < |nodes|
      && Forest(nodes[idx := nodes[idx].(parent := nodes[p].parent)], root, rank)
      && rank[idx] < rank[nodes[p].parent]
  {
    var p := nodes[idx].parent;
    assert GoodNode(nodes, root, rank, idx) && GoodNode(nodes, root, rank, p);
    var g := nodes[p].parent;
    var nodes' := nodes[idx := nodes[idx].(parent := g)];
    assert GoodNode(nodes, root, rank, g);
    forall i | 0 <= i < |nodes| ensures GoodNode(nodes', root, rank, i) {
      assert GoodNode(nodes, root, rank, i);
    }
  }

  /** Hanging root y below root x. */
  lemma LinkKeeps(nodes: seq<Node>, root: seq<nat>, rank: seq<nat>, own: seq<nat>, x: nat, y: nat,
                  root': seq<nat>, rank': seq<nat>)
    requires Forest(nodes, root, rank) && ClassesWeigh(own, root, rank)
    requires x < |nodes| && y < |nodes| && x != y && root[x] == x && root[y] == y
    requires IsMerged(root, root', x, y) && rank' == rank[x := rank[x] + rank[y]]
    ensures Forest(Hung(nodes, x, y), root', rank') && ClassesWeigh(own, root', rank')
  {
    var nodes' := Hung(nodes, x, y);
    assert GoodNode(nodes, root, rank, x) && GoodNode(nodes, root, rank, y);
    forall i | 0 <= i < |nodes| ensures GoodNode(nodes', root', rank', i) {
      assert GoodNode(nodes, root, rank, i);
    }
    forall i | 0 <= i < |nodes| && root'[i] == i ensures rank'[i] == Load(own, root', i) {
      MergedWeight(own, root, root', x, y, i);
    }
  }

  lemma LinkWeighs(nodes: seq<Node>, rank: seq<nat>, nodeMap: map<nat, nat>, x: nat, y: nat)
    requires Weighted(nodes, rank) && Mapped(nodes, nodeMap) && x < |nodes| && y < |nodes| && x != y
    ensures Weighted(Hung(nodes, x, y), rank[x := rank[x] + rank[y]])
    ensures Mapped(Hung(nodes, x, y), nodeMap) && |Hung(nodes, x, y)| == |nodes|
  {
    assert forall i :: 0 <= i < |nodes| ==> Hung(nodes, x, y)[i].gv == nodes[i].gv;
  }

  lemma ComponentsSame(edges: Edges, root: seq<nat>, x0: nat, y0: nat)
    requires Components(edges, root) && x0 < |root| && y0 < |root| && root[x0] == root[y0]
    ensures Components(edges + {(x0, y0)}, root)
  {
    forall i | 0 <= i < |root| ensures Connected(edges + {(x0, y0)}, i, root[i]) {
      ConnectedMore(edges, edges + {(x0, y0)}, i, root[i]);
    }
  }

  /** Relabelling one of the two roots of an edge as the other. */
  lemma ComponentsLinked(edges: Edges, root: seq<nat>, root': seq<nat>, x0: nat, y0: nat, x: nat, y: nat)
    requires Components(edges, root) && x0 < |root| && y0 < |root|
    requires (x == root[x0] && y == root[y0]) || (x == root[y0] && y == root[x0])
    requires IsMerged(root, root', x, y)
    ensures Components(edges + {(x0, y0)}, root')
  {
    hide Connected;
    var more := edges + {(x0, y0)};
    forall i | 0 <= i < |root| ensures Connected(more, i, root[i]) {
      ConnectedMore(edges, more, i, root[i]);
    }
    ConnectedEdge(more, x0, y0);
    ConnectedEdge(more, y0, x0);
    RootsConnected(more, x0, root[x0], y0, root[y0]);
    RootsConnected(more, y0, root[y0], x0, root[x0]);
    forall i | 0 <= i < |root| ensures Connected(more, i, root'[i]) {
      if root[i] == y { ConnectedTrans(more, i, y, x); }
    }
  }

  lemma RootsConnected(edges: Edges, a: nat, ra: nat, b: nat, rb: nat)
    requires Connected(edges, a, ra) && Connected(edges, b, rb) && Connected(edges, a, b)
    ensures Connected(edges, ra, rb)
  {
    ConnectedSym(edges, a, ra);
    ConnectedTrans(edges, ra, a, b);
    ConnectedTrans(edges, ra, b, rb);
  }

  /** Two nodes have the same representative exactly when merges connect them. */
  lemma SameRootIffConnected(u: Partitioner, i: nat, j: nat)
    requires u.Valid() && i < |u.root| && j < |u.root|
    ensures u.root[i] == u.root[j] <==> Connected(u.edges, i, j)
  {
    if u.root[i] == u.root[j] {
      ConnectedSym(u.edges, j, u.root[j]);
      ConnectedTrans(u.edges, i, u.root[i], j);
    }
    if Connected(u.edges, i, j) {
      var p :| IsPath(u.edges, p) && p[0] == i && p[|p| - 1] == j;
      PathKeepsLabel(u.edges, u.root, p);
    }
  }

  /** A node that is not its own representative weighs strictly less than its parent, and so
  strictly less than its representative. */
  lemma LighterThanParent(u: Partitioner, i: nat)
    requires u.Valid() && i < |u.nodes| && u.nodes[i].parent != i
    ensures i < |u.root| && u.nodes[i].parent < |u.nodes| && u.nodes[i].weight < u.nodes[u.nodes[i].parent].weight
    ensures u.root[i] < |u.nodes| && u.nodes[i].weight < u.nodes[u.root[i]].weight
  {
    assert GoodNode(u.nodes, u.root, u.rank, i);
    assert GoodNode(u.nodes, u.root, u.rank, u.nodes[i].parent);
  }
}
