/** The HNSW graph as a value: its invariant, and the effect of linking, adding and removing. */
module HnswModel {
  import opened Ordering
  import opened Vectors
  import opened HnswGraph
  import opened HnswSelect

  /** Construction parameters after clamping. */
  datatype Params = Params(dimensionality: nat, metric: Metric, m: nat, efConstruction: nat, seed: nat)

  /** Maximum neighbour count of a layer: m above layer 0, and m * 2u in 32 bits on layer 0. */
  function Limit(p: Params, layer: nat): nat { if layer == 0 then p.m * 2 % 0x1_0000_0000 else p.m }

  /** Layer 0 keeps up to 2m neighbours exactly when doubling m does not wrap, and the layers above it m. */
  lemma LimitDoubles(p: Params)
    requires p.m < 0x1_0000_0000
    ensures Limit(p, 0) == 2 * p.m <==> p.m < 0x8000_0000
    ensures p.m >= 0x8000_0000 ==> Limit(p, 0) == 2 * p.m - 0x1_0000_0000
    ensures forall layer: nat | layer > 0 :: Limit(p, layer) == p.m
  {
    if p.m >= 0x8000_0000 { assert p.m * 2 % 0x1_0000_0000 == p.m * 2 - 0x1_0000_0000; }
  }

  datatype Graph = Graph(nodes: Nodes, ids: map<RecordId, nat>, entryPoint: int, maxLevel: int, liveCount: nat)

  const EMPTY: Graph := Graph([], map[], -1, -1, 0)

  function VectorsOf(nodes: Nodes): seq<Vector> { seq(|nodes|, i requires 0 <= i < |nodes| => nodes[i].vector) }

  // ---------------------------------------------------------------- the invariant

  ghost predicate Shaped(nodes: Nodes) {
    forall i | 0 <= i < |nodes| :: |nodes[i].neighbors| == nodes[i].topLayer + 1
  }

  /** A legal adjacency list of node `x` on a layer. */
  ghost predicate GoodList(nodes: Nodes, p: Params, x: nat, layer: nat, list: seq<nat>) {
    && |list| <= Limit(p, layer) && Distinct(list)
    && forall e | e in list :: e != x && e < |nodes| && layer <= nodes[e].topLayer
  }

  ghost predicate GoodNode(nodes: Nodes, p: Params, x: nat)
    requires x < |nodes|
  {
    forall layer | 0 <= layer < |nodes[x].neighbors| :: GoodList(nodes, p, x, layer, nodes[x].neighbors[layer])
  }

  ghost predicate Linked(nodes: Nodes, p: Params) {
    Shaped(nodes) && forall x | 0 <= x < |nodes| :: GoodNode(nodes, p, x)
  }

  /** The id map is a bijection between the stored ids and the internal ids. */
  ghost predicate Named(nodes: Nodes, ids: map<RecordId, nat>, p: Params) {
    && (forall i | 0 <= i < |nodes| ::
          nodes[i].id != [] && |nodes[i].vector| == p.dimensionality && nodes[i].id in ids && ids[nodes[i].id] == i)
    && (forall id | id in ids :: ids[id] < |nodes| && nodes[ids[id]].id == id)
  }

  /** The entry point is a node of the highest level. */
  ghost predicate Topped(nodes: Nodes, entryPoint: int, maxLevel: int) {
    if |nodes| == 0 then entryPoint == -1 && maxLevel == -1
    else 0 <= entryPoint < |nodes| && nodes[entryPoint].topLayer == maxLevel
         && forall i | 0 <= i < |nodes| :: nodes[i].topLayer <= maxLevel
  }

  function LiveNodes(nodes: Nodes): set<nat> { set i: nat | i < |nodes| && !nodes[i].deleted }

  ghost predicate WellFormed(g: Graph, p: Params) {
    && Linked(g.nodes, p) && Named(g.nodes, g.ids, p) && Topped(g.nodes, g.entryPoint, g.maxLevel)
    && g.liveCount == |LiveNodes(g.nodes)|
  }

  /** The invariant spelled out for one node and one list: at most 2m neighbours on layer 0 and m above it, none twice,
      none the node itself, all of them nodes of the layer; no node is higher than the entry point. */
  lemma WellFormedMeans(g: Graph, p: Params, x: nat, layer: nat)
    requires WellFormed(g, p) && x < |g.nodes| && layer <= g.nodes[x].topLayer
    ensures var n := g.nodes[x];
      && n.id != [] && |n.vector| == p.dimensionality && n.id in g.ids && g.ids[n.id] == x
      && |n.neighbors| == n.topLayer + 1 && n.topLayer <= g.maxLevel
      && 0 <= g.entryPoint < |g.nodes| && g.nodes[g.entryPoint].topLayer == g.maxLevel
      && var list := n.neighbors[layer];
      && (layer > 0 ==> |list| <= p.m) && (layer == 0 && p.m < 0x8000_0000 ==> |list| <= 2 * p.m)
      && (forall i, j | 0 <= i < j < |list| :: list[i] != list[j])
      && forall e | e in list :: e != x && e < |g.nodes| && layer <= g.nodes[e].topLayer
  {
    hide LiveNodes;
    assert GoodNode(g.nodes, p, x);
    assert GoodList(g.nodes, p, x, layer, g.nodes[x].neighbors[layer]);
  }

  /** What the index stores: the live identifiers with their vectors. */
  ghost function Contents(g: Graph): map<RecordId, Vector>
    requires forall id | id in g.ids :: g.ids[id] < |g.nodes|
  {
    map id | id in g.ids && !g.nodes[g.ids[id]].deleted :: g.nodes[g.ids[id]].vector
  }

  lemma LinkedClosed(nodes: Nodes, p: Params, q: Vector, layer: nat)
    requires Linked(nodes, p)
    ensures View(nodes, p.metric, q, layer).Closed()
  {
    var v := View(nodes, p.metric, q, layer);
    forall x: nat, e: nat | v.On(x) && e in v.Adjacent(x) ensures v.On(e) {
      assert GoodNode(nodes, p, x);
      assert GoodList(nodes, p, x, layer, nodes[x].neighbors[layer]);
    }
  }

  // ---------------------------------------------------------------- linking a node

  function WithList(node: Node, layer: nat, list: seq<nat>): Node {
    if layer < |node.neighbors| then node.(neighbors := node.neighbors[layer := list]) else node
  }

  function ListOf(nodes: Nodes, x: nat, layer: nat): seq<nat> {
    if x < |nodes| && layer < |nodes[x].neighbors| then nodes[x].neighbors[layer] else []
  }

  /** The candidates a full list offers to the heuristic, scored from its owner. */
  function Rescored(metric: Metric, vectors: seq<Vector>, owner: nat, list: seq<nat>): seq<Item> {
    seq(|list|, i requires 0 <= i < |list| => Item(NodeDist(metric, vectors, owner, list[i]), list[i]))
  }

  /** The list of `other` after the reciprocal edge to `node`, pruned when it overflows. */
  function Reciprocal(p: Params, vectors: seq<Vector>, other: nat, list: seq<nat>, node: nat, layer: nat): seq<nat> {
    var grown := list + [node];
    if |grown| > Limit(p, layer) then
      Select(p.metric, vectors, Rescored(p.metric, vectors, other, grown), Limit(p, layer))
    else grown
  }

  function Without(list: seq<nat>, x: nat): seq<nat> {
    if list == [] then [] else if list[0] == x then Without(list[1..], x) else [list[0]] + Without(list[1..], x)
  }

  /** The nodes after `node` is linked to `others` on a layer: its own list, and one list per other. */
  function Link(p: Params, nodes: Nodes, node: nat, others: seq<nat>, layer: nat): Nodes {
    seq(|nodes|, i requires 0 <= i < |nodes| =>
      if i == node then WithList(nodes[i], layer, ListOf(nodes, i, layer) + others)
      else if i in others then
        WithList(nodes[i], layer, Reciprocal(p, VectorsOf(nodes), i, ListOf(nodes, i, layer), node, layer))
      else nodes[i])
  }

  function Connect(p: Params, nodes: Nodes, node: nat, candidates: seq<Item>, layer: nat): Nodes {
    Link(p, nodes, node, Without(Select(p.metric, VectorsOf(nodes), candidates, Limit(p, layer)), node), layer)
  }

  /** Linking one more node is one step of the loop over the selected neighbours. */
  lemma LinkOneMore(p: Params, nodes: Nodes, node: nat, others: seq<nat>, other: nat, layer: nat)
    requires Shaped(nodes) && node < |nodes| && other < |nodes| && other != node && other !in others && node !in others
    requires layer <= nodes[node].topLayer && layer <= nodes[other].topLayer
    ensures var n := Link(p, nodes, node, others, layer);
            && |n| == |nodes| && VectorsOf(n) == VectorsOf(nodes)
            && ListOf(n, other, layer) == ListOf(nodes, other, layer)
            && Link(p, nodes, node, others + [other], layer)
               == n[node := WithList(n[node], layer, ListOf(n, node, layer) + [other])]
                   [other := WithList(n[other], layer,
                                      Reciprocal(p, VectorsOf(n), other, ListOf(n, other, layer), node, layer))]
  {
    var n := Link(p, nodes, node, others, layer);
    assert VectorsOf(n) == VectorsOf(nodes);
    var l := Link(p, nodes, node, others + [other], layer);
    var r := n[node := WithList(n[node], layer, ListOf(n, node, layer) + [other])]
              [other := WithList(n[other], layer,
                                 Reciprocal(p, VectorsOf(n), other, ListOf(n, other, layer), node, layer))];
    hide Reciprocal;
    Lengthened(nodes, node, others, other, layer);
    forall i | 0 <= i < |nodes| ensures l[i] == r[i] {
      assert i in others + [other] <==> i in others || i == other;
    }
    assert l == r;
  }

  lemma Lengthened(nodes: Nodes, node: nat, others: seq<nat>, other: nat, layer: nat)
    requires Shaped(nodes) && node < |nodes| && layer <= nodes[node].topLayer
    ensures var list := ListOf(nodes, node, layer);
      WithList(WithList(nodes[node], layer, list + others), layer, list + others + [other])
      == WithList(nodes[node], layer, list + (others + [other]))
  {
    var list := ListOf(nodes, node, layer);
    assert list + (others + [other]) == list + others + [other];
  }

  /** Everything but the adjacency lists is the same. */
  ghost predicate SameSkeleton(a: Nodes, b: Nodes) {
    |a| == |b| && forall i | 0 <= i < |a| ::
      a[i].id == b[i].id && a[i].vector == b[i].vector && a[i].topLayer == b[i].topLayer
      && a[i].deleted == b[i].deleted && |a[i].neighbors| == |b[i].neighbors|
  }

  /** `node` has no edge on the layer, in or out. */
  ghost predicate Fresh(nodes: Nodes, node: nat, layer: nat) {
    ListOf(nodes, node, layer) == [] && forall x: nat :: node !in ListOf(nodes, x, layer)
  }

  lemma WithoutFacts(list: seq<nat>, x: nat)
    ensures forall y :: y in Without(list, x) <==> y in list && y != x
    ensures |Without(list, x)| <= |list|
    ensures Distinct(list) ==> Distinct(Without(list, x))
  {
    if list != [] {
      WithoutFacts(list[1..], x);
      assert list == [list[0]] + list[1..];
      if Distinct(list) {
        assert Distinct(list[1..]) && list[0] !in Without(list[1..], x);
      }
    }
  }

  lemma ReciprocalGood(p: Params, nodes: Nodes, other: nat, node: nat, layer: nat)
    requires Linked(nodes, p) && other < |nodes| && node < |nodes| && other != node
    requires layer <= nodes[other].topLayer && layer <= nodes[node].topLayer && node !in ListOf(nodes, other, layer)
    ensures GoodList(nodes, p, other, layer,
                     Reciprocal(p, VectorsOf(nodes), other, ListOf(nodes, other, layer), node, layer))
  {
    var list := ListOf(nodes, other, layer);
    var grown := list + [node];
    assert GoodNode(nodes, p, other);
    assert GoodList(nodes, p, other, layer, list);
    assert Distinct(grown) && forall e | e in grown :: e != other && e < |nodes| && layer <= nodes[e].topLayer;
    if |grown| > Limit(p, layer) {
      var items := Rescored(p.metric, VectorsOf(nodes), other, grown);
      SelectWithin(p.metric, VectorsOf(nodes), items, Limit(p, layer));
      forall e | e in Select(p.metric, VectorsOf(nodes), items, Limit(p, layer)) ensures e in grown {
        var c :| c in items && c.node == e;
      }
    }
  }

  lemma LinkSkeleton(p: Params, nodes: Nodes, node: nat, others: seq<nat>, layer: nat)
    ensures SameSkeleton(nodes, Link(p, nodes, node, others, layer))
    ensures VectorsOf(Link(p, nodes, node, others, layer)) == VectorsOf(nodes)
    ensures forall x: nat, l: nat | l != layer ::
      ListOf(Link(p, nodes, node, others, layer), x, l) == ListOf(nodes, x, l)
  {
  }

  lemma GoodListMoves(a: Nodes, b: Nodes, p: Params, x: nat, layer: nat, list: seq<nat>)
    requires SameSkeleton(a, b) && GoodList(a, p, x, layer, list)
    ensures GoodList(b, p, x, layer, list)
  {
  }

  /** Linking a fresh node to distinct nodes of the layer keeps every list legal. */
  lemma LinkKeeps(p: Params, nodes: Nodes, node: nat, others: seq<nat>, layer: nat)
    requires Linked(nodes, p) && node < |nodes| && layer <= nodes[node].topLayer && Fresh(nodes, node, layer)
    requires GoodList(nodes, p, node, layer, others)
    ensures Linked(Link(p, nodes, node, others, layer), p)
  {
    var n := Link(p, nodes, node, others, layer);
    LinkSkeleton(p, nodes, node, others, layer);
    forall x | 0 <= x < |n| ensures GoodNode(n, p, x) {
      assert GoodNode(nodes, p, x);
      forall l | 0 <= l < |n[x].neighbors| ensures GoodList(n, p, x, l, n[x].neighbors[l]) {
        if l == layer && x == node {
          assert [] + others == others;
          GoodListMoves(nodes, n, p, x, l, others);
        } else if l == layer && x in others {
          ReciprocalGood(p, nodes, x, node, layer);
          GoodListMoves(nodes, n, p, x, l, n[x].neighbors[l]);
        } else {
          assert n[x].neighbors[l] == nodes[x].neighbors[l];
          GoodListMoves(nodes, n, p, x, l, nodes[x].neighbors[l]);
        }
      }
    }
  }

  // ---------------------------------------------------------------- adding a node

  /** Greedy descents through the layers hi, hi - 1, ..., lo + 1. */
  ghost predicate Descent(p: Params, nodes: Nodes, q: Vector, from: nat, hi: int, lo: int, to: nat)
    decreases if hi < lo then 0 else hi - lo
  {
    if hi <= lo || lo < -1 then from == to
    else exists mid: nat :: Descent(p, nodes, q, from, hi, lo + 1, mid) && DescendedAbove(p, nodes, q, lo, mid, to)
  }

  /** A greedy descent of the layer above `lo`. */
  ghost predicate DescendedAbove(p: Params, nodes: Nodes, q: Vector, lo: int, from: nat, to: nat) {
    lo >= -1 && View(nodes, p.metric, q, lo + 1).Descended(from, to)
  }

  /** One layer of an insertion: search from `cur`, connect to a diverse subset of what was found. */
  ghost predicate LayerLinked(p: Params, node: nat, layer: nat, n: Nodes, cur: nat, n': Nodes, cur': nat) {
    node < |n| && exists found: seq<Item>, visited: set<nat> ::
      && View(n, p.metric, n[node].vector, layer).Answers({cur}, p.efConstruction, found, visited)
      && n' == Connect(p, n, node, found, layer)
      && cur' == if found == [] then cur else found[0].node
  }

  /** The layers hi, hi - 1, ..., lo of an insertion. */
  ghost predicate LinkedDown(p: Params, node: nat, n0: Nodes, c0: nat, hi: int, lo: nat, n: Nodes, c: nat)
    decreases if hi < lo then 0 else hi - lo + 1
  {
    if hi < lo then n == n0 && c == c0
    else
      exists n1: Nodes, c1: nat ::
        LinkedDown(p, node, n0, c0, hi, lo + 1, n1, c1) && LayerLinked(p, node, lo, n1, c1, n, c)
  }

  /** No edge leads to an unlinked node, so no search of the layer returns it. */
  lemma {:induction false} NotReached(v: View, node: nat, from: set<nat>, path: seq<nat>)
    requires Fresh(v.nodes, node, v.layer) && node !in from
    requires v.Path(path) && path[0] in from
    ensures path[|path| - 1] != node
  {
    var n := |path|;
    if n > 1 {
      assert path[n - 1] in v.Adjacent(path[n - 2]);
      assert v.Adjacent(path[n - 2]) == ListOf(v.nodes, path[n - 2], v.layer);
    }
  }

  /** Linking one layer keeps the graph legal, its skeleton, and the node fresh below. */
  lemma LayerKeeps(p: Params, node: nat, layer: nat, n: Nodes, cur: nat, n': Nodes, cur': nat)
    requires Linked(n, p) && LayerLinked(p, node, layer, n, cur, n', cur') && p.efConstruction >= 1
    requires Fresh(n, node, layer) && layer <= n[node].topLayer
    requires cur < |n| && cur != node && layer <= n[cur].topLayer
    ensures Linked(n', p) && SameSkeleton(n, n')
    ensures cur' < |n| && cur' != node && layer <= n[cur'].topLayer
    ensures forall l: nat | l != layer && Fresh(n, node, l) :: Fresh(n', node, l)
  {
    hide Linked, Link, Select, Without, GoodList, View.Answers;
    var v := View(n, p.metric, n[node].vector, layer);
    var found: seq<Item>, visited: set<nat> :| v.Answers({cur}, p.efConstruction, found, visited)
      && n' == Connect(p, n, node, found, layer) && cur' == if found == [] then cur else found[0].node;
    FoundGood(v, node, cur, p.efConstruction, found, visited);
    CandidatesGood(p, n, node, found, layer);
    var others := Without(Select(p.metric, VectorsOf(n), found, Limit(p, layer)), node);
    LinkKeeps(p, n, node, others, layer);
    LinkSkeleton(p, n, node, others, layer);
    forall l: nat | l != layer && Fresh(n, node, l) ensures Fresh(n', node, l) {
      assert ListOf(n', node, l) == ListOf(n, node, l);
    }
  }

  /** A search that starts elsewhere returns distinct nodes of the layer, none of them the fresh one. */
  lemma FoundGood(v: View, node: nat, cur: nat, ef: nat, found: seq<Item>, visited: set<nat>)
    requires v.Answers({cur}, ef, found, visited) && Fresh(v.nodes, node, v.layer) && cur != node
    ensures forall r | r in found :: r.node != node && v.On(r.node)
    ensures forall i, j | 0 <= i < j < |found| :: found[i].node != found[j].node
  {
    forall r | r in found ensures r.node != node && v.On(r.node) {
      assert v.Reachable({cur}, r.node);
      FreshUnreached(v, node, cur, r.node);
    }
    hide Fresh, View.Reachable;
    forall i, j | 0 <= i < j < |found| ensures found[i].node != found[j].node {
      assert found[i] in found && found[j] in found && ItemLess(found[i], found[j]);
    }
  }

  lemma FreshUnreached(v: View, node: nat, cur: nat, x: nat)
    requires Fresh(v.nodes, node, v.layer) && cur != node && v.Reachable({cur}, x)
    ensures x != node
  {
    hide Fresh;
    var path :| v.Path(path) && path[0] in {cur} && path[|path| - 1] == x;
    NotReached(v, node, {cur}, path);
  }

  lemma CandidatesGood(p: Params, n: Nodes, node: nat, found: seq<Item>, layer: nat)
    requires forall r | r in found :: r.node < |n| && layer <= n[r.node].topLayer
    requires forall i, j | 0 <= i < j < |found| :: found[i].node != found[j].node
    ensures GoodList(n, p, node, layer, Without(Select(p.metric, VectorsOf(n), found, Limit(p, layer)), node))
  {
    SelectWithin(p.metric, VectorsOf(n), found, Limit(p, layer));
    WithoutFacts(Select(p.metric, VectorsOf(n), found, Limit(p, layer)), node);
  }
}
