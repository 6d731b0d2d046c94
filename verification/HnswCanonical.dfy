/** The canonical form of a graph: live nodes by ascending id, edges renamed and sorted. */
module HnswCanonical {
  import opened Ordering
  import opened Identifiers
  import opened Vectors
  import opened HnswGraph
  import opened HnswModel

  /** One node of the index region. */
  datatype RawNode = RawNode(id: RecordId, topLayer: nat, neighbors: seq<seq<nat>>)

  /** The content of the index region after the construction parameters; entry is 0xFFFFFFFF for none. */
  datatype RawGraph = RawGraph(maxLevel: int, entry: nat, nodes: seq<RawNode>)

  const NONE: nat := 0xFFFF_FFFF

  // ---------------------------------------------------------------- the order of the live nodes

  /** Internal ids by the identifiers of their nodes; ids past the end compare as numbers, last. */
  predicate Precedes(nodes: Nodes, a: nat, b: nat) {
    if a < |nodes| && b < |nodes| then
      IdLess(nodes[a].id, nodes[b].id) || (nodes[a].id == nodes[b].id && a < b)
    else if a >= |nodes| && b >= |nodes| then a < b
    else a < |nodes|
  }

  function ById(nodes: Nodes): (nat, nat) -> bool { (a: nat, b: nat) => Precedes(nodes, a, b) }

  lemma ByIdOrder(nodes: Nodes)
    ensures StrictTotal(ById(nodes))
  {
    IdOrder();
    var less := ById(nodes);
    forall a: nat, b: nat ensures a == b || less(a, b) || less(b, a) {
      if a < |nodes| && b < |nodes| { IdTrichotomy(nodes[a].id, nodes[b].id); }
    }
    hide IdLess;
    forall a: nat, b: nat, c: nat | less(a, b) && less(b, c) ensures less(a, c) {
    }
    forall a: nat ensures !less(a, a) {
    }
  }

  /** The live nodes in ascending identifier order; a node's place in it is its canonical id. */
  function LiveOrder(nodes: Nodes): (order: seq<nat>)
    ensures Distinct(order) && forall x :: x in order <==> x in LiveNodes(nodes)
  {
    ByIdOrder(nodes);
    var order := Enumerate(LiveNodes(nodes), ById(nodes));
    AscendingDistinct(order, ById(nodes));
    order
  }

  /** The place of `x` in `order`. */
  function Rank(order: seq<nat>, x: nat): (r: nat)
    requires x in order
    ensures r < |order| && order[r] == x
  {
    if order[0] == x then 0 else 1 + Rank(order[1..], x)
  }

  lemma RankOf(order: seq<nat>, i: nat)
    requires Distinct(order) && i < |order|
    ensures Rank(order, order[i]) == i
  {
  }

  /** The canonical ids of the live members of a neighbour list. */
  function Renamed(order: seq<nat>, list: seq<nat>): set<nat> { set x | x in list && x in order :: Rank(order, x) }

  function CanonicalList(order: seq<nat>, list: seq<nat>): seq<nat> {
    NatOrder();
    Enumerate(Renamed(order, list), NatLess)
  }

  function CanonicalNode(order: seq<nat>, node: Node): RawNode {
    RawNode(node.id, node.topLayer,
            seq(node.topLayer + 1, l requires 0 <= l <= node.topLayer =>
              if l < |node.neighbors| then CanonicalList(order, node.neighbors[l]) else []))
  }

  /** The first highest of the given levels, and that level; (NONE, -1) when there is none. */
  function Highest(tops: seq<nat>): (r: (nat, int))
    ensures tops == [] ==> r == (NONE, -1)
    ensures tops != [] ==> r.0 < |tops| && r.1 == tops[r.0] && forall i | 0 <= i < |tops| :: tops[i] <= tops[r.0]
    ensures tops != [] ==> forall i | 0 <= i < r.0 :: tops[i] < tops[r.0]
  {
    if tops == [] then (NONE, -1)
    else
      var n := |tops| - 1;
      var before := Highest(tops[..n]);
      if tops[n] > before.1 then (n, tops[n]) else before
  }

  function Tops(nodes: seq<RawNode>): seq<nat> { seq(|nodes|, i requires 0 <= i < |nodes| => nodes[i].topLayer) }

  function Canonical(nodes: Nodes): RawGraph {
    var order := LiveOrder(nodes);
    var raws := seq(|order|, c requires 0 <= c < |order| =>
      (assert order[c] in order; CanonicalNode(order, nodes[order[c]])));
    var (entry, maxLevel) := Highest(Tops(raws));
    RawGraph(maxLevel, entry, raws)
  }

  // ---------------------------------------------------------------- rebuilding

  function IdsOf(raws: seq<RawNode>): map<RecordId, nat> {
    if raws == [] then map[] else IdsOf(raws[..|raws| - 1])[raws[|raws| - 1].id := |raws| - 1]
  }

  ghost predicate DistinctIds(raws: seq<RawNode>) {
    forall i, j | 0 <= i < j < |raws| :: raws[i].id != raws[j].id
  }

  lemma {:induction false} IdsOfFacts(raws: seq<RawNode>)
    requires DistinctIds(raws)
    ensures forall i | 0 <= i < |raws| :: raws[i].id in IdsOf(raws) && IdsOf(raws)[raws[i].id] == i
    ensures forall id | id in IdsOf(raws) :: IdsOf(raws)[id] < |raws| && raws[IdsOf(raws)[id]].id == id
  {
    if raws != [] {
      IdsOfFacts(raws[..|raws| - 1]);
    }
  }

  /** The entry point that loading sets. */
  function EntryOf(raw: RawGraph): int { if raw.nodes == [] then -1 else raw.entry }

  /** The graph that loading creates: canonical id is internal id, vectors come from the records. */
  function Build(raw: RawGraph, vectors: map<RecordId, Vector>): Graph
    requires forall i | 0 <= i < |raw.nodes| :: raw.nodes[i].id in vectors
  {
    Graph(seq(|raw.nodes|, i requires 0 <= i < |raw.nodes| =>
            Node(raw.nodes[i].id, vectors[raw.nodes[i].id], raw.nodes[i].topLayer, false, raw.nodes[i].neighbors)),
          IdsOf(raw.nodes), EntryOf(raw), raw.maxLevel, |raw.nodes|)
  }
}
