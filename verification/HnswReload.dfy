/** Serializing and reloading a graph: the induced subgraph, and the fixed point of re-serialization. */
module HnswReload {
  import opened Ordering
  import opened Identifiers
  import opened Vectors
  import opened HnswGraph
  import opened HnswModel
  import opened HnswCanonical

  /** `b` is the subgraph of `a` induced on `order`, its nodes renamed to their places in it. */
  ghost predicate Induced(a: Nodes, order: seq<nat>, b: Nodes) {
    && |b| == |order| && forall c | 0 <= c < |b| ::
      && order[c] < |a| && b[c].id == a[order[c]].id && b[c].vector == a[order[c]].vector
      && b[c].topLayer == a[order[c]].topLayer && !b[c].deleted
      && SameEdges(order, b[c].neighbors, a[order[c]].neighbors)
  }

  /** The lists keep exactly the edges to the nodes of `order`, renamed to their places in it. */
  ghost predicate SameEdges(order: seq<nat>, kept: seq<seq<nat>>, lists: seq<seq<nat>>) {
    && |kept| == |lists|
    && forall l, e: nat | 0 <= l < |kept| :: e in kept[l] <==> e < |order| && order[e] in lists[l]
  }

  lemma OrderAscends(nodes: Nodes, i: nat, j: nat)
    requires i < j < |LiveOrder(nodes)|
    ensures Precedes(nodes, LiveOrder(nodes)[i], LiveOrder(nodes)[j])
  {
    ByIdOrder(nodes);
    var order := Enumerate(LiveNodes(nodes), ById(nodes));
    assert Ascending(order, ById(nodes));
    assert ById(nodes)(order[i], order[j]);
  }

  /** Canonical nodes have strictly ascending identifiers. */
  lemma CanonicalIdsAscend(p: Params, nodes: Nodes, ids: map<RecordId, nat>, i: nat, j: nat)
    requires Named(nodes, ids, p) && i < j < |LiveOrder(nodes)|
    ensures LiveOrder(nodes)[i] < |nodes| && LiveOrder(nodes)[j] < |nodes|
    ensures IdLess(nodes[LiveOrder(nodes)[i]].id, nodes[LiveOrder(nodes)[j]].id)
  {
    var order := LiveOrder(nodes);
    OrderAscends(nodes, i, j);
    assert order[i] in order && order[j] in order && order[i] != order[j];
  }

  lemma RenamedMembers(order: seq<nat>, list: seq<nat>, e: nat)
    requires Distinct(order)
    ensures e in CanonicalList(order, list) <==> e < |order| && order[e] in list
  {
    NatOrder();
    assert e in CanonicalList(order, list) <==> e in Renamed(order, list);
    if e < |order| && order[e] in list {
      RankOf(order, e);
      assert order[e] in order;
    }
  }

  lemma ShorterThan(a: seq<nat>, b: seq<nat>)
    requires Distinct(a) && forall x | x in a :: x in b
    ensures |a| <= |b|
    decreases |a|
  {
    if a != [] {
      var last := a[|a| - 1];
      assert last in b;
      var k :| 0 <= k < |b| && b[k] == last;
      var a', b' := a[..|a| - 1], b[..k] + b[k + 1..];
      forall x | x in a' ensures x in b' {
        assert x in a && x != last;
        var i :| 0 <= i < |b| && b[i] == x;
        assert if i < k then b'[i] == x else b'[i - 1] == x;
      }
      ShorterThan(a', b');
    }
  }

  lemma CanonicalListShort(order: seq<nat>, list: seq<nat>)
    requires Distinct(order)
    ensures |CanonicalList(order, list)| <= |list| && Distinct(CanonicalList(order, list))
  {
    NatOrder();
    var c := CanonicalList(order, list);
    AscendingDistinct<nat>(c, NatLess);
    hide CanonicalList;
    var back: seq<nat> := seq(|c|, i requires 0 <= i < |c| => if c[i] < |order| then order[c[i]] else 0);
    forall i | 0 <= i < |c| ensures c[i] < |order| && order[c[i]] in list {
      assert c[i] in c;
      RenamedMembers(order, list, c[i]);
    }
    ShorterThan(back, list);
  }

  ghost predicate Supplies(vectors: map<RecordId, Vector>, g: Graph)
    requires forall id | id in g.ids :: g.ids[id] < |g.nodes|
  {
    forall id | id in Contents(g) :: id in vectors && vectors[id] == Contents(g)[id]
  }

  /** Reload(g): what loading the canonical form of `g` builds. */
  function Reload(g: Graph, vectors: map<RecordId, Vector>): Graph
    requires forall i | 0 <= i < |Canonical(g.nodes).nodes| :: Canonical(g.nodes).nodes[i].id in vectors
  {
    Build(Canonical(g.nodes), vectors)
  }

  lemma CanonicalNodeAt(nodes: Nodes, c: nat)
    requires c < |LiveOrder(nodes)|
    ensures LiveOrder(nodes)[c] < |nodes| && !nodes[LiveOrder(nodes)[c]].deleted
    ensures |Canonical(nodes).nodes| == |LiveOrder(nodes)|
    ensures Canonical(nodes).nodes[c] == CanonicalNode(LiveOrder(nodes), nodes[LiveOrder(nodes)[c]])
  {
    assert LiveOrder(nodes)[c] in LiveOrder(nodes);
  }

  lemma LiveInContents(p: Params, g: Graph, c: nat)
    requires WellFormed(g, p) && c < |LiveOrder(g.nodes)|
    ensures LiveOrder(g.nodes)[c] < |g.nodes| && g.nodes[LiveOrder(g.nodes)[c]].id in Contents(g)
    ensures Contents(g)[g.nodes[LiveOrder(g.nodes)[c]].id] == g.nodes[LiveOrder(g.nodes)[c]].vector
  {
    CanonicalNodeAt(g.nodes, c);
  }

  /** The records supply a vector for every canonical node. */
  lemma Reloadable(p: Params, g: Graph, vectors: map<RecordId, Vector>)
    requires WellFormed(g, p) && Supplies(vectors, g)
    ensures forall i | 0 <= i < |Canonical(g.nodes).nodes| :: Canonical(g.nodes).nodes[i].id in vectors
  {
    forall i | 0 <= i < |Canonical(g.nodes).nodes| ensures Canonical(g.nodes).nodes[i].id in vectors {
      CanonicalNodeAt(g.nodes, i);
      LiveInContents(p, g, i);
    }
  }

  /** Loading gives the subgraph induced on the live nodes, renamed by ascending identifier. */
  lemma ReloadInduced(p: Params, g: Graph, vectors: map<RecordId, Vector>)
    requires WellFormed(g, p) && Supplies(vectors, g)
    ensures forall i | 0 <= i < |Canonical(g.nodes).nodes| :: Canonical(g.nodes).nodes[i].id in vectors
    ensures Induced(g.nodes, LiveOrder(g.nodes), Reload(g, vectors).nodes)
  {
    hide Canonical, LiveOrder, WellFormed, Supplies, Build;
    Reloadable(p, g, vectors);
    CanonicalLength(g.nodes);
    BuiltLength(Canonical(g.nodes), vectors);
    var order, b := LiveOrder(g.nodes), Reload(g, vectors).nodes;
    hide SameEdges;
    forall c | 0 <= c < |b|
      ensures order[c] < |g.nodes| && b[c].id == g.nodes[order[c]].id && b[c].vector == g.nodes[order[c]].vector
      ensures b[c].topLayer == g.nodes[order[c]].topLayer && !b[c].deleted
      ensures SameEdges(order, b[c].neighbors, g.nodes[order[c]].neighbors)
    {
      NodeReloaded(p, g, vectors, c);
    }
  }

  /** One node of the reloaded graph. */
  lemma NodeReloaded(p: Params, g: Graph, vectors: map<RecordId, Vector>, c: nat)
    requires WellFormed(g, p) && Supplies(vectors, g) && c < |LiveOrder(g.nodes)|
    requires forall i | 0 <= i < |Canonical(g.nodes).nodes| :: Canonical(g.nodes).nodes[i].id in vectors
    ensures c < |Reload(g, vectors).nodes| && LiveOrder(g.nodes)[c] < |g.nodes|
    ensures var order, n, node := LiveOrder(g.nodes), Reload(g, vectors).nodes[c], g.nodes[LiveOrder(g.nodes)[c]];
      && n.id == node.id && n.vector == node.vector && n.topLayer == node.topLayer && !n.deleted
      && SameEdges(order, n.neighbors, node.neighbors)
  {
    hide Canonical, LiveOrder, WellFormed, Supplies, Build, CanonicalNode;
    CanonicalLength(g.nodes);
    BuiltNode(p, g, vectors, c);
    NodeInduced(LiveOrder(g.nodes), g.nodes[LiveOrder(g.nodes)[c]]);
  }

  lemma BuiltLength(raw: RawGraph, vectors: map<RecordId, Vector>)
    requires forall i | 0 <= i < |raw.nodes| :: raw.nodes[i].id in vectors
    ensures |Build(raw, vectors).nodes| == |raw.nodes|
  {
    hide IdsOf;
  }

  lemma CanonicalLength(nodes: Nodes)
    ensures |Canonical(nodes).nodes| == |LiveOrder(nodes)| && Distinct(LiveOrder(nodes))
  {
  }

  /** What loading makes of one node of the region. */
  lemma BuiltNode(p: Params, g: Graph, vectors: map<RecordId, Vector>, c: nat)
    requires WellFormed(g, p) && Supplies(vectors, g) && c < |LiveOrder(g.nodes)|
    requires forall i | 0 <= i < |Canonical(g.nodes).nodes| :: Canonical(g.nodes).nodes[i].id in vectors
    ensures |Reload(g, vectors).nodes| == |LiveOrder(g.nodes)| && LiveOrder(g.nodes)[c] < |g.nodes|
    ensures var node := g.nodes[LiveOrder(g.nodes)[c]];
      && Reload(g, vectors).nodes[c]
         == Node(node.id, node.vector, node.topLayer, false, CanonicalNode(LiveOrder(g.nodes), node).neighbors)
      && |node.neighbors| == node.topLayer + 1
  {
    hide Canonical, LiveOrder, Named, Topped, CanonicalList;
    CanonicalNodeAt(g.nodes, c);
    LiveInContents(p, g, c);
  }

  /** The canonical node keeps the edges to live nodes, renamed. */
  lemma NodeInduced(order: seq<nat>, node: Node)
    requires Distinct(order) && |node.neighbors| == node.topLayer + 1
    ensures SameEdges(order, CanonicalNode(order, node).neighbors, node.neighbors)
  {
    hide CanonicalList;
    forall l, e: nat | 0 <= l < |node.neighbors|
      ensures e in CanonicalNode(order, node).neighbors[l] <==> e < |order| && order[e] in node.neighbors[l]
    {
      RenamedMembers(order, node.neighbors[l], e);
    }
  }

  // ---------------------------------------------------------------- the reloaded graph is well-formed

  lemma ReloadLinked(p: Params, g: Graph, vectors: map<RecordId, Vector>)
    requires WellFormed(g, p) && Supplies(vectors, g)
    requires forall i | 0 <= i < |Canonical(g.nodes).nodes| :: Canonical(g.nodes).nodes[i].id in vectors
    ensures Linked(Reload(g, vectors).nodes, p)
  {
    hide WellFormed, Supplies, Canonical, LiveOrder, Build, CanonicalNode, GoodList, SameEdges;
    var b := Reload(g, vectors).nodes;
    ReloadInduced(p, g, vectors);
    forall c | 0 <= c < |b| ensures |b[c].neighbors| == b[c].topLayer + 1 && GoodNode(b, p, c) {
      BuiltNode(p, g, vectors, c);
      SameCount(LiveOrder(g.nodes), b[c].neighbors, g.nodes[LiveOrder(g.nodes)[c]].neighbors);
      forall l | 0 <= l < |b[c].neighbors| ensures GoodList(b, p, c, l, b[c].neighbors[l]) {
        ReloadList(p, g, vectors, c, l);
      }
    }
  }

  lemma SameCount(order: seq<nat>, kept: seq<seq<nat>>, lists: seq<seq<nat>>)
    requires SameEdges(order, kept, lists)
    ensures |kept| == |lists|
  {
  }

  lemma ReloadList(p: Params, g: Graph, vectors: map<RecordId, Vector>, c: nat, l: nat)
    requires WellFormed(g, p)
    requires forall i | 0 <= i < |Canonical(g.nodes).nodes| :: Canonical(g.nodes).nodes[i].id in vectors
    requires Induced(g.nodes, LiveOrder(g.nodes), Reload(g, vectors).nodes)
    requires c < |LiveOrder(g.nodes)| && l < |Reload(g, vectors).nodes[c].neighbors|
    ensures GoodList(Reload(g, vectors).nodes, p, c, l, Reload(g, vectors).nodes[c].neighbors[l])
  {
    var order, b := LiveOrder(g.nodes), Reload(g, vectors).nodes;
    CanonicalNodeAt(g.nodes, c);
    var original := g.nodes[order[c]].neighbors[l];
    assert GoodNode(g.nodes, p, order[c]);
    assert GoodList(g.nodes, p, order[c], l, original);
    assert b[c].neighbors[l] == CanonicalList(order, original);
    hide CanonicalList, Linked, Named, Topped, LiveOrder, Reload, GoodList;
    RenamedListGood(p, g.nodes, order, b, c, l, original);
  }

  /** The canonical form of a legal list is legal among the renamed nodes. */
  lemma RenamedListGood(p: Params, a: Nodes, order: seq<nat>, b: Nodes, c: nat, l: nat, original: seq<nat>)
    requires Distinct(order) && c < |order| == |b|
    requires forall e | 0 <= e < |order| :: order[e] < |a| && b[e].topLayer == a[order[e]].topLayer
    requires GoodList(a, p, order[c], l, original)
    ensures GoodList(b, p, c, l, CanonicalList(order, original))
  {
    CanonicalListShort(order, original);
    hide CanonicalList;
    forall e | e in CanonicalList(order, original) ensures e != c && e < |b| && l <= b[e].topLayer {
      RenamedMembers(order, original, e);
    }
  }

  lemma CanonicalIdsDistinct(p: Params, g: Graph)
    requires WellFormed(g, p)
    ensures DistinctIds(Canonical(g.nodes).nodes)
  {
    var raws := Canonical(g.nodes).nodes;
    forall i, j | 0 <= i < j < |raws| ensures raws[i].id != raws[j].id {
      CanonicalNodeAt(g.nodes, i);
      CanonicalNodeAt(g.nodes, j);
      CanonicalIdsAscend(p, g.nodes, g.ids, i, j);
      IdTrichotomy(raws[i].id, raws[j].id);
      IdTrichotomy(raws[i].id, raws[i].id);
    }
  }

  /** Nodes that carry the ids of `raws` are named by IdsOf(raws). */
  lemma NamedByIds(raws: seq<RawNode>, b: Nodes, p: Params)
    requires DistinctIds(raws) && |b| == |raws|
    requires forall i | 0 <= i < |b| :: b[i].id == raws[i].id && b[i].id != [] && |b[i].vector| == p.dimensionality
    ensures Named(b, IdsOf(raws), p)
  {
    IdsOfFacts(raws);
  }

  lemma ReloadNamed(p: Params, g: Graph, vectors: map<RecordId, Vector>)
    requires WellFormed(g, p) && Supplies(vectors, g)
    requires forall i | 0 <= i < |Canonical(g.nodes).nodes| :: Canonical(g.nodes).nodes[i].id in vectors
    ensures Named(Reload(g, vectors).nodes, Reload(g, vectors).ids, p)
  {
    var order, b, raws := LiveOrder(g.nodes), Reload(g, vectors).nodes, Canonical(g.nodes).nodes;
    CanonicalIdsDistinct(p, g);
    forall i | 0 <= i < |b|
      ensures b[i].id == raws[i].id && b[i].id != [] && |b[i].vector| == p.dimensionality
    {
      CanonicalNodeAt(g.nodes, i);
      LiveInContents(p, g, i);
    }
    NamedByIds(raws, b, p);
  }

  lemma {:induction false} AllLive(b: Nodes)
    requires forall i | 0 <= i < |b| :: !b[i].deleted
    ensures |LiveNodes(b)| == |b| && forall x: nat :: x in LiveNodes(b) <==> x < |b|
  {
    if b == [] {
      assert LiveNodes(b) == {};
    } else {
      var n := |b| - 1;
      AllLive(b[..n]);
      assert LiveNodes(b) == LiveNodes(b[..n]) + {n};
    }
  }

  /** The reloaded graph satisfies the whole invariant, with a highest-level entry point. */
  lemma ReloadWellFormed(p: Params, g: Graph, vectors: map<RecordId, Vector>)
    requires WellFormed(g, p) && Supplies(vectors, g)
    ensures forall i | 0 <= i < |Canonical(g.nodes).nodes| :: Canonical(g.nodes).nodes[i].id in vectors
    ensures WellFormed(Reload(g, vectors), p)
    ensures Contents(Reload(g, vectors)) == Contents(g)
  {
    Reloadable(p, g, vectors);
    ReloadLinked(p, g, vectors);
    ReloadNamed(p, g, vectors);
    AllLive(Reload(g, vectors).nodes);
    ReloadTopped(g, vectors);
    ReloadInduced(p, g, vectors);
    hide Build, Canonical, Linked, Topped;
    InducedContents(p, g, LiveOrder(g.nodes), Reload(g, vectors));
  }

  lemma ReloadTopped(g: Graph, vectors: map<RecordId, Vector>)
    requires forall i | 0 <= i < |Canonical(g.nodes).nodes| :: Canonical(g.nodes).nodes[i].id in vectors
    ensures Topped(Reload(g, vectors).nodes, Reload(g, vectors).entryPoint, Reload(g, vectors).maxLevel)
  {
    var raw, b := Canonical(g.nodes), Reload(g, vectors).nodes;
    var tops := Tops(raw.nodes);
    assert (raw.entry, raw.maxLevel) == Highest(tops);
    assert |tops| == |b| && forall i | 0 <= i < |b| :: b[i].topLayer == tops[i];
  }

  /** Two named graphs store the same when one is induced on the live nodes of the other. */
  lemma InducedContents(p: Params, g: Graph, order: seq<nat>, r: Graph)
    requires Named(g.nodes, g.ids, p) && Named(r.nodes, r.ids, p) && Induced(g.nodes, order, r.nodes)
    requires forall x :: x in order <==> x in LiveNodes(g.nodes)
    ensures Contents(r) == Contents(g)
  {
    forall id | id in Contents(r) ensures id in Contents(g) && Contents(g)[id] == Contents(r)[id] {
      InducedKeeps(p, g, order, r, id);
    }
    forall id | id in Contents(g) ensures id in Contents(r) {
      InducedHas(p, g, order, r, id);
    }
    hide Contents, Named, Induced;
  }

  lemma InducedKeeps(p: Params, g: Graph, order: seq<nat>, r: Graph, id: RecordId)
    requires Named(g.nodes, g.ids, p) && Named(r.nodes, r.ids, p) && Induced(g.nodes, order, r.nodes)
    requires (forall x :: x in order <==> x in LiveNodes(g.nodes)) && id in Contents(r)
    ensures id in Contents(g) && Contents(g)[id] == Contents(r)[id]
  {
    var c := r.ids[id];
    assert order[c] in order && g.nodes[order[c]].id == id;
  }

  lemma InducedHas(p: Params, g: Graph, order: seq<nat>, r: Graph, id: RecordId)
    requires Named(g.nodes, g.ids, p) && Named(r.nodes, r.ids, p) && Induced(g.nodes, order, r.nodes)
    requires (forall x :: x in order <==> x in LiveNodes(g.nodes)) && id in Contents(g)
    ensures id in Contents(r)
  {
    var x := g.ids[id];
    assert x in order;
    var c := Rank(order, x);
    assert r.nodes[c].id == id;
  }

  // ---------------------------------------------------------------- the fixed point

  /** In an induced graph whose ids ascend, the canonical order is 0, 1, 2, ... */
  lemma InducedOrder(a: Nodes, order: seq<nat>, b: Nodes)
    requires Induced(a, order, b)
    requires forall i, j | 0 <= i < j < |order| :: IdLess(a[order[i]].id, a[order[j]].id)
    ensures |LiveOrder(b)| == |order| && forall c | 0 <= c < |order| :: LiveOrder(b)[c] == c
  {
    hide IdLess;
    var id: seq<nat> := seq(|order|, i requires 0 <= i < |order| => i as nat);
    AllLive(b);
    ByIdOrder(b);
    var less := ById(b);
    forall i, j | 0 <= i < j < |id| ensures less(id[i], id[j]) {
      assert b[i].id == a[order[i]].id && b[j].id == a[order[j]].id;
    }
    forall x: nat ensures x in LiveOrder(b) <==> x in id {
      if x < |id| { assert id[x] == x; }
    }
    EnumerationUnique<nat>(LiveOrder(b), id, less);
  }

  lemma ReloadOrder(p: Params, g: Graph, vectors: map<RecordId, Vector>)
    requires WellFormed(g, p) && Supplies(vectors, g)
    requires forall i | 0 <= i < |Canonical(g.nodes).nodes| :: Canonical(g.nodes).nodes[i].id in vectors
    ensures |LiveOrder(Reload(g, vectors).nodes)| == |LiveOrder(g.nodes)|
    ensures forall c | 0 <= c < |LiveOrder(g.nodes)| :: LiveOrder(Reload(g, vectors).nodes)[c] == c
  {
    var order := LiveOrder(g.nodes);
    ReloadInduced(p, g, vectors);
    hide Canonical, Build, Linked, Topped, LiveOrder;
    forall i, j | 0 <= i < j < |order| ensures IdLess(g.nodes[order[i]].id, g.nodes[order[j]].id) {
      CanonicalIdsAscend(p, g.nodes, g.ids, i, j);
    }
    InducedOrder(g.nodes, order, Reload(g, vectors).nodes);
  }

  /** Renaming by the identity leaves an increasing list as it is. */
  lemma IdentityList(order: seq<nat>, n: nat, list: seq<nat>)
    requires |order| == n && Distinct(order) && forall c | 0 <= c < n :: order[c] == c
    requires Ascending<nat>(list, NatLess) && forall e | e in list :: e < n
    ensures CanonicalList(order, list) == list
  {
    NatOrder();
    forall e: nat ensures e in CanonicalList(order, list) <==> e in list {
      RenamedMembers(order, list, e);
    }
    EnumerationUnique<nat>(CanonicalList(order, list), list, NatLess);
  }

  /** Serializing what was loaded gives back the same canonical content. */
  lemma ReloadFixed(p: Params, g: Graph, vectors: map<RecordId, Vector>)
    requires WellFormed(g, p) && Supplies(vectors, g)
    requires forall i | 0 <= i < |Canonical(g.nodes).nodes| :: Canonical(g.nodes).nodes[i].id in vectors
    ensures Canonical(Reload(g, vectors).nodes) == Canonical(g.nodes)
  {
    ReloadOrder(p, g, vectors);
    var order, b := LiveOrder(g.nodes), Reload(g, vectors).nodes;
    var raws, raws' := Canonical(g.nodes).nodes, Canonical(b).nodes;
    assert |raws| == |order| && |raws'| == |LiveOrder(b)|;
    SameCanonical(g.nodes, b);
    hide LiveOrder, Canonical, Reload, WellFormed, Supplies;
    forall c | 0 <= c < |order| ensures raws'[c] == raws[c] {
      ReloadNode(p, g, vectors, c);
    }
    assert raws' == raws;
  }

  /** The node records determine the rest of the canonical form. */
  lemma SameCanonical(a: Nodes, b: Nodes)
    ensures Canonical(a).nodes == Canonical(b).nodes ==> Canonical(a) == Canonical(b)
  {
    hide Highest, LiveOrder, CanonicalNode;
  }

  lemma ReloadNode(p: Params, g: Graph, vectors: map<RecordId, Vector>, c: nat)
    requires WellFormed(g, p) && Supplies(vectors, g)
    requires forall i | 0 <= i < |Canonical(g.nodes).nodes| :: Canonical(g.nodes).nodes[i].id in vectors
    requires c < |LiveOrder(g.nodes)| == |LiveOrder(Reload(g, vectors).nodes)|
    requires forall i | 0 <= i < |LiveOrder(g.nodes)| :: LiveOrder(Reload(g, vectors).nodes)[i] == i
    ensures |Canonical(Reload(g, vectors).nodes).nodes| == |LiveOrder(g.nodes)| == |Canonical(g.nodes).nodes|
    ensures Canonical(Reload(g, vectors).nodes).nodes[c] == Canonical(g.nodes).nodes[c]
  {
    var order, b := LiveOrder(g.nodes), Reload(g, vectors).nodes;
    CanonicalNodeAt(g.nodes, c);
    CanonicalNodeAt(b, c);
    var node := g.nodes[order[c]];
    assert |node.neighbors| == node.topLayer + 1;
    assert b[c].neighbors == CanonicalNode(order, node).neighbors && b[c].id == node.id;
    assert b[c].topLayer == node.topLayer;
    hide Canonical, Build, Reload, WellFormed, Supplies;
    RenamedTwice(order, LiveOrder(b), node, b[c]);
  }

  /** Canonicalizing a canonical node under the identity order changes nothing. */
  lemma RenamedTwice(order: seq<nat>, order': seq<nat>, node: Node, again: Node)
    requires Distinct(order) && Distinct(order') && |order'| == |order| && forall i | 0 <= i < |order| :: order'[i] == i
    requires |node.neighbors| == node.topLayer + 1
    requires again.neighbors == CanonicalNode(order, node).neighbors && again.id == node.id
    requires again.topLayer == node.topLayer
    ensures CanonicalNode(order', again) == CanonicalNode(order, node)
  {
    forall l | 0 <= l <= node.topLayer ensures CanonicalList(order', again.neighbors[l]) == again.neighbors[l] {
      NatOrder();
      assert again.neighbors[l] == CanonicalList(order, node.neighbors[l]);
      forall e | e in again.neighbors[l] ensures e < |order| {
        RenamedMembers(order, node.neighbors[l], e);
      }
      IdentityList(order', |order|, again.neighbors[l]);
    }
    assert CanonicalNode(order', again).neighbors == CanonicalNode(order, node).neighbors;
  }
}
