/** Serializing the graph rebuilt from an accepted index region: which regions come back byte for byte. */
module HnswResave {
  import opened Ordering
  import opened Identifiers
  import opened Vectors
  import opened SnapshotFormat
  import opened HnswGraph
  import opened HnswModel
  import opened HnswCanonical
  import opened HnswFormat
  import opened HnswReload
  import opened HnswPersist

  /** A region as the serializer writes it: clamped parameters, strictly ascending ids and neighbour lists, and as
      entry point the first node of the highest layer, under that layer. */
  ghost predicate CanonicalRegion(h: RawHeader, raw: RawGraph) {
    && h.m >= 2 && h.efConstruction >= 1
    && (forall i, j | 0 <= i < j < |raw.nodes| :: IdLess(raw.nodes[i].id, raw.nodes[j].id))
    && (forall i | 0 <= i < |raw.nodes| :: SortedLists(raw.nodes[i]))
    && (raw.entry, raw.maxLevel) == Highest(Tops(raw.nodes))
  }

  ghost predicate SortedLists(n: RawNode) { forall l | l in n.neighbors :: Ascending<nat>(l, NatLess) }

  // ---------------------------------------------------------------- the rebuilt graph

  lemma OrderLength(nodes: Nodes)
    ensures |LiveOrder(nodes)| == |LiveNodes(nodes)|
  {
    ByIdOrder(nodes);
    hide LiveNodes, Precedes;
  }

  /** Every rebuilt node is live, so the canonical order lists all of them. */
  lemma BuiltOrder(raw: RawGraph, vectors: map<RecordId, Vector>)
    requires forall i | 0 <= i < |raw.nodes| :: raw.nodes[i].id in vectors
    ensures var b, order := Build(raw, vectors).nodes, LiveOrder(Build(raw, vectors).nodes);
      && |b| == |raw.nodes| == |order| == |Canonical(b).nodes| && Distinct(order)
      && (forall x: nat :: x in order <==> x < |b|) && forall c | 0 <= c < |order| :: order[c] < |b|
  {
    hide IdsOf, Canonical;
    var b := Build(raw, vectors).nodes;
    AllLive(b);
    CanonicalCount(b);
    OrderLength(b);
    hide LiveOrder, LiveNodes;
    var order := LiveOrder(b);
    forall c | 0 <= c < |order| ensures order[c] < |b| { assert order[c] in order; }
  }

  /** One rebuilt node, and its canonical form. */
  lemma BuiltAt(raw: RawGraph, vectors: map<RecordId, Vector>, c: nat)
    requires c < |raw.nodes| && forall i | 0 <= i < |raw.nodes| :: raw.nodes[i].id in vectors
    ensures var b, order := Build(raw, vectors).nodes, LiveOrder(Build(raw, vectors).nodes);
      && c < |order| == |Canonical(b).nodes| && order[c] < |raw.nodes| == |b|
      && b[order[c]].id == raw.nodes[order[c]].id && b[order[c]].topLayer == raw.nodes[order[c]].topLayer
      && b[order[c]].neighbors == raw.nodes[order[c]].neighbors
      && Canonical(b).nodes[c] == CanonicalNode(order, b[order[c]])
  {
    BuiltOrder(raw, vectors);
    hide LiveOrder, Canonical, CanonicalNode, IdsOf;
    CanonicalNodeAt(Build(raw, vectors).nodes, c);
  }

  // ---------------------------------------------------------------- it fits the format again

  lemma ListStillFits(order: seq<nat>, list: seq<nat>)
    requires Distinct(order) && |list| < TWO32
    ensures FitsList(CanonicalList(order, list), |order|) && |CanonicalList(order, list)| <= |list|
  {
    CanonicalListShort(order, list);
    hide CanonicalList;
    forall e | e in CanonicalList(order, list) ensures e < |order| { RenamedMembers(order, list, e); }
  }

  /** The canonical form of a node that fits the format fits it too, in no more bytes. */
  lemma NodeStillFits(order: seq<nat>, node: Node, raw: RawNode)
    requires Distinct(order) && FitsNode(raw, |order|)
    requires node.id == raw.id && node.topLayer == raw.topLayer && node.neighbors == raw.neighbors
    ensures FitsNode(CanonicalNode(order, node), |order|)
    ensures |NodeBytes(CanonicalNode(order, node))| <= |NodeBytes(raw)|
  {
    hide CanonicalList, LE, LayersBytes, FitsList;
    var lists := CanonicalNode(order, node).neighbors;
    forall l | 0 <= l < |lists| ensures FitsList(lists[l], |order|) && |lists[l]| <= |raw.neighbors[l]| {
      assert raw.neighbors[l] in raw.neighbors;
      ListLength(raw.neighbors[l], |order|);
      ListStillFits(order, raw.neighbors[l]);
    }
    LayersShorter(lists, raw.neighbors);
  }

  lemma ListLength(l: seq<nat>, count: nat)
    requires FitsList(l, count)
    ensures |l| < TWO32
  {
  }

  lemma {:induction false} ListBytesLength(l: seq<nat>)
    ensures |ListBytes(l)| == 4 * |l|
  {
    hide LE;
    if l != [] { ListBytesLength(l[1..]); }
  }

  lemma {:induction false} LayersShorter(a: seq<seq<nat>>, b: seq<seq<nat>>)
    requires |a| == |b| && forall l | 0 <= l < |a| :: |a[l]| <= |b[l]|
    ensures |LayersBytes(a)| <= |LayersBytes(b)|
    decreases |a|
  {
    hide LE, ListBytes;
    if a != [] {
      ListBytesLength(a[0]);
      ListBytesLength(b[0]);
      LayersShorter(a[1..], b[1..]);
    }
  }

  function NodeSize(): RawNode -> nat { n => |NodeBytes(n)| }

  lemma {:induction false} NodesTally(ns: seq<RawNode>)
    ensures |NodesBytes(ns)| == Tally(ns, NodeSize())
  {
    hide NodeBytes;
    if ns != [] { NodesTally(ns[1..]); }
  }

  lemma {:induction false} NodesShorter(a: seq<RawNode>, b: seq<RawNode>)
    requires |a| == |b| && forall c | 0 <= c < |a| :: |NodeBytes(a[c])| <= |NodeBytes(b[c])|
    ensures |NodesBytes(a)| <= |NodesBytes(b)|
    decreases |a|
  {
    hide NodeBytes;
    if a != [] { NodesShorter(a[1..], b[1..]); }
  }

  /** Some of the nodes, in any order, take no more bytes than all of them. */
  lemma ReorderedShorter(order: seq<nat>, ns: seq<RawNode>, picked: seq<RawNode>)
    requires Distinct(order) && DistinctIds(ns) && forall c | 0 <= c < |order| :: order[c] < |ns|
    requires |picked| == |order| && forall c | 0 <= c < |order| :: picked[c] == ns[order[c]]
    ensures |NodesBytes(picked)| <= |NodesBytes(ns)|
  {
    hide NodesBytes, NodeSize;
    forall i, j | 0 <= i < j < |picked| ensures picked[i] != picked[j] {
      assert order[i] != order[j];
    }
    TallyWithin(picked, ns, NodeSize());
    NodesTally(picked);
    NodesTally(ns);
  }

  /** The nodes of the region of a rebuilt graph fit their fields, in no more bytes than the region it came from. */
  lemma NodesStillFit(raw: RawGraph, vectors: map<RecordId, Vector>)
    requires (forall i | 0 <= i < |raw.nodes| :: raw.nodes[i].id in vectors) && DistinctIds(raw.nodes)
    requires forall n | n in raw.nodes :: FitsNode(n, |raw.nodes|)
    ensures var out := Canonical(Build(raw, vectors).nodes).nodes;
      && |out| == |raw.nodes| && (forall n | n in out :: FitsNode(n, |out|))
      && |NodesBytes(out)| <= |NodesBytes(raw.nodes)|
  {
    hide Canonical, LiveOrder, Build, CanonicalNode, FitsNode, NodesBytes, NodeBytes, DistinctIds;
    var b := Build(raw, vectors).nodes;
    var order, out := LiveOrder(b), Canonical(b).nodes;
    BuiltOrder(raw, vectors);
    var picked := seq(|order|, c requires 0 <= c < |order| => raw.nodes[order[c]]);
    forall c | 0 <= c < |out| ensures FitsNode(out[c], |out|) && |NodeBytes(out[c])| <= |NodeBytes(picked[c])| {
      BuiltAt(raw, vectors, c);
      assert raw.nodes[order[c]] in raw.nodes;
      NodeStillFits(order, b[order[c]], raw.nodes[order[c]]);
    }
    NodesShorter(out, picked);
    ReorderedShorter(order, raw.nodes, picked);
  }

  /** The index rebuilt from any accepted region fits the format, in no more bytes. */
  lemma RebuiltStorable(region: Bytes, vectors: map<RecordId, Vector>, dimensionality: nat, metric: Metric)
    requires Loads(region, vectors)
    ensures var (h, raw) := ReadRegion(region).value;
      var p, g := ParamsOf(h, dimensionality, metric), Build(raw, vectors);
      Storable(p, g) && |Region(p, g)| <= |region|
  {
    hide ReadRegion, Canonical, Build, DistinctIds, NodesBytes, FitsNode, LE, ToU32;
    RegionSound(region);
    var (h, raw) := ReadRegion(region).value;
    NodesStillFit(raw, vectors);
    EntryFits(Build(raw, vectors).nodes);
  }

  // ---------------------------------------------------------------- what the serializer writes is canonical

  lemma ListsSorted(order: seq<nat>, node: Node)
    ensures SortedLists(CanonicalNode(order, node))
  {
    hide Renamed;
    var lists := CanonicalNode(order, node).neighbors;
    forall l | l in lists ensures Ascending<nat>(l, NatLess) {
      var k :| 0 <= k < |lists| && lists[k] == l;
      if k < |node.neighbors| { ListSorted(order, node.neighbors[k]); }
    }
  }

  lemma ListSorted(order: seq<nat>, list: seq<nat>)
    ensures Ascending<nat>(CanonicalList(order, list), NatLess)
  {
    hide Renamed;
  }

  lemma IdsAscend(raw: RawGraph, vectors: map<RecordId, Vector>, i: nat, j: nat)
    requires (forall i | 0 <= i < |raw.nodes| :: raw.nodes[i].id in vectors) && DistinctIds(raw.nodes)
    requires i < j < |raw.nodes|
    ensures var out := Canonical(Build(raw, vectors).nodes).nodes; |out| > j && IdLess(out[i].id, out[j].id)
  {
    hide Canonical, LiveOrder, Build, IdLess;
    var b := Build(raw, vectors).nodes;
    BuiltOrder(raw, vectors);
    BuiltAt(raw, vectors, i);
    BuiltAt(raw, vectors, j);
    OrderAscends(b, i, j);
    var x, y := LiveOrder(b)[i], LiveOrder(b)[j];
    assert x != y;
    assert raw.nodes[x].id != raw.nodes[y].id;
  }

  /** The serializer writes canonical regions only. */
  lemma WrittenIsCanonical(h: RawHeader, raw: RawGraph, vectors: map<RecordId, Vector>, dimensionality: nat,
                           metric: Metric)
    requires (forall i | 0 <= i < |raw.nodes| :: raw.nodes[i].id in vectors) && DistinctIds(raw.nodes)
    ensures CanonicalRegion(HeaderOf(ParamsOf(h, dimensionality, metric)), Canonical(Build(raw, vectors).nodes))
  {
    var b := Build(raw, vectors).nodes;
    var out := Canonical(b);
    assert (out.entry, out.maxLevel) == Highest(Tops(out.nodes));
    hide Canonical, LiveOrder, Build, IdLess, Highest, Tops, SortedLists, CanonicalNode, DistinctIds;
    BuiltOrder(raw, vectors);
    forall i, j | 0 <= i < j < |out.nodes| ensures IdLess(out.nodes[i].id, out.nodes[j].id) {
      IdsAscend(raw, vectors, i, j);
    }
    forall i | 0 <= i < |out.nodes| ensures SortedLists(out.nodes[i]) {
      BuiltAt(raw, vectors, i);
      ListsSorted(LiveOrder(b), b[LiveOrder(b)[i]]);
    }
  }

  // ---------------------------------------------------------------- what is canonical is written again

  lemma OrderIs(nodes: Nodes, order: seq<nat>)
    requires forall i, j | 0 <= i < j < |order| :: Precedes(nodes, order[i], order[j])
    requires forall x: nat :: x in order <==> x in LiveOrder(nodes)
    ensures LiveOrder(nodes) == order
  {
    hide Precedes, LiveNodes;
    ByIdOrder(nodes);
    EnumerationUnique<nat>(LiveOrder(nodes), order, ById(nodes));
  }

  /** Nodes in id order are listed as 0, 1, 2, ... */
  lemma OrderedAlready(raw: RawGraph, vectors: map<RecordId, Vector>)
    requires forall i | 0 <= i < |raw.nodes| :: raw.nodes[i].id in vectors
    requires forall i, j | 0 <= i < j < |raw.nodes| :: IdLess(raw.nodes[i].id, raw.nodes[j].id)
    ensures var order := LiveOrder(Build(raw, vectors).nodes);
      |order| == |raw.nodes| && forall c | 0 <= c < |order| :: order[c] == c
  {
    hide IdLess, IdsOf;
    var b := Build(raw, vectors).nodes;
    BuiltOrder(raw, vectors);
    var order := LiveOrder(b);
    var id: seq<nat> := seq(|b|, i requires 0 <= i < |b| => i as nat);
    forall x: nat ensures x in order <==> x in id {
      if x < |id| { assert id[x] == x; }
    }
    forall i, j | 0 <= i < j < |id| ensures Precedes(b, id[i], id[j]) {
      assert b[i].id == raw.nodes[i].id && b[j].id == raw.nodes[j].id;
    }
    hide Build;
    OrderIs(b, id);
  }

  lemma NodeUnchanged(order: seq<nat>, node: Node, raw: RawNode)
    requires Distinct(order) && (forall c | 0 <= c < |order| :: order[c] == c) && FitsNode(raw, |order|)
    requires node.id == raw.id && node.topLayer == raw.topLayer && node.neighbors == raw.neighbors
    requires SortedLists(raw)
    ensures CanonicalNode(order, node) == raw
  {
    hide CanonicalList;
    forall l | 0 <= l < |raw.neighbors| ensures CanonicalList(order, raw.neighbors[l]) == raw.neighbors[l] {
      assert raw.neighbors[l] in raw.neighbors;
      IdentityList(order, |order|, raw.neighbors[l]);
    }
    assert CanonicalNode(order, node).neighbors == raw.neighbors;
  }

  /** The graph rebuilt from a canonical region serializes to the same content. */
  lemma CanonicalKept(h: RawHeader, raw: RawGraph, vectors: map<RecordId, Vector>)
    requires (forall i | 0 <= i < |raw.nodes| :: raw.nodes[i].id in vectors) && CanonicalRegion(h, raw)
    requires forall n | n in raw.nodes :: FitsNode(n, |raw.nodes|)
    ensures Canonical(Build(raw, vectors).nodes) == raw
  {
    var b := Build(raw, vectors).nodes;
    var out := Canonical(b);
    assert (out.entry, out.maxLevel) == Highest(Tops(out.nodes));
    hide Canonical, LiveOrder, Build, IdLess, Highest, Tops, SortedLists, CanonicalNode, FitsNode;
    OrderedAlready(raw, vectors);
    BuiltOrder(raw, vectors);
    forall c | 0 <= c < |out.nodes| ensures out.nodes[c] == raw.nodes[c] {
      BuiltAt(raw, vectors, c);
      assert raw.nodes[c] in raw.nodes;
      NodeUnchanged(LiveOrder(b), b[c], raw.nodes[c]);
    }
    assert out.nodes == raw.nodes;
  }

  // ---------------------------------------------------------------- the exact condition

  /** Saving the graph rebuilt from an accepted region writes that region again if and only if it is canonical. */
  lemma RegionResaved(region: Bytes, vectors: map<RecordId, Vector>, dimensionality: nat, metric: Metric)
    requires Loads(region, vectors)
    ensures var (h, raw) := ReadRegion(region).value;
      Region(ParamsOf(h, dimensionality, metric), Build(raw, vectors)) == region <==> CanonicalRegion(h, raw)
  {
    hide ReadRegion, Canonical, Build, CanonicalRegion, FitsNode, RegionBytes, FitsHeader, FitsGraph, DistinctIds;
    var (h, raw) := ReadRegion(region).value;
    var p, g := ParamsOf(h, dimensionality, metric), Build(raw, vectors);
    RegionSound(region);
    if Region(p, g) == region {
      RebuiltStorable(region, vectors, dimensionality, metric);
      RegionRoundTrip(HeaderOf(p), Canonical(g.nodes));
      WrittenIsCanonical(h, raw, vectors, dimensionality, metric);
    }
    if CanonicalRegion(h, raw) {
      CanonicalKept(h, raw, vectors);
      ClampsNothing(h, raw, dimensionality, metric);
    }
  }

  lemma ClampsNothing(h: RawHeader, raw: RawGraph, dimensionality: nat, metric: Metric)
    requires CanonicalRegion(h, raw)
    ensures HeaderOf(ParamsOf(h, dimensionality, metric)) == h
  {
    hide SortedLists, IdLess, Highest;
  }
}
